/** `POST /items`: validation, then up to MaxRetries + 1 calls of `AddItem`
    through the circuit breaker, with a doubling backoff after every
    `RpcError` and a fresh stub whenever the breaker is not CLOSED.

    The backend and the breaker are not modelled: the attempt number k is
    given `env[k]`, the outcome of its `breaker.call` together with the state
    the breaker is in afterwards. The loop reads that state before the next
    attempt. */
module AddItem {
  import opened Items

  const MaxRetries: nat := 2
  const MaxAttempts: nat := MaxRetries + 1
  const InitialDelay: nat := 1

  /** `breaker.current_state` */
  datatype BreakerState = Closed | Open | HalfOpen

  /** How one `breaker.call(gRPC_methods.AddItem, …)` ends. */
  datatype Outcome =
      /** the response has `result` true and carries `added_item` */
    | Added(item: Item)
      /** the response has `result` false */
    | Rejected
      /** the call raised `grpc.RpcError` with this status code */
    | RpcErr(code: GrpcCode)
      /** the breaker raised `CircuitBreakerError` */
    | BreakerOpen

  /** One attempt as the environment decides it. */
  datatype Call = Call(outcome: Outcome, after: BreakerState)

  /** An `ItemServiceStub`, named by the number of the channel it was built
      on; channel 0 is the module-level `gRPC_channel`. */
  datatype Stub = Stub(channel: nat)

  /** One `breaker.call(gRPC_methods.AddItem, grpc_request, …)` made: the
      stub it names and the request it carries. When the breaker refuses
      (`BreakerOpen`) the call never reaches the backend. */
  datatype Sent = Sent(stub: Stub, request: Item)

  /** The gateway's shared state: the breaker's state, the global stub
      `gRPC_methods`, and how many channels have been opened so far. */
  datatype Gw = Gw(breaker: BreakerState, stub: Stub, channels: nat)

  /** The current stub was built on a channel already opened. */
  predicate GwValid(g: Gw)
  {
    g.stub.channel < g.channels
  }

  /** What a request does: its reply, the delays it slept, the
      `breaker.call` invocations it made in order, and the shared state it
      leaves behind. */
  datatype Trace = Trace(reply: Reply, sleeps: seq<nat>, calls: seq<Sent>, after: Gw)

  /** The guard `all([isinstance(item_id, int), name])`. */
  predicate BodyValid(id: Json, name: Json)
    ensures id.Int? && name.Str? && name.s != [] ==> BodyValid(id, name)
    ensures id.Null? || id.Str? || id.Float? || id.List? || id.Object? ==> !BodyValid(id, name)
    ensures name.Null? || name == Str([]) || name == Int(0) || name == Bool(false) ==> !BodyValid(id, name)
  {
    IsInt(id) && Truthy(name)
  }

  function Pow2(n: nat): (p: nat)
    ensures p >= 1
  {
    if n == 0 then 1 else 2 * Pow2(n - 1)
  }

  function Sum(s: seq<nat>): nat
  {
    if s == [] then 0 else s[0] + Sum(s[1..])
  }

  /** The reply of an attempt that ends the loop. */
  function Final(o: Outcome): (r: Reply)
    requires !o.RpcErr?
    ensures o.Added? ==> r == Created(o.item)
    ensures r.Created? ==> o.Added?
    ensures o.Rejected? <==> r == Raised(409)
    ensures o.BreakerOpen? <==> r == CircuitOpen
  {
    match o
    case Added(item) => Created(item)
    case Rejected => Raised(409)
    case BreakerOpen => CircuitOpen
  }

  /** The stub attempt uses and the channel count after it: when the breaker
      is not CLOSED a new channel is opened and a stub on it replaces the
      global one before the call. */
  function StubForAttempt(g: Gw): (r: (Stub, nat))
    ensures r.1 >= g.channels
    ensures GwValid(g) ==> GwValid(Gw(g.breaker, r.0, r.1))
    ensures g.breaker == Closed ==> r == (g.stub, g.channels)
    ensures g.breaker != Closed ==>
      r.0.channel >= g.channels && r.1 == r.0.channel + 1 && (GwValid(g) ==> r.0 != g.stub)
  {
    if g.breaker == Closed then (g.stub, g.channels)
    else (Stub(g.channels), g.channels + 1)
  }

  /** Attempts number `attempt` up to MaxAttempts - 1, with `delay` the
      current backoff: the loop `for attempt in range(MAX_RETRIES + 1)`. */
  function Attempts(g: Gw, req: Item, env: seq<Call>, attempt: nat, delay: nat): (t: Trace)
    requires attempt <= MaxAttempts == |env|
    ensures |t.calls| <= MaxAttempts - attempt
    ensures t.reply.Created? || t.reply == Raised(409) || t.reply == CircuitOpen || t.reply == Nothing
    ensures t.after.channels >= g.channels
    decreases MaxAttempts - attempt
  {
    if attempt == MaxAttempts then Trace(Nothing, [], [], g)
    else
      var (stub, channels) := StubForAttempt(g);
      var c := env[attempt];
      var g' := Gw(c.after, stub, channels);
      if c.outcome.RpcErr? then
        var t := Attempts(g', req, env, attempt + 1, delay * 2);
        Trace(t.reply, [delay] + t.sleeps, [Sent(stub, req)] + t.calls, t.after)
      else
        Trace(Final(c.outcome), [], [Sent(stub, req)], g')
  }

  /** The whole handler on the body's `id` and `name` fields. */
  function AddItemSpec(g: Gw, id: Json, name: Json, env: seq<Call>): (t: Trace)
    requires |env| == MaxAttempts
    ensures t.reply == Raised(400) <==> !BodyValid(id, name)
    ensures t.reply == Uncaught <==> BodyValid(id, name) && !name.Str?
    ensures t.calls == [] <==> !(BodyValid(id, name) && name.Str?)
    ensures t.calls == [] ==> t.after == g && t.sleeps == []
    ensures |t.calls| <= MaxAttempts
  {
    if !BodyValid(id, name) then Trace(Raised(400), [], [], g)
    else
      match MakeItem(AsInt(id), name)
      case None => Trace(Uncaught, [], [], g)
      case Some(req) => Attempts(g, req, env, 0, InitialDelay)
  }

  /** How many of the outcomes, from the first on, raise `RpcError`. */
  function Failures(env: seq<Call>): (n: nat)
    ensures n <= |env|
    ensures forall i | 0 <= i < n :: env[i].outcome.RpcErr?
    ensures n < |env| ==> !env[n].outcome.RpcErr?
  {
    if env == [] || !env[0].outcome.RpcErr? then 0 else 1 + Failures(env[1..])
  }

  /** The loop in closed form: starting at `attempt`, the F = Failures of
      the remaining outcomes are each followed by a sleep of the doubled
      delay; the (F+1)-th attempt, if there is one, decides the reply, and
      no attempt is left, the reply is None. */
  lemma {:induction false} AttemptsClosedForm(g: Gw, req: Item, env: seq<Call>, attempt: nat, delay: nat)
    requires attempt <= MaxAttempts == |env|
    ensures var t := Attempts(g, req, env, attempt, delay);
      var f := Failures(env[attempt..]);
      && |t.sleeps| == f
      && (forall i | 0 <= i < f :: t.sleeps[i] == delay * Pow2(i))
      && |t.calls| == (if attempt + f < MaxAttempts then f + 1 else f)
      && (forall i | 0 <= i < |t.calls| :: t.calls[i].request == req)
      && t.reply == (if attempt + f < MaxAttempts then Final(env[attempt + f].outcome) else Nothing)
      && t.after.breaker == (if t.calls == [] then g.breaker else env[attempt + |t.calls| - 1].after)
    decreases MaxAttempts - attempt
  {
    var tail := env[attempt..];
    if attempt < MaxAttempts {
      assert tail[0] == env[attempt];
      if env[attempt].outcome.RpcErr? {
        assert tail[1..] == env[attempt + 1..];
        var (stub, channels) := StubForAttempt(g);
        var g' := Gw(env[attempt].after, stub, channels);
        AttemptsClosedForm(g', req, env, attempt + 1, delay * 2);
        var t' := Attempts(g', req, env, attempt + 1, delay * 2);
        var t := Attempts(g, req, env, attempt, delay);
        assert t.sleeps == [delay] + t'.sleeps;
        forall i | 0 < i < |t.sleeps| ensures t.sleeps[i] == delay * Pow2(i) {
          assert t.sleeps[i] == t'.sleeps[i - 1] == delay * 2 * Pow2(i - 1);
        }
      }
    }
  }

  /** A body failing validation is answered 400 with no RPC and no sleep,
      and only such a body is. */
  lemma {:induction false} InvalidBodyRejected(g: Gw, id: Json, name: Json, env: seq<Call>)
    requires |env| == MaxAttempts
    ensures var t := AddItemSpec(g, id, name, env);
      (t.reply == Raised(400) <==> !BodyValid(id, name))
      && (!BodyValid(id, name) ==> t.calls == [] && t.sleeps == [] && t.after == g)
  {
    if BodyValid(id, name) && name.Str? {
      AttemptsClosedForm(g, Item(AsInt(id), name.s), env, 0, InitialDelay);
    }
  }

  /** A valid body makes at least one and at most MaxRetries + 1 = 3 RPC
      attempts, every one carrying the same request built from the body. */
  lemma AttemptsBounded(g: Gw, id: Json, name: Json, env: seq<Call>)
    requires |env| == MaxAttempts
    ensures var t := AddItemSpec(g, id, name, env);
      && |t.calls| <= MaxAttempts == 3
      && (BodyValid(id, name) && name.Str? ==>
            1 <= |t.calls| && forall i | 0 <= i < |t.calls| :: t.calls[i].request == Item(AsInt(id), name.s))
      && (!(BodyValid(id, name) && name.Str?) ==> t.calls == [])
  {
    if BodyValid(id, name) && name.Str? {
      AttemptsClosedForm(g, Item(AsInt(id), name.s), env, 0, InitialDelay);
    }
  }

  /** The backoff starts at 1 and doubles: the i-th sleep is 2^i, there is
      one sleep per `RpcError`, so at most 1, 2, 4. */
  lemma Backoff(g: Gw, id: Json, name: Json, env: seq<Call>)
    requires |env| == MaxAttempts
    ensures var t := AddItemSpec(g, id, name, env);
      && (forall i | 0 <= i < |t.sleeps| :: t.sleeps[i] == Pow2(i))
      && |t.sleeps| == (if BodyValid(id, name) && name.Str? then Failures(env) else 0)
      && t.sleeps <= [1, 2, 4]
  {
    if BodyValid(id, name) && name.Str? {
      AttemptsClosedForm(g, Item(AsInt(id), name.s), env, 0, InitialDelay);
      assert env[0..] == env;
    }
  }

  /** Every attempt raising `RpcError` falls off the end of the loop: the
      handler returns None (no 503), after three calls and sleeps 1, 2 and 4,
      7 in all, the last sleep following the last call. And this is the
      only way a valid body gets no reply. */
  lemma {:induction false} Exhaustion(g: Gw, id: Json, name: Json, env: seq<Call>)
    requires |env| == MaxAttempts
    requires BodyValid(id, name) && name.Str?
    ensures var t := AddItemSpec(g, id, name, env);
      && (t.reply == Nothing <==> forall k | 0 <= k < MaxAttempts :: env[k].outcome.RpcErr?)
      && (t.reply == Nothing ==> |t.calls| == 3 && t.sleeps == [1, 2, 4] && Sum(t.sleeps) == 7)
  {
    AttemptsClosedForm(g, Item(AsInt(id), name.s), env, 0, InitialDelay);
    assert env[0..] == env;
    var t := AddItemSpec(g, id, name, env);
    if t.reply == Nothing {
      assert Failures(env) == MaxAttempts;
      assert t.sleeps == [1, 2, 4];
      assert [1, 2, 4][1..] == [2, 4] && [2, 4][1..] == [4] && [4][1..] == [];
    }
  }

  /** The attempt that does not raise `RpcError` ends the request at once,
      with no sleep after it and no further call: `CircuitBreakerError`
      gives 503, `result` true gives 201 with `added_item` echoed, and
      `result` false gives 409, which is never retried. */
  lemma {:induction false} FirstNonErrorDecides(g: Gw, id: Json, name: Json, env: seq<Call>, k: nat)
    requires |env| == MaxAttempts
    requires BodyValid(id, name) && name.Str?
    requires k < MaxAttempts && !env[k].outcome.RpcErr?
    requires forall j | 0 <= j < k :: env[j].outcome.RpcErr?
    ensures var t := AddItemSpec(g, id, name, env);
      && |t.calls| == k + 1
      && |t.sleeps| == k
      && t.after.breaker == env[k].after
      && (env[k].outcome.BreakerOpen? ==> t.reply == CircuitOpen && HttpStatus(t.reply) == 503)
      && (env[k].outcome.Added? ==> t.reply == Created(env[k].outcome.item) && HttpStatus(t.reply) == 201)
      && (env[k].outcome.Rejected? ==> t.reply == Raised(409))
  {
    AttemptsClosedForm(g, Item(AsInt(id), name.s), env, 0, InitialDelay);
    assert env[0..] == env;
    FailuresAt(env, k);
  }

  /** Every `RpcError` is retried, whatever its status code: NOT_FOUND or
      ALREADY_EXISTS on the first attempt are slept on and followed by a
      second attempt, just as UNAVAILABLE is. */
  lemma AnyRpcErrorRetried(g: Gw, id: Json, name: Json, env: seq<Call>)
    requires |env| == MaxAttempts
    requires BodyValid(id, name) && name.Str?
    requires env[0].outcome.RpcErr?
    ensures var t := AddItemSpec(g, id, name, env);
      |t.calls| >= 2 && |t.sleeps| >= 1 && t.sleeps[0] == InitialDelay
  {
    AttemptsClosedForm(g, Item(AsInt(id), name.s), env, 0, InitialDelay);
    assert env[0..] == env;
  }

  /** The count of leading failures is the index of the first non-failure. */
  lemma {:induction false} FailuresAt(env: seq<Call>, k: nat)
    requires k < |env| && !env[k].outcome.RpcErr?
    requires forall j | 0 <= j < k :: env[j].outcome.RpcErr?
    ensures Failures(env) == k
  {
    if k > 0 {
      assert env[0].outcome.RpcErr?;
      FailuresAt(env[1..], k - 1);
    }
  }

  /** The breaker state read before the i-th call a run starting at
      `attempt` makes. */
  function StateBefore(g: Gw, env: seq<Call>, attempt: nat, i: nat): BreakerState
    requires attempt + i <= |env|
  {
    if i == 0 then g.breaker else env[attempt + i - 1].after
  }

  /** Stub discipline after a run: the global stub is the one the last call
      went through (untouched when there was no call), built on a channel
      already opened, and no channel is ever un-opened. */
  lemma {:induction false} StubAfterRun(g: Gw, req: Item, env: seq<Call>, attempt: nat, delay: nat)
    requires attempt <= MaxAttempts == |env|
    requires GwValid(g)
    ensures var t := Attempts(g, req, env, attempt, delay);
      && attempt + |t.calls| <= MaxAttempts
      && GwValid(t.after)
      && t.after.channels >= g.channels
      && (t.calls == [] ==> t.after == g)
      && (t.calls != [] ==> t.after.stub == t.calls[|t.calls| - 1].stub)
    decreases MaxAttempts - attempt
  {
    if attempt < MaxAttempts && env[attempt].outcome.RpcErr? {
      var (stub, channels) := StubForAttempt(g);
      StubAfterRun(Gw(env[attempt].after, stub, channels), req, env, attempt + 1, delay * 2);
    }
  }

  /** The i-th call of a run: while the breaker is CLOSED it goes through
      the stub already in place (the previous call's, or the global one);
      otherwise through a stub on a channel opened for it, numbered at or
      above every channel opened before the run. */
  lemma {:induction false} StubAtCall(g: Gw, req: Item, env: seq<Call>, attempt: nat, delay: nat, i: nat)
    requires attempt <= MaxAttempts == |env|
    requires GwValid(g)
    requires i < |Attempts(g, req, env, attempt, delay).calls|
    ensures var t := Attempts(g, req, env, attempt, delay);
      && attempt + i < MaxAttempts
      && t.calls[i].stub.channel < t.after.channels
      && (StateBefore(g, env, attempt, i) == Closed ==>
            t.calls[i].stub == (if i == 0 then g.stub else t.calls[i - 1].stub))
      && (StateBefore(g, env, attempt, i) != Closed ==> t.calls[i].stub.channel >= g.channels)
    decreases MaxAttempts - attempt
  {
    var (stub, channels) := StubForAttempt(g);
    var g' := Gw(env[attempt].after, stub, channels);
    var t := Attempts(g, req, env, attempt, delay);
    StubAfterRun(g, req, env, attempt, delay);
    if env[attempt].outcome.RpcErr? {
      var t' := Attempts(g', req, env, attempt + 1, delay * 2);
      assert t.calls == [Sent(stub, req)] + t'.calls && t.after == t'.after;
      StubAfterRun(g', req, env, attempt + 1, delay * 2);
      if i > 0 {
        StubAtCall(g', req, env, attempt + 1, delay * 2, i - 1);
        assert t.calls[i] == t'.calls[i - 1];
        assert StateBefore(g, env, attempt, i) == StateBefore(g', env, attempt + 1, i - 1);
      }
    } else {
      assert t.calls == [Sent(stub, req)] && t.after == g';
    }
  }

  /** A call made while the breaker is not CLOSED goes through a stub that
      no earlier call of the run used. */
  lemma {:induction false} FreshStub(g: Gw, req: Item, env: seq<Call>, attempt: nat, delay: nat, j: nat, i: nat)
    requires attempt <= MaxAttempts == |env|
    requires GwValid(g)
    requires j < i < |Attempts(g, req, env, attempt, delay).calls| && attempt + i <= |env|
    requires StateBefore(g, env, attempt, i) != Closed
    ensures var t := Attempts(g, req, env, attempt, delay);
      t.calls[j].stub.channel < t.calls[i].stub.channel
    decreases MaxAttempts - attempt
  {
    var (stub, channels) := StubForAttempt(g);
    var g' := Gw(env[attempt].after, stub, channels);
    var t := Attempts(g, req, env, attempt, delay);
    var t' := Attempts(g', req, env, attempt + 1, delay * 2);
    assert t.calls == [Sent(stub, req)] + t'.calls;
    assert StateBefore(g, env, attempt, i) == StateBefore(g', env, attempt + 1, i - 1);
    StubAtCall(g', req, env, attempt + 1, delay * 2, i - 1);
    assert t.calls[i] == t'.calls[i - 1];
    if j > 0 {
      FreshStub(g', req, env, attempt + 1, delay * 2, j - 1, i - 1);
      assert t.calls[j] == t'.calls[j - 1];
    }
  }

  /** The handler's stub discipline: before each call it reads the breaker;
      when the state is CLOSED the call uses the stub in place, otherwise a
      new channel is opened and a stub on it, different from the one in
      place before the request and from every one used earlier in it,
      replaces the global stub before the call. */
  lemma StubReplacement(g: Gw, id: Json, name: Json, env: seq<Call>)
    requires |env| == MaxAttempts && GwValid(g)
    ensures var t := AddItemSpec(g, id, name, env);
      && GwValid(t.after)
      && (t.calls == [] ==> t.after == g)
      && (t.calls != [] ==> t.after.stub == t.calls[|t.calls| - 1].stub)
      && (forall i | 0 <= i < |t.calls| && StateBefore(g, env, 0, i) == Closed ::
            t.calls[i].stub == (if i == 0 then g.stub else t.calls[i - 1].stub))
      && (forall i | 0 <= i < |t.calls| && StateBefore(g, env, 0, i) != Closed ::
            t.calls[i].stub != g.stub && forall j | 0 <= j < i :: t.calls[j].stub != t.calls[i].stub)
  {
    if BodyValid(id, name) && name.Str? {
      var req := Item(AsInt(id), name.s);
      var t := Attempts(g, req, env, 0, InitialDelay);
      StubAfterRun(g, req, env, 0, InitialDelay);
      forall i | 0 <= i < |t.calls|
        ensures StateBefore(g, env, 0, i) == Closed ==>
          t.calls[i].stub == (if i == 0 then g.stub else t.calls[i - 1].stub)
        ensures StateBefore(g, env, 0, i) != Closed ==>
            t.calls[i].stub != g.stub && forall j | 0 <= j < i :: t.calls[j].stub != t.calls[i].stub
      {
        StubAtCall(g, req, env, 0, InitialDelay, i);
        if StateBefore(g, env, 0, i) != Closed {
          forall j | 0 <= j < i ensures t.calls[j].stub != t.calls[i].stub {
            FreshStub(g, req, env, 0, InitialDelay, j, i);
          }
        }
      }
    }
  }

  /** The whole handler keeps the stub invariant and, when the breaker is
      CLOSED throughout, never opens a channel. */
  lemma ClosedKeepsStub(g: Gw, id: Json, name: Json, env: seq<Call>)
    requires |env| == MaxAttempts && GwValid(g)
    requires g.breaker == Closed && forall k | 0 <= k < MaxAttempts :: env[k].after == Closed
    ensures var t := AddItemSpec(g, id, name, env);
      && GwValid(t.after)
      && t.after.stub == g.stub && t.after.channels == g.channels
      && forall i | 0 <= i < |t.calls| :: t.calls[i].stub == g.stub
  {
    if BodyValid(id, name) && name.Str? {
      ClosedRun(g, Item(AsInt(id), name.s), env, 0, InitialDelay);
    }
  }

  lemma {:induction false} ClosedRun(g: Gw, req: Item, env: seq<Call>, attempt: nat, delay: nat)
    requires attempt <= MaxAttempts == |env| && GwValid(g)
    requires g.breaker == Closed && forall k | 0 <= k < MaxAttempts :: env[k].after == Closed
    ensures var t := Attempts(g, req, env, attempt, delay);
      && t.after.stub == g.stub && t.after.channels == g.channels
      && forall i | 0 <= i < |t.calls| :: t.calls[i].stub == g.stub
    decreases MaxAttempts - attempt
  {
    if attempt < MaxAttempts && env[attempt].outcome.RpcErr? {
      ClosedRun(Gw(Closed, g.stub, g.channels), req, env, attempt + 1, delay * 2);
    }
  }

  /** The process-wide state `add_item` works on: the breaker's state and
      the global `gRPC_methods` stub, which the handler reassigns. */
  class Gateway {
    var breaker: BreakerState
    var stub: Stub
    var channels: nat

    ghost predicate Valid()
      reads this
    {
      GwValid(State())
    }

    function State(): (g: Gw)
      reads this
      ensures g.breaker == breaker && g.stub == stub && g.channels == channels
    {
      Gw(breaker, stub, channels)
    }

    /** Module load: one channel, a stub on it, a CLOSED breaker. */
    constructor ()
      ensures Valid()
      ensures breaker == Closed && stub == Stub(0) && channels == 1
    {
      breaker := Closed;
      stub := Stub(0);
      channels := 1;
    }

    /** `add_item` for a body whose fields `id` and `name` are given, with
        the outcome of each attempt in `env`. */
    method AddItem(id: Json, name: Json, env: seq<Call>) returns (reply: Reply, sleeps: seq<nat>, calls: seq<Sent>)
      requires Valid() && |env| == MaxAttempts
      modifies this
      ensures Valid()
      ensures Trace(reply, sleeps, calls, State()) == AddItemSpec(old(State()), id, name, env)
    {
      sleeps, calls := [], [];
      if !BodyValid(id, name) {
        return Raised(400), sleeps, calls;
      }
      var request := MakeItem(AsInt(id), name);
      if request.None? {
        return Uncaught, sleeps, calls;
      }
      var req := request.value;
      ghost var g0 := State();
      var delay := InitialDelay;
      for attempt := 0 to MaxAttempts
        invariant Valid()
        invariant delay == Pow2(attempt)
        invariant Attempts(g0, req, env, 0, InitialDelay) == Prefixed(sleeps, calls, Attempts(State(), req, env, attempt, delay))
      {
        ghost var before := State();
        if breaker != Closed {
          // a new channel, and a stub on it replacing the global one
          stub := Stub(channels);
          channels := channels + 1;
        }
        var sent := Sent(stub, req);
        var c := env[attempt];
        breaker := c.after;
        assert StubForAttempt(before) == (stub, channels);
        AttemptsStep(before, req, env, attempt, delay);
        match c.outcome {
          case Added(item) =>
            assert sleeps + [] == sleeps;
            return Created(item), sleeps, calls + [sent];
          case Rejected =>
            assert sleeps + [] == sleeps;
            return Raised(409), sleeps, calls + [sent];
          case BreakerOpen =>
            assert sleeps + [] == sleeps;
            return CircuitOpen, sleeps, calls + [sent];
          case RpcErr(_) =>
            PrefixedAssoc(sleeps, calls, [delay], [sent], Attempts(State(), req, env, attempt + 1, delay * 2));
            calls := calls + [sent];
            sleeps := sleeps + [delay];
            delay := delay * 2;
        }
      }
      reply := Nothing;
      assert sleeps + [] == sleeps && calls + [] == calls;
    }
  }

  /** One turn of the loop: the first attempt of a run either ends it or is
      followed by its sleep and the rest of the run. */
  lemma AttemptsStep(g: Gw, req: Item, env: seq<Call>, attempt: nat, delay: nat)
    requires attempt < MaxAttempts == |env|
    ensures var g' := Gw(env[attempt].after, StubForAttempt(g).0, StubForAttempt(g).1);
      Attempts(g, req, env, attempt, delay) ==
        if env[attempt].outcome.RpcErr? then
          Prefixed([delay], [Sent(g'.stub, req)], Attempts(g', req, env, attempt + 1, delay * 2))
        else Trace(Final(env[attempt].outcome), [], [Sent(g'.stub, req)], g')
  {
  }

  /** A trace preceded by the sleeps and calls already made. */
  function Prefixed(s: seq<nat>, c: seq<Sent>, t: Trace): Trace
  {
    Trace(t.reply, s + t.sleeps, c + t.calls, t.after)
  }

  lemma PrefixedAssoc(s: seq<nat>, c: seq<Sent>, s1: seq<nat>, c1: seq<Sent>, t: Trace)
    ensures Prefixed(s, c, Prefixed(s1, c1, t)) == Prefixed(s + s1, c + c1, t)
  {
    assert s + (s1 + t.sleeps) == (s + s1) + t.sleeps;
    assert c + (c1 + t.calls) == (c + c1) + t.calls;
  }
}
