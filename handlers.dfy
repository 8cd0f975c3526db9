/** The read, update and delete handlers: each sends one RPC on a channel
    of its own (no breaker, no retry) and maps the response flag or the
    gRPC status code of an `RpcError` to the HTTP reply. */
module Handlers {
  import opened Items

  /** How a unary RPC ends: a response, or `RpcError` with a status code. */
  datatype Rpc<+T> = Returned(response: T) | Failed(code: GrpcCode)

  /** One message of the `GetItem` response stream. */
  datatype GetResponse = GetResponse(result: bool, requestedItem: Item)

  /** The `GetItem` stream as the handler iterates it: the messages that
      arrive, then, if `error` is set, the `RpcError` that ends it. */
  datatype Stream = Stream(responses: seq<GetResponse>, error: Option<GrpcCode>)

  datatype UpdateResponse = UpdateResponse(result: bool, oldItem: Item, newItem: Item)

  datatype DeleteResponse = DeleteResponse(result: bool, deletedItem: Item)

  /** A handler's reply and the request message it sent, if it sent one. */
  datatype Exchange = Exchange(reply: Reply, sent: Option<Item>)

  /** The `except grpc.RpcError` branch of `get_items` and `delete_item`. */
  function LookupErrorStatus(code: GrpcCode): (status: int)
    ensures status == 404 <==> code == NotFound
    ensures status == 500 <==> code != NotFound
  {
    if code == NotFound then 404 else 500
  }

  /** The `except grpc.RpcError` branch of `update_item`: it differs from
      the other two only in answering ALREADY_EXISTS with 409. */
  function UpdateErrorStatus(code: GrpcCode): (status: int)
    ensures status == 404 <==> code == NotFound
    ensures status == 409 <==> code == AlreadyExists
    ensures status == 500 <==> code != NotFound && code != AlreadyExists
    ensures code != AlreadyExists ==> status == LookupErrorStatus(code)
  {
    if code == NotFound then 404
    else if code == AlreadyExists then 409
    else 500
  }

  /** The list comprehension that keeps the items of the responses with
      `result` true. */
  function Kept(rs: seq<GetResponse>): (items: seq<Item>)
    ensures |items| <= |rs|
    ensures items == [] <==> forall i | 0 <= i < |rs| :: !rs[i].result
  {
    if rs == [] then []
    else (if rs[0].result then [rs[0].requestedItem] else []) + Kept(rs[1..])
  }

  /** An item is kept exactly when some response with `result` true
      carries it. */
  lemma {:induction false} KeptMembers(rs: seq<GetResponse>, x: Item)
    ensures x in Kept(rs) <==> exists i | 0 <= i < |rs| :: rs[i].result && rs[i].requestedItem == x
  {
    if rs != [] {
      KeptMembers(rs[1..], x);
      if x in Kept(rs[1..]) {
        var i :| 0 <= i < |rs[1..]| && rs[1..][i].result && rs[1..][i].requestedItem == x;
        assert rs[i + 1] == rs[1..][i];
      }
      if exists i | 0 <= i < |rs| :: rs[i].result && rs[i].requestedItem == x {
        var i :| 0 <= i < |rs| && rs[i].result && rs[i].requestedItem == x;
        if i > 0 {
          assert rs[1..][i - 1] == rs[i];
        }
      }
    }
  }

  /** Filtering keeps stream order: the result for a stream is the result
      for any prefix followed by the result for the rest. */
  lemma {:induction false} KeptSplit(a: seq<GetResponse>, b: seq<GetResponse>)
    ensures Kept(a + b) == Kept(a) + Kept(b)
  {
    if a == [] {
      assert a + b == b;
    } else {
      assert (a + b)[0] == a[0];
      assert (a + b)[1..] == a[1..] + b;
      KeptSplit(a[1..], b);
    }
  }

  /** `get_items(item_id, name)` with the stream `GetItem` produces. */
  function GetItems(itemId: int, name: string, s: Stream): (e: Exchange)
    ensures e.reply == Raised(400) <==> itemId == 0 && name == []
    ensures e.sent.None? <==> itemId == 0 && name == []
    ensures e.sent.Some? ==> e.sent.value == Item(itemId, name)
    ensures e.sent.Some? && s.error.Some? ==> e.reply == Raised(LookupErrorStatus(s.error.value))
    ensures e.sent.Some? && s.error.None? ==>
      (e.reply == Raised(404) <==> forall i | 0 <= i < |s.responses| :: !s.responses[i].result)
    ensures e.reply.Found? <==> e.sent.Some? && s.error.None? && Kept(s.responses) != []
    ensures e.reply.Found? ==> e.reply.items == Kept(s.responses)
    ensures e.reply.Found? || e.reply.Raised?
  {
    if itemId == 0 && name == [] then Exchange(Raised(400), None)
    else
      var request := Item(itemId, name);
      match s.error
      case Some(code) => Exchange(Raised(LookupErrorStatus(code)), Some(request))
      case None =>
        var results := Kept(s.responses);
        if results == [] then Exchange(Raised(404), Some(request))
        else Exchange(Found(results), Some(request))
  }

  /** `update_item(item_id)` for the body field `name`. */
  function UpdateItem(itemId: int, newName: Json, rpc: Rpc<UpdateResponse>): (e: Exchange)
    ensures e.reply == Raised(400) <==> !Truthy(newName)
    ensures e.reply == Uncaught <==> Truthy(newName) && !newName.Str?
    ensures e.sent.Some? <==> Truthy(newName) && newName.Str?
    ensures e.sent.Some? ==> e.sent.value == Item(itemId, newName.s)
    ensures e.sent.Some? && rpc.Failed? ==> e.reply == Raised(UpdateErrorStatus(rpc.code))
    ensures e.sent.Some? && rpc.Returned? && rpc.response.result ==>
      e.reply == Updated(rpc.response.oldItem, rpc.response.newItem)
    ensures e.reply == Nothing <==> e.sent.Some? && rpc.Returned? && !rpc.response.result
  {
    if !Truthy(newName) then Exchange(Raised(400), None)
    else
      match MakeItem(itemId, newName)
      case None => Exchange(Uncaught, None)
      case Some(request) =>
        match rpc
        case Failed(code) => Exchange(Raised(UpdateErrorStatus(code)), Some(request))
        case Returned(resp) =>
          if resp.result then Exchange(Updated(resp.oldItem, resp.newItem), Some(request))
          else Exchange(Nothing, Some(request))
  }

  /** `delete_item(item_id)`: the request carries only the id (the name
      field keeps its default, the empty string). */
  function DeleteItem(itemId: int, rpc: Rpc<DeleteResponse>): (e: Exchange)
    ensures e.sent == Some(Item(itemId, []))
    ensures rpc.Failed? ==> e.reply == Raised(LookupErrorStatus(rpc.code))
    ensures rpc.Returned? && rpc.response.result ==> e.reply == Deleted(rpc.response.deletedItem)
    ensures e.reply == Nothing <==> rpc.Returned? && !rpc.response.result
  {
    var request := Item(itemId, []);
    match rpc
    case Failed(code) => Exchange(Raised(LookupErrorStatus(code)), Some(request))
    case Returned(resp) =>
      if resp.result then Exchange(Deleted(resp.deletedItem), Some(request))
      else Exchange(Nothing, Some(request))
  }

  /** Across the three handlers an `RpcError` is answered 404 exactly for
      NOT_FOUND, 409 only by the update handler and only for
      ALREADY_EXISTS, and 500 for every other code. */
  lemma ErrorMapping(itemId: int, name: string, newName: string, code: GrpcCode, rs: seq<GetResponse>)
    requires itemId != 0 || name != []
    ensures var g := GetItems(itemId, name, Stream(rs, Some(code))).reply;
      var u := UpdateItem(itemId, Str(newName), Failed(code)).reply;
      var d := DeleteItem(itemId, Failed(code)).reply;
      && (newName != [] ==> u.Raised? && (u.status == 404 <==> code == NotFound))
      && (newName != [] ==> (u.status == 409 <==> code == AlreadyExists))
      && g.Raised? && d.Raised? && g == d
      && (g.status == 404 <==> code == NotFound)
      && (g.status == 500 <==> code != NotFound)
      && (newName != [] && code != AlreadyExists ==> u == g)
  {
  }
}
