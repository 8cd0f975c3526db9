/** Values shared by the gateway's handlers: the item resource, the JSON
    values a request body can carry, gRPC status codes and the replies a
    handler produces. */
module Items {

  datatype Option<+T> = None | Some(value: T)

  /** The item resource as the backend's messages carry it. */
  datatype Item = Item(id: int, name: string)

  /** A value read from a parsed JSON body with `dict.get`: an absent key
      reads as `Null`, like Python's `None`. A float keeps only whether it
      is zero, and a list or an object only its size: that is all the
      handlers look at. */
  datatype Json =
    | Null
    | Bool(b: bool)
    | Int(i: int)
    | Float(isZero: bool)
    | Str(s: string)
    | List(length: nat)
    | Object(size: nat)

  /** Python truthiness of a JSON value. */
  predicate Truthy(v: Json)
  {
    match v
    case Null => false
    case Bool(b) => b
    case Int(i) => i != 0
    case Float(z) => !z
    case Str(s) => s != []
    case List(n) => n > 0
    case Object(n) => n > 0
  }

  /** `isinstance(v, int)`: Python's `bool` is a subclass of `int`. */
  predicate IsInt(v: Json)
  {
    v.Int? || v.Bool?
  }

  /** The integer a value passing `IsInt` stands for (`int(True) == 1`). */
  function AsInt(v: Json): (n: int)
    requires IsInt(v)
    ensures v.Int? ==> n == v.i
    ensures v.Bool? ==> n == (if v.b then 1 else 0)
  {
    match v
    case Int(i) => i
    case Bool(b) => if b then 1 else 0
  }

  /** The message constructor `Item(id=…, name=…)`: a name that is not a
      string makes protobuf raise `TypeError` (None here). */
  function MakeItem(id: int, name: Json): (r: Option<Item>)
    ensures r.Some? <==> name.Str?
    ensures r.Some? ==> r.value.id == id && r.value.name == name.s
  {
    if name.Str? then Some(Item(id, name.s)) else None
  }

  /** The status codes of `grpc.StatusCode`. */
  datatype GrpcCode =
    | Ok | Cancelled | Unknown | InvalidArgument | DeadlineExceeded
    | NotFound | AlreadyExists | PermissionDenied | ResourceExhausted
    | FailedPrecondition | Aborted | OutOfRange | Unimplemented
    | Internal | Unavailable | DataLoss | Unauthenticated

  /** What a handler hands back to the web framework. */
  datatype Reply =
      /** `Response(status_code=201)` echoing the added item */
    | Created(item: Item)
      /** 200 with the list of items found */
    | Found(items: seq<Item>)
      /** 200 with the item before and after the update */
    | Updated(oldItem: Item, newItem: Item)
      /** 200 with the deleted item */
    | Deleted(item: Item)
      /** `Response(status_code=503)`: the circuit breaker refused the call */
    | CircuitOpen
      /** `raise HTTPException(status_code=status)` */
    | Raised(status: int)
      /** an exception the handler does not catch (the framework answers 500) */
    | Uncaught
      /** the handler fell off its end and returned `None` */
    | Nothing

  /** The HTTP status the client sees. A `None` return is serialised by the
      framework as JSON `null` with the route's default status, 200. */
  function HttpStatus(r: Reply): (code: int)
    ensures code == 200 <==> r.Found? || r.Updated? || r.Deleted? || r.Nothing? || (r.Raised? && r.status == 200)
    ensures r.Raised? ==> code == r.status
  {
    match r
    case Created(_) => 201
    case Found(_) => 200
    case Updated(_, _) => 200
    case Deleted(_) => 200
    case CircuitOpen => 503
    case Raised(s) => s
    case Uncaught => 500
    case Nothing => 200
  }
}
