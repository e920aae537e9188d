/** The friend-request lifecycle: the three controller operations as pure
    transitions on the request store, each returning the new store or the
    error the controller answers with. */
module Lifecycle {
  import opened Requests

  /** The two client errors: a request already exists for the pair, and the
      merged "missing or no longer pending" error of accept and reject. */
  datatype Error = Duplicate | NotFoundOrNotPending

  datatype Result<+T> = Ok(value: T) | Err(error: Error)

  /** What a successful submission yields: the new store and the identifier
      of the record it created. */
  datatype Submitted = Submitted(store: Store, id: RequestId)

  /** Sending a friend request: refused when any request already exists for
      the same ordered pair, whatever its status; otherwise one new pending
      record is inserted under a fresh identifier. */
  function Submit(s: Store, sender: UserId, recipient: UserId): (r: Result<Submitted>)
    ensures forall id :: id in s.requests && Matches(s.requests[id], sender, recipient) ==>
              r == Err(Duplicate)
    ensures r.Err? ==> r.error == Duplicate && HasPair(s.requests, sender, recipient)
    ensures r.Ok? ==>
              && r.value.id !in s.requests
              && r.value.store.requests.Keys == s.requests.Keys + {r.value.id}
              && |r.value.store.requests| == |s.requests| + 1
              && r.value.store.requests[r.value.id] == Request(sender, recipient, Pending)
              && (forall id :: id in s.requests ==> r.value.store.requests[id] == s.requests[id])
  {
    if HasPair(s.requests, sender, recipient) then
      Err(Duplicate)
    else
      Ok(Insert(s, sender, recipient))
  }

  /** The insert half of sending: a new pending record under the next
      identifier the store hands out. */
  function Insert(s: Store, sender: UserId, recipient: UserId): Submitted {
    var id := s.nextId;
    Submitted(StoreState(s.requests[id := Request(sender, recipient, Pending)], id + 1), id)
  }

  /** The shared body of accept and reject: a request that exists and is
      pending gets `outcome` as its status; anything else is the merged error. */
  function Resolve(s: Store, id: RequestId, outcome: string): Result<Store> {
    if id !in s.requests || s.requests[id].status != Pending then
      Err(NotFoundOrNotPending)
    else
      Ok(StoreState(s.requests[id := s.requests[id].(status := outcome)], s.nextId))
  }

  /** Accepting a friend request: only a pending one, and only its status
      changes. */
  function Accept(s: Store, id: RequestId): (r: Result<Store>)
    ensures r.Err? <==> id !in s.requests || s.requests[id].status != Pending
    ensures r.Err? ==> r.error == NotFoundOrNotPending
    ensures r.Ok? ==>
              && r.value.requests.Keys == s.requests.Keys
              && r.value.requests[id] == Request(s.requests[id].sender, s.requests[id].recipient, Accepted)
              && (forall k :: k in s.requests && k != id ==> r.value.requests[k] == s.requests[k])
  {
    Resolve(s, id, Accepted)
  }

  /** Rejecting a friend request: as accepting, ending in the rejected status. */
  function Reject(s: Store, id: RequestId): (r: Result<Store>)
    ensures r.Err? <==> id !in s.requests || s.requests[id].status != Pending
    ensures r.Err? ==> r.error == NotFoundOrNotPending
    ensures r.Ok? ==>
              && r.value.requests.Keys == s.requests.Keys
              && r.value.requests[id] == Request(s.requests[id].sender, s.requests[id].recipient, Rejected)
              && (forall k :: k in s.requests && k != id ==> r.value.requests[k] == s.requests[k])
  {
    Resolve(s, id, Rejected)
  }

  /** One call to one of the three handlers. */
  datatype Op =
    | SendRequest(sender: UserId, recipient: UserId)
    | AcceptRequest(id: RequestId)
    | RejectRequest(id: RequestId)

  function Step(s: Store, op: Op): Result<Store> {
    match op
    case SendRequest(sender, recipient) =>
      (match Submit(s, sender, recipient)
       case Ok(sub) => Ok(sub.store)
       case Err(e) => Err(e))
    case AcceptRequest(id) => Accept(s, id)
    case RejectRequest(id) => Reject(s, id)
  }

  /** The store after one call: a failed call leaves it as it was. */
  function Apply(s: Store, op: Op): (t: Store)
    ensures Step(s, op).Err? ==> t == s
    ensures s.requests.Keys <= t.requests.Keys
  {
    match Step(s, op)
    case Ok(t) => t
    case Err(_) => s
  }

  /** The store after a sequence of calls, in order. Records are never
      deleted. */
  function Run(s: Store, ops: seq<Op>): (t: Store)
    ensures s.requests.Keys <= t.requests.Keys
    decreases |ops|
  {
    if |ops| == 0 then s else Run(Apply(s, ops[0]), ops[1..])
  }

  /** How a single record may change between two stores: its sender and
      recipient never change, and its status either stays or moves from
      pending to one of the two answers. */
  predicate RecordEvolves(before: Request, after: Request) {
    && after.sender == before.sender
    && after.recipient == before.recipient
    && (after.status == before.status || (before.status == Pending && IsTerminal(after.status)))
  }

  /** Every record of `s` is still in `t` and has evolved legally. */
  predicate Evolves(s: Store, t: Store) {
    forall id :: id in s.requests ==>
      id in t.requests && RecordEvolves(s.requests[id], t.requests[id])
  }
}
