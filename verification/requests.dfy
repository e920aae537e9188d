/** The data of the friendships service: friend-request records (the
    `SolicitudDeAmistad` document) and the collection that holds them,
    modelled as a map from request identifier to record plus a supply of
    fresh identifiers. */
module Requests {

  /** A user identifier in its canonical form: the database object id the
      stored field holds, so two identifiers name the same user exactly when
      they are equal. */
  type UserId = string

  /** The identifier the store assigns to a request when it is inserted. */
  type RequestId = nat

  /** The status field is free text; these are the only three values the
      controller ever writes. */
  const Pending: string := "Pendiente"
  const Accepted: string := "Aceptada"
  const Rejected: string := "Rechazada"

  predicate IsKnownStatus(status: string) {
    status == Pending || status == Accepted || status == Rejected
  }

  /** A request that has been answered: no operation moves it on. */
  predicate IsTerminal(status: string) {
    status == Accepted || status == Rejected
  }

  /** One friend request, directed from `sender` to `recipient`. */
  datatype Request = Request(sender: UserId, recipient: UserId, status: string)

  /** True when `r` is a request for the ordered pair (sender, recipient). */
  predicate Matches(r: Request, sender: UserId, recipient: UserId) {
    r.sender == sender && r.recipient == recipient
  }

  datatype StoreState = StoreState(requests: map<RequestId, Request>, nextId: RequestId)

  /** Every identifier in use is below the next one the store hands out, so
      the next one is fresh. */
  predicate IdsBelowNext(s: StoreState) {
    forall id :: id in s.requests ==> id < s.nextId
  }

  /** The request collection together with its identifier supply. */
  type Store = s: StoreState | IdsBelowNext(s) witness StoreState(map[], 0)

  /** The collection before any request has been sent. */
  const Empty: Store := StoreState(map[], 0)

  /** Some request, in whatever status, exists for the ordered pair. */
  predicate HasPair(requests: map<RequestId, Request>, sender: UserId, recipient: UserId) {
    exists id :: id in requests && Matches(requests[id], sender, recipient)
  }

  /** Every stored status is one of the three the controller writes. */
  predicate StatusesKnown(s: Store) {
    forall id :: id in s.requests ==> IsKnownStatus(s.requests[id].status)
  }

  /** At most one request exists per ordered (sender, recipient) pair. */
  predicate PairsUnique(s: Store) {
    forall i, j ::
      i in s.requests && j in s.requests && i != j ==>
        !Matches(s.requests[j], s.requests[i].sender, s.requests[i].recipient)
  }

  /** The store-wide invariant the lifecycle keeps. */
  predicate Valid(s: Store) {
    StatusesKnown(s) && PairsUnique(s)
  }
}
