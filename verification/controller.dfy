/** The send handler as a step-by-step procedure over the store: the
    duplicate lookup is a scan of the stored requests, and the procedure
    computes exactly the send transition the lifecycle defines. The accept
    and reject handlers are a single lookup by identifier and are the
    lifecycle's `Accept` and `Reject` themselves. */
module Controller {
  import opened Requests
  import opened Lifecycle

  datatype Option<+T> = None | Some(value: T)

  /** The duplicate lookup on sender and recipient: the identifier of some
      request for the ordered pair, or nothing when there is none. */
  method FindOne(requests: map<RequestId, Request>, sender: UserId, recipient: UserId)
    returns (found: Option<RequestId>)
    ensures found.Some? ==> found.value in requests && Matches(requests[found.value], sender, recipient)
    ensures found.None? <==> !HasPair(requests, sender, recipient)
  {
    var unseen := requests.Keys;
    while unseen != {}
      invariant unseen <= requests.Keys
      invariant forall id :: id in requests && id !in unseen ==> !Matches(requests[id], sender, recipient)
      decreases unseen
    {
      var id :| id in unseen;
      if Matches(requests[id], sender, recipient) {
        return Some(id);
      }
      unseen := unseen - {id};
    }
    return None;
  }

  /** Sending a request: look for any request on the ordered pair, refuse if
      one is found, else insert a pending record under a fresh identifier. */
  method SendFriendRequest(s: Store, sender: UserId, recipient: UserId) returns (r: Result<Submitted>)
    ensures r == Submit(s, sender, recipient)
  {
    var existing := FindOne(s.requests, sender, recipient);
    if existing.Some? {
      return Err(Duplicate);
    }
    return Ok(Insert(s, sender, recipient));
  }
}
