/** Properties of the friend-request lifecycle over single calls and over
    whole sequences of calls. */
module Properties {
  import opened Requests
  import opened Lifecycle

  /** One call keeps the store-wide invariant: statuses stay among the three
      known values and no ordered pair gets a second request. */
  lemma StepPreservesValid(s: Store, op: Op)
    requires Valid(s)
    ensures Valid(Apply(s, op))
  {
  }

  /** One call changes no record except as the lifecycle allows. */
  lemma StepEvolves(s: Store, op: Op)
    ensures Evolves(s, Apply(s, op))
  {
  }

  lemma EvolvesTransitive(s: Store, t: Store, u: Store)
    requires Evolves(s, t) && Evolves(t, u)
    ensures Evolves(s, u)
  {
  }

  /** Any sequence of calls keeps the invariant. */
  lemma {:induction false} RunPreservesValid(s: Store, ops: seq<Op>)
    requires Valid(s)
    ensures Valid(Run(s, ops))
    decreases |ops|
  {
    if |ops| > 0 {
      StepPreservesValid(s, ops[0]);
      RunPreservesValid(Apply(s, ops[0]), ops[1..]);
    }
  }

  /** Starting from the empty collection, whatever calls are made, every
      status is one of the three written ones and each ordered pair has at
      most one request. */
  lemma RunFromEmptyIsValid(ops: seq<Op>)
    ensures StatusesKnown(Run(Empty, ops))
    ensures PairsUnique(Run(Empty, ops))
  {
    RunPreservesValid(Empty, ops);
  }

  /** Over any sequence of calls a record keeps its sender and recipient,
      and its status only moves from pending to accepted or rejected. */
  lemma {:induction false} RunEvolves(s: Store, ops: seq<Op>)
    ensures Evolves(s, Run(s, ops))
    decreases |ops|
  {
    if |ops| > 0 {
      var t := Apply(s, ops[0]);
      StepEvolves(s, ops[0]);
      RunEvolves(t, ops[1..]);
      EvolvesTransitive(s, t, Run(t, ops[1..]));
    }
  }

  /** Accepted and rejected are terminal: once a request is answered, no
      sequence of calls changes it. */
  lemma AnsweredIsFinal(s: Store, ops: seq<Op>, id: RequestId)
    requires id in s.requests && IsTerminal(s.requests[id].status)
    ensures id in Run(s, ops).requests
    ensures Run(s, ops).requests[id] == s.requests[id]
  {
    RunEvolves(s, ops);
  }

  /** Once a request is answered, every later accept or reject of it fails
      with the merged error. */
  lemma AnsweredIsRefused(s: Store, ops: seq<Op>, id: RequestId)
    requires id in s.requests && IsTerminal(s.requests[id].status)
    ensures Accept(Run(s, ops), id) == Err(NotFoundOrNotPending)
    ensures Reject(Run(s, ops), id) == Err(NotFoundOrNotPending)
  {
    AnsweredIsFinal(s, ops, id);
  }

  /** The duplicate check is on the ordered pair: in any collection, a
      request from `a` to `b` does not block one from `b` to `a`, while a
      second one from `a` to `b` is refused. */
  lemma DuplicateCheckIsOrdered(s: Store, a: UserId, b: UserId)
    requires HasPair(s.requests, a, b) && !HasPair(s.requests, b, a)
    ensures Submit(s, b, a).Ok?
    ensures Submit(s, a, b) == Err(Duplicate)
  {
  }

  /** A pending request, once accepted, refuses both a second accept and a
      reject; the same holds for one rejected. */
  lemma AnswerThenAnswerFails(s: Store, id: RequestId)
    ensures Accept(s, id).Ok? ==>
              Accept(Accept(s, id).value, id).Err? && Reject(Accept(s, id).value, id).Err?
    ensures Reject(s, id).Ok? ==>
              Accept(Reject(s, id).value, id).Err? && Reject(Reject(s, id).value, id).Err?
  {
  }

  /** Sending a request, accepting it, then rejecting it: the accept
      succeeds and the reject is refused. */
  lemma SubmitAcceptRejectScenario(u1: UserId, u2: UserId)
    ensures var sub := Submit(Empty, u1, u2);
            && sub.Ok?
            && sub.value.store.requests[sub.value.id].status == Pending
            && Accept(sub.value.store, sub.value.id).Ok?
            && Accept(sub.value.store, sub.value.id).value.requests[sub.value.id].status == Accepted
            && Reject(Accept(sub.value.store, sub.value.id).value, sub.value.id) == Err(NotFoundOrNotPending)
  {
  }
}
