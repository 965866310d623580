/** The body of a create or delete request and the bean-validation constraints
    that are checked on it before the repository is called. */
module EdgeRequests {

  datatype EdgeRequest = EdgeRequest(fromId: int, toId: int)

  const FromIdMessage: string := "fromId must be positive"
  const ToIdMessage: string := "toId must be positive"
  const SelfLoopMessage: string := "fromId and toId must not be the same (self-loop is not allowed)"

  /** The `@AssertTrue` method of the request. */
  predicate IsNotSelfLoop(r: EdgeRequest)
  {
    r.fromId != r.toId
  }

  /** The constraint violations a validator reports for `r`: one message per
      failed `@Positive` field and one for a failed `@AssertTrue`. */
  function Violations(r: EdgeRequest): (v: set<string>)
    ensures FromIdMessage in v <==> r.fromId <= 0
    ensures ToIdMessage in v <==> r.toId <= 0
    ensures SelfLoopMessage in v <==> r.fromId == r.toId
    ensures v <= {FromIdMessage, ToIdMessage, SelfLoopMessage}
  {
    (if r.fromId > 0 then {} else {FromIdMessage})
    + (if r.toId > 0 then {} else {ToIdMessage})
    + (if IsNotSelfLoop(r) then {} else {SelfLoopMessage})
  }

  /** A request reaches the repository only when it has no violation. */
  predicate IsValid(r: EdgeRequest)
  {
    Violations(r) == {}
  }

  /** A valid request has two positive ids that differ, and conversely. */
  lemma ValidRequest(r: EdgeRequest)
    ensures IsValid(r) <==> r.fromId > 0 && r.toId > 0 && IsNotSelfLoop(r)
    ensures IsNotSelfLoop(r) <==> r.fromId != r.toId
  {
    if r.fromId <= 0 {
      assert FromIdMessage in Violations(r);
    } else if r.toId <= 0 {
      assert ToIdMessage in Violations(r);
    } else if r.fromId == r.toId {
      assert SelfLoopMessage in Violations(r);
    }
  }
}
