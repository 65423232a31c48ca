/** What a drain of the result queue gathers, and the collector as one thread drives it. */
module ResultCollection {
  import opened MachineInts

  type Signature = nat
  type Error = nat

  datatype TaskResult = TaskResult(success: bool, signature: Signature, error: Option<Error>, landedOnChain: bool)

  datatype Outcome = Outcome(success: bool, signatures: seq<Signature>, error: Option<Error>)

  /** The transaction reached the chain and failed there. */
  predicate LandedFailed(r: TaskResult) {
    r.landedOnChain && !r.success
  }

  // ----- what a drain gathers -----

  datatype Gathered = Gathered(signatures: seq<Signature>, hasSuccess: bool, error: Option<Error>)

  const NOTHING := Gathered([], false, None)

  /** One more popped result. With `landedOnly` set, only a landed transaction's error is kept. */
  function Absorb(got: Gathered, r: TaskResult, landedOnly: bool): Gathered {
    Gathered(got.signatures + [r.signature], got.hasSuccess || r.success,
             if ErrorCounts(r, landedOnly) then r.error else got.error)
  }

  predicate ErrorCounts(r: TaskResult, landedOnly: bool) {
    r.error.Some? && (landedOnly ==> r.landedOnChain)
  }

  function GatherAll(results: seq<TaskResult>, landedOnly: bool): Gathered {
    if results == [] then NOTHING
    else
      var last := |results| - 1;
      Absorb(GatherAll(results[..last], landedOnly), results[last], landedOnly)
  }

  ghost predicate AnySuccess(results: seq<TaskResult>) {
    exists i :: 0 <= i < |results| && results[i].success
  }

  /** `error` is that of the last result whose error counts, or none if there is no such result. */
  ghost predicate IsLastError(results: seq<TaskResult>, landedOnly: bool, error: Option<Error>) {
    if error.None? then
      forall i :: 0 <= i < |results| ==> !ErrorCounts(results[i], landedOnly)
    else
      exists i :: 0 <= i < |results| && ErrorCounts(results[i], landedOnly) && results[i].error == error
        && forall j :: i < j < |results| ==> !ErrorCounts(results[j], landedOnly)
  }

  lemma AnySuccessGrows(front: seq<TaskResult>, r: TaskResult)
    ensures AnySuccess(front + [r]) <==> AnySuccess(front) || r.success
  {
    var all := front + [r];
    assert all[|front|] == r;
    assert forall i :: 0 <= i < |front| ==> all[i] == front[i];
  }

  lemma LastErrorGrows(front: seq<TaskResult>, r: TaskResult, landedOnly: bool, error: Option<Error>)
    requires IsLastError(front, landedOnly, error)
    ensures IsLastError(front + [r], landedOnly, if ErrorCounts(r, landedOnly) then r.error else error)
  {
    var all := front + [r];
    assert all[|front|] == r;
    assert forall i :: 0 <= i < |front| ==> all[i] == front[i];
    if !ErrorCounts(r, landedOnly) && error.Some? {
      var i :| 0 <= i < |front| && ErrorCounts(front[i], landedOnly) && front[i].error == error
        && forall j :: i < j < |front| ==> !ErrorCounts(front[j], landedOnly);
      assert ErrorCounts(all[i], landedOnly) && all[i].error == error;
    }
  }

  /** A drain lists every signature in order, knows whether any succeeded, and ends with the last error. */
  lemma {:induction false} GatherAllMeans(results: seq<TaskResult>, landedOnly: bool)
    ensures var got := GatherAll(results, landedOnly);
      && |got.signatures| == |results|
      && (forall i :: 0 <= i < |results| ==> got.signatures[i] == results[i].signature)
      && (got.hasSuccess <==> AnySuccess(results))
      && IsLastError(results, landedOnly, got.error)
  {
    if results != [] {
      hide AnySuccess, IsLastError;
      var last := |results| - 1;
      var front := results[..last];
      GatherAllMeans(front, landedOnly);
      assert results == front + [results[last]];
      AnySuccessGrows(front, results[last]);
      LastErrorGrows(front, results[last], landedOnly, GatherAll(front, landedOnly).error);
    }
  }

  lemma {:induction false} SameSignatures(results: seq<TaskResult>)
    ensures GatherAll(results, true).signatures == GatherAll(results, false).signatures
  {
    if results != [] { SameSignatures(results[..|results| - 1]); }
  }

  // ----- the collector as one thread drives it -----

  /** What a poll answers, on the flags and the queue it finds. */
  function Verdict(queue: seq<TaskResult>, successFlag: bool, landedFlag: bool, allDone: bool): Option<Outcome> {
    var got := GatherAll(queue, false);
    if successFlag && got.hasSuccess then Some(Outcome(true, got.signatures, None))
    else if successFlag || queue == [] then None
    else if landedFlag then Some(Outcome(false, got.signatures, GatherAll(queue, true).error))
    else if allDone then Some(Outcome(got.hasSuccess, got.signatures, got.error))
    else None
  }

  /** The verdict on any flags and any queue, however they came to be. An answer needs a result, and one
      that succeeded if the success flag is up; it lists every result, succeeds unless only a landed
      failure is flagged, and carries the last error that counts if the success flag is down. */
  lemma VerdictOnAnyState(queue: seq<TaskResult>, successFlag: bool, landedFlag: bool, allDone: bool)
    ensures var v := Verdict(queue, successFlag, landedFlag, allDone);
      && (v.Some? <==> queue != [] && if successFlag then AnySuccess(queue) else landedFlag || allDone)
      && (v.Some? ==>
          && |v.value.signatures| == |queue|
          && (forall k :: 0 <= k < |queue| ==> v.value.signatures[k] == queue[k].signature)
          && (v.value.success <==> AnySuccess(queue) && (successFlag || !landedFlag))
          && if successFlag then v.value.error.None? else IsLastError(queue, landedFlag, v.value.error))
  {
    hide GatherAll, IsLastError;
    GatherAllMeans(queue, false);
    GatherAllMeans(queue, true);
    SameSignatures(queue);
  }

  /** With the flags raised by just the queued results, and nothing arriving meanwhile, success wins. */
  lemma UndisturbedVerdictIsHonest(queue: seq<TaskResult>, landedFlag: bool, allDone: bool)
    requires landedFlag <==> exists k :: 0 <= k < |queue| && LandedFailed(queue[k])
    ensures var v := Verdict(queue, AnySuccess(queue), landedFlag, allDone);
      && (v.Some? && v.value.success <==> AnySuccess(queue))
      && (v.None? <==> !AnySuccess(queue) && !landedFlag && (allDone ==> queue == []))
      && (v.Some? && v.value.success ==> v.value.error.None?)
      && (v.Some? && !v.value.success ==> IsLastError(queue, landedFlag, v.value.error))
  {
    hide Verdict, IsLastError;
    VerdictOnAnyState(queue, AnySuccess(queue), landedFlag, allDone);
  }

  class ResultCollector {
    var results: seq<TaskResult>
    var successFlag: bool
    var landedFailedFlag: bool
    var completedCount: nat
    const totalTasks: nat

    constructor (capacity: nat)
      ensures totalTasks == capacity && results == [] && completedCount == 0 && !successFlag && !landedFailedFlag
    {
      results, successFlag, landedFailedFlag, completedCount, totalTasks := [], false, false, 0, capacity;
    }

    method Submit(result: TaskResult)
      modifies this
      ensures results == if |old(results)| < totalTasks then old(results) + [result] else old(results)
      ensures successFlag == (old(successFlag) || result.success)
      ensures landedFailedFlag == (old(landedFailedFlag) || LandedFailed(result))
      ensures completedCount == old(completedCount) + 1
    {
      if |results| < totalTasks {
        results := results + [result];
      }
      if result.success {
        successFlag := true;
      } else if LandedFailed(result) {
        landedFailedFlag := true;
      }
      completedCount := completedCount + 1;
    }

    /** Pops until the queue is empty. */
    method DrainQueue(landedOnly: bool) returns (got: Gathered)
      modifies this`results
      ensures results == [] && got == GatherAll(old(results), landedOnly)
    {
      got := NOTHING;
      ghost var popped := [];
      while results != []
        invariant popped + results == old(results)
        invariant got == GatherAll(popped, landedOnly)
        decreases |results|
      {
        var result := results[0];
        results := results[1..];
        assert (popped + [result])[..|popped|] == popped;
        popped := popped + [result];
        got := Absorb(got, result, landedOnly);
      }
      assert popped == old(results);
    }

    method GetFirst() returns (r: Option<Outcome>)
      modifies this`results
      ensures results == []
      ensures r.None? <==> old(results) == []
      ensures r.Some? ==>
        && r.value.signatures == GatherAll(old(results), false).signatures
        && (r.value.success <==> AnySuccess(old(results)))
        && IsLastError(old(results), false, r.value.error)
    {
      hide GatherAll, IsLastError, AnySuccess;
      GatherAllMeans(results, false);
      var got := DrainQueue(false);
      if got.signatures != [] {
        r := Some(Outcome(got.hasSuccess, got.signatures, got.error));
      } else {
        r := None;
      }
    }

    /** `polls` is how often the loop goes round before its deadline passes. */
    method WaitForSuccess(polls: nat) returns (r: Option<Outcome>)
      modifies this`results
      ensures r == Verdict(old(results), successFlag, landedFailedFlag, completedCount >= totalTasks)
      ensures results ==
        if successFlag || landedFailedFlag || completedCount >= totalTasks then [] else old(results)
    {
      hide GatherAll, IsLastError;
      GatherAllMeans(results, false);
      var left: nat := polls;
      while true
        invariant results == old(results) ||
          (results == [] && successFlag && !GatherAll(old(results), false).hasSuccess)
        invariant left <= polls
        invariant left < polls ==>
          !(completedCount >= totalTasks) && (successFlag || landedFailedFlag ==> results == [])
        decreases left
      {
        if successFlag {
          GatherAllMeans(results, false);
          var got := DrainQueue(false);
          if got.hasSuccess && got.signatures != [] {
            return Some(Outcome(true, got.signatures, None));
          }
        }
        if landedFailedFlag {
          GatherAllMeans(results, true);
          SameSignatures(results);
          var got := DrainQueue(true);
          if got.signatures != [] {
            return Some(Outcome(false, got.signatures, got.error));
          }
        }
        if completedCount >= totalTasks {
          GatherAllMeans(results, false);
          var got := DrainQueue(false);
          if got.signatures != [] {
            return Some(Outcome(got.hasSuccess, got.signatures, got.error));
          }
          return None;
        }
        if left == 0 {
          return None;
        }
        left := left - 1;
      }
    }
  }
}
