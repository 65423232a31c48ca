/** Collecting the results of parallel submissions: each task pushes its result, raises a flag and is
    counted, while one waiter polls the flags and drains the queue. Every atomic access is one step. */
module ParallelSubmission {
  import opened MachineInts
  import opened ResultCollection

  // ----- the protocol -----

  datatype Submitter = Pending | Pushed | Flagged | Finished

  /** Why the waiter is draining, or returned. */
  datatype Reason = SawSuccess | SawLanded | SawAll | AllSubmitted | SubmitTimedOut | TimedOut

  datatype Waiter =
    | AtSuccessFlag
    | AtLandedFlag
    | AtCount
    | AtTimeout
    | AtSubmitted
    | AtSubmittedTimeout
    | Draining(reason: Reason, ids: seq<nat>, got: Gathered)
    | Returned(why: Reason, drained: seq<nat>, outcome: Option<Outcome>)

  /** `taken` records every popped task, `dropped` every push that found the queue full. */
  datatype State = State(
    queue: seq<nat>, successFlag: bool, landedFlag: bool, completed: nat,
    submitters: seq<Submitter>, waiter: Waiter, taken: seq<nat>, dropped: nat)

  datatype Action = Push(task: nat) | Flag(task: nat) | Count(task: nat) | Look | Pop | Sleep | GiveUp

  /** What follows a drain that found the queue empty. */
  function Finish(reason: Reason, ids: seq<nat>, got: Gathered): Waiter {
    var any := got.signatures != [];
    match reason
    case SawSuccess =>
      if got.hasSuccess && any then Returned(reason, ids, Some(Outcome(true, got.signatures, None)))
      else AtLandedFlag
    case SawLanded =>
      if any then Returned(reason, ids, Some(Outcome(false, got.signatures, got.error)))
      else AtCount
    case _ =>
      Returned(reason, ids,
               if any then Some(Outcome(got.hasSuccess, got.signatures, got.error)) else None)
  }

  function SubmitStep(tasks: seq<TaskResult>, s: State, a: Action): Option<State>
    requires |s.submitters| == |tasks|
  {
    match a
    case Push(i) =>
      if i >= |tasks| || s.submitters[i] != Pending then None
      else
        var s1 := s.(submitters := s.submitters[i := Pushed]);
        Some(if |s.queue| < |tasks| then s1.(queue := s.queue + [i]) else s1.(dropped := s.dropped + 1))
    case Flag(i) =>
      if i >= |tasks| || s.submitters[i] != Pushed then None
      else Some(s.(submitters := s.submitters[i := Flagged],
                   successFlag := s.successFlag || tasks[i].success,
                   landedFlag := s.landedFlag || LandedFailed(tasks[i])))
    case Count(i) =>
      if i >= |tasks| || s.submitters[i] != Flagged then None
      else Some(s.(submitters := s.submitters[i := Finished], completed := s.completed + 1))
    case _ => None
  }

  function Drain(reason: Reason): Waiter {
    Draining(reason, [], NOTHING)
  }

  function WaitStep(tasks: seq<TaskResult>, s: State, a: Action): Option<State> {
    match (a, s.waiter)
    case (Look, AtSuccessFlag) =>
      Some(s.(waiter := if s.successFlag then Drain(SawSuccess) else AtLandedFlag))
    case (Look, AtLandedFlag) =>
      Some(s.(waiter := if s.landedFlag then Drain(SawLanded) else AtCount))
    case (Look, AtCount) =>
      Some(s.(waiter := if s.completed >= |tasks| then Drain(SawAll) else AtTimeout))
    case (Sleep, AtTimeout) => Some(s.(waiter := AtSuccessFlag))
    case (GiveUp, AtTimeout) => Some(s.(waiter := Returned(TimedOut, [], None)))
    case (Look, AtSubmitted) =>
      Some(s.(waiter := if s.completed < |tasks| then AtSubmittedTimeout else Drain(AllSubmitted)))
    case (Sleep, AtSubmittedTimeout) => Some(s.(waiter := AtSubmitted))
    case (GiveUp, AtSubmittedTimeout) => Some(s.(waiter := Drain(SubmitTimedOut)))
    case (Pop, Draining(reason, ids, got)) =>
      if s.queue == [] then Some(s.(waiter := Finish(reason, ids, got)))
      else
        var id := s.queue[0];
        if id >= |tasks| then None
        else Some(s.(queue := s.queue[1..], taken := s.taken + [id],
                     waiter := Draining(reason, ids + [id], Absorb(got, tasks[id], reason.SawLanded?))))
    case _ => None
  }

  function Step(tasks: seq<TaskResult>, s: State, a: Action): Option<State> {
    if |s.submitters| != |tasks| then None
    else if a.Push? || a.Flag? || a.Count? then SubmitStep(tasks, s, a)
    else WaitStep(tasks, s, a)
  }

  /** A collector is made for at least one task, and one waiter starts in one of the two ways. */
  ghost predicate Init(tasks: seq<TaskResult>, s: State) {
    && tasks != []
    && |s.submitters| == |tasks| && (forall i :: 0 <= i < |tasks| ==> s.submitters[i] == Pending)
    && s.queue == [] && !s.successFlag && !s.landedFlag && s.completed == 0
    && s.waiter in {AtSuccessFlag, AtSubmitted} && s.taken == [] && s.dropped == 0
  }

  // ----- the invariant -----

  ghost predicate NoRepeats(ids: seq<nat>) {
    forall i, j :: 0 <= i < j < |ids| ==> ids[i] != ids[j]
  }

  ghost predicate Known(tasks: seq<TaskResult>, ids: seq<nat>) {
    forall k :: 0 <= k < |ids| ==> ids[k] < |tasks|
  }

  /** The results of the given tasks. */
  ghost function Chosen(tasks: seq<TaskResult>, ids: seq<nat>): (r: seq<TaskResult>)
    requires Known(tasks, ids)
    ensures |r| == |ids| && forall k :: 0 <= k < |ids| ==> r[k] == tasks[ids[k]]
  {
    seq(|ids|, k requires 0 <= k < |ids| => tasks[ids[k]])
  }

  function CountFinished(submitters: seq<Submitter>): nat {
    if submitters == [] then 0
    else CountFinished(submitters[1..]) + if submitters[0].Finished? then 1 else 0
  }

  predicate HasFlagged(p: Submitter) {
    p.Flagged? || p.Finished?
  }

  /** Popped and waiting tasks together are exactly the tasks that pushed, each once. */
  ghost predicate QueueInv(tasks: seq<TaskResult>, s: State) {
    && |s.submitters| == |tasks| && s.dropped == 0
    && Known(tasks, s.taken) && Known(tasks, s.queue) && NoRepeats(s.taken + s.queue)
    && (forall i :: 0 <= i < |tasks| ==> (i in s.taken + s.queue <==> !s.submitters[i].Pending?))
  }

  ghost predicate FlagInv(tasks: seq<TaskResult>, s: State)
    requires |s.submitters| == |tasks|
  {
    && (s.successFlag <==> exists i :: 0 <= i < |tasks| && HasFlagged(s.submitters[i]) && tasks[i].success)
    && (s.landedFlag <==> exists i :: 0 <= i < |tasks| && HasFlagged(s.submitters[i]) && LandedFailed(tasks[i]))
    && s.completed == CountFinished(s.submitters)
  }

  /** Every task is listed, once. */
  ghost predicate ListsAll(tasks: seq<TaskResult>, ids: seq<nat>) {
    NoRepeats(ids) && forall i :: 0 <= i < |tasks| ==> i in ids
  }

  /** The outcome a drain of `ids` leads to. */
  ghost function Report(tasks: seq<TaskResult>, why: Reason, ids: seq<nat>): Option<Outcome>
    requires Known(tasks, ids)
  {
    var got := GatherAll(Chosen(tasks, ids), why.SawLanded?);
    if ids == [] then None
    else
      match why
      case SawSuccess => Some(Outcome(true, got.signatures, None))
      case SawLanded => Some(Outcome(false, got.signatures, got.error))
      case _ => Some(Outcome(got.hasSuccess, got.signatures, got.error))
  }

  ghost predicate WaiterInv(tasks: seq<TaskResult>, s: State)
    requires QueueInv(tasks, s)
  {
    match s.waiter
    case Draining(reason, ids, got) =>
      && reason != TimedOut
      && ids == s.taken
      && got == GatherAll(Chosen(tasks, ids), reason.SawLanded?)
      && (reason.SawSuccess? ==> s.successFlag)
      && (reason.SawLanded? ==> s.landedFlag)
      && (reason.SawAll? || reason.AllSubmitted? ==> s.completed >= |tasks|)
    case Returned(why, ids, outcome) =>
      && ids == s.taken
      && outcome == Report(tasks, why, ids)
      && (why.TimedOut? ==> ids == [])
      && (why.SawSuccess? ==> AnySuccess(Chosen(tasks, ids)))
      && (why.SawLanded? ==> exists k :: 0 <= k < |ids| && LandedFailed(tasks[ids[k]]))
      && (why.SawAll? || why.AllSubmitted? ==> ListsAll(tasks, ids))
    case _ => s.taken == []
  }

  ghost predicate Inv(tasks: seq<TaskResult>, s: State) {
    tasks != [] && QueueInv(tasks, s) && FlagInv(tasks, s) && WaiterInv(tasks, s)
  }

  // ----- submitters keep it -----

  lemma {:induction false} CountFinishedUpdate(p: seq<Submitter>, i: nat, to: Submitter)
    requires i < |p| && !p[i].Finished?
    ensures CountFinished(p[i := to]) == CountFinished(p) + if to.Finished? then 1 else 0
  {
    if i > 0 {
      assert p[i := to][1..] == p[1..][i - 1 := to];
      CountFinishedUpdate(p[1..], i - 1, to);
    } else {
      assert p[i := to][1..] == p[1..];
    }
  }

  lemma {:induction false} AllCounted(p: seq<Submitter>)
    ensures CountFinished(p) <= |p|
    ensures CountFinished(p) == |p| <==> forall i :: 0 <= i < |p| ==> p[i].Finished?
  {
    if p != [] {
      AllCounted(p[1..]);
      assert p == [p[0]] + p[1..];
    }
  }

  /** Distinct numbers below `n` that leave one out are fewer than `n`. */
  lemma {:induction false} RoomForOneMore(ids: seq<nat>, n: nat, out: nat)
    requires NoRepeats(ids) && (forall k :: 0 <= k < |ids| ==> ids[k] < n) && out < n && out !in ids
    ensures |ids| < n
  {
    DistinctCount(ids);
    SubsetIsSmaller(Elements(ids), NumbersBelow(n) - {out});
  }

  ghost function NumbersBelow(n: nat): (r: set<nat>)
    ensures |r| == n && forall x: nat :: x in r <==> x < n
  {
    if n == 0 then {} else NumbersBelow(n - 1) + {n - 1}
  }

  ghost function Elements(ids: seq<nat>): set<nat> {
    set x | x in ids
  }

  lemma {:induction false} DistinctCount(ids: seq<nat>)
    requires NoRepeats(ids)
    ensures |Elements(ids)| == |ids|
  {
    if ids != [] {
      var last := |ids| - 1;
      DistinctCount(ids[..last]);
      assert ids == ids[..last] + [ids[last]];
      assert Elements(ids) == Elements(ids[..last]) + {ids[last]};
    }
  }

  lemma {:induction false} SubsetIsSmaller(a: set<nat>, b: set<nat>)
    requires a <= b
    ensures |a| <= |b|
    decreases |a|
  {
    if a != {} {
      var x :| x in a;
      SubsetIsSmaller(a - {x}, b - {x});
    }
  }

  /** The queue always has room for one more result. */
  lemma NoPushIsDropped(tasks: seq<TaskResult>, s: State, i: nat)
    requires QueueInv(tasks, s) && i < |tasks| && s.submitters[i].Pending?
    ensures |s.queue| < |tasks|
  {
    RoomForOneMore(s.taken + s.queue, |tasks|, i);
  }

  lemma PushKeepsInv(tasks: seq<TaskResult>, s: State, i: nat)
    requires Inv(tasks, s) && Step(tasks, s, Push(i)).Some?
    ensures Inv(tasks, Step(tasks, s, Push(i)).value)
  {
    hide Report, CountFinished, FlagInv, ListsAll, QueueInv;
    NoPushIsDropped(tasks, s, i);
    var s' := Step(tasks, s, Push(i)).value;
    CountFinishedUpdate(s.submitters, i, Pushed);
    assert forall k :: 0 <= k < |tasks| && k != i ==> s'.submitters[k] == s.submitters[k];
    PushKeepsQueue(tasks, s, i);
    CountsAgree(tasks, s);
    FlagsSame(tasks, s, s');
  }

  lemma CountsAgree(tasks: seq<TaskResult>, s: State)
    requires |s.submitters| == |tasks| && FlagInv(tasks, s)
    ensures s.completed == CountFinished(s.submitters)
  {
  }

  lemma PushKeepsQueue(tasks: seq<TaskResult>, s: State, i: nat)
    requires QueueInv(tasks, s) && Step(tasks, s, Push(i)).Some? && |s.queue| < |tasks|
    ensures QueueInv(tasks, Step(tasks, s, Push(i)).value)
  {
    var s' := Step(tasks, s, Push(i)).value;
    var all := s.taken + s.queue;
    assert s'.taken + s'.queue == all + [i];
    assert forall k :: 0 <= k < |tasks| && k != i ==> s'.submitters[k] == s.submitters[k];
    assert forall k :: 0 <= k < |tasks| ==> (k in all + [i] <==> k in all || k == i);
  }

  /** Only the raised flags matter to the flag part. */
  lemma FlagsSame(tasks: seq<TaskResult>, s: State, s': State)
    requires |s.submitters| == |tasks| == |s'.submitters| && FlagInv(tasks, s)
    requires s'.successFlag == s.successFlag && s'.landedFlag == s.landedFlag
    requires s'.completed == CountFinished(s'.submitters)
    requires forall i :: 0 <= i < |tasks| ==> HasFlagged(s.submitters[i]) == HasFlagged(s'.submitters[i])
    ensures FlagInv(tasks, s')
  {
    hide CountFinished;
  }

  lemma FlagsUntouched(tasks: seq<TaskResult>, s: State, s': State)
    requires |s.submitters| == |tasks| && s'.submitters == s.submitters && FlagInv(tasks, s)
    requires s'.successFlag == s.successFlag && s'.landedFlag == s.landedFlag && s'.completed == s.completed
    ensures FlagInv(tasks, s')
  {
  }

  lemma FlagKeepsInv(tasks: seq<TaskResult>, s: State, i: nat)
    requires Inv(tasks, s) && Step(tasks, s, Flag(i)).Some?
    ensures Inv(tasks, Step(tasks, s, Flag(i)).value)
  {
    hide GatherAll, Report, CountFinished;
    var s' := Step(tasks, s, Flag(i)).value;
    CountFinishedUpdate(s.submitters, i, Flagged);
    assert forall k :: 0 <= k < |tasks| && k != i ==> s'.submitters[k] == s.submitters[k];
    assert HasFlagged(s'.submitters[i]);
    assert FlagInv(tasks, s');
  }

  lemma CountKeepsInv(tasks: seq<TaskResult>, s: State, i: nat)
    requires Inv(tasks, s) && Step(tasks, s, Count(i)).Some?
    ensures Inv(tasks, Step(tasks, s, Count(i)).value)
  {
    hide GatherAll, Report, CountFinished;
    var s' := Step(tasks, s, Count(i)).value;
    CountFinishedUpdate(s.submitters, i, Finished);
    assert forall k :: 0 <= k < |tasks| && k != i ==> s'.submitters[k] == s.submitters[k];
    FlagsSame(tasks, s, s');
  }

  // ----- the waiter keeps it -----

  lemma LookKeepsInv(tasks: seq<TaskResult>, s: State, a: Action)
    requires Inv(tasks, s) && Step(tasks, s, a).Some? && (a.Look? || a.Sleep? || a.GiveUp?)
    ensures Inv(tasks, Step(tasks, s, a).value)
  {
    hide FlagInv, NoRepeats, ListsAll, AnySuccess;
    assert s.taken == [];
    assert Chosen(tasks, []) == [];
    var s' := Step(tasks, s, a).value;
    FlagsUntouched(tasks, s, s');
  }

  lemma PopKeepsQueue(tasks: seq<TaskResult>, s: State)
    requires QueueInv(tasks, s) && Step(tasks, s, Pop).Some? && s.queue != []
    ensures QueueInv(tasks, Step(tasks, s, Pop).value)
    ensures Known(tasks, s.taken) && Known(tasks, Step(tasks, s, Pop).value.taken)
  {
    hide NoRepeats, Absorb, GatherAll;
    var s' := Step(tasks, s, Pop).value;
    assert s'.taken + s'.queue == s.taken + s.queue;
  }

  /** One more chosen task is one more gathered result. */
  lemma GatherOneMore(tasks: seq<TaskResult>, ids: seq<nat>, id: nat, landedOnly: bool)
    requires Known(tasks, ids) && id < |tasks|
    ensures Known(tasks, ids + [id])
    ensures GatherAll(Chosen(tasks, ids + [id]), landedOnly) ==
      Absorb(GatherAll(Chosen(tasks, ids), landedOnly), tasks[id], landedOnly)
  {
    hide Absorb;
    var chosen := Chosen(tasks, ids + [id]);
    assert chosen[..|chosen| - 1] == Chosen(tasks, ids);
  }

  lemma PopKeepsInv(tasks: seq<TaskResult>, s: State)
    requires Inv(tasks, s) && Step(tasks, s, Pop).Some? && s.queue != []
    ensures Inv(tasks, Step(tasks, s, Pop).value)
  {
    hide FlagInv, QueueInv, ListsAll, AnySuccess, Report, Absorb, GatherAll, Finish;
    var s' := Step(tasks, s, Pop).value;
    PopKeepsQueue(tasks, s);
    FlagsUntouched(tasks, s, s');
    GatherOneMore(tasks, s.taken, s.queue[0], s.waiter.reason.SawLanded?);
  }

  /** A drain that reached the end of the queue holds what it was started for, so it always returns. */
  lemma DrainedEnough(tasks: seq<TaskResult>, s: State)
    requires Inv(tasks, s) && s.waiter.Draining? && s.queue == []
    ensures var (w, ids) := (s.waiter.reason, s.waiter.ids);
      && ids == s.taken
      && (w.SawSuccess? ==> AnySuccess(Chosen(tasks, ids)))
      && (w.SawLanded? ==> exists k :: 0 <= k < |ids| && LandedFailed(tasks[ids[k]]))
      && (w.SawAll? || w.AllSubmitted? ==> ListsAll(tasks, ids))
      && (ids == [] ==> w.SubmitTimedOut?)
  {
    var w, ids := s.waiter.reason, s.waiter.ids;
    assert ids == s.taken && s.taken + s.queue == ids;
    hide GatherAll, AnySuccess, ListsAll;
    if w.SawSuccess? {
      SuccessWasDrained(tasks, s);
    } else if w.SawLanded? {
      LandedWasDrained(tasks, s);
    } else if w.SawAll? || w.AllSubmitted? {
      AllWereDrained(tasks, s);
    }
  }

  lemma SuccessWasDrained(tasks: seq<TaskResult>, s: State)
    requires QueueInv(tasks, s) && FlagInv(tasks, s) && s.queue == [] && s.successFlag
    ensures s.taken != [] && AnySuccess(Chosen(tasks, s.taken))
  {
    hide NoRepeats, CountFinished;
    assert s.taken + s.queue == s.taken;
    var i :| 0 <= i < |tasks| && HasFlagged(s.submitters[i]) && tasks[i].success;
    var k :| 0 <= k < |s.taken| && s.taken[k] == i;
    assert Chosen(tasks, s.taken)[k].success;
  }

  lemma LandedWasDrained(tasks: seq<TaskResult>, s: State)
    requires QueueInv(tasks, s) && FlagInv(tasks, s) && s.queue == [] && s.landedFlag
    ensures exists k :: 0 <= k < |s.taken| && LandedFailed(tasks[s.taken[k]])
  {
    hide NoRepeats, CountFinished;
    assert s.taken + s.queue == s.taken;
    var i :| 0 <= i < |tasks| && HasFlagged(s.submitters[i]) && LandedFailed(tasks[i]);
    var k :| 0 <= k < |s.taken| && s.taken[k] == i;
  }

  lemma AllWereDrained(tasks: seq<TaskResult>, s: State)
    requires tasks != [] && QueueInv(tasks, s) && FlagInv(tasks, s) && s.queue == [] && s.completed >= |tasks|
    ensures s.taken != [] && ListsAll(tasks, s.taken)
  {
    hide CountFinished;
    assert s.taken + s.queue == s.taken;
    AllCounted(s.submitters);
    assert 0 in s.taken;
  }

  lemma FinishKeepsInv(tasks: seq<TaskResult>, s: State)
    requires Inv(tasks, s) && Step(tasks, s, Pop).Some? && s.queue == []
    ensures Step(tasks, s, Pop).value.waiter.Returned?
    ensures Inv(tasks, Step(tasks, s, Pop).value)
  {
    hide CountFinished, GatherAll;
    DrainedEnough(tasks, s);
    GatherAllMeans(Chosen(tasks, s.waiter.ids), s.waiter.reason.SawLanded?);
  }

  lemma StepKeepsInv(tasks: seq<TaskResult>, s: State, a: Action)
    requires Inv(tasks, s) && Step(tasks, s, a).Some?
    ensures Inv(tasks, Step(tasks, s, a).value)
  {
    match a
    case Push(i) => PushKeepsInv(tasks, s, i);
    case Flag(i) => FlagKeepsInv(tasks, s, i);
    case Count(i) => CountKeepsInv(tasks, s, i);
    case Pop => if s.queue == [] { FinishKeepsInv(tasks, s); } else { PopKeepsInv(tasks, s); }
    case _ => LookKeepsInv(tasks, s, a);
  }

  function Run(tasks: seq<TaskResult>, s: State, actions: seq<Action>): Option<State>
    decreases |actions|
  {
    if actions == [] then Some(s)
    else
      match Step(tasks, s, actions[0])
      case None => None
      case Some(next) => Run(tasks, next, actions[1..])
  }

  lemma {:induction false} RunKeepsInv(tasks: seq<TaskResult>, s: State, actions: seq<Action>)
    requires Inv(tasks, s) && Run(tasks, s, actions).Some?
    ensures Inv(tasks, Run(tasks, s, actions).value)
    decreases |actions|
  {
    hide Inv, Step;
    if actions != [] {
      StepKeepsInv(tasks, s, actions[0]);
      RunKeepsInv(tasks, Step(tasks, s, actions[0]).value, actions[1..]);
    }
  }

  lemma InitIsSound(tasks: seq<TaskResult>, s: State)
    requires Init(tasks, s)
    ensures Inv(tasks, s)
  {
    NoneCounted(s.submitters);
  }

  lemma {:induction false} NoneCounted(p: seq<Submitter>)
    requires forall i :: 0 <= i < |p| ==> p[i].Pending?
    ensures CountFinished(p) == 0
  {
    if p != [] { NoneCounted(p[1..]); }
  }

  /** `submit` without interruption: one push, one raised flag, one count. */
  lemma SubmitIsThreeSteps(tasks: seq<TaskResult>, s: State, i: nat)
    requires Inv(tasks, s) && i < |tasks| && s.submitters[i].Pending?
    ensures Run(tasks, s, [Push(i), Flag(i), Count(i)]) ==
      Some(s.(queue := s.queue + [i], successFlag := s.successFlag || tasks[i].success,
              landedFlag := s.landedFlag || LandedFailed(tasks[i]), completed := s.completed + 1,
              submitters := s.submitters[i := Finished]))
  {
    hide Run;
    NoPushIsDropped(tasks, s, i);
    var s1 := Step(tasks, s, Push(i)).value;
    var s2 := Step(tasks, s1, Flag(i)).value;
    RunOne(tasks, s, Push(i), [Flag(i), Count(i)], [Push(i), Flag(i), Count(i)]);
    RunOne(tasks, s1, Flag(i), [Count(i)], [Flag(i), Count(i)]);
    RunOne(tasks, s2, Count(i), [], [Count(i)]);
    RunNone(tasks, Step(tasks, s2, Count(i)).value);
    assert s.submitters[i := Pushed][i := Flagged][i := Finished] == s.submitters[i := Finished];
  }

  /** The waiter can always move until it has returned. */
  lemma WaiterIsNeverStuck(tasks: seq<TaskResult>, s: State)
    requires Inv(tasks, s) && !s.waiter.Returned?
    ensures Step(tasks, s, Look).Some? || Step(tasks, s, Pop).Some? || Step(tasks, s, Sleep).Some?
  {
    if s.queue != [] { assert s.queue[0] < |tasks|; }
  }

  // ----- what a returned outcome says -----

  /** The signatures are those of the given tasks, in order. */
  ghost predicate Lists(tasks: seq<TaskResult>, ids: seq<nat>, signatures: seq<Signature>)
    requires Known(tasks, ids)
  {
    |signatures| == |ids| && forall k :: 0 <= k < |ids| ==> signatures[k] == tasks[ids[k]].signature
  }

  lemma TakenIsShort(tasks: seq<TaskResult>, s: State)
    requires QueueInv(tasks, s)
    ensures NoRepeats(s.taken) && Known(tasks, s.taken) && |s.taken| <= |tasks|
  {
    var ids := s.taken;
    forall i, j | 0 <= i < j < |ids| ensures ids[i] != ids[j] {
      assert (s.taken + s.queue)[i] == ids[i] && (s.taken + s.queue)[j] == ids[j];
    }
    DistinctCount(ids);
    SubsetIsSmaller(Elements(ids), NumbersBelow(|tasks|));
  }

  /** Every outcome lists each drained task once and claims success only if one of them succeeded;
      there is no outcome only after a timeout. */
  lemma OutcomesAreTruthful(tasks: seq<TaskResult>, s: State)
    requires Inv(tasks, s) && s.waiter.Returned?
    ensures var Returned(why, ids, outcome) := s.waiter;
      && NoRepeats(ids) && Known(tasks, ids) && |ids| <= |tasks|
      && (outcome.None? <==> ids == [])
      && (outcome.None? ==> why.TimedOut? || why.SubmitTimedOut?)
      && (outcome.Some? ==> Lists(tasks, ids, outcome.value.signatures))
      && (outcome.Some? && outcome.value.success ==> exists k :: 0 <= k < |ids| && tasks[ids[k]].success)
  {
    var Returned(why, ids, outcome) := s.waiter;
    TakenIsShort(tasks, s);
    hide GatherAll, QueueInv, FlagInv, NoRepeats, IsLastError;
    GatherAllMeans(Chosen(tasks, ids), why.SawLanded?);
    assert AnySuccess(Chosen(tasks, ids)) ==> exists k :: 0 <= k < |ids| && tasks[ids[k]].success;
    assert why.SawAll? || why.AllSubmitted? ==> 0 in ids;
  }

  /** A waiter that saw every task counted returns every task exactly once, with success exactly if
      some task succeeded and with the last error drained. */
  lemma AllSubmittedIsComplete(tasks: seq<TaskResult>, s: State)
    requires Inv(tasks, s) && s.waiter.Returned? && (s.waiter.why.AllSubmitted? || s.waiter.why.SawAll?)
    ensures var Returned(_, ids, outcome) := s.waiter;
      && ListsAll(tasks, ids) && Known(tasks, ids) && |ids| == |tasks|
      && outcome.Some? && Lists(tasks, ids, outcome.value.signatures)
      && (outcome.value.success <==> AnySuccess(tasks))
      && IsLastError(Chosen(tasks, ids), false, outcome.value.error)
  {
    OutcomesAreTruthful(tasks, s);
    var ids := s.waiter.drained;
    assert ListsAll(tasks, ids) && s.waiter.outcome == Report(tasks, s.waiter.why, ids);
    hide GatherAll, IsLastError, Inv, NoRepeats, AnySuccess, Lists;
    GatherAllMeans(Chosen(tasks, ids), false);
    FullList(tasks, ids);
    FullListSucceeds(tasks, ids);
  }

  lemma FullList(tasks: seq<TaskResult>, ids: seq<nat>)
    requires Known(tasks, ids) && ListsAll(tasks, ids)
    ensures |ids| == |tasks|
  {
    DistinctCount(ids);
    assert Elements(ids) == NumbersBelow(|tasks|);
  }

  lemma FullListSucceeds(tasks: seq<TaskResult>, ids: seq<nat>)
    requires Known(tasks, ids) && forall i :: 0 <= i < |tasks| ==> i in ids
    ensures AnySuccess(Chosen(tasks, ids)) <==> AnySuccess(tasks)
  {
    var chosen := Chosen(tasks, ids);
    if AnySuccess(tasks) {
      var i :| 0 <= i < |tasks| && tasks[i].success;
      assert i in ids;
      var k :| 0 <= k < |ids| && ids[k] == i;
      assert chosen[k].success;
    }
    if AnySuccess(chosen) {
      var k :| 0 <= k < |chosen| && chosen[k].success;
      assert tasks[ids[k]].success;
    }
  }

  /** What `wait_for_success` may answer, by what the waiter saw. */
  lemma WaitForSuccessOutcomes(tasks: seq<TaskResult>, s: State)
    requires Inv(tasks, s) && s.waiter.Returned?
    ensures var Returned(why, ids, outcome) := s.waiter;
      && (why.SawSuccess? ==>
            outcome.Some? && outcome.value.success && outcome.value.error.None?
            && exists k :: 0 <= k < |ids| && tasks[ids[k]].success)
      && (why.SawLanded? ==>
            outcome.Some? && !outcome.value.success
            && IsLastError(Chosen(tasks, ids), true, outcome.value.error)
            && exists k :: 0 <= k < |ids| && LandedFailed(tasks[ids[k]]))
      && (why.TimedOut? ==> outcome.None?)
  {
    hide GatherAll, IsLastError;
    var Returned(why, ids, outcome) := s.waiter;
    GatherAllMeans(Chosen(tasks, ids), why.SawLanded?);
    if why.SawSuccess? {
      var k :| 0 <= k < |Chosen(tasks, ids)| && Chosen(tasks, ids)[k].success;
      assert tasks[ids[k]].success;
    }
  }

  /** A poll that starts after a success was flagged sees it, whatever else was flagged. */
  lemma FlaggedSuccessIsSeen(tasks: seq<TaskResult>, s: State, i: nat)
    requires Inv(tasks, s) && s.waiter == AtSuccessFlag
    requires i < |tasks| && tasks[i].success && HasFlagged(s.submitters[i])
    ensures Step(tasks, s, Look).Some? && Step(tasks, s, Look).value.waiter == Drain(SawSuccess)
  {
  }

  /** Once the waiter has seen the success flag it can end in no other way than with a success. */
  lemma {:induction false} SeenSuccessIsReported(tasks: seq<TaskResult>, s: State, actions: seq<Action>)
    requires Inv(tasks, s) && Run(tasks, s, actions).Some?
    requires (s.waiter.Draining? && s.waiter.reason.SawSuccess?) || (s.waiter.Returned? && s.waiter.why.SawSuccess?)
    ensures var w := Run(tasks, s, actions).value.waiter;
      || (w.Draining? && w.reason.SawSuccess?)
      || (w.Returned? && w.outcome.Some? && w.outcome.value.success && w.outcome.value.error.None?)
    decreases |actions|
  {
    hide Inv;
    if actions == [] {
      if s.waiter.Returned? { WaitForSuccessOutcomes(tasks, s); }
    } else {
      var a := actions[0];
      StepKeepsInv(tasks, s, a);
      if a == Pop && s.waiter.Draining? && s.queue == [] { FinishKeepsInv(tasks, s); }
      SeenSuccessIsReported(tasks, Step(tasks, s, a).value, actions[1..]);
    }
  }

  /** A waiter that goes back to sleep polls again: if a success was flagged before, it ends with a
      success, whatever the others do meanwhile. */
  lemma FlaggedSuccessIsReported(tasks: seq<TaskResult>, s: State, i: nat, actions: seq<Action>)
    requires Inv(tasks, s) && i < |tasks| && tasks[i].success && HasFlagged(s.submitters[i])
    requires s.waiter == AtTimeout && actions != [] && actions[0] == Sleep && Run(tasks, s, actions).Some?
    ensures var w := Run(tasks, s, actions).value.waiter;
      w.Returned? ==> w.outcome.Some? && w.outcome.value.success && w.outcome.value.error.None?
  {
    hide Inv;
    StepKeepsInv(tasks, s, Sleep);
    PollReportsSuccess(tasks, Step(tasks, s, Sleep).value, i, actions[1..]);
  }

  /** The same for the poll itself, so also for the first one. */
  lemma {:induction false} PollReportsSuccess(tasks: seq<TaskResult>, s: State, i: nat, actions: seq<Action>)
    requires Inv(tasks, s) && i < |tasks| && tasks[i].success && HasFlagged(s.submitters[i])
    requires s.waiter == AtSuccessFlag && Run(tasks, s, actions).Some?
    ensures var w := Run(tasks, s, actions).value.waiter;
      w.Returned? ==> w.outcome.Some? && w.outcome.value.success && w.outcome.value.error.None?
    decreases |actions|
  {
    hide Inv;
    if actions != [] {
      var a := actions[0];
      StepKeepsInv(tasks, s, a);
      if a == Look {
        FlaggedSuccessIsSeen(tasks, s, i);
        SeenSuccessIsReported(tasks, Step(tasks, s, a).value, actions[1..]);
      } else {
        PollReportsSuccess(tasks, Step(tasks, s, a).value, i, actions[1..]);
      }
    }
  }

  /** The waiter is past the point where it could miss a landed failure that task `i` flagged. */
  ghost predicate WillAnswer(s: State) {
    || s.waiter in {AtSuccessFlag, AtLandedFlag}
    || (s.waiter.Draining? && (s.waiter.reason.SawSuccess? || s.waiter.reason.SawLanded?))
    || (s.waiter.Returned? && (s.waiter.why.SawSuccess? || s.waiter.why.SawLanded?))
  }

  /** The same for a landed failure: with one flagged before, the waiter never runs into the deadline. */
  lemma FlaggedLandedIsReported(tasks: seq<TaskResult>, s: State, i: nat, actions: seq<Action>)
    requires Inv(tasks, s) && i < |tasks| && LandedFailed(tasks[i]) && HasFlagged(s.submitters[i])
    requires s.waiter == AtTimeout && actions != [] && actions[0] == Sleep && Run(tasks, s, actions).Some?
    ensures var w := Run(tasks, s, actions).value.waiter;
      w.Returned? ==> w.outcome.Some?
  {
    hide Inv;
    StepKeepsInv(tasks, s, Sleep);
    PollAnswers(tasks, Step(tasks, s, Sleep).value, i, actions[1..]);
  }

  lemma {:induction false} PollAnswers(tasks: seq<TaskResult>, s: State, i: nat, actions: seq<Action>)
    requires Inv(tasks, s) && i < |tasks| && LandedFailed(tasks[i]) && HasFlagged(s.submitters[i])
    requires WillAnswer(s) && Run(tasks, s, actions).Some?
    ensures var w := Run(tasks, s, actions).value.waiter;
      w.Returned? ==> w.outcome.Some?
    decreases |actions|
  {
    hide Inv;
    if actions == [] {
      if s.waiter.Returned? { WaitForSuccessOutcomes(tasks, s); }
    } else {
      var a := actions[0];
      StepKeepsInv(tasks, s, a);
      if a == Pop && s.waiter.Draining? && s.queue == [] { FinishKeepsInv(tasks, s); }
      LandedIsFlagged(tasks, s, i);
      PollAnswers(tasks, Step(tasks, s, a).value, i, actions[1..]);
    }
  }

  lemma LandedIsFlagged(tasks: seq<TaskResult>, s: State, i: nat)
    requires Inv(tasks, s) && i < |tasks| && LandedFailed(tasks[i]) && HasFlagged(s.submitters[i])
    ensures s.landedFlag
  {
  }

  // ----- the waiter alone -----

  predicate Waits(a: Action) {
    a.Look? || a.Pop? || a.Sleep? || a.GiveUp?
  }

  /** What a reason says about the flags and the count, by how the waiter started. */
  predicate Justifies(tasks: seq<TaskResult>, s: State, start: Waiter, why: Reason) {
    var counted := s.completed >= |tasks|;
    match why
    case SawSuccess => start.AtSuccessFlag? && s.successFlag
    case SawLanded => start.AtSuccessFlag? && !s.successFlag && s.landedFlag
    case SawAll => start.AtSuccessFlag? && !s.successFlag && !s.landedFlag && counted
    case TimedOut => start.AtSuccessFlag? && !s.successFlag && !s.landedFlag && !counted
    case AllSubmitted => start.AtSubmitted? && counted
    case SubmitTimedOut => start.AtSubmitted? && !counted
  }

  /** How far a waiter can be that started at `init` and found nobody else at work. */
  ghost predicate AloneSince(tasks: seq<TaskResult>, init: State, s: State) {
    && Inv(tasks, s)
    && s.submitters == init.submitters && s.completed == init.completed
    && s.successFlag == init.successFlag && s.landedFlag == init.landedFlag
    && s.taken + s.queue == init.queue
    && match s.waiter
       case AtSuccessFlag => init.waiter.AtSuccessFlag?
       case AtLandedFlag => init.waiter.AtSuccessFlag? && !s.successFlag
       case AtCount => init.waiter.AtSuccessFlag? && !s.successFlag && !s.landedFlag
       case AtTimeout => Justifies(tasks, s, init.waiter, TimedOut)
       case AtSubmitted => init.waiter.AtSubmitted?
       case AtSubmittedTimeout => Justifies(tasks, s, init.waiter, SubmitTimedOut)
       case Draining(why, _, _) => !why.TimedOut? && Justifies(tasks, s, init.waiter, why)
       case Returned(why, _, _) => (why.TimedOut? || s.queue == []) && Justifies(tasks, s, init.waiter, why)
  }

  lemma AloneStep(tasks: seq<TaskResult>, init: State, s: State, a: Action)
    requires AloneSince(tasks, init, s) && Waits(a) && Step(tasks, s, a).Some?
    ensures AloneSince(tasks, init, Step(tasks, s, a).value)
  {
    hide Inv, GatherAll, Absorb;
    StepKeepsInv(tasks, s, a);
    if a == Pop && s.waiter.Draining? {
      if s.queue == [] {
        FinishKeepsInv(tasks, s);
      } else {
        assert s.taken + [s.queue[0]] + s.queue[1..] == s.taken + s.queue;
      }
    }
  }

  lemma {:induction false} AloneRun(tasks: seq<TaskResult>, init: State, s: State, actions: seq<Action>)
    requires AloneSince(tasks, init, s) && Run(tasks, s, actions).Some?
    requires forall k :: 0 <= k < |actions| ==> Waits(actions[k])
    ensures AloneSince(tasks, init, Run(tasks, s, actions).value)
    decreases |actions|
  {
    hide AloneSince, Step, Waits;
    if actions != [] {
      AloneStep(tasks, init, s, actions[0]);
      AloneRun(tasks, init, Step(tasks, s, actions[0]).value, actions[1..]);
    }
  }

  /** With nobody else at work both ways of waiting give what the collector gives to one thread: the
      verdict on the flags and the queue they find, or all that is in the queue. */
  lemma WaiterAloneRefinesCollector(tasks: seq<TaskResult>, s: State, actions: seq<Action>)
    requires Inv(tasks, s) && s.waiter in {AtSuccessFlag, AtSubmitted}
    requires forall k :: 0 <= k < |actions| ==> Waits(actions[k])
    requires Run(tasks, s, actions).Some? && Run(tasks, s, actions).value.waiter.Returned?
    ensures var outcome := Run(tasks, s, actions).value.waiter.outcome;
      var found := Chosen(tasks, s.queue);
      var got := GatherAll(found, false);
      && (s.waiter.AtSuccessFlag? ==>
            outcome == Verdict(found, s.successFlag, s.landedFlag, s.completed >= |tasks|))
      && (s.waiter.AtSubmitted? ==>
            outcome == if found == [] then None else Some(Outcome(got.hasSuccess, got.signatures, got.error)))
  {
    AloneStarts(tasks, s);
    hide Inv, AloneSince, Verdict, GatherAll, Run, Waits;
    AloneRun(tasks, s, s, actions);
    AloneVerdict(tasks, s, Run(tasks, s, actions).value);
  }

  lemma AloneStarts(tasks: seq<TaskResult>, s: State)
    requires Inv(tasks, s) && s.waiter in {AtSuccessFlag, AtSubmitted}
    ensures AloneSince(tasks, s, s) && Known(tasks, s.queue)
  {
    assert s.taken + s.queue == s.queue;
    hide QueueInv, FlagInv, CountFinished;
    assert QueueInv(tasks, s);
  }

  lemma AloneVerdict(tasks: seq<TaskResult>, s: State, end: State)
    requires Inv(tasks, s) && s.waiter in {AtSuccessFlag, AtSubmitted}
    requires AloneSince(tasks, s, end) && end.waiter.Returned?
    ensures var found := Chosen(tasks, s.queue);
      var got := GatherAll(found, false);
      && (s.waiter.AtSuccessFlag? ==>
            end.waiter.outcome == Verdict(found, s.successFlag, s.landedFlag, s.completed >= |tasks|))
      && (s.waiter.AtSubmitted? ==>
            end.waiter.outcome ==
              if found == [] then None else Some(Outcome(got.hasSuccess, got.signatures, got.error)))
  {
    AloneReason(tasks, s, end);
    hide Inv, AloneSince;
    GatherAllMeans(Chosen(tasks, s.queue), false);
    SameSignatures(Chosen(tasks, s.queue));
    hide GatherAll, IsLastError, AnySuccess, Chosen;
  }

  /** What the waiter drained alone, and why. */
  lemma AloneReason(tasks: seq<TaskResult>, s: State, end: State)
    requires Inv(tasks, s) && AloneSince(tasks, s, end) && end.waiter.Returned?
    ensures var Returned(why, ids, outcome) := end.waiter;
      && Known(tasks, s.queue) && Justifies(tasks, s, s.waiter, why)
      && outcome == (if why.TimedOut? then None else Report(tasks, why, s.queue))
      && (why.SawSuccess? ==> AnySuccess(Chosen(tasks, s.queue)))
      && (why.SawLanded? || why.SawAll? || why.AllSubmitted? ==> s.queue != [])
  {
    if !end.waiter.why.TimedOut? { assert end.taken + end.queue == end.taken; }
    hide GatherAll, FlagInv, LandedFailed, NoRepeats, AnySuccess;
    assert ListsAll(tasks, end.taken) ==> 0 in end.taken;
  }

  /** Once every task is counted nobody but the waiter can move. */
  lemma {:induction false} CountedTasksAreDone(tasks: seq<TaskResult>, s: State, actions: seq<Action>)
    requires |s.submitters| == |tasks| && forall i :: 0 <= i < |tasks| ==> s.submitters[i].Finished?
    requires Run(tasks, s, actions).Some?
    ensures forall k :: 0 <= k < |actions| ==> Waits(actions[k])
    decreases |actions|
  {
    if actions != [] {
      CountedTasksAreDone(tasks, Step(tasks, s, actions[0]).value, actions[1..]);
      assert forall k :: 0 < k < |actions| ==> actions[k] == actions[1..][k - 1];
    }
  }

  /** A waiter that sleeps with every task counted looks once more, in either way of waiting, and then
      answers with every task, and with success exactly if some task succeeded. */
  lemma CountedTasksAreReported(tasks: seq<TaskResult>, s: State, actions: seq<Action>)
    requires Inv(tasks, s) && s.waiter in {AtTimeout, AtSubmittedTimeout} && s.completed >= |tasks|
    requires actions != [] && actions[0] == Sleep && Run(tasks, s, actions).Some?
    requires Run(tasks, s, actions).value.waiter.Returned?
    ensures var Returned(_, ids, outcome) := Run(tasks, s, actions).value.waiter;
      && ListsAll(tasks, ids) && |ids| == |tasks| && Known(tasks, ids)
      && outcome.Some? && Lists(tasks, ids, outcome.value.signatures)
      && (outcome.value.success <==> AnySuccess(tasks))
  {
    var next := Step(tasks, s, Sleep).value;
    SleepingChangesNothing(tasks, s);
    CountedTasksAreDone(tasks, next, actions[1..]);
    hide AloneSince, Inv, Step;
    AloneRun(tasks, next, next, actions[1..]);
    CountedAnswer(tasks, next, Run(tasks, next, actions[1..]).value);
  }

  lemma SleepingChangesNothing(tasks: seq<TaskResult>, s: State)
    requires Inv(tasks, s) && s.waiter in {AtTimeout, AtSubmittedTimeout} && s.completed >= |tasks|
    ensures Step(tasks, s, Sleep).Some?
    ensures var next := Step(tasks, s, Sleep).value;
      && Inv(tasks, next) && AloneSince(tasks, next, next) && next.completed >= |tasks|
      && |next.submitters| == |tasks| && forall i :: 0 <= i < |tasks| ==> next.submitters[i].Finished?
  {
    var next := Step(tasks, s, Sleep).value;
    StepKeepsInv(tasks, s, Sleep);
    AllCounted(next.submitters);
    AloneStarts(tasks, next);
    hide Inv, AloneSince, CountFinished;
  }

  lemma CountedAnswer(tasks: seq<TaskResult>, s: State, end: State)
    requires Inv(tasks, s) && s.completed >= |tasks|
    requires AloneSince(tasks, s, end) && end.waiter.Returned?
    ensures var Returned(_, ids, outcome) := end.waiter;
      && ListsAll(tasks, ids) && |ids| == |tasks| && Known(tasks, ids)
      && outcome.Some? && Lists(tasks, ids, outcome.value.signatures)
      && (outcome.value.success <==> AnySuccess(tasks))
  {
    AllCounted(end.submitters);
    AllWereDrained(tasks, end);
    FullList(tasks, end.taken);
    OutcomesAreTruthful(tasks, end);
    WaitForSuccessOutcomes(tasks, end);
    if end.waiter.why.SawAll? || end.waiter.why.AllSubmitted? { AllSubmittedIsComplete(tasks, end); }
    hide GatherAll, ListsAll, NoRepeats, QueueInv, IsLastError, CountFinished, Lists, Report;
  }

  /** Without anybody's help the waiter can come to an answer. */
  ghost predicate CanReturn(tasks: seq<TaskResult>, s: State) {
    exists actions :: IsOwnRun(tasks, s, actions)
  }

  ghost predicate IsOwnRun(tasks: seq<TaskResult>, s: State, actions: seq<Action>) {
    && (forall k :: 0 <= k < |actions| ==> Waits(actions[k]))
    && Run(tasks, s, actions).Some? && Run(tasks, s, actions).value.waiter.Returned?
  }

  lemma ReturnsAfter(tasks: seq<TaskResult>, s: State, a: Action)
    requires Step(tasks, s, a).Some? && Waits(a) && CanReturn(tasks, Step(tasks, s, a).value)
    ensures CanReturn(tasks, s)
  {
    var next := Step(tasks, s, a).value;
    var rest :| IsOwnRun(tasks, next, rest);
    var actions := [a] + rest;
    hide Step;
    RunOne(tasks, s, a, rest, actions);
    assert IsOwnRun(tasks, s, actions);
  }

  function Distance(w: Waiter): nat {
    match w
    case AtSuccessFlag => 5
    case AtLandedFlag => 4
    case AtCount => 3
    case AtTimeout => 2
    case AtSubmitted => 4
    case AtSubmittedTimeout => 3
    case Draining(_, _, _) => 1
    case Returned(_, _, _) => 0
  }

  function OwnMove(w: Waiter): Action {
    match w
    case Draining(_, _, _) => Pop
    case AtTimeout => GiveUp
    case AtSubmittedTimeout => GiveUp
    case _ => Look
  }

  lemma OwnMoveNears(tasks: seq<TaskResult>, s: State)
    requires Inv(tasks, s) && !s.waiter.Returned?
    ensures Step(tasks, s, OwnMove(s.waiter)).Some?
    ensures var next := Step(tasks, s, OwnMove(s.waiter)).value;
      && Distance(next.waiter) <= Distance(s.waiter)
      && (Distance(next.waiter) < Distance(s.waiter) || |next.queue| < |s.queue|)
  {
    hide FlagInv, NoRepeats, GatherAll, Absorb;
    if s.queue != [] { assert s.queue[0] < |tasks|; }
    if s.waiter.Draining? && s.queue == [] { FinishKeepsInv(tasks, s); }
  }

  /** However the tasks stand, the waiter can return by its own steps alone: a deadline ends either wait. */
  lemma {:induction false} WaiterCanReturn(tasks: seq<TaskResult>, s: State)
    requires Inv(tasks, s)
    ensures CanReturn(tasks, s)
    decreases Distance(s.waiter), |s.queue|
  {
    hide Inv, Step;
    if s.waiter.Returned? {
      RunNone(tasks, s);
      assert IsOwnRun(tasks, s, []);
    } else {
      hide CanReturn;
      var a := OwnMove(s.waiter);
      OwnMoveNears(tasks, s);
      StepKeepsInv(tasks, s, a);
      WaiterCanReturn(tasks, Step(tasks, s, a).value);
      ReturnsAfter(tasks, s, a);
    }
  }

  /** The whole protocol, over every interleaving: no result is lost, and every answer is accounted for. */
  lemma CollectorIsFaithful(tasks: seq<TaskResult>, init: State, actions: seq<Action>)
    requires Init(tasks, init) && Run(tasks, init, actions).Some?
    ensures var s := Run(tasks, init, actions).value;
      && Inv(tasks, s)
      && s.dropped == 0
      && (forall i :: 0 <= i < |tasks| && s.submitters[i].Finished? ==> i in s.taken + s.queue)
      && (s.waiter.Returned? && s.waiter.outcome.Some? && s.waiter.outcome.value.success ==>
            exists k :: 0 <= k < |s.waiter.drained| && tasks[s.waiter.drained[k]].success)
      && (s.waiter.Returned? && s.waiter.outcome.None? ==>
            s.waiter.drained == [] && (s.waiter.why.TimedOut? || s.waiter.why.SubmitTimedOut?))
  {
    InitIsSound(tasks, init);
    RunKeepsInv(tasks, init, actions);
    var s := Run(tasks, init, actions).value;
    if s.waiter.Returned? { OutcomesAreTruthful(tasks, s); }
  }

  // ----- when the verdict misleads -----

  /** The run returns a verdict other than whether a drained task succeeded. */
  ghost predicate Misleads(tasks: seq<TaskResult>, init: State, actions: seq<Action>) {
    && Run(tasks, init, actions).Some?
    && var w := Run(tasks, init, actions).value.waiter;
      && w.Returned? && w.outcome.Some? && Known(tasks, w.drained)
      && w.outcome.value.success != AnySuccess(Chosen(tasks, w.drained))
  }

  /** The success flag is read just before, the landed flag just after, both a landed failure and a
      success arrive: the drain takes both and the answer is a failure. */
  function HidingRun(i: nat, j: nat): seq<Action> {
    [Look, Push(i), Flag(i), Push(j), Look, Pop, Pop, Pop]
  }

  lemma LandedFailureHidesSuccess(tasks: seq<TaskResult>, init: State, i: nat, j: nat)
    requires Init(tasks, init) && init.waiter == AtSuccessFlag
    requires i < |tasks| && j < |tasks| && LandedFailed(tasks[i]) && tasks[j].success
    ensures Misleads(tasks, init, HidingRun(i, j))
    ensures Run(tasks, init, HidingRun(i, j)).value.waiter.outcome.value.signatures
         == [tasks[i].signature, tasks[j].signature]
  {
    var run := HidingRun(i, j);
    var s4 := HidingSetup(tasks, init, i, j);
    assert run[..4] == [Look, Push(i), Flag(i), Push(j)];
    assert run[4..] == [Look, Pop, Pop, Pop];
    RunSplits(tasks, init, run, 4);
    HidingDrain(tasks, s4, i, j);
  }

  lemma HidingSetup(tasks: seq<TaskResult>, init: State, i: nat, j: nat) returns (s: State)
    requires Init(tasks, init) && init.waiter == AtSuccessFlag && i != j
    requires i < |tasks| && j < |tasks| && LandedFailed(tasks[i]) && tasks[j].success
    ensures Run(tasks, init, [Look, Push(i), Flag(i), Push(j)]) == Some(s)
    ensures s.queue == [i, j] && s.landedFlag && s.waiter == AtLandedFlag && |s.submitters| == |tasks|
  {
    hide Run;
    var s1 := Step(tasks, init, Look).value;
    var s2 := Step(tasks, s1, Push(i)).value;
    var s3 := Step(tasks, s2, Flag(i)).value;
    s := Step(tasks, s3, Push(j)).value;
    RunOne(tasks, init, Look, [Push(i), Flag(i), Push(j)], [Look, Push(i), Flag(i), Push(j)]);
    RunOne(tasks, s1, Push(i), [Flag(i), Push(j)], [Push(i), Flag(i), Push(j)]);
    RunOne(tasks, s2, Flag(i), [Push(j)], [Flag(i), Push(j)]);
    RunOne(tasks, s3, Push(j), [], [Push(j)]);
    RunNone(tasks, s);
  }

  lemma HidingDrain(tasks: seq<TaskResult>, s: State, i: nat, j: nat)
    requires s.queue == [i, j] && s.landedFlag && s.waiter == AtLandedFlag && |s.submitters| == |tasks|
    requires i < |tasks| && j < |tasks| && tasks[j].success
    ensures Run(tasks, s, [Look, Pop, Pop, Pop]).Some?
    ensures var w := Run(tasks, s, [Look, Pop, Pop, Pop]).value.waiter;
      && w.Returned? && w.drained == [i, j] && w.outcome.Some? && !w.outcome.value.success
      && w.outcome.value.signatures == [tasks[i].signature, tasks[j].signature]
    ensures Known(tasks, [i, j]) && AnySuccess(Chosen(tasks, [i, j]))
  {
    hide Run, GatherAll, SubmitStep;
    var got1 := Absorb(NOTHING, tasks[i], true);
    var got2 := Absorb(got1, tasks[j], true);
    var s1 := s.(waiter := Drain(SawLanded));
    var s2 := s1.(queue := [j], taken := s.taken + [i], waiter := Draining(SawLanded, [i], got1));
    var s3 := s2.(queue := [], taken := s2.taken + [j], waiter := Draining(SawLanded, [i, j], got2));
    var s4 := s3.(waiter := Finish(SawLanded, [i, j], got2));
    assert [i, j][1..] == [j] && [j][1..] == [];
    RunOne(tasks, s, Look, [Pop, Pop, Pop], [Look, Pop, Pop, Pop]);
    assert Step(tasks, s1, Pop) == Some(s2) by { assert [] + [i] == [i]; }
    RunOne(tasks, s1, Pop, [Pop, Pop], [Pop, Pop, Pop]);
    assert Step(tasks, s2, Pop) == Some(s3) by { assert [i] + [j] == [i, j]; }
    RunOne(tasks, s2, Pop, [Pop], [Pop, Pop]);
    RunOne(tasks, s3, Pop, [], [Pop]);
    RunNone(tasks, s4);
    assert Chosen(tasks, [i, j])[1].success;
  }

  lemma RunNone(tasks: seq<TaskResult>, s: State)
    ensures Run(tasks, s, []) == Some(s)
  {
  }

  lemma RunOne(tasks: seq<TaskResult>, s: State, a: Action, rest: seq<Action>, all: seq<Action>)
    requires Step(tasks, s, a).Some? && all == [a] + rest
    ensures Run(tasks, s, all) == Run(tasks, Step(tasks, s, a).value, rest)
  {
    hide Step;
    assert all[1..] == rest;
  }

  lemma {:induction false} RunSplits(tasks: seq<TaskResult>, s: State, actions: seq<Action>, n: nat)
    requires n <= |actions| && Run(tasks, s, actions[..n]).Some?
    ensures Run(tasks, s, actions) == Run(tasks, Run(tasks, s, actions[..n]).value, actions[n..])
    decreases n
  {
    hide Step;
    if n == 0 {
      assert actions[0..] == actions;
    } else {
      assert actions[..n][1..] == actions[1..][..n - 1];
      assert actions[n..] == actions[1..][n - 1..];
      RunSplits(tasks, Step(tasks, s, actions[0]).value, actions[1..], n - 1);
    }
  }

  /** Waiting for success can mislead exactly when the tasks include both a landed failure and a success. */
  lemma VerdictCanMislead(tasks: seq<TaskResult>, init: State)
    requires Init(tasks, init) && init.waiter == AtSuccessFlag
    ensures (exists actions :: Misleads(tasks, init, actions)) <==>
            (exists i, j :: 0 <= i < |tasks| && 0 <= j < |tasks| && LandedFailed(tasks[i]) && tasks[j].success)
  {
    if i: nat, j: nat :| i < |tasks| && j < |tasks| && LandedFailed(tasks[i]) && tasks[j].success {
      LandedFailureHidesSuccess(tasks, init, i, j);
    }
    if actions :| Misleads(tasks, init, actions) {
      MisleadingNeedsBoth(tasks, init, actions);
    }
  }

  lemma MisleadingNeedsBoth(tasks: seq<TaskResult>, init: State, actions: seq<Action>)
    requires Init(tasks, init) && Misleads(tasks, init, actions)
    ensures exists i, j :: 0 <= i < |tasks| && 0 <= j < |tasks| && LandedFailed(tasks[i]) && tasks[j].success
  {
    CollectorIsFaithful(tasks, init, actions);
    var s := Run(tasks, init, actions).value;
    var Returned(why, ids, outcome) := s.waiter;
    hide Run, Step, GatherAll;
    GatherAllMeans(Chosen(tasks, ids), why.SawLanded?);
    WaitForSuccessOutcomes(tasks, s);
    assert why.SawLanded?;
    var k :| 0 <= k < |ids| && LandedFailed(tasks[ids[k]]);
    var m :| 0 <= m < |Chosen(tasks, ids)| && Chosen(tasks, ids)[m].success;
    assert tasks[ids[m]].success;
  }
}
