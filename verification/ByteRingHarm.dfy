/** The byte buffer with the copy it really uses: a write keeps the stream whole exactly when it is
    clean, and from a fresh buffer a short write can be reached that is not. */
module ByteRingHarm {
  import opened MachineInts
  import opened SimdCopy
  import opened ByteRing

  // ----- whole writes and reads -----

  /** The run writes at most once, `len` bytes. */
  ghost predicate OneWrite(actions: seq<Action>, len: nat) {
    && (forall k :: 0 <= k < |actions| && actions[k].WriteLoadWrite? ==> |actions[k].request.data| == len)
    && (forall j, k :: 0 <= j < k < |actions| ==> !(actions[j].WriteLoadWrite? && actions[k].WriteLoadWrite?))
  }

  ghost predicate NoWrite(actions: seq<Action>) {
    forall k :: 0 <= k < |actions| ==> !actions[k].WriteLoadWrite?
  }

  lemma RunStops(size: nat, exact: bool, s: State)
    ensures Run(size, exact, s, []) == Some(s) && AllClean(size, exact, s, [])
  {
  }

  lemma RunOne(size: nat, exact: bool, s: State, a: Action, rest: seq<Action>, next: State)
    requires Step(size, exact, s, a) == Some(next)
    ensures Run(size, exact, s, [a] + rest) == Run(size, exact, next, rest)
    ensures AllClean(size, exact, s, [a] + rest) <==> CleanStep(size, exact, s, a) && AllClean(size, exact, next, rest)
  {
    hide Step, CleanStep;
    assert ([a] + rest)[1..] == rest;
  }

  lemma {:induction false} RunJoins(size: nat, exact: bool, s: State, a: seq<Action>, b: seq<Action>)
    requires Run(size, exact, s, a).Some?
    ensures Run(size, exact, s, a + b) == Run(size, exact, Run(size, exact, s, a).value, b)
    ensures AllClean(size, exact, s, a) && AllClean(size, exact, Run(size, exact, s, a).value, b) ==>
      AllClean(size, exact, s, a + b)
    decreases |a|
  {
    hide Step, CleanStep;
    if a == [] {
      assert a + b == b;
    } else {
      assert (a + b)[1..] == a[1..] + b;
      RunJoins(size, exact, Step(size, exact, s, a[0]).value, a[1..], b);
    }
  }

  lemma NextByte(mem: seq<byte>, bytes: seq<byte>, pos: nat, len: nat, size: nat, exact: bool, k: nat)
    requires pos < size && len < size && len + RIM <= |bytes| && |mem| == size + RIM
    requires k < PlanLength(pos, len, size, exact)
    ensures RingOffset(pos, len, k, size, exact) < |mem| && UserOffset(pos, len, k, size, exact) < |bytes|
    ensures AfterSteps(mem, bytes, pos, len, size, exact, k + 1) ==
      AfterSteps(mem, bytes, pos, len, size, exact, k)
        [RingOffset(pos, len, k, size, exact) := bytes[UserOffset(pos, len, k, size, exact)]]
  {
    hide Span, PlanLength;
    PlanBounds(pos, len, k, size, exact);
  }

  /** The copying steps of a write, one after another. */
  lemma {:induction false} CopyAll(size: nat, exact: bool, s: State, before: seq<byte>, w: Writer)
    returns (actions: seq<Action>)
    requires w.WriteCopying? && s.writer == w && w.write < size && |w.request.data| < size
    requires |w.request.tail| >= RIM && |before| == size + RIM
    requires w.done <= PlanLength(w.write, |w.request.data|, size, exact)
    requires s.mem ==
      AfterSteps(before, w.request.data + w.request.tail, w.write, |w.request.data|, size, exact, w.done)
    ensures var len, plan := |w.request.data|, PlanLength(w.write, |w.request.data|, size, exact);
      Run(size, exact, s, actions) ==
        Some(s.(mem := AfterSteps(before, w.request.data + w.request.tail, w.write, len, size, exact, plan),
                writer := w.(done := plan)))
    ensures AllClean(size, exact, s, actions) && NoWrite(actions)
    decreases PlanLength(w.write, |w.request.data|, size, exact) - w.done
  {
    hide RingOffset, UserOffset, PlanLength, AfterSteps;
    var len := |w.request.data|;
    if w.done == PlanLength(w.write, len, size, exact) {
      actions := [];
    } else {
      NextByte(before, w.request.data + w.request.tail, w.write, len, size, exact, w.done);
      var w' := w.(done := w.done + 1);
      var next := Step(size, exact, s, WriteByte).value;
      var rest := CopyAll(size, exact, next, before, w');
      actions := [WriteByte] + rest;
      RunOne(size, exact, s, WriteByte, rest, next);
    }
  }

  /** Three steps, a run of copying steps, and a last one. */
  lemma RunGlued(size: nat, exact: bool, s: State, a1: Action, s1: State, a2: Action, s2: State, a3: Action, s3: State,
                 copy: seq<Action>, s4: State, a4: Action, e: State) returns (actions: seq<Action>)
    requires Step(size, exact, s, a1) == Some(s1) && Step(size, exact, s1, a2) == Some(s2)
    requires Step(size, exact, s2, a3) == Some(s3) && Run(size, exact, s3, copy) == Some(s4)
    requires Step(size, exact, s4, a4) == Some(e)
    requires !a1.WriteCheck? && !a2.WriteCheck? && !a4.WriteCheck? && AllClean(size, exact, s3, copy)
    ensures Run(size, exact, s, actions) == Some(e)
    ensures CleanStep(size, exact, s2, a3) ==> AllClean(size, exact, s, actions)
    ensures |actions| == |copy| + 4 && actions == [a1] + ([a2] + ([a3] + (copy + ([a4] + []))))
  {
    hide Step, Run, AllClean;
    RunStops(size, exact, e);
    RunOne(size, exact, s4, a4, [], e);
    RunJoins(size, exact, s3, copy, [a4] + []);
    RunOne(size, exact, s2, a3, copy + ([a4] + []), s3);
    RunOne(size, exact, s1, a2, [a3] + (copy + ([a4] + [])), s2);
    RunOne(size, exact, s, a1, [a2] + ([a3] + (copy + ([a4] + []))), s1);
    actions := [a1] + ([a2] + ([a3] + (copy + ([a4] + []))));
  }

  /** What an undisturbed write leaves behind. */
  function AfterWrite(size: nat, exact: bool, s: State, request: Request): State
    requires s.writePos < size && |request.tail| >= RIM
  {
    s.(mem := AfterCopies(s.mem, request.data + request.tail, s.writePos, |request.data|, size, exact),
       writePos := Mod(s.writePos + |request.data|, size), written := s.written + request.data)
  }

  /** The steps of a write up to its first byte. */
  lemma WriteStarts(size: nat, exact: bool, s: State, request: Request) returns (s1: State, s2: State, s3: State)
    requires s.writer == WriteIdle && |request.tail| >= RIM
    requires |request.data| <= AvailableSpace(s.readPos, s.writePos, size)
    ensures Step(size, exact, s, WriteLoadWrite(request)) == Some(s1)
    ensures Step(size, exact, s1, WriteLoadRead) == Some(s2)
    ensures Step(size, exact, s2, WriteCheck) == Some(s3)
    ensures s2 == s.(writer := WriteHasBoth(request, s.writePos, s.readPos, |s.read|))
    ensures s3 == s.(writer := WriteCopying(request, s.writePos, 0, |s.read|))
  {
    hide AvailableSpace;
    s1 := s.(writer := WriteHasPos(request, s.writePos));
    s2 := s.(writer := WriteHasBoth(request, s.writePos, s.readPos, |s.read|));
    s3 := s.(writer := WriteCopying(request, s.writePos, 0, |s.read|));
  }

  /** An undisturbed write that fits goes through. */
  lemma WholeWrite(size: nat, exact: bool, s: State, request: Request) returns (actions: seq<Action>)
    requires s.writer == WriteIdle && |s.mem| == size + RIM && s.readPos < size && s.writePos < size
    requires |request.data| <= AvailableSpace(s.readPos, s.writePos, size) && |request.tail| >= RIM
    ensures Run(size, exact, s, actions) == Some(AfterWrite(size, exact, s, request))
    ensures OneWrite(actions, |request.data|)
    ensures CleanWrite(s.readPos, s.writePos, |request.data|, size, exact) ==> AllClean(size, exact, s, actions)
  {
    hide RingOffset, UserOffset, PlanLength, AfterSteps, CleanWrite, Mod;
    DataAndSpace(s.readPos, s.writePos, size);
    hide AvailableSpace;
    var s1, s2, s3 := WriteStarts(size, exact, s, request);
    NoStepsYet(s.mem, request.data + request.tail, s.writePos, |request.data|, size, exact);
    var copy := CopyAll(size, exact, s3, s.mem, s3.writer);
    var s4 := Run(size, exact, s3, copy).value;
    var e := AfterWrite(size, exact, s, request);
    assert Step(size, exact, s4, WriteStore) == Some(e);
    hide Step, Run, AllClean, AfterWrite;
    actions := RunGlued(size, exact, s, WriteLoadWrite(request), s1, WriteLoadRead, s2, WriteCheck, s3,
                        copy, s4, WriteStore, e);
  }

  lemma NoStepsYet(mem: seq<byte>, bytes: seq<byte>, pos: nat, len: nat, size: nat, exact: bool)
    requires pos <= size && len + RIM <= |bytes|
    ensures AfterSteps(mem, bytes, pos, len, size, exact, 0) == mem
  {
    hide PlanLength, Span;
  }

  /** The copying steps of a read. */
  lemma {:induction false} ReadAll(size: nat, exact: bool, s: State, r: Reader)
    returns (actions: seq<Action>, out: seq<byte>)
    requires r.ReadCopying? && s.reader == r && r.read < size && r.len < size && |s.mem| == size + RIM
    requires |r.out| == r.len + RIM && r.done <= PlanLength(r.read, r.len, size, exact)
    ensures |out| == r.len + RIM
    ensures Run(size, exact, s, actions) ==
      Some(s.(reader := r.(done := PlanLength(r.read, r.len, size, exact), out := out)))
    ensures AllClean(size, exact, s, actions) && NoWrite(actions)
    decreases PlanLength(r.read, r.len, size, exact) - r.done
  {
    hide RingOffset, UserOffset, PlanLength;
    if r.done == PlanLength(r.read, r.len, size, exact) {
      actions, out := [], r.out;
    } else {
      PlanBounds(r.read, r.len, r.done, size, exact);
      var next := Step(size, exact, s, ReadByte).value;
      var rest, out' := ReadAll(size, exact, next, next.reader);
      actions, out := [ReadByte] + rest, out';
      RunOne(size, exact, s, ReadByte, rest, next);
    }
  }

  /** The steps of a read up to its first byte. */
  lemma ReadStarts(size: nat, exact: bool, s: State, n: nat) returns (s1: State, s2: State, s3: State)
    requires s.reader == ReadIdle && 0 < n <= AvailableData(s.readPos, s.writePos, size)
    ensures Step(size, exact, s, ReadLoadRead(n)) == Some(s1)
    ensures Step(size, exact, s1, ReadLoadWrite) == Some(s2)
    ensures Step(size, exact, s2, ReadCheck) == Some(s3)
    ensures s3 == s.(reader := StartCopy(n, s.readPos))
  {
    hide AvailableData;
    s1 := s.(reader := ReadHasPos(n, s.readPos));
    s2 := s.(reader := ReadHasBoth(n, s.readPos, s.writePos, |s.written|));
    s3 := s.(reader := StartCopy(n, s.readPos));
  }

  /** An undisturbed read of `n` waiting bytes goes through; a single byte is the oldest one. */
  lemma WholeRead(size: nat, exact: bool, s: State, n: nat) returns (actions: seq<Action>, got: seq<byte>)
    requires s.reader == ReadIdle && |s.mem| == size + RIM && s.readPos < size && s.writePos < size
    requires 0 < n <= AvailableData(s.readPos, s.writePos, size)
    ensures |got| == n
    ensures Run(size, exact, s, actions) ==
      Some(s.(readPos := Mod(s.readPos + n, size), read := s.read + got))
    ensures AllClean(size, exact, s, actions) && NoWrite(actions)
    ensures n == 1 ==> got == [s.mem[s.readPos]]
  {
    hide RingOffset, UserOffset, PlanLength, Mod;
    DataAndSpace(s.readPos, s.writePos, size);
    hide AvailableData;
    var s1, s2, s3 := ReadStarts(size, exact, s, n);
    var copy, out := ReadAll(size, exact, s3, s3.reader);
    if n == 1 { copy, out := ReadOldest(size, exact, s3); }
    var s4 := Run(size, exact, s3, copy).value;
    got := out[..n];
    var e := s.(readPos := Mod(s.readPos + n, size), read := s.read + got);
    assert Step(size, exact, s4, ReadStore) == Some(e);
    hide Step, Run, AllClean;
    actions := RunGlued(size, exact, s, ReadLoadRead(n), s1, ReadLoadWrite, s2, ReadCheck, s3, copy, s4, ReadStore, e);
  }

  lemma ReadOldest(size: nat, exact: bool, s: State) returns (actions: seq<Action>, out: seq<byte>)
    requires |s.mem| == size + RIM && s.readPos < size && s.reader == StartCopy(1, s.readPos)
    ensures |out| == 1 + RIM && out[0] == s.mem[s.readPos]
    ensures Run(size, exact, s, actions) ==
      Some(s.(reader := s.reader.(done := PlanLength(s.readPos, 1, size, exact), out := out)))
    ensures AllClean(size, exact, s, actions) && NoWrite(actions)
  {
    var next := Step(size, exact, s, ReadByte).value;
    out := s.reader.out[0 := s.mem[s.readPos]];
    actions := [ReadByte] + [];
    RunStops(size, exact, next);
    RunOne(size, exact, s, ReadByte, [], next);
  }

  // ----- what a write may touch -----

  /** Address `a` holds a byte that has been written and not yet read. */
  predicate Unread(read: nat, write: nat, size: nat, a: nat) {
    if write >= read then read <= a < write else (read <= a < size || a < write)
  }

  /** Overwriting address `a` does harm: it lies past the buffer or holds an unread byte. */
  predicate Hurts(read: nat, write: nat, size: nat, a: nat) {
    a >= size || Unread(read, write, size, a)
  }

  /** Each of the one or two copies touches whole chunks; none may reach past the buffer, into unread
      bytes, or into the other copy's bytes. */
  ghost predicate Harmless(read: nat, write: nat, len: nat, size: nat)
    requires write <= size
  {
    if write + len <= size then
      forall a: nat :: write <= a < write + Touched(len) ==> !Hurts(read, write, size, a)
    else
      && (forall a: nat :: write <= a < write + Touched(size - write) ==> !Hurts(read, write, size, a))
      && (forall a: nat :: a < Touched(len - (size - write)) ==> a < write && !Hurts(read, write, size, a))
  }

  /** That is what being clean means. A length that is copied exactly is always clean unless it wraps. */
  lemma CleanWriteIsExact(read: nat, write: nat, len: nat, size: nat)
    requires read < size && write < size && len <= AvailableSpace(read, write, size)
    ensures CleanWrite(read, write, len, size, false) <==> Harmless(read, write, len, size)
    ensures Touched(len) == len && write + len <= size ==> CleanWrite(read, write, len, size, false)
  {
    hide Touched;
    OverrunBounds(len);
    if write + len <= size {
      if !CleanWrite(read, write, len, size, false) {
        var a := if write < read then read else size;
        assert write <= a < write + Touched(len) && Hurts(read, write, size, a);
      }
    } else {
      OverrunBounds(size - write);
      OverrunBounds(len - (size - write));
      assert read <= write;
      if Touched(size - write) > size - write {
        assert Hurts(read, write, size, size);
      } else if Touched(len - (size - write)) > read {
        assert Hurts(read, write, size, read) <==> read < write;
      }
    }
  }

  // ----- an unclean write does harm -----

  /** Where an unclean write does its harm: the first byte past the buffer, or the oldest place that
      is waiting to be read once the write is stored. */
  function HarmAddress(read: nat, write: nat, len: nat, size: nat): nat
    requires write <= size
  {
    if write + len <= size then (if write < read then read else size)
    else if Touched(size - write) > size - write then size
    else read
  }

  /** The byte that an unclean write puts there. In front of the buffer's end it is always one from
      behind the source. */
  lemma HarmLands(mem: seq<byte>, data: seq<byte>, tail: seq<byte>, read: nat, write: nat, size: nat)
    requires read < size && write < size && |mem| == size + RIM && |tail| >= RIM
    requires |data| <= AvailableSpace(read, write, size)
    requires !CleanWrite(read, write, |data|, size, false)
    ensures var a := HarmAddress(read, write, |data|, size);
      var after := AfterCopies(mem, data + tail, write, |data|, size, false);
      && |data| > 0 && |after| == |mem| && (a == size || a == read)
      && (after[a] in data + tail)
      && (a == read ==> after[a] in tail)
  {
    hide Touched;
    var len := |data|;
    var a := HarmAddress(read, write, len, size);
    OverrunBounds(len);
    OverrunBounds(size - write);
    PlanEnds(write, len, size, false);
    NothingToTouch();
    if write + len > size { OverrunBounds(len - (size - write)); }
    var bytes := data + tail;
    assert forall i :: len <= i < |bytes| ==> bytes[i] == tail[i - len];
  }

  lemma NothingToTouch()
    ensures Touched(0) == 0
  {
  }

  /** A request whose bytes all differ from `there`, and whose tail differs from its data. */
  function Marked(len: nat, there: byte): Request {
    Request(seq(len, _ => (there + 1) % 256), seq(RIM, _ => (there + 2) % 256))
  }

  /** With both threads idle, any unclean write that would be accepted can be filled so that it writes
      behind the buffer or makes the next read return a byte that was never written there. */
  lemma UncleanWriteHarms(size: nat, rim: seq<byte>, s: State, len: nat)
    returns (request: Request, actions: seq<Action>, e: State)
    requires Inv(size, false, rim, s) && s.writer == WriteIdle && s.reader == ReadIdle
    requires len <= AvailableSpace(s.readPos, s.writePos, size)
    requires !CleanWrite(s.readPos, s.writePos, len, size, false)
    ensures |request.data| == len && OneWrite(actions, len) && Run(size, false, s, actions) == Some(e)
    ensures |e.mem| == |s.mem| == size + RIM
    ensures if HarmAddress(s.readPos, s.writePos, len, size) == s.readPos then !(e.read <= e.written)
            else e.mem[size..] != s.mem[size..]
  {
    hide Mod, AfterCopies, HarmAddress, CleanWrite, Run, Step;
    var nr, nw := |s.read|, |s.written|;
    var a := HarmAddress(s.readPos, s.writePos, len, size);
    HarmIsInMemory(s.readPos, s.writePos, len, size);
    var there := s.mem[a];
    request := Marked(len, there);
    ModParts(nr, size);
    ModParts(nw, size);
    var write := WholeWrite(size, false, s, request);
    var m := AfterWrite(size, false, s, request);
    HarmLands(s.mem, request.data, request.tail, s.readPos, s.writePos, size);
    if a != s.readPos {
      actions, e := write, m;
      assert e.mem[size..][0] != s.mem[size..][0];
    } else {
      DataIsDistance(nr, nw, size);
      StoreMoves(nw, len, size);
      DataIsDistance(nr, nw + len, size);
      ModParts(nw + len, size);
      var read, got := WholeRead(size, false, m, 1);
      actions := write + read;
      RunJoins(size, false, s, write, read);
      e := Run(size, false, m, read).value;
      WrongByte(s, request, e, got, size, rim);
      StillOneWrite(write, read, len);
    }
  }

  lemma HarmIsInMemory(read: nat, write: nat, len: nat, size: nat)
    requires read < size && write <= size
    ensures HarmAddress(read, write, len, size) == size || HarmAddress(read, write, len, size) == read
  {
  }

  lemma WrongByte(s: State, request: Request, e: State, got: seq<byte>, size: nat, rim: seq<byte>)
    requires Inv(size, false, rim, s) && |request.data| > 0 && request == Marked(|request.data|, s.mem[s.readPos])
    requires e.read == s.read + got && e.written == s.written + request.data && |got| == 1 && got[0] in request.tail
    ensures !(e.read <= e.written)
  {
    hide Mod;
    var nr := |s.read|;
    assert e.read[nr] == got[0];
    if nr < |s.written| {
      assert e.written[nr] == s.written[nr] == s.mem[s.readPos];
    } else {
      assert e.written[nr] == request.data[0];
    }
  }

  lemma StillOneWrite(write: seq<Action>, read: seq<Action>, len: nat)
    requires OneWrite(write, len) && NoWrite(read)
    ensures OneWrite(write + read, len)
  {
  }

  // ----- a clean write does none -----

  /** Where a run with at most one more write stands: all its writes to come are clean. */
  ghost predicate OnCourse(s: State, actions: seq<Action>, low: nat, high: nat, len: nat) {
    match s.writer
    case WriteIdle => NoWrite(actions) || (OneWrite(actions, len) && |s.written| == high && low <= |s.read|)
    case WriteHasPos(request, _) =>
      NoWrite(actions) && |request.data| == len && |s.written| == high && low <= |s.read|
    case WriteHasBoth(request, _, _, seen) =>
      NoWrite(actions) && |request.data| == len && |s.written| == high && low <= seen
    case WriteCopying(_, _, _, _) => NoWrite(actions)
  }

  lemma {:induction false} CleanWriteStaysClean(size: nat, rim: seq<byte>, s: State, actions: seq<Action>,
                                                low: nat, high: nat, len: nat)
    requires Inv(size, false, rim, s) && OnCourse(s, actions, low, high, len)
    requires low <= high && high + len < low + size
    requires CleanWrite(Mod(low, size), Mod(high, size), len, size, false)
    ensures AllClean(size, false, s, actions)
    decreases |actions|
  {
    hide Mod, CleanWrite, Step;
    if actions != [] {
      var a := actions[0];
      if a.WriteCheck? && s.writer.WriteHasBoth? {
        CleanStays(low, s.writer.ghostRead, high, len, size, false);
      }
      if Step(size, false, s, a).Some? {
        var next := Step(size, false, s, a).value;
        StepKeepsInv(size, false, rim, s, a);
        CourseIsKept(size, rim, s, actions, low, high, len);
        hide Inv, OnCourse;
        CleanWriteStaysClean(size, rim, next, actions[1..], low, high, len);
      }
    }
  }

  lemma CourseIsKept(size: nat, rim: seq<byte>, s: State, actions: seq<Action>, low: nat, high: nat, len: nat)
    requires Inv(size, false, rim, s) && OnCourse(s, actions, low, high, len)
    requires actions != [] && Step(size, false, s, actions[0]).Some?
    ensures OnCourse(Step(size, false, s, actions[0]).value, actions[1..], low, high, len)
  {
    hide Mod, CleanWrite, RingOffset, UserOffset, PlanLength, AvailableSpace, AvailableData, LastStep;
    var rest := actions[1..];
    assert forall k :: 0 <= k < |rest| ==> rest[k] == actions[k + 1];
    if OneWrite(actions, len) {
      assert OneWrite(rest, len);
      if actions[0].WriteLoadWrite? {
        forall k | 0 <= k < |rest| ensures !rest[k].WriteLoadWrite? {
          assert !(actions[0].WriteLoadWrite? && actions[k + 1].WriteLoadWrite?);
        }
      }
    }
    if NoWrite(actions) { assert NoWrite(rest); }
  }

  /** The exact condition. With both threads idle, a write of a length that would be accepted keeps the
      stream whole, whatever it contains and however the reader interleaves, exactly when it is clean. */
  lemma WriteIsSafeIffClean(size: nat, rim: seq<byte>, s: State, len: nat)
    requires Inv(size, false, rim, s) && s.writer == WriteIdle && s.reader == ReadIdle
    requires len <= AvailableSpace(s.readPos, s.writePos, size)
    ensures s.readPos < size && s.writePos < size
    ensures CleanWrite(s.readPos, s.writePos, len, size, false) <==>
      forall actions :: OneWrite(actions, len) && Run(size, false, s, actions).Some? ==>
        StreamHolds(size, s, Run(size, false, s, actions).value)
  {
    ModParts(|s.read|, size);
    ModParts(|s.written|, size);
    if CleanWrite(s.readPos, s.writePos, len, size, false) {
      forall actions | OneWrite(actions, len) && Run(size, false, s, actions).Some?
        ensures StreamHolds(size, s, Run(size, false, s, actions).value)
      {
        CleanOneWriteHolds(size, rim, s, actions, len);
      }
    } else {
      var request, actions, e := UncleanWriteHarms(size, rim, s, len);
      assert !StreamHolds(size, s, e);
      assert OneWrite(actions, len) && Run(size, false, s, actions) == Some(e);
    }
  }

  lemma CleanOneWriteHolds(size: nat, rim: seq<byte>, s: State, actions: seq<Action>, len: nat)
    requires Inv(size, false, rim, s) && s.writer == WriteIdle
    requires 0 <= len <= AvailableSpace(s.readPos, s.writePos, size) && s.writePos <= size
    requires CleanWrite(s.readPos, s.writePos, len, size, false)
    requires OneWrite(actions, len) && Run(size, false, s, actions).Some?
    ensures StreamHolds(size, s, Run(size, false, s, actions).value)
  {
    hide Mod, CleanWrite, Run, StreamHolds, AvailableSpace;
    DataIsDistance(|s.read|, |s.written|, size);
    CleanWriteStaysClean(size, rim, s, actions, |s.read|, |s.written|, len);
    StreamHoldsFrom(size, false, rim, s, actions);
  }

  // ----- a short write that does harm, from a fresh buffer -----

  function Zeros(n: nat): Request {
    Request(seq(n, _ => 0), seq(RIM, _ => 0))
  }

  /** One clean write or one read, from a quiet state. */
  lemma CleanWriteRuns(size: nat, rim: seq<byte>, s: State, len: nat) returns (actions: seq<Action>, e: State)
    requires Inv(size, false, rim, s) && s.writer == WriteIdle && s.reader == ReadIdle
    requires len < size - (|s.written| - |s.read|)
    requires CleanWrite(Mod(|s.read|, size), Mod(|s.written|, size), len, size, false)
    ensures Run(size, false, s, actions) == Some(e) && AllClean(size, false, s, actions) && Inv(size, false, rim, e)
    ensures e.writer == WriteIdle && e.reader == ReadIdle && |e.read| == |s.read| && |e.written| == |s.written| + len
  {
    hide Mod, CleanWrite, Run, AllClean, AvailableSpace;
    ModParts(|s.read|, size);
    ModParts(|s.written|, size);
    DataIsDistance(|s.read|, |s.written|, size);
    actions := WholeWrite(size, false, s, Zeros(len));
    e := AfterWrite(size, false, s, Zeros(len));
    hide Inv;
    RunKeepsInv(size, false, rim, s, actions);
  }

  lemma ReadRuns(size: nat, rim: seq<byte>, s: State, n: nat) returns (actions: seq<Action>, e: State)
    requires Inv(size, false, rim, s) && s.writer == WriteIdle && s.reader == ReadIdle
    requires 0 < n <= |s.written| - |s.read|
    ensures Run(size, false, s, actions) == Some(e) && AllClean(size, false, s, actions) && Inv(size, false, rim, e)
    ensures e.writer == WriteIdle && e.reader == ReadIdle && |e.read| == |s.read| + n && |e.written| == |s.written|
  {
    hide Mod, Run, AllClean, AvailableData;
    ModParts(|s.read|, size);
    ModParts(|s.written|, size);
    DataIsDistance(|s.read|, |s.written|, size);
    var run, got := WholeRead(size, false, s, n);
    actions := run;
    e := Run(size, false, s, actions).value;
    hide Inv;
    RunKeepsInv(size, false, rim, s, actions);
  }

  /** From a fresh buffer of 128 bytes: write 96, read 70, write 95, every write clean. Six bytes are
      free then, so a write of five is accepted; it is copied as eight bytes, lands on the oldest unread
      one, and the next read returns a byte that was never written. */
  lemma ShortWriteCanDestroyUnreadBytes(init: State)
    returns (before: seq<Action>, s: State, request: Request, last: seq<Action>, e: State)
    requires Init(128, init)
    ensures Run(128, false, init, before) == Some(s) && AllClean(128, false, init, before)
    ensures s.writer == WriteIdle && s.reader == ReadIdle && s.read <= s.written
    ensures s.readPos == 70 && s.writePos == 63 && AvailableSpace(70, 63, 128) == 6
    ensures |request.data| == 5 && OneWrite(last, 5) && Run(128, false, s, last) == Some(e)
    ensures !(e.read <= e.written)
  {
    hide Run, AllClean, Inv, Init;
    FreshState(init);
    var rim := init.mem[128..];
    var a, s1 := CleanWriteRuns(128, rim, init, 96);
    var b, s2 := ReadRuns(128, rim, s1, 70);
    var c, s3 := CleanWriteRuns(128, rim, s2, 95);
    RunJoins(128, false, init, a, b);
    RunJoins(128, false, init, a + b, c);
    before, s := a + b + c, s3;
    QuietPositions(128, rim, s);
    request, last, e := UncleanWriteHarms(128, rim, s, 5);
  }

  lemma FreshState(init: State)
    requires Init(128, init)
    ensures |init.mem| >= 128 && Inv(128, false, init.mem[128..], init)
    ensures init.writer == WriteIdle && init.reader == ReadIdle && init.read == [] && init.written == []
  {
    InitIsSound(128, false, init);
  }

  lemma QuietPositions(size: nat, rim: seq<byte>, s: State)
    requires Inv(size, false, rim, s)
    ensures s.readPos == Mod(|s.read|, size) && s.writePos == Mod(|s.written|, size) && s.read <= s.written
  {
    hide Mod;
  }
}
