/** The wrap-around byte buffer with one writer and one reader. Every load, every copied byte and
    every store is one step. Positions are kept modulo the size, which need not be a power of two.

    The copy is a parameter. An exact copy touches just the requested bytes; the one the buffer
    really uses touches whole chunks, so it also moves whatever lies behind its source. Memory
    therefore goes on for 31 bytes behind the buffer (the rim), which is as far as a chunk can reach. */
module ByteRing {
  import opened MachineInts
  import opened Circular
  import opened SimdCopy

  const RIM: nat := 31

  // ----- positions -----

  /** Bytes that can be read between two positions. */
  function AvailableData(read: nat, write: nat, size: nat): int {
    if write >= read then write - read else size - (read - write)
  }

  /** Bytes that can be written, as the writer computes it; one byte always stays free. */
  function AvailableSpace(read: nat, write: nat, size: nat): int {
    if write >= read then size - (write - read) - 1 else read - write - 1
  }

  /** Data and space always add up to the size less one. */
  lemma DataAndSpace(read: nat, write: nat, size: nat)
    requires read < size && write < size
    ensures 0 <= AvailableData(read, write, size) < size
    ensures AvailableData(read, write, size) + AvailableSpace(read, write, size) == size - 1
  {
  }

  lemma DataIsDistance(low: nat, high: nat, size: nat)
    requires low <= high < low + size
    ensures AvailableData(Mod(low, size), Mod(high, size), size) == high - low
    ensures AvailableSpace(Mod(low, size), Mod(high, size), size) == size - 1 - (high - low)
  {
    hide Mod;
    DistanceFromRemainders(low, high, size);
  }

  lemma StoreMoves(n: nat, d: nat, size: nat)
    requires d < size
    ensures Mod(Mod(n, size) + d, size) == Mod(n + d, size)
  {
    hide Mod;
    ModShift(n, d, size);
    ModParts(n, size);
    if Mod(n, size) + d < size {
      ModParts(Mod(n, size) + d, size);
    } else {
      ModAddsPeriod(Mod(n, size) + d - size, size);
      ModParts(Mod(n, size) + d - size, size);
    }
  }

  // ----- the copies of one request -----

  /** The bytes that one copy of `len` touches. */
  function Span(len: nat, exact: bool): nat {
    if exact then len else Touched(len)
  }

  lemma SpanBounds(len: nat, exact: bool)
    ensures len <= Span(len, exact) <= len + RIM
  {
    OverrunBounds(len);
  }

  /** The bytes of a request that lie before the end of the buffer. */
  function FirstPart(pos: nat, len: nat, size: nat): nat
    requires pos <= size
  {
    if pos + len <= size then len else size - pos
  }

  /** How many bytes the one or two copies of a request touch. */
  function PlanLength(pos: nat, len: nat, size: nat, exact: bool): nat
    requires pos <= size
  {
    Span(FirstPart(pos, len, size), exact) +
    if pos + len <= size then 0 else Span(len - (size - pos), exact)
  }

  /** The address in the buffer of the `k`-th byte touched: straight on, and in a second copy from the
      beginning of the buffer. */
  function RingOffset(pos: nat, len: nat, k: nat, size: nat, exact: bool): nat
    requires pos <= size
  {
    var first := Span(FirstPart(pos, len, size), exact);
    if k < first then pos + k else k - first
  }

  /** The offset of the same byte in the caller's memory. */
  function UserOffset(pos: nat, len: nat, k: nat, size: nat, exact: bool): nat
    requires pos <= size
  {
    var first := Span(FirstPart(pos, len, size), exact);
    if k < first then k else FirstPart(pos, len, size) + (k - first)
  }

  lemma PlanBounds(pos: nat, len: nat, k: nat, size: nat, exact: bool)
    requires pos < size && len < size && k < PlanLength(pos, len, size, exact)
    ensures RingOffset(pos, len, k, size, exact) < size + RIM
    ensures UserOffset(pos, len, k, size, exact) < len + RIM
  {
    hide Span;
    SpanBounds(FirstPart(pos, len, size), exact);
    if pos + len > size { SpanBounds(len - (size - pos), exact); }
  }

  /** The plan stays within the caller's bytes. */
  lemma PlanEnds(pos: nat, len: nat, size: nat, exact: bool)
    requires pos <= size
    ensures len <= PlanLength(pos, len, size, exact)
    ensures Span(FirstPart(pos, len, size), exact) <= len + RIM
    ensures PlanLength(pos, len, size, exact) - Span(FirstPart(pos, len, size), exact) + FirstPart(pos, len, size)
      <= len + RIM
  {
    hide Span;
    SpanBounds(FirstPart(pos, len, size), exact);
    if pos + len > size { SpanBounds(len - (size - pos), exact); }
  }

  /** What stands at address `a` after the first `k` bytes of a write. */
  function ByteAfter(mem: seq<byte>, bytes: seq<byte>, pos: nat, len: nat, size: nat, exact: bool, k: nat, a: nat): byte
    requires pos <= size && len + RIM <= |bytes| && k <= PlanLength(pos, len, size, exact) && a < |mem|
  {
    PlanEnds(pos, len, size, exact);
    var first := Span(FirstPart(pos, len, size), exact);
    if k > first && a < k - first then bytes[FirstPart(pos, len, size) + a]
    else if pos <= a < pos + Min(k, first) then bytes[a - pos]
    else mem[a]
  }

  /** Memory after the first `k` bytes of a write; `bytes` go on behind those requested. */
  function AfterSteps(mem: seq<byte>, bytes: seq<byte>, pos: nat, len: nat, size: nat, exact: bool, k: nat)
    : (r: seq<byte>)
    requires pos <= size && len + RIM <= |bytes| && k <= PlanLength(pos, len, size, exact)
    ensures |r| == |mem|
    ensures forall a: nat :: a < |mem| ==> r[a] == ByteAfter(mem, bytes, pos, len, size, exact, k, a)
  {
    seq(|mem|, a requires 0 <= a < |mem| => ByteAfter(mem, bytes, pos, len, size, exact, k, a))
  }

  /** Memory after all copies of a write. */
  function AfterCopies(mem: seq<byte>, bytes: seq<byte>, pos: nat, len: nat, size: nat, exact: bool): (r: seq<byte>)
    requires pos <= size && len + RIM <= |bytes|
    ensures |r| == |mem|
  {
    AfterSteps(mem, bytes, pos, len, size, exact, PlanLength(pos, len, size, exact))
  }

  /** A write of `len` bytes is clean if its copies neither reach past the buffer nor into bytes that
      the writer, seeing position `read`, has to take for unread. */
  predicate CleanWrite(read: nat, write: nat, len: nat, size: nat, exact: bool)
    requires write <= size
  {
    if write + len <= size then write + Span(len, exact) <= (if write < read then read else size)
    else Span(size - write, exact) == size - write && Span(len - (size - write), exact) <= read
  }

  /** The exact copy is always clean. */
  lemma ExactIsClean(read: nat, write: nat, len: nat, size: nat)
    requires read < size && write < size && len <= AvailableSpace(read, write, size)
    ensures CleanWrite(read, write, len, size, true)
  {
  }

  /** A clean write touches, from its position on, consecutive slots that are not waiting to be read. */
  lemma CleanPlan(low: nat, high: nat, len: nat, size: nat, exact: bool)
    requires low <= high && high + len < low + size
    requires CleanWrite(Mod(low, size), Mod(high, size), len, size, exact)
    ensures len <= PlanLength(Mod(high, size), len, size, exact)
    ensures high + PlanLength(Mod(high, size), len, size, exact) <= low + size
    ensures forall k: nat :: k < PlanLength(Mod(high, size), len, size, exact) ==>
      && RingOffset(Mod(high, size), len, k, size, exact) == Mod(high + k, size)
      && UserOffset(Mod(high, size), len, k, size, exact) == k
  {
    hide Mod, Span;
    var write := Mod(high, size);
    SpanBounds(FirstPart(write, len, size), exact);
    if write + len > size { SpanBounds(len - (size - write), exact); }
    DistanceFromRemainders(low, high, size);
    forall k: nat | k < PlanLength(write, len, size, exact)
      ensures RingOffset(write, len, k, size, exact) == Mod(high + k, size)
    {
      if k < size {
        ModShift(high, k, size);
      } else {
        ModAddsPeriod(high, size);
      }
    }
  }

  /** A write that is clean stays so while the reader moves on. */
  lemma CleanStays(low: nat, later: nat, high: nat, len: nat, size: nat, exact: bool)
    requires low <= later <= high && high + len < low + size
    requires CleanWrite(Mod(low, size), Mod(high, size), len, size, exact)
    ensures CleanWrite(Mod(later, size), Mod(high, size), len, size, exact)
  {
    hide Mod, Span;
    DistanceFromRemainders(low, high, size);
    DistanceFromRemainders(later, high, size);
  }

  /** The step that puts the final byte in place `p` of the caller's memory. */
  function LastStep(pos: nat, len: nat, p: nat, size: nat, exact: bool): nat
    requires pos <= size
  {
    var part := FirstPart(pos, len, size);
    if p < part then p else p - part + Span(part, exact)
  }

  /** Byte `p` of a request comes from the slot of its count, and no later step touches its place. */
  lemma ReadPlan(count: nat, len: nat, p: nat, size: nat, exact: bool)
    requires p < len < size
    ensures var pos := Mod(count, size); var last := LastStep(pos, len, p, size, exact);
      && last < PlanLength(pos, len, size, exact)
      && UserOffset(pos, len, last, size, exact) == p
      && RingOffset(pos, len, last, size, exact) == Mod(count + p, size)
      && forall k: nat :: last < k ==> UserOffset(pos, len, k, size, exact) != p
  {
    hide Mod, Span;
    var pos := Mod(count, size);
    SpanBounds(FirstPart(pos, len, size), exact);
    if pos + len > size { SpanBounds(len - (size - pos), exact); }
    ModShift(count, p, size);
  }

  // ----- the interleaving of one writer and one reader -----

  /** The bytes to write, and what lies behind them in memory. */
  datatype Request = Request(data: seq<byte>, tail: seq<byte>)

  datatype Writer =
    | WriteIdle
    | WriteHasPos(request: Request, write: nat)
    | WriteHasBoth(request: Request, write: nat, read: nat, ghostRead: nat)
    | WriteCopying(request: Request, write: nat, done: nat, ghostRead: nat)

  datatype Reader =
    | ReadIdle
    | ReadHasPos(wanted: nat, read: nat)
    | ReadHasBoth(wanted: nat, read: nat, write: nat, ghostWrite: nat)
    | ReadCopying(len: nat, read: nat, done: nat, out: seq<byte>)

  /** Memory, the two threads, and the two streams: bytes successfully written, bytes read.
      The `ghost...` fields record the stream length behind a loaded position. */
  datatype State = State(
    mem: seq<byte>, readPos: nat, writePos: nat, writer: Writer, reader: Reader,
    written: seq<byte>, read: seq<byte>)

  datatype Action =
    | WriteLoadWrite(request: Request) | WriteLoadRead | WriteCheck | WriteByte | WriteStore
    | ReadLoadRead(wanted: nat) | ReadLoadWrite | ReadCheck | ReadByte | ReadStore

  function WriteStep(size: nat, exact: bool, s: State, a: Action): Option<State> {
    match (a, s.writer)
    case (WriteLoadWrite(request), WriteIdle) =>
      if |request.tail| < RIM then None else Some(s.(writer := WriteHasPos(request, s.writePos)))
    case (WriteLoadRead, WriteHasPos(request, write)) =>
      Some(s.(writer := WriteHasBoth(request, write, s.readPos, |s.read|)))
    case (WriteCheck, WriteHasBoth(request, write, read, seen)) =>
      Some(s.(writer := if |request.data| > AvailableSpace(read, write, size) then WriteIdle
                        else WriteCopying(request, write, 0, seen)))
    case (WriteByte, WriteCopying(request, write, done, seen)) =>
      if write > size || done >= PlanLength(write, |request.data|, size, exact) then None
      else
        var at := RingOffset(write, |request.data|, done, size, exact);
        var from := UserOffset(write, |request.data|, done, size, exact);
        if at >= |s.mem| || from >= |request.data + request.tail| then None
        else Some(s.(writer := WriteCopying(request, write, done + 1, seen),
                     mem := s.mem[at := (request.data + request.tail)[from]]))
    case (WriteStore, WriteCopying(request, write, done, _)) =>
      if size == 0 || write > size || done != PlanLength(write, |request.data|, size, exact) then None
      else Some(s.(writer := WriteIdle, writePos := Mod(write + |request.data|, size),
                   written := s.written + request.data))
    case _ => None
  }

  function ReadStep(size: nat, exact: bool, s: State, a: Action): Option<State> {
    match (a, s.reader)
    case (ReadLoadRead(wanted), ReadIdle) =>
      Some(s.(reader := ReadHasPos(wanted, s.readPos)))
    case (ReadLoadWrite, ReadHasPos(wanted, read)) =>
      Some(s.(reader := ReadHasBoth(wanted, read, s.writePos, |s.written|)))
    case (ReadCheck, ReadHasBoth(wanted, read, write, _)) =>
      var data := AvailableData(read, write, size);
      Some(s.(reader := if data <= 0 then ReadIdle else StartCopy(Min(wanted, data), read)))
    case (ReadByte, ReadCopying(len, read, done, out)) =>
      if read > size || done >= PlanLength(read, len, size, exact) then None
      else
        var from, at := RingOffset(read, len, done, size, exact), UserOffset(read, len, done, size, exact);
        if from >= |s.mem| || at >= |out| then None
        else Some(s.(reader := ReadCopying(len, read, done + 1, out[at := s.mem[from]])))
    case (ReadStore, ReadCopying(len, read, done, out)) =>
      if size == 0 || read > size || done != PlanLength(read, len, size, exact) || len > |out| then None
      else Some(s.(reader := ReadIdle, readPos := Mod(read + len, size), read := s.read + out[..len]))
    case _ => None
  }

  /** The destination is as long as the copies can reach. */
  function StartCopy(len: nat, read: nat): Reader {
    ReadCopying(len, read, 0, seq(len + RIM, _ => 0))
  }

  function Step(size: nat, exact: bool, s: State, a: Action): Option<State> {
    if a.WriteLoadWrite? || a.WriteLoadRead? || a.WriteCheck? || a.WriteByte? || a.WriteStore? then
      WriteStep(size, exact, s, a)
    else ReadStep(size, exact, s, a)
  }

  ghost predicate Init(size: nat, s: State) {
    && 0 < size && |s.mem| == size + RIM && s.readPos == 0 && s.writePos == 0
    && s.writer == WriteIdle && s.reader == ReadIdle && s.written == [] && s.read == []
  }

  // ----- the invariant -----

  ghost predicate WriterInv(size: nat, exact: bool, s: State)
    requires 0 < size && |s.mem| == size + RIM
  {
    var nw, nr := |s.written|, |s.read|;
    match s.writer
    case WriteIdle => true
    case WriteHasPos(request, write) => write == s.writePos && |request.tail| >= RIM
    case WriteHasBoth(request, write, read, seen) =>
      && write == s.writePos && |request.tail| >= RIM
      && read == Mod(seen, size) && seen <= nr && nw < seen + size
    case WriteCopying(request, write, done, seen) =>
      && write == s.writePos <= size && |request.tail| >= RIM && seen <= nr && nw + |request.data| < seen + size
      && CleanWrite(Mod(seen, size), write, |request.data|, size, exact)
      && done <= PlanLength(write, |request.data|, size, exact)
      && forall k :: nw <= k < nw + done && k - nw < |request.data| ==> s.mem[Mod(k, size)] == request.data[k - nw]
  }

  ghost predicate ReaderInv(size: nat, exact: bool, s: State)
    requires 0 < size
  {
    var nw, nr := |s.written|, |s.read|;
    match s.reader
    case ReadIdle => true
    case ReadHasPos(_, read) => read == s.readPos
    case ReadHasBoth(_, read, write, seen) => read == s.readPos && write == Mod(seen, size) && nr <= seen <= nw
    case ReadCopying(len, read, done, out) =>
      && read == s.readPos <= size && nr + len <= nw && |out| == len + RIM
      && done <= PlanLength(read, len, size, exact)
      && forall p: nat :: p < len && LastStep(read, len, p, size, exact) < done ==> out[p] == s.written[nr + p]
  }

  /** What holds as long as every accepted write is clean. `rim` is what lies behind the buffer. */
  ghost predicate Inv(size: nat, exact: bool, rim: seq<byte>, s: State) {
    var nw, nr := |s.written|, |s.read|;
    && 0 < size && |s.mem| == size + RIM && s.mem[size..] == rim
    && s.writePos == Mod(nw, size) && s.readPos == Mod(nr, size)
    && nr <= nw < nr + size
    && (forall k :: nr <= k < nw ==> s.mem[Mod(k, size)] == s.written[k])
    && s.read == s.written[..nr]
    && WriterInv(size, exact, s)
    && ReaderInv(size, exact, s)
  }

  /** If the step accepts a write, the write is clean on the positions the writer observed. */
  ghost predicate CleanStep(size: nat, exact: bool, s: State, a: Action) {
    a.WriteCheck? && s.writer.WriteHasBoth? && s.writer.write <= size
    && |s.writer.request.data| <= AvailableSpace(s.writer.read, s.writer.write, size) ==>
      CleanWrite(s.writer.read, s.writer.write, |s.writer.request.data|, size, exact)
  }

  lemma WriteByteKeepsInv(size: nat, exact: bool, rim: seq<byte>, s: State)
    requires Inv(size, exact, rim, s) && Step(size, exact, s, WriteByte).Some?
    ensures Inv(size, exact, rim, Step(size, exact, s, WriteByte).value)
  {
    hide Mod, RingOffset, UserOffset, PlanLength, CleanWrite, LastStep;
    var nw, nr, w := |s.written|, |s.read|, s.writer;
    CleanPlan(w.ghostRead, nw, |w.request.data|, size, exact);
    NextSlotIsFree(nw + w.done, nr, size);
    var s' := Step(size, exact, s, WriteByte).value;
    assert forall k :: nr <= k < nw + w.done ==> s'.mem[Mod(k, size)] == s.mem[Mod(k, size)];
  }

  lemma WriteStoreKeepsInv(size: nat, exact: bool, rim: seq<byte>, s: State)
    requires Inv(size, exact, rim, s) && Step(size, exact, s, WriteStore).Some?
    ensures Inv(size, exact, rim, Step(size, exact, s, WriteStore).value)
  {
    hide Mod, RingOffset, UserOffset, PlanLength, CleanWrite, LastStep, ReaderInv;
    var nw, w := |s.written|, s.writer;
    CleanPlan(w.ghostRead, nw, |w.request.data|, size, exact);
    StoreMoves(nw, |w.request.data|, size);
    ReaderKeeps(size, exact, s, Step(size, exact, s, WriteStore).value);
  }

  /** More written bytes leave the reader's part alone. */
  lemma ReaderKeeps(size: nat, exact: bool, s: State, s': State)
    requires 0 < size && ReaderInv(size, exact, s)
    requires s'.reader == s.reader && s'.read == s.read && s'.readPos == s.readPos && s.written <= s'.written
    ensures ReaderInv(size, exact, s')
  {
    hide Mod, PlanLength, LastStep;
  }

  lemma WriterLoadsKeepInv(size: nat, exact: bool, rim: seq<byte>, s: State, a: Action)
    requires Inv(size, exact, rim, s) && Step(size, exact, s, a).Some? && CleanStep(size, exact, s, a)
    requires a.WriteLoadWrite? || a.WriteLoadRead? || a.WriteCheck?
    ensures Inv(size, exact, rim, Step(size, exact, s, a).value)
  {
    hide Mod, AvailableData, AvailableSpace, PlanLength, CleanWrite, LastStep;
    if a.WriteCheck? {
      DataIsDistance(s.writer.ghostRead, |s.written|, size);
    }
  }

  lemma ReadByteKeepsInv(size: nat, exact: bool, rim: seq<byte>, s: State)
    requires Inv(size, exact, rim, s) && Step(size, exact, s, ReadByte).Some?
    ensures Inv(size, exact, rim, Step(size, exact, s, ReadByte).value)
  {
    hide Mod, RingOffset, UserOffset, PlanLength, LastStep, WriterInv;
    var r := s.reader;
    forall p: nat | p < r.len
      ensures LastStep(r.read, r.len, p, size, exact) < r.done + 1 ==>
        Step(size, exact, s, ReadByte).value.reader.out[p] == s.written[|s.read| + p]
    {
      ReadPlan(|s.read|, r.len, p, size, exact);
    }
    WriterKeeps(size, exact, s, Step(size, exact, s, ReadByte).value);
  }

  lemma ReadStoreKeepsInv(size: nat, exact: bool, rim: seq<byte>, s: State)
    requires Inv(size, exact, rim, s) && Step(size, exact, s, ReadStore).Some?
    ensures Inv(size, exact, rim, Step(size, exact, s, ReadStore).value)
  {
    hide Mod, RingOffset, UserOffset, PlanLength, LastStep, WriterInv;
    var nr, r := |s.read|, s.reader;
    StoreMoves(nr, r.len, size);
    ReadIsComplete(size, exact, s);
    hide ReaderInv;
    assert s.written[..nr] + s.written[nr..nr + r.len] == s.written[..nr + r.len];
    WriterKeeps(size, exact, s, Step(size, exact, s, ReadStore).value);
  }

  /** After the last step of a read its bytes are all in place. */
  lemma ReadIsComplete(size: nat, exact: bool, s: State)
    requires 0 < size && s.readPos == Mod(|s.read|, size) && |s.written| < |s.read| + size
    requires ReaderInv(size, exact, s) && s.reader.ReadCopying?
    requires s.reader.done == PlanLength(s.readPos, s.reader.len, size, exact)
    ensures s.reader.out[..s.reader.len] == s.written[|s.read|..|s.read| + s.reader.len]
  {
    hide Mod, RingOffset, UserOffset, PlanLength, LastStep;
    var nr, r := |s.read|, s.reader;
    forall p: nat | p < r.len ensures r.out[p] == s.written[nr + p] { ReadPlan(nr, r.len, p, size, exact); }
  }

  /** More read bytes leave the writer's part alone. */
  lemma WriterKeeps(size: nat, exact: bool, s: State, s': State)
    requires 0 < size && |s.mem| == size + RIM && WriterInv(size, exact, s)
    requires s'.writer == s.writer && s'.written == s.written && s'.mem == s.mem
    requires s'.writePos == s.writePos && |s.read| <= |s'.read|
    ensures WriterInv(size, exact, s')
  {
    hide Mod, PlanLength, CleanWrite;
  }

  lemma ReaderLoadsKeepInv(size: nat, exact: bool, rim: seq<byte>, s: State, a: Action)
    requires Inv(size, exact, rim, s) && Step(size, exact, s, a).Some?
    requires a.ReadLoadRead? || a.ReadLoadWrite? || a.ReadCheck?
    ensures Inv(size, exact, rim, Step(size, exact, s, a).value)
  {
    hide Mod, AvailableData, AvailableSpace, PlanLength, LastStep, WriterInv;
    if a.ReadCheck? {
      DataIsDistance(|s.read|, s.reader.ghostWrite, size);
    }
    WriterKeeps(size, exact, s, Step(size, exact, s, a).value);
  }

  lemma StepKeepsInv(size: nat, exact: bool, rim: seq<byte>, s: State, a: Action)
    requires Inv(size, exact, rim, s) && Step(size, exact, s, a).Some? && CleanStep(size, exact, s, a)
    ensures Inv(size, exact, rim, Step(size, exact, s, a).value)
  {
    hide Inv, Step;
    match a
    case WriteByte => WriteByteKeepsInv(size, exact, rim, s);
    case WriteStore => WriteStoreKeepsInv(size, exact, rim, s);
    case ReadByte => ReadByteKeepsInv(size, exact, rim, s);
    case ReadStore => ReadStoreKeepsInv(size, exact, rim, s);
    case WriteLoadWrite(_) => WriterLoadsKeepInv(size, exact, rim, s, a);
    case WriteLoadRead => WriterLoadsKeepInv(size, exact, rim, s, a);
    case WriteCheck => WriterLoadsKeepInv(size, exact, rim, s, a);
    case _ => ReaderLoadsKeepInv(size, exact, rim, s, a);
  }

  function Run(size: nat, exact: bool, s: State, actions: seq<Action>): Option<State>
    decreases |actions|
  {
    if actions == [] then Some(s)
    else
      match Step(size, exact, s, actions[0])
      case None => None
      case Some(next) => Run(size, exact, next, actions[1..])
  }

  /** Every write that the run accepts is clean on the positions its writer observed. */
  ghost predicate AllClean(size: nat, exact: bool, s: State, actions: seq<Action>)
    decreases |actions|
  {
    actions == [] ||
    (CleanStep(size, exact, s, actions[0]) &&
     (Step(size, exact, s, actions[0]).Some? ==>
        AllClean(size, exact, Step(size, exact, s, actions[0]).value, actions[1..])))
  }

  lemma {:induction false} RunKeepsInv(size: nat, exact: bool, rim: seq<byte>, s: State, actions: seq<Action>)
    requires Inv(size, exact, rim, s) && Run(size, exact, s, actions).Some? && AllClean(size, exact, s, actions)
    ensures Inv(size, exact, rim, Run(size, exact, s, actions).value)
    decreases |actions|
  {
    hide Inv, Step, CleanStep;
    if actions != [] {
      StepKeepsInv(size, exact, rim, s, actions[0]);
      RunKeepsInv(size, exact, rim, Step(size, exact, s, actions[0]).value, actions[1..]);
    }
  }

  lemma InitIsSound(size: nat, exact: bool, s: State)
    requires Init(size, s)
    ensures Inv(size, exact, s.mem[size..], s)
  {
    ModParts(0, size);
  }

  // ----- the stream -----

  /** The bytes read are a prefix of the bytes successfully written, nothing behind the buffer has
      changed, and data and space between the stored positions are the lengths they claim to be. */
  ghost predicate StreamHolds(size: nat, before: State, s: State) {
    && s.read <= s.written
    && |s.mem| == |before.mem| >= size && s.mem[size..] == before.mem[size..]
    && AvailableData(s.readPos, s.writePos, size) == |s.written| - |s.read|
    && AvailableSpace(s.readPos, s.writePos, size) == size - 1 - (|s.written| - |s.read|)
  }

  /** Under every interleaving, whichever copy is used, the stream holds as long as every accepted
      write is clean on the positions its writer observed. */
  lemma CleanStreamHolds(size: nat, exact: bool, init: State, actions: seq<Action>)
    requires Init(size, init) && Run(size, exact, init, actions).Some? && AllClean(size, exact, init, actions)
    ensures StreamHolds(size, init, Run(size, exact, init, actions).value)
  {
    hide Run, AllClean, StreamHolds, Inv;
    InitIsSound(size, exact, init);
    StreamHoldsFrom(size, exact, init.mem[size..], init, actions);
  }

  lemma StreamHoldsFrom(size: nat, exact: bool, rim: seq<byte>, s: State, actions: seq<Action>)
    requires Inv(size, exact, rim, s) && Run(size, exact, s, actions).Some? && AllClean(size, exact, s, actions)
    ensures StreamHolds(size, s, Run(size, exact, s, actions).value)
  {
    hide Run, Step, Mod, AvailableData, AvailableSpace, AllClean;
    RunKeepsInv(size, exact, rim, s, actions);
    var e := Run(size, exact, s, actions).value;
    DataIsDistance(|e.read|, |e.written|, size);
  }

  /** With the copy taken at its contract of writing just the requested bytes, that is every run. */
  lemma StreamIsPreserved(size: nat, init: State, actions: seq<Action>)
    requires Init(size, init) && Run(size, true, init, actions).Some?
    ensures StreamHolds(size, init, Run(size, true, init, actions).value)
  {
    hide Run, AllClean, Init, StreamHolds;
    InitIsSound(size, true, init);
    ExactRunsAreClean(size, init.mem[size..], init, actions);
    CleanStreamHolds(size, true, init, actions);
  }

  lemma {:induction false} ExactRunsAreClean(size: nat, rim: seq<byte>, s: State, actions: seq<Action>)
    requires Inv(size, true, rim, s)
    ensures AllClean(size, true, s, actions)
    decreases |actions|
  {
    hide Step, Mod, CleanWrite;
    if actions != [] {
      if actions[0].WriteCheck? && s.writer.WriteHasBoth? {
        var w := s.writer;
        if |w.request.data| <= AvailableSpace(w.read, w.write, size) {
          ExactIsClean(w.read, w.write, |w.request.data|, size);
        }
      }
      if Step(size, true, s, actions[0]).Some? {
        StepKeepsInv(size, true, rim, s, actions[0]);
        hide Inv;
        ExactRunsAreClean(size, rim, Step(size, true, s, actions[0]).value, actions[1..]);
      }
    }
  }

  /** A write is refused exactly when it is longer than the space there was when the writer loaded
      the read position; a read comes back empty exactly when nothing was waiting when the reader
      loaded the write position, and otherwise it takes as much as it was asked for or there was. */
  lemma RefusalsAreTrue(size: nat, exact: bool, rim: seq<byte>, s: State)
    requires Inv(size, exact, rim, s)
    ensures s.writer.WriteHasBoth? ==>
      && Step(size, exact, s, WriteCheck).Some?
      && (Step(size, exact, s, WriteCheck).value.writer.WriteIdle? <==>
            |s.writer.request.data| > size - 1 - (|s.written| - s.writer.ghostRead))
    ensures s.reader.ReadHasBoth? ==>
      && Step(size, exact, s, ReadCheck).Some?
      && (Step(size, exact, s, ReadCheck).value.reader.ReadIdle? <==> s.reader.ghostWrite == |s.read|)
      && (Step(size, exact, s, ReadCheck).value.reader.ReadCopying? ==>
            Step(size, exact, s, ReadCheck).value.reader.len == Min(s.reader.wanted, s.reader.ghostWrite - |s.read|))
  {
    hide Mod, AvailableData, AvailableSpace;
    if s.writer.WriteHasBoth? { DataIsDistance(s.writer.ghostRead, |s.written|, size); }
    if s.reader.ReadHasBoth? { DataIsDistance(|s.read|, s.reader.ghostWrite, size); }
  }

  /** No copy ever leaves memory or gets stuck. */
  lemma CopiesStayInBounds(size: nat, exact: bool, rim: seq<byte>, s: State)
    requires Inv(size, exact, rim, s)
    ensures s.writer.WriteCopying? ==>
      Step(size, exact, s, WriteByte).Some? || Step(size, exact, s, WriteStore).Some?
    ensures s.reader.ReadCopying? ==>
      Step(size, exact, s, ReadByte).Some? || Step(size, exact, s, ReadStore).Some?
  {
    hide Mod, RingOffset, UserOffset, PlanLength, CleanWrite, LastStep;
    var w, r := s.writer, s.reader;
    if w.WriteCopying? && w.done < PlanLength(w.write, |w.request.data|, size, exact) {
      PlanBounds(w.write, |w.request.data|, w.done, size, exact);
    }
    if r.ReadCopying? && r.done < PlanLength(r.read, r.len, size, exact) {
      PlanBounds(r.read, r.len, r.done, size, exact);
    }
  }
}
