// The character device as a value and its three operations as functions. The
// environment's choices (interrupted lock attempts, failed user copies, failed
// allocations) are part of an operation, so one function covers every outcome.
module DeviceModel {
  import opened Words
  import opened CommandLog
  import opened Lookup
  import opened CircularBuffers

  // `log` is every command ever committed; the ring keeps the last ten.
  // `pending` is the filled part of the working entry, `seek` is
  // cb_ioctl_offs, and `cbHeld` says that cb_mutex is locked and nobody will
  // unlock it.
  datatype Dev = Dev(log: seq<Command>, pending: seq<byte>, seek: nat, cbHeld: bool) {
    function Window(): seq<Command> { LastTen(log) }
    function Content(): seq<byte> { Flatten(Window()) }
    function Sizes(): seq<nat> { Lengths(Window()) }
  }

  const INITIAL := Dev([], [], 0, false)

  datatype Ret = Count(n: nat) | ERestartSys | EFault | ENoMem | EInval

  // What a call gives back: its value, the bytes copied out, and the new *f_pos.
  datatype Reply = Reply(ret: Ret, data: seq<byte>, fpos: int)

  // `uncopied` is what copy_from_user reports as not copied.
  datatype WriteFaults = WriteFaults(interruptWe: bool, uncopied: nat, allocFails: bool, interruptCb: bool)

  const NO_FAULTS := WriteFaults(false, 0, false, false)

  // `outside` is what the code reads as a size when it is given a command
  // number beyond the array; C does not say what that is.
  datatype Op =
    | Write(buf: seq<byte>, wpos: int, faults: WriteFaults)
    | Read(rpos: int, count: nat, rInterrupt: bool, copyFails: bool)
    | Seek(cmd: nat, offset: nat, outside: nat, sInterrupt: bool)

  predicate IsOffset(x: int) { -TWO_TO_63 <= x < TWO_TO_63 }

  // The arguments are values of the C parameter types.
  predicate Typed(op: Op) {
    match op
    case Write(buf, fpos, f) => |buf| < TWO_TO_64 && IsOffset(fpos) && f.uncopied <= |buf|
    case Read(fpos, count, _, _) => IsOffset(fpos) && count < TWO_TO_64
    case Seek(cmd, offset, outside, _) => cmd < TWO_TO_32 && offset < TWO_TO_32 && outside < TWO_TO_64
  }

  // ---- write ----

  predicate Fits(d: Dev, buf: seq<byte>) {
    |d.pending| + |buf| <= ENTRY_LIMIT
  }

  // The write gets as far as taking cb_mutex.
  predicate ReachesRing(d: Dev, buf: seq<byte>, f: WriteFaults) {
    && !f.interruptWe && Fits(d, buf) && f.uncopied == 0
    && FirstNewline(buf) < |buf| && !f.allocFails
  }

  function ApplyWrite(d: Dev, buf: seq<byte>, fpos: int, f: WriteFaults): (Dev, Reply)
    requires f.uncopied <= |buf|
  {
    var copied := |buf| - f.uncopied;
    if f.interruptWe then (d, Reply(ERestartSys, [], fpos))
    else if !Fits(d, buf) then (d, Reply(ENoMem, [], fpos))
    else if f.uncopied > 0 then
      (d.(pending := d.pending + buf[..copied]), Reply(EFault, [], Signed64(fpos + copied)))
    else
      var staged := d.(pending := d.pending + buf);
      var end := Signed64(fpos + |buf|);
      var nl := FirstNewline(buf);
      if nl == |buf| then (staged, Reply(Count(|buf|), [], end))
      else if f.allocFails then (staged, Reply(ENoMem, [], end))
      else if f.interruptCb then (staged, Reply(ERestartSys, [], end))
      else (d.(log := d.log + [d.pending + buf[..nl + 1]], pending := []), Reply(Count(|buf|), [], end))
  }

  // ---- read ----

  function ApplyRead(d: Dev, fpos: int, count: nat, interrupt: bool, copyFails: bool): Reply {
    if interrupt then Reply(ERestartSys, [], fpos)
    else
      var hit := Locate(d.Sizes(), Unsigned64(fpos + d.seek));
      if hit.None? then Reply(Count(0), [], fpos)
      else
        var c := d.Window()[hit.value.entry][hit.value.local..];
        var n := if count > |c| then |c| else count;
        if copyFails then Reply(EFault, [], fpos)
        else Reply(Count(n), c[..n], Signed64(fpos + n - d.seek))
  }

  // ---- seek ----

  // The size field of physical slot k.
  function SlotSize(log: seq<Command>, k: nat): nat
    requires k < 10
  {
    if k < |log| then |log[NewestAt(|log|, k)]| else 0
  }

  // The code's two tests, in its order and with its 32-bit sums.
  predicate PassesChecks(log: seq<Command>, cmd: nat, offset: nat, outside: nat) {
    && Unsigned32(offset + 1) <= (if cmd < 10 then SlotSize(log, cmd) else outside)
    && Unsigned32(cmd + 1) <= 10
  }

  // A rejection returns with cb_mutex still locked.
  function ApplySeek(d: Dev, cmd: nat, offset: nat, outside: nat, interrupt: bool): (Dev, Ret) {
    if interrupt then (d, ERestartSys)
    else if !PassesChecks(d.log, cmd, offset, outside) then (d.(cbHeld := true), EInval)
    else (d.(seek := FlatPosition(d.Sizes(), cmd, offset)), Count(0))
  }

  // With the largest command number the sum in the second test wraps to 0; a
  // call that passes both tests then never comes back.
  predicate SeekTerminates(cmd: nat, offset: nat, outside: nat) {
    cmd == TWO_TO_32 - 1 ==> Unsigned32(offset + 1) > outside
  }

  // The index of the loop after k increments: it has eight bits.
  function LoopIndex(k: nat): nat {
    k % 256
  }

  // The loop that sums up to the command number never ends.
  ghost predicate CountsForever(cmd: nat) {
    forall k: nat :: LoopIndex(k) < cmd
  }

  // A seek passes the tests into an endless loop exactly when its command
  // number is the largest one and the first test lets its offset pass.
  lemma SpinsExact(log: seq<Command>, cmd: nat, offset: nat, outside: nat)
    requires cmd < TWO_TO_32
    ensures PassesChecks(log, cmd, offset, outside) && CountsForever(cmd)
            <==> cmd == TWO_TO_32 - 1 && Unsigned32(offset + 1) <= outside
    ensures PassesChecks(log, cmd, offset, outside) && CountsForever(cmd)
            <==> !SeekTerminates(cmd, offset, outside)
  {
    assert LoopIndex(10) == 10;
  }

  // ---- runs ----

  function Apply(d: Dev, op: Op): (Dev, Reply)
    requires Typed(op)
  {
    match op
    case Write(buf, fpos, f) => ApplyWrite(d, buf, fpos, f)
    case Read(fpos, count, i, cf) => (d, ApplyRead(d, fpos, count, i, cf))
    case Seek(c, o, outside, i) => var (e, ret) := ApplySeek(d, c, o, outside, i); (e, Reply(ret, [], 0))
  }

  // The call returns: it does not wait for a mutex nobody will release.
  predicate Returns(d: Dev, op: Op) {
    match op
    case Write(buf, _, f) => d.cbHeld && ReachesRing(d, buf, f) ==> f.interruptCb
    case Read(_, _, interrupt, _) => d.cbHeld ==> interrupt
    case Seek(cmd, offset, outside, interrupt) =>
      (d.cbHeld ==> interrupt) && (interrupt || SeekTerminates(cmd, offset, outside))
  }

  predicate TypedRun(ops: seq<Op>) {
    forall i :: 0 <= i < |ops| ==> Typed(ops[i])
  }

  function Replay(ops: seq<Op>): Dev
    requires TypedRun(ops)
  {
    if ops == [] then INITIAL else Apply(Replay(ops[..|ops| - 1]), ops[|ops| - 1]).0
  }

  lemma ReplayStep(ops: seq<Op>, op: Op)
    requires TypedRun(ops) && Typed(op)
    ensures Replay(ops + [op]) == Apply(Replay(ops), op).0
  {
    assert (ops + [op])[..|ops|] == ops;
  }

  // ---- what each call answers and leaves behind ----

  // A write: which of its outcomes happens when, the value it returns, how far
  // it moves the file position, and what becomes of its bytes. All of them count
  // as written when a line is committed, those behind its newline too.
  lemma WriteOutcome(d: Dev, buf: seq<byte>, fpos: int, f: WriteFaults)
    requires f.uncopied <= |buf|
    ensures var (e, r) := ApplyWrite(d, buf, fpos, f);
            var taken := !f.interruptWe && Fits(d, buf);
            var whole, line := taken && f.uncopied == 0, !NoNewline(buf);
            && r.data == []
            && (r.ret.Count? <==> whole && (line ==> !f.allocFails && !f.interruptCb))
            && (r.ret.Count? ==> r.ret.n == |buf|)
            && (r.ret == ERestartSys <==> f.interruptWe || (whole && line && !f.allocFails && f.interruptCb))
            && (r.ret == EFault <==> taken && f.uncopied > 0)
            && (r.ret == ENoMem <==> !f.interruptWe && (!Fits(d, buf) || (whole && line && f.allocFails)))
            && r.fpos == (if taken then Signed64(fpos + |buf| - f.uncopied) else fpos)
            && e.seek == d.seek && e.cbHeld == d.cbHeld
            && if r.ret.Count? && line then
                 e.log == d.log + [d.pending + Cut(buf)] && e.pending == []
               else
                 e.log == d.log && e.pending == d.pending + (if taken then buf[..|buf| - f.uncopied] else [])
  {
    hide Signed64;
    assert NoNewline(buf) <==> FirstNewline(buf) == |buf|;
    assert buf[..|buf|] == buf;
  }

  // A read: the errors and the position. (ReadIsSlice and ShortReadEndsCommand
  // say which bytes a successful one gives.)
  lemma ReadOutcome(d: Dev, fpos: int, count: nat, interrupt: bool, copyFails: bool)
    requires WellFormed(d)
    ensures var r, inside := ApplyRead(d, fpos, count, interrupt, copyFails),
                             Unsigned64(fpos + d.seek) < |d.Content()|;
            && (r.ret == ERestartSys <==> interrupt)
            && (r.ret == EFault <==> !interrupt && inside && copyFails)
            && (r.ret.Count? <==> !interrupt && !(inside && copyFails))
            && (r.ret.Count? ==> r == ApplyRead(d, fpos, count, false, false) && r.ret.n == |r.data|)
            && (!r.ret.Count? ==> r.data == [])
            && r.fpos == (if r.ret.Count? && inside then Signed64(fpos + |r.data| - d.seek) else fpos)
  {
    hide Flatten, LastTen, Sum, Signed64, Unsigned64;
    ContentBound(d);
  }

  // A seek that comes back: what it answers, in closed form, and where it
  // leaves the seek offset, as a number of bytes. It never touches the history
  // or the working entry.
  lemma SeekOutcome(d: Dev, cmd: nat, offset: nat, outside: nat, interrupt: bool)
    requires WellFormed(d) && cmd < TWO_TO_32 && offset < TWO_TO_32
    requires interrupt || SeekTerminates(cmd, offset, outside)
    ensures var (e, ret) := ApplySeek(d, cmd, offset, outside, interrupt);
            var accepted := cmd < 10 && (offset == TWO_TO_32 - 1
                                         || IsLivePosition(d.log, TestedCommand(d.log, cmd), offset));
            var before := d.Window()[..if cmd < |d.Window()| then cmd else |d.Window()|];
            && e.log == d.log && e.pending == d.pending
            && (ret == ERestartSys <==> interrupt)
            && (ret == EInval <==> !interrupt && !accepted)
            && (ret == Count(0) <==> !interrupt && accepted)
            && e.cbHeld == (d.cbHeld || ret == EInval)
            && e.seek == (if ret == Count(0) then |Flatten(before)| + offset else d.seek)
  {
    hide PassesChecks, TestedCommand, LastTen, Flatten, Sum;
    SeekAccepts(d, cmd, offset, outside);
    var w := d.Window();
    var k := if cmd < |w| then cmd else |w|;
    FlattenLength(w[..k]);
    assert Lengths(w)[..k] == Lengths(w[..k]);
  }

  // ---- bounds, on every run ----

  predicate SoundCommand(c: Command) {
    1 <= |c| <= ENTRY_LIMIT && c[|c| - 1] == NEWLINE
  }

  const CONTENT_LIMIT: int := 10 * ENTRY_LIMIT

  predicate WellFormed(d: Dev) {
    && |d.pending| <= ENTRY_LIMIT
    && (forall i :: 0 <= i < |d.log| ==> SoundCommand(d.log[i]))
    && d.seek < CONTENT_LIMIT + TWO_TO_32
  }

  // Facts every reader of the ring relies on: sizes are at least 1, so the
  // search is exact, and the whole content is far below every integer limit.
  lemma ContentBound(d: Dev)
    requires WellFormed(d)
    ensures |d.Content()| == Sum(d.Sizes()) <= CONTENT_LIMIT
    ensures d.Sizes() == [] || d.Sizes()[0] >= 1
    ensures forall cmd: nat, o: nat :: FlatPosition(d.Sizes(), cmd, o) <= CONTENT_LIMIT + o
  {
    FlattenLength(d.Window());
    var ns := d.Sizes();
    SumBound(ns, ENTRY_LIMIT);
    forall cmd: nat, o: nat
      ensures FlatPosition(ns, cmd, o) <= CONTENT_LIMIT + o
    {
      SumBound(ns[..if cmd < |ns| then cmd else |ns|], ENTRY_LIMIT);
    }
  }

  lemma StepKeepsBounds(d: Dev, op: Op)
    requires WellFormed(d) && Typed(op)
    ensures WellFormed(Apply(d, op).0)
  {
    match op {
      case Write(buf, fpos, f) =>
        var nl := FirstNewline(buf);
        if nl < |buf| && Fits(d, buf) {
          var c := d.pending + buf[..nl + 1];
          assert SoundCommand(c);
        }
      case Read(_, _, _, _) =>
      case Seek(_, _, _, _) =>
        ContentBound(d);
    }
  }

  // In every run, faults included: the fill index stays within the working
  // entry, and every committed command has 1 to ENTRY_LIMIT bytes and ends in
  // a newline.
  lemma {:induction false} EveryRunBounded(ops: seq<Op>)
    requires TypedRun(ops)
    ensures WellFormed(Replay(ops))
  {
    if ops != [] {
      EveryRunBounded(ops[..|ops| - 1]);
      StepKeepsBounds(Replay(ops[..|ops| - 1]), ops[|ops| - 1]);
    }
  }

  // ---- what fault-free runs compute ----

  predicate FaultFree(ops: seq<Op>) {
    forall i :: 0 <= i < |ops| && ops[i].Write? ==> ops[i].faults == NO_FAULTS
  }

  // The bytes that count: each write cut after its first newline; a write that
  // does not fit behind the unfinished line counts for nothing.
  function Stream(ops: seq<Op>): seq<byte> {
    if ops == [] then []
    else
      var s, last := Stream(ops[..|ops| - 1]), ops[|ops| - 1];
      if last.Write? && |Rest(s)| + |last.buf| <= ENTRY_LIMIT then s + Cut(last.buf) else s
  }

  // One write onto a device that stands for stream s.
  lemma WriteExtendsStream(d: Dev, s: seq<byte>, buf: seq<byte>)
    requires d.log == Lines(s) && d.pending == Rest(s) && Fits(d, buf)
    ensures var e := ApplyWrite(d, buf, 0, NO_FAULTS).0;
            e == d.(log := Lines(s + Cut(buf)), pending := Rest(s + Cut(buf)))
  {
    hide Lines, Rest;
    if FirstNewline(buf) == |buf| {
      LinesAppendFragment(s, Cut(buf));
    } else {
      LinesAppendFramed(s, Cut(buf));
    }
  }

  // The device divides the stream into lines: the history is its complete
  // lines and the working entry is what follows the last newline.
  lemma {:induction false} FaultFreeRun(ops: seq<Op>)
    requires TypedRun(ops) && FaultFree(ops)
    ensures Replay(ops).log == Lines(Stream(ops))
    ensures Replay(ops).pending == Rest(Stream(ops))
  {
    hide Lines, Rest, Cut, FirstNewline, ApplyRead, PassesChecks, FlatPosition;
    if ops == [] {
      NoLines([]);
    } else {
      var prev, last := ops[..|ops| - 1], ops[|ops| - 1];
      FaultFreeRun(prev);
      if last.Write? && Fits(Replay(prev), last.buf) {
        WriteExtendsStream(Replay(prev), Stream(prev), last.buf);
        FposIrrelevant(Replay(prev), last.buf, last.wpos, NO_FAULTS);
      }
    }
  }

  // The position argument of a write plays no part in what it leaves behind.
  lemma FposIrrelevant(d: Dev, buf: seq<byte>, fpos: int, f: WriteFaults)
    requires f.uncopied <= |buf|
    ensures ApplyWrite(d, buf, fpos, f).0 == ApplyWrite(d, buf, 0, f).0
  {
  }

  // Framing: in a fault-free run the working entry holds no newline and every
  // command exactly one, at its end; nothing of the stream is lost.
  lemma FaultFreeFraming(ops: seq<Op>)
    requires TypedRun(ops) && FaultFree(ops)
    ensures NoNewline(Replay(ops).pending)
    ensures forall i :: 0 <= i < |Replay(ops).log| ==> Framed(Replay(ops).log[i])
    ensures Flatten(Replay(ops).log) + Replay(ops).pending == Stream(ops)
  {
    hide Lines, Rest, Stream;
    FaultFreeRun(ops);
    LinesFramed(Stream(ops));
    LinesRejoin(Stream(ops));
  }

  // Boundary recovery: splitting what a reader sees at its newlines gives back
  // exactly the commands in the ring.
  lemma FaultFreeRecovery(ops: seq<Op>)
    requires TypedRun(ops) && FaultFree(ops)
    ensures Lines(Replay(ops).Content()) == Replay(ops).Window()
    ensures Rest(Replay(ops).Content()) == []
  {
    hide Lines, Rest, Stream, Replay;
    FaultFreeFraming(ops);
    LinesRecover(Replay(ops).Window());
  }

  // Undisturbed writes of the given buffers.
  function WritesOf(bufs: seq<seq<byte>>): (ops: seq<Op>)
    ensures |ops| == |bufs|
    ensures forall i :: 0 <= i < |ops| ==> ops[i] == Write(bufs[i], 0, NO_FAULTS)
  {
    seq(|bufs|, i requires 0 <= i < |bufs| => Write(bufs[i], 0, NO_FAULTS))
  }

  // Writing finished commands, each at once, makes exactly that history. (A
  // command of ENTRY_LIMIT bytes needs an allocation that a kernel refuses; see
  // FullEntryForever.)
  lemma {:induction false} WritesCommit(cs: seq<Command>)
    requires forall i :: 0 <= i < |cs| ==> Framed(cs[i]) && |cs[i]| <= ENTRY_LIMIT
    ensures TypedRun(WritesOf(cs)) && Replay(WritesOf(cs)) == Dev(cs, [], 0, false)
  {
    hide Apply, Framed;
    if cs != [] {
      var n := |cs| - 1;
      var before, c := cs[..n], cs[n];
      WritesCommit(before);
      WriteFramed(Dev(before, [], 0, false), c);
      ReplayStep(WritesOf(before), Write(c, 0, NO_FAULTS));
      assert WritesOf(cs) == WritesOf(before) + [Write(c, 0, NO_FAULTS)];
      assert cs == before + [c];
    }
  }

  lemma WriteFramed(d: Dev, c: Command)
    requires d.pending == [] && Framed(c) && |c| <= ENTRY_LIMIT
    ensures Typed(Write(c, 0, NO_FAULTS))
    ensures Apply(d, Write(c, 0, NO_FAULTS)) == (d.(log := d.log + [c]), Reply(Count(|c|), [], |c|))
  {
    hide FirstNewline;
    FirstNewlineUnique(c, |c| - 1);
    assert c[..|c|] == c && [] + c == c;
  }

  // The write ends by a fault exit that leaves an unscanned newline behind.
  predicate Strands(d: Dev, op: Op) {
    && op.Write? && Typed(op) && !op.faults.interruptWe && Fits(d, op.buf)
    && FirstNewline(op.buf) < |op.buf| - op.faults.uncopied
    && (op.faults.uncopied > 0 || op.faults.allocFails || op.faults.interruptCb)
  }

  // The write puts a command into the ring.
  predicate Commits(d: Dev, op: Op) {
    op.Write? && ReachesRing(d, op.buf, op.faults) && !op.faults.interruptCb
  }

  // One operation, on any device: the working entry is free of newlines
  // afterwards exactly when the operation commits, or was given a clean entry
  // and strands nothing.
  lemma StrandsExact(d: Dev, op: Op)
    requires Typed(op)
    ensures NoNewline(Apply(d, op).0.pending)
            <==> Commits(d, op) || (NoNewline(d.pending) && !Strands(d, op))
  {
    hide ApplyRead, PassesChecks, FlatPosition;
    if op.Write? && Fits(d, op.buf) && !op.faults.interruptWe && !Commits(d, op) {
      var nl := FirstNewline(op.buf);
      var staged := d.pending + op.buf[..|op.buf| - op.faults.uncopied];
      assert op.faults.uncopied == 0 ==> staged == d.pending + op.buf;
      if nl < |op.buf| - op.faults.uncopied {
        assert staged[|d.pending| + nl] == NEWLINE;
      }
      assert forall i :: 0 <= i < |d.pending| ==> staged[i] == d.pending[i];
    }
  }

  // A stranded newline stays in the working entry until the next commit takes
  // it along.
  predicate Dirty(ops: seq<Op>)
    requires TypedRun(ops)
  {
    if ops == [] then false
    else
      var prev, last := ops[..|ops| - 1], ops[|ops| - 1];
      !Commits(Replay(prev), last) && (Dirty(prev) || Strands(Replay(prev), last))
  }

  // For each command of the history: whether the working entry was dirty when
  // the command was committed.
  function DirtyCommits(ops: seq<Op>): seq<bool>
    requires TypedRun(ops)
  {
    if ops == [] then []
    else
      var prev, last := ops[..|ops| - 1], ops[|ops| - 1];
      DirtyCommits(prev) + (if Commits(Replay(prev), last) then [Dirty(prev)] else [])
  }

  lemma FramedCommand(pending: seq<byte>, buf: seq<byte>)
    requires FirstNewline(buf) < |buf|
    ensures Framed(pending + buf[..FirstNewline(buf) + 1]) <==> NoNewline(pending)
  {
    hide FirstNewline, Clean;
    FirstLine(buf, []);
    FramedAppend(pending, buf[..FirstNewline(buf) + 1]);
  }

  lemma CommitsExact(d: Dev, op: Op)
    requires Typed(op)
    ensures var log := Apply(d, op).0.log;
            if Commits(d, op)
            then log == d.log + [d.pending + op.buf[..FirstNewline(op.buf) + 1]]
            else log == d.log
  {
    hide ApplyRead, PassesChecks, FlatPosition;
  }

  // Framing under faults, exactly: the working entry holds a newline if and
  // only if it is dirty, and a command is framed if and only if the working
  // entry was not dirty when it was committed.
  lemma {:induction false} FramingExact(ops: seq<Op>)
    requires TypedRun(ops)
    ensures NoNewline(Replay(ops).pending) <==> !Dirty(ops)
    ensures |DirtyCommits(ops)| == |Replay(ops).log|
    ensures forall i :: 0 <= i < |Replay(ops).log| ==> (Framed(Replay(ops).log[i]) <==> !DirtyCommits(ops)[i])
  {
    hide Apply, Commits, Strands, NoNewline, Framed, FirstNewline;
    if ops == [] {
      NothingDirty();
    } else {
      var prev, last := ops[..|ops| - 1], ops[|ops| - 1];
      FramingExact(prev);
      StrandsExact(Replay(prev), last);
      CommitsExact(Replay(prev), last);
      if Commits(Replay(prev), last) {
        CommitHasNewline(Replay(prev), last);
        FramedCommand(Replay(prev).pending, last.buf);
      }
    }
  }

  lemma NothingDirty()
    ensures NoNewline([])
  {
  }

  lemma CommitHasNewline(d: Dev, op: Op)
    requires Commits(d, op)
    ensures op.Write? && FirstNewline(op.buf) < |op.buf|
  {
  }

  // No operation of the run commits while the working entry is dirty.
  predicate CleanCommits(ops: seq<Op>)
    requires TypedRun(ops)
  {
    forall k :: 0 <= k < |ops| && Commits(Replay(ops[..k]), ops[k]) ==> !Dirty(ops[..k])
  }

  lemma CleanCommitsNext(ops: seq<Op>, op: Op)
    requires TypedRun(ops) && Typed(op)
    ensures CleanCommits(ops + [op]) <==> CleanCommits(ops) && (Commits(Replay(ops), op) ==> !Dirty(ops))
  {
    hide Commits, Replay, Dirty;
    var all := ops + [op];
    assert all[..|ops|] == ops;
    assert forall k :: 0 <= k < |ops| ==> all[..k] == ops[..k] && all[k] == ops[k];
  }

  // The history is framed throughout if and only if every commit of the run
  // was made from a clean working entry.
  lemma {:induction false} HistoryFramedExact(ops: seq<Op>)
    requires TypedRun(ops)
    ensures AllFramed(Replay(ops).log) <==> CleanCommits(ops)
  {
    hide Apply, Commits, Strands, NoNewline, Framed, FirstNewline, CleanCommits;
    if ops == [] {
      NoCommits();
    } else {
      var prev, last := ops[..|ops| - 1], ops[|ops| - 1];
      var log := Replay(prev).log;
      assert ops == prev + [last];
      HistoryFramedExact(prev);
      CleanCommitsNext(prev, last);
      FramingExact(prev);
      CommitsExact(Replay(prev), last);
      if Commits(Replay(prev), last) {
        CommitHasNewline(Replay(prev), last);
        FramedCommand(Replay(prev).pending, last.buf);
        AllFramedNext(log, Replay(ops).log[|log|]);
      }
    }
  }

  lemma NoCommits()
    ensures CleanCommits([])
  {
  }

  // Boundary recovery under faults, exactly: splitting what a reader sees at
  // its newlines gives back the commands in the ring if and only if none of
  // them was committed from a dirty working entry.
  lemma RecoveryExact(ops: seq<Op>)
    requires TypedRun(ops)
    ensures |DirtyCommits(ops)| == |Replay(ops).log|
    ensures Lines(Replay(ops).Content()) == Replay(ops).Window() <==> true !in LastTen(DirtyCommits(ops))
    ensures Lines(Flatten(Replay(ops).log)) == Replay(ops).log <==> true !in DirtyCommits(ops)
  {
    hide Lines, Rest, Replay, DirtyCommits, Framed;
    FramingExact(ops);
    LinesRecoverExact(Replay(ops).Window());
    LinesRecoverExact(Replay(ops).log);
    var d, marks := Replay(ops), DirtyCommits(ops);
    forall i | 0 <= i < |d.Window()|
      ensures Framed(d.Window()[i]) <==> !LastTen(marks)[i]
    {
      var j := |d.log| - |d.Window()| + i;
      assert d.Window()[i] == d.log[j] && LastTen(marks)[i] == marks[j];
    }
  }

  // A copy that stops after the newline, then an ordinary write: the command
  // committed has two newlines.
  lemma StrandedNewline()
    ensures var ops := [Write([NEWLINE, NEWLINE], 0, WriteFaults(false, 1, false, false)),
                        Write([NEWLINE], 0, NO_FAULTS)];
            TypedRun(ops) && Replay(ops).log == [[NEWLINE, NEWLINE]] && !Framed(Replay(ops).log[0])
  {
    var first := Write([NEWLINE, NEWLINE], 0, WriteFaults(false, 1, false, false));
    var second := Write([NEWLINE], 0, NO_FAULTS);
    ReplayStep([], first);
    assert [] + [first] == [first];
    assert [NEWLINE, NEWLINE][..1] == [NEWLINE] && [] + [NEWLINE] == [NEWLINE];
    assert Replay([first]) == Dev([], [NEWLINE], 0, false);
    ReplayStep([first], second);
    assert [first] + [second] == [first, second];
    assert FirstNewline([NEWLINE]) == 0 && [NEWLINE][..1] == [NEWLINE];
    assert [NEWLINE] + [NEWLINE] == [NEWLINE, NEWLINE];
  }

  // ---- a full working entry ----

  // The copy of a command has one byte more than the command, and no
  // allocation is larger than the working entry.
  predicate Allocatable(d: Dev, op: Op) {
    op.Write? && FirstNewline(op.buf) < |op.buf| && !op.faults.allocFails ==>
      |d.pending| + FirstNewline(op.buf) + 2 <= ENTRY_LIMIT
  }

  // Too much is pending for any command to be finished.
  predicate Stuffed(d: Dev) {
    |d.pending| > ENTRY_LIMIT - 2
  }

  lemma StuffedStep(d: Dev, op: Op)
    requires Typed(op) && Allocatable(d, op) && Stuffed(d)
    ensures Stuffed(Apply(d, op).0) && Apply(d, op).0.log == d.log
    ensures |d.pending| == ENTRY_LIMIT && op.Write? && op.buf != [] && !op.faults.interruptWe ==>
              Apply(d, op) == (d, Reply(ENoMem, [], op.wpos))
  {
    hide ApplyRead, PassesChecks, FlatPosition, Signed64;
  }

  // Once all but one byte of the working entry are taken no command is ever
  // committed again, whatever is called: nothing empties the entry.
  lemma {:induction false} FullEntryForever(ops: seq<Op>, k: nat)
    requires TypedRun(ops) && k <= |ops| && Stuffed(Replay(ops[..k]))
    requires forall i :: k <= i < |ops| ==> Allocatable(Replay(ops[..i]), ops[i])
    ensures Stuffed(Replay(ops)) && Replay(ops).log == Replay(ops[..k]).log
  {
    hide Apply, Allocatable, Stuffed;
    if k == |ops| {
      assert ops[..k] == ops;
    } else {
      var n := |ops| - 1;
      var prev := ops[..n];
      assert forall i :: 0 <= i <= n ==> prev[..i] == ops[..i];
      FullEntryForever(prev, k);
      StuffedStep(Replay(prev), ops[n]);
    }
  }

  // And only then: with more room the next newline commits.
  lemma FullEntryExact(d: Dev)
    requires WellFormed(d)
    ensures Stuffed(d) <==>
            forall op :: Typed(op) && Allocatable(d, op) ==> Apply(d, op).0.log == d.log
  {
    hide ApplyRead, PassesChecks, FlatPosition, Signed64;
    if Stuffed(d) {
      forall op | Typed(op) && Allocatable(d, op)
        ensures Apply(d, op).0.log == d.log
      {
        StuffedStep(d, op);
      }
    } else {
      var op := Write([NEWLINE], 0, NO_FAULTS);
      assert FirstNewline([NEWLINE]) == 0;
      assert Typed(op) && Allocatable(d, op);
      assert |Apply(d, op).0.log| == |d.log| + 1;
    }
  }

  // The write that does it: one that fills the entry exactly, with its newline
  // at the very end.
  lemma LargestCommand(d: Dev, c: Command)
    requires Framed(c) && |d.pending| + |c| == ENTRY_LIMIT
    ensures var op := Write(c, 0, WriteFaults(false, 0, true, false));
            && Typed(op) && Allocatable(d, op) && !Allocatable(d, op.(faults := NO_FAULTS))
            && Apply(d, op).1.ret == ENoMem && Stuffed(Apply(d, op).0)
  {
    hide FirstNewline, Signed64;
    FirstNewlineUnique(c, |c| - 1);
  }

  // ---- fragmentation ----

  function WriteAll(d: Dev, bufs: seq<seq<byte>>): Dev
    decreases bufs
  {
    if bufs == [] then d else WriteAll(ApplyWrite(d, bufs[0], 0, NO_FAULTS).0, bufs[1..])
  }

  lemma SplitWrite(d: Dev, f: seq<byte>, g: seq<byte>)
    requires NoNewline(f) && Fits(d, f + g)
    ensures ApplyWrite(ApplyWrite(d, f, 0, NO_FAULTS).0, g, 0, NO_FAULTS).0
            == ApplyWrite(d, f + g, 0, NO_FAULTS).0
  {
    FirstNewlineUnique(f, |f|);
    var nl := FirstNewline(g);
    FirstNewlineUnique(f + g, |f| + nl);
    assert (d.pending + f) + g == d.pending + (f + g);
    if nl < |g| {
      assert (d.pending + f) + g[..nl + 1] == d.pending + (f + g)[..|f| + nl + 1];
    }
  }

  // Sending a command in any number of newline-free pieces before its last
  // piece is the same as sending it at once, whenever the whole fits.
  lemma {:induction false} FragmentationIndependent(d: Dev, pieces: seq<seq<byte>>, last: seq<byte>)
    requires forall i :: 0 <= i < |pieces| ==> NoNewline(pieces[i])
    requires Fits(d, Flatten(pieces) + last)
    ensures WriteAll(d, pieces + [last]) == WriteAll(d, [Flatten(pieces) + last])
    decreases pieces
  {
    if pieces == [] {
      assert pieces + [last] == [last] && Flatten(pieces) + last == last;
    } else {
      var head, tail := pieces[0], pieces[1..];
      var whole := Flatten(tail) + last;
      assert (pieces + [last])[1..] == tail + [last];
      Associative(head, Flatten(tail), last);
      FirstNewlineUnique(head, |head|);
      var e := ApplyWrite(d, head, 0, NO_FAULTS).0;
      FragmentationIndependent(e, tail, last);
      SplitWrite(d, head, whole);
      assert [whole][1..] == [] && [head + whole][1..] == [];
    }
  }

  // ---- reading ----

  // A successful read returns a contiguous slice of the ring's content, at the
  // position asked for plus the seek offset. It is empty only when nothing was
  // asked for or the position is past the end.
  lemma ReadIsSlice(d: Dev, fpos: int, count: nat)
    requires WellFormed(d)
    ensures var r, at := ApplyRead(d, fpos, count, false, false), Unsigned64(fpos + d.seek);
            var n := |r.data|;
            && r.ret == Count(n) && n <= count
            && (n == 0 <==> count == 0 || at >= |d.Content()|)
            && (at < |d.Content()| ==> at + n <= |d.Content()| && r.data == d.Content()[at..at + n])
  {
    hide Flatten, Locate, Sum, LastTen, Unsigned64, Signed64;
    ContentBound(d);
    var at := Unsigned64(fpos + d.seek);
    var hit := Locate(d.Sizes(), at);
    if hit.Some? {
      var h := hit.value;
      var c := d.Window()[h.entry];
      var n := if count > |c| - h.local then |c| - h.local else count;
      InsideReadsFlat(d.Window(), at, h, n);
      assert c[h.local..][..n] == c[h.local..h.local + n];
    }
  }

  // A read that returns less than it was asked for has reached the end of the
  // command it started in.
  lemma ShortReadEndsCommand(d: Dev, fpos: int, count: nat)
    requires WellFormed(d) && Unsigned64(fpos + d.seek) < Sum(d.Sizes())
    ensures var r, at := ApplyRead(d, fpos, count, false, false), Unsigned64(fpos + d.seek);
            var k := Locate(d.Sizes(), at).value.entry;
            && at + |r.data| <= Sum(d.Sizes()[..k + 1])
            && (|r.data| < count ==> at + |r.data| == Sum(d.Sizes()[..k + 1]))
  {
    SumTake(d.Sizes(), Locate(d.Sizes(), Unsigned64(fpos + d.seek)).value.entry);
  }

  // After a successful read inside the content the file position asks for the
  // byte after the slice if and only if no seek offset is in force. Positions
  // that reads behind a seek offset leave can be negative.
  lemma PlainReadContinues(d: Dev, fpos: int, count: nat)
    requires WellFormed(d) && 0 <= fpos + d.seek < |d.Content()|
    ensures var r := ApplyRead(d, fpos, count, false, false);
            Unsigned64(r.fpos + d.seek) == fpos + d.seek + |r.data| <==> d.seek == 0
  {
    ContentBound(d);
    ReadIsSlice(d, fpos, count);
    var r := ApplyRead(d, fpos, count, false, false);
    assert r.fpos == fpos + |r.data| - d.seek;
  }

  // A run in which it does not: "ab" and a newline are written, a seek to byte
  // 1 is accepted, and two plain reads of one byte both give 'b'.
  lemma PlainReadRepeats()
    ensures var ops := [Write([97, 98, NEWLINE], 0, NO_FAULTS), Seek(0, 1, 0, false)];
            && TypedRun(ops)
            && Apply(Replay(ops[..1]), ops[1]).1.ret == Count(0)
            && var first := ApplyRead(Replay(ops), 0, 1, false, false);
            && var second := ApplyRead(Replay(ops), first.fpos, 1, false, false);
            first.data == [98] && first.fpos == 0 && second == first
  {
    hide Apply, ApplyRead;
    var c: Command, seek := [97, 98, NEWLINE], Seek(0, 1, 0, false);
    var ops := [Write(c, 0, NO_FAULTS), seek];
    assert ops[..1] == WritesOf([c]) && ops == ops[..1] + [seek];
    WritesCommit([c]);
    ReplayStep(ops[..1], seek);
    SeekIntoOnly(c);
    ReadOnly(c);
  }

  lemma SeekIntoOnly(c: Command)
    requires |c| == 3
    ensures Apply(Dev([c], [], 0, false), Seek(0, 1, 0, false)) == (Dev([c], [], 1, false), Reply(Count(0), [], 0))
  {
    assert NewestAt(1, 0) == 0;
  }

  lemma ReadOnly(c: Command)
    requires |c| == 3
    ensures ApplyRead(Dev([c], [], 1, false), 0, 1, false, false) == Reply(Count(1), [c[1]], 0)
  {
    var ns := Lengths(LastTen([c]));
    assert ns == [3];
    assert ns[..0] == [];
    InsideUnique(ns, 1, Locate(ns, 1).value, Hit(0, 1));
    assert c[1..][..1] == [c[1]];
  }

  // ---- seeking ----

  // What a seek should accept: a live command and an offset inside it.
  predicate IsLivePosition(log: seq<Command>, cmd: nat, offset: nat) {
    cmd < |LastTen(log)| && offset < |LastTen(log)[cmd]|
  }

  // The size of the cmd-th oldest live command, 0 if there is none.
  function LiveSize(log: seq<Command>, cmd: nat): nat {
    if cmd < |LastTen(log)| then |LastTen(log)[cmd]| else 0
  }

  // The live command that a command number below ten is tested against: the
  // one in the slot with that number.
  function TestedCommand(log: seq<Command>, cmd: nat): (j: nat)
    requires cmd < 10
    ensures j < 10
  {
    (cmd + 10 - OldestSlot(|log|)) % 10
  }

  lemma TestedSize(log: seq<Command>, cmd: nat)
    requires cmd < 10
    ensures SlotSize(log, cmd) == LiveSize(log, TestedCommand(log, cmd))
  {
    var j := TestedCommand(log, cmd);
    if j < |log| {
      WindowSlot(|log|, j);
    }
  }

  // What the code accepts, call by call: the largest offset with any command
  // number below ten, and otherwise exactly the offsets inside the command
  // that happens to sit in the slot with that number. The largest command
  // number also passes, behind whatever size is found outside the array.
  lemma SeekAccepts(d: Dev, cmd: nat, offset: nat, outside: nat)
    requires WellFormed(d) && cmd < TWO_TO_32 && offset < TWO_TO_32
    ensures PassesChecks(d.log, cmd, offset, outside)
            <==> if cmd == TWO_TO_32 - 1 then Unsigned32(offset + 1) <= outside
                 else cmd < 10 && (offset == TWO_TO_32 - 1
                                   || IsLivePosition(d.log, TestedCommand(d.log, cmd), offset))
  {
    hide TestedCommand, SlotSize, LastTen;
    if cmd < 10 {
      TestedSize(d.log, cmd);
    }
  }

  // So on all arguments whose offset does not wrap the code accepts exactly
  // the live positions if and only if each live command is as long as the one
  // it is taken for.
  lemma SeekAcceptance(d: Dev)
    requires WellFormed(d)
    ensures (forall cmd: nat, offset: nat, outside: nat | cmd < TWO_TO_32 - 1 && offset < TWO_TO_32 - 1 ::
               PassesChecks(d.log, cmd, offset, outside) <==> IsLivePosition(d.log, cmd, offset))
            <==> (forall k: nat | k < 10 :: LiveSize(d.log, k) == LiveSize(d.log, TestedCommand(d.log, k)))
  {
    hide TestedCommand, PassesChecks, LastTen;
    forall cmd: nat, offset: nat, outside: nat | cmd < TWO_TO_32 - 1 && offset < TWO_TO_32 - 1
      ensures PassesChecks(d.log, cmd, offset, outside)
              <==> cmd < 10 && IsLivePosition(d.log, TestedCommand(d.log, cmd), offset)
    {
      SeekAccepts(d, cmd, offset, outside);
    }
    if k: nat :| k < 10 && LiveSize(d.log, k) != LiveSize(d.log, TestedCommand(d.log, k)) {
      SizesBound(d, k);
      SizesBound(d, TestedCommand(d.log, k));
      var a, b := LiveSize(d.log, k), LiveSize(d.log, TestedCommand(d.log, k));
      var offset := if a < b then a else b;
      assert PassesChecks(d.log, k, offset, 0) != IsLivePosition(d.log, k, offset);
    }
  }

  lemma SizesBound(d: Dev, k: nat)
    requires WellFormed(d)
    ensures LiveSize(d.log, k) <= ENTRY_LIMIT
  {
  }

  // In particular the code is right until the ring has wrapped, and whenever
  // the oldest entry is back in slot 0.
  lemma SeekRightBeforeWrap(d: Dev, cmd: nat, offset: nat, outside: nat)
    requires WellFormed(d) && OldestSlot(|d.log|) == 0
    requires cmd < TWO_TO_32 - 1 && offset < TWO_TO_32 - 1
    ensures PassesChecks(d.log, cmd, offset, outside) <==> IsLivePosition(d.log, cmd, offset)
  {
    SeekAccepts(d, cmd, offset, outside);
  }

  // The largest offset wraps to 0 in the first test: it is accepted for every
  // command number below ten, and it is never inside a command.
  lemma SeekWrap(d: Dev, cmd: nat, outside: nat)
    requires WellFormed(d) && cmd < 10
    ensures PassesChecks(d.log, cmd, TWO_TO_32 - 1, outside)
    ensures !IsLivePosition(d.log, cmd, TWO_TO_32 - 1)
  {
    SeekAccepts(d, cmd, TWO_TO_32 - 1, outside);
    SizesBound(d, cmd);
  }

  // A run after which a position outside the oldest command is accepted: ten
  // commands of one byte, then one of three, which takes slot 0.
  lemma SeekWrongSlot()
    ensures var cs := seq(10, _ => [NEWLINE]) + [[97, 98, NEWLINE]];
            && TypedRun(WritesOf(cs)) && Replay(WritesOf(cs)).log == cs
            && PassesChecks(cs, 0, 2, 0) && !IsLivePosition(cs, 0, 2)
  {
    var cs: seq<Command> := seq(10, _ => [NEWLINE]) + [[97, 98, NEWLINE]];
    WritesCommit(cs);
    var d := Dev(cs, [], 0, false);
    assert WellFormed(d);
    assert TestedCommand(cs, 0) == 9 && LastTen(cs)[9] == cs[10];
    SeekAccepts(d, 0, 2, 0);
  }

  // A seek to a live position followed by a read at 0 serves the bytes of that
  // command from that offset on.
  lemma SeekThenRead(d: Dev, cmd: nat, offset: nat, outside: nat, count: nat)
    requires WellFormed(d) && IsLivePosition(d.log, cmd, offset)
    requires PassesChecks(d.log, cmd, offset, outside)
    ensures var e := ApplySeek(d, cmd, offset, outside, false).0;
            var rest := d.Window()[cmd][offset..];
            ApplyRead(e, 0, count, false, false).data == rest[..if count > |rest| then |rest| else count]
  {
    ContentBound(d);
    SeekLookupInverse(d.Sizes());
    var p := FlatPosition(d.Sizes(), cmd, offset);
    assert Locate(d.Sizes(), p) == Some(Hit(cmd, offset));
  }
}
