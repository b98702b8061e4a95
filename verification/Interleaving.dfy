// Any number of threads calling the device, one atomic step at a time, with the
// two mutexes of main.c. A commit takes three steps under cb_mutex (ring, size,
// unlock), so a half-finished one is a state of the system.
//
// Each operation is recorded in `done` at the step where it takes effect.
module Interleaving {
  import opened Words
  import opened CommandLog
  import opened Lookup
  import opened DeviceModel

  // Abandoned: the owner returned to its caller without unlocking.
  datatype Lock = Free | Held(t: nat) | Abandoned(t: nat)

  datatype Done = Done(t: nat, op: Op, reply: Reply)

  // A delivered result. `since` and `until` are the lengths of `done` when the
  // call was made and when it returned; `at` is where it was recorded.
  datatype Delivery = Delivery(d: Done, since: nat, at: nat, until: nat)

  // Where a thread is. `since` is the length of `done` at the call; `base` is
  // the fill index before this write's bytes.
  datatype Pc =
    | Idle
    // aesd_write
    | WantWe(op: Op, since: nat)
    | Staging(op: Op, since: nat)
    | Scanning(op: Op, since: nat, base: nat)
    | WantCb(op: Op, since: nat, base: nat)
    | Adding(op: Op, since: nat, base: nat)
    | Sizing(op: Op, since: nat, at: nat, reply: Reply, size: nat, oldSize: nat)
    | Unlocking(op: Op, since: nat, at: nat, reply: Reply)
    | Resetting(op: Op, since: nat, at: nat, reply: Reply)
    | LeavingWe(op: Op, since: nat, at: nat, reply: Reply)
    // aesd_read
    | WantRead(op: Op, since: nat)
    | Finding(op: Op, since: nat)
    | Copying(op: Op, since: nat, hit: Hit)
    // aesd_adjust_file_offset
    | WantSeek(op: Op, since: nat)
    | Checking(op: Op, since: nat)
    | Summing(op: Op, since: nat)
    // the index of its loop never reaches the command number
    | Spinning(op: Op, since: nat)
    // both
    | LeavingCb(op: Op, since: nat, at: nat, reply: Reply)

  datatype Sys = Sys(pcs: seq<Pc>, log: seq<Command>, cbSize: int, pending: seq<byte>, seek: nat,
                     we: Lock, cb: Lock, done: seq<Done>, delivered: seq<Delivery>)

  function Total(log: seq<Command>): nat { Sum(Lengths(LastTen(log))) }

  // The size of the entry the next commit displaces.
  function NextOldSize(log: seq<Command>): nat {
    if |log| < 10 then 0 else |log[|log| - 10]|
  }

  predicate HoldsWe(pc: Pc) {
    pc.Staging? || pc.Scanning? || pc.WantCb? || pc.Adding? || pc.Sizing? || pc.Unlocking?
    || pc.Resetting? || pc.LeavingWe?
  }

  // The thread is inside aesd_write.
  predicate InWrite(pc: Pc) {
    pc.WantWe? || HoldsWe(pc)
  }

  predicate HoldsCb(pc: Pc) {
    pc.Adding? || pc.Sizing? || pc.Unlocking? || pc.Finding? || pc.Copying? || pc.Checking?
    || pc.Summing? || pc.Spinning? || pc.LeavingCb?
  }

  // The operation has taken effect and is recorded; its result is known.
  predicate Effective(pc: Pc) {
    pc.Sizing? || pc.Unlocking? || pc.Resetting? || pc.LeavingWe? || pc.LeavingCb?
  }

  // ---- steps ----

  function Goto(s: Sys, t: nat, pc: Pc): Sys
    requires t < |s.pcs|
  {
    s.(pcs := s.pcs[t := pc])
  }

  function Record(s: Sys, t: nat, op: Op, reply: Reply): Sys {
    s.(done := s.done + [Done(t, op, reply)])
  }

  function Deliver(s: Sys, t: nat, op: Op, since: nat, at: nat, reply: Reply): Sys
    requires t < |s.pcs|
  {
    Goto(s, t, Idle).(delivered := s.delivered + [Delivery(Done(t, op, reply), since, at, |s.done|)])
  }

  // Interrupted before getting the first mutex: takes effect and returns.
  function GiveUp(s: Sys, t: nat, op: Op, since: nat, fpos: int): Sys
    requires t < |s.pcs|
  {
    var r := Reply(ERestartSys, [], fpos);
    Deliver(Record(s, t, op, r), t, op, since, |s.done|, r)
  }

  predicate Enabled(s: Sys, t: nat) {
    t < |s.pcs| && match s.pcs[t]
      case Idle => false
      case WantWe(op, _) => op.Write? && (op.faults.interruptWe || s.we.Free?)
      case WantCb(op, _, _) => op.Write? && (op.faults.interruptCb || s.cb.Free?)
      case WantRead(op, _) => op.Read? && (op.rInterrupt || s.cb.Free?)
      case WantSeek(op, _) => op.Seek? && (op.sInterrupt || s.cb.Free?)
      case _ => true
  }

  function StepStaging(s: Sys, t: nat, op: Op, since: nat): Sys
    requires t < |s.pcs| && op.Write? && Typed(op)
  {
    var Write(buf, fpos, f) := op;
    if |s.pending| + |buf| > ENTRY_LIMIT then
      var r := Reply(ENoMem, [], fpos);
      Goto(Record(s, t, op, r), t, LeavingWe(op, since, |s.done|, r))
    else if f.uncopied > 0 then
      var copied := |buf| - f.uncopied;
      var r := Reply(EFault, [], Signed64(fpos + copied));
      Goto(Record(s.(pending := s.pending + buf[..copied]), t, op, r), t, LeavingWe(op, since, |s.done|, r))
    else
      Goto(s.(pending := s.pending + buf), t, Scanning(op, since, |s.pending|))
  }

  function StepScanning(s: Sys, t: nat, op: Op, since: nat, base: nat): Sys
    requires t < |s.pcs| && op.Write?
  {
    var end := Signed64(op.wpos + |op.buf|);
    if FirstNewline(op.buf) == |op.buf| then
      var r := Reply(Count(|op.buf|), [], end);
      Goto(Record(s, t, op, r), t, LeavingWe(op, since, |s.done|, r))
    else if op.faults.allocFails then
      var r := Reply(ENoMem, [], end);
      Goto(Record(s, t, op, r), t, LeavingWe(op, since, |s.done|, r))
    else
      Goto(s, t, WantCb(op, since, base))
  }

  function StepWantCb(s: Sys, t: nat, op: Op, since: nat, base: nat): Sys
    requires t < |s.pcs| && op.Write?
  {
    if op.faults.interruptCb then
      var r := Reply(ERestartSys, [], Signed64(op.wpos + |op.buf|));
      Goto(Record(s, t, op, r), t, LeavingWe(op, since, |s.done|, r))
    else
      Goto(s.(cb := Held(t)), t, Adding(op, since, base))
  }

  // The ring changes: the write takes effect.
  function StepAdding(s: Sys, t: nat, op: Op, since: nat, base: nat): Sys
    requires t < |s.pcs| && op.Write? && base + FirstNewline(op.buf) < |s.pending|
  {
    var c := s.pending[..base + FirstNewline(op.buf) + 1];
    var r := Reply(Count(|op.buf|), [], Signed64(op.wpos + |op.buf|));
    Goto(Record(s.(log := s.log + [c]), t, op, r), t, Sizing(op, since, |s.done|, r, |c|, NextOldSize(s.log)))
  }

  function StepFinding(s: Sys, t: nat, op: Op, since: nat): Sys
    requires t < |s.pcs| && op.Read?
  {
    var hit := Locate(Lengths(LastTen(s.log)), Unsigned64(op.rpos + s.seek));
    if hit.Some? then Goto(s, t, Copying(op, since, hit.value))
    else
      var r := Reply(Count(0), [], op.rpos);
      Goto(Record(s, t, op, r), t, LeavingCb(op, since, |s.done|, r))
  }

  function StepCopying(s: Sys, t: nat, op: Op, since: nat, hit: Hit): Sys
    requires t < |s.pcs| && op.Read?
    requires hit.entry < |LastTen(s.log)| && hit.local <= |LastTen(s.log)[hit.entry]|
  {
    var c := LastTen(s.log)[hit.entry][hit.local..];
    var n := if op.count > |c| then |c| else op.count;
    var r := if op.copyFails then Reply(EFault, [], op.rpos)
             else Reply(Count(n), c[..n], Signed64(op.rpos + n - s.seek));
    Goto(Record(s, t, op, r), t, LeavingCb(op, since, |s.done|, r))
  }

  // A rejected seek takes effect and returns with the mutex still locked; one
  // that passes the tests with the largest command number counts for ever.
  function StepChecking(s: Sys, t: nat, op: Op, since: nat): Sys
    requires t < |s.pcs| && op.Seek?
  {
    if PassesChecks(s.log, op.cmd, op.offset, op.outside) then
      Goto(s, t, if SeekTerminates(op.cmd, op.offset, op.outside) then Summing(op, since) else Spinning(op, since))
    else
      var r := Reply(EInval, [], 0);
      Deliver(Record(s.(cb := Abandoned(t)), t, op, r), t, op, since, |s.done|, r)
  }

  function StepSumming(s: Sys, t: nat, op: Op, since: nat): Sys
    requires t < |s.pcs| && op.Seek?
  {
    var r := Reply(Count(0), [], 0);
    Goto(Record(s.(seek := FlatPosition(Lengths(LastTen(s.log)), op.cmd, op.offset)), t, op, r), t,
         LeavingCb(op, since, |s.done|, r))
  }

  // What a thread's place says about its operation and the state.
  predicate PcOk(s: Sys, t: nat, pc: Pc) {
    && (!pc.Idle? ==> Typed(pc.op) && pc.since <= |s.done|)
    && (pc.WantWe? || HoldsWe(pc) ==> pc.op.Write?)
    && (HoldsWe(pc) ==> !pc.op.faults.interruptWe)
    && (pc.Scanning? || pc.WantCb? || pc.Adding? ==>
          && pc.op.faults.uncopied == 0 && |s.pending| <= ENTRY_LIMIT
          && |s.pending| == pc.base + |pc.op.buf| && s.pending == s.pending[..pc.base] + pc.op.buf)
    && (pc.WantCb? || pc.Adding? ==> FirstNewline(pc.op.buf) < |pc.op.buf| && !pc.op.faults.allocFails)
    && (pc.Adding? ==> !pc.op.faults.interruptCb)
    && (pc.WantRead? || pc.Finding? || pc.Copying? ==> pc.op.Read?)
    && (pc.Finding? || pc.Copying? ==> !pc.op.rInterrupt)
    && (pc.Copying? ==>
          Locate(Lengths(LastTen(s.log)), Unsigned64(pc.op.rpos + s.seek)) == Some(pc.hit))
    && (pc.WantSeek? || pc.Checking? || pc.Summing? || pc.Spinning? ==> pc.op.Seek?)
    && (pc.Checking? || pc.Summing? || pc.Spinning? ==> !pc.op.sInterrupt)
    && (pc.Summing? || pc.Spinning? ==>
          && PassesChecks(s.log, pc.op.cmd, pc.op.offset, pc.op.outside)
          && (pc.Summing? <==> SeekTerminates(pc.op.cmd, pc.op.offset, pc.op.outside)))
    && (Effective(pc) ==> pc.since <= pc.at < |s.done| && s.done[pc.at] == Done(t, pc.op, pc.reply))
  }

  function Step(s: Sys, t: nat): Sys
    requires Enabled(s, t) && PcOk(s, t, s.pcs[t])
  {
    match s.pcs[t]
    case WantWe(op, since) =>
      if op.faults.interruptWe then GiveUp(s, t, op, since, op.wpos)
      else Goto(s.(we := Held(t)), t, Staging(op, since))
    case Staging(op, since) => StepStaging(s, t, op, since)
    case Scanning(op, since, base) => StepScanning(s, t, op, since, base)
    case WantCb(op, since, base) => StepWantCb(s, t, op, since, base)
    case Adding(op, since, base) => StepAdding(s, t, op, since, base)
    case Sizing(op, since, at, reply, size, oldSize) =>
      Goto(s.(cbSize := s.cbSize + size - oldSize), t, Unlocking(op, since, at, reply))
    case Unlocking(op, since, at, reply) => Goto(s.(cb := Free), t, Resetting(op, since, at, reply))
    case Resetting(op, since, at, reply) => Goto(s.(pending := []), t, LeavingWe(op, since, at, reply))
    case LeavingWe(op, since, at, reply) => Deliver(s.(we := Free), t, op, since, at, reply)
    case WantRead(op, since) =>
      if op.rInterrupt then GiveUp(s, t, op, since, op.rpos)
      else Goto(s.(cb := Held(t)), t, Finding(op, since))
    case Finding(op, since) => StepFinding(s, t, op, since)
    case Copying(op, since, hit) => StepCopying(s, t, op, since, hit)
    case WantSeek(op, since) =>
      if op.sInterrupt then GiveUp(s, t, op, since, 0)
      else Goto(s.(cb := Held(t)), t, Checking(op, since))
    case Checking(op, since) => StepChecking(s, t, op, since)
    case Summing(op, since) => StepSumming(s, t, op, since)
    case Spinning(_, _) => s
    case LeavingCb(op, since, at, reply) => Deliver(s.(cb := Free), t, op, since, at, reply)
  }

  // ---- runs ----

  datatype Event = Call(t: nat, op: Op) | Go(t: nat)

  function Begin(s: Sys, t: nat, op: Op): Sys
    requires t < |s.pcs|
  {
    Goto(s, t, match op
               case Write(_, _, _) => WantWe(op, |s.done|)
               case Read(_, _, _, _) => WantRead(op, |s.done|)
               case Seek(_, _, _, _) => WantSeek(op, |s.done|))
  }

  predicate Happens(s: Sys, e: Event) {
    match e
    case Call(t, op) => t < |s.pcs| && s.pcs[t].Idle? && Typed(op)
    case Go(t) => Enabled(s, t)
  }

  function Fire(s: Sys, e: Event): Sys
    requires Happens(s, e) && PcsOk(s)
  {
    match e
    case Call(t, op) => Begin(s, t, op)
    case Go(t) => Step(s, t)
  }

  function Start(n: nat): Sys {
    Sys(seq(n, _ => Idle), [], 0, [], 0, Free, Free, [], [])
  }

  predicate PcsOk(s: Sys) {
    forall t: nat | t < |s.pcs| :: PcOk(s, t, s.pcs[t])
  }

  // A run of n threads: every state follows from the one before by an event.
  ghost predicate IsRun(n: nat, run: seq<Sys>) {
    && |run| > 0 && run[0] == Start(n)
    && forall i :: 0 <= i < |run| - 1 ==> Follows(run[i], run[i + 1])
  }

  // PcsOk is what makes Fire well defined; RunInv shows that it holds in every
  // state a run can reach, so asking for it here rules nothing out.
  ghost predicate Follows(s: Sys, s': Sys) {
    exists e :: Happens(s, e) && PcsOk(s) && s' == Fire(s, e)
  }

  // ---- the invariant ----

  predicate LocksOk(s: Sys) {
    && (forall t: nat | t < |s.pcs| ::
          (HoldsWe(s.pcs[t]) <==> s.we == Held(t)) && (HoldsCb(s.pcs[t]) <==> s.cb == Held(t)))
    && !s.we.Abandoned?
    && (s.we.Held? ==> s.we.t < |s.pcs|) && (s.cb.Held? ==> s.cb.t < |s.pcs|)
  }

  predicate Committing(s: Sys) {
    s.cb.Held? && s.cb.t < |s.pcs| && s.pcs[s.cb.t].Sizing?
  }

  // The running size is the sum of the live sizes, except between the two
  // halves of a commit.
  predicate SizeOk(s: Sys) {
    Total(s.log) == s.cbSize + (if Committing(s) then s.pcs[s.cb.t].size - s.pcs[s.cb.t].oldSize else 0)
  }

  // The unfinished line as callers see it: without the bytes of a write that
  // has not taken effect, and empty once its commit has.
  function VisiblePending(s: Sys): seq<byte> {
    if s.we.Held? && s.we.t < |s.pcs| then
      match s.pcs[s.we.t]
      case Scanning(_, _, base) => if base <= |s.pending| then s.pending[..base] else []
      case WantCb(_, _, base) => if base <= |s.pending| then s.pending[..base] else []
      case Adding(_, _, base) => if base <= |s.pending| then s.pending[..base] else []
      case Sizing(_, _, _, _, _, _) => []
      case Unlocking(_, _, _, _) => []
      case Resetting(_, _, _, _) => []
      case _ => s.pending
    else s.pending
  }

  function Visible(s: Sys): Dev {
    Dev(s.log, VisiblePending(s), s.seek, s.cb.Abandoned?)
  }

  // The device after executing the recorded operations one after the other, if
  // each of them could be called, returned, and gave the recorded reply.
  function Serial(done: seq<Done>): Option<Dev> {
    if done == [] then Some(INITIAL)
    else
      var before, last := Serial(done[..|done| - 1]), done[|done| - 1];
      if before.Some? && Typed(last.op) && Returns(before.value, last.op)
         && Apply(before.value, last.op).1 == last.reply
      then Some(Apply(before.value, last.op).0) else None
  }

  predicate Atomic(s: Sys) {
    Serial(s.done) == Some(Visible(s))
  }

  // The results recorded for thread t, and those delivered to it, in order.
  function RecordedFor(done: seq<Done>, t: nat): seq<Done> {
    if done == [] then []
    else
      var last := done[|done| - 1];
      RecordedFor(done[..|done| - 1], t) + (if last.t == t then [last] else [])
  }

  function DeliveredTo(delivered: seq<Delivery>, t: nat): seq<Done> {
    if delivered == [] then []
    else
      var last := delivered[|delivered| - 1].d;
      DeliveredTo(delivered[..|delivered| - 1], t) + (if last.t == t then [last] else [])
  }

  // A result recorded but not yet delivered.
  function Due(pc: Pc, t: nat): seq<Done> {
    if Effective(pc) then [Done(t, pc.op, pc.reply)] else []
  }

  // Every operation is recorded exactly once, and its caller gets that result.
  predicate OnceEach(s: Sys) {
    forall t: nat | t < |s.pcs| ::
      RecordedFor(s.done, t) == DeliveredTo(s.delivered, t) + Due(s.pcs[t], t)
  }

  // An operation is recorded after it was called and before it returned.
  predicate Timely(s: Sys) {
    forall k :: 0 <= k < |s.delivered| ==>
                  var x := s.delivered[k];
                  x.since <= x.at < x.until <= |s.done| && s.done[x.at] == x.d
  }

  predicate Inv(s: Sys) {
    LocksOk(s) && PcsOk(s) && SizeOk(s) && Atomic(s) && OnceEach(s) && Timely(s)
  }

  // ---- the invariant is kept ----

  // What a step leaves alone.
  lemma StepFrame(s: Sys, t: nat)
    requires Enabled(s, t) && PcOk(s, t, s.pcs[t])
    ensures var s' := Step(s, t);
            && |s'.pcs| == |s.pcs| && (forall u: nat | u < |s.pcs| && u != t :: s'.pcs[u] == s.pcs[u])
            && s.done <= s'.done
            && (s'.pending != s.pending ==> HoldsWe(s.pcs[t]))
            && (s'.log != s.log || s'.seek != s.seek || s'.cbSize != s.cbSize ==> HoldsCb(s.pcs[t]))
            && (s'.we != s.we ==> s.we.Free? || HoldsWe(s.pcs[t]))
            && (s'.cb != s.cb ==> s.cb.Free? || HoldsCb(s.pcs[t]))
  {
    hide PcOk, FirstNewline, Locate, LastTen, PassesChecks, Lengths, FlatPosition, Signed64, Unsigned64;
    match s.pcs[t] {
      case WantWe(_, _) =>
      case Staging(_, _) =>
      case Scanning(_, _, _) =>
      case WantCb(_, _, _) =>
      case Adding(_, _, _) =>
      case Sizing(_, _, _, _, _, _) =>
      case Unlocking(_, _, _, _) =>
      case Resetting(_, _, _, _) =>
      case LeavingWe(_, _, _, _) =>
      case WantRead(_, _) =>
      case Finding(_, _) =>
      case Copying(_, _, _) =>
      case WantSeek(_, _) =>
      case Checking(_, _) =>
      case Summing(_, _) =>
      case Spinning(_, _) =>
      case LeavingCb(_, _, _, _) =>
    }
  }

  // A step moves its own thread and its own locks together.
  lemma StepOwnLocks(s: Sys, t: nat)
    requires Enabled(s, t) && PcOk(s, t, s.pcs[t]) && !s.we.Abandoned?
    requires (HoldsWe(s.pcs[t]) <==> s.we == Held(t)) && (HoldsCb(s.pcs[t]) <==> s.cb == Held(t))
    ensures var s' := Step(s, t);
            && t < |s'.pcs|
            && (HoldsWe(s'.pcs[t]) <==> s'.we == Held(t)) && (HoldsCb(s'.pcs[t]) <==> s'.cb == Held(t))
            && (s'.we == s.we || s'.we == Free || s'.we == Held(t))
            && (s'.cb == s.cb || s'.cb == Free || s'.cb == Held(t) || s'.cb == Abandoned(t))
  {
    hide PcOk, Step, InWrite, HoldsWe, HoldsCb;
    if InWrite(s.pcs[t]) {
      WriteOwnLocks(s, t);
    } else {
      RingOwnLocks(s, t);
    }
  }

  lemma WriteOwnLocks(s: Sys, t: nat)
    requires Enabled(s, t) && PcOk(s, t, s.pcs[t]) && !s.we.Abandoned?
    requires (HoldsWe(s.pcs[t]) <==> s.we == Held(t)) && (HoldsCb(s.pcs[t]) <==> s.cb == Held(t))
    requires InWrite(s.pcs[t])
    ensures var s' := Step(s, t);
            && t < |s'.pcs|
            && (HoldsWe(s'.pcs[t]) <==> s'.we == Held(t)) && (HoldsCb(s'.pcs[t]) <==> s'.cb == Held(t))
            && (s'.we == s.we || s'.we == Free || s'.we == Held(t))
            && (s'.cb == s.cb || s'.cb == Free || s'.cb == Held(t) || s'.cb == Abandoned(t))
  {
    hide PcOk, FirstNewline, Locate, LastTen, PassesChecks, Lengths, FlatPosition, Signed64, Unsigned64;
    match s.pcs[t] {
      case WantWe(_, _) =>
      case Staging(_, _) =>
      case Scanning(_, _, _) =>
      case WantCb(_, _, _) =>
      case Adding(_, _, _) =>
      case _ =>
    }
  }

  lemma RingOwnLocks(s: Sys, t: nat)
    requires Enabled(s, t) && PcOk(s, t, s.pcs[t]) && !s.we.Abandoned?
    requires (HoldsWe(s.pcs[t]) <==> s.we == Held(t)) && (HoldsCb(s.pcs[t]) <==> s.cb == Held(t))
    requires !InWrite(s.pcs[t])
    ensures var s' := Step(s, t);
            && t < |s'.pcs|
            && (HoldsWe(s'.pcs[t]) <==> s'.we == Held(t)) && (HoldsCb(s'.pcs[t]) <==> s'.cb == Held(t))
            && (s'.we == s.we || s'.we == Free || s'.we == Held(t))
            && (s'.cb == s.cb || s'.cb == Free || s'.cb == Held(t) || s'.cb == Abandoned(t))
  {
    hide PcOk, FirstNewline, Locate, LastTen, PassesChecks, Lengths, FlatPosition, Signed64, Unsigned64;
    match s.pcs[t] {
      case WantRead(_, _) =>
      case Finding(_, _) =>
      case Copying(_, _, _) =>
      case WantSeek(_, _) =>
      case Checking(_, _) =>
      case Summing(_, _) =>
      case _ =>
    }
  }

  lemma StepKeepsLocks(s: Sys, t: nat)
    requires LocksOk(s) && PcsOk(s) && Enabled(s, t)
    ensures LocksOk(Step(s, t))
  {
    hide Step, HoldsWe, HoldsCb, PcOk, PcsOk;
    HasOk(s, t);
    StepFrame(s, t);
    StepOwnLocks(s, t);
  }

  lemma PcFrame(s: Sys, s': Sys, t: nat, pc: Pc)
    requires PcOk(s, t, pc) && s.done <= s'.done
    requires HoldsWe(pc) ==> s'.pending == s.pending
    requires HoldsCb(pc) ==> s'.log == s.log && s'.seek == s.seek
    ensures PcOk(s', t, pc)
  {
    hide FirstNewline, Locate, LastTen, Lengths, SeekTerminates, PassesChecks, Unsigned64, Typed;
  }

  lemma StepKeepsOwnPc(s: Sys, t: nat)
    requires LocksOk(s) && PcsOk(s) && Enabled(s, t)
    ensures var s' := Step(s, t); t < |s'.pcs| && PcOk(s', t, s'.pcs[t])
  {
    hide PcOk, PcsOk, LocksOk, Step, Enabled;
    OwnOk(s, t);
    if s.pcs[t].WantWe? || s.pcs[t].Staging? {
      StagingKeepsOwnPc(s, t);
    } else if s.pcs[t].Scanning? || s.pcs[t].WantCb? {
      ScanningKeepsOwnPc(s, t);
    } else if InWrite(s.pcs[t]) {
      CommittingKeepsOwnPc(s, t);
    } else if InRead(s.pcs[t]) {
      ReadKeepsOwnPc(s, t);
    } else {
      SeekKeepsOwnPc(s, t);
    }
  }

  lemma OwnOk(s: Sys, t: nat)
    requires PcsOk(s) && Enabled(s, t)
    ensures t < |s.pcs| && PcOk(s, t, s.pcs[t])
  {
  }

  lemma HasOk(s: Sys, t: nat)
    requires PcsOk(s) && t < |s.pcs|
    ensures PcOk(s, t, s.pcs[t])
  {
  }

  lemma StagingKeepsOwnPc(s: Sys, t: nat)
    requires Enabled(s, t) && PcOk(s, t, s.pcs[t]) && (s.pcs[t].WantWe? || s.pcs[t].Staging?)
    ensures var s' := Step(s, t); t < |s'.pcs| && PcOk(s', t, s'.pcs[t])
  {
    hide FirstNewline, Locate, LastTen, Lengths, SeekTerminates, PassesChecks, Signed64, Unsigned64, FlatPosition;
  }

  lemma ScanningKeepsOwnPc(s: Sys, t: nat)
    requires Enabled(s, t) && PcOk(s, t, s.pcs[t]) && (s.pcs[t].Scanning? || s.pcs[t].WantCb?)
    ensures var s' := Step(s, t); t < |s'.pcs| && PcOk(s', t, s'.pcs[t])
  {
    hide FirstNewline, Locate, LastTen, Lengths, SeekTerminates, PassesChecks, Signed64, Unsigned64, FlatPosition;
  }

  lemma CommittingKeepsOwnPc(s: Sys, t: nat)
    requires Enabled(s, t) && PcOk(s, t, s.pcs[t]) && HoldsWe(s.pcs[t])
             && !s.pcs[t].Staging? && !s.pcs[t].Scanning? && !s.pcs[t].WantCb?
    ensures var s' := Step(s, t); t < |s'.pcs| && PcOk(s', t, s'.pcs[t])
  {
    hide FirstNewline, Locate, LastTen, Lengths, SeekTerminates, PassesChecks, Signed64, Unsigned64, FlatPosition;
    if s.pcs[t].Adding? {
      AddingInRange(s, t);
    }
  }

  predicate InRead(pc: Pc) {
    pc.WantRead? || pc.Finding? || pc.Copying?
  }

  lemma ReadKeepsOwnPc(s: Sys, t: nat)
    requires Enabled(s, t) && PcOk(s, t, s.pcs[t]) && InRead(s.pcs[t])
    ensures var s' := Step(s, t); t < |s'.pcs| && PcOk(s', t, s'.pcs[t])
  {
    hide FirstNewline, Locate, LastTen, Lengths, SeekTerminates, PassesChecks, Signed64, Unsigned64, FlatPosition;
  }

  lemma SeekKeepsOwnPc(s: Sys, t: nat)
    requires Enabled(s, t) && PcOk(s, t, s.pcs[t]) && !InWrite(s.pcs[t]) && !InRead(s.pcs[t])
    ensures var s' := Step(s, t); t < |s'.pcs| && PcOk(s', t, s'.pcs[t])
  {
    hide FirstNewline, Locate, LastTen, Lengths, SeekTerminates, PassesChecks, Signed64, Unsigned64, FlatPosition;
  }

  lemma StepKeepsPcs(s: Sys, t: nat)
    requires LocksOk(s) && PcsOk(s) && Enabled(s, t)
    ensures PcsOk(Step(s, t))
  {
    hide PcOk, Step;
    HasOk(s, t);
    StepFrame(s, t);
    StepKeepsOwnPc(s, t);
    var s' := Step(s, t);
    forall u: nat | u < |s'.pcs|
      ensures PcOk(s', u, s'.pcs[u])
    {
      if u != t {
        PcFrame(s, s', u, s.pcs[u]);
      }
    }
  }

  lemma StepKeepsSize(s: Sys, t: nat)
    requires LocksOk(s) && PcsOk(s) && SizeOk(s) && Enabled(s, t)
    ensures SizeOk(Step(s, t))
  {
    hide PcOk, FirstNewline, Locate, PassesChecks, Total;
    HasOk(s, t);
    StepFrame(s, t);
    StepKeepsLocks(s, t);
    if s.pcs[t].Adding? {
      var pc := s.pcs[t];
      AddingInRange(s, t);
      TotalAfter(s.log, s.pending[..pc.base + FirstNewline(pc.op.buf) + 1]);
    } else if s.pcs[t].Sizing? {
    } else {
      NoCommitStep(s, t);
    }
  }

  lemma AddingInRange(s: Sys, t: nat)
    requires t < |s.pcs| && PcOk(s, t, s.pcs[t]) && s.pcs[t].Adding?
    ensures s.pcs[t].base + FirstNewline(s.pcs[t].op.buf) < |s.pending|
  {
  }

  lemma TotalAfter(log: seq<Command>, c: Command)
    ensures Total(log + [c]) == Total(log) + |c| - NextOldSize(log)
  {
    TotalAfterCommit(log, c);
  }

  // A step that is not part of a commit leaves ring and size alone.
  lemma NoCommitStep(s: Sys, t: nat)
    requires Enabled(s, t) && PcOk(s, t, s.pcs[t]) && !s.pcs[t].Adding? && !s.pcs[t].Sizing?
    ensures var s' := Step(s, t);
            s'.log == s.log && s'.cbSize == s.cbSize && t < |s'.pcs| && !s'.pcs[t].Sizing?
  {
    hide PcOk, FirstNewline, Locate, LastTen, PassesChecks, Lengths, FlatPosition, Signed64, Unsigned64;
    match s.pcs[t] {
      case WantWe(_, _) =>
      case Staging(_, _) =>
      case Scanning(_, _, _) =>
      case WantCb(_, _, _) =>
      case Adding(_, _, _) =>
      case Sizing(_, _, _, _, _, _) =>
      case Unlocking(_, _, _, _) =>
      case Resetting(_, _, _, _) =>
      case LeavingWe(_, _, _, _) =>
      case WantRead(_, _) =>
      case Finding(_, _) =>
      case Copying(_, _, _) =>
      case WantSeek(_, _) =>
      case Checking(_, _) =>
      case Summing(_, _) =>
      case Spinning(_, _) =>
      case LeavingCb(_, _, _, _) =>
    }
  }

  // ---- atomicity ----

  lemma Recorded(done: seq<Done>, d: Dev, t: nat, op: Op, reply: Reply)
    requires Serial(done) == Some(d) && Typed(op) && Returns(d, op) && Apply(d, op).1 == reply
    ensures Serial(done + [Done(t, op, reply)]) == Some(Apply(d, op).0)
  {
    hide Apply, Returns, Typed;
    var after := done + [Done(t, op, reply)];
    assert after[..|after| - 1] == done && after[|after| - 1] == Done(t, op, reply);
  }

  // A thread that does not hold we_mutex does not change the visible line.
  lemma PendingFrame(s: Sys, t: nat)
    requires LocksOk(s) && PcsOk(s) && Enabled(s, t) && !InWrite(s.pcs[t])
    ensures VisiblePending(Step(s, t)) == VisiblePending(s)
  {
    hide PcOk, Step;
    HasOk(s, t);
    StepFrame(s, t);
    WeFrame(s, t);
  }

  lemma WeFrame(s: Sys, t: nat)
    requires Enabled(s, t) && PcOk(s, t, s.pcs[t]) && !InWrite(s.pcs[t])
    ensures Step(s, t).we == s.we
  {
    hide PcOk, FirstNewline, Locate, LastTen, PassesChecks, Lengths, FlatPosition, Signed64, Unsigned64;
  }

  // The capacity test and the copy.
  lemma StagingAtomic(s: Sys, t: nat)
    requires LocksOk(s) && PcsOk(s) && Atomic(s) && Enabled(s, t) && s.pcs[t].Staging?
    ensures Atomic(Step(s, t))
  {
    hide FirstNewline, Serial, LastTen, Lengths, Signed64, PcsOk;
    HasOk(s, t);
    var d, done, op := Visible(s), s.done, s.pcs[t].op;
    if |s.pending| + |op.buf| > ENTRY_LIMIT {
      Recorded(done, d, t, op, Reply(ENoMem, [], op.wpos));
    } else if op.faults.uncopied > 0 {
      var copied := |op.buf| - op.faults.uncopied;
      Recorded(done, d, t, op, Reply(EFault, [], Signed64(op.wpos + copied)));
    } else {
      assert (s.pending + op.buf)[..|s.pending|] == s.pending;
    }
  }

  // The step at which a commit takes effect.
  lemma AddingAtomic(s: Sys, t: nat)
    requires LocksOk(s) && PcsOk(s) && Atomic(s) && Enabled(s, t) && s.pcs[t].Adding?
    ensures Atomic(Step(s, t))
  {
    hide FirstNewline, Serial, LastTen, Lengths, Signed64, PcsOk;
    HasOk(s, t);
    var op, base := s.pcs[t].op, s.pcs[t].base;
    var nl := FirstNewline(op.buf);
    assert s.pending[..base + nl + 1] == s.pending[..base] + op.buf[..nl + 1];
    Recorded(s.done, Visible(s), t, op, Reply(Count(|op.buf|), [], Signed64(op.wpos + |op.buf|)));
  }

  // The steps of a write while it holds we_mutex, or gets it.
  lemma WriteStepAtomic(s: Sys, t: nat)
    requires LocksOk(s) && PcsOk(s) && Atomic(s) && Enabled(s, t)
    requires InWrite(s.pcs[t])
    ensures Atomic(Step(s, t))
  {
    hide PcOk, PcsOk, Step, Atomic, LocksOk;
    if s.pcs[t].Staging? {
      StagingAtomic(s, t);
    } else if s.pcs[t].Adding? {
      AddingAtomic(s, t);
    } else {
      OtherWriteStepAtomic(s, t);
    }
  }

  lemma OtherWriteStepAtomic(s: Sys, t: nat)
    requires LocksOk(s) && PcsOk(s) && Atomic(s) && Enabled(s, t)
    requires InWrite(s.pcs[t]) && !s.pcs[t].Staging? && !s.pcs[t].Adding?
    ensures Atomic(Step(s, t))
  {
    hide FirstNewline, Serial, LastTen, Lengths, Signed64, PcsOk;
    HasOk(s, t);
    var d, done := Visible(s), s.done;
    match s.pcs[t] {
      case WantWe(op, _) =>
        if op.faults.interruptWe {
          Recorded(done, d, t, op, Reply(ERestartSys, [], op.wpos));
        }
      case Scanning(op, _, base) =>
        var end := Signed64(op.wpos + |op.buf|);
        if FirstNewline(op.buf) == |op.buf| {
          Recorded(done, d, t, op, Reply(Count(|op.buf|), [], end));
        } else if op.faults.allocFails {
          Recorded(done, d, t, op, Reply(ENoMem, [], end));
        }
      case WantCb(op, _, base) =>
        if op.faults.interruptCb {
          Recorded(done, d, t, op, Reply(ERestartSys, [], Signed64(op.wpos + |op.buf|)));
        }
      case _ =>
    }
  }

  // The steps of a read or a seek.
  lemma RingStepAtomic(s: Sys, t: nat)
    requires LocksOk(s) && PcsOk(s) && Atomic(s) && Enabled(s, t)
    requires !InWrite(s.pcs[t])
    ensures Atomic(Step(s, t))
  {
    hide FirstNewline, Serial, VisiblePending, Signed64, Unsigned64, PassesChecks, PcsOk, LastTen, Locate;
    HasOk(s, t);
    PendingFrame(s, t);
    var d, done := Visible(s), s.done;
    match s.pcs[t] {
      case WantRead(op, _) =>
        if op.rInterrupt {
          Recorded(done, d, t, op, Reply(ERestartSys, [], op.rpos));
        }
      case Finding(op, _) =>
        if Locate(Lengths(LastTen(s.log)), Unsigned64(op.rpos + s.seek)).None? {
          Recorded(done, d, t, op, Reply(Count(0), [], op.rpos));
        }
      case Copying(op, _, hit) =>
        var c := LastTen(s.log)[hit.entry][hit.local..];
        var n := if op.count > |c| then |c| else op.count;
        var r := if op.copyFails then Reply(EFault, [], op.rpos)
                 else Reply(Count(n), c[..n], Signed64(op.rpos + n - s.seek));
        Recorded(done, d, t, op, r);
      case WantSeek(op, _) =>
        if op.sInterrupt {
          Recorded(done, d, t, op, Reply(ERestartSys, [], 0));
        }
      case Checking(op, _) =>
        if !PassesChecks(s.log, op.cmd, op.offset, op.outside) {
          SpinsExact(s.log, op.cmd, op.offset, op.outside);
          Recorded(done, d, t, op, Reply(EInval, [], 0));
        }
      case Summing(op, _) =>
        Recorded(done, d, t, op, Reply(Count(0), [], 0));
      case _ =>
    }
  }

  // ---- recording and delivery ----

  // What a step adds to the record and to the deliveries.
  datatype Shape = Quiet | Records(r: Done) | Delivers(d: Delivery) | Both(b: Delivery)

  function ShapeOf(s: Sys, t: nat): Shape
    requires Enabled(s, t) && PcOk(s, t, s.pcs[t])
  {
    var s' := Step(s, t);
    var nd, nr := |s'.done| > |s.done|, |s'.delivered| > |s.delivered|;
    if nd && nr then Both(s'.delivered[|s'.delivered| - 1])
    else if nd then Records(s'.done[|s'.done| - 1])
    else if nr then Delivers(s'.delivered[|s'.delivered| - 1])
    else Quiet
  }

  predicate ShapeOk(s: Sys, s': Sys, t: nat, shape: Shape)
    requires t < |s.pcs| && t < |s'.pcs|
  {
    var before, after := Due(s.pcs[t], t), Due(s'.pcs[t], t);
    match shape
    case Quiet => s'.done == s.done && s'.delivered == s.delivered && after == before
    case Records(r) =>
      && s'.done == s.done + [r] && s'.delivered == s.delivered && r.t == t
      && before == [] && after == [r]
    case Delivers(d) =>
      && s'.done == s.done && s'.delivered == s.delivered + [d] && d.d.t == t
      && before == [d.d] && after == []
      && d.since <= d.at < d.until == |s'.done| && s'.done[d.at] == d.d
    case Both(d) =>
      && s'.done == s.done + [d.d] && s'.delivered == s.delivered + [d] && d.d.t == t
      && before == [] && after == []
      && d.since <= d.at < d.until == |s'.done| && s'.done[d.at] == d.d
  }

  lemma StepShape(s: Sys, t: nat)
    requires Enabled(s, t) && PcOk(s, t, s.pcs[t])
    ensures t < |Step(s, t).pcs| && ShapeOk(s, Step(s, t), t, ShapeOf(s, t))
  {
    hide PcOk, Step, HoldsWe, ShapeOf, ShapeOk;
    if s.pcs[t].WantWe? || s.pcs[t].Staging? {
      StagingShape(s, t);
    } else if InWrite(s.pcs[t]) {
      CommittingShape(s, t);
    } else {
      RingShape(s, t);
    }
  }

  lemma StagingShape(s: Sys, t: nat)
    requires Enabled(s, t) && PcOk(s, t, s.pcs[t]) && (s.pcs[t].WantWe? || s.pcs[t].Staging?)
    ensures t < |Step(s, t).pcs| && ShapeOk(s, Step(s, t), t, ShapeOf(s, t))
  {
    hide FirstNewline, Locate, LastTen, PassesChecks, Lengths, FlatPosition, Signed64, Unsigned64;
  }

  lemma CommittingShape(s: Sys, t: nat)
    requires Enabled(s, t) && PcOk(s, t, s.pcs[t]) && HoldsWe(s.pcs[t]) && !s.pcs[t].Staging?
    ensures t < |Step(s, t).pcs| && ShapeOk(s, Step(s, t), t, ShapeOf(s, t))
  {
    hide FirstNewline, Locate, LastTen, PassesChecks, Lengths, FlatPosition, Signed64, Unsigned64;
    match s.pcs[t] {
      case Scanning(_, _, _) =>
      case WantCb(_, _, _) =>
      case Adding(_, _, _) =>
      case _ =>
    }
  }

  lemma RingShape(s: Sys, t: nat)
    requires Enabled(s, t) && PcOk(s, t, s.pcs[t]) && !InWrite(s.pcs[t])
    ensures t < |Step(s, t).pcs| && ShapeOk(s, Step(s, t), t, ShapeOf(s, t))
  {
    hide FirstNewline, Locate, LastTen, PassesChecks, Lengths, FlatPosition, Signed64, Unsigned64;
    match s.pcs[t] {
      case WantRead(_, _) =>
      case Finding(_, _) =>
      case Copying(_, _, _) =>
      case WantSeek(_, _) =>
      case Checking(_, _) =>
      case Summing(_, _) =>
      case _ =>
    }
  }

  lemma RecordedForStep(done: seq<Done>, r: Done, u: nat)
    ensures RecordedFor(done + [r], u) == RecordedFor(done, u) + (if r.t == u then [r] else [])
  {
    assert (done + [r])[..|done|] == done;
  }

  lemma DeliveredToStep(delivered: seq<Delivery>, d: Delivery, u: nat)
    ensures DeliveredTo(delivered + [d], u) == DeliveredTo(delivered, u) + (if d.d.t == u then [d.d] else [])
  {
    assert (delivered + [d])[..|delivered|] == delivered;
  }

  lemma StepKeepsOnce(s: Sys, t: nat)
    requires PcsOk(s) && OnceEach(s) && Enabled(s, t)
    ensures OnceEach(Step(s, t))
  {
    hide PcOk, Step, ShapeOf, Due, RecordedFor, DeliveredTo, PcsOk, Enabled;
    OwnOk(s, t);
    StepFrame(s, t);
    StepShape(s, t);
    var s' := Step(s, t);
    forall u: nat | u < |s'.pcs|
      ensures RecordedFor(s'.done, u) == DeliveredTo(s'.delivered, u) + Due(s'.pcs[u], u)
    {
      match ShapeOf(s, t) {
        case Quiet =>
        case Records(r) =>
          RecordedForStep(s.done, r, u);
          DueIsOwn(s'.pcs[u], u);
        case Delivers(d) =>
          DeliveredToStep(s.delivered, d, u);
        case Both(d) =>
          RecordedForStep(s.done, d.d, u);
          DeliveredToStep(s.delivered, d, u);
          if u != t {
            assert Due(s'.pcs[u], u) == Due(s.pcs[u], u);
          }
      }
    }
  }

  lemma DueIsOwn(pc: Pc, t: nat)
    ensures forall i :: 0 <= i < |Due(pc, t)| ==> Due(pc, t)[i].t == t
  {
  }

  lemma StepKeepsTimely(s: Sys, t: nat)
    requires PcsOk(s) && Timely(s) && Enabled(s, t)
    ensures Timely(Step(s, t))
  {
    hide PcOk, Step, ShapeOf, Due, PcsOk, Enabled;
    OwnOk(s, t);
    StepShape(s, t);
  }

  lemma FireKeepsInv(s: Sys, e: Event)
    requires Inv(s) && Happens(s, e)
    ensures Inv(Fire(s, e))
  {
    hide PcOk, Step, LocksOk, PcsOk, SizeOk, Atomic, OnceEach, Timely, Enabled, HoldsWe;
    match e {
      case Go(t) =>
        OwnOk(s, t);
        StepKeepsLocks(s, t);
        StepKeepsPcs(s, t);
        StepKeepsSize(s, t);
        if InWrite(s.pcs[t]) {
          WriteStepAtomic(s, t);
        } else {
          RingStepAtomic(s, t);
        }
        StepKeepsOnce(s, t);
        StepKeepsTimely(s, t);
      case Call(t, op) =>
        CallKeepsPcs(s, t, op);
        CallKeepsRest(s, t, op);
    }
  }

  lemma CallKeepsRest(s: Sys, t: nat, op: Op)
    requires Inv(s) && t < |s.pcs| && s.pcs[t].Idle?
    ensures var s' := Begin(s, t, op);
            LocksOk(s') && SizeOk(s') && Atomic(s') && OnceEach(s') && Timely(s')
  {
    hide PcOk, Serial, Total, RecordedFor, DeliveredTo;
  }

  lemma CallKeepsPcs(s: Sys, t: nat, op: Op)
    requires PcsOk(s) && t < |s.pcs| && s.pcs[t].Idle? && Typed(op)
    ensures PcsOk(Begin(s, t, op))
  {
    var s' := Begin(s, t, op);
    forall u: nat | u < |s'.pcs|
      ensures PcOk(s', u, s'.pcs[u])
    {
      if u != t {
        PcFrame(s, s', u, s.pcs[u]);
      }
    }
  }

  lemma StartInv(n: nat)
    ensures Inv(Start(n))
  {
  }

  // Every state of every run satisfies the invariant.
  lemma {:induction false} RunInv(n: nat, run: seq<Sys>, i: nat)
    requires IsRun(n, run) && i < |run|
    ensures Inv(run[i])
  {
    if i == 0 {
      StartInv(n);
    } else {
      RunInv(n, run, i - 1);
      assert Follows(run[i - 1], run[i - 1 + 1]);
      var e :| Happens(run[i - 1], e) && PcsOk(run[i - 1]) && run[i] == Fire(run[i - 1], e);
      FireKeepsInv(run[i - 1], e);
    }
  }

  // ---- what holds in every run ----

  // Atomicity: in every state of every run the recorded operations, executed
  // one after the other on the sequential device, give exactly the recorded
  // replies and the visible state; between operations that is the state itself.
  // Each operation is that of one of the threads, is recorded once, and its
  // caller gets the recorded result.
  lemma EveryRunAtomic(n: nat, run: seq<Sys>, i: nat)
    requires IsRun(n, run) && i < |run|
    ensures var s := run[i];
            && Serial(s.done) == Some(Visible(s))
            && |s.pcs| == n && (forall k :: 0 <= k < |s.done| ==> s.done[k].t < n)
            && (s.we.Free? ==> Visible(s) == Dev(s.log, s.pending, s.seek, s.cb.Abandoned?))
            && (forall t: nat | t < |s.pcs| ::
                  RecordedFor(s.done, t) == DeliveredTo(s.delivered, t) + Due(s.pcs[t], t))
  {
    hide Serial, PcOk, RecordedFor, DeliveredTo, IsRun, Step;
    RunInv(n, run, i);
    RunWidth(n, run, i);
    forall k | 0 <= k < |run[i].done|
      ensures run[i].done[k].t < n
    {
      var j := RecordedAt(n, run, i, k);
      RunWidth(n, run, j);
    }
  }

  lemma FireGrows(s: Sys, e: Event)
    requires Inv(s) && Happens(s, e)
    ensures s.done <= Fire(s, e).done && s.delivered <= Fire(s, e).delivered
  {
    hide PcOk, Step, Serial, ShapeOf;
    if e.Go? {
      StepShape(s, e.t);
    }
  }

  lemma {:induction false} RunGrows(n: nat, run: seq<Sys>, a: nat, b: nat)
    requires IsRun(n, run) && a <= b < |run|
    ensures run[a].done <= run[b].done && run[a].delivered <= run[b].delivered
    decreases b
  {
    hide Inv, Fire, Happens, PcsOk;
    if a < b {
      RunGrows(n, run, a, b - 1);
      RunInv(n, run, b - 1);
      assert Follows(run[b - 1], run[b - 1 + 1]);
      var e :| Happens(run[b - 1], e) && PcsOk(run[b - 1]) && run[b] == Fire(run[b - 1], e);
      FireGrows(run[b - 1], e);
    }
  }

  // ---- calls, records and results ----

  // How many steps a thread may still need to finish its call, or to end up
  // spinning.
  function Rank(pc: Pc): nat {
    match pc
    case Idle => 0
    case WantWe(_, _) => 9
    case Staging(_, _) => 8
    case Scanning(_, _, _) => 7
    case WantCb(_, _, _) => 6
    case Adding(_, _, _) => 5
    case Sizing(_, _, _, _, _, _) => 4
    case Unlocking(_, _, _, _) => 3
    case Resetting(_, _, _, _) => 2
    case LeavingWe(_, _, _, _) => 1
    case WantRead(_, _) => 4
    case Finding(_, _) => 3
    case Copying(_, _, _) => 2
    case WantSeek(_, _) => 4
    case Checking(_, _) => 3
    case Summing(_, _) => 2
    case Spinning(_, _) => 0
    case LeavingCb(_, _, _, _) => 1
  }

  // A step of a thread that does not spin brings its call closer to its end, and
  // keeps it, or ends it and delivers its result.
  ghost predicate CallKept(s: Sys, s': Sys, t: nat)
    requires t < |s.pcs| && t < |s'.pcs|
  {
    var pc, pc' := s.pcs[t], s'.pcs[t];
    && !pc.Idle? && (if pc.Spinning? then s' == s else Rank(pc') < Rank(pc))
    && if pc'.Idle? then
         && |s'.delivered| == |s.delivered| + 1
         && var x := s'.delivered[|s.delivered|];
         x.d.t == t && x.d.op == pc.op && x.since == pc.since
       else
         s'.delivered == s.delivered && pc'.op == pc.op && pc'.since == pc.since
  }

  lemma StepKeepsCall(s: Sys, t: nat)
    requires Enabled(s, t) && PcOk(s, t, s.pcs[t])
    ensures t < |Step(s, t).pcs| && CallKept(s, Step(s, t), t)
  {
    hide PcOk, Step, InWrite, CallKept;
    if InWrite(s.pcs[t]) {
      WriteStepKeepsCall(s, t);
    } else {
      RingStepKeepsCall(s, t);
    }
  }

  lemma WriteStepKeepsCall(s: Sys, t: nat)
    requires Enabled(s, t) && PcOk(s, t, s.pcs[t]) && InWrite(s.pcs[t])
    ensures t < |Step(s, t).pcs| && CallKept(s, Step(s, t), t)
  {
    hide PcOk, FirstNewline, Locate, LastTen, PassesChecks, Lengths, FlatPosition, Signed64, Unsigned64;
    match s.pcs[t] {
      case WantWe(_, _) =>
      case Staging(_, _) =>
      case Scanning(_, _, _) =>
      case WantCb(_, _, _) =>
      case Adding(_, _, _) =>
      case _ =>
    }
  }

  lemma RingStepKeepsCall(s: Sys, t: nat)
    requires Enabled(s, t) && PcOk(s, t, s.pcs[t]) && !InWrite(s.pcs[t])
    ensures t < |Step(s, t).pcs| && CallKept(s, Step(s, t), t)
  {
    hide PcOk, FirstNewline, Locate, LastTen, PassesChecks, Lengths, FlatPosition, Signed64, Unsigned64;
    match s.pcs[t] {
      case WantRead(_, _) =>
      case Finding(_, _) =>
      case Copying(_, _, _) =>
      case WantSeek(_, _) =>
      case Checking(_, _) =>
      case Summing(_, _) =>
      case _ =>
    }
  }

  // What an event means for thread t: a call begins, goes on, or ends with one
  // delivery, or nothing happens to it.
  ghost predicate EventOk(s: Sys, s': Sys, t: nat)
    requires t < |s.pcs| && t < |s'.pcs|
  {
    var pc, pc' := s.pcs[t], s'.pcs[t];
    if pc.Idle? && !pc'.Idle? then
      Typed(pc'.op) && s' == Begin(s, t, pc'.op) && pc'.since == |s.done|
    else if pc.Idle? then DeliveredTo(s'.delivered, t) == DeliveredTo(s.delivered, t)
    else if !pc'.Idle? then
      pc'.op == pc.op && pc'.since == pc.since && DeliveredTo(s'.delivered, t) == DeliveredTo(s.delivered, t)
    else
      && |s'.delivered| == |s.delivered| + 1
      && var x := s'.delivered[|s.delivered|];
      && x.d.t == t && x.d.op == pc.op && x.since == pc.since
      && DeliveredTo(s'.delivered, t) == DeliveredTo(s.delivered, t) + [x.d]
  }

  lemma FireEvent(s: Sys, e: Event, t: nat)
    requires PcsOk(s) && Happens(s, e) && t < |s.pcs|
    ensures t < |Fire(s, e).pcs| && EventOk(s, Fire(s, e), t)
  {
    hide PcOk, PcsOk, Step, ShapeOf, DeliveredTo, Enabled, Due, Typed;
    var s' := Fire(s, e);
    if e.Go? {
      OwnOk(s, e.t);
      StepFrame(s, e.t);
      StepShape(s, e.t);
      StepKeepsCall(s, e.t);
      if |s'.delivered| > |s.delivered| {
        var x := s'.delivered[|s.delivered|];
        assert s'.delivered == s.delivered + [x];
        DeliveredToStep(s.delivered, x, t);
      }
    }
  }

  // One step of a run, seen from thread t.
  lemma RunEvent(n: nat, run: seq<Sys>, i: nat, t: nat)
    requires IsRun(n, run) && i + 1 < |run| && t < n
    ensures |run[i].pcs| == |run[i + 1].pcs| == n && EventOk(run[i], run[i + 1], t)
  {
    hide Inv, Fire, Happens, EventOk, PcsOk;
    RunWidth(n, run, i);
    RunWidth(n, run, i + 1);
    assert Follows(run[i], run[i + 1]);
    var e :| Happens(run[i], e) && PcsOk(run[i]) && run[i + 1] == Fire(run[i], e);
    FireEvent(run[i], e, t);
  }

  lemma FireWidth(s: Sys, e: Event)
    requires PcsOk(s) && Happens(s, e)
    ensures |Fire(s, e).pcs| == |s.pcs|
  {
    hide PcOk, PcsOk, Step, Enabled;
    if e.Go? {
      OwnOk(s, e.t);
      StepFrame(s, e.t);
    }
  }

  lemma {:induction false} RunWidth(n: nat, run: seq<Sys>, i: nat)
    requires IsRun(n, run) && i < |run|
    ensures |run[i].pcs| == n
  {
    hide Inv, Fire, Happens, PcsOk;
    if i > 0 {
      RunWidth(n, run, i - 1);
      assert Follows(run[i - 1], run[i - 1 + 1]);
      var e :| Happens(run[i - 1], e) && PcsOk(run[i - 1]) && run[i] == Fire(run[i - 1], e);
      FireWidth(run[i - 1], e);
    }
  }

  // The operations thread t has called, in order: one for each state in which
  // it has just entered a call.
  function CallsOf(run: seq<Sys>, i: nat, t: nat): seq<Op>
    requires i < |run| && forall j :: 0 <= j < |run| ==> t < |run[j].pcs|
  {
    if i == 0 then []
    else
      CallsOf(run, i - 1, t)
      + (if run[i - 1].pcs[t].Idle? && !run[i].pcs[t].Idle? then [run[i].pcs[t].op] else [])
  }

  function Underway(pc: Pc): seq<Op> {
    if pc.Idle? then [] else [pc.op]
  }

  lemma OpsOfAppend(xs: seq<Done>, ys: seq<Done>)
    ensures OpsOf(xs + ys) == OpsOf(xs) + OpsOf(ys)
  {
  }

  // Every thread's calls, in the order it made them, are the operations whose
  // results were delivered to it, in order, and the one it is in, if any; and
  // they are its recorded operations, with the one it is in still missing from
  // the record exactly until it takes effect.
  lemma {:induction false} CallsInOrder(n: nat, run: seq<Sys>, i: nat, t: nat)
    requires IsRun(n, run) && i < |run| && t < n
    ensures forall j :: 0 <= j < |run| ==> |run[j].pcs| == n
    ensures var s := run[i];
            && CallsOf(run, i, t) == OpsOf(DeliveredTo(s.delivered, t)) + Underway(s.pcs[t])
            && CallsOf(run, i, t) == OpsOf(RecordedFor(s.done, t))
                                     + (if Effective(s.pcs[t]) then [] else Underway(s.pcs[t]))
  {
    hide Inv, IsRun, RecordedFor, DeliveredTo, OpsOf;
    forall j | 0 <= j < |run|
      ensures |run[j].pcs| == n
    {
      RunWidth(n, run, j);
    }
    if i == 0 {
      NoCallsYet(n, run, t);
    } else {
      CallsInOrder(n, run, i - 1, t);
      RunEvent(n, run, i - 1, t);
      CallGoesOn(run[i - 1], run[i], t);
    }
    EveryRunAtomic(n, run, i);
    var pc := run[i].pcs[t];
    OpsOfAppend(DeliveredTo(run[i].delivered, t), Due(pc, t));
    OpsOfDue(pc, t);
  }

  lemma OpsOfDue(pc: Pc, t: nat)
    ensures OpsOf(Due(pc, t)) == if Effective(pc) then Underway(pc) else []
  {
  }

  lemma NoCallsYet(n: nat, run: seq<Sys>, t: nat)
    requires IsRun(n, run) && t < n
    ensures run[0] == Start(n) && OpsOf(DeliveredTo(run[0].delivered, t)) == []
  {
  }

  // How the delivered operations and the one underway change together.
  lemma CallGoesOn(s: Sys, s': Sys, t: nat)
    requires t < |s.pcs| && t < |s'.pcs| && EventOk(s, s', t)
    ensures OpsOf(DeliveredTo(s'.delivered, t)) + Underway(s'.pcs[t])
            == OpsOf(DeliveredTo(s.delivered, t)) + Underway(s.pcs[t])
               + (if s.pcs[t].Idle? && !s'.pcs[t].Idle? then [s'.pcs[t].op] else [])
  {
    hide DeliveredTo, Typed;
    if !s.pcs[t].Idle? && s'.pcs[t].Idle? {
      var x := s'.delivered[|s.delivered|];
      OpsOfAppend(DeliveredTo(s.delivered, t), [x.d]);
      assert OpsOf([x.d]) == [x.d.op];
    }
  }

  // Delivery k is the result of the call made between states c and c + 1 and
  // returned between states r and r + 1.
  ghost predicate Serves(run: seq<Sys>, c: nat, r: nat, k: nat) {
    && c < r < |run| - 1 && |run[r].delivered| == k && |run[r + 1].delivered| == k + 1
    && var t := run[r + 1].delivered[k].d.t;
    && (forall i :: c <= i <= r ==> t < |run[i].pcs|)
    && run[c].pcs[t].Idle? && forall i :: c < i <= r ==> !run[i].pcs[t].Idle?
  }

  // The last state up to i in which thread t was not in a call.
  lemma {:induction false} LastIdle(n: nat, run: seq<Sys>, i: nat, t: nat) returns (c: nat)
    requires IsRun(n, run) && i < |run| && t < n
    ensures c <= i && (forall j :: 0 <= j <= i ==> |run[j].pcs| == n)
    ensures run[c].pcs[t].Idle? && forall j :: c < j <= i ==> !run[j].pcs[t].Idle?
  {
    RunWidth(n, run, i);
    if i == 0 {
      c := 0;
    } else {
      c := LastIdle(n, run, i - 1, t);
      if run[i].pcs[t].Idle? {
        c := i;
      }
    }
  }

  // Every result that a run delivers is that of one call of the run.
  lemma {:induction false} EveryResultServes(n: nat, run: seq<Sys>, i: nat, k: nat) returns (c: nat, r: nat)
    requires IsRun(n, run) && i < |run| && k < |run[i].delivered|
    ensures r < i && Serves(run, c, r, k)
  {
    hide Inv, Fire, Happens, PcsOk;
    if i > 0 && k < |run[i - 1].delivered| {
      c, r := EveryResultServes(n, run, i - 1, k);
    } else {
      assert i > 0;
      r := i - 1;
      assert Follows(run[r], run[r + 1]);
      var e :| Happens(run[r], e) && PcsOk(run[r]) && run[r + 1] == Fire(run[r], e);
      RunWidth(n, run, r);
      FireDelivers(run[r], e);
      c := LastIdle(n, run, r, e.t);
    }
  }

  // A delivery ends the call of the thread that steps.
  lemma FireDelivers(s: Sys, e: Event)
    requires PcsOk(s) && Happens(s, e) && |Fire(s, e).delivered| > |s.delivered|
    ensures |Fire(s, e).delivered| == |s.delivered| + 1
    ensures var x := Fire(s, e).delivered[|s.delivered|];
            && x.d.t == e.t < |s.pcs| && !s.pcs[e.t].Idle?
            && x.d.op == s.pcs[e.t].op && x.since == s.pcs[e.t].since
  {
    hide PcOk, PcsOk, Step, Enabled;
    if e.Go? {
      OwnOk(s, e.t);
      StepKeepsCall(s, e.t);
    }
  }

  // From the call to the return the thread is in the same call.
  lemma {:induction false} CallLasts(n: nat, run: seq<Sys>, c: nat, i: nat, t: nat)
    requires IsRun(n, run) && c < i < |run| && t < n
    requires forall j :: c <= j <= i ==> |run[j].pcs| == n
    requires run[c].pcs[t].Idle? && forall j :: c < j <= i ==> !run[j].pcs[t].Idle?
    ensures Typed(run[i].pcs[t].op) && run[c + 1] == Begin(run[c], t, run[i].pcs[t].op)
    ensures run[i].pcs[t].since == |run[c].done|
    decreases i
  {
    hide IsRun, Typed, DeliveredTo;
    RunEvent(n, run, i - 1, t);
    if i > c + 1 {
      CallLasts(n, run, c, i - 1, t);
    }
  }

  // What the marks of a delivery mean: the lengths of the record at its call
  // and at its return. The operation delivered is the one called.
  lemma ServesMarks(n: nat, run: seq<Sys>, c: nat, r: nat, k: nat)
    requires IsRun(n, run) && Serves(run, c, r, k)
    ensures var x := run[r + 1].delivered[k];
            && x.d.t < |run[c].pcs| && run[c + 1] == Begin(run[c], x.d.t, x.d.op)
            && x.since == |run[c].done| <= x.at < |run[r + 1].done|
            && run[r + 1].done[x.at] == x.d
  {
    hide Typed, DeliveredTo, LocksOk, PcsOk, SizeOk, Atomic, OnceEach, Follows;
    var t := run[r + 1].delivered[k].d.t;
    RunWidth(n, run, c);
    forall j | c <= j <= r
      ensures |run[j].pcs| == n
    {
      RunWidth(n, run, j);
    }
    CallLasts(n, run, c, r, t);
    RunDelivers(n, run, r);
    RunInv(n, run, r + 1);
  }

  lemma RunDelivers(n: nat, run: seq<Sys>, r: nat)
    requires IsRun(n, run) && r + 1 < |run| && |run[r + 1].delivered| > |run[r].delivered|
    ensures var x := run[r + 1].delivered[|run[r].delivered|];
            && x.d.t < |run[r].pcs| && !run[r].pcs[x.d.t].Idle?
            && x.d.op == run[r].pcs[x.d.t].op && x.since == run[r].pcs[x.d.t].since
  {
    hide Inv, Fire, Happens, PcsOk;
    assert Follows(run[r], run[r + 1]);
    var e :| Happens(run[r], e) && PcsOk(run[r]) && run[r + 1] == Fire(run[r], e);
    FireDelivers(run[r], e);
  }

  // The record respects real time: if one call had returned when another was
  // made, it is recorded before it.
  lemma RealTimeOrder(n: nat, run: seq<Sys>, cj: nat, rj: nat, j: nat, ck: nat, rk: nat, k: nat)
    requires IsRun(n, run) && Serves(run, cj, rj, j) && Serves(run, ck, rk, k) && rj < ck
    ensures run[rj + 1].delivered[j].at < run[rk + 1].delivered[k].at
  {
    hide IsRun, Serves, Inv;
    ServesInRange(run, cj, rj, j);
    ServesInRange(run, ck, rk, k);
    ServesMarks(n, run, cj, rj, j);
    ServesMarks(n, run, ck, rk, k);
    RunGrows(n, run, rj + 1, ck);
  }

  lemma ServesInRange(run: seq<Sys>, c: nat, r: nat, k: nat)
    requires Serves(run, c, r, k)
    ensures c < r < |run| - 1 && k < |run[r + 1].delivered|
  {
  }

  lemma {:induction false} SerialPrefix(done: seq<Done>, k: nat)
    requires Serial(done).Some? && k < |done|
    ensures Serial(done[..k]).Some? && Typed(done[k].op)
    ensures Returns(Serial(done[..k]).value, done[k].op)
    ensures Apply(Serial(done[..k]).value, done[k].op).1 == done[k].reply
    decreases |done|
  {
    hide Returns, Apply, Typed;
    var m := |done| - 1;
    if k < m {
      SerialPrefix(done[..m], k);
      assert done[..m][..k] == done[..k];
    }
  }

  lemma {:induction false} SerialWellFormed(done: seq<Done>)
    requires Serial(done).Some?
    ensures WellFormed(Serial(done).value)
    decreases |done|
  {
    hide Apply, Returns;
    if done != [] {
      SerialWellFormed(done[..|done| - 1]);
      StepKeepsBounds(Serial(done[..|done| - 1]).value, done[|done| - 1].op);
    }
  }

  // The step at which entry k of the record was made.
  lemma {:induction false} RecordedAt(n: nat, run: seq<Sys>, i: nat, k: nat) returns (j: nat)
    requires IsRun(n, run) && i < |run| && k < |run[i].done|
    ensures j < i && run[j].done == run[i].done[..k]
    ensures var t := run[i].done[k].t;
            && Enabled(run[j], t) && PcOk(run[j], t, run[j].pcs[t])
            && run[j + 1] == Step(run[j], t) && run[j + 1].done == run[j].done + [run[i].done[k]]
  {
    hide Inv, Fire, Happens, PcsOk, PcOk, Enabled, Step;
    assert i > 0;
    RunGrows(n, run, i - 1, i);
    if k < |run[i - 1].done| {
      j := RecordedAt(n, run, i - 1, k);
    } else {
      j := i - 1;
      assert Follows(run[j], run[j + 1]);
      var e :| Happens(run[j], e) && PcsOk(run[j]) && run[j + 1] == Fire(run[j], e);
      FireRecords(run[j], e);
    }
  }

  lemma FireRecords(s: Sys, e: Event)
    requires PcsOk(s) && Happens(s, e) && |Fire(s, e).done| > |s.done|
    ensures e.Go? && Enabled(s, e.t) && PcOk(s, e.t, s.pcs[e.t]) && Fire(s, e) == Step(s, e.t)
    ensures |Fire(s, e).done| == |s.done| + 1 && s.done <= Fire(s, e).done && Fire(s, e).done[|s.done|].t == e.t
  {
    hide PcOk, PcsOk, Step, Enabled, ShapeOf, Due;
    if e.Go? {
      OwnOk(s, e.t);
      StepShape(s, e.t);
    }
  }

  // A read that gives back a count is recorded by a thread that holds cb_mutex.
  lemma ReadRecordedHolding(s: Sys, t: nat, r: Done)
    requires Enabled(s, t) && PcOk(s, t, s.pcs[t]) && Step(s, t).done == s.done + [r]
    requires r.op.Read? && r.reply.ret.Count?
    ensures HoldsCb(s.pcs[t])
  {
    hide FirstNewline, Locate, LastTen, PassesChecks, Lengths, FlatPosition, Signed64, Unsigned64;
    assert (s.done + [r])[|s.done|] == r;
    if InWrite(s.pcs[t]) {
      StepRecordsOwn(s, t);
    }
  }

  lemma StepRecordsOwn(s: Sys, t: nat)
    requires Enabled(s, t) && PcOk(s, t, s.pcs[t]) && InWrite(s.pcs[t])
    ensures |Step(s, t).done| > |s.done| ==> Step(s, t).done[|s.done|].op == s.pcs[t].op && s.pcs[t].op.Write?
  {
    hide FirstNewline, Locate, LastTen, PassesChecks, Lengths, FlatPosition, Signed64, Unsigned64;
    match s.pcs[t] {
      case WantWe(_, _) =>
      case Staging(_, _) =>
      case Scanning(_, _, _) =>
      case WantCb(_, _, _) =>
      case Adding(_, _, _) =>
      case _ =>
    }
  }

  // Every successful read of every run returns a contiguous slice of what the
  // ring holds in one state j of the run, in which the reader holds cb_mutex
  // and exactly the operations before it are recorded, whatever other threads
  // do while it runs.
  lemma EveryReadIsSlice(n: nat, run: seq<Sys>, i: nat, k: nat) returns (j: nat)
    requires IsRun(n, run) && i < |run| && k < |run[i].done|
    requires run[i].done[k].op.Read? && run[i].done[k].reply.ret.Count?
    ensures j < i && run[j].done == run[i].done[..k]
    ensures var Done(t, op, reply) := run[i].done[k];
            && t < |run[j].pcs| && HoldsCb(run[j].pcs[t])
            && var content, at := Flatten(LastTen(run[j].log)), Unsigned64(op.rpos + run[j].seek);
            && (|reply.data| == 0 <==> op.count == 0 || at >= |content|)
            && (at < |content| ==> at + |reply.data| <= |content|
                                   && reply.data == content[at..at + |reply.data|])
  {
    hide Flatten, LastTen, Unsigned64, WellFormed, Serial, IsRun, VisiblePending, RecordedFor, DeliveredTo, Locate,
      Step, PcOk, HoldsCb;
    j := RecordedAt(n, run, i, k);
    ReadRecordedHolding(run[j], run[i].done[k].t, run[i].done[k]);
    EveryRunAtomic(n, run, i);
    EveryRunAtomic(n, run, j);
    SerialPrefix(run[i].done, k);
    SerialWellFormed(run[i].done[..k]);
    var op := run[i].done[k].op;
    ReadIsSlice(Visible(run[j]), op.rpos, op.count);
  }

  // The size is the sum of the live sizes whenever cb_mutex is free; no thread
  // that works on the ring sees a half-finished commit; and no two threads hold
  // the same mutex.
  lemma NoHalfCommitSeen(n: nat, run: seq<Sys>, i: nat, t: nat, u: nat)
    requires IsRun(n, run) && i < |run| && t < |run[i].pcs| && u < |run[i].pcs|
    ensures run[i].cb.Free? ==> run[i].cbSize == Total(run[i].log)
    ensures HoldsCb(run[i].pcs[t]) && !run[i].pcs[t].Sizing? ==> run[i].cbSize == Total(run[i].log)
    ensures t != u ==> !(HoldsCb(run[i].pcs[t]) && HoldsCb(run[i].pcs[u]))
    ensures t != u ==> !(HoldsWe(run[i].pcs[t]) && HoldsWe(run[i].pcs[u]))
  {
    hide PcOk, Serial;
    RunInv(n, run, i);
  }

  function OpsOf(done: seq<Done>): (ops: seq<Op>)
    ensures |ops| == |done|
    ensures forall i :: 0 <= i < |ops| ==> ops[i] == done[i].op
  {
    seq(|done|, i requires 0 <= i < |done| => done[i].op)
  }

  lemma {:induction false} SerialIsReplay(done: seq<Done>)
    requires Serial(done).Some?
    ensures TypedRun(OpsOf(done)) && Replay(OpsOf(done)) == Serial(done).value
    decreases |done|
  {
    hide Apply, Returns, Typed;
    if done != [] {
      var m := |done| - 1;
      SerialIsReplay(done[..m]);
      assert OpsOf(done)[..m] == OpsOf(done[..m]);
      assert forall i :: 0 <= i < m ==> OpsOf(done)[i] == OpsOf(done[..m])[i];
    }
  }

  // With any number of threads, as long as no write has met a fault: the
  // history is the complete lines of the stream of cut writes in the order
  // recorded, and splitting what a reader sees at its newlines gives back
  // exactly the commands in the ring.
  lemma ConcurrentHistory(n: nat, run: seq<Sys>, i: nat)
    requires IsRun(n, run) && i < |run| && FaultFree(OpsOf(run[i].done))
    ensures run[i].log == Lines(Stream(OpsOf(run[i].done)))
    ensures VisiblePending(run[i]) == Rest(Stream(OpsOf(run[i].done)))
    ensures Lines(Flatten(LastTen(run[i].log))) == LastTen(run[i].log)
  {
    hide Serial, Lines, Rest, Stream, Flatten, LastTen, RecordedFor, DeliveredTo, FaultFree, Replay, VisiblePending;
    EveryRunAtomic(n, run, i);
    SerialIsReplay(run[i].done);
    FaultFreeRun(OpsOf(run[i].done));
    FaultFreeRecovery(OpsOf(run[i].done));
  }

  // ---- rejected seeks ----

  // The k-th recorded operation is a seek that gets cb_mutex and that the tests
  // turn away, given the commands committed before it.
  predicate Rejected(done: seq<Done>, k: nat)
    requires k < |done|
  {
    var before, op := Serial(done[..k]), done[k].op;
    && before.Some? && op.Seek? && !op.sInterrupt
    && !PassesChecks(before.value.log, op.cmd, op.offset, op.outside)
  }

  lemma {:induction false} SerialHeld(done: seq<Done>)
    requires Serial(done).Some?
    ensures Serial(done).value.cbHeld <==> exists k: nat :: k < |done| && Rejected(done, k)
    decreases |done|
  {
    hide PassesChecks, FlatPosition, FirstNewline, Locate;
    if done != [] {
      var m := |done| - 1;
      var before := done[..m];
      SerialHeld(before);
      forall k: nat | k < m
        ensures Rejected(before, k) <==> Rejected(done, k)
      {
        assert before[..k] == done[..k];
      }
      assert Serial(done).value.cbHeld <==> Serial(before).value.cbHeld || Rejected(done, m);
    }
  }

  // cb_mutex is left locked for good exactly when some seek that was not
  // interrupted was made for a position that the tests turn away.
  lemma AbandonedExact(n: nat, run: seq<Sys>, i: nat)
    requires IsRun(n, run) && i < |run|
    ensures run[i].cb.Abandoned? <==> exists k: nat :: k < |run[i].done| && Rejected(run[i].done, k)
  {
    hide Serial, RecordedFor, DeliveredTo, Rejected;
    EveryRunAtomic(n, run, i);
    SerialHeld(run[i].done);
  }

  // cb_mutex is locked and nobody will unlock it: its owner returned without
  // unlocking, or its owner spins.
  predicate Lost(s: Sys) {
    s.cb.Abandoned? || (s.cb.Held? && s.cb.t < |s.pcs| && s.pcs[s.cb.t].Spinning?)
  }

  // A seek for these arguments does not give the mutex back: the tests turn it
  // away, or the loop never reaches its command number.
  ghost predicate KeepsMutex(log: seq<Command>, op: Op) {
    op.Seek? && (!PassesChecks(log, op.cmd, op.offset, op.outside) || CountsForever(op.cmd))
  }

  // From s to s' thread t, with cb_mutex, makes the tests of such a seek.
  ghost predicate LosesMutex(s: Sys, s': Sys, t: nat) {
    && t < |s.pcs| && t < |s'.pcs|
    && s.pcs[t].Checking? && !s'.pcs[t].Checking? && KeepsMutex(s.log, s.pcs[t].op)
  }

  ghost predicate LosesMutexAt(run: seq<Sys>, j: nat, t: nat) {
    j + 1 < |run| && LosesMutex(run[j], run[j + 1], t)
  }

  // What is left alone once the mutex is lost.
  predicate Frozen(s: Sys, s': Sys) {
    && Lost(s') && s'.cb == s.cb && s'.log == s.log && s'.seek == s.seek && s'.cbSize == s.cbSize
    && (s.cb.Held? ==> s.cb.t < |s.pcs| && s.cb.t < |s'.pcs| && s'.pcs[s.cb.t] == s.pcs[s.cb.t])
  }

  lemma FireLoses(s: Sys, e: Event)
    requires Inv(s) && Happens(s, e)
    ensures Lost(s) ==> Frozen(s, Fire(s, e))
    ensures !Lost(s) ==> (Lost(Fire(s, e)) <==> exists t: nat :: LosesMutex(s, Fire(s, e), t))
    ensures Lost(s) ==> forall t: nat :: !LosesMutex(s, Fire(s, e), t)
  {
    hide PcOk, Step, Serial, RecordedFor, DeliveredTo, KeepsMutex, SizeOk, OnceEach, Timely, Atomic;
    var s' := Fire(s, e);
    if e.Go? {
      OwnOk(s, e.t);
      StepFrame(s, e.t);
      if s.pcs[e.t].Checking? {
        CheckingLoses(s, e.t);
        assert LosesMutex(s, s', e.t) <==> KeepsMutex(s.log, s.pcs[e.t].op);
      } else {
        OthersKeep(s, e.t);
      }
    }
  }

  lemma CheckingLoses(s: Sys, t: nat)
    requires LocksOk(s) && Enabled(s, t) && PcOk(s, t, s.pcs[t]) && s.pcs[t].Checking?
    ensures t < |Step(s, t).pcs| && !Step(s, t).pcs[t].Checking? && !Lost(s)
    ensures Lost(Step(s, t)) <==> KeepsMutex(s.log, s.pcs[t].op)
  {
    hide PassesChecks, CountsForever, SeekTerminates;
    var op := s.pcs[t].op;
    SpinsExact(s.log, op.cmd, op.offset, op.outside);
  }

  lemma OthersKeep(s: Sys, t: nat)
    requires LocksOk(s) && Enabled(s, t) && PcOk(s, t, s.pcs[t]) && !s.pcs[t].Checking?
    ensures Lost(Step(s, t)) <==> Lost(s)
    ensures s.pcs[t].Spinning? ==> Step(s, t) == s
  {
    hide PcOk, FirstNewline, Locate, LastTen, PassesChecks, Lengths, FlatPosition, Signed64, Unsigned64;
    match s.pcs[t] {
      case WantWe(_, _) =>
      case Staging(_, _) =>
      case Scanning(_, _, _) =>
      case WantCb(_, _, _) =>
      case Adding(_, _, _) =>
      case Sizing(_, _, _, _, _, _) =>
      case Unlocking(_, _, _, _) =>
      case Resetting(_, _, _, _) =>
      case LeavingWe(_, _, _, _) =>
      case WantRead(_, _) =>
      case Finding(_, _) =>
      case Copying(_, _, _) =>
      case WantSeek(_, _) =>
      case Summing(_, _) =>
      case Spinning(_, _) =>
      case LeavingCb(_, _, _, _) =>
    }
  }

  // cb_mutex is lost exactly when some seek that had got it was made for
  // arguments that the tests turn away, or that make its loop endless.
  lemma {:induction false} LostExact(n: nat, run: seq<Sys>, i: nat)
    requires IsRun(n, run) && i < |run|
    ensures Lost(run[i]) <==> exists j: nat, t: nat :: j < i && LosesMutexAt(run, j, t)
  {
    hide Inv, Fire, Happens, PcsOk, Lost, LosesMutex, Frozen;
    if i == 0 {
      NotLostYet(n);
    } else {
      var h := i - 1;
      LostExact(n, run, h);
      RunInv(n, run, h);
      assert Follows(run[h], run[h + 1]);
      var e :| Happens(run[h], e) && PcsOk(run[h]) && run[i] == Fire(run[h], e);
      FireLoses(run[h], e);
      FrozenIsLost(run[h], run[i]);
      forall t: nat
        ensures LosesMutex(run[h], run[i], t) <==> LosesMutexAt(run, h, t)
      {
      }
    }
  }

  lemma FrozenIsLost(s: Sys, s': Sys)
    ensures Frozen(s, s') ==> Lost(s')
  {
  }

  lemma NotLostYet(n: nat)
    ensures !Lost(Start(n))
  {
  }

  // From then on the ring, its size and the seek offset never change again: no
  // later command is ever committed, and a thread that spins keeps spinning.
  lemma {:induction false} FrozenWhenLost(n: nat, run: seq<Sys>, a: nat, b: nat)
    requires IsRun(n, run) && a <= b < |run| && Lost(run[a])
    ensures Frozen(run[a], run[b])
    decreases b
  {
    hide Inv, Fire, Happens, PcsOk;
    if a < b {
      FrozenWhenLost(n, run, a, b - 1);
      RunInv(n, run, b - 1);
      assert Follows(run[b - 1], run[b - 1 + 1]);
      var e :| Happens(run[b - 1], e) && PcsOk(run[b - 1]) && run[b] == Fire(run[b - 1], e);
      FireLoses(run[b - 1], e);
    }
  }

  // The thread waits for cb_mutex and no signal will interrupt it.
  predicate WaitsForCb(pc: Pc) {
    match pc
    case WantRead(op, _) => op.Read? && !op.rInterrupt
    case WantSeek(op, _) => op.Seek? && !op.sInterrupt
    case WantCb(op, _, _) => op.Write? && !op.faults.interruptCb
    case _ => false
  }

  // Or it waits, in the same way, for we_mutex, whose owner waits for cb_mutex.
  predicate Waits(s: Sys, t: nat) {
    t < |s.pcs|
    && (WaitsForCb(s.pcs[t])
        || (s.pcs[t].WantWe? && s.pcs[t].op.Write? && !s.pcs[t].op.faults.interruptWe
            && s.we.Held? && s.we.t < |s.pcs| && WaitsForCb(s.pcs[s.we.t])))
  }

  lemma FireKeepsWaiting(s: Sys, e: Event, t: nat)
    requires Inv(s) && Happens(s, e) && Lost(s) && Waits(s, t)
    ensures Waits(Fire(s, e), t) && Fire(s, e).pcs[t] == s.pcs[t]
  {
    hide PcOk, Step, Serial, RecordedFor, DeliveredTo;
    if e.Go? {
      OwnOk(s, e.t);
      StepFrame(s, e.t);
    }
  }

  // Once cb_mutex is lost every call that waits for it without being
  // interrupted waits for ever: it never gets a step again. So does every write
  // behind one that holds we_mutex.
  lemma {:induction false} BlockedForever(n: nat, run: seq<Sys>, a: nat, b: nat, t: nat)
    requires IsRun(n, run) && a <= b < |run| && Lost(run[a]) && Waits(run[a], t)
    ensures Waits(run[b], t) && run[b].pcs[t] == run[a].pcs[t] && !Enabled(run[b], t)
    decreases b
  {
    hide Inv, Fire, Happens, PcsOk;
    FrozenWhenLost(n, run, a, b);
    if a < b {
      BlockedForever(n, run, a, b - 1, t);
      FrozenWhenLost(n, run, a, b - 1);
      RunInv(n, run, b - 1);
      assert Follows(run[b - 1], run[b - 1 + 1]);
      var e :| Happens(run[b - 1], e) && PcsOk(run[b - 1]) && run[b] == Fire(run[b - 1], e);
      FireKeepsWaiting(run[b - 1], e, t);
    }
  }

  // ---- progress ----

  // The thread can step and does not spin.
  predicate Moves(s: Sys, t: nat) {
    Enabled(s, t) && !s.pcs[t].Spinning?
  }

  // As long as some thread is in a call that neither spins nor waits for a lost
  // cb_mutex, some thread that does not spin can step: that thread, or the owner
  // of we_mutex if it waits for that, or the owner of cb_mutex.
  lemma DeadlockFree(s: Sys, busy: nat) returns (t: nat)
    requires Inv(s) && busy < |s.pcs| && !s.pcs[busy].Idle? && !s.pcs[busy].Spinning?
    requires !(Lost(s) && Waits(s, busy))
    ensures Moves(s, t)
  {
    hide Serial, RecordedFor, DeliveredTo, Locate, FirstNewline, PassesChecks;
    HasOk(s, busy);
    t := busy;
    if !Enabled(s, t) && s.pcs[t].WantWe? {
      t := s.we.t;
      HasOk(s, t);
    }
    if !Enabled(s, t) {
      t := s.cb.t;
      HasOk(s, t);
    }
  }

  // A thread that spins does so for ever, with cb_mutex.
  lemma SpinsForever(n: nat, run: seq<Sys>, a: nat, b: nat, t: nat)
    requires IsRun(n, run) && a <= b < |run| && t < |run[a].pcs| && run[a].pcs[t].Spinning?
    ensures t < |run[b].pcs| && run[b].pcs[t] == run[a].pcs[t] && run[b].cb == Held(t)
  {
    hide IsRun, PcsOk, SizeOk, Atomic, OnceEach, Timely;
    RunInv(n, run, a);
    FrozenWhenLost(n, run, a, b);
  }

  // The calls of the runs below, on the empty device: two seeks and a read.
  const REJECTED := Seek(0, 0, 0, false)
  const ENDLESS := Seek(0xFFFF_FFFF, 0, 1, false)
  const BLOCKED := Read(0, 1, false, false)

  lemma SeeksOnEmpty()
    ensures Typed(REJECTED) && Typed(ENDLESS) && Typed(BLOCKED)
    ensures !PassesChecks([], 0, 0, 0)
    ensures PassesChecks([], 0xFFFF_FFFF, 0, 1) && !SeekTerminates(0xFFFF_FFFF, 0, 1)
  {
  }

  lemma AfterSeekCall(s: Sys, op: Op)
    requires s == Start(1) && (op == REJECTED || op == ENDLESS)
    ensures Happens(s, Call(0, op)) && PcsOk(s)
    ensures Fire(s, Call(0, op)) == s.(pcs := [WantSeek(op, 0)])
  {
    SeeksOnEmpty();
    assert s.pcs[0 := WantSeek(op, 0)] == [WantSeek(op, 0)];
  }

  lemma AfterSeekLock(s: Sys, op: Op)
    requires s == Start(1).(pcs := [WantSeek(op, 0)]) && PcsOk(s) && op.Seek? && !op.sInterrupt
    ensures Happens(s, Go(0)) && Fire(s, Go(0)) == s.(pcs := [Checking(op, 0)], cb := Held(0))
  {
    assert s.pcs[0 := Checking(op, 0)] == [Checking(op, 0)];
  }

  lemma AfterSeekCheck(s: Sys, op: Op)
    requires s == Start(1).(pcs := [Checking(op, 0)], cb := Held(0)) && PcsOk(s)
    ensures Happens(s, Go(0))
    ensures op == REJECTED ==> Fire(s, Go(0)).pcs == [Idle] && Fire(s, Go(0)).cb == Abandoned(0)
    ensures op == ENDLESS ==> Fire(s, Go(0)).pcs == [Spinning(ENDLESS, 0)]
  {
    SeeksOnEmpty();
    assert [Checking(op, 0)][0 := Idle] == [Idle];
    assert [Checking(op, 0)][0 := Spinning(op, 0)] == [Spinning(op, 0)];
  }

  // The run of one thread up to the tests of a seek.
  lemma SeekRun(op: Op) returns (run: seq<Sys>)
    requires op == REJECTED || op == ENDLESS
    ensures |run| == 4 && IsRun(1, run) && Inv(run[3])
    ensures op == REJECTED ==> run[3].pcs == [Idle] && run[3].cb == Abandoned(0)
    ensures op == ENDLESS ==> run[3].pcs == [Spinning(ENDLESS, 0)]
  {
    hide Step, Serial, PcsOk, PcOk, PassesChecks, Inv;
    var s0 := Start(1);
    StartInv(1);
    AfterSeekCall(s0, op);
    var s1 := Fire(s0, Call(0, op));
    InvFire(s0, Call(0, op));
    AfterSeekLock(s1, op);
    var s2 := Fire(s1, Go(0));
    InvFire(s1, Go(0));
    AfterSeekCheck(s2, op);
    var s3 := Fire(s2, Go(0));
    InvFire(s2, Go(0));
    run := [s0, s1, s2, s3];
    assert Follows(s0, s1) && Follows(s1, s2) && Follows(s2, s3);
  }

  // A run of one thread that gets stuck: a seek on the empty device is
  // rejected, and the thread's next read waits for the mutex it left locked.
  lemma RejectedSeekBlocks() returns (run: seq<Sys>)
    ensures IsRun(1, run) && |run| == 5
    ensures |run[4].pcs| == 1 && run[4].pcs[0].WantRead? && !Enabled(run[4], 0)
  {
    hide Step, Serial, PcOk, PassesChecks;
    SeeksOnEmpty();
    var before := SeekRun(REJECTED);
    var s3 := before[3];
    assert Happens(s3, Call(0, BLOCKED));
    run := before + [Fire(s3, Call(0, BLOCKED))];
    assert Follows(run[3], run[4]);
  }

  // A run of one thread whose seek on the empty device passes both tests, with
  // a number read from outside the array, and never returns.
  lemma EndlessSeekSpins() returns (run: seq<Sys>)
    ensures IsRun(1, run) && |run| == 4
    ensures |run[3].pcs| == 1 && run[3].pcs[0] == Spinning(Seek(0xFFFF_FFFF, 0, 1, false), 0)
  {
    run := SeekRun(ENDLESS);
  }

  lemma InvFire(s: Sys, e: Event)
    requires Inv(s) && Happens(s, e)
    ensures PcsOk(s) && Inv(Fire(s, e)) && PcsOk(Fire(s, e))
  {
    hide PcOk, PcsOk, Step, Serial;
    FireKeepsInv(s, e);
  }

  function TotalRank(pcs: seq<Pc>): nat {
    if pcs == [] then 0 else Rank(pcs[0]) + TotalRank(pcs[1..])
  }

  lemma {:induction false} TotalRankUpdate(pcs: seq<Pc>, t: nat, pc: Pc)
    requires t < |pcs|
    ensures TotalRank(pcs[t := pc]) == TotalRank(pcs) - Rank(pcs[t]) + Rank(pc)
  {
    hide Rank;
    if t == 0 {
      assert pcs[t := pc][1..] == pcs[1..];
    } else {
      assert pcs[t := pc][1..] == pcs[1..][t - 1 := pc];
      TotalRankUpdate(pcs[1..], t - 1, pc);
    }
  }

  // The threads in `steps` can step in this order, without any new call.
  ghost predicate Schedule(s: Sys, steps: seq<nat>)
    decreases |steps|
  {
    steps == [] || (PcsOk(s) && Enabled(s, steps[0]) && Schedule(Step(s, steps[0]), steps[1..]))
  }

  ghost function After(s: Sys, steps: seq<nat>): Sys
    requires Schedule(s, steps)
    decreases |steps|
  {
    if steps == [] then s else After(Step(s, steps[0]), steps[1..])
  }

  // How many of the steps are made by threads that spin.
  ghost function Spins(s: Sys, steps: seq<nat>): nat
    requires Schedule(s, steps)
    decreases |steps|
  {
    if steps == [] then 0
    else (if s.pcs[steps[0]].Spinning? then 1 else 0) + Spins(Step(s, steps[0]), steps[1..])
  }

  // Completion under every scheduler: without new calls, no schedule has more
  // steps than the total rank, not counting those of threads that spin; and one
  // that only they can continue has finished every call, except for those that
  // spin and those that wait for a lost cb_mutex.
  lemma {:induction false} EveryScheduleEnds(s: Sys, steps: seq<nat>)
    requires Inv(s) && Schedule(s, steps)
    ensures Inv(After(s, steps))
    ensures |steps| - Spins(s, steps) + TotalRank(After(s, steps).pcs) <= TotalRank(s.pcs)
    ensures var e := After(s, steps);
            (forall t: nat :: !Moves(e, t)) ==>
              forall t: nat | t < |e.pcs| ::
                e.pcs[t].Idle? || (Lost(e) && (e.pcs[t].Spinning? || Waits(e, t)))
    decreases |steps|
  {
    hide PcOk, Step, Serial, Rank, Inv, Waits, Lost;
    if steps == [] {
      AllIdleOrEnabled(s);
    } else {
      var t, s' := steps[0], Step(s, steps[0]);
      InvGo(s, t);
      OwnOk(s, t);
      StepFrame(s, t);
      StepKeepsCall(s, t);
      assert s'.pcs == s.pcs[t := s'.pcs[t]];
      TotalRankUpdate(s.pcs, t, s'.pcs[t]);
      EveryScheduleEnds(s', steps[1..]);
    }
  }

  lemma InvGo(s: Sys, t: nat)
    requires Inv(s) && PcsOk(s) && Enabled(s, t)
    ensures Inv(Step(s, t))
  {
    hide Inv, PcOk, Enabled, Step;
    FireKeepsInv(s, Go(t));
  }

  lemma AllIdleOrEnabled(s: Sys)
    requires Inv(s)
    ensures (forall t: nat :: !Moves(s, t)) ==>
              forall t: nat | t < |s.pcs| ::
                s.pcs[t].Idle? || (Lost(s) && (s.pcs[t].Spinning? || Waits(s, t)))
  {
    hide Inv, Moves, PcOk, Waits, Lost;
    forall busy: nat | busy < |s.pcs| && !s.pcs[busy].Idle?
      ensures (Lost(s) && (s.pcs[busy].Spinning? || Waits(s, busy)))
              || exists t: nat :: Moves(s, t)
    {
      if s.pcs[busy].Spinning? {
        SpinnerHolds(s, busy);
      } else if !(Lost(s) && Waits(s, busy)) {
        var t := DeadlockFree(s, busy);
      }
    }
  }

  lemma SpinnerHolds(s: Sys, t: nat)
    requires Inv(s) && t < |s.pcs| && s.pcs[t].Spinning?
    ensures Lost(s)
  {
    hide PcsOk, Atomic, OnceEach, Timely;
  }

  // ---- what a thread that is left alone does ----

  // The call cannot do without we_mutex.
  predicate NeedsWe(op: Op) {
    op.Write? && !op.faults.interruptWe
  }

  // The call cannot do without cb_mutex, if it gets as far as that.
  predicate NeedsCb(op: Op) {
    match op
    case Write(buf, _, f) =>
      !f.interruptWe && f.uncopied == 0 && !NoNewline(buf) && !f.allocFails && !f.interruptCb
    case Read(_, _, interrupt, _) => !interrupt
    case Seek(_, _, _, interrupt) => !interrupt
  }

  // Whatever mutex the call needs is free.
  predicate Unhindered(s: Sys, op: Op) {
    (NeedsWe(op) ==> s.we.Free?) && (NeedsCb(op) ==> s.cb.Free?)
  }

  // Since state s thread t has been in one call, and nothing else has happened.
  ghost predicate Alone(s: Sys, s': Sys, t: nat, op: Op) {
    && |s'.pcs| == |s.pcs| && t < |s.pcs|
    && (forall u: nat | u < |s.pcs| && u != t :: s'.pcs[u] == s.pcs[u])
    && !s'.pcs[t].Idle? && s'.pcs[t].op == op && s'.pcs[t].since == |s.done|
    && (NeedsCb(op) ==> !s'.cb.Abandoned?)
    && s'.done == s.done + Due(s'.pcs[t], t) && s'.delivered == s.delivered
  }

  // It has finished: its operation is the next one recorded, and its reply the
  // next one delivered.
  ghost predicate Finished(s: Sys, s': Sys, t: nat, op: Op, reply: Reply) {
    && |s'.pcs| == |s.pcs| && t < |s.pcs|
    && (forall u: nat | u < |s.pcs| && u != t :: s'.pcs[u] == s.pcs[u])
    && s'.pcs[t].Idle? && s'.done == s.done + [Done(t, op, reply)]
    && |s'.delivered| == |s.delivered| + 1 && s'.delivered[..|s.delivered|] == s.delivered
    && s'.delivered[|s.delivered|].d == Done(t, op, reply)
  }

  lemma KeepsUnlessEnds(s: Sys, t: nat)
    requires Enabled(s, t) && PcOk(s, t, s.pcs[t])
    ensures t < |Step(s, t).pcs| && (!s.cb.Abandoned? && Step(s, t).cb.Abandoned? ==> Step(s, t).pcs[t].Idle?)
  {
    hide PcOk, FirstNewline, Locate, LastTen, PassesChecks, Lengths, FlatPosition, Signed64, Unsigned64;
    match s.pcs[t] {
      case Checking(_, _) =>
      case _ =>
    }
  }

  // With the mutexes it needs free at first a thread alone is never stopped.
  lemma AloneCanStep(s: Sys, s': Sys, t: nat, op: Op)
    requires Inv(s) && Inv(s') && Unhindered(s, op) && Alone(s, s', t, op)
    ensures Enabled(s', t) && PcsOk(s')
  {
    hide Serial, RecordedFor, DeliveredTo, Locate, FirstNewline, PassesChecks, Due, SizeOk, Timely;
    HasOk(s', t);
  }

  lemma AloneSteps(s: Sys, s': Sys, t: nat, op: Op)
    requires Alone(s, s', t, op) && Enabled(s', t) && PcOk(s', t, s'.pcs[t])
    ensures var s2 := Step(s', t);
            && t < |s2.pcs|
            && (s2.pcs[t].Idle? ==> exists reply :: Finished(s, s2, t, op, reply))
            && (!s2.pcs[t].Idle? ==> Alone(s, s2, t, op))
  {
    hide PcOk, Step, Enabled, ShapeOf, Due, Rank;
    StepFrame(s', t);
    StepShape(s', t);
    StepKeepsCall(s', t);
    KeepsUnlessEnds(s', t);
    var s2 := Step(s', t);
    if s2.pcs[t].Idle? {
      var x := s2.delivered[|s.delivered|];
      assert x.d == Done(t, op, x.d.reply);
      EndsWith(s, s', s2, t);
      assert Finished(s, s2, t, op, x.d.reply);
    }
  }

  // The last step of a call records at most what it delivers.
  lemma EndsWith(s: Sys, s': Sys, s2: Sys, t: nat)
    requires t < |s'.pcs| && t < |s2.pcs| && s2.pcs[t].Idle? && |s2.delivered| == |s'.delivered| + 1
    requires s'.done == s.done + Due(s'.pcs[t], t) && s'.delivered == s.delivered
    requires exists shape :: ShapeOk(s', s2, t, shape)
    ensures s2.done == s.done + [s2.delivered[|s.delivered|].d]
    ensures s2.delivered[..|s.delivered|] == s.delivered
  {
    hide Effective;
    var shape :| ShapeOk(s', s2, t, shape);
  }

  // A seek that gets its turn comes back.
  predicate ComesBack(op: Op) {
    op.Seek? ==> op.sInterrupt || SeekTerminates(op.cmd, op.offset, op.outside)
  }

  lemma AloneDoesNotSpin(s: Sys, t: nat, op: Op)
    requires t < |s.pcs| && PcOk(s, t, s.pcs[t]) && !s.pcs[t].Idle? && s.pcs[t].op == op && ComesBack(op)
    ensures !s.pcs[t].Spinning?
  {
    hide PassesChecks, Locate, FirstNewline;
  }

  ghost predicate Extends(n: nat, run: seq<Sys>, longer: seq<Sys>) {
    IsRun(n, longer) && |run| <= |longer| && run == longer[..|run|]
  }

  lemma RunAdd(n: nat, run: seq<Sys>, e: Event)
    requires IsRun(n, run) && Happens(run[|run| - 1], e) && PcsOk(run[|run| - 1])
    ensures Extends(n, run, run + [Fire(run[|run| - 1], e)])
  {
    hide Happens, Fire, PcsOk;
    var more := run + [Fire(run[|run| - 1], e)];
    forall i | 0 <= i < |more| - 1
      ensures Follows(more[i], more[i + 1])
    {
      if i < |run| - 1 {
        assert Follows(run[i], run[i + 1]);
      }
    }
  }

  lemma NotEmpty(n: nat, run: seq<Sys>)
    requires IsRun(n, run)
    ensures |run| > 0
  {
  }

  // Left alone it gets to the end of its call.
  lemma {:induction false} AloneFinishes(n: nat, run: seq<Sys>, s: Sys, t: nat, op: Op)
    returns (longer: seq<Sys>, reply: Reply)
    requires IsRun(n, run) && Inv(s) && Unhindered(s, op) && ComesBack(op)
    requires Alone(s, run[|run| - 1], t, op)
    ensures Extends(n, run, longer) && Finished(s, longer[|longer| - 1], t, op, reply)
    decreases Rank(run[|run| - 1].pcs[t])
  {
    hide Inv, PcsOk, PcOk, Step, Enabled, Alone, Finished, IsRun, Rank, ComesBack;
    NotEmpty(n, run);
    var s' := run[|run| - 1];
    RunInv(n, run, |run| - 1);
    AloneCanStep(s, s', t, op);
    AloneIsIn(s, s', t, op);
    HasOk(s', t);
    AloneDoesNotSpin(s', t, op);
    AloneSteps(s, s', t, op);
    StepKeepsCall(s', t);
    RunAdd(n, run, Go(t));
    var next := run + [Step(s', t)];
    if Step(s', t).pcs[t].Idle? {
      reply :| Finished(s, Step(s', t), t, op, reply);
      longer := next;
    } else {
      longer, reply := AloneFinishes(n, next, s, t, op);
    }
  }

  lemma AloneIsIn(s: Sys, s': Sys, t: nat, op: Op)
    requires Alone(s, s', t, op)
    ensures t < |s'.pcs| && !s'.pcs[t].Idle? && s'.pcs[t].op == op
  {
  }

  lemma AloneFromCall(s: Sys, t: nat, op: Op)
    requires t < |s.pcs| && s.pcs[t].Idle? && Typed(op) && Unhindered(s, op)
    ensures Happens(s, Call(t, op)) && Alone(s, Begin(s, t, op), t, op)
  {
  }

  lemma SerialLast(done: seq<Done>, d: Dev, last: Done, after: Dev)
    requires Serial(done) == Some(d) && Serial(done + [last]) == Some(after)
    ensures Typed(last.op) && Apply(d, last.op) == (after, last.reply)
  {
    hide Apply, Typed, Returns;
    assert (done + [last])[..|done|] == done;
  }

  // Every call can be made and completed: from any state a run reaches, an idle
  // thread that makes a call of any kind, with any faults, and is then left
  // alone gets to its end, if the mutexes that this call needs are free. What it
  // is given back, and what the device then is, are what the sequential device
  // gives and becomes; the other threads are where they were.
  lemma EveryCallCanComplete(n: nat, run: seq<Sys>, t: nat, op: Op) returns (longer: seq<Sys>)
    requires IsRun(n, run) && t < n && Typed(op) && ComesBack(op)
    requires var s := run[|run| - 1];
             Unhindered(s, op) && t < |s.pcs| && s.pcs[t].Idle?
    ensures Extends(n, run, longer)
    ensures var s, s' := run[|run| - 1], longer[|longer| - 1];
            var (e, reply) := Apply(Visible(s), op);
            && Visible(s') == e && Finished(s, s', t, op, reply)
  {
    hide Inv, PcsOk, Step, Enabled, Alone, Apply, Serial, Visible, ComesBack, Typed, RecordedFor, DeliveredTo;
    var s := run[|run| - 1];
    RunInv(n, run, |run| - 1);
    AtomicAndOk(s);
    AloneFromCall(s, t, op);
    RunAdd(n, run, Call(t, op));
    var called := run + [Begin(s, t, op)];
    var reply;
    longer, reply := AloneFinishes(n, called, s, t, op);
    assert longer[..|run|] == longer[..|called|][..|run|] == run;
    var s' := longer[|longer| - 1];
    RunInv(n, longer, |longer| - 1);
    AtomicAndOk(s');
    SerialLast(s.done, Visible(s), Done(t, op, reply), Visible(s'));
  }

  lemma AtomicAndOk(s: Sys)
    requires Inv(s)
    ensures Serial(s.done) == Some(Visible(s)) && PcsOk(s)
  {
    hide Serial, Visible, PcsOk, LocksOk, SizeOk, OnceEach, Timely;
  }

  // In particular a line that fits behind the unfinished one can be written: it
  // becomes the newest command, and its writer is told that all of it was taken.
  lemma EveryLineCanBeWritten(n: nat, run: seq<Sys>, t: nat, line: seq<byte>, wpos: int) returns (longer: seq<Sys>)
    requires IsRun(n, run) && t < n && Framed(line) && IsOffset(wpos)
    requires var s := run[|run| - 1];
             s.we.Free? && s.cb.Free? && t < |s.pcs| && s.pcs[t].Idle? && |s.pending| + |line| <= ENTRY_LIMIT
    ensures Extends(n, run, longer)
    ensures var s, s' := run[|run| - 1], longer[|longer| - 1];
            && s'.log == s.log + [s.pending + line] && VisiblePending(s') == []
            && exists reply: Reply :: reply.ret == Count(|line|)
                 && Finished(s, s', t, Write(line, wpos, NO_FAULTS), reply)
  {
    hide ApplyWrite, IsRun, Finished, VisiblePending, FirstNewline;
    NotEmpty(n, run);
    var s, op := run[|run| - 1], Write(line, wpos, NO_FAULTS);
    FreeIsVisible(s);
    longer := EveryCallCanComplete(n, run, t, op);
    WriteOutcome(Visible(s), line, wpos, NO_FAULTS);
    FirstNewlineUnique(line, |line| - 1);
    assert Cut(line) == line;
    assert line[|line| - 1] == NEWLINE;
    assert Finished(s, longer[|longer| - 1], t, op, Apply(Visible(s), op).1);
  }

  lemma FreeIsVisible(s: Sys)
    requires s.we.Free?
    ensures VisiblePending(s) == s.pending
  {
  }
}
