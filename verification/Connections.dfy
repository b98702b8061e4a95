// Many connections at once: one thread each, all writing to the device under
// dfdmutex. Seek commands are sent without the mutex. A write that fails ends
// its connection. The reads that answer a client change nothing on the device
// and are not steps here.
module Connections {
  import opened Words
  import opened CommandLog
  import opened DeviceModel
  import opened Server
  import opened Interleaving

  // Where a thread is: reading its socket; with a buffer to write, waiting for
  // the mutex or holding it; with its write done; or ended by a failed write.
  datatype Place =
    | Reading
    | WantLock(buf: seq<byte>)
    | Locked(buf: seq<byte>)
    | Wrote(ok: bool)
    | Closed

  // `next` chunks have been read from the socket.
  datatype Conn = Conn(chunks: seq<Chunk>, next: nat, place: Place)

  // `issued` records every call made on the device, by which connection, and
  // what it replied.
  datatype Hub = Hub(conns: seq<Conn>, owner: Option<nat>, dev: Dev, issued: seq<Done>)

  // A connection's turn, with what befalls the device call it makes, if any.
  datatype Turn = Turn(t: nat, faults: WriteFaults, interrupted: bool)

  function SeekOf(c: Chunk, interrupted: bool): Op
    requires c.SeekCommand?
  {
    Seek(c.cmd, c.offset, c.outside, interrupted)
  }

  // The call can be made, and comes back.
  predicate CanIssue(d: Dev, op: Op) {
    Typed(op) && Returns(d, op)
  }

  predicate Enabled(h: Hub, turn: Turn) {
    turn.t < |h.conns|
    && var c := h.conns[turn.t];
    match c.place
    case Reading =>
      c.next < |c.chunks|
      && (c.chunks[c.next].Data? || CanIssue(h.dev, SeekOf(c.chunks[c.next], turn.interrupted)))
    case WantLock(_) => h.owner.None?
    case Locked(buf) => CanIssue(h.dev, Write(buf, 0, turn.faults))
    case Wrote(_) => true
    case Closed => false
  }

  function Put(h: Hub, t: nat, c: Conn): Hub
    requires t < |h.conns|
  {
    h.(conns := h.conns[t := c])
  }

  function Issue(h: Hub, t: nat, op: Op): Hub
    requires Typed(op)
  {
    h.(dev := Apply(h.dev, op).0, issued := h.issued + [Done(t, op, Apply(h.dev, op).1)])
  }

  // One step: read a chunk and send it on if it is a seek command, lock, write
  // the whole chunk, unlock and see whether the write failed. What a seek
  // command replies is not looked at.
  function Step(h: Hub, turn: Turn): Hub
    requires Enabled(h, turn)
  {
    var t := turn.t;
    var c := h.conns[t];
    match c.place
    case Reading =>
      var read := c.(next := c.next + 1);
      var chunk := c.chunks[c.next];
      if chunk.Data? then Put(h, t, read.(place := WantLock(chunk.bytes)))
      else Put(Issue(h, t, SeekOf(chunk, turn.interrupted)), t, read)
    case WantLock(buf) => Put(h.(owner := Some(t)), t, c.(place := Locked(buf)))
    case Locked(buf) =>
      var op := Write(buf, 0, turn.faults);
      Put(Issue(h, t, op), t, c.(place := Wrote(Apply(h.dev, op).1.ret.Count?)))
    case Wrote(ok) => Put(h.(owner := None), t, c.(place := if ok then Reading else Closed))
  }

  function Start(inputs: seq<seq<Chunk>>): Hub {
    Hub(seq(|inputs|, t requires 0 <= t < |inputs| => Conn(inputs[t], 0, Reading)), None, INITIAL, [])
  }

  // A schedule is a sequence of turns; one that cannot be taken is passed over.
  function Exec(inputs: seq<seq<Chunk>>, schedule: seq<Turn>): Hub {
    if schedule == [] then Start(inputs)
    else
      var h, turn := Exec(inputs, schedule[..|schedule| - 1]), schedule[|schedule| - 1];
      if Enabled(h, turn) then Step(h, turn) else h
  }

  // The call that sends a chunk: all of its bytes, or its seek command.
  predicate Carries(op: Op, c: Chunk) {
    if c.Data? then op.Write? && op.buf == c.bytes
    else op.Seek? && op.cmd == c.cmd && op.offset == c.offset && op.outside == c.outside
  }

  // How many chunks have been sent to the device.
  function Sent(c: Conn): int {
    c.next - (if c.place.WantLock? || c.place.Locked? then 1 else 0)
  }

  predicate Failed(c: Conn) {
    c.place == Wrote(false) || c.place.Closed?
  }

  predicate HoldsMutex(c: Conn) {
    c.place.Locked? || c.place.Wrote?
  }

  // A connection's calls are its chunks, one call each, in order; each write
  // succeeded, except the last one of a connection that goes no further.
  predicate SentInOrder(mine: seq<Done>, c: Conn) {
    && |mine| == Sent(c) <= |c.chunks|
    && (Failed(c) ==> Sent(c) > 0 && c.chunks[Sent(c) - 1].Data?)
    && forall i :: 0 <= i < |mine| ==>
                     && Carries(mine[i].op, c.chunks[i])
                     && (c.chunks[i].Data? ==>
                           (mine[i].reply.ret.Count? <==> !(Failed(c) && i == Sent(c) - 1)))
  }

  predicate ConnOk(h: Hub, t: nat, c: Conn) {
    && c.next <= |c.chunks|
    && (c.place.WantLock? || c.place.Locked? ==> c.next > 0 && c.chunks[c.next - 1] == Data(c.place.buf))
    && (HoldsMutex(c) <==> h.owner == Some(t))
    && SentInOrder(RecordedFor(h.issued, t), c)
  }

  // Every call is that of one of the connections.
  predicate FromConns(issued: seq<Done>, n: nat) {
    forall k :: 0 <= k < |issued| ==> issued[k].t < n
  }

  predicate Inv(h: Hub) {
    && (forall t: nat | t < |h.conns| :: ConnOk(h, t, h.conns[t]))
    && (h.owner.Some? ==> h.owner.value < |h.conns|)
    && Serial(h.issued) == Some(h.dev)
    && FromConns(h.issued, |h.conns|)
  }

  lemma IssueKeepsSerial(h: Hub, t: nat, op: Op)
    requires Serial(h.issued) == Some(h.dev) && CanIssue(h.dev, op)
    ensures Serial(Issue(h, t, op).issued) == Some(Issue(h, t, op).dev)
  {
    hide Serial, Apply;
    Recorded(h.issued, h.dev, t, op, Apply(h.dev, op).1);
  }

  // The step's own connection.
  lemma StepKeepsOwn(h: Hub, turn: Turn)
    requires Inv(h) && Enabled(h, turn)
    ensures turn.t < |Step(h, turn).conns| && ConnOk(Step(h, turn), turn.t, Step(h, turn).conns[turn.t])
  {
    hide Serial, Apply, RecordedFor, Returns, Typed;
    var t := turn.t;
    var h' := Step(h, turn);
    assert ConnOk(h, t, h.conns[t]);
    if |h'.issued| > |h.issued| {
      var d := h'.issued[|h.issued|];
      assert h'.issued == h.issued + [d];
      RecordedForStep(h.issued, d, t);
    }
  }

  // The other connections.
  lemma StepKeepsOther(h: Hub, turn: Turn, u: nat)
    requires Inv(h) && Enabled(h, turn) && u < |h.conns| && u != turn.t
    ensures u < |Step(h, turn).conns| && ConnOk(Step(h, turn), u, Step(h, turn).conns[u])
  {
    hide Serial, Apply, RecordedFor, Returns, Typed, SentInOrder;
    var h' := Step(h, turn);
    assert ConnOk(h, u, h.conns[u]) && ConnOk(h, turn.t, h.conns[turn.t]);
    if |h'.issued| > |h.issued| {
      var d := h'.issued[|h.issued|];
      assert h'.issued == h.issued + [d];
      RecordedForStep(h.issued, d, u);
      assert RecordedFor(h'.issued, u) == RecordedFor(h.issued, u);
    }
  }

  lemma StepKeepsInv(h: Hub, turn: Turn)
    requires Inv(h) && Enabled(h, turn)
    ensures Inv(Step(h, turn))
  {
    hide Serial, Apply, RecordedFor, Returns, Typed, ConnOk;
    var h', c := Step(h, turn), h.conns[turn.t];
    forall u: nat | u < |h'.conns|
      ensures ConnOk(h', u, h'.conns[u])
    {
      if u == turn.t {
        StepKeepsOwn(h, turn);
      } else {
        StepKeepsOther(h, turn, u);
      }
    }
    if c.place.Reading? && c.chunks[c.next].SeekCommand? {
      IssueKeepsSerial(h, turn.t, SeekOf(c.chunks[c.next], turn.interrupted));
    } else if c.place.Locked? {
      IssueKeepsSerial(h, turn.t, Write(c.place.buf, 0, turn.faults));
    }
  }

  lemma StepKeepsChunks(h: Hub, turn: Turn)
    requires Enabled(h, turn)
    ensures |Step(h, turn).conns| == |h.conns|
    ensures forall u: nat | u < |h.conns| :: Step(h, turn).conns[u].chunks == h.conns[u].chunks
  {
    hide Apply, Returns, Typed;
  }

  lemma StartInv(inputs: seq<seq<Chunk>>)
    ensures Inv(Start(inputs))
  {
  }

  lemma {:induction false} ExecInv(inputs: seq<seq<Chunk>>, schedule: seq<Turn>)
    ensures var h := Exec(inputs, schedule);
            Inv(h) && |h.conns| == |inputs| && forall t: nat | t < |inputs| :: h.conns[t].chunks == inputs[t]
  {
    hide Step, Enabled, Inv;
    if schedule == [] {
      StartInv(inputs);
    } else {
      var n := |schedule| - 1;
      ExecInv(inputs, schedule[..n]);
      var h, turn := Exec(inputs, schedule[..n]), schedule[n];
      if Enabled(h, turn) {
        StepKeepsInv(h, turn);
        StepKeepsChunks(h, turn);
      }
    }
  }

  // For any number of connections, any schedule and any faults: the device is
  // what the calls it received make of it, one after the other, with the
  // replies it gave; those calls are a merge of the connections' chunks and
  // nothing else, each whole and in its connection's order; a connection goes
  // on after a write exactly when the write succeeded; and at most one holds
  // the mutex.
  lemma EveryScheduleMerges(inputs: seq<seq<Chunk>>, schedule: seq<Turn>)
    ensures var h := Exec(inputs, schedule);
            && |h.conns| == |inputs| && Serial(h.issued) == Some(h.dev)
            && TypedRun(OpsOf(h.issued)) && h.dev == Replay(OpsOf(h.issued))
            && FromConns(h.issued, |inputs|)
            && (forall t: nat | t < |inputs| ::
                  h.conns[t].chunks == inputs[t] && SentInOrder(RecordedFor(h.issued, t), h.conns[t]))
            && (forall t: nat, u: nat | t < |inputs| && u < |inputs| ::
                  HoldsMutex(h.conns[t]) && HoldsMutex(h.conns[u]) ==> t == u)
  {
    hide Serial, Replay, RecordedFor, SentInOrder, HoldsMutex, Exec;
    ExecInv(inputs, schedule);
    var h := Exec(inputs, schedule);
    SerialIsReplay(h.issued);
    assert forall t: nat | t < |h.conns| :: ConnOk(h, t, h.conns[t]);
  }

  // ---- whole lines ----

  // Every data chunk is one finished command that fits the socket buffer.
  predicate WholeLines(chunks: seq<Chunk>) {
    forall i :: 0 <= i < |chunks| && chunks[i].Data? ==> IsLine(chunks[i].bytes)
  }

  predicate IsLine(c: Command) {
    Framed(c) && |c| <= BUFFER_LENGTH
  }

  predicate Undisturbed(schedule: seq<Turn>) {
    forall i :: 0 <= i < |schedule| ==> schedule[i].faults == NO_FAULTS
  }

  predicate LineWrites(done: seq<Done>) {
    forall k :: 0 <= k < |done| && done[k].op.Write? ==>
                  IsLine(done[k].op.buf) && done[k].op == Write(done[k].op.buf, 0, NO_FAULTS)
  }

  // The bytes of the writes, in the order they were made.
  function Written(done: seq<Done>): seq<Command> {
    if done == [] then []
    else
      var last := done[|done| - 1].op;
      Written(done[..|done| - 1]) + (if last.Write? then [last.buf] else [])
  }

  lemma {:induction false} IssuedLines(inputs: seq<seq<Chunk>>, schedule: seq<Turn>)
    requires Undisturbed(schedule) && forall t :: 0 <= t < |inputs| ==> WholeLines(inputs[t])
    ensures LineWrites(Exec(inputs, schedule).issued)
  {
    hide Serial, Apply, Returns, IsLine, SentInOrder, RecordedFor;
    if schedule != [] {
      var n := |schedule| - 1;
      IssuedLines(inputs, schedule[..n]);
      ExecInv(inputs, schedule[..n]);
      var h, turn := Exec(inputs, schedule[..n]), schedule[n];
      if Enabled(h, turn) {
        assert ConnOk(h, turn.t, h.conns[turn.t]);
      }
    }
  }

  // Line writes one after the other all succeed and make the history.
  lemma {:induction false} LinesReplay(done: seq<Done>)
    requires Serial(done).Some? && LineWrites(done)
    ensures Serial(done).value.log == Written(done) && Serial(done).value.pending == []
    ensures forall k :: 0 <= k < |done| && done[k].op.Write? ==> done[k].reply.ret.Count?
    decreases |done|
  {
    hide Apply, Returns, Typed;
    if done != [] {
      var m := |done| - 1;
      LinesReplay(done[..m]);
      var d, op := Serial(done[..m]).value, done[m].op;
      if op.Write? {
        WriteFramed(d, op.buf);
      } else {
        OnlyWritesCommit(d, op);
      }
    }
  }

  lemma OnlyWritesCommit(d: Dev, op: Op)
    requires Typed(op) && !op.Write?
    ensures Apply(d, op).0.log == d.log && Apply(d, op).0.pending == d.pending
  {
  }

  lemma {:induction false} RecordedForIn(done: seq<Done>, t: nat, i: nat)
    requires i < |RecordedFor(done, t)|
    ensures RecordedFor(done, t)[i] in done
    decreases |done|
  {
    if done != [] {
      var m := |done| - 1;
      if i < |RecordedFor(done[..m], t)| {
        RecordedForIn(done[..m], t, i);
      }
    }
  }

  // Lines of different clients never mix: when every data chunk is one complete
  // line and no write meets a fault, the device's history is exactly the data
  // chunks in the order they were sent, a merge of those of the connections,
  // whatever seek commands are mixed in, and no connection is closed.
  lemma WholeLinesSurvive(inputs: seq<seq<Chunk>>, schedule: seq<Turn>)
    requires Undisturbed(schedule) && forall t :: 0 <= t < |inputs| ==> WholeLines(inputs[t])
    ensures var h := Exec(inputs, schedule);
            && h.dev.log == Written(h.issued) && h.dev.pending == []
            && |h.conns| == |inputs| && FromConns(h.issued, |inputs|)
            && (forall t: nat | t < |inputs| ::
                  h.conns[t].chunks == inputs[t] && SentInOrder(RecordedFor(h.issued, t), h.conns[t]))
            && forall t :: 0 <= t < |h.conns| ==> !Failed(h.conns[t])
  {
    hide Serial, Replay, RecordedFor, Exec, Written, Undisturbed, WholeLines;
    EveryScheduleMerges(inputs, schedule);
    IssuedLines(inputs, schedule);
    var h := Exec(inputs, schedule);
    LinesReplay(h.issued);
    forall t: nat | t < |h.conns|
      ensures !Failed(h.conns[t])
    {
      var mine := RecordedFor(h.issued, t);
      if Failed(h.conns[t]) {
        RecordedForIn(h.issued, t, |mine| - 1);
      }
    }
  }

  // ---- progress ----

  // A turn in which nothing goes wrong.
  function Calm(t: nat): Turn {
    Turn(t, NO_FAULTS, false)
  }

  // The connection has no more to do: all of its chunks have been sent, or a
  // write has failed.
  predicate Over(c: Conn) {
    (c.place.Reading? && c.next == |c.chunks|) || c.place.Closed?
  }

  // It is in a device call that does not come back: a write that needs a lost
  // cb_mutex, or a seek command that needs it or never ends.
  predicate InDeadCall(d: Dev, c: Conn) {
    match c.place
    case Locked(buf) => d.cbHeld && ReachesRing(d, buf, NO_FAULTS)
    case Reading =>
      c.next < |c.chunks| && c.chunks[c.next].SeekCommand?
      && (d.cbHeld || !SeekTerminates(c.chunks[c.next].cmd, c.chunks[c.next].offset, c.chunks[c.next].outside))
    case _ => false
  }

  // Or it waits for dfdmutex behind such a write.
  predicate Waits(h: Hub, c: Conn) {
    InDeadCall(h.dev, c)
    || (c.place.WantLock? && h.owner.Some? && h.owner.value < |h.conns|
        && InDeadCall(h.dev, h.conns[h.owner.value]))
  }

  predicate AllValid(h: Hub) {
    forall t :: 0 <= t < |h.conns| ==>
                  forall i :: 0 <= i < |h.conns[t].chunks| ==> h.conns[t].chunks[i].Valid()
  }

  // When a connection can go on: exactly when it is neither over, nor in a dead
  // call, nor waiting for the mutex.
  lemma CanGoOn(h: Hub, t: nat)
    requires Inv(h) && AllValid(h) && t < |h.conns|
    ensures Enabled(h, Calm(t)) <==>
            !Over(h.conns[t]) && !InDeadCall(h.dev, h.conns[t]) && (h.conns[t].place.WantLock? ==> h.owner.None?)
  {
    hide Serial, RecordedFor, SentInOrder, ReachesRing, SeekTerminates;
    var c := h.conns[t];
    assert ConnOk(h, t, c);
    if c.place.Locked? {
      assert c.chunks[c.next - 1].Valid();
    } else if c.place.Reading? && c.next < |c.chunks| {
      assert c.chunks[c.next].Valid();
    }
  }

  // Nothing can go on exactly when every connection is over or waits for
  // something that does not come.
  lemma AllOverOrWaiting(h: Hub)
    requires Inv(h) && AllValid(h)
    ensures (forall t: nat :: !Enabled(h, Calm(t)))
            <==> forall t :: 0 <= t < |h.conns| ==> Over(h.conns[t]) || Waits(h, h.conns[t])
  {
    hide Serial, RecordedFor, SentInOrder, InDeadCall, AllValid, ConnOk, Enabled;
    forall t: nat | t < |h.conns|
      ensures HoldsMutex(h.conns[t]) <==> h.owner == Some(t)
    {
      OwnsIffHolds(h, t);
    }
    forall t: nat | t < |h.conns|
      ensures Enabled(h, Calm(t)) <==>
              !Over(h.conns[t]) && !InDeadCall(h.dev, h.conns[t]) && (h.conns[t].place.WantLock? ==> h.owner.None?)
    {
      CanGoOn(h, t);
    }
    EnabledInRange(h);
    if forall t: nat :: !Enabled(h, Calm(t)) {
      forall t: nat | t < |h.conns|
        ensures Over(h.conns[t]) || Waits(h, h.conns[t])
      {
        if h.owner.Some? {
          assert !Enabled(h, Calm(h.owner.value));
        }
      }
    } else {
      var t: nat :| Enabled(h, Calm(t));
      assert !(Over(h.conns[t]) || Waits(h, h.conns[t]));
    }
  }

  lemma OwnsIffHolds(h: Hub, t: nat)
    requires Inv(h) && t < |h.conns|
    ensures HoldsMutex(h.conns[t]) <==> h.owner == Some(t)
  {
    assert ConnOk(h, t, h.conns[t]);
  }

  lemma EnabledInRange(h: Hub)
    ensures forall t: nat :: Enabled(h, Calm(t)) ==> t < |h.conns|
  {
  }

  // A write that meets a fault ends its connection and gives dfdmutex back: the
  // rest of its chunks is never sent.
  lemma FailedWriteCloses(h: Hub, t: nat, f: WriteFaults)
    requires Inv(h) && t < |h.conns| && h.conns[t].place.Locked?
    requires var op := Write(h.conns[t].place.buf, 0, f);
             CanIssue(h.dev, op) && !Apply(h.dev, op).1.ret.Count?
    ensures var turn := Turn(t, f, false);
            && Enabled(h, turn) && Enabled(Step(h, turn), Calm(t))
            && var h' := Step(Step(h, turn), Calm(t));
            && |h'.conns| == |h.conns| && h'.conns[t] == h.conns[t].(place := Closed) && h'.owner.None?
            && h'.dev == Apply(h.dev, Write(h.conns[t].place.buf, 0, f)).0
            && forall later: Turn :: later.t == t ==> !Enabled(h', later)
  {
    hide Apply, Returns, Typed, Inv;
  }

  // The steps a connection may still take.
  function Left(c: Conn): nat {
    var n := if c.next < |c.chunks| then |c.chunks| - c.next else 0;
    4 * n + (match c.place
             case Reading => 0
             case WantLock(_) => 3
             case Locked(_) => 2
             case Wrote(_) => 1
             case Closed => 0)
  }

  function AllLeft(conns: seq<Conn>): nat {
    if conns == [] then 0 else Left(conns[0]) + AllLeft(conns[1..])
  }

  lemma {:induction false} AllLeftUpdate(conns: seq<Conn>, t: nat, c: Conn)
    requires t < |conns|
    ensures AllLeft(conns[t := c]) == AllLeft(conns) - Left(conns[t]) + Left(c)
  {
    hide Left;
    if t == 0 {
      assert conns[t := c][1..] == conns[1..];
    } else {
      assert conns[t := c][1..] == conns[1..][t - 1 := c];
      AllLeftUpdate(conns[1..], t - 1, c);
    }
  }

  // Every step, disturbed or not, leaves fewer to take.
  lemma StepLeavesLess(h: Hub, turn: Turn)
    requires Enabled(h, turn)
    ensures AllLeft(Step(h, turn).conns) < AllLeft(h.conns)
  {
    hide Apply, AllLeft, Returns, Typed;
    var h', t := Step(h, turn), turn.t;
    assert h'.conns == h.conns[t := h'.conns[t]];
    AllLeftUpdate(h.conns, t, h'.conns[t]);
  }

  // Any schedule can be continued undisturbed until nothing can go on.
  lemma {:induction false} Completes(inputs: seq<seq<Chunk>>, schedule: seq<Turn>) returns (more: seq<Turn>)
    ensures Undisturbed(more)
    ensures forall t: nat :: !Enabled(Exec(inputs, schedule + more), Calm(t))
    decreases AllLeft(Exec(inputs, schedule).conns)
  {
    hide Step, Enabled, AllLeft;
    var h := Exec(inputs, schedule);
    if t: nat :| Enabled(h, Calm(t)) {
      var turn := Calm(t);
      assert (schedule + [turn])[..|schedule|] == schedule;
      StepLeavesLess(h, turn);
      var rest := Completes(inputs, schedule + [turn]);
      more := [turn] + rest;
      assert schedule + more == (schedule + [turn]) + rest;
    } else {
      more := [];
      assert schedule + more == schedule;
    }
  }

  predicate AllData(chunks: seq<Chunk>) {
    forall i :: 0 <= i < |chunks| ==> chunks[i].Data?
  }

  // Without seek commands cb_mutex is not lost.
  lemma {:induction false} NeverLost(inputs: seq<seq<Chunk>>, schedule: seq<Turn>)
    requires forall t :: 0 <= t < |inputs| ==> AllData(inputs[t])
    ensures !Exec(inputs, schedule).dev.cbHeld
  {
    hide Serial, RecordedFor, ApplyWrite, Inv, Returns, SentInOrder;
    if schedule != [] {
      var n := |schedule| - 1;
      NeverLost(inputs, schedule[..n]);
      ExecInv(inputs, schedule[..n]);
      var h, turn := Exec(inputs, schedule[..n]), schedule[n];
      if Enabled(h, turn) {
        assert AllData(h.conns[turn.t].chunks);
        if h.conns[turn.t].place.Locked? {
          WriteOutcome(h.dev, h.conns[turn.t].place.buf, 0, turn.faults);
        }
      }
    }
  }

  // When no write meets a fault and every chunk is one complete line, a schedule
  // after which nothing can go on has sent every chunk of every connection: the
  // calls of each are its whole input, and the history is all of them.
  lemma EveryLineArrives(inputs: seq<seq<Chunk>>, schedule: seq<Turn>)
    requires Undisturbed(schedule)
    requires forall t :: 0 <= t < |inputs| ==> WholeLines(inputs[t]) && AllData(inputs[t])
    requires forall t: nat :: !Enabled(Exec(inputs, schedule), Calm(t))
    ensures var h := Exec(inputs, schedule);
            && |h.conns| == |inputs| && FromConns(h.issued, |inputs|) && h.dev.log == Written(h.issued)
            && forall t: nat | t < |inputs| ::
                 && h.conns[t].chunks == inputs[t] && Sent(h.conns[t]) == |inputs[t]|
                 && SentInOrder(RecordedFor(h.issued, t), h.conns[t])
  {
    hide Serial, Replay, RecordedFor, Exec, Written, Undisturbed, SentInOrder, Enabled, FromConns;
    WholeLinesSurvive(inputs, schedule);
    NeverLost(inputs, schedule);
    ExecInv(inputs, schedule);
    var h := Exec(inputs, schedule);
    LinesAreValid(inputs, h);
    AllOverOrWaiting(h);
    forall t: nat | t < |inputs|
      ensures Sent(h.conns[t]) == |inputs[t]|
    {
      assert !Failed(h.conns[t]);
      NotWaiting(inputs, h, t);
    }
  }

  lemma NotWaiting(inputs: seq<seq<Chunk>>, h: Hub, t: nat)
    requires t < |h.conns| == |inputs| && !h.dev.cbHeld
    requires forall u: nat | u < |inputs| :: h.conns[u].chunks == inputs[u] && AllData(inputs[u])
    ensures !Waits(h, h.conns[t])
  {
  }

  lemma LinesAreValid(inputs: seq<seq<Chunk>>, h: Hub)
    requires |h.conns| == |inputs|
    requires forall t: nat | t < |inputs| :: h.conns[t].chunks == inputs[t] && WholeLines(inputs[t]) && AllData(inputs[t])
    ensures AllValid(h)
  {
  }

  // And there is such a schedule.
  lemma SomeScheduleSendsAll(inputs: seq<seq<Chunk>>) returns (schedule: seq<Turn>)
    requires forall t :: 0 <= t < |inputs| ==> WholeLines(inputs[t]) && AllData(inputs[t])
    ensures Undisturbed(schedule)
    ensures var h := Exec(inputs, schedule);
            |h.conns| == |inputs| && forall t: nat | t < |inputs| :: Sent(h.conns[t]) == |inputs[t]|
  {
    hide Exec, Enabled, Undisturbed, WholeLines, AllData, Sent, Serial, SentInOrder, RecordedFor;
    schedule := Completes(inputs, []);
    assert [] + schedule == schedule;
    EveryLineArrives(inputs, schedule);
  }
}
