// appenddata of aesdsocket.c on the character device: each chunk read from the
// socket becomes a write or a seek, and a chunk shorter than the buffer makes
// the server send back what the device holds.
module Server {
  import opened Words
  import opened CommandLog
  import opened Lookup
  import opened CircularBuffers
  import opened DeviceModel
  import opened Devices

  const BUFFER_LENGTH: nat := 1024

  // What a complete drain of the device delivers: the ring's content from the
  // seek offset on.
  function Echo(d: Dev): seq<byte> {
    From(d.Content(), d.seek)
  }

  function From(s: seq<byte>, k: nat): seq<byte> {
    s[if k < |s| then k else |s|..]
  }

  // What can go wrong while draining, and after how many reads: the read is
  // interrupted or faults, or the socket takes only wc bytes (-1 for none).
  datatype Trouble =
    | Smooth
    | ReadInterrupted(after: nat)
    | ReadFaults(after: nat)
    | SocketShort(after: nat, wc: int)

  // One pread of the drain loop: it continues exactly where the last one ended.
  lemma ReadAdvances(d: Dev, pos: nat, count: nat)
    requires WellFormed(d) && pos <= |Echo(d)| && count >= 1
    ensures var r := ApplyRead(d, pos, count, false, false);
            && r.ret == Count(|r.data|) && pos + |r.data| <= |Echo(d)|
            && r.data == Echo(d)[pos..pos + |r.data|]
            && (|r.data| == 0 <==> pos == |Echo(d)|)
  {
    hide Flatten, LastTen, Sum, Locate, ApplyRead;
    ContentBound(d);
    ReadIsSlice(d, pos, count);
  }

  // When it fails, and that otherwise it gives what an undisturbed one gives.
  lemma PreadFails(d: Dev, pos: nat, count: nat, interrupt: bool, copyFails: bool)
    requires WellFormed(d) && pos <= |Echo(d)|
    ensures var r := ApplyRead(d, pos, count, interrupt, copyFails);
            && (!r.ret.Count? <==> interrupt || (copyFails && pos < |Echo(d)|))
            && (r.ret.Count? ==> r == ApplyRead(d, pos, count, false, false))
  {
    hide Flatten, LastTen, Sum, Locate, ApplyRead;
    ContentBound(d);
    ReadOutcome(d, pos, count, interrupt, copyFails);
  }

  lemma EchoBound(d: Dev)
    requires WellFormed(d)
    ensures |Echo(d)| <= CONTENT_LIMIT
  {
    ContentBound(d);
  }

  // The position after k undisturbed reads from the start.
  function PosAfter(d: Dev, bufLen: nat, k: nat): nat {
    if k == 0 then 0
    else
      var p := PosAfter(d, bufLen, k - 1);
      p + |ApplyRead(d, p, bufLen, false, false).data|
  }

  // pread on the device at a position that is not past the echo's end.
  method Pread(dev: Device, pos: nat, bufLen: nat, interrupt: bool, copyFails: bool) returns (rc: int, data: seq<byte>)
    requires dev.Valid() && !dev.cbHeld && pos <= |Echo(dev.View())| && 1 <= bufLen < 0x8000_0000
    modifies dev`cbHeld
    ensures dev.Valid() && dev.View() == old(dev.View())
    ensures rc == -1 <==> interrupt || (copyFails && pos < |Echo(dev.View())|)
    ensures rc != -1 ==> !interrupt && rc == |data| && pos + rc <= |Echo(dev.View())|
    ensures rc != -1 ==> data == Echo(dev.View())[pos..pos + rc] && (rc == 0 <==> pos == |Echo(dev.View())|)
    ensures rc != -1 ==> data == ApplyRead(dev.View(), pos, bufLen, false, false).data
  {
    hide Echo, ApplyRead, WellFormed, Flatten, LastTen;
    EchoBound(dev.View());
    ReadAdvances(dev.View(), pos, bufLen);
    PreadFails(dev.View(), pos, bufLen, interrupt, copyFails);
    var r := dev.Read(pos, bufLen, interrupt, copyFails);
    data := r.data;
    rc := if r.ret.Count? then r.ret.n else -1;
  }

  // The undisturbed reads advance until the echo's end, and stay there.
  lemma {:induction false} PosAdvances(d: Dev, bufLen: nat, k: nat)
    requires WellFormed(d) && bufLen >= 1
    ensures PosAfter(d, bufLen, k) <= PosAfter(d, bufLen, k + 1) <= |Echo(d)|
    ensures PosAfter(d, bufLen, k) == PosAfter(d, bufLen, k + 1) <==> PosAfter(d, bufLen, k) == |Echo(d)|
  {
    hide Echo, ApplyRead;
    if k > 0 {
      PosAdvances(d, bufLen, k - 1);
    }
    ReadAdvances(d, PosAfter(d, bufLen, k), bufLen);
  }

  lemma {:induction false} PosStays(d: Dev, bufLen: nat, k: nat, m: nat)
    requires WellFormed(d) && bufLen >= 1 && k <= m && PosAfter(d, bufLen, k) == |Echo(d)|
    ensures PosAfter(d, bufLen, m) == |Echo(d)|
  {
    hide Echo, PosAfter;
    if k < m {
      PosStays(d, bufLen, k, m - 1);
      PosAdvances(d, bufLen, m - 1);
    }
  }

  // The trouble meets the drain: an interrupted read is one that is made at
  // all, that is, the read before it was not the one that found the end; a
  // faulting read has bytes to copy; and a short socket write takes fewer bytes
  // than its read gave.
  predicate Strikes(d: Dev, bufLen: nat, trouble: Trouble) {
    match trouble
    case Smooth => false
    case ReadInterrupted(after) => after == 0 || PosAfter(d, bufLen, after - 1) < |Echo(d)|
    case ReadFaults(after) => PosAfter(d, bufLen, after) < |Echo(d)|
    case SocketShort(after, wc) =>
      && PosAfter(d, bufLen, after) < |Echo(d)|
      && wc < PosAfter(d, bufLen, after + 1) - PosAfter(d, bufLen, after)
  }

  // Trouble at a read that the drain has passed, or will not make, has not
  // struck and will not.
  lemma NoStrike(d: Dev, bufLen: nat, trouble: Trouble, calls: nat)
    requires WellFormed(d) && bufLen >= 1 && !trouble.Smooth?
    requires PosAfter(d, bufLen, calls) == |Echo(d)| && (trouble.ReadInterrupted? ==> trouble.after > calls)
    requires trouble.after < calls ==> !Strikes(d, bufLen, trouble)
    ensures !Strikes(d, bufLen, trouble)
  {
    hide Echo, PosAfter;
    if trouble.ReadInterrupted? {
      PosStays(d, bufLen, calls, trouble.after - 1);
    } else if trouble.after >= calls {
      PosStays(d, bufLen, calls, trouble.after);
    }
  }

  // The drain loop. Whatever the buffer length and the seek offset, it ends. It
  // fails exactly when its trouble strikes, and then what was sent is what the
  // reads before it gave and the bytes the socket still took; otherwise it sends
  // all of the echo, with one read more than it takes to get to the end.
  // The position never leaves the range of int.
  method Drain(dev: Device, bufLen: nat, trouble: Trouble) returns (sent: seq<byte>, ok: bool, calls: nat)
    requires dev.Valid() && !dev.cbHeld && 1 <= bufLen < 0x8000_0000
    modifies dev`cbHeld
    ensures dev.Valid() && dev.View() == old(dev.View())
    ensures sent <= Echo(dev.View()) && 1 <= calls <= |Echo(dev.View())| + 1
    ensures ok <==> !Strikes(dev.View(), bufLen, trouble)
    ensures ok ==> sent == Echo(dev.View()) && PosAfter(dev.View(), bufLen, calls - 1) == |sent|
    ensures !ok ==> calls == trouble.after + 1
    ensures !ok ==> |sent| == PosAfter(dev.View(), bufLen, trouble.after)
                              + (if trouble.SocketShort? && trouble.wc > 0 then trouble.wc else 0)
  {
    hide Echo, ApplyRead, Flatten, LastTen, Device.Valid, WellFormed;
    dev.RingShape();
    ghost var d := dev.View();
    ghost var all := Echo(d);
    sent, ok, calls := [], false, 0;
    var pos, rc := 0, -1;
    dev.IsWellFormed();
    EchoBound(d);
    while rc != 0
      invariant dev.Valid() && dev.View() == d
      invariant 0 <= pos <= |all| <= CONTENT_LIMIT < 0x8000_0000
      invariant sent == all[..pos] && !ok && calls <= pos
      invariant rc != 0 && pos == PosAfter(d, bufLen, calls)
      invariant calls > 0 ==> PosAfter(d, bufLen, calls - 1) < |all|
      invariant !trouble.Smooth? && trouble.after < calls ==> !trouble.ReadInterrupted? && !Strikes(d, bufLen, trouble)
      decreases |all| - pos
    {
      var interrupt := trouble.ReadInterrupted? && trouble.after == calls;
      var faults := trouble.ReadFaults? && trouble.after == calls;
      var data;
      rc, data := Pread(dev, pos, bufLen, interrupt, faults);
      calls := calls + 1;
      if rc == -1 {
        return;
      } else if rc != 0 {
        if trouble.SocketShort? && trouble.after == calls - 1 && trouble.wc < rc {
          var wc := if trouble.wc < 0 then 0 else trouble.wc;
          sent := sent + data[..wc];
          return;
        }
        sent := sent + data;
      } else {
        if !trouble.Smooth? {
          NoStrike(d, bufLen, trouble, calls - 1);
        }
        ok := true;
        break;
      }
      pos := pos + rc;
    }
  }

  // ---- one connection ----

  // What one socket read delivers, already classified: bytes for the device, or
  // a seek command of `length` bytes.
  datatype Chunk =
    | Data(bytes: seq<byte>)
    | SeekCommand(length: nat, cmd: nat, offset: nat, outside: nat)
  {
    function Length(): nat { if Data? then |bytes| else length }

    predicate Valid() {
      && 1 <= Length() <= BUFFER_LENGTH
      && (SeekCommand? ==> cmd < TWO_TO_32 && offset < TWO_TO_32 && outside < TWO_TO_64)
    }
  }

  // Blocked: the thread waits for a mutex that nobody will unlock. Spinning: it
  // never comes back from a seek and keeps cb_mutex.
  datatype Outcome = Finished | WriteFailed | Blocked | Spinning

  // `weHeld` says that a blocked thread holds we_mutex, and with it dfdmutex.
  datatype Session = Session(dev: Dev, weHeld: bool, echoes: seq<seq<byte>>, outcome: Outcome)

  // The device after one chunk, whether we_mutex is taken for good, and whether
  // and why the connection goes no further. A write that blocks has put its
  // bytes into the working entry.
  function Dispatch(d: Dev, weHeld: bool, c: Chunk): (Dev, bool, Outcome) {
    if c.Data? then
      if weHeld then (d, true, Blocked)
      else if !Returns(d, Write(c.bytes, 0, NO_FAULTS)) then (d.(pending := d.pending + c.bytes), true, Blocked)
      else if !Fits(d, c.bytes) then (d, false, WriteFailed)
      else (ApplyWrite(d, c.bytes, 0, NO_FAULTS).0, false, Finished)
    else if d.cbHeld then (d, weHeld, Blocked)
    else if !SeekTerminates(c.cmd, c.offset, c.outside) then (d.(cbHeld := true), weHeld, Spinning)
    else (ApplySeek(d, c.cmd, c.offset, c.outside, false).0, weHeld, Finished)
  }

  // One chunk without faults: it is dispatched, and if it did not fill the
  // buffer the device is read out.
  function ServeOne(d: Dev, weHeld: bool, c: Chunk): Session {
    var (e, we, outcome) := Dispatch(d, weHeld, c);
    if !outcome.Finished? || c.Length() >= BUFFER_LENGTH then Session(e, we, [], outcome)
    else if e.cbHeld then Session(e, we, [], Blocked)
    else Session(e, we, [Echo(e)], Finished)
  }

  // A whole connection: every chunk in turn, as long as it goes on.
  function Serve(d: Dev, weHeld: bool, chunks: seq<Chunk>): Session
    decreases |chunks|
  {
    if chunks == [] then Session(d, weHeld, [], Finished)
    else
      var one := ServeOne(d, weHeld, chunks[0]);
      if !one.outcome.Finished? then one
      else
        var rest := Serve(one.dev, one.weHeld, chunks[1..]);
        rest.(echoes := one.echoes + rest.echoes)
  }

  // One chunk of a connection.
  lemma ServeStep(d: Dev, weHeld: bool, chunks: seq<Chunk>, i: nat)
    requires i < |chunks|
    ensures var one := ServeOne(d, weHeld, chunks[i]);
            var rest := Serve(one.dev, one.weHeld, chunks[i + 1..]);
            Serve(d, weHeld, chunks[i..])
            == if one.outcome.Finished? then rest.(echoes := one.echoes + rest.echoes) else one
  {
    hide ServeOne;
    assert chunks[i..][1..] == chunks[i + 1..];
  }

  // Up to its wait for cb_mutex a write that blocks does what one does whose
  // wait is interrupted, but it keeps we_mutex.
  method DispatchChunk(dev: Device, c: Chunk) returns (outcome: Outcome)
    requires dev.Valid() && c.Valid()
    modifies dev, dev.weBuf, dev.cb, dev.cb.entry
    ensures dev.Valid()
    ensures (dev.View(), dev.weHeld, outcome) == Dispatch(old(dev.View()), old(dev.weHeld), c)
  {
    hide Lengths, LastTen, CircularBuffer.Valid, Accounted, Stored, Entries;
    if c.Data? {
      if dev.weHeld {
        return Blocked;
      }
      if dev.cbHeld {
        var nl := FirstNewline(c.bytes);
        if dev.weIndex + |c.bytes| <= ENTRY_LIMIT && nl < |c.bytes| {
          dev.weHeld := true;
          var _ := dev.WriteLocked(c.bytes, 0, NO_FAULTS.(interruptCb := true));
          return Blocked;
        }
      }
      var r := dev.Write(c.bytes, 0, NO_FAULTS);
      outcome := if r.ret.Count? then Finished else WriteFailed;
    } else {
      if dev.cbHeld {
        return Blocked;
      }
      if c.cmd == 0xFFFF_FFFF && Unsigned32(c.offset + 1) <= c.outside {
        dev.cbHeld := true;
        return Spinning;
      }
      var _ := dev.AdjustFileOffset(c.cmd, c.offset, c.outside, false);
      outcome := Finished;
    }
  }

  method ServeChunk(dev: Device, c: Chunk) returns (echoes: seq<seq<byte>>, outcome: Outcome)
    requires dev.Valid() && c.Valid()
    modifies dev, dev.weBuf, dev.cb, dev.cb.entry
    ensures dev.Valid()
    ensures Session(dev.View(), dev.weHeld, echoes, outcome) == ServeOne(old(dev.View()), old(dev.weHeld), c)
  {
    hide Echo, Dispatch, Device.Valid, WellFormed, LastTen;
    dev.RingShape();
    echoes := [];
    outcome := DispatchChunk(dev, c);
    dev.RingShape();
    if outcome.Finished? && c.Length() < BUFFER_LENGTH {
      if dev.cbHeld {
        return [], Blocked;
      }
      var sent, _, _ := Drain(dev, BUFFER_LENGTH, Smooth);
      echoes := [sent];
    }
  }

  // The loop of appenddata. The position argument of write plays no part.
  method AppendData(dev: Device, chunks: seq<Chunk>) returns (echoes: seq<seq<byte>>, outcome: Outcome)
    requires dev.Valid() && forall i :: 0 <= i < |chunks| ==> chunks[i].Valid()
    modifies dev, dev.weBuf, dev.cb, dev.cb.entry
    ensures dev.Valid()
    ensures Session(dev.View(), dev.weHeld, echoes, outcome) == Serve(old(dev.View()), old(dev.weHeld), chunks)
  {
    hide Serve, ServeOne, Device.Valid, WellFormed, LastTen, Chunk.Valid;
    dev.RingShape();
    echoes, outcome := [], Finished;
    ghost var whole := Serve(dev.View(), dev.weHeld, chunks);
    var i := 0;
    while i < |chunks|
      invariant i <= |chunks| && dev.Valid() && outcome == Finished && dev.weIndex <= dev.weBuf.Length
      invariant var rest := Serve(dev.View(), dev.weHeld, chunks[i..]);
                whole == rest.(echoes := echoes + rest.echoes)
    {
      ServeStep(dev.View(), dev.weHeld, chunks, i);
      var answer;
      answer, outcome := ServeChunk(dev, chunks[i]);
      dev.RingShape();
      echoes := echoes + answer;
      if !outcome.Finished? {
        return;
      }
      i := i + 1;
    }
    ServeNothing(dev.View(), dev.weHeld, chunks[i..]);
  }

  lemma ServeNothing(d: Dev, weHeld: bool, chunks: seq<Chunk>)
    requires chunks == []
    ensures Serve(d, weHeld, chunks) == Session(d, weHeld, [], Finished)
  {
  }

  // ---- what a client sees ----

  // What one chunk does, by outcome: one that goes through is one undisturbed
  // call of the device. A seek command never touches the history
  // or the unfinished line; a write that fails changes nothing; a write that
  // blocks commits nothing, but its bytes are in the working entry and it keeps
  // we_mutex.
  lemma DispatchOutcome(d: Dev, weHeld: bool, c: Chunk)
    requires c.Valid()
    ensures var (e, we, outcome) := Dispatch(d, weHeld, c);
            var waits := d.cbHeld && (c.Data? ==> Fits(d, c.bytes) && !NoNewline(c.bytes));
            && (outcome.Blocked? <==> (c.Data? && weHeld) || waits)
            && (outcome.WriteFailed? <==> c.Data? && !weHeld && !Fits(d, c.bytes))
            && (outcome.Spinning? <==> c.SeekCommand? && !d.cbHeld && !SeekTerminates(c.cmd, c.offset, c.outside))
            && (c.SeekCommand? ==> e.log == d.log && e.pending == d.pending && we == weHeld)
            && (c.Data? ==> e.seek == d.seek && e.cbHeld == d.cbHeld && we == (weHeld || outcome.Blocked?))
            && (outcome.WriteFailed? || (c.Data? && weHeld) ==> e == d)
            && (c.Data? && !weHeld && outcome.Blocked? ==> e.log == d.log && e.pending == d.pending + c.bytes)
            && (outcome.Finished? ==> e == if c.Data? then ApplyWrite(d, c.bytes, 0, NO_FAULTS).0
                                           else ApplySeek(d, c.cmd, c.offset, c.outside, false).0)
  {
    hide PassesChecks, FlatPosition;
    if c.Data? {
      WriteOutcome(d, c.bytes, 0, NO_FAULTS);
    }
  }

  // A connection can be cut anywhere: it is served as its first part is, and if
  // that goes through, then as its second part is on what the first has left.
  lemma {:induction false} ServeAppend(d: Dev, weHeld: bool, first: seq<Chunk>, second: seq<Chunk>)
    ensures var r := Serve(d, weHeld, first);
            var rest := Serve(r.dev, r.weHeld, second);
            Serve(d, weHeld, first + second)
            == if r.outcome.Finished? then rest.(echoes := r.echoes + rest.echoes) else r
    decreases |first|
  {
    hide ServeOne;
    if first == [] {
      assert first + second == second;
    } else {
      assert (first + second)[1..] == first[1..] + second;
      var one := ServeOne(d, weHeld, first[0]);
      if one.outcome.Finished? {
        ServeAppend(one.dev, one.weHeld, first[1..], second);
      }
    }
  }

  // The seek offset for a command number and an offset, in bytes: those of the
  // commands before it, and the offset.
  function PositionIn(window: seq<Command>, cmd: nat, offset: nat): nat
    requires cmd < |window|
  {
    |Flatten(window[..cmd])| + offset
  }

  // Received so far is stream s. Each chunk is data the device has room for, or
  // a seek command to a live position that passes the tests.
  predicate Servable(s: seq<byte>, chunks: seq<Chunk>)
    decreases |chunks|
  {
    chunks == []
    || (var c := chunks[0];
        if c.Data? then |Rest(s)| + |c.bytes| <= ENTRY_LIMIT && Servable(s + Cut(c.bytes), chunks[1..])
        else
          && IsLivePosition(Lines(s), c.cmd, c.offset)
          && PassesChecks(Lines(s), c.cmd, c.offset, c.outside) && Servable(s, chunks[1..]))
  }

  // All data received: seek commands add nothing to it.
  function Received(s: seq<byte>, chunks: seq<Chunk>): seq<byte>
    decreases |chunks|
  {
    if chunks == [] then s
    else Received(if chunks[0].Data? then s + Cut(chunks[0].bytes) else s, chunks[1..])
  }

  // The answers to the short chunks: the last ten complete lines of everything
  // received, from the seek position then in force on.
  function LastTenLines(s: seq<byte>, seek: nat, chunks: seq<Chunk>): seq<seq<byte>>
    requires Servable(s, chunks)
    decreases |chunks|
  {
    if chunks == [] then []
    else
      var c := chunks[0];
      var s' := if c.Data? then s + Cut(c.bytes) else s;
      var window := LastTen(Lines(s'));
      var seek' := if c.Data? then seek else PositionIn(window, c.cmd, c.offset);
      (if c.Length() < BUFFER_LENGTH then [From(Flatten(window), seek')] else [])
      + LastTenLines(s', seek', chunks[1..])
  }

  // One seek chunk on a device that stands for stream s.
  lemma SeekKeepsStream(d: Dev, s: seq<byte>, c: Chunk)
    requires d.log == Lines(s) && d.pending == Rest(s) && !d.cbHeld && c.SeekCommand?
    requires IsLivePosition(d.log, c.cmd, c.offset) && PassesChecks(d.log, c.cmd, c.offset, c.outside)
    ensures Dispatch(d, false, c)
            == (d.(seek := PositionIn(d.Window(), c.cmd, c.offset)), false, Finished)
  {
    hide Lines, Rest, Flatten, Sum;
    var w := d.Window();
    FlattenLength(w[..c.cmd]);
    assert Lengths(w)[..c.cmd] == Lengths(w[..c.cmd]);
  }

  // End to end: a client that mixes data the device has room for with seek
  // commands that are accepted for live positions, in any order, is served to
  // the end. Each echo is exactly the last ten complete lines of all data
  // received so far, each chunk cut after its first newline, from the seek
  // position in force on; and the history and the unfinished line left behind
  // are those of all the data received.
  lemma {:induction false} EchoTheorem(d: Dev, s: seq<byte>, chunks: seq<Chunk>)
    requires d.log == Lines(s) && d.pending == Rest(s) && !d.cbHeld
    requires Servable(s, chunks)
    ensures var r := Serve(d, false, chunks);
            && r.outcome == Finished && !r.weHeld && !r.dev.cbHeld
            && r.echoes == LastTenLines(s, d.seek, chunks)
            && r.dev.log == Lines(Received(s, chunks)) && r.dev.pending == Rest(Received(s, chunks))
    decreases |chunks|
  {
    hide Lines, Rest, Flatten, LastTen, FirstNewline, Cut, From, PositionIn, ApplySeek, PassesChecks, IsLivePosition;
    if chunks != [] {
      var c := chunks[0];
      if c.Data? {
        WriteExtendsStream(d, s, c.bytes);
        EchoTheorem(ApplyWrite(d, c.bytes, 0, NO_FAULTS).0, s + Cut(c.bytes), chunks[1..]);
      } else {
        LiveIsInWindow(d.log, c.cmd, c.offset);
        SeekKeepsStream(d, s, c);
        EchoTheorem(d.(seek := PositionIn(d.Window(), c.cmd, c.offset)), s, chunks[1..]);
      }
    }
  }

  lemma LiveIsInWindow(log: seq<Command>, cmd: nat, offset: nat)
    requires IsLivePosition(log, cmd, offset)
    ensures cmd < |LastTen(log)|
  {
  }

  // A chunk the device has no room for ends the connection: what came before it
  // has been served, the chunk leaves nothing behind, and what follows it is
  // never read.
  lemma FullDeviceEndsSession(d: Dev, s: seq<byte>, chunks: seq<Chunk>, c: Chunk, later: seq<Chunk>)
    requires d.log == Lines(s) && d.pending == Rest(s) && !d.cbHeld
    requires Servable(s, chunks) && c.Data? && c.Valid()
    requires |Rest(Received(s, chunks))| + |c.bytes| > ENTRY_LIMIT
    ensures var r := Serve(d, false, chunks + ([c] + later));
            && r.outcome == WriteFailed && r.echoes == LastTenLines(s, d.seek, chunks)
            && r.dev == Serve(d, false, chunks).dev && !r.weHeld
  {
    hide Lines, Rest, Flatten, LastTen, FirstNewline, Received, Servable, Dispatch;
    EchoTheorem(d, s, chunks);
    ServeAppend(d, false, chunks, [c] + later);
    DispatchOutcome(Serve(d, false, chunks).dev, false, c);
    assert ([c] + later)[1..] == later;
  }

  // A seek command to a live position is answered with everything from that
  // byte of that command on.
  lemma SeekEcho(d: Dev, weHeld: bool, c: Chunk)
    requires WellFormed(d) && !d.cbHeld && c.SeekCommand? && c.Length() < BUFFER_LENGTH
    requires IsLivePosition(d.log, c.cmd, c.offset) && PassesChecks(d.log, c.cmd, c.offset, c.outside)
    ensures var cur, after := d.Window()[c.cmd], d.Window()[c.cmd + 1..];
            Serve(d, weHeld, [c]).echoes == [cur[c.offset..] + Flatten(after)]
  {
    hide Flatten, LastTen, Lengths, FlatPosition;
    ContentFrom(d.Window(), c.cmd, c.offset);
    assert [c][1..] == [];
  }

  // The concatenation from a byte of one of its parts on.
  lemma ContentFrom(w: seq<Command>, k: nat, o: nat)
    requires k < |w| && o < |w[k]|
    ensures var p := FlatPosition(Lengths(w), k, o);
            p <= |Flatten(w)| && Flatten(w)[p..] == w[k][o..] + Flatten(w[k + 1..])
  {
    hide Flatten, Sum;
    var before, cur, after := w[..k], w[k], w[k + 1..];
    assert Lengths(w)[..k] == Lengths(before);
    FlattenLength(before);
    assert w == before + ([cur] + after);
    FlattenAppend(before, [cur] + after);
    FlattenHead(cur, after);
  }

  // When a seek command ends the service: when the tests turn it away, or its
  // loop never ends.
  lemma SeekEndsServiceExact(d: Dev, weHeld: bool, c: Chunk)
    requires c.SeekCommand? && c.Valid() && !d.cbHeld
    ensures Dispatch(d, weHeld, c).0.cbHeld
            <==> !PassesChecks(d.log, c.cmd, c.offset, c.outside) || CountsForever(c.cmd)
  {
    hide PassesChecks, CountsForever, SeekTerminates, FlatPosition;
    SpinsExact(d.log, c.cmd, c.offset, c.outside);
  }

  // Then it ends for every connection: whatever is sent afterwards, no echo is
  // given and nothing is committed, and only chunks of data that fill the
  // buffer are still accepted, as long as none has blocked in a write.
  lemma {:induction false} LostMutexEndsService(d: Dev, weHeld: bool, chunks: seq<Chunk>)
    requires d.cbHeld && forall i :: 0 <= i < |chunks| ==> chunks[i].Valid()
    ensures var r := Serve(d, weHeld, chunks);
            && r.echoes == [] && r.dev.log == d.log && r.dev.seek == d.seek && r.dev.cbHeld
            && (weHeld ==> r.weHeld && r.dev == d)
            && (r.outcome.Finished? ==>
                  && (chunks != [] ==> !weHeld)
                  && forall i :: 0 <= i < |chunks| ==> chunks[i].Data? && chunks[i].Length() == BUFFER_LENGTH)
    decreases |chunks|
  {
    if chunks != [] {
      HeldDispatch(d, weHeld, chunks[0]);
      var (e, we, _) := Dispatch(d, weHeld, chunks[0]);
      LostMutexEndsService(e, we, chunks[1..]);
      assert forall i :: 0 < i < |chunks| ==> chunks[i] == chunks[1..][i - 1];
    }
  }

  lemma HeldDispatch(d: Dev, weHeld: bool, c: Chunk)
    requires d.cbHeld && c.Valid()
    ensures var (e, we, outcome) := Dispatch(d, weHeld, c);
            && e.cbHeld && e.log == d.log && e.seek == d.seek
            && (weHeld ==> we && e == d && outcome.Blocked?)
            && (outcome.Finished? ==> c.Data?)
  {
  }
}
