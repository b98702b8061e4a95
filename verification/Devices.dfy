// The device as main.c has it: a working entry, a ring of heap buffers, a
// running size, a seek offset and two mutexes, changed in place. Every
// operation is proved equal to its function in DeviceModel.
module Devices {
  import opened Words
  import opened CommandLog
  import opened Lookup
  import opened CircularBuffers
  import opened DeviceModel

  // Buffer b holds command c and the terminating zero.
  ghost predicate Holds(b: array<byte>, c: Command)
    reads b
  {
    b.Length == |c| + 1 && b[..|c|] == c && b[|c|] == 0
  }

  lemma HeldSlice(b: array<byte>, c: Command, p: nat, m: nat)
    requires Holds(b, c) && p + m <= |c|
    ensures b[p..p + m] == c[p..][..m]
  {
    assert forall i :: p <= i < p + m ==> b[i] == b[..|c|][i];
  }

  ghost predicate Distinct<T>(xs: seq<T>) {
    xs == [] || (Distinct(xs[..|xs| - 1]) && xs[|xs| - 1] !in xs[..|xs| - 1])
  }

  lemma {:induction false} DistinctPair<T>(xs: seq<T>, i: nat, j: nat)
    requires Distinct(xs) && i < j < |xs|
    ensures xs[i] != xs[j]
  {
    var init := xs[..|xs| - 1];
    if j < |init| {
      DistinctPair(init, i, j);
    } else {
      assert xs[i] == init[i];
    }
  }

  ghost function Entries(buffers: seq<array<byte>>, log: seq<Command>): (es: seq<Entry>)
    requires |buffers| == |log|
    ensures |es| == |log|
    ensures forall i :: 0 <= i < |log| ==> es[i] == Entry(buffers[i], |log[i]|)
  {
    seq(|log|, i requires 0 <= i < |log| => Entry(buffers[i], |log[i]|))
  }

  lemma EntriesExtend(buffers: seq<array<byte>>, log: seq<Command>, b: array<byte>, c: Command)
    requires |buffers| == |log|
    ensures Entries(buffers + [b], log + [c]) == Entries(buffers, log) + [Entry(b, |c|)]
  {
  }

  // The unsigned update `cb_size += finished - oldsize` is exact, also when the
  // displaced entry is the larger one and the difference wraps.
  lemma SizeUpdate(total: nat, finished: nat, displaced: nat)
    requires displaced <= total < TWO_TO_32 && finished < TWO_TO_32
    ensures Signed64(Unsigned64(total) + Unsigned64(finished - displaced)) == total + finished - displaced
  {
    if finished < displaced {
      assert Unsigned64(finished - displaced) == finished - displaced + TWO_TO_64;
    }
  }

  lemma DistinctExtend<T>(xs: seq<T>, x: T)
    requires Distinct(xs) && x !in xs
    ensures Distinct(xs + [x])
  {
    assert (xs + [x])[..|xs|] == xs;
  }

  lemma SumEmpty()
    ensures Sum([]) == 0
  {
  }

  // The read position is summed as size_t, stored as ssize_t and cast back.
  lemma PositionSum(fpos: int, offs: nat)
    ensures Unsigned64(Signed64(Unsigned64(fpos) + offs)) == Unsigned64(fpos + offs)
  {
  }

  // One more step of a walk over live sizes.
  lemma FlatStep(ns: seq<nat>, i: nat)
    ensures FlatPosition(ns, i + 1, 0) == FlatPosition(ns, i, 0) + (if i < |ns| then ns[i] else 0)
  {
    if i < |ns| {
      SumTake(ns, i);
    }
  }

  // A position in the working entry seen from the start of the new bytes.
  lemma FirstNewlineIs(pending: seq<byte>, buf: seq<byte>, all: seq<byte>, s: nat)
    requires all == pending + buf && |pending| <= s <= |all|
    requires forall k :: |pending| <= k < s ==> all[k] != NEWLINE
    requires s < |all| ==> all[s] == NEWLINE
    ensures FirstNewline(buf) == s - |pending|
  {
    forall k | 0 <= k < s - |pending|
      ensures buf[k] != NEWLINE
    {
      assert buf[k] == all[|pending| + k];
    }
    FirstNewlineUnique(buf, s - |pending|);
  }

  // Memory is the working entry, the buffers in slots and the unowned ones,
  // all different from each other and from every buffer freed before.
  ghost predicate Accounted(we: array<byte>, buffers: seq<array<byte>>, unowned: set<array<byte>>,
                            heap: set<array<byte>>)
  {
    && Distinct(buffers) && we !in buffers && we !in unowned
    && (forall b :: b in unowned ==> b !in buffers)
    && heap == {we} + Elements(LastTen(buffers)) + unowned
  }

  // Each live entry's buffer holds its command.
  ghost predicate Stored(buffers: seq<array<byte>>, log: seq<Command>)
    requires |buffers| == |log|
    reads buffers
  {
    forall i :: 0 <= i < |LastTen(log)| ==> Holds(LastTen(buffers)[i], LastTen(log)[i])
  }

  // The buffers a commit displaces from their slots: none or one.
  ghost function Displaced(buffers: seq<array<byte>>): set<array<byte>> {
    if |buffers| < 10 then {} else {buffers[|buffers| - 10]}
  }

  lemma ElementsConcat<T>(xs: seq<T>, ys: seq<T>)
    ensures Elements(xs + ys) == Elements(xs) + Elements(ys)
  {
  }

  // The full window is the item about to fall out and nine others.
  lemma WindowSplit<T>(xs: seq<T>, x: T)
    requires |xs| >= 10
    ensures LastTen(xs) == [xs[|xs| - 10]] + xs[|xs| - 9..]
    ensures LastTen(xs + [x]) == xs[|xs| - 9..] + [x]
  {
  }

  lemma OldestIsElsewhere<T>(xs: seq<T>)
    requires Distinct(xs) && |xs| >= 10
    ensures xs[|xs| - 10] !in xs[|xs| - 9..]
  {
    hide Distinct;
    var rest := xs[|xs| - 9..];
    forall i: nat | i < |rest|
      ensures rest[i] != xs[|xs| - 10]
    {
      DistinctPair(xs, |xs| - 10, |xs| - 9 + i);
    }
  }

  // How a commit changes the set of buffers in slots.
  lemma SlotsAfterCommit<T>(xs: seq<T>, x: T)
    requires Distinct(xs)
    ensures |xs| < 10 ==> Elements(LastTen(xs + [x])) == Elements(LastTen(xs)) + {x}
    ensures |xs| >= 10 ==>
              && xs[|xs| - 10] in Elements(LastTen(xs))
              && Elements(LastTen(xs + [x])) == Elements(LastTen(xs)) - {xs[|xs| - 10]} + {x}
  {
    hide Distinct, LastTen;
    if |xs| < 10 {
      LastTenSlides(xs, x);
      ElementsConcat(LastTen(xs), [x]);
    } else {
      OldestIsElsewhere(xs);
      WindowSplit(xs, x);
      ElementsConcat([xs[|xs| - 10]], xs[|xs| - 9..]);
      ElementsConcat(xs[|xs| - 9..], [x]);
    }
  }

  // The buffers that slots k and up own.
  ghost function SlotBuffers(buffers: seq<array<byte>>, k: nat): set<array<byte>> {
    set i: nat | k <= i < 10 && i < |buffers| :: buffers[NewestAt(|buffers|, i)]
  }

  // All slots together own the buffers of the live entries.
  lemma AllSlotBuffers(buffers: seq<array<byte>>)
    ensures SlotBuffers(buffers, 0) == Elements(LastTen(buffers))
  {
    var n, w := |buffers|, LastTen(buffers);
    forall i: nat | i < 10 && i < n
      ensures buffers[NewestAt(n, i)] in w
    {
      assert w[NewestAt(n, i) - (n - |w|)] == buffers[NewestAt(n, i)];
    }
    forall j: nat | j < |w|
      ensures w[j] in SlotBuffers(buffers, 0)
    {
      WindowSlot(n, j);
      assert w[j] == buffers[NewestAt(n, SlotAfter(OldestSlot(n), j))];
    }
  }

  // Different slots own different buffers.
  lemma NextSlotBuffer(buffers: seq<array<byte>>, k: nat)
    requires Distinct(buffers) && k < 10
    ensures SlotBuffers(buffers, k) <= Elements(buffers)
    ensures k >= |buffers| ==> SlotBuffers(buffers, k) == SlotBuffers(buffers, k + 1)
    ensures k < |buffers| ==>
              var b := buffers[NewestAt(|buffers|, k)];
              SlotBuffers(buffers, k) == {b} + SlotBuffers(buffers, k + 1) && b !in SlotBuffers(buffers, k + 1)
  {
    hide Distinct;
    var n := |buffers|;
    if k < n {
      var m := NewestAt(n, k);
      forall i: nat | k < i < 10 && i < n
        ensures buffers[NewestAt(n, i)] != buffers[m]
      {
        var l := NewestAt(n, i);
        if l < m {
          DistinctPair(buffers, l, m);
        } else {
          DistinctPair(buffers, m, l);
        }
      }
    }
  }

  // Memory stays accounted for when an unowned buffer moves into a slot and the
  // displaced one is freed.
  lemma AccountedAfterCommit(we: array<byte>, buffers: seq<array<byte>>, unowned: set<array<byte>>,
                             heap: set<array<byte>>, b: array<byte>)
    requires Accounted(we, buffers, unowned, heap) && b in unowned
    ensures Accounted(we, buffers + [b], unowned - {b}, heap - Displaced(buffers))
    ensures Displaced(buffers) <= heap
  {
    SlotsAfterCommit(buffers, b);
    DistinctExtend(buffers, b);
    if |buffers| >= 10 {
      assert buffers[|buffers| - 10] in buffers;
    }
  }

  lemma StoredAfterCommit(buffers: seq<array<byte>>, log: seq<Command>, b: array<byte>, c: Command)
    requires |buffers| == |log| && Stored(buffers, log) && Holds(b, c)
    ensures Stored(buffers + [b], log + [c])
  {
    var n := |LastTen(log)|;
    var m := |LastTen(log + [c])|;
    forall i: nat | i < m
      ensures Holds(LastTen(buffers + [b])[i], LastTen(log + [c])[i])
    {
      if i < m - 1 {
        var j := i + n - (m - 1);
        assert Holds(LastTen(buffers)[j], LastTen(log)[j]);
      }
    }
  }

  class Device {
    const weBuf: array<byte>
    var weIndex: nat
    const cb: CircularBuffer
    var cbSize: int
    var cbIoctlOffs: nat
    var weHeld: bool
    var cbHeld: bool

    // Every command committed so far and the buffer that was made for it.
    ghost var log: seq<Command>
    ghost var buffers: seq<array<byte>>
    // Memory allocated and not freed; the part of it that is in no slot.
    ghost var heap: set<array<byte>>
    ghost var unowned: set<array<byte>>

    ghost function View(): Dev
      reads this, weBuf
      requires weIndex <= weBuf.Length
    {
      Dev(log, weBuf[..weIndex], cbIoctlOffs, cbHeld)
    }

    ghost predicate Valid()
      reads this, weBuf, cb, cb.entry, buffers
    {
      && |buffers| == |log|
      && cb.Valid() && cb.added == Entries(buffers, log)
      && weBuf.Length == ENTRY_LIMIT && weIndex <= weBuf.Length
      && Accounted(weBuf, buffers, unowned, heap) && Stored(buffers, log)
      && WellFormed(View())
      && cbSize == Sum(Lengths(LastTen(log)))
    }

    // What a walk over the ring needs to know of a valid device.
    lemma RingShape()
      requires Valid()
      ensures cb.Valid() && cb.entry.Length == 10 && cb.inOffs < 10 && cb.outOffs < 10
      ensures weIndex <= weBuf.Length && |cb.Live()| == |LastTen(log)| == |View().Sizes()|
    {
    }

    lemma IsWellFormed()
      requires Valid()
      ensures weIndex <= weBuf.Length && WellFormed(View())
    {
    }

    lemma WorkingEntryApart()
      requires Valid()
      ensures weBuf !in buffers
    {
    }

    // Module initialization with a successful allocation.
    constructor ()
      ensures Valid() && View() == INITIAL && !weHeld
      ensures unowned == {} && heap == {weBuf} && fresh(weBuf) && fresh(cb) && fresh(cb.entry)
    {
      weBuf := new byte[ENTRY_LIMIT](_ => 0);
      weIndex := 0;
      cb := new CircularBuffer();
      cbSize := 0;
      cbIoctlOffs := 0;
      weHeld := false;
      cbHeld := false;
      log := [];
      buffers := [];
      unowned := {};
      new;
      heap := {weBuf};
      cb.Init();
      assert LastTen(buffers) == [] && LastTen(log) == [] && Lengths([]) == [];
      assert Entries(buffers, log) == [];
      assert View() == INITIAL;
    }

    method Kzalloc(n: nat) returns (b: array<byte>)
      modifies this`heap, this`unowned
      ensures fresh(b) && b.Length == n && (forall i :: 0 <= i < n ==> b[i] == 0)
      ensures heap == old(heap) + {b} && unowned == old(unowned) + {b}
    {
      b := new byte[n](_ => 0);
      heap := heap + {b};
      unowned := unowned + {b};
    }

    // Freeing takes memory that is allocated, or null.
    method Kfree(b: array?<byte>)
      requires b == null || b in heap
      modifies this`heap
      ensures heap == old(heap) - (if b == null then {} else {b})
    {
      if b != null {
        heap := heap - {b};
      }
    }

    method UpdateSize(size: nat, oldSize: nat)
      requires oldSize <= cbSize < TWO_TO_32 && size < TWO_TO_32
      modifies this`cbSize
      ensures cbSize == old(cbSize) + size - oldSize
    {
      SizeUpdate(cbSize, size, oldSize);
      cbSize := Signed64(Unsigned64(cbSize) + Unsigned64(size - oldSize));
    }

    // The slot about to be written and what a commit does to the total.
    lemma BeforeCommit(c: Command)
      requires Valid()
      ensures var e := cb.entry[cb.inOffs];
              && e == (if |log| < 10 then EMPTY else Entry(buffers[|log| - 10], |log[|log| - 10]|))
              && e.size <= cbSize < TWO_TO_32
              && Sum(Lengths(LastTen(log + [c]))) == cbSize + |c| - e.size
    {
      cb.NextSlot();
      ContentBound(View());
      TotalAfterCommit(log, c);
      if |log| >= 10 {
        var ns := Lengths(LastTen(log));
        SumTake(ns, 0);
        assert ns[..0] == [] && ns[0] == |log[|log| - 10]|;
      }
    }

    // The commit proper, under cb_mutex: the ring, the size and the displaced
    // buffer change together.
    method AddToRing(b: array<byte>, size: nat, ghost c: Command)
      requires Valid() && b in unowned && |c| == size && Holds(b, c) && SoundCommand(c)
      modifies this`cbSize, this`log, this`buffers, this`heap, this`unowned, cb, cb.entry
      ensures Valid()
      ensures log == old(log) + [c] && buffers == old(buffers) + [b] && unowned == old(unowned) - {b}
      ensures heap == old(heap) - Displaced(old(buffers))
    {
      hide Accounted, Stored, LastTen, SlotsHold, Entries, Sum, Lengths;
      BeforeCommit(c);
      EntriesExtend(buffers, log, b, c);
      AccountedAfterCommit(weBuf, buffers, unowned, heap, b);
      var oldSize := cb.entry[cb.inOffs].size;
      var displaced := cb.AddEntry(Entry(b, size));
      UpdateSize(size, oldSize);
      Kfree(displaced);
      StoredAfterCommit(buffers, log, b, c);
      log := log + [c];
      buffers := buffers + [b];
      unowned := unowned - {b};
    }

    // aesd-char-driver/main.c lines 258 to 266: a fresh zero-terminated copy of the finished command.
    method CopyOut(s: nat) returns (b: array<byte>)
      requires Valid() && s < weIndex
      modifies this`heap, this`unowned
      ensures Valid() && fresh(b) && Holds(b, weBuf[..s + 1])
      ensures heap == old(heap) + {b} && unowned == old(unowned) + {b}
    {
      hide LastTen, SlotsHold, Entries, Sum, Lengths, CircularBuffer.Valid, Distinct, Elements;
      b := Kzalloc(s + 2);
      var i := 0;
      while i < s + 1
        invariant i <= s + 1 && b[..i] == weBuf[..i] && b[s + 1] == 0
        invariant Valid()
        modifies b
      {
        b[i] := weBuf[i];
        i := i + 1;
      }
      b[s + 1] := 0;
    }

    // aesd-char-driver/main.c lines 257 to 298: a newline was found at s. None means the command was
    // committed.
    method CommitLine(s: nat, f: WriteFaults) returns (failure: Option<Ret>)
      requires Valid() && s < weIndex && weBuf[s] == NEWLINE
      requires cbHeld ==> f.allocFails || f.interruptCb
      modifies this, cb, cb.entry
      ensures Valid() && weHeld == old(weHeld)
      ensures f.allocFails ==> failure == Some(ENoMem)
      ensures !f.allocFails && f.interruptCb ==> failure == Some(ERestartSys)
      ensures !f.allocFails && !f.interruptCb ==> failure == None
      ensures failure.Some? ==> View() == old(View())
      ensures failure.None? ==>
                View() == old(View()).(log := old(log) + [old(weBuf[..s + 1])], pending := [])
      ensures failure != Some(ERestartSys) ==> unowned == old(unowned)
      ensures failure == Some(ERestartSys) ==>
                exists b: array<byte> :: fresh(b) && unowned == old(unowned) + {b}
    {
      hide LastTen, SlotsHold, Entries, Sum, Lengths, CircularBuffer.Valid, Accounted, Stored, Displaced, Holds;
      if f.allocFails {
        return Some(ENoMem);
      }
      ghost var c := weBuf[..s + 1];
      var b := CopyOut(s);
      if f.interruptCb {
        return Some(ERestartSys);
      }
      cbHeld := true;
      AddToRing(b, s + 1, c);
      cbHeld := false;
      weIndex := 0;
      failure := None;
    }

    // aesd-char-driver/main.c lines 249 to 302: looks for the first newline among the bytes from
    // `start` on, and commits what ends there.
    method ScanAndCommit(ghost pending: seq<byte>, buf: seq<byte>, start: nat, f: WriteFaults)
      returns (ret: Ret)
      requires Valid() && start == |pending| && weBuf[..weIndex] == pending + buf
      requires cbHeld && FirstNewline(buf) < |buf| ==> f.allocFails || f.interruptCb
      modifies this, cb, cb.entry
      ensures Valid() && weHeld == old(weHeld)
      ensures var nl := FirstNewline(buf);
              var commits := nl < |buf| && !f.allocFails && !f.interruptCb;
              && ret == (if nl == |buf| || commits then Count(|buf|)
                         else if f.allocFails then ENoMem else ERestartSys)
              && View() == (if commits
                            then old(View()).(log := old(log) + [pending + buf[..nl + 1]], pending := [])
                            else old(View()))
      ensures ret != ERestartSys ==> unowned == old(unowned)
      ensures ret == ERestartSys ==>
                exists b: array<byte> :: fresh(b) && unowned == old(unowned) + {b}
    {
      hide LastTen, SlotsHold, Entries, Sum, Lengths, CircularBuffer.Valid, Accounted, Stored, FirstNewline;
      var s := start;
      while s < weIndex
        invariant start <= s <= weIndex
        invariant forall k :: start <= k < s ==> weBuf[k] != NEWLINE
      {
        if weBuf[s] == NEWLINE {
          FirstNewlineIs(pending, buf, weBuf[..weIndex], s);
          assert weBuf[..s + 1] == pending + buf[..s - start + 1];
          var failure := CommitLine(s, f);
          return if failure.Some? then failure.value else Count(|buf|);
        }
        s := s + 1;
      }
      FirstNewlineIs(pending, buf, weBuf[..weIndex], s);
      ret := Count(|buf|);
    }

    method WriteLocked(buf: seq<byte>, fpos: int, f: WriteFaults) returns (r: Reply)
      requires Valid() && Typed(DeviceModel.Write(buf, fpos, f)) && !f.interruptWe
      requires Returns(View(), DeviceModel.Write(buf, fpos, f))
      modifies this, weBuf, cb, cb.entry
      ensures Valid() && weHeld == old(weHeld)
      ensures (View(), r) == ApplyWrite(old(View()), buf, fpos, f)
      ensures r.ret != ERestartSys ==> unowned == old(unowned)
      ensures r.ret == ERestartSys ==>
                exists b: array<byte> :: fresh(b) && unowned == old(unowned) + {b}
    {
      hide LastTen, SlotsHold, Entries, Sum, Lengths, CircularBuffer.Valid, Accounted, Stored, FirstNewline, Signed64;
      if |buf| > weBuf.Length || Unsigned64(|buf| + weIndex) > weBuf.Length {
        return Reply(ENoMem, [], fpos);
      }
      WorkingEntryApart();
      ghost var pending := weBuf[..weIndex];
      var copied := |buf| - f.uncopied;
      var start := weIndex;
      forall k | 0 <= k < copied {
        weBuf[start + k] := buf[k];
      }
      weIndex := weIndex + copied;
      assert weBuf[..weIndex] == pending + buf[..copied];
      if f.uncopied > 0 {
        return Reply(EFault, [], Signed64(fpos + copied));
      }
      assert buf[..copied] == buf;
      var ret := ScanAndCommit(pending, buf, start, f);
      r := Reply(ret, [], Signed64(fpos + |buf|));
    }

    // aesd_write. Memory goes astray exactly when the call gives up waiting for
    // cb_mutex with the copy of the command already made.
    method Write(buf: seq<byte>, fpos: int, f: WriteFaults) returns (r: Reply)
      requires Valid() && !weHeld && Typed(DeviceModel.Write(buf, fpos, f))
      requires Returns(View(), DeviceModel.Write(buf, fpos, f))
      modifies this, weBuf, cb, cb.entry
      ensures Valid() && !weHeld
      ensures (View(), r) == Apply(old(View()), DeviceModel.Write(buf, fpos, f))
      ensures r.ret != ERestartSys || f.interruptWe ==> unowned == old(unowned)
      ensures r.ret == ERestartSys && !f.interruptWe ==>
                exists b: array<byte> :: fresh(b) && unowned == old(unowned) + {b}
    {
      hide LastTen, SlotsHold, Entries, Sum, Lengths, CircularBuffer.Valid, Accounted, Stored, FirstNewline, WellFormed;
      if f.interruptWe {
        return Reply(ERestartSys, [], fpos);
      }
      weHeld := true;
      r := WriteLocked(buf, fpos, f);
      weHeld := false;
    }

    // The j-th oldest live entry: where it is.
    lemma LiveEntry(j: nat)
      requires Valid() && j < |LastTen(log)|
      ensures cb.entry[SlotAfter(cb.outOffs, j)] == Entry(LastTen(buffers)[j], |LastTen(log)[j]|)
    {
      hide SlotsHold, Accounted, Stored, WellFormed, Sum, Lengths;
      cb.LiveSlot(j);
    }

    // What its buffer holds.
    lemma LiveHolds(j: nat)
      requires Valid() && j < |LastTen(log)|
      ensures Holds(LastTen(buffers)[j], LastTen(log)[j])
    {
      hide CircularBuffer.Valid, Accounted, Entries, WellFormed, Sum, Lengths, Holds;
    }

    // Bytes p to p + m of the j-th oldest live entry.
    lemma LiveBytes(j: nat, p: nat, m: nat)
      requires Valid() && j < |LastTen(log)| && p + m <= |LastTen(log)[j]|
      ensures var e := cb.entry[SlotAfter(cb.outOffs, j)];
              && e.buffptr != null && e.size == |LastTen(log)[j]| <= e.buffptr.Length
              && e.buffptr[p..p + m] == LastTen(log)[j][p..][..m]
    {
      hide SlotsHold, Accounted, LastTen;
      LiveEntry(j);
      LiveHolds(j);
      HeldSlice(LastTen(buffers)[j], LastTen(log)[j], p, m);
    }

    // The driver's search is flat indexing in every valid state.
    lemma SearchIsExact(offset: nat)
      requires Valid() && offset < TWO_TO_64
      ensures Search(CircularBuffers.Sizes(cb.Live()), 0, 0, offset) == Locate(View().Sizes(), offset)
    {
      hide SlotsHold, Accounted, Stored, Sum;
      ContentBound(View());
      assert CircularBuffers.Sizes(cb.Live()) == View().Sizes();
      assert View().Sizes()[..0] == [];
      SumEmpty();
      SearchFrom(View().Sizes(), 0, 0, offset);
    }

    // What the model's read gives once the position has been looked up.
    lemma ReadFound(d: Dev, fpos: int, count: nat, copyFails: bool)
      ensures var hit := Locate(d.Sizes(), Unsigned64(fpos + d.seek));
              ApplyRead(d, fpos, count, false, copyFails)
              == if hit.None? then Reply(Count(0), [], fpos)
                 else
                   var rest := d.Window()[hit.value.entry][hit.value.local..];
                   var m := if count > |rest| then |rest| else count;
                   if copyFails then Reply(EFault, [], fpos)
                   else Reply(Count(m), rest[..m], Signed64(fpos + m - d.seek))
    {
      hide Unsigned64, Signed64, Locate, LastTen, Sum;
    }

    // aesd-char-driver/main.c lines 177 to 195: copies from byte p of the entry in slot i, the j-th
    // oldest live one.
    method CopyEntry(ghost j: nat, i: nat, p: nat, fpos: int, count: nat, copyFails: bool) returns (r: Reply)
      requires Valid() && j < |LastTen(log)| && i == SlotAfter(cb.outOffs, j) && p <= |LastTen(log)[j]|
      ensures var rest := LastTen(log)[j][p..];
              var m := if count > |rest| then |rest| else count;
              r == if copyFails then Reply(EFault, [], fpos)
                   else Reply(Count(m), rest[..m], Signed64(fpos + m - cbIoctlOffs))
    {
      hide SlotsHold, Accounted, Stored, Sum, Entries, Signed64, LastTen, Holds, WellFormed, OldestSlot, SlotAfter;
      var e := cb.entry[i];
      LiveBytes(j, p, 0);
      var m := if count > e.size - p then e.size - p else count;
      LiveBytes(j, p, m);
      if copyFails {
        return Reply(EFault, [], fpos);
      }
      r := Reply(Count(m), e.buffptr[p..p + m], Signed64(fpos + m - cbIoctlOffs));
    }

    method ReadLocked(fpos: int, count: nat, copyFails: bool) returns (r: Reply)
      requires Valid() && IsOffset(fpos) && count < TWO_TO_64
      ensures r == ApplyRead(View(), fpos, count, false, copyFails)
    {
      hide Valid, CircularBuffer.Valid, Sum, Locate, Search, Signed64, Unsigned64, LastTen, ApplyRead;
      RingShape();
      var readPos := Signed64(Unsigned64(fpos) + cbIoctlOffs);
      PositionSum(fpos, cbIoctlOffs);
      ghost var at := Unsigned64(fpos + cbIoctlOffs);
      SearchIsExact(at);
      ReadFound(View(), fpos, count, copyFails);
      r := Reply(Count(0), [], fpos);
      var start := cb.FindEntryOffsetForFpos(Unsigned64(readPos));
      if start.None? {
        return;
      }
      ghost var h := Locate(View().Sizes(), at).value;
      ghost var n := |LastTen(log)|;
      var j, i := 0, cb.outOffs;
      while j == 0 || i != cb.inOffs
        invariant j <= h.entry && i == SlotAfter(cb.outOffs, j)
        invariant r == Reply(Count(0), [], fpos)
        decreases n - j
      {
        if i == start.value.entry {
          assert j == h.entry;
          r := CopyEntry(j, i, start.value.local, fpos, count, copyFails);
          return;
        }
        cb.LiveSlot(j + 1);
        SlotAfterNext(cb.outOffs, j);
        j := j + 1;
        var next, _ := CircularIncrement(i, 9);
        i := next;
      }
      cb.LiveSlot(j);
      assert false;
    }

    // aesd_read.
    method Read(fpos: int, count: nat, interrupt: bool, copyFails: bool) returns (r: Reply)
      requires Valid() && Typed(DeviceModel.Read(fpos, count, interrupt, copyFails))
      requires Returns(View(), DeviceModel.Read(fpos, count, interrupt, copyFails))
      modifies this`cbHeld
      ensures Valid()
      ensures (View(), r) == Apply(old(View()), DeviceModel.Read(fpos, count, interrupt, copyFails))
    {
      hide LastTen, SlotsHold, Entries, Sum, Lengths, CircularBuffer.Valid, Accounted, Stored, Locate;
      if interrupt {
        return Reply(ERestartSys, [], fpos);
      }
      cbHeld := true;
      r := ReadLocked(fpos, count, copyFails);
      cbHeld := false;
    }

    // The size field of slot k, live or not.
    lemma PhysicalSlot(k: nat)
      requires Valid() && k < 10
      ensures cb.entry[k].size == SlotSize(log, k)
    {
      SlotIsNewest(cb.added, k);
    }

    // The slot reached after j steps from the oldest one adds the size of the
    // j-th live command, or nothing when there is none.
    lemma SlotInOrder(j: nat)
      requires Valid() && j < 9
      ensures cb.entry[SlotAfter(cb.outOffs, j)].size == LiveSize(log, j)
    {
      if j < |LastTen(log)| {
        LiveEntry(j);
      } else {
        PhysicalSlot(SlotAfter(cb.outOffs, j));
      }
    }

    // The sizes of the first cmd entries from outOffs on.
    method SumBefore(cmd: nat) returns (fp: nat)
      requires Valid() && cmd < 10
      ensures fp == FlatPosition(View().Sizes(), cmd, 0)
    {
      hide SlotsHold, Accounted, Stored, Entries, LastTen, Sum, SlotSize, WellFormed;
      fp := 0;
      var i, j := 0, cb.outOffs;
      SumEmpty();
      while i < cmd
        invariant i <= cmd && j == SlotAfter(cb.outOffs, i)
        invariant fp == FlatPosition(View().Sizes(), i, 0)
      {
        SlotInOrder(i);
        FlatStep(View().Sizes(), i);
        SlotAfterNext(cb.outOffs, i);
        fp := fp + cb.entry[j].size;
        i := i + 1;
        var next, _ := CircularIncrement(j, 9);
        j := next;
      }
    }

    // aesd_adjust_file_offset, as written: the tests look at physical slots,
    // the sum walks live ones, and a rejection leaves cb_mutex locked.
    method AdjustFileOffset(cmd: nat, offset: nat, outside: nat, interrupt: bool) returns (r: Ret)
      requires Valid() && Typed(DeviceModel.Seek(cmd, offset, outside, interrupt))
      requires Returns(View(), DeviceModel.Seek(cmd, offset, outside, interrupt))
      modifies this`cbHeld, this`cbIoctlOffs
      ensures Valid()
      ensures (View(), r) == ApplySeek(old(View()), cmd, offset, outside, interrupt)
    {
      hide SlotsHold, Accounted, Stored, Entries, LastTen, Sum, SlotSize;
      StepKeepsBounds(View(), DeviceModel.Seek(cmd, offset, outside, interrupt));
      if interrupt {
        return ERestartSys;
      }
      if cmd < 10 {
        PhysicalSlot(cmd);
      }
      cbHeld := true;
      var size := if cmd < 10 then cb.entry[cmd].size else outside;
      if Unsigned32(offset + 1) > size {
        return EInval;
      }
      if Unsigned32(cmd + 1) > 10 {
        return EInval;
      }
      var fp := SumBefore(cmd);
      fp := fp + offset;
      cbIoctlOffs := fp;
      cbHeld := false;
      r := Count(0);
    }

    // The buffer that slot k owns.
    lemma SlotOwner(k: nat)
      requires Valid() && k < 10
      ensures cb.entry[k].buffptr == if k < |log| then buffers[NewestAt(|log|, k)] else null
    {
      SlotIsNewest(cb.added, k);
    }

    // aesd_cleanup_module: every buffer in a slot and the working entry are
    // freed once; what stays allocated is what interrupted writes let go of.
    method Cleanup()
      requires Valid()
      modifies this`heap
      ensures heap == unowned
    {
      hide SlotsHold, Entries, LastTen, Sum, Lengths, Stored, Distinct, WellFormed, Elements;
      AllSlotBuffers(buffers);
      forall k: nat | k < 10
        ensures cb.entry[k].buffptr == if k < |log| then buffers[NewestAt(|log|, k)] else null
      {
        SlotOwner(k);
      }
      var i := 0;
      while i < 10
        invariant i <= 10
        invariant heap == {weBuf} + SlotBuffers(buffers, i) + unowned
      {
        NextSlotBuffer(buffers, i);
        Kfree(cb.entry[i].buffptr);
        i := i + 1;
      }
      Kfree(weBuf);
    }

    // Any one call. A copy is let go of by exactly the writes that have made
    // one and then give up waiting for cb_mutex.
    method Perform(op: Op) returns (r: Reply)
      requires Valid() && !weHeld && Typed(op) && Returns(View(), op)
      modifies this, weBuf, cb, cb.entry
      ensures Valid() && !weHeld
      ensures (View(), r) == Apply(old(View()), op)
      ensures |unowned| == |old(unowned)| + (if LetsGo(old(View()), op) then 1 else 0)
    {
      hide CircularBuffer.Valid, Accounted, Stored, Entries, WellFormed, LastTen, Sum, Lengths, ApplyRead, ApplySeek;
      match op {
        case Write(buf, fpos, f) =>
          r := Write(buf, fpos, f);
        case Read(fpos, count, interrupt, copyFails) =>
          r := Read(fpos, count, interrupt, copyFails);
        case Seek(cmd, offset, outside, interrupt) =>
          var ret := AdjustFileOffset(cmd, offset, outside, interrupt);
          r := Reply(ret, [], 0);
      }
    }
  }

  predicate LetsGo(d: Dev, op: Op) {
    op.Write? && ReachesRing(d, op.buf, op.faults) && op.faults.interruptCb
  }

  // How many operations of a run let go of a copy.
  function LetGoBy(ops: seq<Op>): nat
    requires TypedRun(ops)
  {
    if ops == [] then 0
    else
      var prev, last := ops[..|ops| - 1], ops[|ops| - 1];
      LetGoBy(prev) + (if LetsGo(Replay(prev), last) then 1 else 0)
  }

  // The k-th call of a run, onto what the first k have left.
  lemma RunStep(ops: seq<Op>, k: nat)
    requires TypedRun(ops) && k < |ops|
    ensures Replay(ops[..k + 1]) == Apply(Replay(ops[..k]), ops[k]).0
    ensures LetGoBy(ops[..k + 1]) == LetGoBy(ops[..k]) + (if LetsGo(Replay(ops[..k]), ops[k]) then 1 else 0)
  {
    assert ops[..k + 1][..k] == ops[..k];
  }

  // A device's whole life: it is set up, any run of calls that return is made
  // on it, and it is cleaned up. Every reply is the model's; what is still
  // allocated at the end is one buffer for each write that let go of its copy,
  // so nothing at all if there was none.
  method Lifetime(ops: seq<Op>) returns (dev: Device, replies: seq<Reply>)
    requires TypedRun(ops) && forall k :: 0 <= k < |ops| ==> Returns(Replay(ops[..k]), ops[k])
    ensures fresh(dev) && dev.weIndex <= dev.weBuf.Length && dev.View() == Replay(ops)
    ensures |replies| == |ops|
    ensures forall k :: 0 <= k < |ops| ==> replies[k] == Apply(Replay(ops[..k]), ops[k]).1
    ensures |dev.heap| == LetGoBy(ops) && (LetGoBy(ops) == 0 ==> dev.heap == {})
  {
    hide Replay, Apply, Returns, LetsGo, LetGoBy, Device.Valid, CircularBuffer.Valid, WellFormed, Typed, LastTen;
    dev := new Device();
    dev.RingShape();
    replies := [];
    var k := 0;
    RunStart(ops);
    while k < |ops|
      invariant k <= |ops| && dev.Valid() && !dev.weHeld && dev.weIndex <= dev.weBuf.Length
      invariant dev.View() == Replay(ops[..k])
      invariant |replies| == k
      invariant forall i :: 0 <= i < k ==> replies[i] == Apply(Replay(ops[..i]), ops[i]).1
      invariant |dev.unowned| == LetGoBy(ops[..k])
    {
      RunStep(ops, k);
      var r := dev.Perform(ops[k]);
      dev.RingShape();
      replies := replies + [r];
      k := k + 1;
    }
    assert ops[..k] == ops;
    dev.Cleanup();
  }

  lemma RunStart(ops: seq<Op>)
    requires TypedRun(ops)
    ensures Replay(ops[..0]) == INITIAL && LetGoBy(ops[..0]) == 0
  {
  }

  // A run that leaves memory allocated: a write of a line whose wait for
  // cb_mutex is interrupted has already copied the line, and nobody frees the
  // copy.
  lemma LeakedCopy()
    ensures var ops := [Write([NEWLINE], 0, WriteFaults(false, 0, false, true))];
            && TypedRun(ops) && Returns(Replay(ops[..0]), ops[0])
            && Replay(ops).log == [] && LetGoBy(ops) == 1
  {
    var ops := [Write([NEWLINE], 0, WriteFaults(false, 0, false, true))];
    RunStart(ops);
    RunStep(ops, 0);
    assert ops[..1] == ops && ops[..0] == [];
    assert FirstNewline([NEWLINE]) == 0;
  }
}
