// The ten-slot ring of aesd-circular-buffer.c. `added` is the history of every
// entry ever added; Valid() gives slots, indices and flag in closed form.
module CircularBuffers {
  import opened Words
  import opened CommandLog
  import opened Lookup

  datatype Entry = Entry(buffptr: array?<byte>, size: nat)

  const EMPTY: Entry := Entry(null, 0)

  lemma SameResidue(a: int, b: int)
    requires a % 10 == b % 10 && -10 < a - b < 10
    ensures a == b
  {
    assert a == 10 * (a / 10) + a % 10;
    assert b == 10 * (b / 10) + b % 10;
  }

  // The number of the newest of n added items that went to slot k.
  function NewestAt(n: nat, k: nat): (i: nat)
    requires k < n && k < 10
    ensures i % 10 == k
    ensures i < n <= i + 10
  {
    n - 1 - (n - 1 - k) % 10
  }

  // The slot of the oldest item a ring of n additions still holds.
  function OldestSlot(n: nat): (k: nat)
    ensures k < 10
    ensures k == (if n < 10 then 0 else (n - 10) % 10)
  {
    if n < 10 then 0 else n % 10
  }

  // What slot k holds after the given additions: the last one whose number is
  // congruent to k.
  ghost function SlotContent(added: seq<Entry>, k: nat): Entry
    requires k < 10
    decreases |added|
  {
    if added == [] then EMPTY
    else if (|added| - 1) % 10 == k then added[|added| - 1]
    else SlotContent(added[..|added| - 1], k)
  }

  lemma {:induction false} SlotIsNewest(added: seq<Entry>, k: nat)
    requires k < 10
    ensures SlotContent(added, k) == if k < |added| then added[NewestAt(|added|, k)] else EMPTY
    decreases |added|
  {
    var n := |added|;
    if n > 0 {
      if (n - 1) % 10 == k {
        SameResidue(NewestAt(n, k), n - 1);
      } else {
        SlotIsNewest(added[..n - 1], k);
        if k < n {
          assert NewestAt(n, k) != n - 1;
          assert k < n - 1;
          SameResidue(NewestAt(n, k), NewestAt(n - 1, k));
        }
      }
    }
  }

  // The slot j places after slot `start`, going round.
  function SlotAfter(start: nat, j: nat): (k: nat)
    requires start < 10 && j <= 10
    ensures k < 10
  {
    if start + j < 10 then start + j else start + j - 10
  }

  // Counting slots from the oldest one walks through the window in order.
  lemma WindowSlot(n: nat, j: nat)
    requires j < n && j < 10
    ensures var k := SlotAfter(OldestSlot(n), j);
            k < n && NewestAt(n, k) == (if n <= 10 then j else n - 10 + j)
  {
    var k := SlotAfter(OldestSlot(n), j);
    var i := if n <= 10 then j else n - 10 + j;
    assert i % 10 == k;
    assert k < n;
    SameResidue(NewestAt(n, k), i);
  }

  // The ring in closed form: each slot holds the newest item whose number is
  // congruent to it, or nothing if there is none yet.
  ghost predicate SlotsHold(slots: seq<Entry>, added: seq<Entry>) {
    |slots| == 10 && forall k :: 0 <= k < 10 ==> slots[k] == SlotContent(added, k)
  }

  // Writing an entry into the next slot keeps the closed form. What it
  // displaces is nothing while the ring is filling up, and then the item added
  // ten additions earlier.
  lemma SlotsAfterAdd(slots: seq<Entry>, added: seq<Entry>, e: Entry)
    requires SlotsHold(slots, added)
    ensures SlotsHold(slots[|added| % 10 := e], added + [e])
    ensures slots[|added| % 10] == if |added| < 10 then EMPTY else added[|added| - 10]
  {
    hide NewestAt;
    assert (added + [e])[..|added|] == added;
    NextSlotHolds(added);
  }

  // The slot of the next addition holds the item ten additions back, if any.
  lemma NextSlotHolds(added: seq<Entry>)
    ensures SlotContent(added, |added| % 10) == if |added| < 10 then EMPTY else added[|added| - 10]
  {
    hide SlotContent;
    var n := |added|;
    SlotIsNewest(added, n % 10);
    if n >= 10 {
      SameResidue(NewestAt(n, n % 10), n - 10);
    }
  }

  function Sizes(es: seq<Entry>): (ns: seq<nat>)
    ensures |ns| == |es|
    ensures forall i :: 0 <= i < |es| ==> ns[i] == es[i].size
  {
    seq(|es|, i requires 0 <= i < |es| => es[i].size)
  }

  // Indices advance modulo the number of slots: the next addition's slot, and
  // the oldest slot once the ring is full.
  lemma IndicesAdvance(n: nat)
    ensures (n % 10 + 1) % 10 == (n + 1) % 10
    ensures OldestSlot(n + 1) == if n < 10 then 0 else (OldestSlot(n) + 1) % 10
  {
    var q, r := n / 10, n % 10;
    assert n + 1 == 10 * q + (r + 1);
    if r == 9 {
      assert (n + 1) / 10 == q + 1;
    } else {
      assert (n + 1) / 10 == q;
    }
  }

  // Going round one slot at a time is counting slots from the start.
  lemma SlotAfterNext(start: nat, j: nat)
    requires start < 10 && j < 10
    ensures (SlotAfter(start, j) + 1) % 10 == SlotAfter(start, j + 1)
  {
  }

  // The next index, counting modulo the number of slots; an index past the
  // last one also goes back to 0.
  method CircularIncrement(index: nat, maxIndex: nat) returns (next: nat, overflowed: bool)
    ensures index <= maxIndex ==> next == (index + 1) % (maxIndex + 1)
    ensures index > maxIndex ==> next == 0
    ensures overflowed <==> index >= maxIndex
  {
    if index >= maxIndex {
      next, overflowed := 0, true;
    } else {
      next, overflowed := index + 1, false;
    }
  }

  class CircularBuffer {
    const entry: array<Entry>
    var inOffs: nat
    var outOffs: nat
    var full: bool
    ghost var added: seq<Entry>

    ghost predicate Valid()
      reads this, entry
    {
      && entry.Length == 10 && SlotsHold(entry[..], added)
      && inOffs == |added| % 10
      && outOffs == OldestSlot(|added|)
      && (full <==> |added| >= 10)
    }

    // The entries still in the ring, oldest first.
    ghost function Live(): seq<Entry>
      reads this
    {
      LastTen(added)
    }

    constructor ()
      ensures entry.Length == 10 && fresh(entry)
    {
      entry := new Entry[10](_ => EMPTY);
    }

    method Init()
      requires entry.Length == 10
      modifies this, entry
      ensures Valid() && added == []
    {
      forall k | 0 <= k < 10 {
        entry[k] := EMPTY;
      }
      inOffs := 0;
      outOffs := 0;
      full := false;
      added := [];
    }

    // What the slot about to be written holds.
    lemma NextSlot()
      requires Valid()
      ensures entry[inOffs] == if |added| < 10 then EMPTY else added[|added| - 10]
    {
      SlotsAfterAdd(entry[..], added, EMPTY);
    }

    // Adds e where the next write goes. The result is the buffer of the entry
    // that left the ring, or null while the ring is filling up.
    method AddEntry(e: Entry) returns (r: array?<byte>)
      requires Valid()
      modifies this, entry
      ensures Valid() && added == old(added) + [e]
      ensures r == if |old(added)| < 10 then null else old(added)[|old(added)| - 10].buffptr
    {
      SlotsAfterAdd(entry[..], added, e);
      IndicesAdvance(|added|);
      r := entry[inOffs].buffptr;
      entry[inOffs] := e;
      assert entry[..] == old(entry[..])[inOffs := e];
      var next, _ := CircularIncrement(inOffs, 9);
      inOffs := next;
      if full {
        var out, _ := CircularIncrement(outOffs, 9);
        outOffs := out;
      } else if inOffs == outOffs {
        full := true;
      }
      added := added + [e];
    }

    // The j-th oldest live entry sits j slots after outOffs; the walk from
    // outOffs reaches inOffs exactly when it has seen every live entry.
    lemma LiveSlot(j: nat)
      requires Valid() && j <= |Live()|
      ensures j < |Live()| ==> entry[SlotAfter(outOffs, j)] == Live()[j]
      ensures j > 0 ==> (SlotAfter(outOffs, j) == inOffs <==> j == |Live()|)
    {
      if j < |Live()| {
        WindowSlot(|added|, j);
        SlotIsNewest(added, SlotAfter(outOffs, j));
      }
    }

    // Finds the slot and the offset inside it for a flat position.
    method FindEntryOffsetForFpos(charOffset: nat) returns (r: Option<Hit>)
      requires Valid() && charOffset < TWO_TO_64
      ensures var s := Search(Sizes(Live()), 0, 0, charOffset);
              r == if s.None? then None
                   else Some(Hit(SlotAfter(outOffs, s.value.entry), s.value.local))
    {
      hide SlotContent, SlotsHold, LastTen, Unsigned64, OldestSlot, NewestAt;
      ghost var sizes := Sizes(Live());
      ghost var found := Search(sizes, 0, 0, charOffset);
      if !full && inOffs == outOffs {
        return None;
      }
      var acc: nat := 0;
      var j, i := 0, outOffs;
      while j == 0 || i != inOffs
        invariant j <= |sizes| && i == SlotAfter(outOffs, j)
        invariant |sizes| > 0 && (j > 0 ==> (i == inOffs <==> j == |sizes|))
        invariant found == Search(sizes, j, acc, charOffset)
        decreases |sizes| - j
      {
        LiveSlot(j);
        LiveSlot(j + 1);
        var e := entry[i];
        assert sizes[j] == e.size;
        if Unsigned64(acc + e.size - 1) >= charOffset {
          return Some(Hit(i, Unsigned64(charOffset - acc)));
        }
        assert found == Search(sizes, j + 1, Unsigned64(acc + e.size), charOffset);
        acc := Unsigned64(acc + e.size);
        SlotAfterNext(outOffs, j);
        j := j + 1;
        var next, _ := CircularIncrement(i, 9);
        i := next;
      }
      r := None;
    }
  }
}
