// From a flat byte position to (entry, offset inside it) and back.
module Lookup {
  import opened Words
  import opened CommandLog

  datatype Hit = Hit(entry: nat, local: nat)

  // h is where byte `offset` lies when entries of sizes ns stand end to end.
  ghost predicate Inside(ns: seq<nat>, offset: nat, h: Hit) {
    h.entry < |ns| && h.local < ns[h.entry] && offset == Sum(ns[..h.entry]) + h.local
  }

  // The driver's search loop, from entry k on, with its size_t arithmetic.
  function Search(ns: seq<nat>, k: nat, acc: nat, offset: nat): (r: Option<Hit>)
    requires k <= |ns|
    ensures r.Some? ==> k <= r.value.entry < |ns|
    decreases |ns| - k
  {
    if k == |ns| then None
    else if Unsigned64(acc + ns[k] - 1) >= offset then Some(Hit(k, Unsigned64(offset - acc)))
    else Search(ns, k + 1, Unsigned64(acc + ns[k]), offset)
  }

  // Flat indexing, without machine arithmetic.
  function Locate(ns: seq<nat>, offset: nat): (r: Option<Hit>)
    ensures r.Some? <==> offset < Sum(ns)
    ensures r.Some? ==> Inside(ns, offset, r.value)
  {
    if ns == [] then None
    else if offset < ns[0] then Some(Hit(0, offset))
    else
      var r := Locate(ns[1..], offset - ns[0]);
      if r.None? then None
      else
        assert ns[..r.value.entry + 1][1..] == ns[1..][..r.value.entry];
        Some(Hit(r.value.entry + 1, r.value.local))
  }

  lemma {:induction false} SumPrefixMonotone(ns: seq<nat>, a: nat, b: nat)
    requires a <= b <= |ns|
    ensures Sum(ns[..a]) + Sum(ns[a..b]) == Sum(ns[..b])
  {
    assert ns[..b] == ns[..a] + ns[a..b];
    SumAppend(ns[..a], ns[a..b]);
  }

  lemma SumTake(ns: seq<nat>, k: nat)
    requires k < |ns|
    ensures Sum(ns[..k + 1]) == Sum(ns[..k]) + ns[k]
    ensures Sum(ns[..k + 1]) <= Sum(ns)
  {
    SumPrefixMonotone(ns, k, k + 1);
    assert ns[k..k + 1] == [ns[k]];
    SumPrefixMonotone(ns, k + 1, |ns|);
    assert ns[..|ns|] == ns;
  }

  // A position lies in at most one place.
  lemma InsideUnique(ns: seq<nat>, offset: nat, g: Hit, h: Hit)
    requires Inside(ns, offset, g) && Inside(ns, offset, h)
    ensures g == h
  {
    if g.entry < h.entry {
      SumTake(ns, g.entry);
      SumPrefixMonotone(ns, g.entry + 1, h.entry);
    } else if h.entry < g.entry {
      SumTake(ns, h.entry);
      SumPrefixMonotone(ns, h.entry + 1, g.entry);
    }
  }

  // From entry k on, with k >= 1 or a non-empty first entry, the loop agrees
  // with flat indexing; no sum or difference leaves size_t.
  lemma {:induction false} SearchFrom(ns: seq<nat>, k: nat, acc: nat, offset: nat)
    requires k <= |ns| && acc == Sum(ns[..k]) && acc <= offset < TWO_TO_64
    requires Sum(ns) < TWO_TO_64
    requires acc == 0 && k < |ns| ==> ns[k] >= 1
    ensures Search(ns, k, acc, offset) == Locate(ns, offset)
    decreases |ns| - k
  {
    if k == |ns| {
      assert ns[..k] == ns;
    } else {
      SumTake(ns, k);
      assert Unsigned64(acc + ns[k]) == acc + ns[k];
      assert Unsigned64(acc + ns[k] - 1) == acc + ns[k] - 1;
      if offset < acc + ns[k] {
        assert Unsigned64(offset - acc) == offset - acc;
        InsideUnique(ns, offset, Locate(ns, offset).value, Hit(k, offset - acc));
      } else {
        SearchFrom(ns, k + 1, acc + ns[k], offset);
      }
    }
  }

  // An empty oldest entry makes `acc + size - 1` wrap to the largest size_t,
  // which is no smaller than any position.
  lemma SearchEmptyOldest(ns: seq<nat>, offset: nat)
    requires ns != [] && ns[0] == 0 && offset < TWO_TO_64
    ensures Search(ns, 0, 0, offset) == Some(Hit(0, offset))
  {
    assert Unsigned64(-1) == TWO_TO_64 - 1;
  }

  // The exact condition under which the loop refines flat indexing at every
  // position: the oldest entry is not empty.
  lemma SearchExact(ns: seq<nat>)
    requires Sum(ns) < TWO_TO_64
    ensures (forall offset: nat | offset < TWO_TO_64 :: Search(ns, 0, 0, offset) == Locate(ns, offset))
            <==> (ns == [] || ns[0] >= 1)
  {
    if ns == [] || ns[0] >= 1 {
      forall offset: nat | offset < TWO_TO_64
        ensures Search(ns, 0, 0, offset) == Locate(ns, offset)
      {
        SearchFrom(ns, 0, 0, offset);
      }
    } else {
      SearchEmptyOldest(ns, Sum(ns));
      assert Search(ns, 0, 0, Sum(ns)) != Locate(ns, Sum(ns));
    }
  }

  // (entry, offset) to flat position: what a seek computes.
  function FlatPosition(ns: seq<nat>, c: nat, o: nat): nat {
    Sum(ns[..if c < |ns| then c else |ns|]) + o
  }

  // Seek and lookup are mutually inverse.
  lemma SeekLookupInverse(ns: seq<nat>)
    ensures forall c: nat, o: nat | c < |ns| && o < ns[c] ::
              Locate(ns, FlatPosition(ns, c, o)) == Some(Hit(c, o))
    ensures forall p: nat | p < Sum(ns) :: var h := Locate(ns, p).value;
              h.entry < |ns| && h.local < ns[h.entry] && FlatPosition(ns, h.entry, h.local) == p
  {
    forall c: nat, o: nat | c < |ns| && o < ns[c]
      ensures Locate(ns, FlatPosition(ns, c, o)) == Some(Hit(c, o))
    {
      var p := FlatPosition(ns, c, o);
      SumTake(ns, c);
      InsideUnique(ns, p, Hit(c, o), Locate(ns, p).value);
    }
  }

  // The bytes found in an entry are the bytes of the concatenation.
  lemma {:induction false} InsideReadsFlat(cs: seq<Command>, offset: nat, h: Hit, n: nat)
    requires Inside(Lengths(cs), offset, h) && h.local + n <= |cs[h.entry]|
    ensures offset + n <= |Flatten(cs)|
    ensures Flatten(cs)[offset..offset + n] == cs[h.entry][h.local..h.local + n]
  {
    var before, c, after := cs[..h.entry], cs[h.entry], cs[h.entry + 1..];
    assert Lengths(cs)[..h.entry] == Lengths(before);
    FlattenLength(before);
    assert cs == before + ([c] + after);
    FlattenAppend(before, [c] + after);
    FlattenHead(c, after);
    assert Flatten(cs) == Flatten(before) + (c + Flatten(after));
    assert Flatten(cs)[offset..offset + n] == (c + Flatten(after))[h.local..h.local + n];
  }
}
