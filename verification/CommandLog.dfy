// Commands, their concatenation, and the division of a byte stream into lines.
module CommandLog {
  import opened Words

  type Command = seq<byte>

  // The most recent entries a ring of ten slots can hold, oldest first; ten is
  // AESDCHAR_MAX_WRITE_OPERATIONS_SUPPORTED.
  function LastTen<T>(xs: seq<T>): (r: seq<T>)
    ensures |r| == if |xs| < 10 then |xs| else 10
    ensures forall j :: 0 <= j < |r| ==> r[j] == xs[|xs| - |r| + j]
  {
    var n := if |xs| < 10 then |xs| else 10;
    seq(n, j requires 0 <= j < n => xs[|xs| - n + j])
  }

  // Adding to the history slides the window: the eleventh oldest falls out.
  lemma LastTenSlides<T>(xs: seq<T>, x: T)
    ensures |xs| < 10 ==> LastTen(xs + [x]) == LastTen(xs) + [x]
    ensures |xs| >= 10 ==> LastTen(xs + [x]) == LastTen(xs)[1..] + [x]
  {
  }

  function Flatten(cs: seq<Command>): seq<byte> {
    if cs == [] then [] else cs[0] + Flatten(cs[1..])
  }

  function Sum(ns: seq<nat>): nat {
    if ns == [] then 0 else ns[0] + Sum(ns[1..])
  }

  function Lengths(cs: seq<Command>): (ns: seq<nat>)
    ensures |ns| == |cs|
    ensures forall i :: 0 <= i < |cs| ==> ns[i] == |cs[i]|
  {
    seq(|cs|, i requires 0 <= i < |cs| => |cs[i]|)
  }

  lemma {:induction false} SumAppend(ns: seq<nat>, ms: seq<nat>)
    ensures Sum(ns + ms) == Sum(ns) + Sum(ms)
  {
    if ns == [] {
      assert ns + ms == ms;
    } else {
      assert (ns + ms)[1..] == ns[1..] + ms;
      SumAppend(ns[1..], ms);
    }
  }

  lemma {:induction false} SumBound(ns: seq<nat>, limit: nat)
    requires forall i :: 0 <= i < |ns| ==> ns[i] <= limit
    ensures Sum(ns) <= |ns| * limit
  {
    if ns != [] {
      SumBound(ns[1..], limit);
      assert |ns| * limit == limit + (|ns| - 1) * limit;
    }
  }

  lemma {:induction false} FlattenLength(cs: seq<Command>)
    ensures |Flatten(cs)| == Sum(Lengths(cs))
  {
    if cs != [] {
      assert Lengths(cs)[1..] == Lengths(cs[1..]);
      FlattenLength(cs[1..]);
    }
  }

  lemma {:induction false} FlattenAppend(cs: seq<Command>, ds: seq<Command>)
    ensures Flatten(cs + ds) == Flatten(cs) + Flatten(ds)
  {
    if cs == [] {
      assert cs + ds == ds;
    } else {
      assert (cs + ds)[1..] == cs[1..] + ds;
      FlattenAppend(cs[1..], ds);
    }
  }

  // How a commit changes the total: the window gains the new command and loses
  // the one that falls out.
  lemma TotalAfterCommit(log: seq<Command>, c: Command)
    ensures Sum(Lengths(LastTen(log + [c])))
            == Sum(Lengths(LastTen(log))) + |c| - (if |log| < 10 then 0 else |log[|log| - 10]|)
  {
    var w := LastTen(log);
    LastTenSlides(log, c);
    if |log| < 10 {
      assert Lengths(w + [c]) == Lengths(w) + [|c|];
      SumAppend(Lengths(w), [|c|]);
    } else {
      assert Lengths(w[1..] + [c]) == Lengths(w)[1..] + [|c|];
      SumAppend(Lengths(w)[1..], [|c|]);
    }
  }

  // ---- Lines ----

  // None of the first n bytes is a newline.
  predicate Clean(s: seq<byte>, n: nat)
    requires n <= |s|
  {
    forall i :: 0 <= i < n ==> s[i] != NEWLINE
  }

  predicate NoNewline(s: seq<byte>) {
    Clean(s, |s|)
  }

  // A finished command: one newline, at its end.
  predicate Framed(c: Command) {
    |c| > 0 && c[|c| - 1] == NEWLINE && Clean(c, |c| - 1)
  }

  // What stands before a finished command belongs to it if it has no newline.
  lemma FramedAppend(p: seq<byte>, c: Command)
    requires Framed(c)
    ensures Framed(p + c) <==> NoNewline(p)
  {
    var whole := p + c;
    assert forall i :: 0 <= i < |p| ==> whole[i] == p[i];
    assert forall i :: 0 <= i < |c| ==> whole[|p| + i] == c[i];
    if NoNewline(p) {
      forall i | 0 <= i < |whole| - 1
        ensures whole[i] != NEWLINE
      {
        if i >= |p| {
          assert whole[i] == c[i - |p|];
        }
      }
    }
  }

  // The position of the first newline, or the length if there is none.
  function FirstNewline(s: seq<byte>): (i: nat)
    ensures i <= |s| && Clean(s, i)
    ensures i < |s| ==> s[i] == NEWLINE
  {
    if s == [] || s[0] == NEWLINE then 0
    else
      var r := FirstNewline(s[1..]);
      assert forall k :: 0 < k < 1 + r ==> s[k] == s[1..][k - 1];
      1 + r
  }

  lemma FirstNewlineUnique(s: seq<byte>, i: nat)
    requires i <= |s| && Clean(s, i) && (i < |s| ==> s[i] == NEWLINE)
    ensures FirstNewline(s) == i
  {
  }

  // The part of a write that survives: everything up to its first newline.
  function Cut(s: seq<byte>): seq<byte> {
    var i := FirstNewline(s);
    if i < |s| then s[..i + 1] else s
  }

  // The complete lines of a stream, each with its newline.
  function Lines(s: seq<byte>): seq<Command>
    decreases |s|
  {
    var i := FirstNewline(s);
    if i == |s| then [] else [s[..i + 1]] + Lines(s[i + 1..])
  }

  // What follows the last newline of a stream.
  function Rest(s: seq<byte>): seq<byte>
    decreases |s|
  {
    var i := FirstNewline(s);
    if i == |s| then s else Rest(s[i + 1..])
  }

  lemma FlattenHead(c: Command, cs: seq<Command>)
    ensures Flatten([c] + cs) == c + Flatten(cs)
  {
    assert ([c] + cs)[1..] == cs;
  }

  lemma Associative(a: seq<byte>, b: seq<byte>, c: seq<byte>)
    ensures (a + b) + c == a + (b + c)
  {
  }

  // Dividing a stream into lines loses nothing.
  lemma {:induction false} LinesRejoin(s: seq<byte>)
    ensures Flatten(Lines(s)) + Rest(s) == s
    decreases |s|
  {
    var i := FirstNewline(s);
    if i < |s| {
      var head, t := s[..i + 1], s[i + 1..];
      LinesRejoin(t);
      FlattenHead(head, Lines(t));
      Associative(head, Flatten(Lines(t)), Rest(t));
    }
  }

  // Every line has exactly one newline, at its end; the rest has none.
  lemma {:induction false} LinesFramed(s: seq<byte>)
    ensures forall k :: 0 <= k < |Lines(s)| ==> Framed(Lines(s)[k])
    ensures NoNewline(Rest(s))
    decreases |s|
  {
    var i := FirstNewline(s);
    if i < |s| {
      LinesFramed(s[i + 1..]);
    }
  }

  // Reading a line from the front of a stream.
  lemma LinesOfFramed(c: Command, s: seq<byte>)
    requires Framed(c)
    ensures Lines(c + s) == [c] + Lines(s)
    ensures Rest(c + s) == Rest(s)
  {
    FirstNewlineUnique(c + s, |c| - 1);
    assert (c + s)[..|c|] == c;
    assert (c + s)[|c|..] == s;
  }

  // Splitting the concatenation of finished commands gives them back.
  lemma {:induction false} LinesRecover(cs: seq<Command>)
    requires forall i :: 0 <= i < |cs| ==> Framed(cs[i])
    ensures Lines(Flatten(cs)) == cs
    ensures Rest(Flatten(cs)) == []
  {
    if cs != [] {
      LinesRecover(cs[1..]);
      LinesOfFramed(cs[0], Flatten(cs[1..]));
      assert cs == [cs[0]] + cs[1..];
    }
  }

  predicate AllFramed(cs: seq<Command>) {
    forall i :: 0 <= i < |cs| ==> Framed(cs[i])
  }

  lemma AllFramedNext(cs: seq<Command>, c: Command)
    ensures AllFramed(cs + [c]) <==> AllFramed(cs) && Framed(c)
  {
    hide Framed;
    assert (cs + [c])[|cs|] == c;
    assert forall i :: 0 <= i < |cs| ==> (cs + [c])[i] == cs[i];
  }

  // It gives back the right commands only if all of them are finished ones.
  lemma LinesRecoverExact(cs: seq<Command>)
    ensures Lines(Flatten(cs)) == cs <==> AllFramed(cs)
  {
    hide Lines, Flatten, Framed;
    LinesFramed(Flatten(cs));
    if AllFramed(cs) {
      LinesRecover(cs);
    }
  }

  // A stream that has a newline: its first line and what follows.
  lemma FirstLine(s: seq<byte>, f: seq<byte>)
    requires FirstNewline(s) < |s|
    ensures var i := FirstNewline(s);
            var c, t := s[..i + 1], s[i + 1..];
            Framed(c) && s == c + t && s + f == c + (t + f)
  {
  }

  lemma NoLines(s: seq<byte>)
    requires NoNewline(s)
    ensures Lines(s) == [] && Rest(s) == s
  {
    FirstNewlineUnique(s, |s|);
  }

  // Extending a stream by a fragment without newlines only extends its rest.
  lemma {:induction false} LinesAppendFragment(s: seq<byte>, f: seq<byte>)
    requires NoNewline(f)
    ensures Lines(s + f) == Lines(s)
    ensures Rest(s + f) == Rest(s) + f
    decreases |s|
  {
    hide Lines, Rest;
    var i := FirstNewline(s);
    if i == |s| {
      NoLines(s);
      NoLines(s + f);
    } else {
      var c, t := s[..i + 1], s[i + 1..];
      FirstLine(s, f);
      LinesAppendFragment(t, f);
      LinesOfFramed(c, t);
      LinesOfFramed(c, t + f);
    }
  }

  // Extending a stream by a fragment that ends in its only newline completes
  // one line.
  lemma {:induction false} LinesAppendFramed(s: seq<byte>, f: seq<byte>)
    requires Framed(f)
    ensures Lines(s + f) == Lines(s) + [Rest(s) + f]
    ensures Rest(s + f) == []
    decreases |s|
  {
    hide Lines, Rest;
    var i := FirstNewline(s);
    if i == |s| {
      NoLines(s);
      NoLines([]);
      LinesOfFramed(s + f, []);
      assert (s + f) + [] == s + f;
    } else {
      var c, t := s[..i + 1], s[i + 1..];
      FirstLine(s, f);
      LinesAppendFramed(t, f);
      LinesOfFramed(c, t);
      LinesOfFramed(c, t + f);
      assert [c] + (Lines(t) + [Rest(t) + f]) == ([c] + Lines(t)) + [Rest(t) + f];
    }
  }
}
