// mk_dir_r and open_file of writer.c over an abstract file system, with mkdir,
// open and dirname as in the System Interfaces volume of POSIX.1-2008
// (IEEE Std 1003.1-2008).
module Directories {
  import opened Words

  type Name = seq<char>

  // A path as its components, below a directory that always exists (the root,
  // or the working directory for a relative path).
  type Path = seq<Name>

  const RETRIES: int := 254

  datatype Outcome = Ok | ENOENT | ENOTDIR | EEXIST | EISDIR

  function DirName(p: Path): Path {
    if p == [] then [] else p[..|p| - 1]
  }

  // Every name in the file system lies in a directory.
  ghost predicate Closed(dirs: set<Path>, files: set<Path>) {
    && [] in dirs && dirs !! files
    && forall p :: p in dirs + files && p != [] ==> DirName(p) in dirs
  }

  // Some prefix of p, p included, is a plain file.
  predicate Blocked(files: set<Path>, p: Path) {
    exists k :: 0 <= k <= |p| && p[..k] in files
  }

  // How many leading components of p exist as directories.
  function Depth(dirs: set<Path>, p: Path): (d: nat)
    ensures d <= |p|
    ensures [] in dirs ==> p[..d] in dirs
    ensures d < |p| ==> p[..d + 1] !in dirs
    decreases |p|
  {
    if p == [] || p in dirs then
      assert p[..|p|] == p;
      |p|
    else
      var q := p[..|p| - 1];
      var d := Depth(dirs, q);
      assert p[..d] == q[..d];
      assert d < |q| ==> p[..d + 1] == q[..d + 1];
      assert d == |q| ==> p[..d + 1] == p;
      d
  }

  // The prefixes of q of lengths from + 1 to to, shallowest first.
  function Chain(q: Path, from: nat, to: nat): (c: seq<Path>)
    requires from <= to <= |q|
    ensures |c| == to - from
    ensures forall i :: 0 <= i < |c| ==> c[i] == q[..from + 1 + i]
  {
    seq(to - from, i requires 0 <= i < to - from => q[..from + 1 + i])
  }

  // Exactly the prefixes up to the depth are directories.
  lemma {:induction false} DepthExact(dirs: set<Path>, files: set<Path>, q: Path, k: nat)
    requires Closed(dirs, files) && k <= |q|
    ensures q[..k] in dirs <==> k <= Depth(dirs, q)
    decreases |q| - k
  {
    var d := Depth(dirs, q);
    if k < |q| {
      DepthExact(dirs, files, q, k + 1);
      assert DirName(q[..k + 1]) == q[..k];
    } else {
      assert q[..k] == q;
    }
    if k > d {
      assert q[..k][..d + 1] == q[..d + 1];
      if q[..k] in dirs {
        PrefixIn(dirs, files, q[..k], d + 1);
      }
    }
    if k <= d {
      PrefixIn(dirs, files, q[..d], k);
      assert q[..d][..k] == q[..k];
    }
  }

  // Prefixes of a directory are directories.
  lemma {:induction false} PrefixIn(dirs: set<Path>, files: set<Path>, p: Path, k: nat)
    requires Closed(dirs, files) && p in dirs && k <= |p|
    ensures p[..k] in dirs
    decreases |p|
  {
    if k == |p| {
      assert p[..k] == p;
    } else {
      var q := DirName(p);
      PrefixIn(dirs, files, q, k);
      assert q[..k] == p[..k];
    }
  }

  // Creating the next missing prefix of q keeps the file system closed and
  // makes q one level less deep to reach.
  lemma CreateNext(dirs: set<Path>, files: set<Path>, q: Path)
    requires Closed(dirs, files) && !Blocked(files, q) && Depth(dirs, q) < |q|
    ensures var d := Depth(dirs, q);
            var after := dirs + {q[..d + 1]};
            Closed(after, files) && Depth(after, q) == d + 1
  {
    var d := Depth(dirs, q);
    var next := q[..d + 1];
    var after := dirs + {next};
    assert DirName(next) == q[..d];
    var e := Depth(after, q);
    DepthExact(after, files, q, d + 1);
    if e > d + 1 {
      assert q[..e] in dirs;
      DepthExact(dirs, files, q, e);
    }
  }

  lemma NotBlockedPrefix(files: set<Path>, q: Path, l: nat)
    requires !Blocked(files, q) && l <= |q|
    ensures !Blocked(files, q[..l]) && q[..l] !in files
  {
    forall k: nat | k <= l
      ensures q[..l][..k] !in files
    {
      assert q[..l][..k] == q[..k];
    }
  }

  // The mkdir calls of i passes that start with k directories missing: k, then
  // k - 1, and so on.
  function Cost(k: nat, i: nat): int {
    if i == 0 then 0 else Cost(k, i - 1) + (k - (i - 1))
  }

  lemma {:induction false} CostClosed(k: nat, i: nat)
    ensures 2 * Cost(k, i) == i * (2 * k - i + 1)
  {
    if i > 0 {
      CostClosed(k, i - 1);
      assert i * (2 * k - i + 1) == (i - 1) * (2 * k - (i - 1) + 1) + 2 * (k - (i - 1));
    }
  }

  lemma CostTotal(k: nat)
    ensures Cost(k, k) == k * (k + 1) / 2
  {
    CostClosed(k, k);
  }

  lemma CostNext(k: nat, i: nat)
    ensures Cost(k, 0) == 0 && Cost(k, i + 1) == Cost(k, i) + (k - i)
  {
  }

  lemma ChainNext(q: Path, from: nat, to: nat)
    requires from <= to < |q|
    ensures Chain(q, from, to + 1) == Chain(q, from, to) + [q[..to + 1]]
    ensures Elements(Chain(q, from, to + 1)) == Elements(Chain(q, from, to)) + {q[..to + 1]}
  {
    var c := Chain(q, from, to);
    assert Chain(q, from, to + 1) == c + [q[..to + 1]];
  }

  // What mkdir meets at the missing prefix of length l.
  lemma Climb(dirs: set<Path>, files: set<Path>, q: Path, l: nat)
    requires Closed(dirs, files) && !Blocked(files, q) && Depth(dirs, q) < l <= |q|
    ensures q[..l] !in dirs && q[..l] !in files && !Blocked(files, q[..l])
    ensures DirName(q[..l]) in dirs <==> l == Depth(dirs, q) + 1
  {
    DepthExact(dirs, files, q, l);
    DepthExact(dirs, files, q, l - 1);
    assert DirName(q[..l]) == q[..l - 1];
    NotBlockedPrefix(files, q, l);
  }

  // What passes that make one directory each have done from the first state to
  // the second, in which the prefixes of q up to length e exist.
  ghost predicate AfterPasses(q: Path, dirs0: set<Path>, made0: seq<Path>, attempts0: nat, e: nat,
                              dirs: set<Path>, made: seq<Path>, attempts: nat)
  {
    var d := Depth(dirs0, q);
    && d <= e <= |q| && Depth(dirs, q) == e
    && made == made0 + Chain(q, d, e) && dirs == dirs0 + Elements(Chain(q, d, e))
    && attempts == attempts0 + Cost(|q| - d, e - d)
  }

  lemma NoPassYet(q: Path, dirs0: set<Path>, made0: seq<Path>, attempts0: nat,
                  dirs: set<Path>, made: seq<Path>, attempts: nat)
    ensures AfterPasses(q, dirs0, made0, attempts0, Depth(dirs0, q), dirs, made, attempts)
            <==> dirs == dirs0 && made == made0 && attempts == attempts0
  {
    var d := Depth(dirs0, q);
    assert Chain(q, d, d) == [];
    NoElements();
  }

  // Extending both records by one name.
  lemma ChainMade(q: Path, d: nat, e: nat, dirs0: set<Path>, made0: seq<Path>)
    requires d <= e < |q|
    ensures (made0 + Chain(q, d, e)) + [q[..e + 1]] == made0 + Chain(q, d, e + 1)
    ensures (dirs0 + Elements(Chain(q, d, e))) + {q[..e + 1]} == dirs0 + Elements(Chain(q, d, e + 1))
  {
    hide Chain, Elements;
    ChainNext(q, d, e);
  }

  // One more pass makes the next missing prefix, with one call of mkdir for each
  // that is still missing.
  lemma OneMorePass(q: Path, dirs0: set<Path>, made0: seq<Path>, attempts0: nat, e: nat,
                    dirs: set<Path>, files: set<Path>, made: seq<Path>, attempts: nat)
    requires AfterPasses(q, dirs0, made0, attempts0, e, dirs, made, attempts)
    requires Closed(dirs, files) && !Blocked(files, q) && e < |q|
    ensures Depth(dirs + {q[..e + 1]}, q) == e + 1
    ensures AfterPasses(q, dirs0, made0, attempts0, e + 1,
                        dirs + {q[..e + 1]}, made + [q[..e + 1]], attempts + (|q| - e))
  {
    hide Depth, Closed, Blocked, Chain, Elements, Cost;
    var d := Depth(dirs0, q);
    var dirs1, made1 := dirs + {q[..e + 1]}, made + [q[..e + 1]];
    CreateNext(dirs, files, q);
    assert Depth(dirs1, q) == e + 1;
    ChainMade(q, d, e, dirs0, made0);
    assert dirs1 == dirs0 + Elements(Chain(q, d, e + 1)) && made1 == made0 + Chain(q, d, e + 1);
    CostNext(|q| - d, e - d);
  }

  // When every missing directory has been made.
  lemma AllPassesMade(q: Path, dirs0: set<Path>, made0: seq<Path>, attempts0: nat,
                      dirs: set<Path>, made: seq<Path>, attempts: nat)
    requires AfterPasses(q, dirs0, made0, attempts0, |q|, dirs, made, attempts)
    ensures var d := Depth(dirs0, q);
            var k := |q| - d;
            && made == made0 + Chain(q, d, |q|) && dirs == dirs0 + Elements(Chain(q, d, |q|))
            && attempts == attempts0 + k * (k + 1) / 2
  {
    hide Depth, Chain, Elements, Cost;
    CostTotal(|q| - Depth(dirs0, q));
  }

  class FileSystem {
    var dirs: set<Path>
    var files: set<Path>
    // Every directory made so far, in order, and the number of mkdir calls.
    ghost var made: seq<Path>
    ghost var attempts: nat

    ghost predicate Valid()
      reads this
    {
      Closed(dirs, files)
    }

    // What mkdir answers: an existing name, a file in the way, no parent, or
    // success.
    function MkdirOutcome(p: Path): Outcome
      reads this
    {
      if p in dirs || p in files then EEXIST
      else if Blocked(files, p) then ENOTDIR
      else if DirName(p) !in dirs then ENOENT
      else Ok
    }

    method Mkdir(p: Path) returns (r: Outcome)
      requires Valid()
      modifies this
      ensures Valid() && r == old(MkdirOutcome(p)) && files == old(files)
      ensures attempts == old(attempts) + 1
      ensures r.Ok? ==> dirs == old(dirs) + {p} && made == old(made) + [p]
      ensures !r.Ok? ==> dirs == old(dirs) && made == old(made)
    {
      attempts := attempts + 1;
      r := MkdirOutcome(p);
      if r.Ok? {
        assert p[..|p|] == p;
        dirs := dirs + {p};
        made := made + [p];
      }
    }

    method OpenDirectory(p: Path) returns (r: Outcome)
      requires Valid()
      ensures r.Ok? <==> p in dirs
      ensures r == ENOENT <==> p !in dirs && !Blocked(files, p)
    {
      r := if p in dirs then Ok else if Blocked(files, p) then ENOTDIR else ENOENT;
      if p in dirs {
        forall k: nat | k <= |p|
          ensures p[..k] !in files
        {
          PrefixIn(dirs, files, p, k);
        }
      }
    }

    // One outer pass: climbs from the parent of path towards the root until a
    // directory can be made. It makes the next missing one, on the attempt
    // numbered by how many are missing, or gives up after RETRIES attempts.
    method MakeOne(path: Path) returns (er: Outcome)
      requires Valid() && !Blocked(files, DirName(path)) && DirName(path) !in dirs
      modifies this
      ensures Valid() && files == old(files)
      ensures var q, d := DirName(path), old(Depth(dirs, DirName(path)));
              var missing := |q| - d;
              if missing <= RETRIES then
                && er == Ok && dirs == old(dirs) + {q[..d + 1]} && made == old(made) + [q[..d + 1]]
                && attempts == old(attempts) + missing
              else
                && er == ENOENT && dirs == old(dirs) && made == old(made)
                && attempts == old(attempts) + RETRIES
    {
      hide Closed, Blocked, Depth;
      ghost var q := DirName(path);
      ghost var d := Depth(dirs, q);
      DepthExact(dirs, files, q, |q|);
      assert q[..|q|] == q;
      var j, parent := 0, path;
      er := ENOENT;
      while j == 0 || (!er.Ok? && er == ENOENT && j < RETRIES)
        invariant Valid() && files == old(files) && attempts == old(attempts) + j
        invariant j <= RETRIES && j <= |q| - d && |parent| == |path| - j && parent == path[..|parent|]
        invariant j < |q| - d ==> er == ENOENT
        invariant j == |q| - d ==> er == Ok && dirs == old(dirs) + {q[..d + 1]} && made == old(made) + [q[..d + 1]]
        invariant j != |q| - d ==> dirs == old(dirs) && made == old(made)
        decreases |q| - d - j
      {
        j := j + 1;
        parent := DirName(parent);
        ghost var l := |q| - j + 1;
        assert parent == q[..l];
        Climb(dirs, files, q, l);
        er := Mkdir(parent);
      }
    }

    // mk_dir_r. With q the parent of path and k of its prefixes missing: a file
    // on the way stops it at once; up to 253 missing directories are all made,
    // shallowest first, with k(k+1)/2 calls of mkdir; with 254 all are made and
    // it still reports failure; with more nothing is made.
    method MkDirR(path: Path) returns (ret: int)
      requires Valid()
      modifies this
      ensures Valid() && files == old(files)
      ensures var q := DirName(path);
              var d := Depth(old(dirs), q);
              var k := |q| - d;
              if Blocked(files, q) then
                ret == -1 && dirs == old(dirs) && made == old(made) && attempts == old(attempts)
              else if k <= RETRIES then
                && ret == (if k < RETRIES then 0 else -1)
                && made == old(made) + Chain(q, d, |q|) && dirs == old(dirs) + Elements(Chain(q, d, |q|))
                && attempts == old(attempts) + k * (k + 1) / 2
              else
                ret == -1 && dirs == old(dirs) && made == old(made) && attempts == old(attempts) + RETRIES
    {
      hide Closed, Blocked, Depth, Elements, Chain, Cost, AfterPasses;
      ghost var q := DirName(path);
      ghost var d := Depth(dirs, q);
      ghost var dirs0, made0, attempts0 := dirs, made, attempts;
      BlockedIsMissing(dirs, files, q);
      NoPassYet(q, dirs, made, attempts, dirs, made, attempts);
      for i := 0 to RETRIES
        invariant Valid() && files == old(files)
        invariant i > 0 ==> |q| - d <= RETRIES && !Blocked(files, q)
        invariant Depth(dirs, q) == d + i <= |q|
        invariant AfterPasses(q, dirs0, made0, attempts0, d + i, dirs, made, attempts)
      {
        DepthExact(dirs, files, q, |q|);
        assert q[..|q|] == q;
        NoPassYet(q, dirs0, made0, attempts0, dirs, made, attempts);
        var dir := OpenDirectory(DirName(path));
        if dir.Ok? {
          BlockedIsMissing(dirs, files, q);
          AllPassesMade(q, dirs0, made0, attempts0, dirs, made, attempts);
          return 0;
        } else if dir == ENOENT {
          OneMorePass(q, dirs0, made0, attempts0, d + i, dirs, files, made, attempts);
          var er := MakeOne(path);
          if !er.Ok? {
            return -1;
          }
        } else {
          return -1;
        }
      }
      AllPassesMade(q, dirs0, made0, attempts0, dirs, made, attempts);
      ret := -1;
    }

    // open(path, O_CREAT | O_TRUNC | O_WRONLY).
    method OpenCreate(path: Path) returns (r: Outcome)
      requires Valid()
      modifies this
      ensures Valid() && dirs == old(dirs) && made == old(made) && attempts == old(attempts)
      ensures files == old(files) + (if r.Ok? then {path} else {})
      ensures r.Ok? <==> path !in dirs && DirName(path) in dirs
      ensures r == ENOENT <==> path !in dirs && DirName(path) !in dirs && !Blocked(old(files), DirName(path))
    {
      if path in dirs {
        return EISDIR;
      } else if path in files {
        return Ok;
      } else if DirName(path) in dirs {
        files := files + {path};
        return Ok;
      }
      r := if Blocked(files, DirName(path)) then ENOTDIR else ENOENT;
    }

    // open_file: the file is opened exactly when it is not a directory, no
    // plain file is in the way and at most 254 directories are missing (one
    // more than mk_dir_r reports as success: its answer is ignored). What is
    // missing is then made; otherwise nothing changes.
    method OpenFile(path: Path) returns (success: bool)
      requires Valid()
      modifies this
      ensures Valid()
      ensures var q := DirName(path);
              var d := Depth(old(dirs), q);
              && (success <==> path !in old(dirs) && !Blocked(old(files), q) && |q| - d <= RETRIES)
              && dirs == old(dirs) + (if success then Elements(Chain(q, d, |q|)) else {})
              && files == old(files) + (if success then {path} else {})
    {
      hide Blocked, Depth, Closed;
      ghost var q := DirName(path);
      ghost var d := Depth(dirs, q);
      DepthExact(dirs, files, q, |q|);
      assert q[..|q|] == q;
      BlockedIsMissing(dirs, files, q);
      ghost var before := dirs;
      var r := OpenCreate(path);
      if r == ENOENT {
        var _ := MkDirR(path);
        if |q| - d <= RETRIES {
          ChainReaches(q, d);
          ChainAvoids(before, path, d);
        }
        r := OpenCreate(path);
      } else if r.Ok? {
        assert Chain(q, d, |q|) == [];
      }
      success := r.Ok?;
    }
  }

  lemma ChainReaches(q: Path, d: nat)
    requires d < |q|
    ensures q in Elements(Chain(q, d, |q|))
  {
    var c := Chain(q, d, |q|);
    assert c[|c| - 1] == q[..|q|] == q;
  }

  // The ancestors of a path do not include it.
  lemma ChainAvoids(dirs: set<Path>, path: Path, d: nat)
    requires d <= |DirName(path)| && path !in dirs && path != []
    ensures path !in dirs + Elements(Chain(DirName(path), d, |DirName(path)|))
  {
  }

  lemma NoElements()
    ensures Elements<Path>([]) == {}
  {
  }

  // A directory has no plain file among its prefixes.
  lemma BlockedIsMissing(dirs: set<Path>, files: set<Path>, q: Path)
    requires Closed(dirs, files)
    ensures Blocked(files, q) ==> Depth(dirs, q) < |q|
  {
    if Depth(dirs, q) == |q| {
      forall k: nat | k <= |q|
        ensures q[..k] !in files
      {
        DepthExact(dirs, files, q, k);
      }
    }
  }
}
