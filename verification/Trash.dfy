/** Moving files to the trash and back.  The file system is a map from paths to contents;
    directories are made as needed and not modelled. */
module Trash {
  import opened Photos

  type Content = string
  type Files = map<Path, Content>

  datatype Dirs = Dirs(photoDir: Path, trashDir: Path)

  /** A rename takes the content along and overwrites what was at the new path. */
  function Renamed(files: Files, from: Path, to: Path): Files
    requires from in files
  {
    (files - {from})[to := files[from]]
  }

  function Source(dirs: Dirs, rel: Path): Path {
    dirs.photoDir + "/" + rel
  }

  function Target(dirs: Dirs, rel: Path): Path {
    dirs.trashDir + "/" + rel
  }

  predicate InTrash(dirs: Dirs, path: Path) {
    dirs.trashDir + "/" <= path
  }

  // ---------- A path nothing is at ----------

  /** Where the extension of a path starts, looking only at its last `i` characters or fewer: at
      the last dot after the last slash. */
  function ExtStart(path: Path, i: nat): (start: nat)
    requires i <= |path|
    ensures start <= |path|
    ensures forall k :: 0 <= k < i && path[k] == '/' ==> k < start
  {
    if i == 0 || path[i - 1] == '/' then |path|
    else if path[i - 1] == '.' then i - 1
    else ExtStart(path, i - 1)
  }

  function Digit(n: nat): char
    requires n < 10
  {
    "0123456789"[n]
  }

  function Decimal(n: nat): (s: string)
    ensures |s| >= 1 && (|s| == 1 <==> n < 10)
    ensures s[|s| - 1] == Digit(n % 10)
  {
    if n < 10 then [Digit(n)] else Decimal(n / 10) + [Digit(n % 10)]
  }

  lemma DigitInjective(m: nat, n: nat)
    requires m < 10 && n < 10 && Digit(m) == Digit(n)
    ensures m == n
  {
  }

  lemma {:induction false} DecimalInjective(m: nat, n: nat)
    requires Decimal(m) == Decimal(n)
    ensures m == n
    decreases m
  {
    var s, t := Decimal(m), Decimal(n);
    DigitInjective(m % 10, n % 10);
    if m >= 10 {
      assert s[..|s| - 1] == Decimal(m / 10) && t[..|t| - 1] == Decimal(n / 10);
      DecimalInjective(m / 10, n / 10);
    }
  }

  /** The i-th path tried when `dst` is taken: its extension is preceded by a timestamp and, from
      the second on, a number. */
  function Candidate(dst: Path, stamp: string, i: nat): Path {
    var start := ExtStart(dst, |dst|);
    dst[..start] + "." + stamp + (if i == 0 then "" else "-" + Decimal(i)) + dst[start..]
  }

  lemma CandidatesDiffer(dst: Path, stamp: string, i: nat, j: nat)
    requires i < j
    ensures Candidate(dst, stamp, i) != Candidate(dst, stamp, j)
  {
    var start := ExtStart(dst, |dst|);
    var front, back := dst[..start] + "." + stamp, dst[start..];
    if i == 0 {
      assert |Candidate(dst, stamp, i)| == |front| + |back|;
      assert |Candidate(dst, stamp, j)| == |front| + 1 + |Decimal(j)| + |back|;
    } else {
      var a, b := Candidate(dst, stamp, i), Candidate(dst, stamp, j);
      if a == b {
        assert a == front + ("-" + Decimal(i)) + back && b == front + ("-" + Decimal(j)) + back;
        assert a[|front| + 1..|a| - |back|] == Decimal(i);
        assert b[|front| + 1..|b| - |back|] == Decimal(j);
        DecimalInjective(i, j);
      }
    }
  }

  /** As long as every path tried is taken, no more were tried than there are files. */
  lemma {:induction false} TriedAreFew(files: Files, dst: Path, stamp: string, n: nat, tried: set<Path>)
    requires tried == set i | 0 <= i < n :: Candidate(dst, stamp, i)
    requires forall i :: 0 <= i < n ==> Candidate(dst, stamp, i) in files
    ensures |tried| == n && n <= |files|
  {
    TriedCount(dst, stamp, n, tried);
    assert tried <= files.Keys;
    SubsetSize(tried, files.Keys);
  }

  lemma {:induction false} TriedCount(dst: Path, stamp: string, n: nat, tried: set<Path>)
    requires tried == set i | 0 <= i < n :: Candidate(dst, stamp, i)
    ensures |tried| == n
  {
    if n == 0 {
      assert tried == {};
    } else {
      var fewer := set i | 0 <= i < n - 1 :: Candidate(dst, stamp, i);
      TriedCount(dst, stamp, n - 1, fewer);
      forall i | 0 <= i < n - 1
        ensures Candidate(dst, stamp, i) != Candidate(dst, stamp, n - 1)
      {
        CandidatesDiffer(dst, stamp, i, n - 1);
      }
      assert tried == fewer + {Candidate(dst, stamp, n - 1)};
    }
  }

  lemma {:induction false} SubsetSize(a: set<Path>, b: set<Path>)
    requires a <= b
    ensures |a| <= |b|
  {
    if a != {} {
      var x :| x in a;
      SubsetSize(a - {x}, b - {x});
    }
  }

  lemma CandidateInTrash(dirs: Dirs, rel: Path, stamp: string, i: nat)
    ensures InTrash(dirs, Candidate(Target(dirs, rel), stamp, i))
  {
    var dst := Target(dirs, rel);
    assert dst[|dirs.trashDir|] == '/';
    assert dirs.trashDir + "/" <= dst[..ExtStart(dst, |dst|)];
  }

  /** An extension is empty, or a dot followed by neither dots nor slashes. */
  predicate IsExtension(ext: string) {
    ext == "" || (ext[0] == '.' && forall k :: 0 < k < |ext| ==> ext[k] != '.' && ext[k] != '/')
  }

  /** No dot comes after the last slash. */
  ghost predicate HasNoExtension(path: Path) {
    forall k :: 0 <= k < |path| && path[k] == '.' ==> exists j :: k < j < |path| && path[j] == '/'
  }

  predicate IsNumber(s: string) {
    s == "" || (|s| > 1 && s[0] == '-' && forall k :: 0 < k < |s| ==> '0' <= s[k] <= '9')
  }

  /** The path `r` is `dst` with the stamp, and perhaps a number, put before the extension. */
  ghost predicate IsStamped(dst: Path, stamp: string, r: Path, stem: string, number: string, ext: string) {
    && dst == stem + ext && r == stem + "." + stamp + number + ext
    && IsExtension(ext) && IsNumber(number) && (ext == "" ==> HasNoExtension(dst))
  }

  ghost predicate KeepsName(dst: Path, stamp: string, r: Path) {
    exists stem, number, ext :: IsStamped(dst, stamp, r, stem, number, ext)
  }

  lemma {:induction false} DecimalDigits(n: nat)
    ensures forall k :: 0 <= k < |Decimal(n)| ==> '0' <= Decimal(n)[k] <= '9'
  {
    if n >= 10 {
      DecimalDigits(n / 10);
    }
  }

  lemma {:induction false} ExtStartMeans(path: Path, i: nat)
    requires i <= |path| && forall k :: i <= k < |path| ==> path[k] != '.' && path[k] != '/'
    ensures IsExtension(path[ExtStart(path, i)..])
    ensures ExtStart(path, i) == |path| ==> HasNoExtension(path)
    decreases i
  {
    if i > 0 && path[i - 1] != '/' && path[i - 1] != '.' {
      ExtStartMeans(path, i - 1);
    }
  }

  /** A stamped path keeps the directory, the stem and the extension. */
  lemma CandidateKeepsName(dst: Path, stamp: string, i: nat)
    ensures KeepsName(dst, stamp, Candidate(dst, stamp, i))
  {
    var start := ExtStart(dst, |dst|);
    var number := if i == 0 then "" else "-" + Decimal(i);
    ExtStartMeans(dst, |dst|);
    DecimalDigits(i);
    assert dst == dst[..start] + dst[start..];
    assert IsStamped(dst, stamp, Candidate(dst, stamp, i), dst[..start], number, dst[start..]);
  }

  ghost predicate IsFirstFree(files: Files, dst: Path, stamp: string, i: nat) {
    && Candidate(dst, stamp, i) !in files
    && forall j :: 0 <= j < i ==> Candidate(dst, stamp, j) in files
  }

  /** The search for a free path ends, and ends at the first one that is free. */
  method UniqueDest(files: Files, dst: Path, stamp: string) returns (r: Path)
    ensures r !in files
    ensures dst !in files ==> r == dst
    ensures dst in files ==> exists i: nat :: IsFirstFree(files, dst, stamp, i) && r == Candidate(dst, stamp, i)
    ensures dst in files ==> KeepsName(dst, stamp, r)
  {
    if dst !in files {
      return dst;
    }
    var start := ExtStart(dst, |dst|);
    var ext := dst[start..];
    var base := dst[..start];
    var candidate := base + "." + stamp + ext;
    assert base + "." + stamp + "" == base + "." + stamp;
    var i := 1;
    while true
      invariant 1 <= i && candidate == Candidate(dst, stamp, i - 1)
      invariant forall j :: 0 <= j < i - 1 ==> Candidate(dst, stamp, j) in files
      decreases |files| + 1 - i
    {
      if candidate !in files {
        assert IsFirstFree(files, dst, stamp, i - 1);
        CandidateKeepsName(dst, stamp, i - 1);
        return candidate;
      }
      TriedAreFew(files, dst, stamp, i, set j | 0 <= j < i :: Candidate(dst, stamp, j));
      candidate := base + "." + stamp + "-" + Decimal(i) + ext;
      assert base + "." + stamp + "-" + Decimal(i) == base + "." + stamp + ("-" + Decimal(i));
      i := i + 1;
    }
  }

  // ---------- Moves recorded in undo entries ----------

  /** The file move that goes with a member's transition: a trashed member's file is moved. */
  function Moved(files: Files, op: ClusterMemberOp): Files {
    if op.newState == Trashed && op.trashFrom in files then Renamed(files, op.trashFrom, op.trashTo) else files
  }

  /** The move back that undo makes. */
  function MovedBack(files: Files, op: ClusterMemberOp): Files {
    if op.newState == Trashed && op.trashTo != "" && op.trashFrom != "" && op.trashTo in files
    then Renamed(files, op.trashTo, op.trashFrom)
    else files
  }

  function AllMoved(files: Files, ops: seq<ClusterMemberOp>): Files
    decreases |ops|
  {
    if ops == [] then files else AllMoved(Moved(files, ops[0]), ops[1..])
  }

  function AllMovedBack(files: Files, ops: seq<ClusterMemberOp>): Files
    decreases |ops|
  {
    if ops == [] then files else AllMovedBack(MovedBack(files, ops[0]), ops[1..])
  }

  /** The member's file is where it should be, outside the trash, and nothing is at its place in the
      trash. */
  predicate MoveFits(dirs: Dirs, files: Files, op: ClusterMemberOp) {
    op.newState == Trashed ==>
      && op.trashFrom in files && op.trashTo !in files
      && !InTrash(dirs, op.trashFrom) && InTrash(dirs, op.trashTo)
      && op.trashFrom != ""
  }

  predicate MovesFit(dirs: Dirs, files: Files, ops: seq<ClusterMemberOp>)
    decreases |ops|
  {
    ops == [] || (MoveFits(dirs, files, ops[0]) && MovesFit(dirs, Moved(files, ops[0]), ops[1..]))
  }

  lemma {:induction false} MovesGrow(dirs: Dirs, files: Files, ops: seq<ClusterMemberOp>, op: ClusterMemberOp)
    requires MovesFit(dirs, files, ops) && MoveFits(dirs, AllMoved(files, ops), op)
    ensures MovesFit(dirs, files, ops + [op])
    ensures AllMoved(files, ops + [op]) == Moved(AllMoved(files, ops), op)
    decreases |ops|
  {
    if ops == [] {
      assert ops + [op] == [op];
      assert MovesFit(dirs, Moved(files, op), []);
      assert AllMoved(Moved(files, op), []) == Moved(files, op);
    } else {
      assert (ops + [op])[1..] == ops[1..] + [op];
      MovesGrow(dirs, Moved(files, ops[0]), ops[1..], op);
    }
  }

  lemma MoveBackInverts(dirs: Dirs, files: Files, op: ClusterMemberOp)
    requires MoveFits(dirs, files, op)
    ensures MovedBack(Moved(files, op), op) == files
  {
    if op.newState == Trashed {
      assert op.trashTo != "";
    }
  }

  /** Two moves one after the other, by members whose paths do not interfere. */
  lemma MovesCommute(dirs: Dirs, files: Files, first: ClusterMemberOp, second: ClusterMemberOp)
    requires MoveFits(dirs, files, first) && MoveFits(dirs, Moved(files, first), second)
    ensures MoveFits(dirs, files, second) && MoveFits(dirs, Moved(files, second), first)
    ensures Moved(Moved(files, first), second) == Moved(Moved(files, second), first)
  {
  }

  /** A move after others could as well have been made before them. */
  lemma {:induction false} MoveFirst(dirs: Dirs, files: Files, ops: seq<ClusterMemberOp>, op: ClusterMemberOp)
    requires MovesFit(dirs, files, ops) && MoveFits(dirs, AllMoved(files, ops), op)
    ensures MoveFits(dirs, files, op) && MovesFit(dirs, Moved(files, op), ops)
    ensures AllMoved(Moved(files, op), ops) == Moved(AllMoved(files, ops), op)
    decreases |ops|
  {
    if ops != [] {
      MoveFirst(dirs, Moved(files, ops[0]), ops[1..], op);
      MovesCommute(dirs, files, ops[0], op);
    }
  }

  /** Moving the first member's file back from the trash is as if it had never been moved. */
  lemma {:induction false} MoveBackFirst(dirs: Dirs, files: Files, first: ClusterMemberOp, rest: seq<ClusterMemberOp>)
    requires MoveFits(dirs, files, first) && MovesFit(dirs, Moved(files, first), rest)
    ensures MovesFit(dirs, files, rest)
    ensures MovedBack(AllMoved(Moved(files, first), rest), first) == AllMoved(files, rest)
    decreases |rest|
  {
    if rest == [] {
      MoveBackInverts(dirs, files, first);
    } else {
      MovesCommute(dirs, files, first, rest[0]);
      MoveBackFirst(dirs, Moved(files, rest[0]), first, rest[1..]);
    }
  }

  /** Undo moves the files of a cluster back in the order in which they were moved, and still every
      file is back in its place. */
  lemma {:induction false} AllMoveBackInverts(dirs: Dirs, files: Files, ops: seq<ClusterMemberOp>)
    requires MovesFit(dirs, files, ops)
    ensures AllMovedBack(AllMoved(files, ops), ops) == files
    decreases |ops|
  {
    if ops != [] {
      MoveBackFirst(dirs, files, ops[0], ops[1..]);
      AllMoveBackInverts(dirs, files, ops[1..]);
    }
  }

  /** The moves put nothing at a path outside the trash. */
  lemma {:induction false} NothingNewOutside(dirs: Dirs, files: Files, ops: seq<ClusterMemberOp>, path: Path)
    requires MovesFit(dirs, files, ops) && !InTrash(dirs, path) && path !in files
    ensures path !in AllMoved(files, ops)
    decreases |ops|
  {
    if ops != [] {
      NothingNewOutside(dirs, Moved(files, ops[0]), ops[1..], path);
    }
  }

  /** Every file that is moved was there at the start, and is no longer there at the end. */
  lemma {:induction false} TrashedFileLeaves(dirs: Dirs, files: Files, ops: seq<ClusterMemberOp>, op: ClusterMemberOp)
    requires MovesFit(dirs, files, ops) && op in ops && op.newState == Trashed
    ensures op.trashFrom in files && op.trashFrom !in AllMoved(files, ops)
    decreases |ops|
  {
    assert ops == [ops[0]] + ops[1..];
    if op == ops[0] {
      NothingNewOutside(dirs, Moved(files, op), ops[1..], op.trashFrom);
    } else {
      TrashedFileLeaves(dirs, Moved(files, ops[0]), ops[1..], op);
      TrashedIsOutside(dirs, Moved(files, ops[0]), ops[1..], op);
    }
  }

  lemma {:induction false} TrashedIsOutside(dirs: Dirs, files: Files, ops: seq<ClusterMemberOp>, op: ClusterMemberOp)
    requires MovesFit(dirs, files, ops) && op in ops && op.newState == Trashed
    ensures !InTrash(dirs, op.trashFrom)
    decreases |ops|
  {
    assert ops == [ops[0]] + ops[1..];
    if op != ops[0] {
      TrashedIsOutside(dirs, Moved(files, ops[0]), ops[1..], op);
    }
  }

  // ---------- Contents are conserved ----------

  ghost function Contents(files: Files): multiset<Content> {
    if files == map[] then multiset{}
    else
      var path :| path in files;
      Contents(files - {path}) + multiset{files[path]}
  }

  lemma ContentsUnfolded(files: Files) returns (path: Path)
    requires files != map[]
    ensures path in files && Contents(files) == Contents(files - {path}) + multiset{files[path]}
  {
    path :| path in files && Contents(files) == Contents(files - {path}) + multiset{files[path]};
  }

  lemma WithoutBoth(files: Files, a: Path, b: Path)
    requires a in files && b in files && a != b
    ensures files - {a} - {b} == files - {b} - {a}
    ensures b in files - {a} && (files - {a})[b] == files[b] && |files - {a}| < |files|
    ensures a in files - {b} && (files - {b})[a] == files[a] && |files - {b}| < |files|
  {
    assert (files - {a}).Keys == files.Keys - {a} && (files - {b}).Keys == files.Keys - {b};
  }

  lemma {:induction false} ContentsWithout(files: Files, path: Path)
    requires path in files
    ensures Contents(files) == Contents(files - {path}) + multiset{files[path]}
    decreases |files|
  {
    var chosen := ContentsUnfolded(files);
    if chosen != path {
      WithoutBoth(files, chosen, path);
      ContentsWithout(files - {chosen}, path);
      ContentsWithout(files - {path}, chosen);
    }
  }

  lemma ContentsWith(files: Files, path: Path, content: Content)
    requires path !in files
    ensures Contents(files[path := content]) == Contents(files) + multiset{content}
  {
    ContentsWithout(files[path := content], path);
    assert files[path := content] - {path} == files;
  }

  lemma RenameConserves(files: Files, from: Path, to: Path)
    requires from in files && to !in files
    ensures Contents(Renamed(files, from, to)) == Contents(files)
  {
    ContentsWithout(files, from);
    ContentsWith(files - {from}, to, files[from]);
  }

  lemma {:induction false} MovesConserve(dirs: Dirs, files: Files, ops: seq<ClusterMemberOp>)
    requires MovesFit(dirs, files, ops)
    ensures Contents(AllMoved(files, ops)) == Contents(files)
    decreases |ops|
  {
    if ops != [] {
      if ops[0].newState == Trashed {
        RenameConserves(files, ops[0].trashFrom, ops[0].trashTo);
      }
      MovesConserve(dirs, Moved(files, ops[0]), ops[1..]);
    }
  }
}
