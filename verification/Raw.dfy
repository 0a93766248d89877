/** The search for an embedded JPEG preview in a TIFF-based RAW file: a bounded breadth-first walk
    over image file directories (TIFF Revision 6.0, section 2), which an untrusted file may link in
    any way, cycles included. */
module Raw {
  import opened Photos
  import Sorting

  type byte = b: int | 0 <= b < 256

  type Offset = nat

  datatype Order = Little | Big

  /** A 16-bit number from its low and its high byte. */
  function Join(low: int, high: int): (n: nat)
    requires 0 <= low < 256 && 0 <= high < 256
    ensures n < 0x10000
  {
    low + 256 * high
  }

  function U16(order: Order, b: seq<byte>): nat
    requires |b| >= 2
  {
    if order == Little then Join(b[0], b[1]) else Join(b[1], b[0])
  }

  function U32(order: Order, b: seq<byte>): nat
    requires |b| >= 4
  {
    if order == Little then Join(b[0], b[1]) + 0x10000 * Join(b[2], b[3])
    else Join(b[3], b[2]) + 0x10000 * Join(b[1], b[0])
  }

  /** Little-endian numbers have their low byte first, big-endian numbers their high byte. */
  lemma BytesMean(a: byte, b: byte, c: byte, d: byte)
    ensures U16(Little, [a, b]) == a + 0x100 * b && U16(Big, [a, b]) == 0x100 * a + b
    ensures U32(Little, [a, b, c, d]) == a + 0x100 * b + 0x1_0000 * c + 0x100_0000 * d
    ensures U32(Big, [a, b, c, d]) == 0x100_0000 * a + 0x1_0000 * b + 0x100 * c + d
  {
  }

  /** As many of the `n` bytes from `off` on as the file has. */
  function ReadAt(file: seq<byte>, off: nat, n: nat): (r: seq<byte>)
    ensures |r| <= n
  {
    if off >= |file| then [] else if off + n <= |file| then file[off..off + n] else file[off..]
  }

  // ---------- Directories ----------

  datatype Region = Region(off: Offset, length: nat)

  /** What the scan of a directory's entries has collected. */
  datatype Scan = Scan(jpegOff: nat, jpegLen: nat, stripOff: nat, stripLen: nat, compression: nat, subs: seq<Offset>)

  /** One 12-byte entry. */
  datatype Entry = Entry(tag: nat, ftype: nat, count: nat, val: seq<byte>)

  function EntryOf(order: Order, b: seq<byte>): (e: Entry)
    requires |b| == 12
    ensures |e.val| == 4
  {
    Entry(U16(order, b[0..2]), U16(order, b[2..4]), U32(order, b[4..8]), b[8..12])
  }

  function EntryAt(order: Order, entries: seq<byte>, i: nat): (e: Entry)
    requires 12 * i + 12 <= |entries|
    ensures |e.val| == 4
  {
    EntryOf(order, entries[12 * i..12 * i + 12])
  }

  /** The value of a SHORT entry is left-justified in its field; any other is read as a LONG. */
  function Scalar(order: Order, e: Entry): nat
    requires |e.val| == 4
  {
    if e.ftype == 3 then U16(order, e.val[..2]) else U32(order, e.val)
  }

  function Offsets(order: Order, buf: seq<byte>, n: nat): seq<Offset>
    requires 4 * n <= |buf|
  {
    seq(n, i requires 0 <= i < n => U32(order, buf[4 * i..4 * i + 4]))
  }

  /** The offsets of the sub-directories: one is in the entry itself, more are in an array. */
  function SubOffsets(file: seq<byte>, order: Order, count: nat, val: seq<byte>): seq<Offset>
    requires |val| == 4
  {
    if count == 0 || count > 16 then []
    else if count == 1 then [U32(order, val)]
    else
      var buf := ReadAt(file, U32(order, val), 4 * count);
      if |buf| < 4 * count then [] else Offsets(order, buf, count)
  }

  const EMPTY_SCAN := Scan(0, 0, 0, 0, 0, [])

  function Step(file: seq<byte>, order: Order, s: Scan, e: Entry): Scan
    requires |e.val| == 4
  {
    if e.tag == 0x0103 then s.(compression := U16(order, e.val[..2]))
    else if e.tag == 0x0111 then (if e.count == 1 then s.(stripOff := Scalar(order, e)) else s)
    else if e.tag == 0x0117 then (if e.count == 1 then s.(stripLen := Scalar(order, e)) else s)
    else if e.tag == 0x0201 then s.(jpegOff := Scalar(order, e))
    else if e.tag == 0x0202 then s.(jpegLen := Scalar(order, e))
    else if e.tag == 0x014A then s.(subs := s.subs + SubOffsets(file, order, e.count, e.val))
    else s
  }

  function ScanEntries(file: seq<byte>, order: Order, entries: seq<byte>, n: nat): Scan
    requires 12 * n <= |entries|
  {
    if n == 0 then EMPTY_SCAN
    else Step(file, order, ScanEntries(file, order, entries, n - 1), EntryAt(order, entries, n - 1))
  }

  // What the scan collects is what the last fitting entry of each tag says.

  /** The entry sets the field that belongs to the tag. */
  predicate Sets(e: Entry, tag: nat) {
    e.tag == tag && (tag == 0x0111 || tag == 0x0117 ==> e.count == 1)
  }

  function FieldOf(s: Scan, tag: nat): nat {
    if tag == 0x0103 then s.compression
    else if tag == 0x0111 then s.stripOff
    else if tag == 0x0117 then s.stripLen
    else if tag == 0x0201 then s.jpegOff
    else if tag == 0x0202 then s.jpegLen
    else 0
  }

  const SCALAR_TAGS := {0x0103, 0x0111, 0x0117, 0x0201, 0x0202}

  function ValueFor(order: Order, e: Entry): nat
    requires |e.val| == 4
  {
    if e.tag == 0x0103 then U16(order, e.val[..2]) else Scalar(order, e)
  }

  /** The last entry before `n` that sets the field of the tag. */
  ghost predicate IsLastSetter(order: Order, entries: seq<byte>, n: nat, tag: nat, k: nat)
    requires 12 * n <= |entries|
  {
    && k < n && Sets(EntryAt(order, entries, k), tag)
    && forall j {:trigger EntryAt(order, entries, j)} :: k < j < n ==> !Sets(EntryAt(order, entries, j), tag)
  }

  lemma {:induction false} LastEntryWins(file: seq<byte>, order: Order, entries: seq<byte>, n: nat, tag: nat, k: nat)
    requires 12 * n <= |entries| && tag in SCALAR_TAGS && IsLastSetter(order, entries, n, tag, k)
    ensures FieldOf(ScanEntries(file, order, entries, n), tag) == ValueFor(order, EntryAt(order, entries, k))
  {
    var e := EntryAt(order, entries, n - 1);
    if k < n - 1 {
      assert !Sets(e, tag);
      LastEntryWins(file, order, entries, n - 1, tag, k);
    }
  }

  lemma {:induction false} NoEntryNoValue(file: seq<byte>, order: Order, entries: seq<byte>, n: nat, tag: nat)
    requires 12 * n <= |entries| && tag in SCALAR_TAGS
    requires forall j {:trigger EntryAt(order, entries, j)} :: 0 <= j < n ==> !Sets(EntryAt(order, entries, j), tag)
    ensures FieldOf(ScanEntries(file, order, entries, n), tag) == 0
  {
    if n > 0 {
      assert !Sets(EntryAt(order, entries, n - 1), tag);
      NoEntryNoValue(file, order, entries, n - 1, tag);
    }
  }

  datatype Directory = Directory(regions: seq<Region>, links: seq<Offset>)

  /** The bytes of a directory's entries and the pointer after them, and how many entries there
      are; nothing if the directory cannot be read. */
  function EntryBytes(file: seq<byte>, order: Order, off: Offset): (r: Option<(nat, seq<byte>)>)
    ensures r.Some? ==> 12 * r.value.0 <= |r.value.1|
  {
    var head := ReadAt(file, off, 2);
    if |head| < 2 then None
    else
      var n := U16(order, head);
      if n == 0 || n > 4096 then None
      else
        var entries := ReadAt(file, off + 2, 12 * n + 4);
        if |entries| < 12 * n then None else Some((n, entries))
  }

  function RegionsOf(s: Scan): seq<Region> {
    (if s.jpegOff > 0 && s.jpegLen > 0 then [Region(s.jpegOff, s.jpegLen)] else []) +
    (if s.compression == 6 && s.stripOff > 0 && s.stripLen > 0 then [Region(s.stripOff, s.stripLen)] else [])
  }

  function DirectoryAt(file: seq<byte>, order: Order, off: Offset): Directory {
    match EntryBytes(file, order, off)
    case None => Directory([], [])
    case Some((n, entries)) =>
      var s := ScanEntries(file, order, entries, n);
      Directory(RegionsOf(s),
                s.subs + if |entries| >= 12 * n + 4 then [U32(order, entries[12 * n..12 * n + 4])] else [])
  }

  /** A directory for every offset. */
  type Dir = Offset -> Directory

  function Directories(file: seq<byte>, order: Order): Dir {
    (off: Offset) => DirectoryAt(file, order, off)
  }

  /** `dir` is what the file's directories are. */
  ghost predicate Reads(file: seq<byte>, order: Order, dir: Dir) {
    forall off {:trigger DirectoryAt(file, order, off)} :: dir(off) == DirectoryAt(file, order, off)
  }

  // ---------- Reachability ----------

  /** A chain of directories, each linked from the one before, none at offset zero. */
  ghost predicate IsChain(dir: Dir, root: Offset, chain: seq<Offset>) {
    && chain != [] && chain[0] == root
    && (forall i :: 0 <= i < |chain| ==> chain[i] != 0)
    && (forall i :: 0 <= i < |chain| - 1 ==> chain[i + 1] in dir(chain[i]).links)
  }

  ghost predicate Reaches(dir: Dir, root: Offset, off: Offset) {
    exists chain :: IsChain(dir, root, chain) && chain[|chain| - 1] == off
  }

  lemma ReachesStep(dir: Dir, root: Offset, off: Offset, next: Offset)
    requires Reaches(dir, root, off) && next in dir(off).links && next != 0
    ensures Reaches(dir, root, next)
  {
    var chain :| IsChain(dir, root, chain) && chain[|chain| - 1] == off;
    assert IsChain(dir, root, chain + [next]);
  }

  /** Everything linked from a visited directory is visited, and so is the root. */
  ghost predicate IsClosed(dir: Dir, root: Offset, visited: set<Offset>) {
    && (root != 0 ==> root in visited)
    && forall off, next :: off in visited && next in dir(off).links && next != 0 ==> next in visited
  }

  lemma {:induction false} ClosedHasChain(dir: Dir, root: Offset, visited: set<Offset>, chain: seq<Offset>)
    requires IsClosed(dir, root, visited) && IsChain(dir, root, chain)
    ensures chain[|chain| - 1] in visited
    decreases |chain|
  {
    if |chain| > 1 {
      var front := chain[..|chain| - 1];
      assert forall i :: 0 <= i < |front| - 1 ==> chain[i + 1] in dir(chain[i]).links;
      ClosedHasChain(dir, root, visited, front);
      assert chain[|chain| - 2 + 1] in dir(chain[|chain| - 2]).links;
    }
  }

  const MAX_VISITED := 64

  /** What the search guarantees: it visits reachable directories only, at most 64 of them, and if
      fewer, all of them. */
  ghost predicate Searched(dir: Dir, root: Offset, visited: set<Offset>) {
    && (forall off :: off in visited ==> Reaches(dir, root, off))
    && |visited| <= MAX_VISITED
    && (|visited| < MAX_VISITED ==> IsClosed(dir, root, visited))
  }

  /** If no more than 64 directories are reachable, the search visits exactly those. */
  lemma SearchIsExact(dir: Dir, root: Offset, visited: set<Offset>, reachable: set<Offset>)
    requires Searched(dir, root, visited)
    requires forall off :: off in reachable <==> Reaches(dir, root, off)
    requires |reachable| <= MAX_VISITED
    ensures visited == reachable
  {
    assert visited <= reachable;
    if |visited| < MAX_VISITED {
      forall off | off in reachable
        ensures off in visited
      {
        var chain :| IsChain(dir, root, chain) && chain[|chain| - 1] == off;
        ClosedHasChain(dir, root, visited, chain);
      }
    } else {
      EqualSize(visited, reachable);
    }
  }

  lemma {:induction false} EqualSize(a: set<Offset>, b: set<Offset>)
    requires a <= b && |a| >= |b|
    ensures a == b
    decreases |a|
  {
    if a == {} {
      assert |b| == 0;
    } else {
      var x :| x in a;
      EqualSize(a - {x}, b - {x});
      assert a == (a - {x}) + {x} && b == (b - {x}) + {x};
    }
  }

  // ---------- The search ----------

  lemma OneMoreOffset(order: Order, buf: seq<byte>, n: nat)
    requires 4 * n + 4 <= |buf|
    ensures Offsets(order, buf, n + 1) == Offsets(order, buf, n) + [U32(order, buf[4 * n..])]
  {
    var i := 4 * n;
    assert U32(order, buf[i..]) == U32(order, buf[i..i + 4]);
  }

  method ReadOffsets(file: seq<byte>, order: Order, count: nat, val: seq<byte>) returns (out: seq<Offset>)
    requires |val| == 4
    ensures out == SubOffsets(file, order, count, val)
  {
    if count == 0 || count > 16 {
      return [];
    }
    if count == 1 {
      return [U32(order, val)];
    }
    var buf := ReadAt(file, U32(order, val), 4 * count);
    if |buf| < 4 * count {
      return [];
    }
    out := [];
    for i := 0 to count
      invariant out == Offsets(order, buf, i)
    {
      OneMoreOffset(order, buf, i);
      out := out + [U32(order, buf[4 * i..])];
    }
  }

  /** Collects what the entries of a directory say about previews and sub-directories. */
  method ScanAll(file: seq<byte>, order: Order, entries: seq<byte>, n: nat) returns (s: Scan)
    requires 12 * n <= |entries|
    ensures s == ScanEntries(file, order, entries, n)
  {
    var jpegOff, jpegLen, stripOff, stripLen, compression, subs := 0, 0, 0, 0, 0, [];
    for i := 0 to n
      invariant ScanEntries(file, order, entries, i) == Scan(jpegOff, jpegLen, stripOff, stripLen, compression, subs)
    {
      var e := EntryAt(order, entries, i);
      match e.tag {
        case 0x0103 => compression := U16(order, e.val[..2]);
        case 0x0111 => if e.count == 1 { stripOff := Scalar(order, e); }
        case 0x0117 => if e.count == 1 { stripLen := Scalar(order, e); }
        case 0x0201 => jpegOff := Scalar(order, e);
        case 0x0202 => jpegLen := Scalar(order, e);
        case 0x014A =>
          var more := ReadOffsets(file, order, e.count, e.val);
          subs := subs + more;
        case _ =>
      }
    }
    s := Scan(jpegOff, jpegLen, stripOff, stripLen, compression, subs);
  }

  /** Reads one directory: the regions it refers to and the directories it links to. */
  method ScanDirectory(file: seq<byte>, order: Order, off: Offset, ghost dir: Dir)
    returns (regions: seq<Region>, links: seq<Offset>)
    requires Reads(file, order, dir)
    ensures Directory(regions, links) == dir(off)
  {
    assert dir(off) == DirectoryAt(file, order, off);
    regions, links := [], [];
    var head := ReadAt(file, off, 2);
    if |head| < 2 {
      return;
    }
    var n := U16(order, head);
    if n == 0 || n > 4096 {
      return;
    }
    var entries := ReadAt(file, off + 2, 12 * n + 4);
    if |entries| < 12 * n {
      return;
    }
    var s := ScanAll(file, order, entries, n);
    links := s.subs;
    if s.jpegOff > 0 && s.jpegLen > 0 {
      regions := regions + [Region(s.jpegOff, s.jpegLen)];
    }
    if s.compression == 6 && s.stripOff > 0 && s.stripLen > 0 {
      regions := regions + [Region(s.stripOff, s.stripLen)];
    }
    if |entries| >= 12 * n + 4 {
      links := links + [U32(order, entries[12 * n..12 * n + 4])];
    }
  }

  /** Some visited directory refers to the region. */
  ghost predicate Offered(dir: Dir, visited: set<Offset>, r: Region) {
    exists off :: off in visited && r in dir(off).regions
  }

  /** The regions found are those of the visited directories. */
  ghost predicate RegionsFound(dir: Dir, visited: set<Offset>, jpegs: seq<Region>) {
    forall r :: r in jpegs <==> Offered(dir, visited, r)
  }

  /** What is still to be visited is on the queue. */
  ghost predicate Pending(dir: Dir, root: Offset, visited: set<Offset>, queue: seq<Offset>) {
    && (root != 0 ==> root in visited || root in queue)
    && forall off, next :: off in visited && next in dir(off).links && next != 0 ==>
         next in visited || next in queue
  }

  lemma VisitOne(dir: Dir, root: Offset, visited: set<Offset>, queue: seq<Offset>, jpegs: seq<Region>)
    requires queue != [] && Pending(dir, root, visited, queue) && RegionsFound(dir, visited, jpegs)
    ensures queue[0] == 0 || queue[0] in visited ==> Pending(dir, root, visited, queue[1..])
    ensures var d := dir(queue[0]);
      && Pending(dir, root, visited + {queue[0]}, queue[1..] + d.links)
      && RegionsFound(dir, visited + {queue[0]}, jpegs + d.regions)
  {
    assert forall off :: off in queue ==> off == queue[0] || off in queue[1..];
    var d := dir(queue[0]);
    forall r
      ensures r in jpegs + d.regions <==> Offered(dir, visited + {queue[0]}, r)
    {
      if r in jpegs {
        assert Offered(dir, visited, r);
        var off :| off in visited && r in dir(off).regions;
        assert off in visited + {queue[0]};
      }
      if r in d.regions {
        assert queue[0] in visited + {queue[0]};
      }
    }
  }

  /** The bounded breadth-first walk; it ends on every file, because each round visits a new
      directory, of which there may be 64, or shortens the queue. */
  method Search(file: seq<byte>, order: Order, root: Offset, ghost dir: Dir)
    returns (visited: set<Offset>, jpegs: seq<Region>)
    requires Reads(file, order, dir)
    ensures Searched(dir, root, visited)
    ensures RegionsFound(dir, visited, jpegs)
  {
    jpegs := [];
    visited := {};
    var queue := [root];
    if root != 0 {
      assert IsChain(dir, root, [root]);
    }
    while |queue| > 0 && |visited| < MAX_VISITED
      invariant |visited| <= MAX_VISITED
      invariant forall off :: off in visited ==> Reaches(dir, root, off)
      invariant forall off :: off in queue ==> off == 0 || Reaches(dir, root, off)
      invariant Pending(dir, root, visited, queue)
      invariant RegionsFound(dir, visited, jpegs)
      decreases MAX_VISITED - |visited|, |queue|
    {
      VisitOne(dir, root, visited, queue, jpegs);
      var off := queue[0];
      assert off in queue;
      queue := queue[1..];
      if off == 0 || off in visited {
        continue;
      }
      visited := visited + {off};
      var regions, links := ScanDirectory(file, order, off, dir);
      forall next | next in links && next != 0
        ensures Reaches(dir, root, next)
      {
        ReachesStep(dir, root, off, next);
      }
      jpegs := jpegs + regions;
      queue := queue + links;
    }
  }

  // ---------- The preview ----------

  datatype Failure = Unreadable | NotTiff | BadMagic | NoPreview

  /** The region lies in the file, is neither tiny nor huge, and starts like a JPEG. */
  predicate IsJpeg(file: seq<byte>, r: Region) {
    && 2 <= r.length <= 0x640_0000
    && r.off + r.length <= |file|
    && file[r.off] == 0xFF && file[r.off + 1] == 0xD8
  }

  /** `r` is a JPEG region of a visited directory, and none is longer. */
  ghost predicate IsLargest(file: seq<byte>, dir: Dir, visited: set<Offset>, r: Region) {
    && Offered(dir, visited, r) && IsJpeg(file, r)
    && forall other :: Offered(dir, visited, other) && IsJpeg(file, other) ==> other.length <= r.length
  }

  /** What `ExtractPreview` returns for a file with a good header, given the directories visited. */
  ghost predicate IsPreview(file: seq<byte>, dir: Dir, visited: set<Offset>, r: Result<seq<byte>, Failure>) {
    match r
    case Ok(buf) => exists region ::
      IsLargest(file, dir, visited, region) && buf == ReadAt(file, region.off, region.length)
    case Err(e) => e == NoPreview && forall region :: Offered(dir, visited, region) ==> !IsJpeg(file, region)
  }

  function OrderOf(file: seq<byte>): Option<Order> {
    if |file| < 8 then None
    else if file[0] == 'I' as int && file[1] == 'I' as int then Some(Little)
    else if file[0] == 'M' as int && file[1] == 'M' as int then Some(Big)
    else None
  }

  /** The byte order and the offset of the first directory, if the file starts like a TIFF file. */
  function Header(file: seq<byte>): Result<(Order, Offset), Failure> {
    if |file| < 8 then Err(Unreadable)
    else match OrderOf(file)
      case None => Err(NotTiff)
      case Some(order) =>
        if U16(order, file[2..4]) != 0x002A then Err(BadMagic) else Ok((order, U32(order, file[4..8])))
  }

  /** A good header is "II" or "MM" and the number 42 in that byte order, and what is wrong with another one. */
  lemma HeaderMeans(file: seq<byte>)
    ensures Header(file).Ok? <==>
      |file| >= 8 && (file[..4] == [0x49, 0x49, 0x2A, 0] || file[..4] == [0x4D, 0x4D, 0, 0x2A])
    ensures Header(file).Ok? ==> (Header(file).value.0 == Little <==> file[0] == 0x49)
    ensures Header(file) == Err(Unreadable) <==> |file| < 8
    ensures Header(file) == Err(NotTiff) <==>
      |file| >= 8 && file[..2] != [0x49, 0x49] && file[..2] != [0x4D, 0x4D]
  {
    if |file| >= 8 {
      BytesMean(file[2], file[3], 0, 0);
      assert file[2..4] == [file[2], file[3]];
      assert file[..4] == [file[0], file[1], file[2], file[3]] && file[..2] == [file[0], file[1]];
    }
  }

  function LengthKey(r: Region): Sorting.Key {
    (-(r.length as int), 0)
  }

  lemma SortedByLength(found: seq<Region>, dir: Dir, visited: set<Offset>)
    requires RegionsFound(dir, visited, found)
    ensures var jpegs := Sorting.Sort(LengthKey, found);
      && RegionsFound(dir, visited, jpegs)
      && forall i, k :: 0 <= i < k < |jpegs| ==> jpegs[k].length <= jpegs[i].length
  {
    Sorting.SortSorts(LengthKey, found);
    var jpegs := Sorting.Sort(LengthKey, found);
    forall region
      ensures region in jpegs <==> region in found
    {
      assert region in jpegs <==> region in multiset(jpegs);
      assert region in found <==> region in multiset(found);
    }
    forall i, k | 0 <= i < k < |jpegs|
      ensures jpegs[k].length <= jpegs[i].length
    {
      assert !Sorting.Less(LengthKey(jpegs[k]), LengthKey(jpegs[i]));
    }
  }

  lemma FirstIsLargest(file: seq<byte>, jpegs: seq<Region>, i: nat, dir: Dir, visited: set<Offset>)
    requires RegionsFound(dir, visited, jpegs) && i < |jpegs| && IsJpeg(file, jpegs[i])
    requires forall k :: 0 <= k < i ==> !IsJpeg(file, jpegs[k])
    requires forall m, k :: 0 <= m < k < |jpegs| ==> jpegs[k].length <= jpegs[m].length
    ensures IsLargest(file, dir, visited, jpegs[i])
  {
    assert jpegs[i] in jpegs;
    forall other | Offered(dir, visited, other) && IsJpeg(file, other)
      ensures other.length <= jpegs[i].length
    {
      assert other in jpegs;
      var k :| 0 <= k < |jpegs| && jpegs[k] == other;
    }
  }

  lemma NoneIsJpeg(file: seq<byte>, jpegs: seq<Region>, dir: Dir, visited: set<Offset>)
    requires RegionsFound(dir, visited, jpegs)
    requires forall k :: 0 <= k < |jpegs| ==> !IsJpeg(file, jpegs[k])
    ensures forall region :: Offered(dir, visited, region) ==> !IsJpeg(file, region)
  {
    forall region | Offered(dir, visited, region)
      ensures !IsJpeg(file, region)
    {
      assert region in jpegs;
    }
  }

  /** Tries the regions from the longest to the shortest. */
  method LargestJpeg(file: seq<byte>, found: seq<Region>, ghost dir: Dir, ghost visited: set<Offset>)
    returns (r: Result<seq<byte>, Failure>)
    requires RegionsFound(dir, visited, found)
    ensures IsPreview(file, dir, visited, r)
  {
    SortedByLength(found, dir, visited);
    var jpegs := Sorting.Sort(LengthKey, found);
    for i := 0 to |jpegs|
      invariant forall k :: 0 <= k < i ==> !IsJpeg(file, jpegs[k])
    {
      var region := jpegs[i];
      if region.length < 2 || region.length > 0x640_0000 {
        continue;
      }
      var buf := ReadAt(file, region.off, region.length);
      if |buf| < region.length {
        continue;
      }
      if buf[0] == 0xFF && buf[1] == 0xD8 {
        FirstIsLargest(file, jpegs, i, dir, visited);
        return Ok(buf);
      }
    }
    NoneIsJpeg(file, jpegs, dir, visited);
    return Err(NoPreview);
  }

  /** The largest JPEG that the visited directories refer to. */
  method ExtractPreview(file: seq<byte>) returns (r: Result<seq<byte>, Failure>, ghost visited: set<Offset>)
    ensures match Header(file)
      case Err(e) => r == Err(e)
      case Ok((order, root)) =>
        Searched(Directories(file, order), root, visited) && IsPreview(file, Directories(file, order), visited, r)
  {
    visited := {};
    if |file| < 8 {
      return Err(Unreadable), {};
    }
    var order;
    if file[0] == 'I' as int && file[1] == 'I' as int {
      order := Little;
    } else if file[0] == 'M' as int && file[1] == 'M' as int {
      order := Big;
    } else {
      return Err(NotTiff), {};
    }
    if U16(order, file[2..4]) != 0x002A {
      return Err(BadMagic), {};
    }
    ghost var dir := Directories(file, order);
    var seen, jpegs := Search(file, order, U32(order, file[4..8]), dir);
    r := LargestJpeg(file, jpegs, dir, seen);
    visited := seen;
  }

  /** With no more than 64 reachable directories, the preview is the largest JPEG that any of them
      refers to, whatever the order in which they were visited. */
  lemma PreviewIsLargestReachable(file: seq<byte>, dir: Dir, root: Offset, visited: set<Offset>,
                                  reachable: set<Offset>, r: Result<seq<byte>, Failure>)
    requires Searched(dir, root, visited) && IsPreview(file, dir, visited, r)
    requires forall off :: off in reachable <==> Reaches(dir, root, off)
    requires |reachable| <= MAX_VISITED
    ensures IsPreview(file, dir, reachable, r)
  {
    SearchIsExact(dir, root, visited, reachable);
  }
}
