/** What the preview search makes of a RAW file as a writer lays it out: directories of entries, each with the
    pointer to the next, and arrays of sub-directory offsets. */
module RawPages {
  import opened Photos
  import opened Raw
  import opened Exif

  // ---------- Directories as they are written ----------

  /** The pointer at `end`, unless the file ends there. */
  function PointerAt(file: seq<byte>, order: Order, end: nat): Option<Offset> {
    if end + 4 <= |file| then Some(U32(order, file[end..end + 4])) else None
  }

  /** At `off` the file holds a directory: the number of items, the items, and the pointer to the next directory. */
  ghost predicate HoldsDirectory(file: seq<byte>, order: Order, off: Offset, items: seq<Item>, next: Option<Offset>) {
    && 1 <= |items| <= 4096 && HoldsItems(file, order, off + 2, items)
    && U16(order, file[off..off + 2]) == |items|
    && next == PointerAt(file, order, off + 2 + 12 * |items|)
  }

  predicate AreLong(subs: seq<Offset>) {
    forall i :: 0 <= i < |subs| ==> subs[i] < 0x1_0000_0000
  }

  function EncodeOffsets(order: Order, subs: seq<Offset>): (b: seq<byte>)
    requires AreLong(subs)
    ensures |b| == 4 * |subs|
  {
    if subs == [] then [] else EncodeOffsets(order, subs[..|subs| - 1]) + B32(order, subs[|subs| - 1])
  }

  ghost predicate HoldsOffsets(file: seq<byte>, order: Order, at: Offset, subs: seq<Offset>) {
    && AreLong(subs) && at + 4 * |subs| <= |file| && file[at..at + 4 * |subs|] == EncodeOffsets(order, subs)
  }

  /** The sub-directories that an item gives: a single one is in the item itself, 2 to 16 are in an array that it
      points to.  Any other item gives none. */
  ghost predicate GivesSubs(file: seq<byte>, order: Order, it: Item, subs: seq<Offset>) {
    if it.tag != 0x014A then subs == []
    else
      && it.ftype == 4
      && if it.count == 1 then subs == [it.value]
         else if it.count == 0 || it.count > 16 || it.value + 4 * it.count > |file| then subs == []
         else |subs| == it.count && HoldsOffsets(file, order, it.value, subs)
  }

  /** A directory with the sub-directories that each of its items gives, and the next directory. */
  datatype Page = Page(items: seq<Item>, subs: seq<seq<Offset>>, next: Option<Offset>)

  ghost predicate HoldsPage(file: seq<byte>, order: Order, off: Offset, page: Page) {
    && HoldsDirectory(file, order, off, page.items, page.next)
    && (forall i :: 0 <= i < |page.items| && page.items[i].tag == 0x0103 ==> page.items[i].ftype == 3)
    && |page.subs| == |page.items|
    && forall i :: 0 <= i < |page.items| ==> GivesSubs(file, order, page.items[i], page.subs[i])
  }

  function Joined(parts: seq<seq<Offset>>): seq<Offset> {
    if parts == [] then [] else Joined(parts[..|parts| - 1]) + parts[|parts| - 1]
  }

  // ---------- What a written directory says ----------

  /** Item `k` is the last with the tag; of the items that describe strips only those count that have one. */
  ghost predicate IsLastOf(items: seq<Item>, tag: nat, k: int) {
    && 0 <= k < |items| && Counts(items[k], tag)
    && forall j :: k < j < |items| ==> !Counts(items[j], tag)
  }

  predicate Counts(it: Item, tag: nat) {
    it.tag == tag && (tag == 0x0111 || tag == 0x0117 ==> it.count == 1)
  }

  ghost predicate LastSays(items: seq<Item>, tag: nat, value: nat) {
    exists k :: IsLastOf(items, tag, k) && items[k].value == value
  }

  /** The region is given as the preview (tags 0x0201 and 0x0202), or it is the only strip (tags 0x0111 and
      0x0117) of a directory with JPEG compression (tag 0x0103, value 6). */
  ghost predicate Shows(items: seq<Item>, r: Region) {
    && r.off > 0 && r.length > 0
    && ((LastSays(items, 0x0201, r.off) && LastSays(items, 0x0202, r.length)) ||
        (LastSays(items, 0x0103, 6) && LastSays(items, 0x0111, r.off) && LastSays(items, 0x0117, r.length)))
  }

  lemma {:induction false} SomeLastOf(items: seq<Item>, tag: nat) returns (k: int)
    ensures IsLastOf(items, tag, k) || (k == -1 && forall j :: 0 <= j < |items| ==> !Counts(items[j], tag))
    decreases |items|
  {
    if items == [] {
      k := -1;
    } else if Counts(items[|items| - 1], tag) {
      k := |items| - 1;
    } else {
      k := SomeLastOf(items[..|items| - 1], tag);
    }
  }

  lemma OnlyLastSays(items: seq<Item>, tag: nat, k: int, value: nat)
    requires IsLastOf(items, tag, k)
    ensures LastSays(items, tag, value) <==> items[k].value == value
  {
  }

  // ---------- Reading it ----------

  lemma CountRead(file: seq<byte>, off: Offset)
    requires off + 2 <= |file|
    ensures ReadAt(file, off, 2) == file[off..off + 2]
  {
  }

  lemma LengthRead(file: seq<byte>, start: nat, n: nat)
    requires start + n <= |file|
    ensures var b := ReadAt(file, start, n + 4);
      |b| >= n && (|b| >= n + 4 <==> start + n + 4 <= |file|)
  {
  }

  lemma EntryBytesAre(file: seq<byte>, order: Order, off: Offset, n: nat, entries: seq<byte>)
    requires |ReadAt(file, off, 2)| == 2 && U16(order, ReadAt(file, off, 2)) == n && 1 <= n <= 4096
    requires entries == ReadAt(file, off + 2, 12 * n + 4) && 12 * n <= |entries|
    ensures EntryBytes(file, order, off) == Some((n, entries))
  {
  }

  lemma ReadSlice(file: seq<byte>, start: nat, n: nat, i: nat, j: nat)
    requires i <= j <= |ReadAt(file, start, n)| && start + j <= |file|
    ensures ReadAt(file, start, n)[i..j] == file[start + i..start + j]
  {
    if start < |file| && start + n <= |file| {
      SliceOfSlice(file, start, start + n, i, j);
    } else if start < |file| {
      SliceOfSlice(file, start, |file|, i, j);
    }
  }

  lemma ChunkRead(file: seq<byte>, base: nat, n: nat, i: nat, chunk: seq<byte>)
    requires 12 * i + 12 <= |ReadAt(file, base, n)| && base + 12 * i + 12 <= |file|
    requires file[base + 12 * i..base + 12 * i + 12] == chunk
    ensures ReadAt(file, base, n)[12 * i..12 * i + 12] == chunk
  {
    var j := 12 * i;
    ReadSlice(file, base, n, j, j + 12);
  }

  ghost predicate HoldsItem(file: seq<byte>, order: Order, base: nat, i: nat, it: Item) {
    && Fits(it) && base + 12 * i + 12 <= |file|
    && file[base + 12 * i..base + 12 * i + 12] == EncodeItem(order, it)
  }

  lemma ItemHeld(file: seq<byte>, order: Order, base: nat, items: seq<Item>, i: nat)
    requires HoldsItems(file, order, base, items) && i < |items|
    ensures HoldsItem(file, order, base, i, items[i])
  {
    ItemBytes(file, order, base, items, i);
  }

  lemma EntryIsEncoded(file: seq<byte>, order: Order, base: nat, n: nat, entries: seq<byte>, i: nat, it: Item)
    requires HoldsItem(file, order, base, i, it) && i < n
    requires entries == ReadAt(file, base, 12 * n + 4) && 12 * n <= |entries|
    ensures entries[12 * i..12 * i + 12] == EncodeItem(order, it)
  {
    ChunkRead(file, base, 12 * n + 4, i, EncodeItem(order, it));
  }

  lemma EntryDecodes(order: Order, entries: seq<byte>, i: nat, it: Item)
    requires Fits(it) && 12 * i + 12 <= |entries| && entries[12 * i..12 * i + 12] == EncodeItem(order, it)
    ensures Says(order, EntryAt(order, entries, i), it)
  {
    ItemDecodes(order, it);
  }

  function LinkTo(next: Option<Offset>): seq<Offset> {
    if next.Some? then [next.value] else []
  }

  function NextLink(order: Order, entries: seq<byte>, n: nat): seq<Offset> {
    if |entries| >= 12 * n + 4 then [U32(order, entries[12 * n..12 * n + 4])] else []
  }

  lemma NextRead(file: seq<byte>, order: Order, start: nat, n: nat, end: nat, entries: seq<byte>, next: Option<Offset>)
    requires next == PointerAt(file, order, end)
    requires end == start + 12 * n <= |file| && entries == ReadAt(file, start, 12 * n + 4)
    ensures NextLink(order, entries, n) == LinkTo(next)
  {
    var m := 12 * n;
    LengthRead(file, start, m);
    if end + 4 <= |file| {
      ReadSlice(file, start, m + 4, m, m + 4);
    }
  }

  ghost predicate IsSaid(order: Order, entries: seq<byte>, items: seq<Item>, i: nat)
    requires i < |items| && 12 * |items| <= |entries|
  {
    Says(order, EntryAt(order, entries, i), items[i])
  }

  /** The entries read say what the items say. */
  ghost predicate AllSaid(order: Order, entries: seq<byte>, items: seq<Item>) {
    && 12 * |items| <= |entries|
    && forall i: nat {:trigger IsSaid(order, entries, items, i)} :: i < |items| ==> IsSaid(order, entries, items, i)
  }

  lemma EntriesSay(file: seq<byte>, order: Order, base: nat, items: seq<Item>, entries: seq<byte>)
    requires HoldsItems(file, order, base, items)
    requires entries == ReadAt(file, base, 12 * |items| + 4) && 12 * |items| <= |entries|
    ensures AllSaid(order, entries, items)
  {
    forall i: nat | i < |items|
      ensures IsSaid(order, entries, items, i)
    {
      ItemHeld(file, order, base, items, i);
      EntryIsEncoded(file, order, base, |items|, entries, i, items[i]);
      EntryDecodes(order, entries, i, items[i]);
    }
  }

  /** The bytes read from a written directory are its items, and the pointer if there is one. */
  lemma EntriesRead(file: seq<byte>, order: Order, off: Offset, items: seq<Item>, next: Option<Offset>)
    returns (entries: seq<byte>)
    requires HoldsDirectory(file, order, off, items, next)
    ensures EntryBytes(file, order, off) == Some((|items|, entries))
    ensures AllSaid(order, entries, items) && NextLink(order, entries, |items|) == LinkTo(next)
  {
    CountRead(file, off);
    LengthRead(file, off + 2, 12 * |items|);
    entries := ReadAt(file, off + 2, 12 * |items| + 4);
    EntryBytesAre(file, order, off, |items|, entries);
    EntriesSay(file, order, off + 2, items, entries);
    NextRead(file, order, off + 2, |items|, off + 2 + 12 * |items|, entries, next);
  }

  lemma DirectoryRead(file: seq<byte>, order: Order, off: Offset, n: nat, entries: seq<byte>)
    requires EntryBytes(file, order, off) == Some((n, entries)) && 12 * n <= |entries|
    ensures var d, s := Directories(file, order)(off), ScanEntries(file, order, entries, n);
      d.regions == RegionsOf(s) && d.links == s.subs + NextLink(order, entries, n)
  {
  }

  /** A field of the scan is what the last item with its tag says. */
  lemma FieldWritten(file: seq<byte>, order: Order, entries: seq<byte>, items: seq<Item>, tag: nat, value: nat)
    requires AllSaid(order, entries, items) && tag in SCALAR_TAGS && value > 0
    requires forall i :: 0 <= i < |items| && items[i].tag == 0x0103 ==> items[i].ftype == 3
    ensures Raw.FieldOf(ScanEntries(file, order, entries, |items|), tag) == value <==> LastSays(items, tag, value)
  {
    forall i: nat | i < |items|
      ensures Raw.Sets(EntryAt(order, entries, i), tag) <==> Counts(items[i], tag)
      ensures Counts(items[i], tag) ==> ValueFor(order, EntryAt(order, entries, i)) == items[i].value
    {
      assert IsSaid(order, entries, items, i);
    }
    var k := SomeLastOf(items, tag);
    if k == -1 {
      Raw.NoEntryNoValue(file, order, entries, |items|, tag);
    } else {
      Raw.LastEntryWins(file, order, entries, |items|, tag, k);
      OnlyLastSays(items, tag, k, value);
    }
  }

  lemma RegionsScanned(s: Scan, r: Region)
    ensures r in RegionsOf(s) <==> (r.off > 0 && r.length > 0 &&
      ((s.jpegOff == r.off && s.jpegLen == r.length) ||
       (s.compression == 6 && s.stripOff == r.off && s.stripLen == r.length)))
  {
    assert [Region(s.jpegOff, s.jpegLen)][0] == Region(s.jpegOff, s.jpegLen);
    assert [Region(s.stripOff, s.stripLen)][0] == Region(s.stripOff, s.stripLen);
  }

  lemma ScanWritten(file: seq<byte>, order: Order, entries: seq<byte>, items: seq<Item>, r: Region)
    requires AllSaid(order, entries, items)
    requires forall i :: 0 <= i < |items| && items[i].tag == 0x0103 ==> items[i].ftype == 3
    ensures r in RegionsOf(ScanEntries(file, order, entries, |items|)) <==> Shows(items, r)
  {
    RegionsScanned(ScanEntries(file, order, entries, |items|), r);
    if r.off > 0 && r.length > 0 {
      FieldWritten(file, order, entries, items, 0x0201, r.off);
      FieldWritten(file, order, entries, items, 0x0202, r.length);
      FieldWritten(file, order, entries, items, 0x0103, 6);
      FieldWritten(file, order, entries, items, 0x0111, r.off);
      FieldWritten(file, order, entries, items, 0x0117, r.length);
    }
  }

  /** A written directory refers to the regions that its items show, and to no others. */
  lemma RegionsWritten(file: seq<byte>, order: Order, off: Offset, page: Page, r: Region)
    requires HoldsPage(file, order, off, page)
    ensures r in Directories(file, order)(off).regions <==> Shows(page.items, r)
  {
    var entries := EntriesRead(file, order, off, page.items, page.next);
    DirectoryRead(file, order, off, |page.items|, entries);
    ScanWritten(file, order, entries, page.items, r);
  }

  lemma {:induction false} OffsetsRead(order: Order, subs: seq<Offset>, i: nat)
    requires AreLong(subs) && i < |subs|
    ensures U32(order, EncodeOffsets(order, subs)[4 * i..4 * i + 4]) == subs[i]
    decreases |subs|
  {
    var init, last := subs[..|subs| - 1], subs[|subs| - 1];
    SliceOfSum(EncodeOffsets(order, init), B32(order, last), 4 * i, 4 * i + 4);
    if i < |subs| - 1 {
      OffsetsRead(order, init, i);
    } else {
      Decode32(order, last);
      assert B32(order, last)[0..4] == B32(order, last);
    }
  }

  lemma AllOffsetsRead(order: Order, subs: seq<Offset>)
    requires AreLong(subs)
    ensures Offsets(order, EncodeOffsets(order, subs), |subs|) == subs
  {
    var read := Offsets(order, EncodeOffsets(order, subs), |subs|);
    forall i | 0 <= i < |subs|
      ensures read[i] == subs[i]
    {
      OffsetsRead(order, subs, i);
    }
  }

  lemma BufferRead(file: seq<byte>, order: Order, at: Offset, val: seq<byte>, subs: seq<Offset>, buf: seq<byte>)
    requires |val| == 4 && U32(order, val) == at && 1 < |subs| <= 16
    requires at + 4 * |subs| <= |file| && file[at..at + 4 * |subs|] == buf
    requires |buf| == 4 * |subs| && Offsets(order, buf, |subs|) == subs
    ensures SubOffsets(file, order, |subs|, val) == subs
  {
  }

  lemma ArrayRead(file: seq<byte>, order: Order, at: Offset, val: seq<byte>, subs: seq<Offset>)
    requires |val| == 4 && U32(order, val) == at && 1 < |subs| <= 16 && HoldsOffsets(file, order, at, subs)
    ensures SubOffsets(file, order, |subs|, val) == subs
  {
    AllOffsetsRead(order, subs);
    BufferRead(file, order, at, val, subs, EncodeOffsets(order, subs));
  }

  lemma OneRead(file: seq<byte>, order: Order, val: seq<byte>, sub: Offset)
    requires |val| == 4 && U32(order, val) == sub
    ensures SubOffsets(file, order, 1, val) == [sub]
  {
  }

  lemma NoneRead(file: seq<byte>, order: Order, count: nat, val: seq<byte>)
    requires |val| == 4 && (count == 0 || count > 16 || (count > 1 && U32(order, val) + 4 * count > |file|))
    ensures SubOffsets(file, order, count, val) == []
  {
  }

  lemma SubsRead(file: seq<byte>, order: Order, val: seq<byte>, it: Item, subs: seq<Offset>)
    requires |val| == 4 && U32(order, val) == it.value && it.tag == 0x014A && GivesSubs(file, order, it, subs)
    ensures SubOffsets(file, order, it.count, val) == subs
  {
    if it.count == 1 {
      OneRead(file, order, val, it.value);
    } else if subs == [] {
      NoneRead(file, order, it.count, val);
    } else {
      ArrayRead(file, order, it.value, val, subs);
    }
  }

  function SubsAt(file: seq<byte>, order: Order, entries: seq<byte>, i: nat): seq<Offset>
    requires 12 * i + 12 <= |entries|
  {
    var e := EntryAt(order, entries, i);
    if e.tag == 0x014A then SubOffsets(file, order, e.count, e.val) else []
  }

  lemma StepCollects(file: seq<byte>, order: Order, s: Scan, e: Entry)
    requires |e.val| == 4
    ensures Step(file, order, s, e).subs ==
      s.subs + if e.tag == 0x014A then SubOffsets(file, order, e.count, e.val) else []
  {
  }

  lemma SubsAfterStep(file: seq<byte>, order: Order, entries: seq<byte>, i: nat)
    requires 12 * i + 12 <= |entries|
    ensures ScanEntries(file, order, entries, i + 1).subs ==
      ScanEntries(file, order, entries, i).subs + SubsAt(file, order, entries, i)
  {
    StepCollects(file, order, ScanEntries(file, order, entries, i), EntryAt(order, entries, i));
  }

  /** The sub-directories collected are those of the entries, in order. */
  lemma {:induction false} SubsScanned(file: seq<byte>, order: Order, entries: seq<byte>, n: nat,
                                       subs: seq<seq<Offset>>)
    requires 12 * n <= |entries| && n <= |subs|
    requires forall i: nat {:trigger SubsAt(file, order, entries, i)} :: i < n ==>
      SubsAt(file, order, entries, i) == subs[i]
    ensures ScanEntries(file, order, entries, n).subs == Joined(subs[..n])
    decreases n
  {
    if n > 0 {
      assert subs[..n][..n - 1] == subs[..n - 1];
      SubsScanned(file, order, entries, n - 1, subs);
      SubsAfterStep(file, order, entries, n - 1);
    }
  }

  lemma SubsWritten(file: seq<byte>, order: Order, entries: seq<byte>, items: seq<Item>, subs: seq<seq<Offset>>)
    requires AllSaid(order, entries, items) && |subs| == |items|
    requires forall i :: 0 <= i < |items| ==> GivesSubs(file, order, items[i], subs[i])
    ensures ScanEntries(file, order, entries, |items|).subs == Joined(subs)
  {
    forall i: nat | i < |items|
      ensures SubsAt(file, order, entries, i) == subs[i]
    {
      assert IsSaid(order, entries, items, i);
      if items[i].tag == 0x014A {
        SubsRead(file, order, EntryAt(order, entries, i).val, items[i], subs[i]);
      }
    }
    SubsScanned(file, order, entries, |items|, subs);
    assert subs[..|items|] == subs;
  }

  /** The directories that a page leads to. */
  function LinksOf(page: Page): seq<Offset> {
    Joined(page.subs) + LinkTo(page.next)
  }

  lemma LinksJoined(file: seq<byte>, order: Order, off: Offset, n: nat, entries: seq<byte>,
                    subs: seq<Offset>, last: seq<Offset>)
    requires EntryBytes(file, order, off) == Some((n, entries)) && 12 * n <= |entries|
    requires ScanEntries(file, order, entries, n).subs == subs && NextLink(order, entries, n) == last
    ensures Directories(file, order)(off).links == subs + last
  {
    DirectoryRead(file, order, off, n, entries);
  }

  /** A written directory links to its sub-directories, in the order written, and then to the next one. */
  lemma LinksWritten(file: seq<byte>, order: Order, off: Offset, page: Page)
    requires HoldsPage(file, order, off, page)
    ensures Directories(file, order)(off).links == Joined(page.subs) + LinkTo(page.next)
  {
    var entries := EntriesRead(file, order, off, page.items, page.next);
    SubsWritten(file, order, entries, page.items, page.subs);
    LinksJoined(file, order, off, |page.items|, entries, Joined(page.subs), LinkTo(page.next));
  }

  /** A directory that has no entries, or too many, or is cut off, shows and leads to nothing. */
  lemma UnreadableDirectory(file: seq<byte>, order: Order, off: Offset, n: nat)
    requires off + 2 > |file| ||
      (U16(order, file[off..off + 2]) == n && (n == 0 || n > 4096 || off + 2 + 12 * n > |file|))
    ensures Directories(file, order)(off) == Directory([], [])
  {
    if off + 2 <= |file| {
      CountRead(file, off);
    }
  }

  // ---------- The preview of a written file ----------

  /** A chain of pages, each leading to the one after it. */
  ghost predicate IsPageChain(pages: map<Offset, Page>, root: Offset, chain: seq<Offset>) {
    && chain != [] && chain[0] == root
    && (forall i :: 0 <= i < |chain| ==> chain[i] in pages)
    && (forall i :: 0 <= i < |chain| - 1 ==> chain[i + 1] in LinksOf(pages[chain[i]]))
  }

  ghost predicate HoldsPages(file: seq<byte>, order: Order, pages: map<Offset, Page>) {
    forall off :: off in pages ==> HoldsPage(file, order, off, pages[off])
  }

  /** A file with these pages: it has a good header; its pages lead to nothing but each other, or to zero, which
      is no directory; and all of them are reached from the first one. */
  ghost predicate IsWritten(file: seq<byte>, order: Order, root: Offset, pages: map<Offset, Page>) {
    && |file| >= 8 && root < 0x1_0000_0000
    && file[0..2] == Signature(order) && file[2..4] == B16(order, 0x002A) && file[4..8] == B32(order, root)
    && root in pages && 0 !in pages && HoldsPages(file, order, pages)
    && (forall off, next :: off in pages && next in LinksOf(pages[off]) && next != 0 ==> next in pages)
    && (forall off :: off in pages ==> exists chain :: IsPageChain(pages, root, chain) && chain[|chain| - 1] == off)
  }

  lemma PageChainIsChain(file: seq<byte>, order: Order, root: Offset, pages: map<Offset, Page>, chain: seq<Offset>)
    requires IsWritten(file, order, root, pages) && IsPageChain(pages, root, chain)
    ensures IsChain(Directories(file, order), root, chain)
  {
    forall i | 0 <= i < |chain| - 1
      ensures chain[i + 1] in Directories(file, order)(chain[i]).links
    {
      LinksWritten(file, order, chain[i], pages[chain[i]]);
    }
  }

  lemma PagesAreReachable(file: seq<byte>, order: Order, root: Offset, pages: map<Offset, Page>, off: Offset)
    requires IsWritten(file, order, root, pages)
    ensures off in pages.Keys <==> Reaches(Directories(file, order), root, off)
  {
    var dir := Directories(file, order);
    if off in pages {
      var chain :| IsPageChain(pages, root, chain) && chain[|chain| - 1] == off;
      PageChainIsChain(file, order, root, pages, chain);
    }
    if Reaches(dir, root, off) {
      forall at, next | at in pages.Keys && next in dir(at).links && next != 0
        ensures next in pages.Keys
      {
        LinksWritten(file, order, at, pages[at]);
      }
      var chain :| IsChain(dir, root, chain) && chain[|chain| - 1] == off;
      ClosedHasChain(dir, root, pages.Keys, chain);
    }
  }

  /** Some page shows the region, and it is a JPEG of at most a hundred mebibytes. */
  ghost predicate ShownJpeg(file: seq<byte>, pages: map<Offset, Page>, r: Region) {
    && (exists off :: off in pages && Shows(pages[off].items, r))
    && 2 <= r.length <= 100 * 1024 * 1024 && r.off + r.length <= |file|
    && file[r.off] == 0xFF && file[r.off + 1] == 0xD8
  }

  lemma OfferedBySome(dir: Dir, pages: map<Offset, Page>, r: Region)
    requires forall off :: off in pages ==> (r in dir(off).regions <==> Shows(pages[off].items, r))
    ensures Offered(dir, pages.Keys, r) <==> exists off :: off in pages && Shows(pages[off].items, r)
  {
  }

  lemma OfferedIsShown(file: seq<byte>, order: Order, pages: map<Offset, Page>, r: Region)
    requires HoldsPages(file, order, pages)
    ensures Offered(Directories(file, order), pages.Keys, r) && IsJpeg(file, r) <==> ShownJpeg(file, pages, r)
  {
    forall off | off in pages
      ensures r in Directories(file, order)(off).regions <==> Shows(pages[off].items, r)
    {
      RegionsWritten(file, order, off, pages[off], r);
    }
    OfferedBySome(Directories(file, order), pages, r);
  }

  lemma HeaderRead(file: seq<byte>, order: Order, root: Offset, pages: map<Offset, Page>)
    requires IsWritten(file, order, root, pages)
    ensures Header(file) == Ok((order, root))
  {
    SignatureRead(order, file);
    Decode16(order, 0x002A);
    Decode32(order, root);
  }

  lemma WrittenIsExact(file: seq<byte>, order: Order, root: Offset, pages: map<Offset, Page>, visited: set<Offset>)
    requires IsWritten(file, order, root, pages) && |pages| <= 64 && Searched(Directories(file, order), root, visited)
    ensures visited == pages.Keys
  {
    forall off
      ensures off in pages.Keys <==> Reaches(Directories(file, order), root, off)
    {
      PagesAreReachable(file, order, root, pages, off);
    }
    SearchIsExact(Directories(file, order), root, visited, pages.Keys);
  }

  /** The longest JPEG that any page shows; or an error, if none shows any. */
  ghost predicate IsLongestShown(file: seq<byte>, pages: map<Offset, Page>, r: Result<seq<byte>, Failure>) {
    match r
    case Ok(buf) => exists region ::
      && ShownJpeg(file, pages, region) && buf == file[region.off..region.off + region.length]
      && forall other :: ShownJpeg(file, pages, other) ==> other.length <= region.length
    case Err(e) => e == NoPreview && forall region :: !ShownJpeg(file, pages, region)
  }

  lemma PreviewIsLongestShown(file: seq<byte>, dir: Dir, pages: map<Offset, Page>, r: Result<seq<byte>, Failure>)
    requires IsPreview(file, dir, pages.Keys, r)
    requires forall region ::
      Offered(dir, pages.Keys, region) && IsJpeg(file, region) <==> ShownJpeg(file, pages, region)
    ensures IsLongestShown(file, pages, r)
  {
  }

  /** Extracting the preview of a written file with at most 64 directories returns the bytes of the longest JPEG
      that any of its directories shows. */
  method ExtractWritten(file: seq<byte>, ghost order: Order, ghost root: Offset, ghost pages: map<Offset, Page>)
    returns (r: Result<seq<byte>, Failure>)
    requires IsWritten(file, order, root, pages) && |pages| <= 64
    ensures IsLongestShown(file, pages, r)
  {
    ghost var visited;
    r, visited := ExtractPreview(file);
    HeaderRead(file, order, root, pages);
    WrittenIsExact(file, order, root, pages, visited);
    forall region
      ensures Offered(Directories(file, order), pages.Keys, region) && IsJpeg(file, region) <==>
        ShownJpeg(file, pages, region)
    {
      OfferedIsShown(file, order, pages, region);
    }
    PreviewIsLongestShown(file, Directories(file, order), pages, r);
  }
}
