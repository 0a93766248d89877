/** The EXIF reader: a walk over at most two image file directories of a TIFF byte string (TIFF
    Revision 6.0, section 2), in either byte order.  How the text of a date is read is a parameter. */
module Exif {
  import opened Photos
  import opened Raw

  type Text = seq<byte>

  /** What the reader is after; a missing date is None. */
  datatype Info = Info(orientation: nat, taken: Option<Time>)

  datatype ExifError = Truncated | BadByteOrder | WrongMagic

  const NO_INFO := Info(0, None)

  /** The info so far, and where the sub-directory is, or zero. */
  datatype Walk = Walk(info: Info, sub: nat)

  /** A zero byte or a space. */
  predicate IsBlank(b: byte) {
    b == 0 || b == ' ' as int
  }

  function Trimmed(s: Text): Text {
    if s != [] && IsBlank(s[|s| - 1]) then Trimmed(s[..|s| - 1]) else s
  }

  /** `r` is the longest prefix of `s` that does not end in a blank. */
  ghost predicate IsTrimOf(s: Text, r: Text) {
    && r <= s && (r != [] ==> !IsBlank(r[|r| - 1]))
    && forall k :: |r| <= k < |s| ==> IsBlank(s[k])
  }

  lemma {:induction false} TrimmedIsLongest(s: Text, r: Text)
    ensures r == Trimmed(s) <==> IsTrimOf(s, r)
    decreases |s|
  {
    if s != [] && IsBlank(s[|s| - 1]) {
      var init := s[..|s| - 1];
      TrimmedIsLongest(init, r);
      if IsTrimOf(init, r) {
        assert r <= s;
      }
      if IsTrimOf(s, r) {
        assert |r| < |s|;
        assert r <= init;
      }
    }
  }

  /** An entry's text lies in the entry itself if it is short, elsewhere otherwise. */
  function TextOf(tiff: seq<byte>, order: Order, e: Entry): Text
    requires |e.val| == 4
  {
    if e.count <= 4 then e.val[..e.count]
    else if U32(order, e.val) + e.count <= |tiff| then tiff[U32(order, e.val)..U32(order, e.val) + e.count]
    else []
  }

  /** What an entry does to the reader's findings. */
  datatype Effect = SetOrientation(n: nat) | SetSub(offset: nat) | SetDate(t: Time) | Nothing

  function DateEffect(date: Option<Time>): Effect {
    if date.Some? then SetDate(date.value) else Nothing
  }

  function EffectOf(tiff: seq<byte>, order: Order, parseDate: Text -> Option<Time>, e: Entry): Effect
    requires |e.val| == 4
  {
    if e.tag == 0x0112 && e.ftype == 3 && e.count == 1 then SetOrientation(U16(order, e.val[..2]))
    else if e.tag == 0x8769 && e.ftype == 4 && e.count == 1 then SetSub(U32(order, e.val))
    else if e.tag == 0x9003 && e.ftype == 2 && e.count >= 19 then
      DateEffect(parseDate(Trimmed(TextOf(tiff, order, e))))
    else Nothing
  }

  function Apply(w: Walk, e: Effect): Walk {
    match e
    case SetOrientation(n) => w.(info := w.info.(orientation := n))
    case SetSub(offset) => w.(sub := offset)
    case SetDate(t) => w.(info := w.info.(taken := Some(t)))
    case Nothing => w
  }

  /** The effects one after the other. */
  function Applied(info: Info, effects: seq<Effect>): Walk {
    if effects == [] then Walk(info, 0)
    else Apply(Applied(info, effects[..|effects| - 1]), effects[|effects| - 1])
  }

  function EntryIn(tiff: seq<byte>, order: Order, base: nat, i: nat): (e: Entry)
    requires base + 12 * i + 12 <= |tiff|
    ensures |e.val| == 4
  {
    EntryOf(order, tiff[base + 12 * i..base + 12 * i + 12])
  }

  function EffectsIn(tiff: seq<byte>, order: Order, parseDate: Text -> Option<Time>, base: nat,
                     n: nat): (r: seq<Effect>)
    requires base + 12 * n <= |tiff|
    ensures |r| == n
    ensures forall i :: 0 <= i < n ==> r[i] == EffectOf(tiff, order, parseDate, EntryIn(tiff, order, base, i))
  {
    seq(n, i requires 0 <= i < n => EffectOf(tiff, order, parseDate, EntryIn(tiff, order, base, i)))
  }

  /** The effects of a directory's entries, in order; none if the directory cannot be read. */
  function EffectsAt(tiff: seq<byte>, order: Order, parseDate: Text -> Option<Time>, off: nat): seq<Effect> {
    if off + 2 > |tiff| then []
    else
      var n := U16(order, tiff[off..off + 2]);
      if off + 2 + 12 * n > |tiff| then [] else EffectsIn(tiff, order, parseDate, off + 2, n)
  }

  function WalkDirectory(tiff: seq<byte>, order: Order, parseDate: Text -> Option<Time>, info: Info, off: nat): Walk {
    Applied(info, EffectsAt(tiff, order, parseDate, off))
  }

  function Parse(tiff: seq<byte>, parseDate: Text -> Option<Time>): Result<Info, ExifError> {
    if |tiff| < 8 then Err(Truncated)
    else if OrderOf(tiff).None? then Err(BadByteOrder)
    else
      var order := OrderOf(tiff).value;
      if U16(order, tiff[2..4]) != 0x002A then Err(WrongMagic)
      else
        var first := WalkDirectory(tiff, order, parseDate, NO_INFO, U32(order, tiff[4..8]));
        Ok(if first.sub > 0 then WalkDirectory(tiff, order, parseDate, first.info, first.sub).info else first.info)
  }

  // ---------- The program ----------

  method TrimText(s: Text) returns (r: Text)
    ensures IsTrimOf(s, r)
    ensures r <= s && (r != [] ==> r[|r| - 1] != 0 && r[|r| - 1] != 32)
    ensures forall k :: |r| <= k < |s| ==> s[k] == 0 || s[k] == 32
  {
    r := s;
    while |r| > 0 && (r[|r| - 1] == 0 || r[|r| - 1] == ' ' as int)
      invariant r <= s && forall k :: |r| <= k < |s| ==> IsBlank(s[k])
    {
      r := r[..|r| - 1];
    }
  }

  /** The date in an entry, if it can be read. */
  method ReadDate(tiff: seq<byte>, order: Order, parseDate: Text -> Option<Time>, e: Entry) returns (date: Option<Time>)
    requires |e.val| == 4 && e.count >= 19
    ensures date == parseDate(Trimmed(TextOf(tiff, order, e)))
  {
    var s := [];
    var start := U32(order, e.val);
    if start + e.count <= |tiff| {
      s := tiff[start..start + e.count];
    }
    var trimmed := TrimText(s);
    TrimmedIsLongest(s, trimmed);
    date := parseDate(trimmed);
  }

  /** What one entry changes. */
  method VisitEntry(tiff: seq<byte>, order: Order, parseDate: Text -> Option<Time>, e: Entry, given: Info, before: nat)
    returns (info: Info, sub: nat)
    requires |e.val| == 4
    ensures Walk(info, sub) == Apply(Walk(given, before), EffectOf(tiff, order, parseDate, e))
  {
    info, sub := given, before;
    match e.tag {
      case 0x0112 =>
        if e.ftype == 3 && e.count == 1 {
          info := info.(orientation := U16(order, e.val[..2]));
        }
      case 0x8769 =>
        if e.ftype == 4 && e.count == 1 {
          sub := U32(order, e.val);
        }
      case 0x9003 =>
        if e.ftype == 2 && e.count >= 19 {
          var date := ReadDate(tiff, order, parseDate, e);
          if date.Some? {
            info := info.(taken := date);
          }
        }
      case _ =>
    }
  }

  lemma AppliedOneMore(info: Info, effects: seq<Effect>, i: nat)
    requires i < |effects|
    ensures Applied(info, effects[..i + 1]) == Apply(Applied(info, effects[..i]), effects[i])
  {
    assert effects[..i + 1][..i] == effects[..i];
  }

  /** Walks one directory, never reading outside the bytes given. */
  method WalkIfd(tiff: seq<byte>, order: Order, parseDate: Text -> Option<Time>, given: Info, off: nat)
    returns (info: Info, sub: nat)
    ensures Walk(info, sub) == WalkDirectory(tiff, order, parseDate, given, off)
  {
    info, sub := given, 0;
    if off + 2 > |tiff| {
      return;
    }
    var n := U16(order, tiff[off..off + 2]);
    var base := off + 2;
    if base + 12 * n > |tiff| {
      return;
    }
    ghost var effects := EffectsIn(tiff, order, parseDate, base, n);
    for i := 0 to n
      invariant Walk(info, sub) == Applied(given, effects[..i])
    {
      AppliedOneMore(given, effects, i);
      info, sub := VisitEntry(tiff, order, parseDate, EntryIn(tiff, order, base, i), info, sub);
    }
    assert effects[..n] == effects;
  }

  method ParseExif(tiff: seq<byte>, parseDate: Text -> Option<Time>) returns (r: Result<Info, ExifError>)
    ensures r == Parse(tiff, parseDate)
  {
    if |tiff| < 8 {
      return Err(Truncated);
    }
    var order;
    if tiff[0] == 'I' as int && tiff[1] == 'I' as int {
      order := Little;
    } else if tiff[0] == 'M' as int && tiff[1] == 'M' as int {
      order := Big;
    } else {
      return Err(BadByteOrder);
    }
    if U16(order, tiff[2..4]) != 0x002A {
      return Err(WrongMagic);
    }
    var info, sub := WalkIfd(tiff, order, parseDate, NO_INFO, U32(order, tiff[4..8]));
    if sub > 0 {
      info, sub := WalkIfd(tiff, order, parseDate, info, sub);
    }
    return Ok(info);
  }

  // ---------- The last entry wins ----------

  predicate IsReadable(tiff: seq<byte>) {
    |tiff| >= 8 && OrderOf(tiff).Some? && U16(OrderOf(tiff).value, tiff[2..4]) == 0x002A
  }

  datatype Field = OrientationField | DateField | SubField

  predicate Sets(e: Effect, f: Field) {
    match f
    case OrientationField => e.SetOrientation?
    case DateField => e.SetDate?
    case SubField => e.SetSub?
  }

  function ValueOf(e: Effect): int {
    match e
    case SetOrientation(n) => n
    case SetSub(offset) => offset
    case SetDate(t) => t
    case Nothing => 0
  }

  function FieldOf(w: Walk, f: Field): Option<int> {
    match f
    case OrientationField => Some(w.info.orientation)
    case DateField => w.info.taken
    case SubField => Some(w.sub)
  }

  /** Effect number `k` sets the field, and none after it does. */
  ghost predicate IsLast(effects: seq<Effect>, f: Field, k: int) {
    0 <= k < |effects| && Sets(effects[k], f) && forall j :: k < j < |effects| ==> !Sets(effects[j], f)
  }

  ghost predicate NoneSets(effects: seq<Effect>, f: Field) {
    forall j :: 0 <= j < |effects| ==> !Sets(effects[j], f)
  }

  /** The value is that of the last effect that sets the field, or `missing` if none does. */
  ghost predicate IsLastValue(value: Option<int>, effects: seq<Effect>, f: Field, missing: Option<int>) {
    && (forall k :: IsLast(effects, f, k) ==> value == Some(ValueOf(effects[k])))
    && (NoneSets(effects, f) ==> value == missing)
  }

  /** The orientation and the date are what the last effects that set them say; the orientation is
      zero and the date missing if none does. */
  ghost predicate TakesLast(info: Info, effects: seq<Effect>) {
    && IsLastValue(Some(info.orientation), effects, OrientationField, Some(0))
    && IsLastValue(info.taken, effects, DateField, None)
  }

  lemma {:induction false} LastIsApplied(effects: seq<Effect>, f: Field, k: nat)
    requires IsLast(effects, f, k)
    ensures FieldOf(Applied(NO_INFO, effects), f) == Some(ValueOf(effects[k]))
    decreases |effects|
  {
    if k < |effects| - 1 {
      assert !Sets(effects[|effects| - 1], f);
      LastIsApplied(effects[..|effects| - 1], f, k);
    }
  }

  lemma {:induction false} NoneIsApplied(effects: seq<Effect>, f: Field)
    requires NoneSets(effects, f)
    ensures FieldOf(Applied(NO_INFO, effects), f) == FieldOf(Walk(NO_INFO, 0), f)
    decreases |effects|
  {
    if effects != [] {
      assert !Sets(effects[|effects| - 1], f);
      NoneIsApplied(effects[..|effects| - 1], f);
    }
  }

  lemma AppliedTakesLast(effects: seq<Effect>, f: Field)
    ensures IsLastValue(FieldOf(Applied(NO_INFO, effects), f), effects, f, FieldOf(Walk(NO_INFO, 0), f))
  {
    forall k | IsLast(effects, f, k)
      ensures FieldOf(Applied(NO_INFO, effects), f) == Some(ValueOf(effects[k]))
    {
      LastIsApplied(effects, f, k);
    }
    if NoneSets(effects, f) {
      NoneIsApplied(effects, f);
    }
  }

  lemma {:induction false} AppliedInTwo(first: seq<Effect>, more: seq<Effect>)
    ensures Applied(Applied(NO_INFO, first).info, more).info == Applied(NO_INFO, first + more).info
    decreases |more|
  {
    if more == [] {
      assert first + more == first;
    } else {
      var both := first + more;
      assert both[..|both| - 1] == first + more[..|more| - 1];
      AppliedInTwo(first, more[..|more| - 1]);
    }
  }

  /** The effects of all entries read: those of the first directory, then those of the directory it
      points to, if it does. */
  function AllEffects(tiff: seq<byte>, parseDate: Text -> Option<Time>): seq<Effect>
    requires IsReadable(tiff)
  {
    var order := OrderOf(tiff).value;
    var first := EffectsAt(tiff, order, parseDate, U32(order, tiff[4..8]));
    var sub := Applied(NO_INFO, first).sub;
    if sub > 0 then first + EffectsAt(tiff, order, parseDate, sub) else first
  }

  /** Whatever the bytes are, if the header is in order the result is what the last entries say that set
      the orientation and the date, in the first directory or the one it points to. */
  lemma LastEntryWins(tiff: seq<byte>, parseDate: Text -> Option<Time>) returns (info: Info)
    requires IsReadable(tiff)
    ensures Parse(tiff, parseDate) == Ok(info) && TakesLast(info, AllEffects(tiff, parseDate))
  {
    var order := OrderOf(tiff).value;
    var first := EffectsAt(tiff, order, parseDate, U32(order, tiff[4..8]));
    var sub := Applied(NO_INFO, first).sub;
    AppliedInTwo(first, EffectsAt(tiff, order, parseDate, sub));
    AppliedTakesLast(AllEffects(tiff, parseDate), OrientationField);
    AppliedTakesLast(AllEffects(tiff, parseDate), DateField);
    info := Applied(NO_INFO, AllEffects(tiff, parseDate)).info;
  }

  lemma {:induction false} SomeIsLast(effects: seq<Effect>, f: Field)
    ensures NoneSets(effects, f) || exists k :: IsLast(effects, f, k)
    decreases |effects|
  {
    if effects != [] {
      var init := effects[..|effects| - 1];
      SomeIsLast(init, f);
      if Sets(effects[|effects| - 1], f) {
        assert IsLast(effects, f, |effects| - 1);
      } else if k :| IsLast(init, f, k) {
        assert IsLast(effects, f, k);
      }
    }
  }

  /** The effects determine what is read. */
  lemma TakesLastOnce(a: Info, b: Info, effects: seq<Effect>)
    requires TakesLast(a, effects) && TakesLast(b, effects)
    ensures a == b
  {
    SomeIsLast(effects, OrientationField);
    SomeIsLast(effects, DateField);
  }

  // ---------- Encoding ----------

  function B16(order: Order, n: nat): (b: seq<byte>)
    requires n < 0x10000
    ensures |b| == 2
  {
    if order == Little then [n % 256, n / 256] else [n / 256, n % 256]
  }

  function B32(order: Order, n: nat): (b: seq<byte>)
    requires n < 0x1_0000_0000
    ensures |b| == 4
  {
    if order == Little then B16(order, n % 0x10000) + B16(order, n / 0x10000)
    else B16(order, n / 0x10000) + B16(order, n % 0x10000)
  }

  lemma Decode16(order: Order, n: nat)
    requires n < 0x10000
    ensures U16(order, B16(order, n)) == n
  {
  }

  lemma Decode32(order: Order, n: nat)
    requires n < 0x1_0000_0000
    ensures U32(order, B32(order, n)) == n
  {
    Decode16(order, n % 0x10000);
    Decode16(order, n / 0x10000);
  }

  /** An entry as a writer thinks of it: a SHORT value is written into the first half of the value
      field, any other value as a LONG. */
  datatype Item = Item(tag: nat, ftype: nat, count: nat, value: nat)

  predicate Fits(it: Item) {
    it.tag < 0x10000 && it.ftype < 0x10000 && it.count < 0x1_0000_0000
    && it.value < if it.ftype == 3 then 0x10000 else 0x1_0000_0000
  }

  predicate AllFit(items: seq<Item>) {
    |items| < 0x10000 && forall i :: 0 <= i < |items| ==> Fits(items[i])
  }

  function EncodeItem(order: Order, it: Item): (b: seq<byte>)
    requires Fits(it)
    ensures |b| == 12
  {
    B16(order, it.tag) + B16(order, it.ftype) + B32(order, it.count) + ValueBytes(order, it)
  }

  function EncodeItems(order: Order, items: seq<Item>): (b: seq<byte>)
    requires forall i :: 0 <= i < |items| ==> Fits(items[i])
    ensures |b| == 12 * |items|
  {
    if items == [] then [] else EncodeItems(order, items[..|items| - 1]) + EncodeItem(order, items[|items| - 1])
  }

  /** A picture's metadata: the first directory, the Exif directory and, after both, the texts. */
  datatype Metadata = Metadata(first: seq<Item>, exif: seq<Item>, texts: seq<byte>)

  function ExifOffset(m: Metadata): nat {
    8 + 2 + 12 * |m.first| + 4
  }

  function TextStart(m: Metadata): nat {
    ExifOffset(m) + 2 + 12 * |m.exif| + 4
  }

  function EncodeDirectory(order: Order, items: seq<Item>): (b: seq<byte>)
    requires AllFit(items)
    ensures |b| == 2 + 12 * |items| + 4
  {
    B16(order, |items|) + EncodeItems(order, items) + B32(order, 0)
  }

  function Signature(order: Order): (b: seq<byte>)
    ensures |b| == 2
  {
    if order == Little then ['I' as int, 'I' as int] else ['M' as int, 'M' as int]
  }

  function Encode(order: Order, m: Metadata): (b: seq<byte>)
    requires AllFit(m.first) && AllFit(m.exif)
    ensures |b| == TextStart(m) + |m.texts|
  {
    Signature(order) + B16(order, 0x002A) + B32(order, 8) +
    EncodeDirectory(order, m.first) + EncodeDirectory(order, m.exif) + m.texts
  }

  /** The pointer to the Exif directory points to it, and dates lie among the texts. */
  predicate PointersFit(m: Metadata, items: seq<Item>) {
    forall i :: 0 <= i < |items| ==>
      && (items[i].tag == 0x8769 && items[i].ftype == 4 && items[i].count == 1 ==> items[i].value == ExifOffset(m))
      && (items[i].tag == 0x9003 && items[i].ftype == 2 && items[i].count >= 19 ==> items[i].value >= TextStart(m))
  }

  predicate WellFormed(m: Metadata) {
    AllFit(m.first) && AllFit(m.exif) && PointersFit(m, m.first) && PointersFit(m, m.exif)
  }

  // ---------- What the metadata means, without bytes ----------

  function MeantText(m: Metadata, it: Item): Text {
    if it.value >= TextStart(m) && it.value + it.count <= TextStart(m) + |m.texts|
    then m.texts[it.value - TextStart(m)..it.value - TextStart(m) + it.count]
    else []
  }

  function MeantEffect(m: Metadata, parseDate: Text -> Option<Time>, it: Item): Effect {
    if it.tag == 0x0112 && it.ftype == 3 && it.count == 1 then SetOrientation(it.value)
    else if it.tag == 0x8769 && it.ftype == 4 && it.count == 1 then SetSub(it.value)
    else if it.tag == 0x9003 && it.ftype == 2 && it.count >= 19 then DateEffect(parseDate(Trimmed(MeantText(m, it))))
    else Nothing
  }

  function MeantEffects(m: Metadata, parseDate: Text -> Option<Time>, items: seq<Item>): (r: seq<Effect>)
    ensures |r| == |items| && forall i :: 0 <= i < |items| ==> r[i] == MeantEffect(m, parseDate, items[i])
  {
    seq(|items|, i requires 0 <= i < |items| => MeantEffect(m, parseDate, items[i]))
  }

  /** The item that points to the Exif directory. */
  predicate Points(it: Item) {
    it.tag == 0x8769 && it.ftype == 4 && it.count == 1
  }

  /** The items that are read: those of the first directory and, if one of them points there, those of
      the Exif directory. */
  ghost function ItemsRead(m: Metadata): seq<Item> {
    if exists it :: it in m.first && Points(it) then m.first + m.exif else m.first
  }

  // ---------- Parsing what was encoded ----------

  lemma SliceOfSlice(s: seq<byte>, a: nat, b: nat, i: nat, j: nat)
    requires a <= b <= |s| && i <= j <= b - a
    ensures s[a..b][i..j] == s[a + i..a + j]
  {
    var part := s[a..b];
    assert |part[i..j]| == |s[a + i..a + j]|;
    forall k | 0 <= k < j - i
      ensures part[i..j][k] == s[a + i..a + j][k]
    {
      assert part[i..j][k] == part[i + k];
    }
  }

  lemma SliceOfSum(p: seq<byte>, q: seq<byte>, i: nat, j: nat)
    requires i <= j <= |p| + |q|
    ensures j <= |p| ==> (p + q)[i..j] == p[i..j]
    ensures i >= |p| ==> (p + q)[i..j] == q[i - |p|..j - |p|]
  {
  }

  /** The entry that the bytes of an item decode to says what the item says. */
  ghost predicate Says(order: Order, e: Entry, it: Item)
    requires |e.val| == 4
  {
    && e.tag == it.tag && e.ftype == it.ftype && e.count == it.count
    && (if it.ftype == 3 then U16(order, e.val[..2]) == it.value else U32(order, e.val) == it.value)
  }

  function ValueBytes(order: Order, it: Item): (b: seq<byte>)
    requires Fits(it)
    ensures |b| == 4
  {
    if it.ftype == 3 then B16(order, it.value) + [0, 0] else B32(order, it.value)
  }

  lemma ItemSlices(a: seq<byte>, b: seq<byte>, c: seq<byte>, d: seq<byte>)
    requires |a| == 2 && |b| == 2 && |c| == 4 && |d| == 4
    ensures (a + b + c + d)[0..2] == a && (a + b + c + d)[2..4] == b && (a + b + c + d)[4..8] == c &&
      (a + b + c + d)[8..12] == d
  {
  }

  lemma ItemDecodes(order: Order, it: Item)
    requires Fits(it)
    ensures Says(order, EntryOf(order, EncodeItem(order, it)), it)
  {
    ItemSlices(B16(order, it.tag), B16(order, it.ftype), B32(order, it.count), ValueBytes(order, it));
    Decode16(order, it.tag);
    Decode16(order, it.ftype);
    Decode32(order, it.count);
    if it.ftype == 3 {
      assert ValueBytes(order, it)[..2] == B16(order, it.value);
      Decode16(order, it.value);
    } else {
      Decode32(order, it.value);
    }
  }

  lemma {:induction false} ItemsSliced(order: Order, items: seq<Item>, i: nat)
    requires (forall k :: 0 <= k < |items| ==> Fits(items[k])) && i < |items|
    ensures EncodeItems(order, items)[12 * i..12 * i + 12] == EncodeItem(order, items[i])
    decreases |items|
  {
    var init, last := items[..|items| - 1], items[|items| - 1];
    SliceOfSum(EncodeItems(order, init), EncodeItem(order, last), 12 * i, 12 * i + 12);
    if i < |items| - 1 {
      ItemsSliced(order, init, i);
    }
  }

  /** The bytes hold the encoded items at `base`. */
  ghost predicate HoldsItems(tiff: seq<byte>, order: Order, base: nat, items: seq<Item>) {
    && (forall k :: 0 <= k < |items| ==> Fits(items[k]))
    && base + 12 * |items| <= |tiff|
    && tiff[base..base + 12 * |items|] == EncodeItems(order, items)
  }

  lemma ItemBytes(tiff: seq<byte>, order: Order, base: nat, items: seq<Item>, i: nat)
    requires HoldsItems(tiff, order, base, items) && i < |items|
    ensures tiff[base + 12 * i..base + 12 * i + 12] == EncodeItem(order, items[i])
  {
    ItemsSliced(order, items, i);
    ChunkOf(tiff, base, EncodeItems(order, items), i);
  }

  lemma ChunkOf(tiff: seq<byte>, base: nat, part: seq<byte>, i: nat)
    requires base + |part| <= |tiff| && tiff[base..base + |part|] == part && 12 * i + 12 <= |part|
    ensures tiff[base + 12 * i..base + 12 * i + 12] == part[12 * i..12 * i + 12]
  {
    InsidePart(tiff, base, part, 12 * i, 12 * i + 12);
  }

  lemma EntryIsItem(tiff: seq<byte>, order: Order, base: nat, items: seq<Item>, i: nat)
    requires HoldsItems(tiff, order, base, items) && i < |items|
    ensures Says(order, EntryIn(tiff, order, base, i), items[i])
  {
    ItemBytes(tiff, order, base, items, i);
    ItemDecodes(order, items[i]);
  }

  /** The texts are at the end of the bytes. */
  ghost predicate EndsWithTexts(tiff: seq<byte>, m: Metadata) {
    |tiff| == TextStart(m) + |m.texts| && tiff[TextStart(m)..] == m.texts
  }

  lemma TextMeant(tiff: seq<byte>, order: Order, m: Metadata, e: Entry, it: Item)
    requires |e.val| == 4 && Says(order, e, it) && EndsWithTexts(tiff, m)
    requires it.ftype != 3 && it.count >= 19 && it.value >= TextStart(m)
    ensures TextOf(tiff, order, e) == MeantText(m, it)
  {
    if it.value + it.count <= |tiff| {
      SliceOfSlice(tiff, TextStart(m), |tiff|, it.value - TextStart(m), it.value - TextStart(m) + it.count);
      assert tiff[TextStart(m)..|tiff|] == m.texts;
    }
  }

  lemma EntryMeansItem(tiff: seq<byte>, order: Order, m: Metadata, parseDate: Text -> Option<Time>,
                       base: nat, items: seq<Item>, i: nat)
    requires HoldsItems(tiff, order, base, items) && i < |items|
    requires PointersFit(m, items) && EndsWithTexts(tiff, m)
    ensures EffectOf(tiff, order, parseDate, EntryIn(tiff, order, base, i)) == MeantEffect(m, parseDate, items[i])
  {
    EntryIsItem(tiff, order, base, items, i);
    var it, e := items[i], EntryIn(tiff, order, base, i);
    if it.tag == 0x9003 && it.ftype == 2 && it.count >= 19 {
      TextMeant(tiff, order, m, e, it);
    }
  }

  lemma EntriesMeanItems(tiff: seq<byte>, order: Order, m: Metadata, parseDate: Text -> Option<Time>,
                         base: nat, items: seq<Item>)
    requires HoldsItems(tiff, order, base, items)
    requires PointersFit(m, items) && EndsWithTexts(tiff, m)
    ensures EffectsIn(tiff, order, parseDate, base, |items|) == MeantEffects(m, parseDate, items)
  {
    forall i | 0 <= i < |items|
      ensures EffectOf(tiff, order, parseDate, EntryIn(tiff, order, base, i)) == MeantEffect(m, parseDate, items[i])
    {
      EntryMeansItem(tiff, order, m, parseDate, base, items, i);
    }
  }

  lemma DirectorySlices(order: Order, items: seq<Item>)
    requires AllFit(items)
    ensures EncodeDirectory(order, items)[0..2] == B16(order, |items|)
    ensures EncodeDirectory(order, items)[2..2 + 12 * |items|] == EncodeItems(order, items)
  {
    var a, b, c := B16(order, |items|), EncodeItems(order, items), B32(order, 0);
    assert (a + b + c)[0..2] == a && (a + b + c)[2..2 + |b|] == b;
  }

  /** What is inside a part of the bytes is inside the bytes. */
  lemma InsidePart(tiff: seq<byte>, off: nat, part: seq<byte>, i: nat, j: nat)
    requires off + |part| <= |tiff| && tiff[off..off + |part|] == part && i <= j <= |part|
    ensures tiff[off + i..off + j] == part[i..j]
  {
    SliceOfSlice(tiff, off, off + |part|, i, j);
  }

  lemma DirectoryHolds(tiff: seq<byte>, order: Order, off: nat, items: seq<Item>)
    requires AllFit(items) && off + 2 + 12 * |items| + 4 <= |tiff|
    requires tiff[off..off + 2 + 12 * |items| + 4] == EncodeDirectory(order, items)
    ensures tiff[off..off + 2] == B16(order, |items|) && HoldsItems(tiff, order, off + 2, items)
  {
    var part := EncodeDirectory(order, items);
    DirectorySlices(order, items);
    assert off + |part| == off + 2 + 12 * |items| + 4;
    InsidePart(tiff, off, part, 0, 2);
    InsidePart(tiff, off, part, 2, 2 + 12 * |items|);
  }

  lemma DirectoryMeans(tiff: seq<byte>, order: Order, m: Metadata, parseDate: Text -> Option<Time>,
                       off: nat, items: seq<Item>)
    requires AllFit(items) && off + 2 + 12 * |items| + 4 <= |tiff|
    requires tiff[off..off + 2 + 12 * |items| + 4] == EncodeDirectory(order, items)
    requires PointersFit(m, items) && EndsWithTexts(tiff, m)
    ensures EffectsAt(tiff, order, parseDate, off) == MeantEffects(m, parseDate, items)
  {
    DirectoryHolds(tiff, order, off, items);
    Decode16(order, |items|);
    EntriesMeanItems(tiff, order, m, parseDate, off + 2, items);
  }

  lemma FileSlices(a: seq<byte>, b: seq<byte>, c: seq<byte>, d: seq<byte>, e: seq<byte>, f: seq<byte>)
    requires |a| == 2 && |b| == 2 && |c| == 4
    ensures var s := a + b + c + d + e + f;
      && s[0..2] == a && s[2..4] == b && s[4..8] == c
      && s[8..8 + |d|] == d && s[8 + |d|..8 + |d| + |e|] == e && s[8 + |d| + |e|..] == f
  {
  }

  lemma EncodedParts(order: Order, m: Metadata)
    requires AllFit(m.first) && AllFit(m.exif)
    ensures var b := Encode(order, m);
      && b[0..2] == Signature(order) && b[2..4] == B16(order, 0x002A) && b[4..8] == B32(order, 8)
      && b[8..ExifOffset(m)] == EncodeDirectory(order, m.first)
      && b[ExifOffset(m)..TextStart(m)] == EncodeDirectory(order, m.exif)
      && EndsWithTexts(b, m)
  {
    FileSlices(Signature(order), B16(order, 0x002A), B32(order, 8),
               EncodeDirectory(order, m.first), EncodeDirectory(order, m.exif), m.texts);
  }

  lemma SignatureRead(order: Order, b: seq<byte>)
    requires |b| >= 8 && b[0..2] == Signature(order)
    ensures OrderOf(b) == Some(order)
  {
    assert b[0] == b[0..2][0] && b[1] == b[0..2][1];
  }

  lemma EncodedHeader(order: Order, b: seq<byte>)
    requires |b| >= 8 && b[0..2] == Signature(order) && b[2..4] == B16(order, 0x002A) && b[4..8] == B32(order, 8)
    ensures OrderOf(b) == Some(order) && U16(order, b[2..4]) == 0x002A && U32(order, b[4..8]) == 8
  {
    SignatureRead(order, b);
    Decode16(order, 0x002A);
    Decode32(order, 8);
  }

  /** The encoded metadata has the effects that its items mean, directory by directory. */
  lemma EncodedEffects(order: Order, m: Metadata, parseDate: Text -> Option<Time>)
    requires WellFormed(m)
    ensures var b := Encode(order, m);
      && IsReadable(b) && OrderOf(b) == Some(order) && U32(order, b[4..8]) == 8
      && EffectsAt(b, order, parseDate, 8) == MeantEffects(m, parseDate, m.first)
      && EffectsAt(b, order, parseDate, ExifOffset(m)) == MeantEffects(m, parseDate, m.exif)
  {
    var b := Encode(order, m);
    EncodedParts(order, m);
    EncodedHeader(order, b);
    DirectoryMeans(b, order, m, parseDate, 8, m.first);
    DirectoryMeans(b, order, m, parseDate, ExifOffset(m), m.exif);
  }

  lemma {:induction false} SubIsExif(m: Metadata, parseDate: Text -> Option<Time>, items: seq<Item>)
    requires PointersFit(m, items)
    ensures Applied(NO_INFO, MeantEffects(m, parseDate, items)).sub ==
      if exists it :: it in items && Points(it) then ExifOffset(m) else 0
    decreases |items|
  {
    if items != [] {
      var init, last := items[..|items| - 1], items[|items| - 1];
      SubIsExif(m, parseDate, init);
      assert MeantEffects(m, parseDate, items)[..|items| - 1] == MeantEffects(m, parseDate, init);
      var effects := MeantEffects(m, parseDate, items);
      assert Applied(NO_INFO, effects) == Apply(Applied(NO_INFO, effects[..|effects| - 1]), effects[|effects| - 1]);
      assert items == init + [last];
      if Points(last) {
        assert last in items;
      } else if it :| it in init && Points(it) {
        assert it in items;
      }
    }
  }

  /** The effects of all entries read are what the items read mean. */
  lemma AllEffectsMeant(order: Order, m: Metadata, parseDate: Text -> Option<Time>)
    requires WellFormed(m) && IsReadable(Encode(order, m))
    ensures AllEffects(Encode(order, m), parseDate) == MeantEffects(m, parseDate, ItemsRead(m))
  {
    EncodedEffects(order, m, parseDate);
    SubIsExif(m, parseDate, m.first);
    MeantInTwo(m, parseDate, m.first, m.exif);
  }

  lemma MeantInTwo(m: Metadata, parseDate: Text -> Option<Time>, a: seq<Item>, b: seq<Item>)
    ensures MeantEffects(m, parseDate, a + b) == MeantEffects(m, parseDate, a) + MeantEffects(m, parseDate, b)
  {
  }

  /** Metadata written in either byte order is read back as what it means: the orientation and the date
      are those of the last items that give one, and missing if no item does. */
  lemma EncodedParses(order: Order, m: Metadata, parseDate: Text -> Option<Time>) returns (info: Info)
    requires WellFormed(m)
    ensures Parse(Encode(order, m), parseDate) == Ok(info)
    ensures TakesLast(info, MeantEffects(m, parseDate, ItemsRead(m)))
  {
    EncodedEffects(order, m, parseDate);
    AllEffectsMeant(order, m, parseDate);
    info := LastEntryWins(Encode(order, m), parseDate);
  }

  predicate GivesOrientation(it: Item) {
    it.tag == 0x0112 && it.ftype == 3 && it.count == 1
  }

  /** The item's text is at least 19 bytes long and, without the blanks at its end, a date. */
  predicate GivesDate(m: Metadata, parseDate: Text -> Option<Time>, it: Item) {
    it.tag == 0x9003 && it.ftype == 2 && it.count >= 19 && parseDate(Trimmed(MeantText(m, it))).Some?
  }

  ghost predicate IsLastItem(items: seq<Item>, gives: Item -> bool, k: int) {
    && 0 <= k < |items| && gives(items[k])
    && forall j :: k < j < |items| ==> !gives(items[j])
  }

  /** The orientation read is the number in the last item that gives one, and the date is the one in the last
      item that gives one; zero and none if there is no such item. */
  lemma LastItemsAreRead(order: Order, m: Metadata, parseDate: Text -> Option<Time>, info: Info)
    requires WellFormed(m) && Parse(Encode(order, m), parseDate) == Ok(info)
    ensures var items, dated := ItemsRead(m), (it: Item) => GivesDate(m, parseDate, it);
      && (forall k :: IsLastItem(items, GivesOrientation, k) ==> info.orientation == items[k].value)
      && (forall k :: IsLastItem(items, dated, k) ==> info.taken == parseDate(Trimmed(MeantText(m, items[k]))))
      && ((forall it :: it in items ==> !GivesOrientation(it)) ==> info.orientation == 0)
      && ((forall it :: it in items ==> !GivesDate(m, parseDate, it)) ==> info.taken == None)
  {
    var read := EncodedParses(order, m, parseDate);
    var items, effects := ItemsRead(m), MeantEffects(m, parseDate, ItemsRead(m));
    forall k | 0 <= k < |items|
      ensures Sets(effects[k], OrientationField) <==> GivesOrientation(items[k])
      ensures Sets(effects[k], DateField) <==> GivesDate(m, parseDate, items[k])
    {
      assert effects[k] == MeantEffect(m, parseDate, items[k]);
    }
    forall k | IsLastItem(items, GivesOrientation, k)
      ensures info.orientation == items[k].value
    {
      assert IsLast(effects, OrientationField, k);
    }
    var dated := (it: Item) => GivesDate(m, parseDate, it);
    forall k | IsLastItem(items, dated, k)
      ensures info.taken == parseDate(Trimmed(MeantText(m, items[k])))
    {
      assert IsLast(effects, DateField, k);
    }
  }

  /** So the byte order makes no difference. */
  lemma ByteOrderIsIrrelevant(m: Metadata, parseDate: Text -> Option<Time>)
    requires WellFormed(m)
    ensures Parse(Encode(Little, m), parseDate) == Parse(Encode(Big, m), parseDate)
  {
    var a := EncodedParses(Little, m, parseDate);
    var b := EncodedParses(Big, m, parseDate);
    TakesLastOnce(a, b, MeantEffects(m, parseDate, ItemsRead(m)));
  }
}
