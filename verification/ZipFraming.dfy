/** The container checks as functions of what was read, and what a report without
    findings means for every byte of the file. */
module ZipFraming {
  import opened Prelude
  import opened ZipBytes

  const MAX_PACKAGE_BYTES := 2147483648

  /** The end-of-central-directory record as the reader sees it. */
  datatype Eocd = Eocd(
    off: nat, atTail: bool, commentLen: nat, zip64: bool, countThisDisk: nat, countTotal: nat,
    cdSize: nat, cdOff: int, cdEndsAtEocd: Option<bool>)

  /** One central record; `at` is where it was found. */
  datatype Entry = Entry(
    at: int, name: Blob, flags: nat, methd: nat, compSize: nat, uncompSize: nat, attr: nat, localOff: nat)

  datatype Code =
    | PackageTooLarge | NotSpanningFile | ArchiveComment | Zip64 | CountMismatch | CdSlack
    | LocalMissing | LocalName | LocalMethod | LocalSize | Unaccounted

  /** `_parse_eocd`; None is an exception. */
  function ParseEocd(b: Blob): Option<Eocd> {
    if |b| < 22 then None
    else
      var tail := |b| - 22;
      var atTail := HasSig(b, tail, EOCD_SIG);
      var e := if atTail then tail else RFind(b, EOCD_SIG, |b| - 3);
      if e < 0 || e + 22 > |b| then None
      else
        var cdSize, cdOffset := U32(b, e + 12), U32(b, e + 16);
        var onDisk, total := U16(b, e + 8), U16(b, e + 10);
        var sentinel := cdOffset == 0xFFFFFFFF || cdSize == 0xFFFFFFFF;
        var zip64 := (e >= 20 && HasSig(b, e - 20, ZIP64_SIG)) || onDisk == 0xFFFF || total == 0xFFFF || sentinel;
        Some(Eocd(e, atTail, U16(b, e + 20), zip64, onDisk, total, cdSize,
                  if HasSig(b, cdOffset, CD_SIG) then cdOffset
                  else if cdSize != 0 && HasSig(b, e - cdSize, CD_SIG) then e - cdSize
                  else cdOffset,
                  if zip64 then None else Some(cdOffset + cdSize == e)))
  }

  predicate ReadableRecord(b: Blob, off: int) {
    && Unpack(b, off + 8, 4).Some? && Unpack(b, off + 20, 8).Some? && Unpack(b, off + 28, 6).Some?
    && Unpack(b, off + 38, 4).Some? && Unpack(b, off + 42, 4).Some?
  }

  /** A field at `k` inside a group of fields that can be unpacked at `off`. */
  function FieldU16(b: Blob, off: int, size: nat, k: nat): nat
    requires Unpack(b, off, size).Some? && k + 2 <= size
  {
    Le(b, Unpack(b, off, size).value + k, 2)
  }

  function FieldU32(b: Blob, off: int, size: nat, k: nat): nat
    requires Unpack(b, off, size).Some? && k + 4 <= size
  {
    Le(b, Unpack(b, off, size).value + k, 4)
  }

  function NameLen(b: Blob, off: int): nat
    requires ReadableRecord(b, off)
  {
    FieldU16(b, off + 28, 6, 0)
  }

  function RecordLen(b: Blob, off: int): (r: nat)
    requires ReadableRecord(b, off)
    ensures r >= 46
  {
    46 + NameLen(b, off) + FieldU16(b, off + 28, 6, 2) + FieldU16(b, off + 28, 6, 4)
  }

  function EntryAt(b: Blob, off: int): Entry
    requires ReadableRecord(b, off)
  {
    Entry(off, Slice(b, off + 46, off + 46 + NameLen(b, off)),
          FieldU16(b, off + 8, 4, 0), FieldU16(b, off + 8, 4, 2),
          FieldU32(b, off + 20, 8, 0), FieldU32(b, off + 20, 8, 4),
          U32(b, off + 38), U32(b, off + 42))
  }

  /** The records follow one another from `off` to `last`. */
  predicate Chain(b: Blob, es: seq<Entry>, off: int, last: int)
    decreases |es|
  {
    if es == [] then last == off
    else
      && 0 <= off && ReadableRecord(b, off) && HasSig(b, off, CD_SIG) && es[0] == EntryAt(b, off)
      && Chain(b, es[1..], off + RecordLen(b, off), last)
  }

  /** The central records from `off`, and where the walk over them ends. */
  function Records(b: Blob, off: int, end: int): (r: Option<(seq<Entry>, int)>)
    ensures 0 <= off && end <= |b| ==> r.Some? && Chain(b, r.value.0, off, r.value.1)
    decreases end - off
  {
    if off + 46 <= end && HasSig(b, off, CD_SIG) then
      if !ReadableRecord(b, off) then None
      else
        var rest := Records(b, off + RecordLen(b, off), end);
        if rest.None? then None
        else
          var es := [EntryAt(b, off)] + rest.value.0;
          assert es[1..] == rest.value.0;
          Some((es, rest.value.1))
    else Some(([], off))
  }

  // ---------------------------------------------------------- local records

  /** What the local header of an entry says; `end` is one past its data and its
      data descriptor, whose signature word is optional (section 4.3.9.3). */
  datatype LocalView = LocalView(
    name: Blob, methd: nat, descriptor: bool, compSize: nat, uncompSize: nat, end: nat)

  /** None when there is no local header where the directory says. */
  function ReadLocal(b: Blob, e: Entry): (r: Option<LocalView>)
    ensures r.Some? ==> e.localOff + 30 <= r.value.end
  {
    var lho := e.localOff;
    if lho + 30 > |b| || !HasSig(b, lho, LOCAL_SIG) then None
    else
      var nameLen := U16(b, lho + 26);
      var descriptor := (U16(b, lho + 6) / 8) % 2 == 1;
      var dataEnd := lho + 30 + nameLen + U16(b, lho + 28) + e.compSize;
      Some(LocalView(Slice(b, lho + 30, lho + 30 + nameLen), U16(b, lho + 8), descriptor,
                     U32(b, lho + 18), U32(b, lho + 22),
                     if !descriptor then dataEnd
                     else dataEnd + (if HasSig(b, dataEnd, DESCRIPTOR_SIG) then 16 else 12)))
  }

  function ReadLocals(b: Blob, es: seq<Entry>): (r: seq<Option<LocalView>>)
    ensures |r| == |es|
    ensures forall i :: 0 <= i < |es| ==> r[i] == ReadLocal(b, es[i])
  {
    seq(|es|, i requires 0 <= i < |es| => ReadLocal(b, es[i]))
  }

  function When(found: bool, code: Code): seq<Code> {
    if found then [code] else []
  }

  predicate SizesAgree(e: Entry, v: LocalView) {
    v.descriptor || (v.compSize == e.compSize && v.uncompSize == e.uncompSize)
  }

  /** What the two records of an entry disagree about. */
  function LocalProblems(e: Entry, v: LocalView): seq<Code> {
    When(v.name != e.name, LocalName) + When(v.methd != e.methd, LocalMethod) + When(!SizesAgree(e, v), LocalSize)
  }

  /** Both records of every entry exist, name the same entry, and agree. */
  predicate HeadersAgree(es: seq<Entry>, views: seq<Option<LocalView>>) {
    && |views| == |es|
    && forall i :: 0 <= i < |es| ==>
         (views[i].Some? && views[i].value.name == es[i].name && views[i].value.methd == es[i].methd
          && SizesAgree(es[i], views[i].value))
  }

  datatype Span = Span(begin: nat, end: nat)

  function Contains(s: Span, p: nat): bool {
    s.begin <= p < s.end
  }

  /** How many of the spans hold offset `p`. */
  function Count(spans: seq<Span>, p: nat): nat {
    if spans == [] then 0 else (if Contains(spans[0], p) then 1 else 0) + Count(spans[1..], p)
  }

  predicate Before(a: Span, b: Span) {
    a.begin < b.begin || (a.begin == b.begin && a.end <= b.end)
  }

  function InsertSpan(x: Span, s: seq<Span>): seq<Span> {
    if s == [] || Before(x, s[0]) then [x] + s else [s[0]] + InsertSpan(x, s[1..])
  }

  /** `spans.sort()`. */
  function SortSpans(s: seq<Span>): seq<Span> {
    if s == [] then [] else InsertSpan(s[0], SortSpans(s[1..]))
  }

  /** The spans follow one another from `cursor` and end at `limit`. */
  predicate EndToEnd(s: seq<Span>, cursor: nat, limit: int) {
    if s == [] then cursor == limit
    else s[0].begin == cursor && EndToEnd(s[1..], s[0].end, limit)
  }

  predicate AllNonEmpty(s: seq<Span>) {
    forall i :: 0 <= i < |s| ==> s[i].begin < s[i].end
  }

  predicate InOrder(s: seq<Span>) {
    forall i, j :: 0 <= i < j < |s| ==> s[i].begin <= s[j].begin
  }

  /** Every offset below `limit` lies in exactly one span and no other in any. */
  ghost predicate Tiles(s: seq<Span>, from: nat, limit: int) {
    from <= limit && forall p: nat :: Count(s, p) == if from <= p < limit then 1 else 0
  }

  lemma {:induction false} InsertCounts(x: Span, s: seq<Span>, p: nat)
    ensures Count(InsertSpan(x, s), p) == Count([x] + s, p)
  {
    assert ([x] + s)[1..] == s;
    if s != [] && !Before(x, s[0]) {
      InsertCounts(x, s[1..], p);
      assert ([s[0]] + InsertSpan(x, s[1..]))[1..] == InsertSpan(x, s[1..]);
      assert ([x] + s[1..])[1..] == s[1..];
    }
  }

  lemma {:induction false} SortCounts(s: seq<Span>, p: nat)
    ensures Count(SortSpans(s), p) == Count(s, p)
  {
    if s != [] {
      InsertCounts(s[0], SortSpans(s[1..]), p);
      SortCounts(s[1..], p);
      assert ([s[0]] + SortSpans(s[1..]))[1..] == SortSpans(s[1..]);
    }
  }

  lemma {:induction false} InsertKeepsOrder(x: Span, s: seq<Span>)
    requires InOrder(s) && AllNonEmpty(s) && x.begin < x.end
    ensures InOrder(InsertSpan(x, s)) && AllNonEmpty(InsertSpan(x, s))
    ensures forall i :: 0 <= i < |InsertSpan(x, s)| ==>
              InsertSpan(x, s)[i] == x || exists j :: 0 <= j < |s| && InsertSpan(x, s)[i] == s[j]
  {
    if s != [] && !Before(x, s[0]) {
      InsertKeepsOrder(x, s[1..]);
      var r := InsertSpan(x, s[1..]);
      forall i | 0 <= i < |r| ensures s[0].begin <= r[i].begin {
        if r[i] != x {
          var j :| 0 <= j < |s[1..]| && r[i] == s[1..][j];
        }
      }
      forall i | 0 <= i < |[s[0]] + r|
        ensures ([s[0]] + r)[i] == x || exists j :: 0 <= j < |s| && ([s[0]] + r)[i] == s[j]
      {
        if i > 0 && r[i - 1] != x {
          var j :| 0 <= j < |s[1..]| && r[i - 1] == s[1..][j];
          assert r[i - 1] == s[j + 1];
        }
      }
    }
  }

  lemma {:induction false} SortOrders(s: seq<Span>)
    requires AllNonEmpty(s)
    ensures InOrder(SortSpans(s)) && AllNonEmpty(SortSpans(s))
  {
    if s != [] {
      SortOrders(s[1..]);
      InsertKeepsOrder(s[0], SortSpans(s[1..]));
    }
  }

  lemma {:induction false} EndToEndTiles(s: seq<Span>, cursor: nat, limit: int)
    requires AllNonEmpty(s) && EndToEnd(s, cursor, limit)
    ensures Tiles(s, cursor, limit)
  {
    if s != [] {
      EndToEndTiles(s[1..], s[0].end, limit);
      forall p: nat ensures Count(s, p) == if cursor <= p < limit then 1 else 0 {
        assert Count(s[1..], p) == if s[0].end <= p < limit then 1 else 0;
      }
    }
  }

  lemma {:induction false} CountsAt(s: seq<Span>, i: nat, p: nat)
    requires i < |s| && Contains(s[i], p)
    ensures Count(s, p) >= 1
  {
    if i > 0 { CountsAt(s[1..], i - 1, p); }
  }

  lemma {:induction false} CountsNone(s: seq<Span>, p: nat)
    requires forall i :: 0 <= i < |s| ==> p < s[i].begin
    ensures Count(s, p) == 0
  {
    if s != [] { CountsNone(s[1..], p); }
  }

  /** The converse, for a sorted list: spans that tile follow one another. */
  lemma {:induction false} TilesEndToEnd(s: seq<Span>, cursor: nat, limit: int)
    requires AllNonEmpty(s) && InOrder(s) && Tiles(s, cursor, limit)
    ensures EndToEnd(s, cursor, limit)
  {
    if s == [] {
      assert Count(s, cursor) == 0;
    } else {
      CountsAt(s, 0, s[0].begin);
      if cursor < s[0].begin {
        CountsNone(s, cursor);
      }
      assert s[0].begin == cursor;
      CountsAt(s, 0, s[0].end - 1);
      forall p: nat ensures Count(s[1..], p) == if s[0].end <= p < limit then 1 else 0 {
        assert Count(s, p) == if cursor <= p < limit then 1 else 0;
      }
      TilesEndToEnd(s[1..], s[0].end, limit);
    }
  }

  /** The cursor loop finds nothing exactly when the spans, in whatever order
      they were collected, cover every offset below `limit` once. */
  lemma FramingExact(s: seq<Span>, limit: nat)
    requires AllNonEmpty(s)
    ensures EndToEnd(SortSpans(s), 0, limit) <==> Tiles(s, 0, limit)
  {
    SortOrders(s);
    forall p: nat ensures Count(SortSpans(s), p) == Count(s, p) { SortCounts(s, p); }
    if EndToEnd(SortSpans(s), 0, limit) {
      EndToEndTiles(SortSpans(s), 0, limit);
      forall p: nat ensures Count(s, p) == if 0 <= p < limit then 1 else 0 {
        assert Count(SortSpans(s), p) == if 0 <= p < limit then 1 else 0;
      }
    }
    if Tiles(s, 0, limit) {
      TilesEndToEnd(SortSpans(s), 0, limit);
    }
  }

  // -------------------------------------------------- what a clean report means

  /** The span of each local record; a header that is missing has none. */
  function LocalSpans(es: seq<Entry>, views: seq<Option<LocalView>>): (r: seq<Span>)
    requires |views| == |es|
    ensures |r| == |es|
    ensures forall i :: 0 <= i < |es| ==>
      r[i] == Span(es[i].localOff, if views[i].Some? then views[i].value.end else es[i].localOff)
  {
    seq(|es|, i requires 0 <= i < |es| =>
      Span(es[i].localOff, if views[i].Some? then views[i].value.end else es[i].localOff))
  }

  /** The spans of the central records of a chain. */
  function CentralSpans(b: Blob, es: seq<Entry>, off: int, last: int): (r: seq<Span>)
    requires 0 <= off && Chain(b, es, off, last)
    ensures |r| == |es| && AllNonEmpty(r) && EndToEnd(r, off, last)
    ensures forall i :: 0 <= i < |es| ==> r[i].begin == es[i].at
    decreases |es|
  {
    if es == [] then []
    else
      var rest := CentralSpans(b, es[1..], off + RecordLen(b, off), last);
      var r := [Span(off, off + RecordLen(b, off))] + rest;
      assert r[1..] == rest;
      r
  }

  /** The framing rules, without the order in which the validator applies them:
      an end record at the very end, a directory of exactly the counted records
      up to it, and local records that agree with it and tile what is before. */
  ghost predicate Framed(c: Eocd, es: seq<Entry>, views: seq<Option<LocalView>>, last: int) {
    && c.atTail && c.cdEndsAtEocd.Some? && c.cdEndsAtEocd.value && c.commentLen == 0 && !c.zip64
    && c.countThisDisk == c.countTotal == |es| && last == c.off
    && HeadersAgree(es, views) && 0 <= c.cdOff && Tiles(LocalSpans(es, views), 0, c.cdOff)
  }

  /** A region of the file: the local record of an entry, a central record, or
      the end record. */
  datatype Region = Local(i: nat) | Central(i: nat) | End

  predicate InRegion(local: seq<Span>, central: seq<Span>, eocd: nat, r: Region, p: nat) {
    match r
    case Local(i) => i < |local| && Contains(local[i], p)
    case Central(i) => i < |central| && Contains(central[i], p)
    case End => eocd <= p < eocd + 22
  }

  ghost predicate InExactlyOne(local: seq<Span>, central: seq<Span>, eocd: nat, p: nat) {
    exists r :: InRegion(local, central, eocd, r, p)
      && forall r' :: InRegion(local, central, eocd, r', p) ==> r' == r
  }

  lemma {:induction false} CountOne(s: seq<Span>, p: nat) returns (i: nat)
    requires Count(s, p) == 1
    ensures i < |s| && Contains(s[i], p)
    ensures forall j :: 0 <= j < |s| && Contains(s[j], p) ==> j == i
  {
    if Contains(s[0], p) {
      i := 0;
      forall j | 0 < j < |s| ensures !Contains(s[j], p) {
        if Contains(s[j], p) { CountsAt(s[1..], j - 1, p); }
      }
    } else {
      i := CountOne(s[1..], p);
      i := i + 1;
      forall j | 0 <= j < |s| && Contains(s[j], p) ensures j == i {
        assert j > 0 && Contains(s[1..][j - 1], p);
      }
    }
  }

  lemma PartitionOfSpans(local: seq<Span>, central: seq<Span>, cd: nat, eocd: nat, p: nat)
    requires Tiles(local, 0, cd) && Tiles(central, cd, eocd) && p < eocd + 22
    ensures InExactlyOne(local, central, eocd, p)
  {
    forall i | 0 <= i < |local| && Contains(local[i], p) ensures p < cd { CountsAt(local, i, p); }
    forall i | 0 <= i < |central| && Contains(central[i], p) ensures cd <= p < eocd { CountsAt(central, i, p); }
    var r: Region;
    if p < cd {
      var i := CountOne(local, p);
      r := Local(i);
    } else if p < eocd {
      var i := CountOne(central, p);
      r := Central(i);
    } else {
      r := End;
    }
    assert InRegion(local, central, eocd, r, p);
    forall r' | InRegion(local, central, eocd, r', p) ensures r' == r {
    }
  }

  /** Every byte of a framed file belongs to exactly one of: one local record the
      directory names, one counted central record, the final 22-byte end record. */
  lemma EveryByteAccounted(b: Blob, c: Eocd, es: seq<Entry>, last: int, p: nat)
    requires ParseEocd(b) == Some(c) && Records(b, c.cdOff, c.off) == Some((es, last))
    requires Framed(c, es, ReadLocals(b, es), last) && p < |b|
    ensures 0 <= c.cdOff && Chain(b, es, c.cdOff, last) && |es| == c.countTotal && c.off + 22 == |b|
    ensures InExactlyOne(LocalSpans(es, ReadLocals(b, es)), CentralSpans(b, es, c.cdOff, last), c.off, p)
  {
    EndToEndTiles(CentralSpans(b, es, c.cdOff, last), c.cdOff, last);
    PartitionOfSpans(LocalSpans(es, ReadLocals(b, es)), CentralSpans(b, es, c.cdOff, last), c.cdOff, c.off, p);
  }

  // ------------------------------------------------------- the checks in order

  /** The loop of `check_local_headers` over the entries, up to the first one
      without a local header; the flag says that there was none such. */
  function LocalScan(es: seq<Entry>, views: seq<Option<LocalView>>): (seq<Code>, bool)
    requires |views| == |es|
  {
    if es == [] then ([], true)
    else if views[0].None? then ([LocalMissing], false)
    else
      var rest := LocalScan(es[1..], views[1..]);
      (LocalProblems(es[0], views[0].value) + rest.0, rest.1)
  }

  lemma {:induction false} ScanAgrees(es: seq<Entry>, views: seq<Option<LocalView>>)
    requires |views| == |es|
    ensures !LocalScan(es, views).1 ==> LocalScan(es, views).0 != []
    ensures LocalScan(es, views).1 <==> forall i :: 0 <= i < |es| ==> views[i].Some?
    ensures LocalScan(es, views) == ([], true) <==> HeadersAgree(es, views)
  {
    if es != [] {
      ScanAgrees(es[1..], views[1..]);
      assert forall i :: 0 < i < |es| ==> es[i] == es[1..][i - 1] && views[i] == views[1..][i - 1];
    }
  }

  function CursorReport(sorted: seq<Span>, cursor: nat, limit: int): seq<Code> {
    if sorted == [] then if cursor != limit then [Unaccounted] else []
    else if sorted[0].begin != cursor then [Unaccounted]
    else CursorReport(sorted[1..], sorted[0].end, limit)
  }

  lemma {:induction false} CursorExact(sorted: seq<Span>, cursor: nat, limit: int)
    ensures CursorReport(sorted, cursor, limit) == [] <==> EndToEnd(sorted, cursor, limit)
  {
    if sorted != [] && sorted[0].begin == cursor {
      CursorExact(sorted[1..], sorted[0].end, limit);
    }
  }

  function LocalReport(c: Eocd, es: seq<Entry>, views: seq<Option<LocalView>>): seq<Code>
    requires |views| == |es|
  {
    if c.zip64 then []
    else
      var (codes, complete) := LocalScan(es, views);
      if !complete then codes else codes + CursorReport(SortSpans(LocalSpans(es, views)), 0, c.cdOff)
  }

  predicate Spanning(c: Eocd) {
    c.atTail && (c.cdEndsAtEocd.None? || c.cdEndsAtEocd.value)
  }

  function CountReport(c: Eocd, es: seq<Entry>, walkEnd: Option<int>): seq<Code> {
    When(c.countThisDisk != c.countTotal, CountMismatch)
    + When(|es| != c.countTotal, CountMismatch)
    + When(walkEnd.Some? && walkEnd.value != c.off, CdSlack)
  }

  function EndReport(c: Eocd, es: seq<Entry>, walkEnd: Option<int>): seq<Code> {
    When(!Spanning(c), NotSpanningFile) + When(c.commentLen != 0, ArchiveComment)
    + (if c.zip64 then [Code.Zip64] else CountReport(c, es, walkEnd))
  }

  lemma CleanEnd(c: Eocd, es: seq<Entry>, last: int)
    ensures EndReport(c, es, Some(last)) == [] <==>
      && Spanning(c) && c.commentLen == 0 && !c.zip64
      && c.countThisDisk == c.countTotal == |es| && last == c.off
  {
    assert |EndReport(c, es, Some(last))| == |When(!Spanning(c), NotSpanningFile)|
      + |When(c.commentLen != 0, ArchiveComment)| + |if c.zip64 then [Code.Zip64] else CountReport(c, es, Some(last))|;
    assert |CountReport(c, es, Some(last))| == |When(c.countThisDisk != c.countTotal, CountMismatch)|
      + |When(|es| != c.countTotal, CountMismatch)| + |When(last != c.off, CdSlack)|;
  }

  lemma CleanLocals(es: seq<Entry>, views: seq<Option<LocalView>>, limit: nat)
    requires HeadersAgree(es, views)
    requires forall i :: 0 <= i < |es| ==> es[i].localOff < views[i].value.end
    ensures CursorReport(SortSpans(LocalSpans(es, views)), 0, limit) == [] <==> Tiles(LocalSpans(es, views), 0, limit)
  {
    var spans := LocalSpans(es, views);
    CursorExact(SortSpans(spans), 0, limit);
    FramingExact(spans, limit);
  }

  lemma BothEmpty(a: seq<Code>, b: seq<Code>)
    ensures a + b == [] <==> a == [] && b == []
  {
    assert |a + b| == |a| + |b|;
  }

  /** A report without findings means that the file is framed, and the other way. */
  lemma CleanIffFramed(c: Eocd, es: seq<Entry>, views: seq<Option<LocalView>>, last: int)
    requires |views| == |es| && c.cdEndsAtEocd.None? == c.zip64
    requires c.atTail && c.cdEndsAtEocd.Some? && c.cdEndsAtEocd.value ==> c.cdOff >= 0
    requires forall i :: 0 <= i < |es| && views[i].Some? ==> es[i].localOff < views[i].value.end
    ensures EndReport(c, es, Some(last)) + LocalReport(c, es, views) == [] <==> Framed(c, es, views, last)
  {
    CleanEnd(c, es, last);
    ScanAgrees(es, views);
    BothEmpty(EndReport(c, es, Some(last)), LocalReport(c, es, views));
    BothEmpty(LocalScan(es, views).0, CursorReport(SortSpans(LocalSpans(es, views)), 0, c.cdOff));
    if HeadersAgree(es, views) && c.cdOff >= 0 {
      CleanLocals(es, views, c.cdOff);
    }
    assert EndReport(c, es, Some(last)) == [] ==> Spanning(c) && c.cdEndsAtEocd.Some?;
  }

  // -------------------------------------------------------- each finding exactly

  /** The scan reaches entry `i`: no header before it, nor its own, is missing. */
  predicate Reached(views: seq<Option<LocalView>>, i: nat) {
    i < |views| && forall j :: 0 <= j <= i ==> views[j].Some?
  }

  /** What a finding about the two headers of one entry says. */
  predicate Says(code: Code, e: Entry, v: LocalView) {
    match code
    case LocalName => v.name != e.name
    case LocalMethod => v.methd != e.methd
    case LocalSize => !v.descriptor && !(v.compSize == e.compSize && v.uncompSize == e.uncompSize)
    case _ => false
  }

  ghost predicate SaidOfSome(code: Code, es: seq<Entry>, views: seq<Option<LocalView>>)
    requires |views| == |es|
  {
    exists i :: 0 <= i < |es| && Reached(views, i) && Says(code, es[i], views[i].value)
  }

  lemma SaidOneMore(code: Code, es: seq<Entry>, views: seq<Option<LocalView>>)
    requires |views| == |es| && es != [] && views[0].Some?
    ensures SaidOfSome(code, es, views) <==> Says(code, es[0], views[0].value) || SaidOfSome(code, es[1..], views[1..])
  {
    hide Says;
    if Says(code, es[0], views[0].value) {
      assert Reached(views, 0);
    }
    if SaidOfSome(code, es, views) {
      var i :| 0 <= i < |es| && Reached(views, i) && Says(code, es[i], views[i].value);
      if i > 0 {
        assert Reached(views[1..], i - 1) && es[1..][i - 1] == es[i];
      }
    }
    if SaidOfSome(code, es[1..], views[1..]) {
      var i :| 0 <= i < |es[1..]| && Reached(views[1..], i) && Says(code, es[1..][i], views[1..][i].value);
      forall j | 0 <= j <= i + 1 ensures views[j].Some? {
        assert j > 0 ==> views[j] == views[1..][j - 1];
      }
      assert Reached(views, i + 1);
    }
  }

  lemma {:induction false} ScanFinds(code: Code, es: seq<Entry>, views: seq<Option<LocalView>>)
    requires |views| == |es|
    ensures code in LocalScan(es, views).0 <==>
      SaidOfSome(code, es, views) || (code.LocalMissing? && exists i :: 0 <= i < |es| && views[i].None?)
  {
    if es != [] && views[0].Some? {
      ScanFinds(code, es[1..], views[1..]);
      SaidOneMore(code, es, views);
      assert forall i :: 0 < i < |es| ==> views[i] == views[1..][i - 1];
      assert code in LocalProblems(es[0], views[0].value) <==> Says(code, es[0], views[0].value);
    }
  }

  lemma {:induction false} NothingBelowZero(s: seq<Span>, cursor: nat, limit: int)
    requires limit < 0
    ensures CursorReport(s, cursor, limit) == [Unaccounted]
  {
    if s != [] && s[0].begin == cursor {
      NothingBelowZero(s[1..], s[0].end, limit);
    }
  }

  lemma {:induction false} CursorFinds(s: seq<Span>, cursor: nat, limit: int)
    ensures CursorReport(s, cursor, limit) == [] || CursorReport(s, cursor, limit) == [Unaccounted]
  {
    if s != [] && s[0].begin == cursor {
      CursorFinds(s[1..], s[0].end, limit);
    }
  }

  /** The cursor loop reports unaccounted bytes exactly if the spans do not tile. */
  lemma CursorReportExact(s: seq<Span>, limit: int)
    requires AllNonEmpty(s)
    ensures CursorReport(SortSpans(s), 0, limit) == if Tiles(s, 0, limit) then [] else [Unaccounted]
  {
    CursorFinds(SortSpans(s), 0, limit);
    if limit < 0 {
      NothingBelowZero(SortSpans(s), 0, limit);
    } else {
      CursorExact(SortSpans(s), 0, limit);
      FramingExact(s, limit);
    }
  }

  /** What each finding says about a directory that ends at `last`. */
  ghost predicate Holds(code: Code, c: Eocd, es: seq<Entry>, views: seq<Option<LocalView>>, last: int)
    requires |views| == |es|
  {
    match code
    case PackageTooLarge => false
    case NotSpanningFile => !c.atTail || c.cdEndsAtEocd == Some(false)
    case ArchiveComment => c.commentLen != 0
    case Zip64 => c.zip64
    case CountMismatch => !c.zip64 && !(c.countThisDisk == c.countTotal == |es|)
    case CdSlack => !c.zip64 && last != c.off
    case LocalMissing => !c.zip64 && exists i :: 0 <= i < |es| && views[i].None?
    case Unaccounted =>
      !c.zip64 && (forall i :: 0 <= i < |es| ==> views[i].Some?) && !Tiles(LocalSpans(es, views), 0, c.cdOff)
    case _ => !c.zip64 && SaidOfSome(code, es, views)
  }

  lemma OfOneEntry(code: Code, es: seq<Entry>, views: seq<Option<LocalView>>)
    requires |views| == |es| && !code.LocalName? && !code.LocalMethod? && !code.LocalSize?
    ensures !SaidOfSome(code, es, views)
  {
  }

  lemma LocalFinds(code: Code, c: Eocd, es: seq<Entry>, views: seq<Option<LocalView>>, last: int)
    requires |views| == |es| && !c.zip64
    requires forall i :: 0 <= i < |es| && views[i].Some? ==> es[i].localOff < views[i].value.end
    ensures code in LocalReport(c, es, views) ==> Holds(code, c, es, views, last)
    ensures code in LocalReport(c, es, views) <== Holds(code, c, es, views, last) && code !in EndReport(c, es, Some(last))
  {
    hide Tiles, LocalScan, CursorReport, SortSpans, SaidOfSome;
    ScanFinds(code, es, views);
    ScanAgrees(es, views);
    if !code.LocalName? && !code.LocalMethod? && !code.LocalSize? {
      OfOneEntry(code, es, views);
    }
    if forall i :: 0 <= i < |es| ==> views[i].Some? {
      CursorReportExact(LocalSpans(es, views), c.cdOff);
    }
  }

  lemma EndFinds(code: Code, c: Eocd, es: seq<Entry>, views: seq<Option<LocalView>>, last: int)
    requires |views| == |es|
    ensures code in EndReport(c, es, Some(last)) ==> Holds(code, c, es, views, last)
    ensures c.zip64 && Holds(code, c, es, views, last) ==> code in EndReport(c, es, Some(last))
  {
  }

  /** A finding is reported exactly when what it says is so. */
  lemma ReportExact(code: Code, c: Eocd, es: seq<Entry>, views: seq<Option<LocalView>>, last: int)
    requires |views| == |es|
    requires forall i :: 0 <= i < |es| && views[i].Some? ==> es[i].localOff < views[i].value.end
    ensures code in EndReport(c, es, Some(last)) + LocalReport(c, es, views) <==> Holds(code, c, es, views, last)
  {
    hide EndReport, Holds;
    EndFinds(code, c, es, views, last);
    if !c.zip64 {
      LocalFinds(code, c, es, views, last);
    }
  }

  // ---------------------------------------------------------- the two verdicts

  /** The walk over the central directory throws, or finds nothing where something is
      announced. */
  predicate NoDirectory(file: Blob, c: Eocd) {
    var records := Records(file, c.cdOff, c.off);
    records.None? || (records.value.0 == [] && c.cdSize != 0)
  }

  /** The file is small enough to be read, and it has no end record or no directory. */
  predicate IsUnreadable(file: Blob) {
    && |file| <= MAX_PACKAGE_BYTES
    && (ParseEocd(file).None? || (!ParseEocd(file).value.zip64 && NoDirectory(file, ParseEocd(file).value)))
  }

  ghost predicate IsFramed(file: Blob) {
    && ParseEocd(file).Some?
    && var c := ParseEocd(file).value;
    && Records(file, c.cdOff, c.off).Some?
    && var (es, last) := Records(file, c.cdOff, c.off).value;
       !c.zip64 && Framed(c, es, ReadLocals(file, es), last)
  }

  /** What this finding says is so of the file; where a ZIP64 record is announced the
      directory is not looked at. */
  ghost predicate IsFound(code: Code, file: Blob) {
    && ParseEocd(file).Some?
    && var c := ParseEocd(file).value;
       if c.zip64 then Holds(code, c, [], [], 0)
       else
         && Records(file, c.cdOff, c.off).Some?
         && var (es, last) := Records(file, c.cdOff, c.off).value;
            Holds(code, c, es, ReadLocals(file, es), last)
  }
}
