/** The objects that carry the parse and the findings. */
module ZipValidator {
  import opened Prelude
  import opened ZipBytes
  import opened ZipFraming
  import opened ZipWriter

  lemma Regroup(x: seq<Code>, a: seq<Code>, b: seq<Code>, c: seq<Code>)
    ensures x + a + b + c == x + (a + b + c)
  {
  }

  class Report {
    var codes: seq<Code>

    constructor ()
      ensures codes == []
    {
      codes := [];
    }

    method Add(code: Code)
      modifies this
      ensures codes == old(codes) + [code]
    {
      codes := codes + [code];
    }

    method AddWhen(found: bool, code: Code)
      modifies this
      ensures codes == old(codes) + When(found, code)
    {
      if found {
        Add(code);
      }
    }
  }

  class Container {
    const blob: Blob
    const oversized: bool
    var eocd: Option<Eocd>
    var entries: seq<Entry>
    var walkEnd: Option<int>

    /** `unreadable` after the constructor is the exception it throws. */
    var unreadable: bool

    constructor (file: Blob)
      ensures oversized <==> |file| > MAX_PACKAGE_BYTES
      ensures !oversized ==> blob == file && eocd == ParseEocd(file)
      ensures unreadable <==> IsUnreadable(file)
      ensures !oversized && !unreadable ==>
                && eocd.Some?
                && (eocd.value.zip64 ==> entries == [] && walkEnd.None?)
                && (!eocd.value.zip64 ==>
                      Records(file, eocd.value.cdOff, eocd.value.off) == (if walkEnd.Some? then Some((entries, walkEnd.value)) else None)
                      && walkEnd.Some?)
    {
      oversized := |file| > MAX_PACKAGE_BYTES;
      blob := if |file| > MAX_PACKAGE_BYTES then [] else file;
      eocd, entries, walkEnd, unreadable := None, [], None, false;
      new;
      if !oversized {
        eocd := ParseEocd(blob);
        unreadable := eocd.None?;
        if eocd.Some? && !eocd.value.zip64 {
          ParseCentralDirectory(eocd.value);
        }
      }
    }

    method ParseCentralDirectory(c: Eocd)
      requires eocd == Some(c) && entries == [] && walkEnd.None? && !unreadable
      modifies this
      ensures eocd == old(eocd)
      ensures !unreadable ==> walkEnd.Some? && Records(blob, c.cdOff, c.off) == Some((entries, walkEnd.value))
      ensures unreadable <==> NoDirectory(blob, c)
    {
      var walked := WalkRecords(blob, c.cdOff, c.off);
      if walked.None? {
        unreadable := true;
        return;
      }
      entries, walkEnd := walked.value.0, Some(walked.value.1);
      if entries == [] && c.cdSize != 0 {
        unreadable := true;
      }
    }

    static method WalkRecords(b: Blob, start: int, end: int) returns (r: Option<(seq<Entry>, int)>)
      ensures r == Records(b, start, end)
    {
      hide Records, EntryAt, RecordLen, Prepend, ReadableRecord;
      var off, es := start, [];
      PrependNone(Records(b, off, end));
      while off + 46 <= end && HasSig(b, off, CD_SIG)
        invariant Records(b, start, end) == Prepend(es, Records(b, off, end))
        decreases end - off
      {
        if !ReadableRecord(b, off) {
          RecordsBad(b, off, end, es);
          return None;
        }
        var e, next := EntryAt(b, off), off + RecordLen(b, off);
        RecordsStep(b, off, end);
        PrependMore(es, e, Records(b, next, end));
        es, off := es + [e], next;
      }
      RecordsEnd(b, off, end);
      r := Some((es, off));
    }

    method CheckLocalHeaders(c: Eocd, rep: Report)
      requires eocd == Some(c)
      modifies rep
      ensures rep.codes == old(rep.codes) + LocalReport(c, entries, ReadLocals(blob, entries))
    {
      if !c.zip64 {
        CheckLocals(c, entries, ReadLocals(blob, entries), rep);
      }
    }

    static method CheckLocals(c: Eocd, es: seq<Entry>, views: seq<Option<LocalView>>, rep: Report)
      requires |views| == |es| && !c.zip64
      modifies rep
      ensures rep.codes == old(rep.codes) + LocalReport(c, es, views)
    {
      var spans, complete := ScanLocals(es, views, rep);
      if complete {
        assert spans == LocalSpans(es, views);
        CheckSpans(SortSpans(spans), c.cdOff, rep);
      }
    }

    static method ScanLocals(es: seq<Entry>, views: seq<Option<LocalView>>, rep: Report)
      returns (spans: seq<Span>, complete: bool)
      requires |views| == |es|
      modifies rep
      ensures rep.codes == old(rep.codes) + LocalScan(es, views).0 && complete == LocalScan(es, views).1
      ensures complete ==> |spans| == |es| && forall j :: 0 <= j < |es| ==> spans[j] == LocalSpans(es, views)[j]
    {
      hide LocalScan, LocalProblems;
      spans := [];
      assert es[0..] == es && views[0..] == views;
      ScanEnd(es, views);
      for i := 0 to |es|
        invariant |spans| == i && forall j :: 0 <= j < i ==> spans[j] == LocalSpans(es, views)[j]
        invariant old(rep.codes) + LocalScan(es, views).0 == rep.codes + LocalScan(es[i..], views[i..]).0
        invariant LocalScan(es, views).1 == LocalScan(es[i..], views[i..]).1
      {
        var e, view := es[i], views[i];
        ScanStep(es, views, i);
        if view.None? {
          rep.Add(LocalMissing);
          return spans, false;
        }
        ghost var before := rep.codes;
        CheckEntry(e, view.value, rep);
        assert rep.codes + LocalScan(es[i + 1..], views[i + 1..]).0
            == before + (LocalProblems(e, view.value) + LocalScan(es[i + 1..], views[i + 1..]).0);
        spans := spans + [Span(e.localOff, view.value.end)];
      }
      complete := true;
    }

    static method CheckEntry(e: Entry, v: LocalView, rep: Report)
      modifies rep
      ensures rep.codes == old(rep.codes) + LocalProblems(e, v)
    {
      rep.AddWhen(v.name != e.name, LocalName);
      rep.AddWhen(v.methd != e.methd, LocalMethod);
      rep.AddWhen(!SizesAgree(e, v), LocalSize);
      Regroup(old(rep.codes), When(v.name != e.name, LocalName), When(v.methd != e.methd, LocalMethod),
              When(!SizesAgree(e, v), LocalSize));
    }

    static method CheckSpans(spans: seq<Span>, limit: int, rep: Report)
      modifies rep
      ensures rep.codes == old(rep.codes) + CursorReport(spans, 0, limit)
    {
      var cursor := 0;
      for i := 0 to |spans|
        invariant rep.codes == old(rep.codes)
        invariant CursorReport(spans, 0, limit) == CursorReport(spans[i..], cursor, limit)
      {
        if spans[i].begin != cursor {
          rep.Add(Unaccounted);
          return;
        }
        assert spans[i..][1..] == spans[i + 1..];
        cursor := spans[i].end;
      }
      if cursor != limit {
        rep.Add(Unaccounted);
      }
    }

    method CheckCounts(c: Eocd, rep: Report)
      modifies rep
      ensures rep.codes == old(rep.codes) + CountReport(c, entries, walkEnd)
    {
      rep.AddWhen(c.countThisDisk != c.countTotal, CountMismatch);
      rep.AddWhen(|entries| != c.countTotal, CountMismatch);
      rep.AddWhen(walkEnd.Some? && walkEnd.value != c.off, CdSlack);
      Regroup(old(rep.codes), When(c.countThisDisk != c.countTotal, CountMismatch),
              When(|entries| != c.countTotal, CountMismatch),
              When(walkEnd.Some? && walkEnd.value != c.off, CdSlack));
    }

    method CheckEnd(c: Eocd, rep: Report)
      modifies rep
      ensures rep.codes == old(rep.codes) + EndReport(c, entries, walkEnd)
    {
      rep.AddWhen(!Spanning(c), NotSpanningFile);
      rep.AddWhen(c.commentLen != 0, ArchiveComment);
      if c.zip64 {
        rep.Add(Code.Zip64);
      } else {
        CheckCounts(c, rep);
      }
      Regroup(old(rep.codes), When(!Spanning(c), NotSpanningFile), When(c.commentLen != 0, ArchiveComment),
              if c.zip64 then [Code.Zip64] else CountReport(c, entries, walkEnd));
    }

    /** The framing part of `check_container`. */
    method CheckFraming(rep: Report)
      requires !unreadable && (!oversized ==> eocd.Some?)
      modifies rep
      ensures rep.codes == old(rep.codes)
                + (if oversized then [PackageTooLarge]
                   else EndReport(eocd.value, entries, walkEnd)
                        + LocalReport(eocd.value, entries, ReadLocals(blob, entries)))
    {
      if oversized {
        rep.Add(PackageTooLarge);
        return;
      }
      hide EndReport, LocalReport, ReadLocals;
      ghost var was := rep.codes;
      CheckEnd(eocd.value, rep);
      CheckLocalHeaders(eocd.value, rep);
      assert rep.codes == was + (EndReport(eocd.value, entries, walkEnd)
                                 + LocalReport(eocd.value, entries, ReadLocals(blob, entries)));
    }
  }

  function Prepend(es: seq<Entry>, rest: Option<(seq<Entry>, int)>): Option<(seq<Entry>, int)> {
    if rest.None? then None else Some((es + rest.value.0, rest.value.1))
  }

  lemma RecordsStep(b: Blob, off: int, end: int)
    requires off + 46 <= end && HasSig(b, off, CD_SIG) && ReadableRecord(b, off)
    ensures Records(b, off, end) == Prepend([EntryAt(b, off)], Records(b, off + RecordLen(b, off), end))
  {
  }

  lemma RecordsBad(b: Blob, off: int, end: int, es: seq<Entry>)
    requires off + 46 <= end && HasSig(b, off, CD_SIG) && !ReadableRecord(b, off)
    ensures Prepend(es, Records(b, off, end)) == None
  {
  }

  lemma RecordsEnd(b: Blob, off: int, end: int)
    requires !(off + 46 <= end && HasSig(b, off, CD_SIG))
    ensures forall es :: Prepend(es, Records(b, off, end)) == Some((es, off))
  {
    forall es ensures Prepend(es, Records(b, off, end)) == Some((es, off)) {
      assert es + [] == es;
    }
  }

  lemma ScanEnd(es: seq<Entry>, views: seq<Option<LocalView>>)
    requires |views| == |es|
    ensures LocalScan(es[|es|..], views[|es|..]) == ([], true)
  {
  }

  lemma ScanStep(es: seq<Entry>, views: seq<Option<LocalView>>, i: nat)
    requires |views| == |es| && i < |es|
    ensures LocalScan(es[i..], views[i..]) ==
      if views[i].None? then ([LocalMissing], false)
      else (LocalProblems(es[i], views[i].value) + LocalScan(es[i + 1..], views[i + 1..]).0,
            LocalScan(es[i + 1..], views[i + 1..]).1)
  {
    assert es[i..][1..] == es[i + 1..] && views[i..][1..] == views[i + 1..];
  }

  lemma PrependNone(rest: Option<(seq<Entry>, int)>)
    ensures Prepend([], rest) == rest
  {
    if rest.Some? {
      assert [] + rest.value.0 == rest.value.0;
    }
  }

  lemma PrependMore(es: seq<Entry>, e: Entry, rest: Option<(seq<Entry>, int)>)
    ensures Prepend(es, Prepend([e], rest)) == Prepend(es + [e], rest)
  {
    if rest.Some? {
      assert es + ([e] + rest.value.0) == es + [e] + rest.value.0;
    }
  }

  /** The validator from the bytes to the verdict: it throws exactly where the file
      gives it nothing to read, and reports nothing exactly for framed files, of which
      every byte is accounted for once. */
  method Validate(file: Blob) returns (unreadable: bool, codes: seq<Code>)
    ensures unreadable <==> IsUnreadable(file)
    ensures |file| > MAX_PACKAGE_BYTES ==> codes == [PackageTooLarge]
    ensures !unreadable && |file| <= MAX_PACKAGE_BYTES ==> (codes == [] <==> IsFramed(file))
    ensures !unreadable && |file| <= MAX_PACKAGE_BYTES ==> forall code :: code in codes <==> IsFound(code, file)
    ensures forall ms :: Writable(ms) && file == Archive(ms) ==> !unreadable && (codes == [] <==> Unambiguous(ms))
    ensures !unreadable && codes == [] ==>
      && var c := ParseEocd(file).value;
      && var (es, last) := Records(file, c.cdOff, c.off).value;
      && Chain(file, es, c.cdOff, last)
      && forall p :: 0 <= p < |file| ==>
           InExactlyOne(LocalSpans(es, ReadLocals(file, es)), CentralSpans(file, es, c.cdOff, last), c.off, p)
  {
    hide EndReport, LocalReport, ReadLocals, Framed, Chain, LocalSpans, CentralSpans, InExactlyOne, Records, Holds, Tiles,
         NoDirectory, IsFramed, IsFound, Writable, Archive, Unambiguous, ParseEocd;
    WrittenFile(file);
    var container := new Container(file);
    if container.unreadable {
      return true, [];
    }
    var rep := new Report();
    container.CheckFraming(rep);
    if !container.oversized {
      var c := container.eocd.value;
      if c.zip64 {
        Zip64Exact(file, c);
      } else {
        FoundExact(file, c, container.entries, container.walkEnd.value);
        CleanExact(file, c, container.entries, container.walkEnd.value);
        if rep.codes == [] {
          CleanFile(file, c, container.entries, container.walkEnd.value);
        }
      }
    }
    return false, rep.codes;
  }

  lemma WrittenFile(file: Blob)
    ensures forall ms :: Writable(ms) && file == Archive(ms) ==> !IsUnreadable(file) && (IsFramed(file) <==> Unambiguous(ms))
    ensures forall ms :: Writable(ms) && file == Archive(ms) ==> |file| <= MAX_PACKAGE_BYTES
  {
    hide Archive, Unambiguous, IsFramed, IsUnreadable;
    forall ms | Writable(ms) && file == Archive(ms)
      ensures !IsUnreadable(file) && (IsFramed(file) <==> Unambiguous(ms)) && |file| <= MAX_PACKAGE_BYTES
    {
      WrittenIsFramed(ms);
    }
  }

  /** Where ZIP64 is announced it is reported, and nothing is said about the directory. */
  lemma Zip64Exact(file: Blob, c: Eocd)
    requires ParseEocd(file) == Some(c) && c.zip64
    ensures var codes := EndReport(c, [], None) + LocalReport(c, [], ReadLocals(file, []));
      codes != [] && !IsFramed(file) && forall code :: code in codes <==> IsFound(code, file)
  {
    hide EndReport, Holds, ParseEocd;
    var codes := EndReport(c, [], None) + LocalReport(c, [], ReadLocals(file, []));
    AnnouncedOnly(c);
    forall code ensures code in codes <==> Holds(code, c, [], [], 0) {
      ReportExact(code, c, [], [], 0);
    }
    assert Holds(Code.Zip64, c, [], [], 0) by {
      HoldsZip64(c);
    }
    assert Code.Zip64 in codes;
  }

  lemma AnnouncedOnly(c: Eocd)
    requires c.zip64
    ensures EndReport(c, [], None) == EndReport(c, [], Some(0))
  {
  }

  lemma HoldsZip64(c: Eocd)
    requires c.zip64
    ensures Holds(Code.Zip64, c, [], [], 0)
  {
  }

  lemma FoundExact(file: Blob, c: Eocd, es: seq<Entry>, last: int)
    requires ParseEocd(file) == Some(c) && Records(file, c.cdOff, c.off) == Some((es, last)) && !c.zip64
    ensures forall code ::
      code in EndReport(c, es, Some(last)) + LocalReport(c, es, ReadLocals(file, es)) <==> IsFound(code, file)
  {
    hide EndReport, LocalReport, Holds, ParseEocd, Records, ReadLocals;
    LocalsEnd(file, es);
    forall code
      ensures code in EndReport(c, es, Some(last)) + LocalReport(c, es, ReadLocals(file, es)) <==> IsFound(code, file)
    {
      ReportExact(code, c, es, ReadLocals(file, es), last);
    }
  }

  lemma CleanExact(file: Blob, c: Eocd, es: seq<Entry>, last: int)
    requires ParseEocd(file) == Some(c) && Records(file, c.cdOff, c.off) == Some((es, last))
    ensures EndReport(c, es, Some(last)) + LocalReport(c, es, ReadLocals(file, es)) == [] <==> IsFramed(file)
  {
    hide EndReport, LocalReport, Framed, Records, ParseEocd, ReadLocals;
    ParsedEnd(file, c);
    LocalsEnd(file, es);
    CleanIffFramed(c, es, ReadLocals(file, es), last);
    FramedNoZip64(c, es, ReadLocals(file, es), last);
  }

  lemma ParsedEnd(file: Blob, c: Eocd)
    requires ParseEocd(file) == Some(c)
    ensures c.cdEndsAtEocd.None? == c.zip64
    ensures c.atTail && c.cdEndsAtEocd.Some? && c.cdEndsAtEocd.value ==> c.cdOff >= 0
  {
  }

  lemma LocalsEnd(file: Blob, es: seq<Entry>)
    ensures var views := ReadLocals(file, es);
      forall i :: 0 <= i < |es| && views[i].Some? ==> es[i].localOff < views[i].value.end
  {
  }

  lemma FramedNoZip64(c: Eocd, es: seq<Entry>, views: seq<Option<LocalView>>, last: int)
    requires |views| == |es|
    ensures Framed(c, es, views, last) ==> !c.zip64
  {
  }

  lemma CleanFile(file: Blob, c: Eocd, es: seq<Entry>, last: int)
    requires ParseEocd(file) == Some(c) && Records(file, c.cdOff, c.off) == Some((es, last))
    requires EndReport(c, es, Some(last)) + LocalReport(c, es, ReadLocals(file, es)) == []
    ensures Framed(c, es, ReadLocals(file, es), last) && Chain(file, es, c.cdOff, last)
    ensures forall p :: 0 <= p < |file| ==>
      InExactlyOne(LocalSpans(es, ReadLocals(file, es)), CentralSpans(file, es, c.cdOff, last), c.off, p)
  {
    CleanIffFramed(c, es, ReadLocals(file, es), last);
    forall p | 0 <= p < |file|
      ensures InExactlyOne(LocalSpans(es, ReadLocals(file, es)), CentralSpans(file, es, c.cdOff, last), c.off, p)
    {
      EveryByteAccounted(file, c, es, last, p);
    }
  }
}
