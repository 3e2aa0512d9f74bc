/** A writer of ZIP archives, field by field in the order of the APPNOTE (sections 4.3.7,
    4.3.9, 4.3.12 and 4.3.16), with no reference to how the validator reads them; and
    what the validator makes of every file that it writes. */
module ZipWriter {
  import opened Prelude
  import opened ZipBytes
  import opened ZipFraming

  /** The data descriptor behind the data, with its optional word or without. */
  datatype Descriptor = NoDescriptor | Descriptor(word: bool)

  datatype Sizes = Sizes(crc: nat, comp: nat, uncomp: nat)

  /** One member. `announced` stands in the local header where a descriptor follows;
      `stamp` is what the validator does not read. */
  datatype Member = Member(
    name: Blob, flags: nat, methd: nat, sizes: Sizes, attr: nat, localExtra: Blob, extra: Blob, comment: Blob,
    data: Blob, descriptor: Descriptor, announced: Sizes, stamp: Stamp)

  datatype Stamp = Stamp(made: nat, needed: nat, time: nat, date: nat, internal: nat)

  /** Two bytes, the low one first. */
  function Word(n: nat): (r: Blob)
    ensures |r| == 2
  {
    [n % 256, n / 256 % 256]
  }

  /** Four bytes, the lowest first. */
  function Long(n: nat): (r: Blob)
    ensures |r| == 4
  {
    [n % 256, n / 256 % 256, n / 65536 % 256, n / 16777216 % 256]
  }

  /** The twenty bytes that both headers share. */
  function Shared(m: Member, sizes: Sizes): (r: Blob)
    ensures |r| == 20
  {
    Word(m.flags) + Word(m.methd) + Word(m.stamp.time) + Word(m.stamp.date)
    + Long(sizes.crc) + Long(sizes.comp) + Long(sizes.uncomp)
  }

  /** The sizes in the local header. */
  function Announced(m: Member): Sizes {
    if m.descriptor.NoDescriptor? then m.sizes else m.announced
  }

  function LocalHeader(m: Member): (r: Blob)
    ensures |r| == 30
  {
    [0x50, 0x4B, 3, 4] + Word(m.stamp.needed)
    + Shared(m, Announced(m))
    + Word(|m.name|) + Word(|m.localExtra|)
  }

  function Trailer(m: Member): Blob {
    match m.descriptor
    case NoDescriptor => []
    case Descriptor(word) =>
      (if word then [0x50, 0x4B, 7, 8] else []) + Long(m.sizes.crc) + Long(m.sizes.comp) + Long(m.sizes.uncomp)
  }

  function LocalRecord(m: Member): Blob {
    LocalHeader(m) + m.name + m.localExtra + m.data + Trailer(m)
  }

  function CentralHeader(m: Member, localOff: nat): (r: Blob)
    ensures |r| == 46
  {
    [0x50, 0x4B, 1, 2] + Word(m.stamp.made) + Word(m.stamp.needed) + Shared(m, m.sizes)
    + Word(|m.name|) + Word(|m.extra|) + Word(|m.comment|) + Word(0) + Word(m.stamp.internal)
    + Long(m.attr) + Long(localOff)
  }

  function CentralRecord(m: Member, localOff: nat): Blob {
    CentralHeader(m, localOff) + m.name + m.extra + m.comment
  }

  function Locals(ms: seq<Member>): Blob {
    if ms == [] then [] else LocalRecord(ms[0]) + Locals(ms[1..])
  }

  /** The central directory, for local records from `off` on. */
  function Directory(ms: seq<Member>, off: nat): Blob {
    if ms == [] then [] else CentralRecord(ms[0], off) + Directory(ms[1..], off + |LocalRecord(ms[0])|)
  }

  function EndRecord(count: nat, size: nat, off: nat): (r: Blob)
    ensures |r| == 22
  {
    [0x50, 0x4B, 5, 6] + Word(0) + Word(0) + Word(count) + Word(count) + Long(size) + Long(off) + Word(0)
  }

  function Archive(ms: seq<Member>): Blob {
    Locals(ms) + Directory(ms, 0) + EndRecord(|ms|, |Directory(ms, 0)|, |Locals(ms)|)
  }

  /** The fields fit their widths, and bit 3 of the flags announces the descriptor. */
  predicate Fits(m: Member) {
    && m.flags < 0x10000 && m.methd < 0x10000 && m.attr < 0x100000000
    && m.sizes.crc < 0x100000000 && m.sizes.comp < 0x100000000 && m.sizes.uncomp < 0x100000000
    && m.announced.comp < 0x100000000 && m.announced.uncomp < 0x100000000
    && |m.name| < 0x10000 && |m.localExtra| < 0x10000 && |m.extra| < 0x10000 && |m.comment| < 0x10000
    && |m.data| == m.sizes.comp
    && (m.flags / 8 % 2 == 1 <==> m.descriptor.Descriptor?)
  }

  /** What can be written without the ZIP64 extension, as large as the validator reads. */
  predicate Writable(ms: seq<Member>) {
    && (forall i :: 0 <= i < |ms| ==> Fits(ms[i]))
    && |ms| < 0xFFFF && |Archive(ms)| <= 2147483648
  }

  // --------------------------------------------- where the writing is ambiguous

  /** A descriptor without its word whose checksum spells the word. */
  predicate SpellsWord(m: Member) {
    m.descriptor == Descriptor(false) && m.sizes.crc == 0x08074B50
  }

  /** Twenty bytes before the end record stands what would be a ZIP64 locator there. */
  predicate SpellsLocator(ms: seq<Member>) {
    ms != []
    && var d := Directory(ms, 0); |d| >= 20 && d[|d| - 20..|d| - 16] == [0x50, 0x4B, 6, 7]
  }

  predicate Unambiguous(ms: seq<Member>) {
    !SpellsLocator(ms) && forall i :: 0 <= i < |ms| ==> !SpellsWord(ms[i])
  }

  // ---------------------------------------------------------- finding the pieces

  predicate At(b: Blob, off: nat, s: Blob) {
    off + |s| <= |b| && b[off..off + |s|] == s
  }

  lemma Parts(b: Blob, off: nat, x: Blob, y: Blob)
    requires At(b, off, x + y)
    ensures At(b, off, x) && At(b, off + |x|, y)
  {
    var s := b[off..off + |x + y|];
    assert s == x + y;
    assert b[off..off + |x|] == s[..|x|] == x;
    assert b[off + |x|..off + |x| + |y|] == s[|x|..] == y;
  }

  lemma ReadsWord(b: Blob, off: nat, n: nat)
    requires At(b, off, Word(n)) && n < 0x10000
    ensures off + 2 <= |b| && Le(b, off, 2) == n
  {
    var s := b[off..off + 2];
    assert b[off] == s[0] && b[off + 1] == s[1];
    assert Le(b, off, 2) == b[off] + 256 * (b[off + 1] + 256 * Le(b, off + 2, 0));
  }

  lemma ReadsLong(b: Blob, off: nat, n: nat)
    requires At(b, off, Long(n)) && n < 0x100000000
    ensures off + 4 <= |b| && Le(b, off, 4) == n
  {
    var s := b[off..off + 4];
    assert b[off] == s[0] && b[off + 1] == s[1] && b[off + 2] == s[2] && b[off + 3] == s[3];
    FourDigits(n);
    LeFour(b, off);
  }

  lemma LeFour(b: Blob, off: nat)
    requires off + 4 <= |b|
    ensures Le(b, off, 4) == (b[off] as int) + 256 * ((b[off + 1] as int) + 256 * ((b[off + 2] as int) + 256 * (b[off + 3] as int)))
  {
    assert Le(b, off + 3, 1) == b[off + 3] + 256 * Le(b, off + 4, 0);
    assert Le(b, off + 2, 2) == b[off + 2] + 256 * Le(b, off + 3, 1);
    assert Le(b, off + 1, 3) == b[off + 1] + 256 * Le(b, off + 2, 2);
  }

  lemma FourDigits(n: nat)
    requires n < 0x100000000
    ensures n == n % 256 + 256 * (n / 256 % 256 + 256 * (n / 65536 % 256 + 256 * (n / 16777216 % 256)))
  {
    assert n / 65536 == n / 256 / 256;
    assert n / 16777216 == n / 65536 / 256;
  }

  lemma SharedParts(b: Blob, off: nat, m: Member, sizes: Sizes)
    requires At(b, off, Shared(m, sizes))
    ensures At(b, off, Word(m.flags)) && At(b, off + 2, Word(m.methd))
    ensures At(b, off + 12, Long(sizes.comp)) && At(b, off + 16, Long(sizes.uncomp))
  {
    hide At, Word, Long;
    var a := Word(m.flags);
    var c := a + Word(m.methd);
    var d := c + Word(m.stamp.time) + Word(m.stamp.date) + Long(sizes.crc);
    var e := d + Long(sizes.comp);
    Parts(b, off, e, Long(sizes.uncomp));
    Parts(b, off, d, Long(sizes.comp));
    Parts(b, off, c + Word(m.stamp.time) + Word(m.stamp.date), Long(sizes.crc));
    Parts(b, off, c + Word(m.stamp.time), Word(m.stamp.date));
    Parts(b, off, c, Word(m.stamp.time));
    Parts(b, off, a, Word(m.methd));
  }

  // -------------------------------------------------------------- local records

  lemma LocalHeaderParts(b: Blob, off: nat, m: Member)
    requires At(b, off, LocalHeader(m))
    ensures At(b, off, [0x50, 0x4B, 3, 4]) && At(b, off + 6, Shared(m, Announced(m)))
    ensures At(b, off + 26, Word(|m.name|)) && At(b, off + 28, Word(|m.localExtra|))
  {
    hide At, Word, Shared;
    var a: Blob := [0x50, 0x4B, 3, 4];
    var c := a + Word(m.stamp.needed);
    var d := c + Shared(m, Announced(m));
    Parts(b, off, d + Word(|m.name|), Word(|m.localExtra|));
    Parts(b, off, d, Word(|m.name|));
    Parts(b, off, c, Shared(m, Announced(m)));
    Parts(b, off, a, Word(m.stamp.needed));
  }

  lemma LocalRecordParts(b: Blob, off: nat, m: Member)
    requires At(b, off, LocalRecord(m))
    ensures At(b, off, LocalHeader(m)) && At(b, off + 30, m.name)
    ensures At(b, off + 30 + |m.name| + |m.localExtra| + |m.data|, Trailer(m))
  {
    hide At, LocalHeader, Trailer;
    var h := LocalHeader(m);
    Parts(b, off, h + m.name + m.localExtra + m.data, Trailer(m));
    Parts(b, off, h + m.name + m.localExtra, m.data);
    Parts(b, off, h + m.name, m.localExtra);
    Parts(b, off, h, m.name);
  }

  /** The descriptor word is found where it was written, and besides where the checksum
      spells it. */
  lemma TrailerRead(b: Blob, off: nat, m: Member)
    requires Fits(m) && At(b, off, Trailer(m)) && m.descriptor.Descriptor?
    ensures HasSig(b, off, DESCRIPTOR_SIG) <==> m.descriptor.word || SpellsWord(m)
    ensures |Trailer(m)| == if m.descriptor.word then 16 else 12
  {
    var t := Trailer(m);
    assert b[off..off + 4] == b[off..off + |t|][..4] == t[..4];
    if !m.descriptor.word {
      assert t == Long(m.sizes.crc) + Long(m.sizes.comp) + Long(m.sizes.uncomp);
      assert t[..4] == Long(m.sizes.crc);
      SpelledNumber(m.sizes.crc);
    }
  }

  lemma SpelledNumber(n: nat)
    requires n < 0x100000000
    ensures Long(n) == [0x50, 0x4B, 7, 8] <==> n == 0x08074B50
  {
    FourDigits(n);
  }

  /** The local header of a written record is read back field by field. */
  lemma LocalFieldsRead(b: Blob, off: nat, m: Member)
    requires Fits(m) && At(b, off, LocalHeader(m))
    ensures off + 30 <= |b| && HasSig(b, off, LOCAL_SIG)
    ensures Le(b, off + 26, 2) == |m.name| && Le(b, off + 28, 2) == |m.localExtra|
    ensures Le(b, off + 6, 2) == m.flags && Le(b, off + 8, 2) == m.methd
    ensures Le(b, off + 18, 4) == Announced(m).comp && Le(b, off + 22, 4) == Announced(m).uncomp
  {
    hide Word, Long, Shared, LocalHeader, Le;
    LocalHeaderParts(b, off, m);
    SharedParts(b, off + 6, m, Announced(m));
    ReadsWord(b, off + 26, |m.name|);
    ReadsWord(b, off + 28, |m.localExtra|);
    ReadsWord(b, off + 6, m.flags);
    ReadsWord(b, off + 8, m.methd);
    ReadsLong(b, off + 18, Announced(m).comp);
    ReadsLong(b, off + 22, Announced(m).uncomp);
  }

  /** `ReadLocal` returns what was written; the end of the record is one past it, unless
      the checksum of a descriptor without its word spells the word. */
  lemma LocalRead(b: Blob, off: nat, m: Member, e: Entry)
    requires Fits(m) && At(b, off, LocalRecord(m)) && e.localOff == off && e.compSize == m.sizes.comp
    ensures ReadLocal(b, e) == Some(LocalView(
      m.name, m.methd, m.descriptor.Descriptor?, Announced(m).comp, Announced(m).uncomp,
      off + |LocalRecord(m)| + if SpellsWord(m) then 4 else 0))
  {
    hide LocalHeader, Trailer, Announced, Le, HasSig;
    LocalRecordParts(b, off, m);
    LocalFieldsRead(b, off, m);
    assert Slice(b, off + 30, off + 30 + |m.name|) == m.name;
    if m.descriptor.Descriptor? {
      TrailerRead(b, off + 30 + |m.name| + |m.localExtra| + |m.data|, m);
    } else {
      NoTrailer(m);
    }
  }

  lemma NoTrailer(m: Member)
    requires m.descriptor.NoDescriptor?
    ensures Trailer(m) == []
  {
  }

  // ------------------------------------------------------------ central records

  lemma CentralHeaderParts(b: Blob, off: nat, m: Member, localOff: nat)
    requires At(b, off, CentralHeader(m, localOff))
    ensures At(b, off, [0x50, 0x4B, 1, 2]) && At(b, off + 8, Shared(m, m.sizes))
    ensures At(b, off + 28, Word(|m.name|)) && At(b, off + 30, Word(|m.extra|)) && At(b, off + 32, Word(|m.comment|))
    ensures At(b, off + 38, Long(m.attr)) && At(b, off + 42, Long(localOff))
  {
    hide At, Word, Long, Shared;
    var a: Blob := [0x50, 0x4B, 1, 2];
    var c := a + Word(m.stamp.made) + Word(m.stamp.needed);
    var d := c + Shared(m, m.sizes);
    var e := d + Word(|m.name|) + Word(|m.extra|);
    var f := e + Word(|m.comment|) + Word(0) + Word(m.stamp.internal);
    Parts(b, off, f + Long(m.attr), Long(localOff));
    Parts(b, off, f, Long(m.attr));
    Parts(b, off, e + Word(|m.comment|) + Word(0), Word(m.stamp.internal));
    Parts(b, off, e + Word(|m.comment|), Word(0));
    Parts(b, off, e, Word(|m.comment|));
    Parts(b, off, d + Word(|m.name|), Word(|m.extra|));
    Parts(b, off, d, Word(|m.name|));
    Parts(b, off, c, Shared(m, m.sizes));
    Parts(b, off, a + Word(m.stamp.made), Word(m.stamp.needed));
    Parts(b, off, a, Word(m.stamp.made));
  }

  /** The entry that a written record stands for. */
  function EntryOf(m: Member, off: nat, localOff: nat): Entry {
    Entry(off, m.name, m.flags, m.methd, m.sizes.comp, m.sizes.uncomp, m.attr, localOff)
  }

  lemma CentralFieldsRead(b: Blob, off: nat, m: Member, localOff: nat)
    requires Fits(m) && localOff < 0x100000000 && At(b, off, CentralHeader(m, localOff))
    ensures off + 46 <= |b| && HasSig(b, off, CD_SIG)
    ensures Le(b, off + 8, 2) == m.flags && Le(b, off + 10, 2) == m.methd
    ensures Le(b, off + 20, 4) == m.sizes.comp && Le(b, off + 24, 4) == m.sizes.uncomp
    ensures Le(b, off + 28, 2) == |m.name| && Le(b, off + 30, 2) == |m.extra| && Le(b, off + 32, 2) == |m.comment|
    ensures Le(b, off + 38, 4) == m.attr && Le(b, off + 42, 4) == localOff
  {
    hide Word, Long, Shared, CentralHeader, Le;
    CentralHeaderParts(b, off, m, localOff);
    SharedParts(b, off + 8, m, m.sizes);
    ReadsWord(b, off + 8, m.flags);
    ReadsWord(b, off + 10, m.methd);
    ReadsLong(b, off + 20, m.sizes.comp);
    ReadsLong(b, off + 24, m.sizes.uncomp);
    ReadsWord(b, off + 28, |m.name|);
    ReadsWord(b, off + 30, |m.extra|);
    ReadsWord(b, off + 32, |m.comment|);
    ReadsLong(b, off + 38, m.attr);
    ReadsLong(b, off + 42, localOff);
  }

  /** A written central record is read back as its entry, in its whole length. */
  lemma CentralRead(b: Blob, off: nat, m: Member, localOff: nat)
    requires Fits(m) && localOff < 0x100000000 && At(b, off, CentralRecord(m, localOff))
    ensures off + 46 <= |b| && HasSig(b, off, CD_SIG) && ReadableRecord(b, off)
    ensures EntryAt(b, off) == EntryOf(m, off, localOff) && RecordLen(b, off) == |CentralRecord(m, localOff)|
  {
    hide CentralHeader, Le, HasSig;
    var h := CentralHeader(m, localOff);
    Parts(b, off, h + m.name + m.extra, m.comment);
    Parts(b, off, h + m.name, m.extra);
    Parts(b, off, h, m.name);
    CentralFieldsRead(b, off, m, localOff);
    assert Slice(b, off + 46, off + 46 + |m.name|) == m.name;
  }

  /** The entries of a written directory at `off`, for local records from `localOff` on. */
  function EntriesOf(ms: seq<Member>, off: nat, localOff: nat): (r: seq<Entry>)
    ensures |r| == |ms|
  {
    if ms == [] then []
    else
      [EntryOf(ms[0], off, localOff)]
      + EntriesOf(ms[1..], off + |CentralRecord(ms[0], localOff)|, localOff + |LocalRecord(ms[0])|)
  }

  /** `Records` returns the entries that were written, and ends where they end. */
  lemma {:induction false} DirectoryRead(b: Blob, ms: seq<Member>, off: nat, localOff: nat)
    requires forall i :: 0 <= i < |ms| ==> Fits(ms[i])
    requires At(b, off, Directory(ms, localOff)) && localOff + |Locals(ms)| < 0x100000000
    ensures var end := off + |Directory(ms, localOff)|;
      Records(b, off, end) == Some((EntriesOf(ms, off, localOff), end))
  {
    hide LocalRecord, CentralRecord, EntryAt, RecordLen, ReadableRecord, HasSig, EntryOf;
    if ms != [] {
      var m, rest := ms[0], ms[1..];
      var next := localOff + |LocalRecord(m)|;
      Parts(b, off, CentralRecord(m, localOff), Directory(rest, next));
      CentralRead(b, off, m, localOff);
      DirectoryRead(b, rest, off + |CentralRecord(m, localOff)|, next);
    }
  }

  // ------------------------------------------------------------- the end record

  lemma EndRecordParts(b: Blob, off: nat, count: nat, size: nat, cd: nat)
    requires At(b, off, EndRecord(count, size, cd))
    ensures At(b, off, [0x50, 0x4B, 5, 6]) && At(b, off + 8, Word(count)) && At(b, off + 10, Word(count))
    ensures At(b, off + 12, Long(size)) && At(b, off + 16, Long(cd)) && At(b, off + 20, Word(0))
  {
    hide At, Word, Long;
    var a: Blob := [0x50, 0x4B, 5, 6];
    var c := a + Word(0) + Word(0);
    var d := c + Word(count);
    var e := d + Word(count);
    var f := e + Long(size);
    Parts(b, off, f + Long(cd), Word(0));
    Parts(b, off, f, Long(cd));
    Parts(b, off, e, Long(size));
    Parts(b, off, d, Word(count));
    Parts(b, off, c, Word(count));
    Parts(b, off, a + Word(0), Word(0));
    Parts(b, off, a, Word(0));
  }

  lemma EndFieldsRead(b: Blob, off: nat, count: nat, size: nat, cd: nat)
    requires count < 0x10000 && size < 0x100000000 && cd < 0x100000000 && At(b, off, EndRecord(count, size, cd))
    ensures off + 22 <= |b| && HasSig(b, off, EOCD_SIG)
    ensures Le(b, off + 8, 2) == count && Le(b, off + 10, 2) == count && Le(b, off + 20, 2) == 0
    ensures Le(b, off + 12, 4) == size && Le(b, off + 16, 4) == cd
  {
    hide Word, Long, EndRecord, Le;
    EndRecordParts(b, off, count, size, cd);
    ReadsWord(b, off + 8, count);
    ReadsWord(b, off + 10, count);
    ReadsWord(b, off + 20, 0);
    ReadsLong(b, off + 12, size);
    ReadsLong(b, off + 16, cd);
  }

  /** The three parts of an archive, and what stands before its end record. */
  lemma ArchiveParts(ms: seq<Member>)
    ensures var b, l, d := Archive(ms), Locals(ms), Directory(ms, 0);
      && At(b, 0, l) && At(b, |l|, d) && At(b, |l| + |d|, EndRecord(|ms|, |d|, |l|))
      && |b| == |l| + |d| + 22
      && (|d| >= 20 ==> Slice(b, |l| + |d| - 20, |l| + |d| - 16) == d[|d| - 20..|d| - 16])
  {
    hide EndRecord, Locals, Directory;
    var b, l, d := Archive(ms), Locals(ms), Directory(ms, 0);
    var e := EndRecord(|ms|, |d|, |l|);
    assert b[0..|b|] == l + d + e;
    Parts(b, 0, l + d, e);
    Parts(b, 0, l, d);
  }

  lemma DirectoryBegins(ms: seq<Member>, localOff: nat)
    requires ms != []
    ensures |Directory(ms, localOff)| >= 46 && |Locals(ms)| >= 30
    ensures Directory(ms, localOff)[..4] == CD_SIG
  {
    hide Word, Long, Shared;
    var r := CentralRecord(ms[0], localOff);
    assert r[..4] == CD_SIG;
  }

  /** `ParseEocd` returns what was written. */
  lemma EndRead(ms: seq<Member>)
    requires Writable(ms)
    ensures var l, d, zip64 := |Locals(ms)|, |Directory(ms, 0)|, SpellsLocator(ms);
      ParseEocd(Archive(ms)) == Some(Eocd(l + d, true, 0, zip64, |ms|, |ms|, d, l, if zip64 then None else Some(true)))
  {
    hide Archive, Locals, Directory, EndRecord, Le, ParseEocd, At, HasSig, SpellsLocator, Fits;
    var b, l, d := Archive(ms), Locals(ms), Directory(ms, 0);
    ArchiveParts(ms);
    EndFieldsRead(b, |l| + |d|, |ms|, |d|, |l|);
    DirectoryFound(b, ms, |l|);
    LocatorFound(b, ms);
    EndView(b, |ms|, |d|, |l|);
  }

  lemma DirectoryFound(b: Blob, ms: seq<Member>, off: nat)
    requires At(b, off, Directory(ms, 0))
    ensures |Directory(ms, 0)| == 0 || HasSig(b, off, CD_SIG)
  {
    hide Directory;
    if ms == [] {
      NothingWritten();
    } else {
      DirectoryBegins(ms, 0);
      assert Slice(b, off, off + 4) == b[off..off + |Directory(ms, 0)|][..4];
    }
  }

  lemma LocatorFound(b: Blob, ms: seq<Member>)
    requires var l, d := Locals(ms), Directory(ms, 0);
      |d| >= 20 ==> Slice(b, |l| + |d| - 20, |l| + |d| - 16) == d[|d| - 20..|d| - 16]
    ensures var e := |Locals(ms)| + |Directory(ms, 0)|;
      SpellsLocator(ms) <==> e >= 20 && HasSig(b, e - 20, ZIP64_SIG)
  {
    hide Directory, Locals;
    if ms == [] {
      NothingWritten();
    } else {
      DirectoryBegins(ms, 0);
    }
  }

  lemma EndView(b: Blob, count: nat, size: nat, cd: nat)
    requires |b| == cd + size + 22 && HasSig(b, cd + size, EOCD_SIG)
    requires count < 0xFFFF && size < 0xFFFFFFFF && cd < 0xFFFFFFFF
    requires var e := cd + size;
      && Le(b, e + 8, 2) == count && Le(b, e + 10, 2) == count && Le(b, e + 20, 2) == 0
      && Le(b, e + 12, 4) == size && Le(b, e + 16, 4) == cd
    requires size == 0 || HasSig(b, cd, CD_SIG)
    ensures var zip64 := cd + size >= 20 && HasSig(b, cd + size - 20, ZIP64_SIG);
      ParseEocd(b) == Some(Eocd(cd + size, true, 0, zip64, count, count, size, cd, if zip64 then None else Some(true)))
  {
    hide HasSig, Le;
  }

  lemma NothingWritten()
    ensures Locals([]) == [] && Directory([], 0) == []
  {
  }

  // ------------------------------------------------------ the file as a whole

  /** The first header and the first span of a list of entries. */
  lemma OneMoreSpan(b: Blob, e: Entry, es: seq<Entry>)
    ensures ReadLocals(b, [e] + es) == [ReadLocal(b, e)] + ReadLocals(b, es)
    ensures LocalSpans([e] + es, ReadLocals(b, [e] + es)) ==
      [Span(e.localOff, if ReadLocal(b, e).Some? then ReadLocal(b, e).value.end else e.localOff)]
      + LocalSpans(es, ReadLocals(b, es))
  {
    hide ReadLocal;
  }

  lemma AgreeOneMore(e: Entry, v: LocalView, es: seq<Entry>, views: seq<Option<LocalView>>)
    requires HeadersAgree(es, views)
    requires v.name == e.name && v.methd == e.methd && SizesAgree(e, v)
    ensures HeadersAgree([e] + es, [Some(v)] + views)
  {
  }

  /** The written local records agree with the written directory, lie in its order, and
      follow one another to the end exactly if no checksum spells the word. */
  lemma {:induction false} LocalsRead(b: Blob, ms: seq<Member>, off: nat, localOff: nat)
    requires forall i :: 0 <= i < |ms| ==> Fits(ms[i])
    requires At(b, localOff, Locals(ms))
    ensures var es := EntriesOf(ms, off, localOff);
      var s := LocalSpans(es, ReadLocals(b, es));
      && HeadersAgree(es, ReadLocals(b, es)) && AllNonEmpty(s) && InOrder(s)
      && (forall i :: 0 <= i < |s| ==> localOff <= s[i].begin)
      && (s != [] ==> s[0].begin == localOff)
      && (EndToEnd(s, localOff, localOff + |Locals(ms)|) <==> forall i :: 0 <= i < |ms| ==> !SpellsWord(ms[i]))
  {
    hide LocalRecord, CentralRecord, ReadLocal, At, Fits, SpellsWord, HeadersAgree, ReadLocals, LocalSpans,
         InOrder, AllNonEmpty, EndToEnd, Directory;
    if ms == [] {
      NoLocals(b);
    } else {
      var m, rest := ms[0], ms[1..];
      var next := localOff + |LocalRecord(m)|;
      var e := EntryOf(m, off, localOff);
      var es := EntriesOf(rest, off + |CentralRecord(m, localOff)|, next);
      Parts(b, localOff, LocalRecord(m), Locals(rest));
      LocalRead(b, localOff, m, e);
      LocalRecordLong(m);
      LocalsRead(b, rest, off + |CentralRecord(m, localOff)|, next);
      OneMoreSpan(b, e, es);
      MemberAgrees(m, off, localOff, ReadLocal(b, e).value);
      AgreeOneMore(e, ReadLocal(b, e).value, es, ReadLocals(b, es));
      var s := LocalSpans(es, ReadLocals(b, es));
      SpansOneMore(Span(localOff, ReadLocal(b, e).value.end), s, next, next + |Locals(rest)|);
      NoneSpelled(ms);
    }
  }

  lemma NoneSpelled(ms: seq<Member>)
    requires ms != []
    ensures (forall i :: 0 <= i < |ms| ==> !SpellsWord(ms[i]))
      <==> !SpellsWord(ms[0]) && forall i :: 0 <= i < |ms[1..]| ==> !SpellsWord(ms[1..][i])
  {
    hide SpellsWord;
    assert forall i :: 0 < i < |ms| ==> ms[i] == ms[1..][i - 1];
  }

  /** Spans in order from `next` on, with one in front that ends there or behind it. */
  lemma SpansOneMore(first: Span, s: seq<Span>, next: nat, limit: nat)
    requires AllNonEmpty(s) && InOrder(s) && (forall i :: 0 <= i < |s| ==> next <= s[i].begin)
    requires s != [] ==> s[0].begin == next
    requires s == [] ==> limit == next
    requires first.begin < next <= first.end
    ensures AllNonEmpty([first] + s) && InOrder([first] + s)
    ensures forall i :: 0 <= i < |[first] + s| ==> first.begin <= ([first] + s)[i].begin
    ensures EndToEnd([first] + s, first.begin, limit) <==> first.end == next && EndToEnd(s, next, limit)
  {
    assert ([first] + s)[1..] == s;
  }

  lemma MemberAgrees(m: Member, off: nat, localOff: nat, v: LocalView)
    requires v.name == m.name && v.methd == m.methd && v.descriptor == m.descriptor.Descriptor?
    requires v.compSize == Announced(m).comp && v.uncompSize == Announced(m).uncomp
    ensures var e := EntryOf(m, off, localOff); v.name == e.name && v.methd == e.methd && SizesAgree(e, v)
  {
  }

  lemma NoLocals(b: Blob)
    ensures ReadLocals(b, []) == [] && LocalSpans([], ReadLocals(b, [])) == [] && HeadersAgree([], ReadLocals(b, []))
    ensures AllNonEmpty([]) && InOrder([]) && forall at: nat :: EndToEnd([], at, at)
  {
  }

  lemma LocalRecordLong(m: Member)
    ensures |LocalRecord(m)| >= 30
  {
  }

  /** What the validator reads of a written archive. */
  lemma ArchiveRead(ms: seq<Member>)
    requires Writable(ms)
    ensures var b, l, d := Archive(ms), |Locals(ms)|, |Directory(ms, 0)|;
      && Records(b, l, l + d) == Some((EntriesOf(ms, l, 0), l + d))
      && var es := EntriesOf(ms, l, 0);
      && HeadersAgree(es, ReadLocals(b, es))
      && (Tiles(LocalSpans(es, ReadLocals(b, es)), 0, l) <==> forall i :: 0 <= i < |ms| ==> !SpellsWord(ms[i]))
  {
    hide Archive, Locals, Directory, LocalSpans, ReadLocals, HeadersAgree, EntriesOf, Fits, Records, Tiles,
         EndToEnd, At, SpellsWord, AllNonEmpty, InOrder, Slice;
    var b, l, d := Archive(ms), Locals(ms), Directory(ms, 0);
    ArchiveParts(ms);
    DirectoryRead(b, ms, |l|, 0);
    var es := EntriesOf(ms, |l|, 0);
    LocalsRead(b, ms, |l|, 0);
    SortedTiles(LocalSpans(es, ReadLocals(b, es)), |l|);
  }

  /** Every archive that can be written is readable, and it is framed exactly if nothing
      in it spells a descriptor word or a ZIP64 locator where it would be read as one. */
  lemma WrittenIsFramed(ms: seq<Member>)
    requires Writable(ms)
    ensures !IsUnreadable(Archive(ms))
    ensures IsFramed(Archive(ms)) <==> Unambiguous(ms)
  {
    hide Archive, Locals, Directory, LocalSpans, ReadLocals, HeadersAgree, EntriesOf, Fits, ParseEocd, Records, Tiles,
         SpellsLocator, SpellsWord, Slice;
    EndRead(ms);
    ArchiveRead(ms);
    if ms == [] {
      NothingWritten();
    }
  }

  lemma SortedTiles(s: seq<Span>, limit: nat)
    requires AllNonEmpty(s) && InOrder(s)
    ensures EndToEnd(s, 0, limit) <==> Tiles(s, 0, limit)
  {
    hide EndToEnd, Tiles, AllNonEmpty, InOrder;
    if EndToEnd(s, 0, limit) {
      EndToEndTiles(s, 0, limit);
    }
    if Tiles(s, 0, limit) {
      TilesEndToEnd(s, 0, limit);
    }
  }

  // ------------------------------------------------- two files that are misread

  const PLAIN := Member([], 0, 0, Sizes(0, 0, 0), 0, [], [], [], [], NoDescriptor, Sizes(0, 0, 0), Stamp(0, 0, 0, 0, 0))

  lemma OneMember(m: Member)
    ensures Locals([m]) == LocalRecord(m) && Directory([m], 0) == CentralRecord(m, 0)
    ensures |Archive([m])| == |LocalRecord(m)| + |CentralRecord(m, 0)| + 22
  {
    hide LocalRecord, CentralRecord;
    NothingWritten();
    assert [m][1..] == [];
    assert Directory([], |LocalRecord(m)|) == [];
  }

  /** An empty member whose descriptor has no word, and a checksum that spells it: the
      validator takes the record to be four bytes longer than it is. */
  lemma SpelledWordExample()
    ensures var m := PLAIN.(flags := 8, sizes := Sizes(0x08074B50, 0, 0), descriptor := Descriptor(false));
      Writable([m]) && !IsFramed(Archive([m]))
  {
    hide IsFramed, Archive;
    var m := PLAIN.(flags := 8, sizes := Sizes(0x08074B50, 0, 0), descriptor := Descriptor(false));
    OneMember(m);
    assert SpellsWord([m][0]);
    WrittenIsFramed([m]);
  }

  /** A member whose comment looks like a ZIP64 locator. */
  lemma SpelledLocatorExample()
    ensures var m := PLAIN.(comment := [0x50, 0x4B, 6, 7] + Long(0) + Long(0) + Long(0) + Long(0));
      Writable([m]) && !IsFramed(Archive([m]))
  {
    hide IsFramed, Archive, Long;
    var m := PLAIN.(comment := [0x50, 0x4B, 6, 7] + Long(0) + Long(0) + Long(0) + Long(0));
    OneMember(m);
    var d := Directory([m], 0);
    assert |m.comment| == 20 && d[|d| - 20..] == m.comment;
    assert d[|d| - 20..|d| - 16] == m.comment[..4];
    WrittenIsFramed([m]);
  }
}
