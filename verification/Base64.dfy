/** Base64 with padding (section 4 of RFC 4648). The words that the source
    shifts are written as the numbers they hold. */
module Base64 {
  import opened Prelude

  type Sextet = v: int | 0 <= v < 64

  /** The alphabet. */
  function Symbol(v: Sextet): char {
    if v < 26 then 'A' + v as char
    else if v < 52 then 'a' + (v - 26) as char
    else if v < 62 then '0' + (v - 52) as char
    else if v == 62 then '+' else '/'
  }

  /** `b64_value`: -1 for a character outside the alphabet. */
  function SymbolValue(c: char): (r: int)
    ensures -1 <= r < 64
  {
    if 'A' <= c <= 'Z' then c as int - 'A' as int
    else if 'a' <= c <= 'z' then c as int - 'a' as int + 26
    else if '0' <= c <= '9' then c as int - '0' as int + 52
    else if c == '+' then 62 else if c == '/' then 63 else -1
  }

  lemma SymbolsRead(v: Sextet)
    ensures SymbolValue(Symbol(v)) == v && Symbol(v) != '='
  {
  }

  lemma ReadSymbols(c: char)
    requires SymbolValue(c) >= 0
    ensures Symbol(SymbolValue(c)) == c && c != '='
  {
  }

  function Word(x: int, y: int, z: int): int {
    x * 65536 + y * 256 + z
  }

  function Digit(w: int, k: int): Sextet
    requires 0 <= k <= 3 && 0 <= w < 0x1000000
  {
    if k == 0 then w / 262144 else if k == 1 then w / 4096 % 64 else if k == 2 then w / 64 % 64 else w % 64
  }

  /** The first `n` sextets of a word and padding up to four characters. */
  function Group(w: int, n: nat): (r: string)
    requires 0 <= w < 0x1000000 && 2 <= n <= 4
    ensures |r| == 4
  {
    [Symbol(Digit(w, 0)), Symbol(Digit(w, 1)), if n >= 3 then Symbol(Digit(w, 2)) else '=',
     if n == 4 then Symbol(Digit(w, 3)) else '=']
  }

  function Encode(b: seq<Byte>): (r: string) {
    if |b| == 0 then ""
    else if |b| == 1 then Group(Word(b[0], 0, 0), 2)
    else if |b| == 2 then Group(Word(b[0], b[1], 0), 3)
    else Group(Word(b[0], b[1], b[2]), 4) + Encode(b[3..])
  }

  // ------------------------------------------------- the encoding, digit by digit

  /** The 64 characters of the alphabet, in order. */
  function Alphabet(v: Sextet): char {
    if v < 16 then "ABCDEFGHIJKLMNOP"[v]
    else if v < 32 then "QRSTUVWXYZabcdef"[v - 16]
    else if v < 48 then "ghijklmnopqrstuv"[v - 32]
    else "wxyz0123456789+/"[v - 48]
  }

  lemma AlphabetExact(v: Sextet)
    ensures Symbol(v) == Alphabet(v)
  {
    if v < 16 {
      assert Symbol(v) == "ABCDEFGHIJKLMNOP"[v];
    } else if v < 32 {
      assert Symbol(v) == "QRSTUVWXYZabcdef"[v - 16];
    } else if v < 48 {
      assert Symbol(v) == "ghijklmnopqrstuv"[v - 32];
    } else {
      assert Symbol(v) == "wxyz0123456789+/"[v - 48];
    }
  }

  /** Three bytes are four digits, the high bits first; where one or two bytes are missing
      the digits that are left over are padding. */
  lemma EncodesTriple(x: Byte, y: Byte, z: Byte, rest: seq<Byte>)
    ensures Encode([]) == ""
    ensures Encode([x]) == [Alphabet(x / 4), Alphabet(x % 4 * 16), '=', '=']
    ensures Encode([x, y]) == [Alphabet(x / 4), Alphabet(x % 4 * 16 + y / 16), Alphabet(y % 16 * 4), '=']
    ensures Encode([x, y, z] + rest) ==
      [Alphabet(x / 4), Alphabet(x % 4 * 16 + y / 16), Alphabet(y % 16 * 4 + z / 64), Alphabet(z % 64)] + Encode(rest)
  {
    hide Alphabet, Symbol;
    DigitsOf(x, 0, 0);
    DigitsOf(x, y, 0);
    DigitsOf(x, y, z);
    forall v: Sextet ensures Symbol(v) == Alphabet(v) {
      AlphabetExact(v);
    }
    assert ([x, y, z] + rest)[3..] == rest;
  }

  lemma DigitsOf(x: Byte, y: Byte, z: Byte)
    ensures 0 <= Word(x, y, z) < 0x1000000
    ensures Digit(Word(x, y, z), 0) == x / 4 && Digit(Word(x, y, z), 1) == x % 4 * 16 + y / 16
    ensures Digit(Word(x, y, z), 2) == y % 16 * 4 + z / 64 && Digit(Word(x, y, z), 3) == z % 64
  {
    var w := Word(x, y, z);
    FirstDigit(w, x / 4, x % 4 * 65536 + y * 256 + z);
    SecondDigit(w, x * 16 + y / 16, y % 16 * 256 + z);
    LowSextet(x / 4, x % 4 * 16 + y / 16);
    ThirdDigit(w, x * 1024 + y * 4 + z / 64, z % 64);
    LowSextet(x * 16 + y / 16, y % 16 * 4 + z / 64);
  }

  lemma FirstDigit(w: int, q: nat, r: nat)
    requires w == 262144 * q + r && r < 262144
    ensures w / 262144 == q
  {
  }

  lemma SecondDigit(w: int, q: nat, r: nat)
    requires w == 4096 * q + r && r < 4096
    ensures w / 4096 == q
  {
  }

  lemma ThirdDigit(w: int, q: nat, r: nat)
    requires w == 64 * q + r && r < 64
    ensures w / 64 == q && w % 64 == r
  {
  }

  lemma LowSextet(q: nat, r: nat)
    requires r < 64
    ensures (64 * q + r) % 64 == r
  {
  }

  // -------------------------------------------------------------- the decoder

  datatype Fault = Length | MiddlePadding | Character

  datatype Decoded = Fails(fault: Fault) | Ok(bytes: seq<Byte>)

  function Padding(s: string): (pad: nat)
    ensures pad <= 2 && pad <= |s|
  {
    if s == "" || s[|s| - 1] != '=' then 0 else if |s| >= 2 && s[|s| - 2] == '=' then 2 else 1
  }

  /** The value of the character at `p`, where `=` may stand from `limit` on. */
  function ValueAt(s: string, p: nat, limit: int): (r: Option<Sextet>)
    requires p < |s|
  {
    if s[p] == '=' then if p < limit then None else Some(0)
    else if SymbolValue(s[p]) < 0 then None else Some(SymbolValue(s[p]))
  }

  /** The first character of the text from `p` that has no value. */
  function FirstFault(s: string, p: nat, limit: int): (r: Option<Fault>)
    requires p <= |s|
    ensures r.None? ==> forall q :: p <= q < |s| ==> ValueAt(s, q, limit).Some?
    decreases |s| - p
  {
    if p == |s| then None
    else if ValueAt(s, p, limit).Some? then FirstFault(s, p + 1, limit)
    else Some(if s[p] == '=' then MiddlePadding else Character)
  }

  function Combine(x: int, y: int, z: int, w: int): int {
    ((x * 64 + y) * 64 + z) * 64 + w
  }

  function Bytes3(n: int): seq<Byte>
    requires 0 <= n < 0x1000000
  {
    [n / 65536, n / 256 % 256, n % 256]
  }

  /** The word that the four characters at `p` spell. */
  function WordAt(s: string, p: nat, limit: int): (r: int)
    requires p + 4 <= |s| && forall q :: p <= q < p + 4 ==> ValueAt(s, q, limit).Some?
    ensures 0 <= r < 0x1000000
  {
    Combine(ValueAt(s, p, limit).value, ValueAt(s, p + 1, limit).value,
            ValueAt(s, p + 2, limit).value, ValueAt(s, p + 3, limit).value)
  }

  function AllBytes(s: string, p: nat, limit: int): (r: seq<Byte>)
    requires p <= |s| && (|s| - p) % 4 == 0 && forall q :: p <= q < |s| ==> ValueAt(s, q, limit).Some?
    ensures |r| == (|s| - p) / 4 * 3
    decreases |s| - p
  {
    if p == |s| then [] else Bytes3(WordAt(s, p, limit)) + AllBytes(s, p + 4, limit)
  }

  function Decode(s: string): Decoded {
    if |s| % 4 != 0 then Fails(Length)
    else
      var limit := |s| - Padding(s);
      match FirstFault(s, 0, limit)
      case Some(f) => Fails(f)
      case None =>
        var out := AllBytes(s, 0, limit);
        Ok(out[..|out| - Padding(s)])
  }

  /** A character that has no place at `q`: padding before the end, or one outside the
      alphabet. */
  predicate IsBadAt(s: string, q: nat, limit: int)
    requires q < |s|
  {
    var c := s[q];
    if c == '=' then q < limit
    else !('A' <= c <= 'Z' || 'a' <= c <= 'z' || '0' <= c <= '9' || c == '+' || c == '/')
  }

  predicate IsFirstBad(s: string, p: nat, q: nat, limit: int) {
    p <= q < |s| && IsBadAt(s, q, limit) && forall r :: p <= r < q ==> !IsBadAt(s, r, limit)
  }

  lemma {:induction false} FirstFaultExact(s: string, p: nat, limit: int)
    requires p <= |s|
    ensures FirstFault(s, p, limit).None? <==> forall q :: p <= q < |s| ==> !IsBadAt(s, q, limit)
    ensures forall q: nat :: IsFirstBad(s, p, q, limit) ==>
      FirstFault(s, p, limit) == Some(if s[q] == '=' then MiddlePadding else Character)
    decreases |s| - p
  {
    if p < |s| {
      FirstFaultExact(s, p + 1, limit);
      assert ValueAt(s, p, limit).Some? <==> !IsBadAt(s, p, limit);
    }
  }

  /** A text is taken exactly if its length is a multiple of four and every character has
      its place, padding only as one or two characters at the end; else the fault is that
      of the length, or of the first character out of place. */
  lemma DecodeFaultExact(s: string)
    ensures var limit := |s| - (if |s| >= 2 && s[|s| - 2..] == "==" then 2 else if |s| >= 1 && s[|s| - 1] == '=' then 1 else 0);
      && (Decode(s) == Fails(Length) <==> |s| % 4 != 0)
      && (Decode(s).Ok? <==> |s| % 4 == 0 && forall q :: 0 <= q < |s| ==> !IsBadAt(s, q, limit))
      && (|s| % 4 == 0 ==> forall q: nat :: IsFirstBad(s, 0, q, limit) ==>
            Decode(s) == Fails(if s[q] == '=' then MiddlePadding else Character))
  {
    hide FirstFault, AllBytes, IsBadAt;
    FirstFaultExact(s, 0, |s| - Padding(s));
    OnlyFaults(s, 0, |s| - Padding(s));
    PaddingExact(s);
  }

  lemma PaddingExact(s: string)
    ensures Padding(s) == if |s| >= 2 && s[|s| - 2..] == "==" then 2 else if |s| >= 1 && s[|s| - 1] == '=' then 1 else 0
  {
    if |s| >= 2 {
      assert s[|s| - 2..] == [s[|s| - 2], s[|s| - 1]];
    }
  }

  lemma {:induction false} OnlyFaults(s: string, p: nat, limit: int)
    requires p <= |s|
    ensures FirstFault(s, p, limit) != Some(Length)
    decreases |s| - p
  {
    if p < |s| {
      OnlyFaults(s, p + 1, limit);
    }
  }

  // ----------------------------------------------- words, sextets and bytes

  lemma DigitsCombine(w: int)
    requires 0 <= w < 0x1000000
    ensures Combine(Digit(w, 0), Digit(w, 1), Digit(w, 2), Digit(w, 3)) == w
  {
    assert w / 64 == w / 4096 * 64 + w / 64 % 64;
    assert w / 4096 == w / 262144 * 64 + w / 4096 % 64;
  }

  lemma CombineDigits(x: Sextet, y: Sextet, z: Sextet, v: Sextet)
    ensures var w := Combine(x, y, z, v);
      0 <= w < 0x1000000 && Digit(w, 0) == x && Digit(w, 1) == y && Digit(w, 2) == z && Digit(w, 3) == v
  {
    var w := Combine(x, y, z, v);
    assert w / 64 == (x * 64 + y) * 64 + z;
    assert w / 4096 == x * 64 + y;
    assert w / 262144 == x;
  }

  lemma DivideAway(q: nat, r: Byte)
    ensures (q * 256 + r) / 256 == q && (q * 256 + r) % 256 == r
  {
  }

  lemma WordBytes(x: Byte, y: Byte, z: Byte)
    ensures 0 <= Word(x, y, z) < 0x1000000 && Bytes3(Word(x, y, z)) == [x, y, z]
  {
    var n := Word(x, y, z);
    DivideAway(x * 256 + y, z);
    DivideAway(x, y);
    assert n == (x * 256 + y) * 256 + z;
    assert n / 65536 == n / 256 / 256;
  }

  lemma BytesWord(n: int)
    requires 0 <= n < 0x1000000
    ensures Word(n / 65536, n / 256 % 256, n % 256) == n
  {
    assert n / 256 == n / 65536 * 256 + n / 256 % 256;
  }

  // ------------------------------------------------------ decoding by groups

  /** The decoder, group by group from the front. */
  function DecodeGroups(s: string): (r: Option<seq<Byte>>)
    requires |s| % 4 == 0
    decreases |s|
  {
    if s == "" then Some([])
    else if |s| == 4 then DecodeLast(s)
    else
      var w := FullWord(s[..4]);
      var rest := DecodeGroups(s[4..]);
      if w.None? || rest.None? then None else Some(Bytes3(w.value) + rest.value)
  }

  predicate InAlphabet(c: char) {
    SymbolValue(c) >= 0
  }

  function FullWord(g: string): (r: Option<int>)
    requires |g| == 4
    ensures r.Some? ==> 0 <= r.value < 0x1000000
  {
    if InAlphabet(g[0]) && InAlphabet(g[1]) && InAlphabet(g[2]) && InAlphabet(g[3])
    then Some(Combine(SymbolValue(g[0]), SymbolValue(g[1]), SymbolValue(g[2]), SymbolValue(g[3]))) else None
  }

  function DecodeLast(g: string): (r: Option<seq<Byte>>)
    requires |g| == 4
  {
    if g[3] != '=' then if FullWord(g).Some? then Some(Bytes3(FullWord(g).value)) else None
    else if g[2] != '=' then
      if InAlphabet(g[0]) && InAlphabet(g[1]) && InAlphabet(g[2])
      then Some(Bytes3(Combine(SymbolValue(g[0]), SymbolValue(g[1]), SymbolValue(g[2]), 0))[..2]) else None
    else
      if InAlphabet(g[0]) && InAlphabet(g[1])
      then Some(Bytes3(Combine(SymbolValue(g[0]), SymbolValue(g[1]), 0, 0))[..1]) else None
  }

  lemma FaultFour(s: string, p: nat, limit: int)
    requires p + 4 <= |s|
    ensures FirstFault(s, p, limit).None? <==>
      && ValueAt(s, p, limit).Some? && ValueAt(s, p + 1, limit).Some? && ValueAt(s, p + 2, limit).Some?
      && ValueAt(s, p + 3, limit).Some? && FirstFault(s, p + 4, limit).None?
  {
    hide ValueAt;
    assert FirstFault(s, p + 3, limit).None? ==> FirstFault(s, p + 4, limit).None?;
    assert FirstFault(s, p + 2, limit).None? ==> FirstFault(s, p + 3, limit).None?;
  }

  /** Scanning by index and reading by groups come to the same, from any group on. */
  lemma {:induction false} FromIsGroups(s: string, p: nat)
    requires |s| % 4 == 0 && p % 4 == 0 && p < |s|
    ensures var limit := |s| - Padding(s);
      && (FirstFault(s, p, limit).None? <==> DecodeGroups(s[p..]).Some?)
      && (FirstFault(s, p, limit).None? ==>
        DecodeGroups(s[p..]).value == AllBytes(s, p, limit)[..|AllBytes(s, p, limit)| - Padding(s)])
    decreases |s| - p
  {
    hide FirstFault, AllBytes, SymbolValue, Bytes3, Combine;
    var limit := |s| - Padding(s);
    FaultFour(s, p, limit);
    if |s| - p == 4 {
      LastGroup(s, p);
    } else {
      FromIsGroups(s, p + 4);
      var t := s[p..];
      assert t[4..] == s[p + 4..];
      MiddleGroup(s, p);
      if FirstFault(s, p, limit).None? {
        FirstGroup(s, p, limit);
      }
    }
  }

  lemma FirstGroup(s: string, p: nat, limit: int)
    requires p + 4 <= |s| && (|s| - p) % 4 == 0 && forall q :: p <= q < |s| ==> ValueAt(s, q, limit).Some?
    ensures AllBytes(s, p, limit) == Bytes3(WordAt(s, p, limit)) + AllBytes(s, p + 4, limit)
  {
  }

  lemma EndGroup(s: string, limit: int)
    ensures FirstFault(s, |s|, limit).None? && AllBytes(s, |s|, limit) == []
  {
  }

  /** Before the last group no padding is allowed. */
  lemma MiddleGroup(s: string, p: nat)
    requires |s| % 4 == 0 && p + 8 <= |s|
    ensures var limit := |s| - Padding(s);
      && (FullWord(s[p..][..4]).Some? <==> forall q :: p <= q < p + 4 ==> ValueAt(s, q, limit).Some?)
      && (FullWord(s[p..][..4]).Some? ==> FullWord(s[p..][..4]).value == WordAt(s, p, limit))
  {
    hide Combine;
    var limit, g := |s| - Padding(s), s[p..][..4];
    assert g[0] == s[p] && g[1] == s[p + 1] && g[2] == s[p + 2] && g[3] == s[p + 3];
    assert forall q :: p <= q < p + 4 ==> (ValueAt(s, q, limit).Some? <==> InAlphabet(s[q]));
  }

  lemma LastGroup(s: string, p: nat)
    requires |s| == p + 4
    ensures var limit := |s| - Padding(s);
      && (DecodeGroups(s[p..]).Some? <==> FirstFault(s, p, limit).None?)
      && (FirstFault(s, p, limit).None? ==>
        DecodeGroups(s[p..]).value == AllBytes(s, p, limit)[..|AllBytes(s, p, limit)| - Padding(s)])
  {
    hide FirstFault, AllBytes, SymbolValue, Bytes3, Combine;
    var limit, g := |s| - Padding(s), s[p..];
    FaultFour(s, p, limit);
    EndGroup(s, limit);
    assert g[0] == s[p] && g[1] == s[p + 1] && g[2] == s[p + 2] && g[3] == s[p + 3];
    PadHasNoValue();
    if FirstFault(s, p, limit).None? {
      FirstGroup(s, p, limit);
      assert AllBytes(s, p, limit) == Bytes3(WordAt(s, p, limit));
    }
  }

  lemma PadHasNoValue()
    ensures SymbolValue('=') < 0
  {
  }

  lemma DecodeIsGroups(s: string)
    requires |s| % 4 == 0
    ensures Decode(s).Ok? <==> DecodeGroups(s).Some?
    ensures Decode(s).Ok? ==> Decode(s).bytes == DecodeGroups(s).value
  {
    hide FirstFault, AllBytes, DecodeLast;
    if s == "" {
      EndGroup("", 0);
    } else {
      assert s[0..] == s;
      FromIsGroups(s, 0);
    }
  }

  // ------------------------------------------------------- decode after encode

  lemma FullGroup(w: int)
    requires 0 <= w < 0x1000000
    ensures FullWord(Group(w, 4)) == Some(w) && Group(w, 4)[3] != '='
  {
    hide Symbol, SymbolValue, Digit, Combine;
    DigitsCombine(w);
    SymbolsRead(Digit(w, 0));
    SymbolsRead(Digit(w, 1));
    SymbolsRead(Digit(w, 2));
    SymbolsRead(Digit(w, 3));
  }

  /** Absent bytes leave zero sextets. */
  lemma LowDigits(x: Byte, y: Byte)
    ensures 0 <= Word(x, y, 0) < 0x1000000 && Digit(Word(x, y, 0), 3) == 0
    ensures y == 0 ==> Digit(Word(x, y, 0), 2) == 0
  {
    var q := x * 256 + y;
    assert Word(x, y, 0) == 64 * (4 * q);
    assert y == 0 ==> Word(x, y, 0) / 64 == 64 * (16 * x);
  }

  lemma TwoOfThree(x: Byte, y: Byte)
    ensures DecodeLast(Group(Word(x, y, 0), 3)) == Some([x, y])
  {
    hide Symbol, SymbolValue, Combine, Digit;
    var w := Word(x, y, 0);
    LowDigits(x, y);
    WordBytes(x, y, 0);
    DigitsCombine(w);
    SymbolsRead(Digit(w, 0));
    SymbolsRead(Digit(w, 1));
    SymbolsRead(Digit(w, 2));
    assert [x, y, 0][..2] == [x, y];
  }

  lemma OneOfThree(x: Byte)
    ensures DecodeLast(Group(Word(x, 0, 0), 2)) == Some([x])
  {
    hide Symbol, SymbolValue, Combine, Digit;
    var w := Word(x, 0, 0);
    LowDigits(x, 0);
    WordBytes(x, 0, 0);
    DigitsCombine(w);
    SymbolsRead(Digit(w, 0));
    SymbolsRead(Digit(w, 1));
    assert [x, 0, 0][..1] == [x];
  }

  lemma {:induction false} EncodeLength(b: seq<Byte>)
    ensures |Encode(b)| % 4 == 0 && (Encode(b) == "" <==> b == [])
  {
    hide Group, Word;
    if |b| >= 3 {
      EncodeLength(b[3..]);
    }
  }

  lemma {:induction false} GroupsUndoEncode(b: seq<Byte>)
    ensures |Encode(b)| % 4 == 0 && DecodeGroups(Encode(b)) == Some(b)
  {
    hide Group, Word, Bytes3, FullWord, DecodeLast;
    EncodeLength(b);
    if |b| == 1 {
      OneOfThree(b[0]);
      assert b == [b[0]];
    } else if |b| == 2 {
      TwoOfThree(b[0], b[1]);
      assert b == [b[0], b[1]];
    } else if |b| >= 3 {
      EncodeLength(b[3..]);
      GroupsUndoEncode(b[3..]);
      WordBytes(b[0], b[1], b[2]);
      var w := Word(b[0], b[1], b[2]);
      FullGroup(w);
      GroupInFront(w, Encode(b[3..]));
      assert b == [b[0], b[1], b[2]] + b[3..];
    }
  }

  lemma GroupInFront(w: int, rest: string)
    requires 0 <= w < 0x1000000 && |rest| % 4 == 0
    ensures DecodeGroups(Group(w, 4) + rest) ==
      (if DecodeGroups(rest).None? then None else Some(Bytes3(w) + DecodeGroups(rest).value))
  {
    hide Group, Bytes3, FullWord;
    FullGroup(w);
    var s := Group(w, 4) + rest;
    assert s[..4] == Group(w, 4) && s[4..] == rest;
    if rest == "" {
      assert s == Group(w, 4) && Bytes3(w) + [] == Bytes3(w);
    }
  }

  /** Decoding undoes encoding, for every byte string. */
  lemma DecodeUndoesEncode(b: seq<Byte>)
    ensures Decode(Encode(b)) == Ok(b)
  {
    hide Decode, Encode, DecodeGroups;
    GroupsUndoEncode(b);
    DecodeIsGroups(Encode(b));
  }

  // ------------------------------------------------------- encode after decode

  /** The text with the unused bits of its last sextet cleared. */
  function Cleared(s: string): (r: string)
    requires |s| % 4 == 0
  {
    var pad := Padding(s);
    if pad == 0 then s
    else
      var v := SymbolValue(s[|s| - 1 - pad]);
      if v < 0 then s else s[|s| - 1 - pad := Symbol(if pad == 1 then v / 4 * 4 else v / 16 * 16)]
  }

  lemma ClearTwo(x: Sextet, y: Sextet)
    ensures var n := Combine(x, y, 0, 0);
      0 <= n < 0x1000000 && Word(n / 65536, 0, 0) == Combine(x, y / 16 * 16, 0, 0)
  {
    assert Combine(x, y, 0, 0) / 65536 == x * 4 + y / 16;
  }

  lemma ClearOne(x: Sextet, y: Sextet, z: Sextet)
    ensures var n := Combine(x, y, z, 0);
      0 <= n < 0x1000000 && Word(n / 65536, n / 256 % 256, 0) == Combine(x, y, z / 4 * 4, 0)
  {
    var n := Combine(x, y, z, 0);
    assert n / 256 == (x * 64 + y) * 16 + z / 4;
    BytesWord(n);
    assert Word(n / 65536, n / 256 % 256, 0) == n - n % 256;
  }

  lemma WholeGroupReencodes(g: string)
    requires |g| == 4 && FullWord(g).Some?
    ensures Group(FullWord(g).value, 4) == g
  {
    hide Symbol, SymbolValue, Combine, Digit;
    CombineDigits(SymbolValue(g[0]), SymbolValue(g[1]), SymbolValue(g[2]), SymbolValue(g[3]));
    ReadSymbols(g[0]);
    ReadSymbols(g[1]);
    ReadSymbols(g[2]);
    ReadSymbols(g[3]);
  }

  lemma ThreeSymbolsReencode(g: string)
    requires |g| == 4 && g[3] == '=' && g[2] != '=' && DecodeLast(g).Some?
    ensures Encode(DecodeLast(g).value) == Cleared(g)
  {
    hide Symbol, SymbolValue, Combine, Digit, Encode, Cleared, Padding, Word;
    var x, y, z := SymbolValue(g[0]), SymbolValue(g[1]), SymbolValue(g[2]);
    ClearOne(x, y, z);
    CombineDigits(x, y, z / 4 * 4, 0);
    ReadSymbols(g[0]);
    ReadSymbols(g[1]);
    var b, n := DecodeLast(g).value, Combine(x, y, z, 0);
    assert b == [n / 65536, n / 256 % 256];
    EncodeUnfolds(b);
    assert Encode(b) == Group(Combine(x, y, z / 4 * 4, 0), 3);
    ClearedOne(g);
  }

  lemma ClearedOne(g: string)
    requires |g| == 4 && g[3] == '=' && g[2] != '=' && InAlphabet(g[2])
    ensures Cleared(g) == [g[0], g[1], Symbol(SymbolValue(g[2]) / 4 * 4), g[3]]
  {
    hide Symbol, SymbolValue;
  }

  lemma TwoSymbolsReencode(g: string)
    requires |g| == 4 && g[3] == '=' && g[2] == '=' && DecodeLast(g).Some?
    ensures Encode(DecodeLast(g).value) == Cleared(g)
  {
    hide Symbol, SymbolValue, Combine, Digit;
    var x, y := SymbolValue(g[0]), SymbolValue(g[1]);
    ClearTwo(x, y);
    CombineDigits(x, y / 16 * 16, 0, 0);
    ReadSymbols(g[0]);
    var b := DecodeLast(g).value;
    assert Encode(b) == Group(Combine(x, y / 16 * 16, 0, 0), 2);
  }

  lemma WholeGroupInFront(g: string, rest: seq<Byte>)
    requires |g| == 4 && FullWord(g).Some?
    ensures Encode(Bytes3(FullWord(g).value) + rest) == g + Encode(rest)
  {
    hide Group, FullWord;
    var w := FullWord(g).value;
    var b := Bytes3(w) + rest;
    BytesWord(w);
    WholeGroupReencodes(g);
    assert b[3..] == rest;
  }

  lemma ClearedBehind(s: string)
    requires |s| % 4 == 0 && |s| > 4
    ensures Cleared(s) == s[..4] + Cleared(s[4..])
  {
    hide Symbol, SymbolValue;
  }

  lemma {:induction false} EncodeClearsGroups(s: string)
    requires |s| % 4 == 0 && DecodeGroups(s).Some?
    ensures Encode(DecodeGroups(s).value) == Cleared(s)
    decreases |s|
  {
    hide Encode, Cleared, FullWord, Bytes3;
    if s == "" {
      NothingToClear();
    } else if |s| == 4 {
      if s[3] != '=' {
        WholeGroupInFront(s, []);
        assert Bytes3(FullWord(s).value) + [] == Bytes3(FullWord(s).value);
        NothingToClear();
        NotCleared(s);
      } else if s[2] != '=' {
        ThreeSymbolsReencode(s);
      } else {
        TwoSymbolsReencode(s);
      }
    } else {
      EncodeClearsGroups(s[4..]);
      ClearedBehind(s);
      WholeGroupInFront(s[..4], DecodeGroups(s[4..]).value);
    }
  }

  lemma NothingToClear()
    ensures Cleared("") == "" && Encode([]) == ""
  {
  }

  lemma NotCleared(s: string)
    requires |s| % 4 == 0 && s != "" && s[|s| - 1] != '='
    ensures Cleared(s) == s
  {
  }

  /** Encoding what was decoded gives the text back up to the unused bits of its
      last sextet: every other character is the same. */
  lemma EncodeAfterDecode(s: string)
    requires Decode(s).Ok?
    ensures |s| % 4 == 0 && Encode(Decode(s).bytes) == Cleared(s)
  {
    hide Encode, Cleared, DecodeGroups;
    DecodeIsGroups(s);
    EncodeClearsGroups(s);
  }

  predicate Canonical(s: string) {
    Decode(s).Ok? && Encode(Decode(s).bytes) == s
  }

  /** The sextet that padding leaves bits of unused has them zero. */
  predicate UnusedBitsZero(s: string) {
    var pad := Padding(s);
    pad == 0 || pad == |s| || SymbolValue(s[|s| - 1 - pad]) % (if pad == 1 then 4 else 16) == 0
  }

  /** The canonical spellings are exactly the encodings, one for each byte string,
      and among the accepted ones those whose unused bits are zero. */
  lemma CanonicalExact(s: string)
    ensures Canonical(s) <==> exists b :: Encode(b) == s
    ensures forall b, c | Encode(b) == s && Encode(c) == s :: b == c
    ensures Decode(s).Ok? ==> (Canonical(s) <==> UnusedBitsZero(s))
  {
    hide Decode, Encode;
    forall b | Encode(b) == s
      ensures Canonical(s) && Decode(s) == Ok(b)
    {
      DecodeUndoesEncode(b);
    }
    if Decode(s).Ok? {
      EncodeAfterDecode(s);
      LastSextetRead(s);
      ClearedExact(s);
    }
  }

  /** In an accepted text the character before the padding is in the alphabet. */
  lemma LastSextetRead(s: string)
    requires Decode(s).Ok?
    ensures |s| % 4 == 0 && (Padding(s) > 0 ==> Padding(s) < |s| && InAlphabet(s[|s| - 1 - Padding(s)]))
  {
    hide AllBytes, SymbolValue;
    var pad := Padding(s);
    if pad > 0 {
      var p := |s| - 1 - pad;
      assert ValueAt(s, p, |s| - pad).Some?;
    }
  }

  lemma ClearedExact(s: string)
    requires |s| % 4 == 0 && (Padding(s) > 0 ==> Padding(s) < |s| && InAlphabet(s[|s| - 1 - Padding(s)]))
    ensures Cleared(s) == s <==> UnusedBitsZero(s)
  {
    hide Symbol, SymbolValue;
    var pad := Padding(s);
    if pad > 0 {
      var v := SymbolValue(s[|s| - 1 - pad]);
      ReadSymbols(s[|s| - 1 - pad]);
      SymbolsRead(if pad == 1 then v / 4 * 4 else v / 16 * 16);
    }
  }

  // ------------------------------------------------------------------ the loops

  /** `base64_encode`. */
  method EncodeBytes(data: seq<Byte>) returns (out: string)
    ensures out == Encode(data)
  {
    hide Encode, Word, Digit, Symbol;
    out := "";
    var i := 0;
    assert data[0..] == data;
    while i + 3 <= |data|
      invariant 0 <= i <= |data|
      invariant out + Encode(data[i..]) == Encode(data)
    {
      WordBytes(data[i], data[i + 1], data[i + 2]);
      EncodeUnfolds(data[i..]);
      assert data[i..][3..] == data[i + 3..];
      var v := Word(data[i], data[i + 1], data[i + 2]);
      var group := [Symbol(Digit(v, 0)), Symbol(Digit(v, 1)), Symbol(Digit(v, 2)), Symbol(Digit(v, 3))];
      assert group == Group(v, 4);
      out := out + group;
      i := i + 3;
    }
    EncodeUnfolds(data[i..]);
    var rem := |data| - i;
    if rem == 1 {
      WordBytes(data[i], 0, 0);
      var v := Word(data[i], 0, 0);
      out := out + [Symbol(Digit(v, 0)), Symbol(Digit(v, 1)), '=', '='];
    } else if rem == 2 {
      WordBytes(data[i], data[i + 1], 0);
      var v := Word(data[i], data[i + 1], 0);
      out := out + [Symbol(Digit(v, 0)), Symbol(Digit(v, 1)), Symbol(Digit(v, 2)), '='];
    }
  }

  lemma EncodeUnfolds(b: seq<Byte>)
    ensures Encode(b) ==
      if |b| == 0 then ""
      else if |b| == 1 then Group(Word(b[0], 0, 0), 2)
      else if |b| == 2 then Group(Word(b[0], b[1], 0), 3)
      else Group(Word(b[0], b[1], b[2]), 4) + Encode(b[3..])
  {
  }

  /** `base64_decode`. */
  method DecodeText(s: string) returns (r: Decoded)
    ensures r == Decode(s)
  {
    hide FirstFault, AllBytes;
    if s == "" {
      EndGroup("", 0);
      return Ok([]);
    }
    if |s| % 4 != 0 {
      return Fails(Length);
    }
    var pad := 0;
    if s[|s| - 1] == '=' {
      pad := pad + 1;
      if |s| >= 2 && s[|s| - 2] == '=' {
        pad := pad + 1;
      }
    }
    var out, fault := DecodeLoop(s, |s| - pad);
    r := if fault.Some? then Fails(fault.value) else Ok(out[..|out| - pad]);
  }

  /** The loop over the groups. */
  method DecodeLoop(s: string, limit: int) returns (out: seq<Byte>, fault: Option<Fault>)
    requires |s| % 4 == 0
    ensures fault == FirstFault(s, 0, limit)
    ensures fault.None? ==> out == AllBytes(s, 0, limit)
  {
    hide FirstFault, AllBytes, ValueAt, WordAt, Bytes3;
    out, fault := [], None;
    var i := 0;
    while i < |s|
      invariant 0 <= i <= |s| && i % 4 == 0
      invariant fault.None? && FirstFault(s, 0, limit) == FirstFault(s, i, limit)
      invariant FirstFault(s, i, limit).None? ==> AllBytes(s, 0, limit) == out + AllBytes(s, i, limit)
    {
      var n;
      n, fault := ReadGroup(s, i, limit);
      if fault.Some? {
        return;
      }
      if FirstFault(s, i, limit).None? {
        FirstGroup(s, i, limit);
        assert out + (Bytes3(n) + AllBytes(s, i + 4, limit)) == (out + Bytes3(n)) + AllBytes(s, i + 4, limit);
      }
      out := out + Bytes3(n);
      i := i + 4;
    }
    EndGroup(s, limit);
  }

  /** The four characters of a group. */
  method ReadGroup(s: string, i: nat, limit: int) returns (n: int, fault: Option<Fault>)
    requires i + 4 <= |s|
    ensures fault.Some? ==> FirstFault(s, i, limit) == fault
    ensures fault.None? ==>
      && FirstFault(s, i, limit) == FirstFault(s, i + 4, limit)
      && (forall q :: i <= q < i + 4 ==> ValueAt(s, q, limit).Some?)
      && n == WordAt(s, i, limit) && 0 <= n < 0x1000000
  {
    hide SymbolValue, Combine;
    var v: seq<Sextet> := [];
    var j := 0;
    n, fault := 0, None;
    while j < 4
      invariant 0 <= j <= 4 && |v| == j
      invariant forall q :: 0 <= q < j ==> ValueAt(s, i + q, limit) == Some(v[q])
      invariant FirstFault(s, i, limit) == FirstFault(s, i + j, limit)
    {
      var c := s[i + j];
      if c == '=' {
        if i + j < limit {
          return 0, Some(MiddlePadding);
        }
        v := v + [0];
      } else {
        var x := SymbolValue(c);
        if x < 0 {
          return 0, Some(Character);
        }
        v := v + [x];
      }
      j := j + 1;
    }
    forall q | i <= q < i + 4
      ensures ValueAt(s, q, limit) == Some(v[q - i])
    {
      assert ValueAt(s, i + (q - i), limit) == Some(v[q - i]);
    }
    n := Combine(v[0], v[1], v[2], v[3]);
  }
}
