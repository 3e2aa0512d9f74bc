/** Text from an untrusted package, made safe to show: bytes that are not UTF-8,
    control characters and hidden code points are spelled out. */
module DisplaySafe {
  import opened Prelude
  import opened Utf8

  /** Controls, and the code points that reorder or hide the text around them. */
  predicate Control(c: int) {
    0 <= c < 0x20 || c == 0x7F
  }

  predicate Hidden(c: int) {
    || 0x80 <= c <= 0x9F || 0x200B <= c <= 0x200F || 0x202A <= c <= 0x202E || c == 0x061C
    || c == 0x2028 || c == 0x2029 || 0xFFF9 <= c <= 0xFFFB || 0x2060 <= c <= 0x2069 || c == 0xFEFF
  }

  predicate Shown(c: int) {
    !Control(c) && !Hidden(c)
  }

  predicate AllShown(cs: seq<int>) {
    forall i :: 0 <= i < |cs| ==> Shown(cs[i])
  }

  /** Valid UTF-8 without any of the characters that must not be shown. */
  predicate Clean(t: seq<Byte>) {
    Valid(t) && AllShown(Decode(t))
  }

  function HexDigit(d: int): (r: Byte)
    requires 0 <= d < 16
    ensures 0x30 <= r <= 0x46
  {
    if d < 10 then 0x30 + d else 0x41 + (d - 10)
  }

  /** `\xNN`. */
  function HexByte(c: Byte): seq<Byte> {
    [0x5C, 0x78, HexDigit(c / 16), HexDigit(c % 16)]
  }

  /** `\u{NNNN}`; every hidden code point has four digits at most. */
  function CodePoint(c: int): seq<Byte>
    requires 0 <= c < 0x10000
  {
    [0x5C, 0x75, 0x7B] + HexWord(c) + [0x7D]
  }

  function HexWord(c: int): seq<Byte>
    requires 0 <= c < 0x10000
  {
    [HexDigit(c / 4096), HexDigit(c / 256 % 16), HexDigit(c / 16 % 16), HexDigit(c % 16)]
  }

  /** What stands for the first sequence, or for the first byte where there is none. */
  function Piece(t: seq<Byte>): seq<Byte>
    requires t != []
  {
    var d := StrictStep(t);
    if d.Bad? || Control(d.code) then HexByte(t[0])
    else if Hidden(d.code) then CodePoint(d.code)
    else t[..d.len]
  }

  function Consumed(t: seq<Byte>): (n: nat)
    requires t != []
    ensures 1 <= n <= |t|
  {
    if StrictStep(t).Bad? then 1 else StrictStep(t).len
  }

  function Safe(t: seq<Byte>): seq<Byte>
    decreases |t|
  {
    if t == [] then [] else Piece(t) + Safe(t[Consumed(t)..])
  }

  // ------------------------------------------------------ the output is clean

  /** The characters of a piece. */
  function PieceCodes(t: seq<Byte>): seq<int>
    requires t != []
  {
    var d := StrictStep(t);
    if d.Bad? || Control(d.code) || Hidden(d.code) then Piece(t) else [d.code]
  }

  function Codes(t: seq<Byte>): seq<int>
    decreases |t|
  {
    if t == [] then [] else PieceCodes(t) + Codes(t[Consumed(t)..])
  }

  lemma {:induction false} EncodeAppends(a: seq<int>, b: seq<int>)
    requires Scalars(a) && Scalars(b)
    ensures Scalars(a + b) && Encode(a + b) == Encode(a) + Encode(b)
  {
    hide EncodeOne;
    if a == [] {
      assert a + b == b;
    } else {
      EncodeAppends(a[1..], b);
      assert (a + b)[1..] == a[1..] + b;
    }
  }

  lemma EncodeSingle(c: int)
    requires Scalar(c)
    ensures Scalars([c]) && Encode([c]) == EncodeOne(c)
  {
    hide EncodeOne;
    assert Encode([c]) == EncodeOne(c) + Encode([]);
  }

  lemma PieceIsClean(t: seq<Byte>)
    requires t != []
    ensures Scalars(PieceCodes(t)) && AllShown(PieceCodes(t)) && Encode(PieceCodes(t)) == Piece(t)
  {
    hide StrictStep, ValidStep, Encode, EncodeOne, HexDigit;
    var d := StrictStep(t);
    DecodersAgree(t);
    if d.Bad? || Control(d.code) || Hidden(d.code) {
      AsciiEncodes(Piece(t));
    } else {
      StepReads(t);
      EncodeSingle(d.code);
    }
  }

  lemma {:induction false} SafeIsCodes(t: seq<Byte>)
    ensures Scalars(Codes(t)) && AllShown(Codes(t)) && Encode(Codes(t)) == Safe(t)
    decreases |t|
  {
    hide Piece, PieceCodes, Consumed, Encode;
    if t == [] {
      AsciiEncodes([]);
    } else {
      PieceIsClean(t);
      SafeIsCodes(t[Consumed(t)..]);
      EncodeAppends(PieceCodes(t), Codes(t[Consumed(t)..]));
    }
  }

  /** Whatever the input, the output is valid UTF-8 with nothing to hide in it. */
  lemma SafeIsClean(t: seq<Byte>)
    ensures Clean(Safe(t))
  {
    hide Safe, Codes, Encode, Valid, Decode;
    SafeIsCodes(t);
    EncodeThenDecode(Codes(t));
  }

  /** Clean text is left alone. */
  lemma {:induction false} CleanIsKept(t: seq<Byte>)
    requires Clean(t)
    ensures Safe(t) == t
    decreases |t|
  {
    hide ValidStep, StrictStep;
    if t != [] {
      var d := ValidStep(t);
      DecodersAgree(t);
      assert Decode(t)[0] == d.code;
      var rest := t[d.len..];
      assert forall i :: 0 <= i < |Decode(rest)| ==> Decode(rest)[i] == Decode(t)[i + 1];
      CleanIsKept(rest);
    }
  }

  /** So text is unchanged exactly when it is clean, and a second pass changes nothing. */
  lemma SafeExact(t: seq<Byte>)
    ensures Safe(t) == t <==> Clean(t)
    ensures Safe(Safe(t)) == Safe(t)
  {
    hide Safe, Clean;
    SafeIsClean(t);
    CleanIsKept(Safe(t));
    if Clean(t) {
      CleanIsKept(t);
    }
  }

  // ------------------------------------------------------- what is spelled, and how

  /** The C1 controls, zero-width characters and direction marks, embeddings and
      overrides, separators, invisible operators and isolates, annotation marks, and the
      byte order mark. */
  predicate IsHiddenCode(c: int) {
    || 128 <= c <= 159 || c in {0x200B, 0x200C, 0x200D, 0x200E, 0x200F, 0x061C}
    || c in {0x202A, 0x202B, 0x202C, 0x202D, 0x202E} || c in {0x2028, 0x2029}
    || c in {0x2060, 0x2061, 0x2062, 0x2063, 0x2064} || c in {0x2065, 0x2066, 0x2067, 0x2068, 0x2069}
    || c in {0xFFF9, 0xFFFA, 0xFFFB, 0xFEFF}
  }

  /** The upper-case digit. */
  function Hex(d: int): Byte
    requires 0 <= d < 16
  {
    "0123456789ABCDEF"[d] as int
  }

  function Ascii(s: string): seq<Byte>
    requires forall i :: 0 <= i < |s| ==> s[i] < 128 as char
  {
    seq(|s|, i requires 0 <= i < |s| => s[i] as int)
  }

  /** What a code point is shown as. */
  function Spelled(c: int): seq<Byte>
    requires Scalar(c)
  {
    if c < 32 || c == 127 then Ascii("\\x") + [Hex(c / 16), Hex(c % 16)]
    else if IsHiddenCode(c) then
      Ascii("\\u{") + [Hex(c / 4096), Hex(c / 256 % 16), Hex(c / 16 % 16), Hex(c % 16)] + Ascii("}")
    else EncodeOne(c)
  }

  lemma HexExact(d: int)
    requires 0 <= d < 16
    ensures HexDigit(d) == Hex(d)
  {
  }

  lemma BackslashTexts()
    ensures Ascii("\\x") == [0x5C, 0x78] && Ascii("\\u{") == [0x5C, 0x75, 0x7B] && Ascii("}") == [0x7D]
  {
  }

  lemma HexByteExact(c: Byte)
    ensures HexByte(c) == Ascii("\\x") + [Hex(c / 16), Hex(c % 16)]
  {
    hide Hex, HexDigit;
    HexExact(c / 16);
    HexExact(c % 16);
    BackslashTexts();
  }

  lemma CodePointExact(c: int)
    requires 0 <= c < 0x10000
    ensures CodePoint(c) ==
      Ascii("\\u{") + [Hex(c / 4096), Hex(c / 256 % 16), Hex(c / 16 % 16), Hex(c % 16)] + Ascii("}")
  {
    hide Hex, HexDigit;
    HexExact(c / 4096);
    HexExact(c / 256 % 16);
    HexExact(c / 16 % 16);
    HexExact(c % 16);
    BackslashTexts();
  }

  lemma HiddenExact(c: int)
    ensures Hidden(c) <==> IsHiddenCode(c)
  {
  }

  /** Each encoded code point is shown as it should be, whatever follows. */
  lemma CodeIsSpelled(c: int, rest: seq<Byte>)
    requires Scalar(c)
    ensures Safe(EncodeOne(c) + rest) == Spelled(c) + Safe(rest)
  {
    hide StrictStep, ValidStep, EncodeOne, HexByte, CodePoint, Ascii, Hex, Hidden, IsHiddenCode;
    var t := EncodeOne(c) + rest;
    EncodedReads(c, rest);
    DecodersAgree(t);
    SafeUnfolds(t);
    HiddenExact(c);
    assert t[|EncodeOne(c)|..] == rest && t[..|EncodeOne(c)|] == EncodeOne(c);
    if c < 32 || c == 127 {
      OneByte(c, rest);
      HexByteExact(c);
    } else if Hidden(c) {
      HiddenIsShort(c);
      CodePointExact(c);
    }
  }

  lemma HiddenIsShort(c: int)
    requires Hidden(c)
    ensures 0 <= c < 0x10000
  {
  }

  lemma OneByte(c: int, rest: seq<Byte>)
    requires 0 <= c < 128
    ensures EncodeOne(c) == [c] && (EncodeOne(c) + rest)[0] == c
  {
  }

  /** The text begins with no encoded code point. */
  ghost predicate IsBroken(t: seq<Byte>) {
    forall c :: Scalar(c) ==> !(EncodeOne(c) <= t)
  }

  /** A byte that begins no sequence is shown as itself, and the text after it. */
  lemma BrokenIsSpelled(b: Byte, rest: seq<Byte>)
    requires IsBroken([b] + rest)
    ensures Safe([b] + rest) == Ascii("\\x") + [Hex(b / 16), Hex(b % 16)] + Safe(rest)
  {
    hide StrictStep, ValidStep, EncodeOne, HexByte, Ascii, Hex;
    var t := [b] + rest;
    DecodersAgree(t);
    SafeUnfolds(t);
    HexByteExact(b);
    assert t[1..] == rest;
    if StrictStep(t).Code? {
      StepIsPrefix(t);
    }
  }

  lemma StepIsPrefix(t: seq<Byte>)
    requires t != [] && StrictStep(t).Code?
    ensures !IsBroken(t)
  {
    hide StrictStep, ValidStep, EncodeOne;
    DecodersAgree(t);
    StepReads(t);
    assert EncodeOne(StrictStep(t).code) <= t;
  }

  // ------------------------------------------------------------ `display_safe`

  method DisplaySafe(text: seq<Byte>) returns (out: seq<Byte>)
    ensures out == Safe(text) && Clean(out)
  {
    hide Safe, Clean, Piece, Consumed;
    SafeUnfolds([]);
    assert text[0..] == text && text[|text|..] == [];
    out := [];
    var i := 0;
    while i < |text|
      invariant 0 <= i <= |text|
      invariant out + Safe(text[i..]) == Safe(text)
    {
      SafeUnfolds(text[i..]);
      var piece, n := NextPiece(text, i);
      assert text[i..][n..] == text[i + n..];
      assert out + (piece + Safe(text[i + n..])) == (out + piece) + Safe(text[i + n..]);
      out := out + piece;
      i := i + n;
    }
    SafeIsClean(text);
  }

  /** One round of the loop: what is appended, and how far it goes on. */
  method NextPiece(text: seq<Byte>, i: nat) returns (piece: seq<Byte>, n: nat)
    requires i < |text|
    ensures piece == Piece(text[i..]) && n == Consumed(text[i..])
  {
    hide HexByte, CodePoint;
    var c := text[i];
    ghost var t := text[i..];
    if c < 0x80 {
      assert t[..1] == [c];
      return if c < 0x20 || c == 0x7F then HexByte(c) else [c], 1;
    }
    var len, cp, valid := DecodeAt(text, i);
    if !valid {
      return HexByte(c), 1;
    }
    StrictCodeIsScalar(t);
    assert t[..len] == text[i..i + len];
    return if Hidden(cp) then CodePoint(cp) else text[i..i + len], len;
  }

  /** The decoding of one sequence inside `display_safe`. */
  method DecodeAt(text: seq<Byte>, i: nat) returns (len: nat, cp: int, valid: bool)
    requires i < |text| && text[i] >= 0x80
    ensures valid <==> StrictStep(text[i..]).Code?
    ensures valid ==> StrictStep(text[i..]) == Code(cp, len) && i + len <= |text|
  {
    var c := text[i];
    ghost var t := text[i..];
    len, cp := 0, 0;
    if 0xC2 <= c <= 0xDF {
      len, cp := 2, c % 32;
    } else if 0xE0 <= c <= 0xEF {
      len, cp := 3, c % 16;
    } else if 0xF0 <= c <= 0xF4 {
      len, cp := 4, c % 8;
    }
    valid := len != 0 && i + len <= |text|;
    var k := 1;
    while valid && k < len
      invariant valid ==> 1 <= k <= len
      invariant len == StrictLength(c) && (valid ==> len <= |t|)
      invariant valid ==> Tail(t, k, len, cp) == Tail(t, 1, len, StrictLead(c))
      invariant !valid ==> StrictStep(t).Bad?
      decreases valid, len - k
    {
      var cc := text[i + k];
      if !(0x80 <= cc < 0xC0) {
        valid := false;
      }
      cp := cp * 64 + cc % 64;
      k := k + 1;
    }
    if valid && ((len == 3 && (cp < 0x800 || 0xD800 <= cp <= 0xDFFF)) || (len == 4 && (cp < 0x10000 || cp > 0x10FFFF))) {
      valid := false;
    }
  }

  lemma SafeUnfolds(t: seq<Byte>)
    ensures Safe(t) == if t == [] then [] else Piece(t) + Safe(t[Consumed(t)..])
  {
  }

  lemma StrictCodeIsScalar(t: seq<Byte>)
    requires t != [] && StrictStep(t).Code?
    ensures Scalar(StrictStep(t).code) && (t[0] >= 0x80 ==> StrictStep(t).code >= 0x80)
  {
    hide StrictStep, ValidStep;
    DecodersAgree(t);
    StepReads(t);
    assert t[..StrictStep(t).len][0] == t[0];
  }
}
