/** UTF-8 (sections 3 and 4 of RFC 3629): what the encoding is, and the two
    decoders of the base library. Masks and shifts are written as the ranges,
    remainders and products they compute; `MasksAreRanges` and `ShiftIsProduct`
    say so for machine words. */
module Utf8 {
  import opened Prelude

  predicate Scalar(c: int) {
    0 <= c <= 0x10FFFF && !(0xD800 <= c <= 0xDFFF)
  }

  predicate Scalars(cs: seq<int>) {
    forall i :: 0 <= i < |cs| ==> Scalar(cs[i])
  }

  /** The table of section 3 of RFC 3629. */
  function EncodeOne(c: int): (r: seq<Byte>)
    requires Scalar(c)
    ensures 1 <= |r| <= 4
  {
    if c < 0x80 then [c]
    else if c < 0x800 then [0xC0 + c / 64, 0x80 + c % 64]
    else if c < 0x10000 then [0xE0 + c / 4096, 0x80 + c / 64 % 64, 0x80 + c % 64]
    else [0xF0 + c / 262144, 0x80 + c / 4096 % 64, 0x80 + c / 64 % 64, 0x80 + c % 64]
  }

  function Encode(cs: seq<int>): seq<Byte>
    requires Scalars(cs)
  {
    if cs == [] then [] else EncodeOne(cs[0]) + Encode(cs[1..])
  }

  // ------------------------------------------------------------- the decoders

  datatype Decoded = Bad | Code(code: int, len: nat)

  predicate Continuation(b: Byte) {
    0x80 <= b < 0xC0
  }

  /** Append the continuation bytes `k` to `len - 1` to the code read so far. */
  function Tail(t: seq<Byte>, k: nat, len: nat, code: int): (r: Decoded)
    requires k <= len <= |t|
    ensures r.Code? ==> r.len == len
    decreases len - k
  {
    if k == len then Code(code, len)
    else if Continuation(t[k]) then Tail(t, k + 1, len, code * 64 + t[k] % 64)
    else Bad
  }

  /** The first sequence as `is_valid_utf8` reads it: any lead byte by its mask,
      then overlong forms, values beyond Unicode and surrogates refused. */
  function ValidStep(t: seq<Byte>): (r: Decoded)
    requires t != []
    ensures r.Code? ==> 1 <= r.len <= |t|
  {
    var c := t[0];
    if c < 0x80 then Code(c, 1)
    else if 0xC0 <= c < 0xE0 then Checked(t, 2, c % 32)
    else if 0xE0 <= c < 0xF0 then Checked(t, 3, c % 16)
    else if 0xF0 <= c < 0xF8 then Checked(t, 4, c % 8)
    else Bad
  }

  function Checked(t: seq<Byte>, len: nat, lead: int): (r: Decoded)
    requires t != [] && 2 <= len <= 4
    ensures r.Code? ==> r.len == len <= |t|
  {
    if len > |t| then Bad
    else
      var d := Tail(t, 1, len, lead);
      if d.Bad? || Overlong(d.code, len) || d.code > 0x10FFFF || 0xD800 <= d.code <= 0xDFFF
      then Bad else d
  }

  predicate Overlong(code: int, len: nat) {
    (len == 2 && code < 0x80) || (len == 3 && code < 0x800) || (len == 4 && code < 0x10000)
  }

  /** The first sequence as `display_safe` reads it: lead bytes that could only
      start an overlong or too large value are refused at once. */
  function StrictStep(t: seq<Byte>): (r: Decoded)
    requires t != []
    ensures r.Code? ==> 1 <= r.len <= |t|
  {
    var c := t[0];
    if c < 0x80 then Code(c, 1)
    else
      var len := StrictLength(c);
      if len == 0 || len > |t| then Bad
      else
        var d := Tail(t, 1, len, StrictLead(c));
        if d.Code? && StrictRefuses(d.code, len) then Bad else d
  }

  function StrictLength(c: Byte): nat {
    if 0xC2 <= c <= 0xDF then 2 else if 0xE0 <= c <= 0xEF then 3 else if 0xF0 <= c <= 0xF4 then 4 else 0
  }

  function StrictLead(c: Byte): int {
    if 0xC2 <= c <= 0xDF then c % 32 else if 0xE0 <= c <= 0xEF then c % 16
    else if 0xF0 <= c <= 0xF4 then c % 8 else 0
  }

  predicate StrictRefuses(code: int, len: nat) {
    || (len == 3 && (code < 0x800 || 0xD800 <= code <= 0xDFFF))
    || (len == 4 && (code < 0x10000 || code > 0x10FFFF))
  }

  lemma MasksAreRanges(c: bv8)
    ensures (c & 0xE0) == 0xC0 <==> 0xC0 <= c < 0xE0
    ensures (c & 0xF0) == 0xE0 <==> 0xE0 <= c < 0xF0
    ensures (c & 0xF8) == 0xF0 <==> 0xF0 <= c < 0xF8
    ensures (c & 0xC0) == 0x80 <==> 0x80 <= c < 0xC0
    ensures c & 0x1F == c % 32 && c & 0x0F == c % 16 && c & 0x07 == c % 8 && c & 0x3F == c % 64
  {
  }

  lemma ShiftIsProduct(code: bv32, b: bv32)
    requires code < 0x8000 && b < 0x100
    ensures (code << 6) | (b & 0x3F) == code * 64 + b % 64
  {
  }

  // ------------------------------------------- the decoders read the encoding

  /** The closed form of a run of continuation bytes. */
  lemma TailTwo(t: seq<Byte>, lead: int)
    requires |t| >= 2
    ensures Tail(t, 1, 2, lead) == if Continuation(t[1]) then Code(lead * 64 + t[1] % 64, 2) else Bad
  {
  }

  lemma TailThree(t: seq<Byte>, lead: int)
    requires |t| >= 3
    ensures Tail(t, 1, 3, lead) ==
      if Continuation(t[1]) && Continuation(t[2]) then Code((lead * 64 + t[1] % 64) * 64 + t[2] % 64, 3) else Bad
  {
  }

  lemma TailFour(t: seq<Byte>, lead: int)
    requires |t| >= 4
    ensures Tail(t, 1, 4, lead) ==
      if Continuation(t[1]) && Continuation(t[2]) && Continuation(t[3])
      then Code(((lead * 64 + t[1] % 64) * 64 + t[2] % 64) * 64 + t[3] % 64, 4) else Bad
  {
    assert Tail(t, 4, 4, ((lead * 64 + t[1] % 64) * 64 + t[2] % 64) * 64 + t[3] % 64).Code?;
  }

  /** Digits to the base 64. */
  lemma Parts(x: int, y: int, z: int, w: int)
    requires 0 <= x && 0 <= y < 64 && 0 <= z < 64 && 0 <= w < 64
    ensures var c := ((x * 64 + y) * 64 + z) * 64 + w;
      c / 262144 == x && c / 4096 == x * 64 + y && c / 64 == (x * 64 + y) * 64 + z && c % 64 == w
      && c / 4096 % 64 == y && c / 64 % 64 == z
  {
  }

  /** The lead byte announces how many bytes follow it. */
  lemma LeadExact(t: seq<Byte>)
    requires t != [] && ValidStep(t).Code?
    ensures Scalar(ValidStep(t).code) && |EncodeOne(ValidStep(t).code)| == ValidStep(t).len
  {
    hide Tail;
    var c := t[0];
    if c >= 0x80 {
      if c < 0xE0 {
        TailTwo(t, c % 32);
      } else if c < 0xF0 {
        TailThree(t, c % 16);
      } else {
        TailFour(t, c % 8);
      }
    }
  }

  lemma EncodesTwo(x: Byte, y: Byte)
    requires 0xC0 <= x < 0xE0 && Continuation(y) && 0x80 <= x % 32 * 64 + y % 64
    ensures var c := x % 32 * 64 + y % 64; Scalar(c) && EncodeOne(c) == [x, y]
  {
    Parts(0, 0, x % 32, y % 64);
  }

  lemma EncodesThree(x: Byte, y: Byte, z: Byte)
    requires 0xE0 <= x < 0xF0 && Continuation(y) && Continuation(z)
    requires var c := (x % 16 * 64 + y % 64) * 64 + z % 64; 0x800 <= c && Scalar(c)
    ensures EncodeOne((x % 16 * 64 + y % 64) * 64 + z % 64) == [x, y, z]
  {
    assert x == 0xE0 + x % 16 && y == 0x80 + y % 64 && z == 0x80 + z % 64;
    Parts(0, x % 16, y % 64, z % 64);
  }

  lemma EncodesFour(x: Byte, y: Byte, z: Byte, w: Byte)
    requires 0xF0 <= x < 0xF8 && Continuation(y) && Continuation(z) && Continuation(w)
    requires var c := ((x % 8 * 64 + y % 64) * 64 + z % 64) * 64 + w % 64; 0x10000 <= c && Scalar(c)
    ensures EncodeOne(((x % 8 * 64 + y % 64) * 64 + z % 64) * 64 + w % 64) == [x, y, z, w]
  {
    Parts(x % 8, y % 64, z % 64, w % 64);
  }

  /** What one step reads is a scalar value, and its encoding is what was read. */
  lemma StepReads(t: seq<Byte>)
    requires t != [] && ValidStep(t).Code?
    ensures var d := ValidStep(t); Scalar(d.code) && t[..d.len] == EncodeOne(d.code)
  {
    hide Tail, EncodeOne;
    LeadExact(t);
    var c := t[0];
    if c < 0x80 {
      EncodesOne(c);
      assert t[..1] == [c];
    } else if c < 0xE0 {
      TailTwo(t, c % 32);
      EncodesTwo(c, t[1]);
      assert t[..2] == [c, t[1]];
    } else if c < 0xF0 {
      TailThree(t, c % 16);
      EncodesThree(c, t[1], t[2]);
      assert t[..3] == [c, t[1], t[2]];
    } else {
      TailFour(t, c % 8);
      EncodesFour(c, t[1], t[2], t[3]);
      assert t[..4] == [c, t[1], t[2], t[3]];
    }
  }

  lemma EncodesOne(x: Byte)
    requires x < 0x80
    ensures EncodeOne(x) == [x]
  {
  }

  lemma ReadsTwo(c: int, t: seq<Byte>)
    requires 0x80 <= c < 0x800 && EncodeOne(c) <= t
    ensures ValidStep(t) == Code(c, 2)
  {
    hide Tail;
    assert t[0] == EncodeOne(c)[0] && t[1] == EncodeOne(c)[1];
    TailTwo(t, t[0] % 32);
  }

  /** A number put together from its digits to the base 64. */
  lemma Recompose(c: int)
    requires 0 <= c
    ensures c == c / 64 * 64 + c % 64
    ensures c / 64 == c / 4096 * 64 + c / 64 % 64
    ensures c / 4096 == c / 262144 * 64 + c / 4096 % 64
  {
  }

  lemma ReadsThree(c: int, t: seq<Byte>)
    requires Scalar(c) && 0x800 <= c < 0x10000 && EncodeOne(c) <= t
    ensures ValidStep(t) == Code(c, 3)
  {
    hide Tail;
    var x, y, z := c / 4096, c / 64 % 64, c % 64;
    Recompose(c);
    assert 0 <= x < 16 && 0 <= y < 64 && 0 <= z < 64 && c == (x * 64 + y) * 64 + z;
    var e := EncodeOne(c);
    assert e == [0xE0 + x, 0x80 + y, 0x80 + z];
    assert t[0] == e[0] && t[1] == e[1] && t[2] == e[2];
    FoundThree(t, x, y, z);
  }

  lemma FoundThree(t: seq<Byte>, x: int, y: int, z: int)
    requires |t| >= 3 && 0 <= x < 16 && 0 <= y < 64 && 0 <= z < 64
    requires t[0] == 0xE0 + x && t[1] == 0x80 + y && t[2] == 0x80 + z
    requires var c := (x * 64 + y) * 64 + z; Scalar(c) && 0x800 <= c
    ensures ValidStep(t) == Code((x * 64 + y) * 64 + z, 3)
  {
    hide Tail;
    assert t[0] % 16 == x && t[1] % 64 == y && t[2] % 64 == z;
    TailThree(t, x);
  }

  lemma ReadsFour(c: int, t: seq<Byte>)
    requires Scalar(c) && 0x10000 <= c && EncodeOne(c) <= t
    ensures ValidStep(t) == Code(c, 4)
  {
    var x, y, z, w := c / 262144, c / 4096 % 64, c / 64 % 64, c % 64;
    Recompose(c);
    assert 0 <= x < 8 && 0 <= y < 64 && 0 <= z < 64 && 0 <= w < 64;
    assert c == ((x * 64 + y) * 64 + z) * 64 + w;
    var e := EncodeOne(c);
    assert e == [0xF0 + x, 0x80 + y, 0x80 + z, 0x80 + w];
    assert t[0] == e[0] && t[1] == e[1] && t[2] == e[2] && t[3] == e[3];
    FoundFour(t, x, y, z, w);
  }

  lemma FoundFour(t: seq<Byte>, x: int, y: int, z: int, w: int)
    requires |t| >= 4 && 0 <= x < 8 && 0 <= y < 64 && 0 <= z < 64 && 0 <= w < 64
    requires t[0] == 0xF0 + x && t[1] == 0x80 + y && t[2] == 0x80 + z && t[3] == 0x80 + w
    requires var c := ((x * 64 + y) * 64 + z) * 64 + w; Scalar(c) && 0x10000 <= c
    ensures ValidStep(t) == Code(((x * 64 + y) * 64 + z) * 64 + w, 4)
  {
    hide Tail;
    assert t[0] % 8 == x && t[1] % 64 == y && t[2] % 64 == z && t[3] % 64 == w;
    TailFour(t, x);
  }

  /** Whatever follows, a step reads the scalar value that was encoded. */
  lemma EncodedReads(c: int, rest: seq<Byte>)
    requires Scalar(c)
    ensures ValidStep(EncodeOne(c) + rest) == Code(c, |EncodeOne(c)|)
  {
    hide Checked;
    var t := EncodeOne(c) + rest;
    if c < 0x80 {
      assert t[0] == c;
    } else if c < 0x800 {
      ReadsTwo(c, t);
    } else if c < 0x10000 {
      ReadsThree(c, t);
    } else {
      ReadsFour(c, t);
    }
  }

  /** The two decoders, written separately, read the same sequences. */
  lemma DecodersAgree(t: seq<Byte>)
    requires t != []
    ensures StrictStep(t) == ValidStep(t)
  {
    hide Tail;
    if |t| >= 2 {
      TailTwo(t, t[0] % 32);
    }
    if |t| >= 3 {
      TailThree(t, t[0] % 16);
    }
    if |t| >= 4 {
      TailFour(t, t[0] % 8);
    }
  }

  // ------------------------------------------------------------ whole strings

  predicate Valid(t: seq<Byte>)
    decreases |t|
  {
    t == [] || (ValidStep(t).Code? && Valid(t[ValidStep(t).len..]))
  }

  /** The scalar values of a valid string. */
  function Decode(t: seq<Byte>): (cs: seq<int>)
    requires Valid(t)
    decreases |t|
  {
    if t == [] then [] else [ValidStep(t).code] + Decode(t[ValidStep(t).len..])
  }

  lemma {:induction false} DecodeThenEncode(t: seq<Byte>)
    requires Valid(t)
    ensures Scalars(Decode(t)) && Encode(Decode(t)) == t
    decreases |t|
  {
    hide ValidStep, EncodeOne;
    if t != [] {
      var d := ValidStep(t);
      StepReads(t);
      DecodeThenEncode(t[d.len..]);
      assert Decode(t)[1..] == Decode(t[d.len..]);
      assert t == t[..d.len] + t[d.len..];
    }
  }

  lemma {:induction false} EncodeThenDecode(cs: seq<int>)
    requires Scalars(cs)
    ensures Valid(Encode(cs)) && Decode(Encode(cs)) == cs
    decreases |cs|
  {
    hide ValidStep, EncodeOne;
    if cs != [] {
      var t, n := Encode(cs), |EncodeOne(cs[0])|;
      EncodedReads(cs[0], Encode(cs[1..]));
      EncodeThenDecode(cs[1..]);
      assert t[n..] == Encode(cs[1..]);
    }
  }

  /** Validity is being the encoding of some scalar values, and of only one
      sequence of them. */
  lemma ValidExact(t: seq<Byte>)
    ensures Valid(t) <==> exists cs | Scalars(cs) :: Encode(cs) == t
    ensures forall cs, ds | Scalars(cs) && Scalars(ds) && Encode(cs) == t && Encode(ds) == t :: cs == ds
  {
    hide Valid, Encode, Decode;
    if Valid(t) {
      DecodeThenEncode(t);
    }
    forall cs | Scalars(cs) && Encode(cs) == t
      ensures Valid(t) && Decode(t) == cs
    {
      EncodeThenDecode(cs);
    }
  }

  lemma {:induction false} AsciiEncodes(s: seq<Byte>)
    requires forall i :: 0 <= i < |s| ==> s[i] < 0x80
    ensures Scalars(s) && Encode(s) == s
  {
    if s != [] {
      AsciiEncodes(s[1..]);
    }
  }

  lemma ValidUnfolds(t: seq<Byte>)
    ensures Valid(t) <==> t == [] || (ValidStep(t).Code? && Valid(t[ValidStep(t).len..]))
  {
  }

  // --------------------------------------------------------- `is_valid_utf8`

  method IsValidUtf8(text: seq<Byte>) returns (valid: bool)
    ensures valid <==> Valid(text)
  {
    hide Valid, ValidStep;
    ValidUnfolds([]);
    assert text[0..] == text && text[|text|..] == [];
    var i := 0;
    while i < |text|
      invariant 0 <= i <= |text|
      invariant Valid(text) <==> Valid(text[i..])
    {
      ghost var t := text[i..];
      ValidUnfolds(t);
      var length := ReadSequence(text, i);
      if length == 0 {
        return false;
      }
      assert t[length..] == text[i + length..];
      i := i + length;
    }
    return true;
  }

  /** One round of the loop: the length of the sequence at `i`, 0 where it is refused. */
  method ReadSequence(text: seq<Byte>, i: nat) returns (length: nat)
    requires i < |text|
    ensures length == match ValidStep(text[i..]) case Bad => 0 case Code(_, len) => len
  {
    var c := text[i];
    ghost var t := text[i..];
    var code: int := 0;
    if c < 0x80 {
      return 1;
    } else if 0xC0 <= c < 0xE0 {
      length, code := 2, c % 32;
    } else if 0xE0 <= c < 0xF0 {
      length, code := 3, c % 16;
    } else if 0xF0 <= c < 0xF8 {
      length, code := 4, c % 8;
    } else {
      return 0;
    }
    if i + length > |text| {
      return 0;
    }
    ghost var lead := code;
    assert ValidStep(t) == Checked(t, length, lead);
    var k := 1;
    while k < length
      invariant 1 <= k <= length
      invariant Tail(t, k, length, code) == Tail(t, 1, length, lead)
    {
      var cont := text[i + k];
      if !(0x80 <= cont < 0xC0) {
        return 0;
      }
      code := code * 64 + cont % 64;
      k := k + 1;
    }
    if length == 2 && code < 0x80 {
      return 0;
    }
    if length == 3 && code < 0x800 {
      return 0;
    }
    if length == 4 && code < 0x10000 {
      return 0;
    }
    if code > 0x10FFFF {
      return 0;
    }
    if 0xD800 <= code <= 0xDFFF {
      return 0;
    }
  }
}
