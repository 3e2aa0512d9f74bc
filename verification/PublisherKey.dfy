/** Publisher keys as text: the prefix and 32 bytes in base64. */
module PublisherKey {
  import opened Prelude
  import Base64

  type Key = k: seq<Byte> | |k| == 32 witness seq(32, _ => 0)

  const PREFIX: string := "ed25519:"

  function EncodeKey(k: Key): string {
    PREFIX + Base64.Encode(k)
  }

  /** `decode_key_material`: any accepted spelling. */
  function KeyMaterial(text: string): Option<Key> {
    if !(PREFIX <= text) then None
    else
      match Base64.Decode(text[|PREFIX|..])
      case Fails(_) => None
      case Ok(raw) => if |raw| == 32 then Some(raw) else None
  }

  /** `decode_public_key`: the canonical spelling only. */
  function PublicKey(text: string): Option<Key> {
    match KeyMaterial(text)
    case None => None
    case Some(k) => if EncodeKey(k) == text then Some(k) else None
  }

  /** `same_public_key`. */
  predicate SameKey(a: string, b: string) {
    KeyMaterial(a).Some? && KeyMaterial(b).Some? && KeyMaterial(a).value == KeyMaterial(b).value
  }

  /** The validator's `decode_publisher_key`, over a base64 reader of its own of which
      only one thing matters: that it undoes the encoder. */
  function ValidatorKey(decode: string -> Option<seq<Byte>>, text: string): Option<Key> {
    if !(PREFIX <= text) then None
    else
      var raw := decode(text[|PREFIX|..]);
      if raw.None? || |raw.value| != 32 || Base64.Encode(raw.value) != text[|PREFIX|..] then None
      else Some(raw.value)
  }

  /** The canonical spelling. */
  predicate IsKeyText(text: string, k: Key) {
    text == "ed25519:" + Base64.Encode(k)
  }

  /** The one text that the strict reader takes for a key. */
  lemma SpellingExact(text: string, k: Key)
    ensures PublicKey(text) == Some(k) <==> IsKeyText(text, k)
  {
    hide Base64.Encode, Base64.Decode, KeyMaterial;
    EncodedKeyReads(k);
  }

  /** A key has exactly one spelling, and the runtime and the validator accept it
      and no other text. */
  lemma OneSpelling(decode: string -> Option<seq<Byte>>, text: string, k: Key)
    requires forall b :: decode(Base64.Encode(b)) == Some(b)
    ensures PublicKey(text) == Some(k) <==> IsKeyText(text, k)
    ensures ValidatorKey(decode, text) == PublicKey(text)
  {
    hide Base64.Encode, Base64.Decode;
    SpellingExact(text, k);
    if PREFIX <= text {
      assert text == PREFIX + text[|PREFIX|..];
      if ValidatorKey(decode, text).Some? {
        EncodedKeyReads(ValidatorKey(decode, text).value);
      }
      if PublicKey(text).Some? {
        var key := PublicKey(text).value;
        EncodedKeyReads(key);
        assert text[|PREFIX|..] == Base64.Encode(key);
      }
    }
  }

  /** Two texts are the same key exactly if both begin with the prefix and what follows
      decodes to the same 32 bytes. */
  lemma SameKeyExact(a: string, b: string)
    ensures SameKey(a, b) <==> exists k: Key :: Spells(a, k) && Spells(b, k)
  {
    hide Base64.Decode;
    if SameKey(a, b) {
      assert Spells(a, KeyMaterial(a).value) && Spells(b, KeyMaterial(a).value);
    }
  }

  predicate Spells(text: string, k: Key) {
    |text| >= 8 && text[..8] == "ed25519:" && Base64.Decode(text[8..]) == Base64.Ok(k)
  }

  lemma EncodedKeyReads(k: Key)
    ensures PublicKey(EncodeKey(k)) == Some(k) && EncodeKey(k)[|PREFIX|..] == Base64.Encode(k)
  {
    hide Base64.Encode, Base64.Decode;
    assert EncodeKey(k)[|PREFIX|..] == Base64.Encode(k);
    Base64.DecodeUndoesEncode(k);
  }

  /** Between texts that the strict reader takes, the same key is the same text. */
  lemma SameKeyIsSameText(a: string, b: string)
    requires PublicKey(a).Some? && PublicKey(b).Some?
    ensures SameKey(a, b) <==> a == b
  {
  }
}
