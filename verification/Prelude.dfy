/** Shared vocabulary. */
module Prelude {
  datatype Option<+T> = None | Some(value: T)

  type Byte = b: int | 0 <= b < 256

  ghost predicate NoRepeats<T(!new)>(s: seq<T>) {
    forall i, j :: 0 <= i < j < |s| ==> s[i] != s[j]
  }

  predicate LowerHex(c: char) {
    '0' <= c <= '9' || 'a' <= c <= 'f'
  }

  /** A SHA-256 digest as text: 64 lowercase hexadecimal digits. */
  predicate IsSha256Hex(s: string) {
    |s| == 64 && forall i :: 0 <= i < |s| ==> LowerHex(s[i])
  }
}
