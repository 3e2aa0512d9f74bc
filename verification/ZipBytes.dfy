/** The validator's own reading of the ZIP framing (sections 4.3.7, 4.3.9,
    4.3.12 and 4.3.16 of the ZIP APPNOTE), down to Python's slices and
    `struct.unpack_from`, whose negative offsets count from the end. */
module ZipBytes {
  import opened Prelude

  type Blob = seq<Byte>

  const CD_SIG: Blob := [0x50, 0x4B, 1, 2]
  const LOCAL_SIG: Blob := [0x50, 0x4B, 3, 4]
  const EOCD_SIG: Blob := [0x50, 0x4B, 5, 6]
  const ZIP64_SIG: Blob := [0x50, 0x4B, 6, 7]
  const DESCRIPTOR_SIG: Blob := [0x50, 0x4B, 7, 8]

  function Clamp(n: nat, k: int): nat {
    if k >= 0 then if k < n then k else n
    else if n + k >= 0 then n + k else 0
  }

  /** `b[lo:hi]`. */
  function Slice(b: Blob, lo: int, hi: int): Blob {
    var l, h := Clamp(|b|, lo), Clamp(|b|, hi);
    if l <= h then b[l..h] else []
  }

  predicate HasSig(b: Blob, off: int, sig: Blob) {
    Slice(b, off, off + 4) == sig
  }

  /** Where `unpack_from` reads `size` bytes for this offset, unless it throws. */
  function Unpack(b: Blob, off: int, size: nat): Option<nat> {
    var at := if off < 0 then off + |b| else off;
    if 0 <= at && at + size <= |b| && (off < 0 ==> off + size <= 0) then Some(at) else None
  }

  function Le(b: Blob, at: nat, size: nat): nat
    requires at + size <= |b|
    decreases size
  {
    if size == 0 then 0 else b[at] + 256 * Le(b, at + 1, size - 1)
  }

  function U16(b: Blob, off: int): nat
    requires Unpack(b, off, 2).Some?
  {
    Le(b, Unpack(b, off, 2).value, 2)
  }

  function U32(b: Blob, off: int): nat
    requires Unpack(b, off, 4).Some?
  {
    Le(b, Unpack(b, off, 4).value, 4)
  }

  predicate SigAt(b: Blob, sig: Blob, k: int) {
    0 <= k && k + |sig| <= |b| && b[k..k + |sig|] == sig
  }

  /** `b.rfind(sig, 0, limit)`: the last occurrence, -1 when there is none. */
  function RFind(b: Blob, sig: Blob, limit: nat): (r: int)
    requires limit <= |b|
    ensures -1 <= r && (r >= 0 ==> r + |sig| <= limit && SigAt(b, sig, r))
    ensures forall k :: r < k && SigAt(b, sig, k) ==> k + |sig| > limit
    decreases limit
  {
    if limit < |sig| then -1
    else if SigAt(b, sig, limit - |sig|) then limit - |sig|
    else if limit == 0 then -1
    else RFind(b, sig, limit - 1)
  }
}
