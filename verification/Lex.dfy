/** Byte-string order, as `std::string::compare` computes it. */
module Lex {

  function Compare(a: string, b: string): (r: int)
    ensures -1 <= r <= 1
  {
    if a == "" || b == "" then
      if a == b then 0 else if a == "" then -1 else 1
    else if a[0] != b[0] then
      if a[0] < b[0] then -1 else 1
    else Compare(a[1..], b[1..])
  }

  lemma {:induction false} CompareEqual(a: string, b: string)
    ensures Compare(a, b) == 0 <==> a == b
  {
    if a != "" && b != "" && a[0] == b[0] {
      CompareEqual(a[1..], b[1..]);
      assert a == [a[0]] + a[1..] && b == [b[0]] + b[1..];
    }
  }

  lemma {:induction false} CompareFlips(a: string, b: string)
    ensures Compare(b, a) == -Compare(a, b)
  {
    if a != "" && b != "" && a[0] == b[0] {
      CompareFlips(a[1..], b[1..]);
    }
  }

  lemma {:induction false} CompareTransitive(a: string, b: string, c: string)
    requires Compare(a, b) <= 0 && Compare(b, c) <= 0
    ensures Compare(a, c) <= 0
    ensures Compare(a, b) < 0 || Compare(b, c) < 0 ==> Compare(a, c) < 0
  {
    if a != "" && b != "" && c != "" && a[0] == b[0] == c[0] {
      CompareTransitive(a[1..], b[1..], c[1..]);
    }
  }

  /** After `k` common characters the one text ends, or has the smaller character. */
  predicate PrecedesAt(a: string, b: string, k: nat) {
    k <= |a| && k < |b| && a[..k] == b[..k] && (k == |a| || a[k] < b[k])
  }

  ghost predicate Precedes(a: string, b: string) {
    exists k :: PrecedesAt(a, b, k)
  }

  lemma PrecedesNext(a: string, b: string)
    requires a != "" && b != "" && a[0] == b[0]
    ensures Precedes(a, b) <==> Precedes(a[1..], b[1..])
  {
    if Precedes(a, b) {
      var k: nat :| PrecedesAt(a, b, k);
      assert k > 0;
      assert a[1..][..k - 1] == a[..k][1..] && b[1..][..k - 1] == b[..k][1..];
      assert PrecedesAt(a[1..], b[1..], k - 1);
    }
    if Precedes(a[1..], b[1..]) {
      var k: nat :| PrecedesAt(a[1..], b[1..], k);
      assert a[..k + 1] == [a[0]] + a[1..][..k] && b[..k + 1] == [b[0]] + b[1..][..k];
      assert PrecedesAt(a, b, k + 1);
    }
  }

  /** The sign says which text comes first in the order of a dictionary. */
  lemma {:induction false} CompareExact(a: string, b: string)
    ensures Compare(a, b) < 0 <==> Precedes(a, b)
    ensures Compare(a, b) == 0 <==> a == b
  {
    CompareEqual(a, b);
    if a == "" || b == "" {
      if a == "" && b != "" {
        assert PrecedesAt(a, b, 0);
      }
    } else if a[0] == b[0] {
      CompareExact(a[1..], b[1..]);
      PrecedesNext(a, b);
    } else if a[0] < b[0] {
      assert PrecedesAt(a, b, 0);
    } else {
      forall k: nat ensures !PrecedesAt(a, b, k) {
        if k > 0 && k <= |a| && k < |b| {
          assert a[..k][0] != b[..k][0];
        }
      }
    }
  }
}
