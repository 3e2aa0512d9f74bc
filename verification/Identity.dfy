/** Application identifiers: dotted names of two segments at least. */
module Identity {
  import Versions

  predicate IdChar(c: char) {
    'a' <= c <= 'z' || 'A' <= c <= 'Z' || '0' <= c <= '9' || c == '-'
  }

  predicate IdSegment(s: string) {
    s != "" && forall c | c in s :: IdChar(c)
  }

  predicate ValidId(id: string) {
    && 0 < |id| <= 255 && |Versions.Split(id)| >= 2
    && forall k :: 0 <= k < |Versions.Split(id)| ==> IdSegment(Versions.Split(id)[k])
  }

  lemma {:induction false} IdChars(id: string)
    requires forall k :: 0 <= k < |Versions.Split(id)| ==> IdSegment(Versions.Split(id)[k])
    ensures forall c | c in id :: IdChar(c) || c == '.'
    decreases |id|
  {
    hide IdChar;
    var d, segs := Versions.FindDot(id, 0), Versions.Split(id);
    assert segs[0] == id[..d];
    assert IdSegment(segs[0]);
    if d < |id| {
      var rest := id[d + 1..];
      forall k | 0 <= k < |Versions.Split(rest)|
        ensures IdSegment(Versions.Split(rest)[k])
      {
        assert Versions.Split(rest)[k] == segs[k + 1];
      }
      IdChars(rest);
      assert id == id[..d] + ['.'] + rest;
    } else {
      assert id[..d] == id;
    }
  }

  /** Character by character: letters, digits and hyphens, and at least one dot, none of
      them at an end or beside another. */
  predicate IsDotted(id: string) {
    && 0 < |id| <= 255 && (exists k :: 0 <= k < |id| && id[k] == '.')
    && (forall k :: 0 <= k < |id| ==> IsPlaced(id, k))
  }

  predicate IsPlaced(id: string, k: nat)
    requires k < |id|
  {
    if id[k] == '.' then 0 < k < |id| - 1 && id[k - 1] != '.'
    else 'a' <= id[k] <= 'z' || 'A' <= id[k] <= 'Z' || '0' <= id[k] <= '9' || id[k] == '-'
  }

  /** Every component from position `p` on is a segment. */
  ghost predicate SegmentsFrom(id: string, p: nat)
    requires p <= |id|
  {
    forall k :: 0 <= k < |Versions.Split(id[p..])| ==> IdSegment(Versions.Split(id[p..])[k])
  }

  lemma SegmentsStep(id: string, p: nat)
    requires p <= |id|
    ensures var d := Versions.FindDot(id, p);
      SegmentsFrom(id, p) <==> IdSegment(id[p..d]) && (d < |id| ==> SegmentsFrom(id, d + 1))
    ensures var d := Versions.FindDot(id, p);
      |Versions.Split(id[p..])| == 1 + if d < |id| then |Versions.Split(id[d + 1..])| else 0
  {
    hide Versions.Split, Versions.FindDot, IdSegment;
    var d := Versions.FindDot(id, p);
    Versions.DotFromHere(id, p);
    Versions.SplitAt(id, p, d);
    var all := Versions.Split(id[p..]);
    assert all[0] == id[p..d];
    if d < |id| {
      assert all[1..] == Versions.Split(id[d + 1..]);
      assert forall k :: 0 < k < |all| ==> all[k] == all[1..][k - 1];
      if SegmentsFrom(id, p) {
        assert forall k :: 0 <= k < |all[1..]| ==> all[1..][k] == all[k + 1];
      }
    }
  }

  /** From the begin of a segment on. */
  predicate PlacedOnwards(id: string, p: nat) {
    p < |id| && id[p] != '.' && forall k :: p <= k < |id| ==> IsPlaced(id, k)
  }

  lemma PlacedStep(id: string, p: nat, d: nat)
    requires p <= d <= |id| && (p == 0 || id[p - 1] == '.') && '.' !in id[p..d] && (d < |id| ==> id[d] == '.')
    ensures PlacedOnwards(id, p) <==> IdSegment(id[p..d]) && (d < |id| ==> PlacedOnwards(id, d + 1))
  {
    forall k | p <= k < d ensures id[k] in id[p..d] {
      assert id[k] == id[p..d][k - p];
    }
    if IdSegment(id[p..d]) {
      assert p < d && id[p] in id[p..d] && id[d - 1] in id[p..d];
      assert forall k :: p <= k < d ==> IsPlaced(id, k);
      if d < |id| && PlacedOnwards(id, d + 1) {
        assert IsPlaced(id, d);
      }
    }
    if PlacedOnwards(id, p) {
      assert p < d;
      forall c | c in id[p..d] ensures IdChar(c) {
        var k :| 0 <= k < d - p && id[p..d][k] == c;
        assert IsPlaced(id, p + k);
      }
      if d < |id| {
        assert IsPlaced(id, d) && IsPlaced(id, d + 1);
      }
    }
  }

  lemma {:induction false} PlacedFrom(id: string, p: nat)
    requires p <= |id| && (p == 0 || id[p - 1] == '.')
    ensures SegmentsFrom(id, p) <==> PlacedOnwards(id, p)
    decreases |id| - p
  {
    hide Versions.Split, SegmentsFrom, PlacedOnwards, IdSegment;
    var d := Versions.FindDot(id, p);
    SegmentsStep(id, p);
    Versions.NoDotBefore(id, p);
    PlacedStep(id, p, d);
    if d < |id| {
      PlacedFrom(id, d + 1);
    }
  }

  /** An id is valid exactly if it is well-formed character by character. */
  lemma ValidIdExact(id: string)
    ensures ValidId(id) <==> IsDotted(id)
  {
    hide Versions.Split, SegmentsFrom, IsPlaced;
    assert id[0..] == id;
    if 0 < |id| <= 255 {
      WholeId(id);
    }
  }

  lemma WholeId(id: string)
    requires 0 < |id| <= 255
    ensures (forall k :: 0 <= k < |Versions.Split(id)| ==> IdSegment(Versions.Split(id)[k])) <==>
      forall k :: 0 <= k < |id| ==> IsPlaced(id, k)
    ensures |Versions.Split(id)| >= 2 <==> exists k :: 0 <= k < |id| && id[k] == '.'
  {
    hide Versions.Split, Versions.FindDot;
    var d := Versions.FindDot(id, 0);
    assert id[0..] == id;
    PlacedFrom(id, 0);
    SegmentsStep(id, 0);
    Versions.NoDotBefore(id, 0);
    assert IsPlaced(id, 0) ==> id[0] != '.';
    if d < |id| {
      assert id[d] == '.';
    } else {
      assert forall k :: 0 <= k < |id| ==> id[k] == id[0..d][k];
    }
  }

  /** `app_id_is_valid`. */
  method IsValidAppId(id: string) returns (valid: bool)
    ensures valid <==> ValidId(id)
    ensures valid <==> IsDotted(id)
  {
    ValidIdExact(id);
    hide Versions.Split, Versions.FindDot, IdSegment, IsDotted;
    var ok, segments, start, more := id != "" && |id| <= 255, 0, 0, true;
    ghost var all := Versions.Split(id);
    assert id[0..] == id;
    while ok && more
      invariant start <= |id| && segments <= |all|
      invariant ok ==> Versions.Rest(id, start, more) == all[segments..]
      invariant ok ==> 0 < |id| <= 255 && forall k :: 0 <= k < segments ==> IdSegment(all[k])
      invariant !ok ==> !ValidId(id)
      decreases ok, more, |id| - start
    {
      Versions.SplitRest(id, start);
      var end := Versions.FindDot(id, start);
      assert all[segments..][0] == all[segments] == id[start..end];
      assert all[segments..][1..] == all[segments + 1..];
      ok := IdSegment(id[start..end]);
      segments := segments + 1;
      more := end != |id|;
      if more {
        start := end + 1;
      }
    }
    valid := ok && segments >= 2;
  }
}
