/** Right-to-left span rewriting. Both the backend's `mask` and the frontend's
    `highlightText` walk their spans by descending start and, for each one, rebuild
    the text as `prefix + replacement + suffix`, so that the offsets of the spans
    still to come (which lie further left) stay valid. An `Edit` is one such step;
    `ApplyEdits` is the loop; `Rebuild` assembles the same result directly from the
    original text and is the reference the loop is proved against. */
module Splicing {
  import opened Seqs

  datatype Edit = Edit(start: int, end: int, insert: string)

  /** `text[:start] + insert + text[end:]` (Python), or
      `text.slice(0, start) + insert + text.slice(end)` (JavaScript). */
  function Splice(text: string, e: Edit): (r: string)
    ensures 0 <= e.start <= e.end <= |text| ==> r == text[..e.start] + e.insert + text[e.end..]
  {
    Slice(text, 0, e.start) + e.insert + Slice(text, e.end, |text|)
  }

  /** The edits applied one after the other, each to the result of the previous one. */
  function ApplyEdits(text: string, es: seq<Edit>): string
    decreases |es|
  {
    if es == [] then text else ApplyEdits(Splice(text, es[0]), es[1..])
  }

  predicate WithinText(e: Edit, n: int) {
    InBounds(e.start, e.end, n)
  }

  /** The first edit lies inside a text of length `n`, and the remaining edits all
      lie before its start, descending in the same way. */
  predicate DescendingDisjoint(es: seq<Edit>, n: int)
    decreases |es|
  {
    es == [] || (WithinText(es[0], n) && DescendingDisjoint(es[1..], es[0].start))
  }

  /** The pairwise reading: every edit lies inside the text, and every edit ends at
      or before the start of each edit applied before it. */
  predicate PairwiseDescending(es: seq<Edit>, n: int) {
    && (forall i :: 0 <= i < |es| ==> WithinText(es[i], n))
    && (forall i, j :: 0 <= i < j < |es| ==> es[j].end <= es[i].start)
  }

  lemma {:induction false} DescendingDisjointIsPairwise(es: seq<Edit>, n: int)
    ensures DescendingDisjoint(es, n) <==> PairwiseDescending(es, n)
    decreases |es|
  {
    if es != [] {
      var tail := es[1..];
      DescendingDisjointIsPairwise(tail, es[0].start);
      assert forall i :: 0 <= i < |tail| ==> tail[i] == es[i + 1];
      if PairwiseDescending(es, n) {
        assert forall i :: 0 <= i < |tail| ==> WithinText(tail[i], es[0].start) by {
          forall i | 0 <= i < |tail|
            ensures WithinText(tail[i], es[0].start)
          {
            assert es[0 + 1 + i] == tail[i];
          }
        }
      }
      if DescendingDisjoint(es, n) {
        forall i | 0 <= i < |es|
          ensures WithinText(es[i], n)
        {
          if i > 0 {
            assert es[i] == tail[i - 1];
          }
        }
        forall i, j | 0 <= i < j < |es|
          ensures es[j].end <= es[i].start
        {
          assert es[j] == tail[j - 1];
          if i > 0 {
            assert es[i] == tail[i - 1];
          }
        }
      }
    }
  }

  lemma DescendingDisjointTail(es: seq<Edit>, n: int)
    requires es != [] && DescendingDisjoint(es, n)
    ensures DescendingDisjoint(es[1..], es[0].start)
  {
  }

  /** The `i`-th edit lies inside the text, ends at or before the start of the edit
      just before it, and the edits after it lie before its start. */
  lemma {:induction false} DescendingDisjointSuffix(es: seq<Edit>, n: int, i: nat)
    requires DescendingDisjoint(es, n) && i < |es|
    ensures WithinText(es[i], n)
    ensures DescendingDisjoint(es[i + 1..], es[i].start)
    ensures i > 0 ==> es[i].end <= es[i - 1].start
    decreases i
  {
    if i > 0 {
      var tail := es[1..];
      DescendingDisjointSuffix(tail, es[0].start, i - 1);
      assert tail[i - 1] == es[i];
      assert tail[i..] == es[i + 1..];
      if i > 1 {
        assert tail[i - 2] == es[i - 1];
      }
    }
  }

  /** The result of the edits, assembled from the pieces of the original text. */
  function Rebuild(text: string, es: seq<Edit>): string
    requires DescendingDisjoint(es, |text|)
    decreases |es|
  {
    if es == [] then text
    else
      DescendingDisjointTail(es, |text|);
      Rebuild(text[..es[0].start], es[1..]) + es[0].insert + text[es[0].end..]
  }

  lemma {:induction false} ApplyEditsSnoc(text: string, es: seq<Edit>, e: Edit)
    ensures ApplyEdits(text, es + [e]) == Splice(ApplyEdits(text, es), e)
    decreases |es|
  {
    if es == [] {
      assert [e][1..] == [];
    } else {
      assert (es + [e])[1..] == es[1..] + [e];
      ApplyEditsSnoc(Splice(text, es[0]), es[1..], e);
    }
  }

  /** Edits that stay inside `p` leave whatever follows `p` alone. */
  lemma {:induction false} ApplyEditsLocal(p: string, t: string, es: seq<Edit>)
    requires DescendingDisjoint(es, |p|)
    ensures ApplyEdits(p + t, es) == ApplyEdits(p, es) + t
    decreases |es|
  {
    if es != [] {
      var e := es[0];
      var p' := p[..e.start] + e.insert + p[e.end..];
      assert Splice(p + t, e) == p' + t by {
        assert (p + t)[..e.start] == p[..e.start];
        assert (p + t)[e.end..] == p[e.end..] + t;
      }
      DescendingDisjointTail(es, |p|);
      assert DescendingDisjoint(es[1..], |p'|);
      ApplyEditsLocal(p', t, es[1..]);
    }
  }

  /** The right-to-left loop computes the reference result. */
  lemma {:induction false} ApplyEditsIsRebuild(text: string, es: seq<Edit>)
    requires DescendingDisjoint(es, |text|)
    ensures ApplyEdits(text, es) == Rebuild(text, es)
    decreases |es|
  {
    if es != [] {
      var e := es[0];
      DescendingDisjointTail(es, |text|);
      var head := text[..e.start];
      assert text[..e.start] + e.insert + text[e.end..] == head + (e.insert + text[e.end..]);
      ApplyEditsLocal(head, e.insert + text[e.end..], es[1..]);
      ApplyEditsIsRebuild(head, es[1..]);
      assert ApplyEdits(text, es) == Rebuild(head, es[1..]) + (e.insert + text[e.end..]);
    }
  }

  /** Where the `i`-th edit's text ends up: after the rebuilt text to its left, and
      followed by the original text between its end and the start of the edit
      applied just before it (or the end of the text, for the first edit). */
  function GapEnd(text: string, es: seq<Edit>, i: nat): int
    requires i < |es|
  {
    if i == 0 then |text| else es[i - 1].start
  }

  /** `r` starts with `left`, then `ins`, then at least `gap`. */
  predicate Placed(r: string, left: string, ins: string, gap: string) {
    && |left| + |ins| <= |r|
    && r[..|left|] == left
    && r[|left|..|left| + |ins|] == ins
    && gap <= r[|left| + |ins|..]
  }

  lemma PlacedConcat(left: string, ins: string, gap: string)
    ensures Placed(left + ins + gap, left, ins, gap)
  {
    var r := left + ins + gap;
    assert r[..|left|] == left;
    assert r[|left|..|left| + |ins|] == ins;
    assert r[|left| + |ins|..] == gap;
  }

  lemma PlacedExtend(r: string, left: string, ins: string, gap: string, more: string)
    requires Placed(r, left, ins, gap)
    ensures Placed(r + more, left, ins, gap)
  {
    var at := |left| + |ins|;
    assert (r + more)[..|left|] == r[..|left|];
    assert (r + more)[|left|..at] == r[|left|..at];
    assert (r + more)[at..] == r[at..] + more;
  }

  lemma {:induction false} RebuildPlacesEdit(text: string, es: seq<Edit>, i: nat)
    requires DescendingDisjoint(es, |text|) && i < |es|
    ensures WithinText(es[i], |text|)
    ensures DescendingDisjoint(es[i + 1..], es[i].start)
    ensures es[i].end <= GapEnd(text, es, i) <= |text|
    ensures Placed(Rebuild(text, es), Rebuild(text[..es[i].start], es[i + 1..]), es[i].insert,
                   text[es[i].end..GapEnd(text, es, i)])
    decreases i, 1
  {
    DescendingDisjointSuffix(es, |text|, i);
    if i == 0 {
      var e := es[0];
      var head := text[..e.start];
      assert Rebuild(text, es) == Rebuild(head, es[1..]) + e.insert + text[e.end..];
      PlacedConcat(Rebuild(head, es[1..]), e.insert, text[e.end..]);
    } else {
      RebuildPlacesLater(text, es, i);
    }
  }

  /** The inductive step of RebuildPlacesEdit: a later edit sits inside the
      rebuilt text to the left of the first one. */
  lemma {:induction false} RebuildPlacesLater(text: string, es: seq<Edit>, i: nat)
    requires DescendingDisjoint(es, |text|) && 0 < i < |es|
    ensures WithinText(es[i], |text|)
    ensures DescendingDisjoint(es[i + 1..], es[i].start)
    ensures es[i].end <= GapEnd(text, es, i) <= |text|
    ensures Placed(Rebuild(text, es), Rebuild(text[..es[i].start], es[i + 1..]), es[i].insert,
                   text[es[i].end..GapEnd(text, es, i)])
    decreases i, 0
  {
    DescendingDisjointSuffix(es, |text|, i);
    var e := es[0];
    var head := text[..e.start];
    var tail := es[1..];
    RebuildPlacesEdit(head, tail, i - 1);
    assert tail[i - 1] == es[i];
    assert tail[i..] == es[i + 1..];
    assert head[..es[i].start] == text[..es[i].start];
    assert GapEnd(head, tail, i - 1) == GapEnd(text, es, i);
    var gap := text[es[i].end..GapEnd(text, es, i)];
    assert head[es[i].end..GapEnd(text, es, i)] == gap;
    var left := Rebuild(text[..es[i].start], es[i + 1..]);
    PlacedExtend(Rebuild(head, tail), left, es[i].insert, gap, e.insert + text[e.end..]);
    assert Rebuild(text, es) == Rebuild(head, tail) + (e.insert + text[e.end..]);
  }

  /** The frame of the right-to-left loop: each edit's text stands in the result
      right after the rebuilt text to its left and is followed by the original
      text up to the next span. For the last edit (the smallest start) the text to
      its left is the untouched prefix; for the first the text after it is the
      untouched suffix. */
  lemma ApplyEditsPlacesEdit(text: string, es: seq<Edit>, i: nat)
    requires DescendingDisjoint(es, |text|) && i < |es|
    ensures WithinText(es[i], |text|)
    ensures DescendingDisjoint(es[i + 1..], es[i].start)
    ensures es[i].end <= GapEnd(text, es, i) <= |text|
    ensures
      var left := Rebuild(text[..es[i].start], es[i + 1..]);
      var r := ApplyEdits(text, es);
      var at := |left| + |es[i].insert|;
      && at <= |r|
      && r[..|left|] == left
      && r[|left|..at] == es[i].insert
      && text[es[i].end..GapEnd(text, es, i)] <= r[at..]
  {
    ApplyEditsIsRebuild(text, es);
    RebuildPlacesEdit(text, es, i);
  }

  /** Where the `i`-th edit's text starts in the result: the length of the text
      rebuilt to its left. */
  function LeftLength(text: string, es: seq<Edit>, i: nat): nat
    requires DescendingDisjoint(es, |text|) && i < |es|
  {
    DescendingDisjointSuffix(es, |text|, i);
    |Rebuild(text[..es[i].start], es[i + 1..])|
  }

  /** The `i`-th edit's text stands in the result where the text rebuilt to its
      left ends. */
  lemma ApplyEditsPlacesInsert(text: string, es: seq<Edit>, i: nat)
    requires DescendingDisjoint(es, |text|) && i < |es|
    ensures WithinText(es[i], |text|)
    ensures LeftLength(text, es, i) + |es[i].insert| <= |ApplyEdits(text, es)|
    ensures ApplyEdits(text, es)[LeftLength(text, es, i)..LeftLength(text, es, i) + |es[i].insert|] == es[i].insert
  {
    ApplyEditsPlacesEdit(text, es, i);
  }

  /** Everything before the smallest edited start, and everything after the largest
      edited end, comes through unchanged. */
  lemma ApplyEditsKeepsOutside(text: string, es: seq<Edit>)
    requires DescendingDisjoint(es, |text|) && es != []
    ensures WithinText(es[|es| - 1], |text|) && WithinText(es[0], |text|)
    ensures var r := ApplyEdits(text, es);
      && text[..es[|es| - 1].start] <= r
      && |text| - es[0].end <= |r|
      && r[|r| - (|text| - es[0].end)..] == text[es[0].end..]
  {
    var n := |es| - 1;
    ApplyEditsPlacesEdit(text, es, n);
    assert es[n + 1..] == [];
    ApplyEditsIsRebuild(text, es);
  }

  predicate LengthPreserving(e: Edit) {
    |e.insert| == e.end - e.start
  }

  /** Position `k` lies inside the span of one of the edits. */
  predicate InSomeSpan(es: seq<Edit>, k: int) {
    exists i :: 0 <= i < |es| && es[i].start <= k < es[i].end
  }

  lemma {:induction false} RebuildSameLength(text: string, es: seq<Edit>)
    requires DescendingDisjoint(es, |text|) && PairwiseDescending(es, |text|)
    requires forall i :: 0 <= i < |es| ==> LengthPreserving(es[i])
    ensures |Rebuild(text, es)| == |text|
    ensures forall i :: 0 <= i < |es| ==> Rebuild(text, es)[es[i].start..es[i].end] == es[i].insert
    ensures forall k :: 0 <= k < |text| && !InSomeSpan(es, k) ==> Rebuild(text, es)[k] == text[k]
    decreases |es|
  {
    if es != [] {
      var e := es[0];
      var head := text[..e.start];
      var tail := es[1..];
      assert forall i :: 0 <= i < |tail| ==> tail[i] == es[i + 1];
      DescendingDisjointIsPairwise(tail, e.start);
      RebuildSameLength(head, tail);
      var left := Rebuild(head, tail);
      var r := Rebuild(text, es);
      assert r == left + (e.insert + text[e.end..]);
      forall i | 0 <= i < |es|
        ensures r[es[i].start..es[i].end] == es[i].insert
      {
        if i > 0 {
          assert es[i] == tail[i - 1];
          SliceOfLeft(left, e.insert + text[e.end..], es[i].start, es[i].end);
        }
      }
      forall k | 0 <= k < |text| && !InSomeSpan(es, k)
        ensures r[k] == text[k]
      {
        if k < e.start {
          assert forall i :: 0 <= i < |tail| ==> !(tail[i].start <= k < tail[i].end) by {
            forall i | 0 <= i < |tail|
              ensures !(tail[i].start <= k < tail[i].end)
            {
              assert tail[i] == es[i + 1];
            }
          }
          assert !InSomeSpan(tail, k);
          assert r[k] == left[k];
        }
      }
    }
  }

  /** When every replacement is exactly as long as the span it replaces, the loop
      leaves the length of the text alone, each span holds its replacement at its
      original offsets, and every character outside the spans is unchanged. */
  lemma ApplyEditsSameLength(text: string, es: seq<Edit>)
    requires PairwiseDescending(es, |text|)
    requires forall i :: 0 <= i < |es| ==> LengthPreserving(es[i])
    ensures |ApplyEdits(text, es)| == |text|
    ensures forall i :: 0 <= i < |es| ==> ApplyEdits(text, es)[es[i].start..es[i].end] == es[i].insert
    ensures forall k :: 0 <= k < |text| && !InSomeSpan(es, k) ==> ApplyEdits(text, es)[k] == text[k]
  {
    DescendingDisjointIsPairwise(es, |text|);
    ApplyEditsIsRebuild(text, es);
    RebuildSameLength(text, es);
  }
}
