/** Occurrences of a query token in the folded text of a string, their
    translation to ranges of the original string (`findRangesForToken`),
    and the merging of those ranges (`mergeRanges`). */
module Ranges {
  import opened Text
  import opened Normalize
  import opened Sorting

  /** A half-open interval `[lo, hi)` of positions of an original string
      (the source's two-element arrays `[start, end]`). */
  datatype Range = Range(lo: nat, hi: nat)

  function Start(r: Range): int { r.lo }

  /** Position `x` lies in one of the ranges. */
  predicate Covered(rs: seq<Range>, x: int)
  {
    rs != [] && (Covered(rs[..|rs| - 1], x) || rs[|rs| - 1].lo <= x < rs[|rs| - 1].hi)
  }

  /** The same, stated directly. */
  lemma {:induction false} CoveredIff(rs: seq<Range>, x: int)
    ensures Covered(rs, x) <==> exists k :: 0 <= k < |rs| && rs[k].lo <= x < rs[k].hi
  {
    if rs != [] {
      var init := rs[..|rs| - 1];
      CoveredIff(init, x);
      if exists k :: 0 <= k < |rs| && rs[k].lo <= x < rs[k].hi {
        var k :| 0 <= k < |rs| && rs[k].lo <= x < rs[k].hi;
        if k < |init| {
          assert init[k] == rs[k];
        }
      }
    }
  }

  /** The non-overlapping occurrences of `t` found by repeated `indexOf`,
      each search resuming right after the previous occurrence. */
  function Matches(text: string, t: string, from: nat): seq<nat>
    requires |t| > 0
    decreases |text| - from
  {
    var p := IndexOf(text, t, from);
    if p < 0 then [] else [p as nat] + Matches(text, t, p + |t|)
  }

  /** The occurrences found are real occurrences, at or after `from`, in
      increasing order and without overlap. */
  lemma {:induction false} MatchesShape(text: string, t: string, from: nat)
    requires |t| > 0
    ensures forall k :: 0 <= k < |Matches(text, t, from)| ==>
      from <= Matches(text, t, from)[k] && OccursAt(text, t, Matches(text, t, from)[k])
    ensures forall k :: 0 <= k < |Matches(text, t, from)| - 1 ==>
      Matches(text, t, from)[k] + |t| <= Matches(text, t, from)[k + 1]
    decreases |text| - from
  {
    var p := IndexOf(text, t, from);
    if p >= 0 {
      MatchesShape(text, t, p + |t|);
      var ps := Matches(text, t, from);
      var rest := Matches(text, t, p + |t|);
      assert ps == [p as nat] + rest;
      forall k | 0 <= k < |ps| ensures from <= ps[k] && OccursAt(text, t, ps[k]) {
        if k > 0 { assert ps[k] == rest[k - 1]; }
      }
      forall k | 0 <= k < |ps| - 1 ensures ps[k] + |t| <= ps[k + 1] {
        if k > 0 { assert ps[k] == rest[k - 1]; }
      }
    }
  }

  /** No occurrence is missed: every occurrence at or after `from` starts
      inside one of the occurrences found. */
  lemma {:induction false} MatchesCover(text: string, t: string, from: nat, q: nat)
    requires |t| > 0
    requires from <= q && OccursAt(text, t, q)
    ensures exists k :: (0 <= k < |Matches(text, t, from)| &&
      Matches(text, t, from)[k] <= q < Matches(text, t, from)[k] + |t|)
    decreases |text| - from
  {
    var p := IndexOf(text, t, from);
    var ps := Matches(text, t, from);
    assert p >= 0;
    assert ps[0] == p;
    if q >= p + |t| {
      MatchesCover(text, t, p + |t|, q);
      var rest := Matches(text, t, p + |t|);
      var k :| 0 <= k < |rest| && rest[k] <= q < rest[k] + |t|;
      assert ps[k + 1] == rest[k];
    }
  }

  /** An occurrence at `p` of a token of length `len`, translated to
      `[mapping[p], mapping[p + len - 1] + 1)`; never used outside the map. */
  function RangeAt(m: seq<nat>, p: nat, len: nat): Range
  {
    if 0 < len && p + len <= |m| then Range(m[p], m[p + len - 1] + 1) else Range(0, 0)
  }

  /** Each occurrence translated. */
  function RangesAt(m: seq<nat>, ps: seq<nat>, len: nat): (rs: seq<Range>)
    ensures |rs| == |ps|
  {
    if ps == [] then [] else [RangeAt(m, ps[0], len)] + RangesAt(m, ps[1..], len)
  }

  lemma MatchesStep(text: string, t: string, from: nat)
    requires |t| > 0 && IndexOf(text, t, from) >= 0
    ensures Matches(text, t, from)
      == [IndexOf(text, t, from) as nat] + Matches(text, t, IndexOf(text, t, from) + |t|)
  {
  }

  lemma {:induction false} RangesAtIndex(m: seq<nat>, ps: seq<nat>, len: nat)
    ensures forall k :: 0 <= k < |ps| ==> RangesAt(m, ps, len)[k] == RangeAt(m, ps[k], len)
  {
    if ps != [] {
      RangesAtIndex(m, ps[1..], len);
    }
  }

  /** One step of the scan: the first occurrence found is recorded, the
      rest of the scan resumes after it. */
  lemma ScanStep(done: seq<Range>, text: string, m: seq<nat>, t: string, from: nat, all: seq<Range>)
    requires |t| > 0 && IndexOf(text, t, from) >= 0
    requires done + RangesAt(m, Matches(text, t, from), |t|) == all
    ensures done + [RangeAt(m, IndexOf(text, t, from), |t|)]
      + RangesAt(m, Matches(text, t, IndexOf(text, t, from) + |t|), |t|) == all
  {
    MatchesStep(text, t, from);
    var p := IndexOf(text, t, from);
    var tail := RangesAt(m, Matches(text, t, p + |t|), |t|);
    assert RangesAt(m, Matches(text, t, from), |t|) == [RangeAt(m, p, |t|)] + tail;
    assert done + [RangeAt(m, p, |t|)] + tail == done + ([RangeAt(m, p, |t|)] + tail);
  }

  /** The ranges `findRangesForToken` returns for a non-empty token. */
  function TokenRanges(f: CharFolding, original: string, t: string): seq<Range>
    requires |t| > 0
  {
    RangesAt(Origins(f, original), Matches(Fold(f, original), t, 0), |t|)
  }

  /** `findRangesForToken` (script.js): builds the position map, then scans
      it for the token. The caller passes only non-empty tokens; with an
      empty one the scan would not advance. */
  method FindRangesForToken(f: CharFolding, original: string, token: string)
    returns (ranges: seq<Range>)
    requires |token| > 0
    ensures ranges == TokenRanges(f, original, token)
  {
    var pm := BuildNormalizedMap(f, original);
    PositionMapShape(f, original);
    ranges := ScanRanges(pm.normalized, pm.mapping, token);
  }

  /** The scanning loop of `findRangesForToken`: `indexOf` from `start`,
      record the mapped range, resume right after the occurrence. */
  method ScanRanges(normalized: string, mapping: seq<nat>, token: string)
    returns (ranges: seq<Range>)
    requires |token| > 0 && |mapping| == |normalized|
    ensures ranges == RangesAt(mapping, Matches(normalized, token, 0), |token|)
  {
    ghost var all := Matches(normalized, token, 0);
    ranges := [];
    var start: nat := 0;
    while true
      invariant start <= |normalized|
      invariant ranges + RangesAt(mapping, Matches(normalized, token, start), |token|)
             == RangesAt(mapping, all, |token|)
      decreases |normalized| - start
    {
      var idx := IndexOf(normalized, token, start);
      if idx == -1 {
        break;
      }
      var origStart := mapping[idx];
      var origEnd := mapping[idx + |token| - 1] + 1;
      assert Range(origStart, origEnd) == RangeAt(mapping, idx, |token|);
      ScanStep(ranges, normalized, mapping, token, start, RangesAt(mapping, all, |token|));
      ranges := ranges + [Range(origStart, origEnd)];
      start := idx + |token|;
    }
    assert ranges + [] == ranges;
  }

  /** What the ranges of the occurrences `ps` of a token of length `len`
      satisfy: each is a non-empty part of `[0, n)` holding the original
      index of every folded character of its occurrence, and each starts no
      earlier than the start, and no earlier than the last character, of the
      previous one. */
  predicate WellPlaced(rs: seq<Range>, m: seq<nat>, ps: seq<nat>, len: nat, n: nat)
  {
    && |rs| == |ps|
    && (forall k :: 0 <= k < |rs| ==> rs[k].lo < rs[k].hi <= n)
    && (forall k, q :: 0 <= k < |rs| && ps[k] <= q < ps[k] + len && q < |m| ==>
          rs[k].lo <= m[q] < rs[k].hi)
    && (forall k :: 0 <= k < |rs| - 1 ==> rs[k].lo <= rs[k + 1].lo && rs[k].hi <= rs[k + 1].lo + 1)
  }

  /** Ranges that do not overlap. */
  predicate Disjoint(rs: seq<Range>)
  {
    forall k :: 0 <= k < |rs| - 1 ==> rs[k].hi <= rs[k + 1].lo
  }

  lemma RangesAtShape(m: seq<nat>, ps: seq<nat>, len: nat, n: nat)
    requires len > 0
    requires forall k :: 0 <= k < |ps| ==> ps[k] + len <= |m|
    requires forall k :: 0 <= k < |ps| - 1 ==> ps[k] + len <= ps[k + 1]
    requires forall k :: 0 <= k < |m| ==> m[k] < n
    requires forall k, j :: 0 <= k <= j < |m| ==> m[k] <= m[j]
    ensures WellPlaced(RangesAt(m, ps, len), m, ps, len, n)
  {
    var rs := RangesAt(m, ps, len);
    RangesAtIndex(m, ps, len);
    forall k | 0 <= k < |rs| - 1
      ensures rs[k].lo <= rs[k + 1].lo && rs[k].hi <= rs[k + 1].lo + 1
    {
      assert ps[k] + len - 1 < ps[k + 1];
    }
  }

  lemma RangesAtDisjoint(m: seq<nat>, ps: seq<nat>, len: nat)
    requires len > 0
    requires forall k :: 0 <= k < |ps| ==> ps[k] + len <= |m|
    requires forall k :: 0 <= k < |ps| - 1 ==> ps[k] + len <= ps[k + 1]
    requires forall k, j :: 0 <= k < j < |m| ==> m[k] < m[j]
    ensures Disjoint(RangesAt(m, ps, len))
  {
    var rs := RangesAt(m, ps, len);
    RangesAtIndex(m, ps, len);
    forall k | 0 <= k < |rs| - 1 ensures rs[k].hi <= rs[k + 1].lo {
      assert ps[k] + len - 1 < ps[k + 1];
    }
  }

  /** Shape of the ranges of one token: see `WellPlaced`. When every
      character folds to at most one character they are also disjoint. */
  lemma TokenRangesShape(f: CharFolding, original: string, t: string)
    requires |t| > 0
    ensures WellPlaced(TokenRanges(f, original, t), Origins(f, original),
                       Matches(Fold(f, original), t, 0), |t|, |original|)
    ensures (forall c :: c in original ==> |f.decompose(c)| <= 1) ==> Disjoint(TokenRanges(f, original, t))
  {
    var m := Origins(f, original);
    var ps := Matches(Fold(f, original), t, 0);
    MatchesShape(Fold(f, original), t, 0);
    RangesAtShape(m, ps, |t|, |original|);
    if forall c :: c in original ==> |f.decompose(c)| <= 1 {
      OriginsStrict(f, original);
      RangesAtDisjoint(m, ps, |t|);
    }
  }

  /** When no character decomposes into several, distinct folded
      characters come from distinct original characters. */
  lemma {:induction false} OriginsStrict(f: CharFolding, s: string)
    requires forall c :: c in s ==> |f.decompose(c)| <= 1
    ensures forall k, j :: 0 <= k < j < |Origins(f, s)| ==> Origins(f, s)[k] < Origins(f, s)[j]
    decreases |s|
  {
    if s != [] {
      var init := s[..|s| - 1];
      assert forall c :: c in init ==> c in s;
      OriginsStrict(f, init);
      var m := Origins(f, init);
      var tail := seq(|f.decompose(s[|s| - 1])|, _ => |s| - 1);
      assert Origins(f, s) == m + tail;
      assert |tail| <= 1;
    }
  }

  /** One step of the merging pass: a range that starts at or before the
      end of the last merged range extends it, any other range is pushed. */
  function MergeInto(out: seq<Range>, cur: Range): (r: seq<Range>)
    ensures r != []
  {
    if out == [] then [cur]
    else
      var last := out[|out| - 1];
      if cur.lo <= last.hi then out[..|out| - 1] + [Range(last.lo, Max(last.hi, cur.hi))]
      else out + [cur]
  }

  /** Merging of ranges already sorted by start, one range at a time. */
  function MergeSorted(rs: seq<Range>): (out: seq<Range>)
    ensures (out == []) == (rs == [])
    decreases |rs|
  {
    if rs == [] then [] else MergeInto(MergeSorted(rs[..|rs| - 1]), rs[|rs| - 1])
  }

  /** `mergeRanges` (script.js): empty for no ranges; otherwise a stable
      sort by start followed by the merging pass over the sorted copy. */
  method MergeRanges(ranges: seq<Range>) returns (out: seq<Range>)
    ensures out == MergeSorted(SortBy(ranges, Start))
  {
    if |ranges| == 0 {
      return [];
    }
    var sorted := SortBy(ranges, Start);
    assert |sorted| == |ranges| by {
      assert |multiset(sorted)| == |multiset(ranges)|;
    }
    out := [sorted[0]];
    assert sorted[..1][..0] == [];
    for i := 1 to |sorted|
      invariant out == MergeSorted(sorted[..i])
      invariant out != []
    {
      var cur := sorted[i];
      var last := out[|out| - 1];
      assert sorted[..i + 1][..i] == sorted[..i];
      if cur.lo <= last.hi {
        out := out[..|out| - 1] + [Range(last.lo, Max(last.hi, cur.hi))];
      } else {
        out := out + [cur];
      }
    }
    assert sorted[..|sorted|] == sorted;
  }

  /** Non-empty ranges in increasing order with a gap between neighbours. */
  predicate Separated(rs: seq<Range>)
  {
    && (forall k :: 0 <= k < |rs| ==> rs[k].lo < rs[k].hi)
    && (forall k :: 0 <= k < |rs| - 1 ==> rs[k].hi < rs[k + 1].lo)
  }

  lemma SeparatedSnoc(a: seq<Range>, r: Range)
    requires Separated(a) && r.lo < r.hi
    requires a != [] ==> a[|a| - 1].hi < r.lo
    ensures Separated(a + [r])
  {
    var b := a + [r];
    forall k | 0 <= k < |b| - 1 ensures b[k].hi < b[k + 1].lo {
      assert b[k] == a[k];
      if k + 1 < |a| {
        assert b[k + 1] == a[k + 1];
      }
    }
  }

  lemma CoveredSnoc(a: seq<Range>, r: Range, x: int)
    ensures Covered(a + [r], x) <==> Covered(a, x) || r.lo <= x < r.hi
  {
    assert (a + [r])[..|a|] == a;
  }

  /** Every range ends at or before `bound`. */
  predicate EndsWithin(rs: seq<Range>, bound: nat)
  {
    forall k :: 0 <= k < |rs| ==> rs[k].hi <= bound
  }

  /** A merging step keeps the ranges separated when the new range is
      non-empty and starts no earlier than the last merged range. */
  lemma MergeIntoSeparated(m: seq<Range>, cur: Range)
    requires Separated(m) && cur.lo < cur.hi
    requires m != [] ==> m[|m| - 1].lo <= cur.lo
    ensures Separated(MergeInto(m, cur))
  {
    if m == [] {
      SeparatedSnoc([], cur);
    } else {
      var last := m[|m| - 1];
      var front := m[..|m| - 1];
      assert m == front + [last];
      if cur.lo <= last.hi {
        assert front != [] ==> front[|front| - 1] == m[|m| - 2];
        SeparatedSnoc(front, Range(last.lo, Max(last.hi, cur.hi)));
      } else {
        SeparatedSnoc(m, cur);
      }
    }
  }

  /** A merging step covers what was covered and the new range, and
      nothing else. */
  lemma MergeIntoCovers(m: seq<Range>, cur: Range, x: int)
    requires m != [] ==> m[|m| - 1].lo <= cur.lo
    ensures Covered(MergeInto(m, cur), x) <==> Covered(m, x) || cur.lo <= x < cur.hi
  {
    if m == [] {
      CoveredSnoc([], cur, x);
    } else {
      var last := m[|m| - 1];
      var front := m[..|m| - 1];
      assert m == front + [last];
      CoveredSnoc(front, last, x);
      if cur.lo <= last.hi {
        CoveredSnoc(front, Range(last.lo, Max(last.hi, cur.hi)), x);
      } else {
        CoveredSnoc(m, cur, x);
      }
    }
  }

  /** A merging step ends no range beyond a bound both sides respect. */
  lemma MergeIntoBounded(m: seq<Range>, cur: Range, bound: nat)
    requires EndsWithin(m, bound) && cur.hi <= bound
    ensures EndsWithin(MergeInto(m, cur), bound)
  {
    if m == [] {
      EndsWithinSnoc([], cur, bound);
    } else {
      var last := m[|m| - 1];
      var front := m[..|m| - 1];
      assert m == front + [last];
      if cur.lo <= last.hi {
        assert EndsWithin(front, bound);
        EndsWithinSnoc(front, Range(last.lo, Max(last.hi, cur.hi)), bound);
      } else {
        EndsWithinSnoc(m, cur, bound);
      }
    }
  }

  /** Merging sorted non-empty ranges gives separated ranges: touching
      ranges are merged too, so every next start lies beyond the previous
      end. */
  lemma {:induction false} MergeSeparated(rs: seq<Range>)
    requires SortedBy(rs, Start)
    requires forall k :: 0 <= k < |rs| ==> rs[k].lo < rs[k].hi
    ensures Separated(MergeSorted(rs))
    decreases |rs|
  {
    if rs != [] {
      var init := rs[..|rs| - 1];
      var cur := rs[|rs| - 1];
      MergeSeparated(init);
      MergeLastStart(init);
      if init != [] {
        assert Start(init[|init| - 1]) <= Start(cur);
      }
      MergeIntoSeparated(MergeSorted(init), cur);
    }
  }

  lemma EndsWithinSnoc(a: seq<Range>, r: Range, bound: nat)
    requires EndsWithin(a, bound) && r.hi <= bound
    ensures EndsWithin(a + [r], bound)
  {
    var b := a + [r];
    forall k | 0 <= k < |b| ensures b[k].hi <= bound {
      if k < |a| {
        assert b[k] == a[k];
      }
    }
  }

  /** No merged range ends beyond a bound of the input ranges. */
  lemma {:induction false} MergeBounded(rs: seq<Range>, bound: nat)
    requires EndsWithin(rs, bound)
    ensures EndsWithin(MergeSorted(rs), bound)
    decreases |rs|
  {
    if rs != [] {
      var init := rs[..|rs| - 1];
      assert EndsWithin(init, bound);
      MergeBounded(init, bound);
      MergeIntoBounded(MergeSorted(init), rs[|rs| - 1], bound);
    }
  }

  /** The last merged range starts no later than the last input range. */
  lemma {:induction false} MergeLastStart(rs: seq<Range>)
    requires SortedBy(rs, Start)
    ensures MergeSorted(rs) != [] ==> MergeSorted(rs)[|MergeSorted(rs)| - 1].lo <= rs[|rs| - 1].lo
    decreases |rs|
  {
    if |rs| > 1 {
      var init := rs[..|rs| - 1];
      MergeLastStart(init);
      assert Start(init[|init| - 1]) <= Start(rs[|rs| - 1]);
    }
  }

  /** Merging keeps exactly the positions covered: a position lies in a
      merged range if and only if it lies in an input range. */
  lemma {:induction false} MergeCoversAt(rs: seq<Range>, x: int)
    requires SortedBy(rs, Start)
    ensures Covered(MergeSorted(rs), x) <==> Covered(rs, x)
    decreases |rs|
  {
    if rs != [] {
      var init := rs[..|rs| - 1];
      var cur := rs[|rs| - 1];
      MergeCoversAt(init, x);
      MergeLastStart(init);
      if init != [] {
        assert Start(init[|init| - 1]) <= Start(cur);
      }
      MergeIntoCovers(MergeSorted(init), cur, x);
    }
  }

  /** What `mergeRanges` promises for non-empty ranges inside `[0, bound)`:
      the merged ranges are separated, inside the bound, and cover exactly
      the positions the input covers. */
  lemma MergeRangesShape(ranges: seq<Range>, bound: nat, x: int)
    requires forall k :: 0 <= k < |ranges| ==> ranges[k].lo < ranges[k].hi <= bound
    ensures Separated(MergeSorted(SortBy(ranges, Start)))
    ensures EndsWithin(MergeSorted(SortBy(ranges, Start)), bound)
    ensures Covered(MergeSorted(SortBy(ranges, Start)), x) <==> Covered(ranges, x)
  {
    var sorted := SortBy(ranges, Start);
    SortBySorted(ranges, Start);
    forall k | 0 <= k < |sorted| ensures sorted[k].lo < sorted[k].hi <= bound {
      assert sorted[k] in multiset(ranges);
    }
    MergeSeparated(sorted);
    MergeBounded(sorted, bound);
    MergeCoversAt(sorted, x);
    CoveredIff(sorted, x);
    CoveredIff(ranges, x);
    if Covered(sorted, x) {
      var k :| 0 <= k < |sorted| && sorted[k].lo <= x < sorted[k].hi;
      assert sorted[k] in multiset(ranges);
    }
    if Covered(ranges, x) {
      var k :| 0 <= k < |ranges| && ranges[k].lo <= x < ranges[k].hi;
      assert ranges[k] in multiset(sorted);
    }
  }
}
