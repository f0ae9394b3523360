/** The relevance score of a search record (`fuzzyScore`): a substring
    tier, a token-overlap tier and a small edit-distance tier computed by
    the dynamic program `lev`. */
module Fuzzy {
  import opened Text

  /** The recurrence `lev` fills its table with: the distance between the
      first `i` characters of `a` and the first `j` of `b`. Equal last
      characters take the diagonal; otherwise one more than the cheapest of
      a deletion, an insertion and a substitution. */
  function Dist(a: string, b: string, i: nat, j: nat): nat
    requires i <= |a| && j <= |b|
    decreases i + j
  {
    if i == 0 then j
    else if j == 0 then i
    else if a[i - 1] == b[j - 1] then Dist(a, b, i - 1, j - 1)
    else 1 + Min3(Dist(a, b, i - 1, j), Dist(a, b, i, j - 1), Dist(a, b, i - 1, j - 1))
  }

  function Min3(x: nat, y: nat, z: nat): nat
  {
    if x <= y && x <= z then x else if y <= z then y else z
  }

  function EditDistance(a: string, b: string): nat
  {
    Dist(a, b, |a|, |b|)
  }

  /** The distance never exceeds the longer prefix. */
  lemma {:induction false} DistUpper(a: string, b: string, i: nat, j: nat)
    requires i <= |a| && j <= |b|
    ensures Dist(a, b, i, j) <= Max(i, j)
    decreases i + j
  {
    if i > 0 && j > 0 {
      DistUpper(a, b, i - 1, j - 1);
    }
  }

  /** The distance is at least the difference of the lengths. */
  lemma {:induction false} DistLower(a: string, b: string, i: nat, j: nat)
    requires i <= |a| && j <= |b|
    ensures Dist(a, b, i, j) + j >= i && Dist(a, b, i, j) + i >= j
    decreases i + j
  {
    if i > 0 && j > 0 {
      DistLower(a, b, i - 1, j - 1);
      if a[i - 1] != b[j - 1] {
        DistLower(a, b, i - 1, j);
        DistLower(a, b, i, j - 1);
        MismatchLower(Dist(a, b, i, j), Dist(a, b, i - 1, j), Dist(a, b, i, j - 1), Dist(a, b, i - 1, j - 1), i, j);
      }
    }
  }

  /** The length-difference bound carried through a mismatch step. */
  lemma MismatchLower(d: nat, x: nat, y: nat, z: nat, i: nat, j: nat)
    requires i > 0 && j > 0 && d == 1 + Min3(x, y, z)
    requires x + j + 1 >= i && x + i >= j + 1
    requires y + j >= i + 1 && y + i + 1 >= j
    requires z + j >= i && z + i >= j
    ensures d + j >= i && d + i >= j
  {
  }

  /** A string is at distance 0 from itself, and only from itself. */
  lemma {:induction false} DistZero(a: string, b: string, i: nat, j: nat)
    requires i <= |a| && j <= |b|
    ensures Dist(a, b, i, j) == 0 <==> (i == j && a[..i] == b[..j])
    decreases i + j
  {
    if i > 0 && j > 0 {
      DistZero(a, b, i - 1, j - 1);
      assert a[..i] == a[..i - 1] + [a[i - 1]];
      assert b[..j] == b[..j - 1] + [b[j - 1]];
      if a[..i] == b[..j] && i == j {
        assert a[i - 1] == a[..i][i - 1] == b[..j][j - 1] == b[j - 1];
      }
    }
  }

  lemma EditDistanceZero(a: string, b: string)
    ensures EditDistance(a, b) == 0 <==> a == b
  {
    DistZero(a, b, |a|, |b|);
    assert a[..|a|] == a && b[..|b|] == b;
  }

  lemma DistStep(a: string, b: string, i: nat, j: nat)
    requires 0 < i <= |a| && 0 < j <= |b|
    ensures Dist(a, b, i, j) == if a[i - 1] == b[j - 1] then Dist(a, b, i - 1, j - 1)
      else Min3(Dist(a, b, i - 1, j) + 1, Dist(a, b, i, j - 1) + 1, Dist(a, b, i - 1, j - 1) + 1)
  {
  }

  /** `lev` (script.js): the distance is the sum of the lengths when either
      string is empty; otherwise a `(m+1) x (n+1)` table is filled row by
      row and its last cell returned. */
  method Lev(a: string, b: string) returns (d: nat)
    ensures d == EditDistance(a, b)
  {
    var m, n := |a|, |b|;
    if m * n == 0 {
      return m + n;
    }
    var dp := new nat[m + 1, n + 1];
    for i := 0 to m + 1
      invariant forall i' :: 0 <= i' < i ==> dp[i', 0] == i'
    {
      dp[i, 0] := i;
    }
    for j := 0 to n + 1
      invariant forall i' :: 0 < i' <= m ==> dp[i', 0] == i'
      invariant forall j' :: 0 <= j' < j ==> dp[0, j'] == j'
    {
      dp[0, j] := j;
    }
    for i := 1 to m + 1
      invariant forall i', j' {:trigger dp[i', j']} :: 0 <= i' < i && 0 <= j' <= n ==> dp[i', j'] == Dist(a, b, i', j')
      invariant forall i' :: i <= i' <= m ==> dp[i', 0] == i'
    {
      FillRow(dp, a, b, i);
    }
    d := dp[m, n];
  }

  /** The inner loop of `lev`: row `i` of the table from the row above and
      the cell to the left. */
  method FillRow(dp: array2<nat>, a: string, b: string, i: nat)
    requires dp.Length0 == |a| + 1 && dp.Length1 == |b| + 1 && 0 < i <= |a|
    requires forall i', j' {:trigger dp[i', j']} :: 0 <= i' < i && 0 <= j' <= |b| ==> dp[i', j'] == Dist(a, b, i', j')
    requires dp[i, 0] == i
    modifies dp
    ensures forall j' {:trigger dp[i, j']} :: 0 <= j' <= |b| ==> dp[i, j'] == Dist(a, b, i, j')
    ensures forall i', j' {:trigger dp[i', j']} :: 0 <= i' <= |a| && 0 <= j' <= |b| && i' != i ==> dp[i', j'] == old(dp[i', j'])
  {
    for j := 1 to |b| + 1
      invariant forall i', j' {:trigger dp[i', j']} :: 0 <= i' <= |a| && 0 <= j' <= |b| && i' != i ==> dp[i', j'] == old(dp[i', j'])
      invariant forall j' {:trigger dp[i, j']} :: 0 <= j' < j ==> dp[i, j'] == Dist(a, b, i, j')
    {
      DistStep(a, b, i, j);
      if a[i - 1] == b[j - 1] {
        dp[i, j] := dp[i - 1, j - 1];
      } else {
        dp[i, j] := Min3(dp[i - 1, j] + 1, dp[i, j - 1] + 1, dp[i - 1, j - 1] + 1);
      }
    }
  }

  /** A query token and a target token are related when either contains
      the other. */
  predicate Related(q: string, t: string)
  {
    Contains(t, q) || Contains(q, t)
  }

  predicate AnyRelated(q: string, ts: seq<string>)
  {
    exists j :: 0 <= j < |ts| && Related(q, ts[j])
  }

  /** The number of query tokens related to some target token, each query
      token counted at most once. */
  function Overlap(qs: seq<string>, ts: seq<string>): (r: nat)
    ensures r <= |qs|
  {
    if qs == [] then 0
    else Overlap(qs[..|qs| - 1], ts) + (if AnyRelated(qs[|qs| - 1], ts) then 1 else 0)
  }

  /** The token-overlap loop of `fuzzyScore`: for each query token, the
      first related target token counts one and ends the inner scan. */
  method TokenOverlap(qTokens: seq<string>, tTokens: seq<string>) returns (overlap: nat)
    ensures overlap == Overlap(qTokens, tTokens)
  {
    overlap := 0;
    for qi := 0 to |qTokens|
      invariant overlap == Overlap(qTokens[..qi], tTokens)
    {
      var qt := qTokens[qi];
      assert qTokens[..qi + 1][..qi] == qTokens[..qi];
      ghost var before: int := overlap;
      var found := false;
      for tj := 0 to |tTokens|
        invariant !found ==> overlap == before
        invariant !found ==> forall j :: 0 <= j < tj ==> !Related(qt, tTokens[j])
        invariant found ==> overlap == before + 1 && AnyRelated(qt, tTokens)
      {
        if Related(qt, tTokens[tj]) {
          overlap := overlap + 1;
          found := true;
          break;
        }
      }
    }
    assert qTokens[..|qTokens|] == qTokens;
  }

  /** The query prefix the edit distance is computed on. */
  function ShortQuery(q: string): (r: string)
    ensures |r| == Min(|q|, 30) && r == q[..|r|]
  {
    if |q| > 30 then q[..30] else q
  }

  /** The edit-distance tier: `30 - dist`, never negative. */
  function DistScore(q: string, t: string): (r: nat)
    ensures r <= 30
  {
    var sq := ShortQuery(q);
    Max(0, 30 - EditDistance(sq, Slice(t, 0, |sq| + 10)))
  }

  /** `fuzzyScore(query, target)`, in three tiers: 0 for an empty side;
      `100 + min(50, |q|)`, so more than 100, for a substring; otherwise 10
      per related query token plus at most 30. */
  function Score(q: string, t: string): (r: int)
    ensures q == [] || t == [] ==> r == 0
    ensures q != [] && t != [] && Contains(t, q) ==> 100 < r <= 150
    ensures q != [] && t != [] && !Contains(t, q) ==> 0 <= r <= 10 * |Split(q, ' ')| + 30
  {
    if q == [] || t == [] then 0
    else if Contains(t, q) then 100 + Min(50, |q|)
    else 10 * Overlap(Split(q, ' '), Split(t, ' ')) + DistScore(q, t)
  }

  /** `fuzzyScore` (script.js). */
  method FuzzyScore(query: string, target: string) returns (score: int)
    ensures score == Score(query, target)
  {
    if query == [] || target == [] {
      return 0;
    }
    if IndexOf(target, query, 0) >= 0 {
      return 100 + Min(50, |query|);
    }
    var qTokens := Split(query, ' ');
    var tTokens := Split(target, ' ');
    var overlap := TokenOverlap(qTokens, tTokens);
    var tokenScore := overlap * 10;
    var shortQuery := if |query| > 30 then query[..30] else query;
    var dist := Lev(shortQuery, Slice(target, 0, |shortQuery| + 10));
    var distScore := Max(0, 30 - dist as int);
    score := tokenScore + distScore;
  }

  /** For a short query the edit-distance tier alone is positive, so a
      non-empty target always scores. */
  lemma ShortQueryScores(q: string, t: string)
    requires 0 < |q| < 20 && t != []
    ensures Score(q, t) >= 1
  {
    if !Contains(t, q) {
      var sq := ShortQuery(q);
      var st := Slice(t, 0, |sq| + 10);
      DistUpper(sq, st, |sq|, |st|);
      assert DistScore(q, t) >= 1;
    }
  }

  lemma {:induction false} OverlapAll(qs: seq<string>, ts: seq<string>)
    requires forall k :: 0 <= k < |qs| ==> AnyRelated(qs[k], ts)
    ensures Overlap(qs, ts) == |qs|
  {
    if qs != [] {
      OverlapAll(qs[..|qs| - 1], ts);
      assert AnyRelated(qs[|qs| - 1], ts);
    }
  }

  lemma {:induction false} JoinLength(parts: seq<string>, sep: char)
    requires |parts| >= 1
    ensures |Join(parts, sep)| >= |parts| - 1
  {
    if |parts| > 1 {
      JoinLength(parts[1..], sep);
    }
  }

  /** A score of 100 or more does not mean the target contains the query:
      ten query tokens `a` all related to the target `a` reach it through
      the token tier alone. */
  lemma HighScoreWithoutSubstring()
    ensures var q := Join(seq(10, _ => "a"), ' ');
      Score(q, "a") >= 100 && !Contains("a", q)
  {
    var parts := seq(10, _ => "a");
    var q := Join(parts, ' ');
    forall k | 0 <= k < |parts| ensures ' ' !in parts[k] {
      assert parts[k] == "a";
    }
    SplitJoin(parts, ' ');
    JoinLength(parts, ' ');
    assert !Contains("a", q);
    assert Split("a", ' ') == ["a"];
    assert Related("a", "a") by {
      assert "a"[0..1] == "a";
    }
    forall k | 0 <= k < |parts| ensures AnyRelated(parts[k], ["a"]) {
      assert parts[k] == "a";
      assert ["a"][0] == "a";
    }
    OverlapAll(parts, ["a"]);
  }
}
