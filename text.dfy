/** String primitives of the JavaScript runtime that the viewer relies on:
    `String.prototype.indexOf`, `includes`, `split`, `Array.prototype.join`
    and `slice`, stated on Dafny strings (sequences of characters). */
module Text {

  /** `t` occurs in `s` starting at position `k`. */
  predicate OccursAt(s: string, t: string, k: int)
  {
    0 <= k && k + |t| <= |s| && s[k..k + |t|] == t
  }

  /** `s.indexOf(t, from)` for `from <= |s|`: the first occurrence of `t`
      at or after `from`, or -1 when there is none. */
  function IndexOf(s: string, t: string, from: nat): (r: int)
    ensures r == -1 || (from <= r && OccursAt(s, t, r))
    ensures r == -1 ==> forall k :: from <= k ==> !OccursAt(s, t, k)
    ensures r >= 0 ==> forall k :: from <= k < r ==> !OccursAt(s, t, k)
    decreases |s| - from
  {
    if from + |t| > |s| then -1
    else if s[from..from + |t|] == t then from
    else IndexOf(s, t, from + 1)
  }

  /** `s.includes(t)`. */
  predicate Contains(s: string, t: string)
  {
    IndexOf(s, t, 0) >= 0
  }

  lemma ContainsIff(s: string, t: string)
    ensures Contains(s, t) <==> exists k :: OccursAt(s, t, k)
  {
    if exists k :: OccursAt(s, t, k) {
      var k :| OccursAt(s, t, k);
      assert 0 <= k;
    }
  }

  /** `s.slice(a, b)` for non-negative arguments: both ends are clamped to
      the length, and an empty string results when `a >= b`. */
  function Slice(s: string, a: nat, b: nat): (r: string)
    ensures |r| == if a < b && a < |s| then Min(b, |s|) - a else 0
    ensures a <= b <= |s| ==> r == s[a..b]
  {
    var hi := Min(b, |s|);
    if a < hi then s[a..hi] else []
  }

  function Min(x: int, y: int): int { if x <= y then x else y }

  function Max(x: int, y: int): int { if x <= y then y else x }

  /** `s.split(sep)` with a one-character separator: the maximal pieces
      between separators, so an empty string gives `[""]` and every
      separator starts a new piece. */
  function Split(s: string, sep: char): (parts: seq<string>)
    ensures |parts| >= 1
    ensures forall k :: 0 <= k < |parts| ==> sep !in parts[k]
  {
    if s == [] then [[]]
    else
      var rest := Split(s[1..], sep);
      if s[0] == sep then [[]] + rest
      else [[s[0]] + rest[0]] + rest[1..]
  }

  /** `parts.join(sep)`. */
  function Join(parts: seq<string>, sep: char): string
  {
    if parts == [] then []
    else if |parts| == 1 then parts[0]
    else parts[0] + [sep] + Join(parts[1..], sep)
  }

  /** Joining the pieces of a split gives back the string. */
  lemma {:induction false} JoinSplit(s: string, sep: char)
    ensures Join(Split(s, sep), sep) == s
  {
    if s != [] {
      var rest := Split(s[1..], sep);
      JoinSplit(s[1..], sep);
      if s[0] == sep {
        assert Split(s, sep) == [[]] + rest;
        assert Join([[]] + rest, sep) == [] + [sep] + Join(rest, sep);
      } else {
        var parts := [[s[0]] + rest[0]] + rest[1..];
        assert Split(s, sep) == parts;
        if |rest| == 1 {
          assert Join(rest, sep) == rest[0];
        } else {
          assert Join(rest, sep) == rest[0] + [sep] + Join(rest[1..], sep);
          assert parts[1..] == rest[1..];
        }
      }
    }
  }

  /** A separator-free prefix is glued onto the first piece. */
  lemma {:induction false} SplitPrefix(a: string, s: string, sep: char)
    requires sep !in a
    ensures Split(a + s, sep) == [a + Split(s, sep)[0]] + Split(s, sep)[1..]
  {
    if a != [] {
      assert (a + s)[1..] == a[1..] + s;
      assert (a + s)[0] == a[0];
      SplitPrefix(a[1..], s, sep);
      assert [a[0]] + (a[1..] + Split(s, sep)[0]) == a + Split(s, sep)[0];
    } else {
      assert a + s == s;
      assert a + Split(s, sep)[0] == Split(s, sep)[0];
      assert Split(s, sep) == [Split(s, sep)[0]] + Split(s, sep)[1..];
    }
  }

  /** Splitting a join of separator-free pieces gives back the pieces. */
  lemma {:induction false} SplitJoin(parts: seq<string>, sep: char)
    requires |parts| >= 1
    requires forall k :: 0 <= k < |parts| ==> sep !in parts[k]
    ensures Split(Join(parts, sep), sep) == parts
  {
    if |parts| == 1 {
      SplitPrefix(parts[0], [], sep);
      assert parts[0] + [] == parts[0];
    } else {
      var rest := Join(parts[1..], sep);
      SplitJoin(parts[1..], sep);
      assert Join(parts, sep) == parts[0] + ([sep] + rest);
      SplitPrefix(parts[0], [sep] + rest, sep);
      assert ([sep] + rest)[1..] == rest;
      assert Split([sep] + rest, sep) == [[]] + Split(rest, sep);
      assert parts[0] + [] == parts[0];
    }
  }

  /** The last piece of `s.split(sep)` is what follows the last separator. */
  lemma SplitLast(stem: string, ext: string, sep: char)
    requires sep !in ext
    ensures var parts := Split(stem + [sep] + ext, sep); parts[|parts| - 1] == ext
  {
    JoinSplit(stem, sep);
    var ps := Split(stem, sep);
    var all := ps + [ext];
    forall k | 0 <= k < |all| ensures sep !in all[k] {
      if k == |ps| { assert all[k] == ext; } else { assert all[k] == ps[k]; }
    }
    JoinAppend(ps, ext, sep);
    SplitJoin(all, sep);
  }

  lemma {:induction false} JoinAppend(ps: seq<string>, last: string, sep: char)
    requires |ps| >= 1
    ensures Join(ps + [last], sep) == Join(ps, sep) + [sep] + last
  {
    if |ps| == 1 {
      assert ps + [last] == [ps[0], last];
      assert Join([last], sep) == last;
    } else {
      assert (ps + [last])[1..] == ps[1..] + [last];
      JoinAppend(ps[1..], last, sep);
    }
  }

  /** No piece of the split is empty exactly when the string is non-empty,
      neither starts nor ends with the separator and never repeats it. */
  predicate WellSeparated(s: string, sep: char)
  {
    && s != []
    && s[0] != sep
    && s[|s| - 1] != sep
    && forall k :: 0 <= k < |s| - 1 ==> !(s[k] == sep && s[k + 1] == sep)
  }

  lemma {:induction false} SplitPiecesNonEmpty(s: string, sep: char)
    requires WellSeparated(s, sep)
    ensures forall k :: 0 <= k < |Split(s, sep)| ==> Split(s, sep)[k] != []
  {
    var tail := s[1..];
    var rest := Split(tail, sep);
    assert Split(s, sep) == [[s[0]] + rest[0]] + rest[1..];
    if tail != [] {
      if tail[0] != sep {
        forall k | 0 <= k < |tail| - 1 ensures !(tail[k] == sep && tail[k + 1] == sep) {
          assert tail[k] == s[k + 1] && tail[k + 1] == s[k + 2];
        }
        SplitPiecesNonEmpty(tail, sep);
      } else {
        var tail2 := s[2..];
        assert tail[1..] == tail2;
        assert Split(tail, sep) == [[]] + Split(tail2, sep);
        assert s[1] == sep;
        forall k | 0 <= k < |tail2| - 1 ensures !(tail2[k] == sep && tail2[k + 1] == sep) {
          assert tail2[k] == s[k + 2] && tail2[k + 1] == s[k + 3];
        }
        SplitPiecesNonEmpty(tail2, sep);
      }
    }
  }
}
