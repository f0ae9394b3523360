/** HTML escaping (`escapeHtml`) and the highlighting of query matches in
    a message text with `<strong>` spans (`highlightText`). */
module Highlight {
  import opened Text
  import opened Normalize
  import opened Sorting
  import opened Ranges

  /** The entity `escapeHtml` substitutes for one character. */
  function EscapeChar(c: char): (r: string)
    ensures r == [c] <==> c !in "&<>\"'"
    ensures r != [c] ==> |r| > 1 && r[0] == '&' && r[|r| - 1] == ';'
    ensures '<' !in r && '>' !in r
  {
    if c == '&' then "&amp;"
    else if c == '<' then "&lt;"
    else if c == '>' then "&gt;"
    else if c == '"' then "&quot;"
    else if c == '\'' then "&#39;"
    else [c]
  }

  /** `escapeHtml` (script.js): each of `& < > " '` replaced by its entity,
      every other character kept. */
  function EscapeHtml(s: string): (r: string)
    ensures '<' !in r
    ensures |r| >= |s|
  {
    if s == [] then [] else EscapeChar(s[0]) + EscapeHtml(s[1..])
  }

  /** Escaping works character by character. */
  lemma {:induction false} EscapeAppend(a: string, b: string)
    ensures EscapeHtml(a + b) == EscapeHtml(a) + EscapeHtml(b)
  {
    if a != [] {
      assert (a + b)[0] == a[0];
      assert (a + b)[1..] == a[1..] + b;
      EscapeAppend(a[1..], b);
    } else {
      assert a + b == b;
    }
  }

  predicate IsPrefix(p: string, h: string)
  {
    |p| <= |h| && h[..|p|] == p
  }

  /** The browser's decoding of the five entities `escapeHtml` produces. */
  function Unescape(h: string): string
    decreases |h|
  {
    if h == [] then []
    else if IsPrefix("&amp;", h) then "&" + Unescape(h[5..])
    else if IsPrefix("&lt;", h) then "<" + Unescape(h[4..])
    else if IsPrefix("&gt;", h) then ">" + Unescape(h[4..])
    else if IsPrefix("&quot;", h) then "\"" + Unescape(h[6..])
    else if IsPrefix("&#39;", h) then "'" + Unescape(h[5..])
    else [h[0]] + Unescape(h[1..])
  }

  /** Decoding an escaped character and what follows it gives back the
      character and the decoding of the rest. */
  lemma UnescapeEntity(c: char, t: string)
    ensures Unescape(EscapeChar(c) + t) == [c] + Unescape(t)
  {
    if c == '&' {
      UnescapeAmp(t);
    } else if c == '<' {
      UnescapeLt(t);
    } else if c == '>' {
      UnescapeGt(t);
    } else if c == '"' {
      UnescapeQuot(t);
    } else if c == '\'' {
      UnescapeApos(t);
    } else {
      UnescapePlain(c, t);
    }
  }

  lemma UnescapeAmp(t: string)
    ensures Unescape("&amp;" + t) == "&" + Unescape(t)
  {
    var h := "&amp;" + t;
    assert IsPrefix("&amp;", h);
    assert h[5..] == t;
  }

  lemma UnescapeLt(t: string)
    ensures Unescape("&lt;" + t) == "<" + Unescape(t)
  {
    var h := "&lt;" + t;
    assert h[1] == 'l';
    assert !IsPrefix("&amp;", h);
    assert IsPrefix("&lt;", h);
    assert h[4..] == t;
  }

  lemma UnescapeGt(t: string)
    ensures Unescape("&gt;" + t) == ">" + Unescape(t)
  {
    var h := "&gt;" + t;
    assert h[1] == 'g';
    assert !IsPrefix("&amp;", h) && !IsPrefix("&lt;", h);
    assert IsPrefix("&gt;", h);
    assert h[4..] == t;
  }

  lemma UnescapeQuot(t: string)
    ensures Unescape("&quot;" + t) == "\"" + Unescape(t)
  {
    var h := "&quot;" + t;
    assert h[1] == 'q';
    assert !IsPrefix("&amp;", h) && !IsPrefix("&lt;", h) && !IsPrefix("&gt;", h);
    assert IsPrefix("&quot;", h);
    assert h[6..] == t;
  }

  lemma UnescapeApos(t: string)
    ensures Unescape("&#39;" + t) == "'" + Unescape(t)
  {
    var h := "&#39;" + t;
    assert h[1] == '#';
    assert !IsPrefix("&amp;", h) && !IsPrefix("&lt;", h) && !IsPrefix("&gt;", h) && !IsPrefix("&quot;", h);
    assert IsPrefix("&#39;", h);
    assert h[5..] == t;
  }

  lemma UnescapePlain(c: char, t: string)
    requires c != '&'
    ensures Unescape([c] + t) == [c] + Unescape(t)
  {
    var h := [c] + t;
    assert h[0] == c;
    assert !IsPrefix("&amp;", h) && !IsPrefix("&lt;", h) && !IsPrefix("&gt;", h);
    assert !IsPrefix("&quot;", h) && !IsPrefix("&#39;", h);
    assert h[1..] == t;
  }

  /** Decoding the escaped text gives back the text: escaping loses
      nothing. */
  lemma {:induction false} UnescapeEscape(s: string)
    ensures Unescape(EscapeHtml(s)) == s
  {
    if s != [] {
      UnescapeEscape(s[1..]);
      UnescapeEntity(s[0], EscapeHtml(s[1..]));
    }
  }

  /** The text with every `<strong>` and `</strong>` deleted. */
  function Unmark(h: string): string
    decreases |h|
  {
    if h == [] then []
    else if IsPrefix("<strong>", h) then Unmark(h[8..])
    else if IsPrefix("</strong>", h) then Unmark(h[9..])
    else [h[0]] + Unmark(h[1..])
  }

  /** The number of `<strong>` tags. */
  function OpenCount(h: string): nat
    decreases |h|
  {
    if h == [] then 0
    else if IsPrefix("<strong>", h) then 1 + OpenCount(h[8..])
    else OpenCount(h[1..])
  }

  lemma {:induction false} PlainPrefix(a: string, b: string)
    requires '<' !in a
    ensures Unmark(a + b) == a + Unmark(b)
    ensures OpenCount(a + b) == OpenCount(b)
  {
    if a != [] {
      var h := a + b;
      assert h[0] == a[0] && h[1..] == a[1..] + b;
      PlainPrefix(a[1..], b);
      assert [a[0]] + (a[1..] + Unmark(b)) == a + Unmark(b);
    } else {
      assert a + b == b;
    }
  }

  lemma OpenTag(b: string)
    ensures Unmark("<strong>" + b) == Unmark(b)
    ensures OpenCount("<strong>" + b) == 1 + OpenCount(b)
  {
    var h := "<strong>" + b;
    assert h[..8] == "<strong>" && h[8..] == b;
  }

  lemma CloseTag(b: string)
    ensures Unmark("</strong>" + b) == Unmark(b)
    ensures OpenCount("</strong>" + b) == OpenCount(b)
  {
    var h := "</strong>" + b;
    assert Unmark(h) == Unmark(b) by {
      assert h[1] == '/';
      assert h[..9] == "</strong>" && h[9..] == b;
    }
    assert OpenCount(h) == OpenCount(b) by {
      assert h[1] == '/';
      assert h[1..] == "/strong>" + b;
      PlainPrefix("/strong>", b);
    }
  }

  /** One marked range between plain text `a` and the rest `r`. */
  lemma Piece(a: string, b: string, r: string)
    requires '<' !in a && '<' !in b
    ensures Unmark(a + "<strong>" + b + "</strong>" + r) == a + (b + Unmark(r))
    ensures OpenCount(a + "<strong>" + b + "</strong>" + r) == 1 + OpenCount(r)
  {
    var tail := "</strong>" + r;
    var inner := b + tail;
    var open := "<strong>" + inner;
    assert a + "<strong>" + b + "</strong>" + r == a + open;
    CloseTag(r);
    PlainPrefix(b, tail);
    OpenTag(inner);
    PlainPrefix(a, open);
  }

  /** The output of the marking loop from position `last` on: for each
      range, the escaped text before it, then the escaped range inside
      `<strong>`, and finally the escaped rest of the text. */
  function Marked(o: string, last: nat, ms: seq<Range>): string
    decreases |ms|
  {
    if ms == [] then EscapeHtml(Slice(o, last, |o|))
    else
      EscapeHtml(Slice(o, last, ms[0].lo))
      + "<strong>" + EscapeHtml(Slice(o, ms[0].lo, ms[0].hi)) + "</strong>"
      + Marked(o, ms[0].hi, ms[1..])
  }

  /** Ranges that follow `last` and each other, inside `[0, n)`. */
  predicate Chained(last: nat, ms: seq<Range>, n: nat)
    decreases |ms|
  {
    if ms == [] then last <= n
    else last <= ms[0].lo < ms[0].hi && Chained(ms[0].hi, ms[1..], n)
  }

  lemma {:induction false} SeparatedChained(last: nat, ms: seq<Range>, n: nat)
    requires Separated(ms) && EndsWithin(ms, n) && last <= n
    requires ms != [] ==> last <= ms[0].lo
    ensures Chained(last, ms, n)
    decreases |ms|
  {
    if ms != [] {
      var rest := ms[1..];
      assert Separated(rest) by {
        forall k | 0 <= k < |rest| - 1 ensures rest[k].hi < rest[k + 1].lo {
          assert rest[k] == ms[k + 1] && rest[k + 1] == ms[k + 2];
        }
      }
      assert EndsWithin(rest, n) by {
        forall k | 0 <= k < |rest| ensures rest[k].hi <= n {
          assert rest[k] == ms[k + 1];
        }
      }
      assert ms[0].hi <= n;
      SeparatedChained(ms[0].hi, rest, n);
    }
  }

  lemma EscapeThree(o: string, i: nat, j: nat, k: nat)
    requires i <= j <= k <= |o|
    ensures EscapeHtml(o[i..]) == EscapeHtml(o[i..j]) + (EscapeHtml(o[j..k]) + EscapeHtml(o[k..]))
  {
    assert o[i..] == o[i..j] + (o[j..k] + o[k..]);
    EscapeAppend(o[j..k], o[k..]);
    EscapeAppend(o[i..j], o[j..k] + o[k..]);
  }

  /** Deleting the tags from the marked text gives the escaped text, and
      there is one `<strong>` per range. */
  lemma {:induction false} MarkedShape(o: string, last: nat, ms: seq<Range>)
    requires Chained(last, ms, |o|)
    ensures last <= |o|
    ensures Unmark(Marked(o, last, ms)) == EscapeHtml(o[last..])
    ensures OpenCount(Marked(o, last, ms)) == |ms|
    decreases |ms|
  {
    if ms != [] {
      var lo, hi := ms[0].lo, ms[0].hi;
      MarkedShape(o, hi, ms[1..]);
      assert Slice(o, last, lo) == o[last..lo];
      assert Slice(o, lo, hi) == o[lo..hi];
      Piece(EscapeHtml(o[last..lo]), EscapeHtml(o[lo..hi]), Marked(o, hi, ms[1..]));
      EscapeThree(o, last, lo, hi);
    } else {
      assert Slice(o, last, |o|) == o[last..];
      var e := EscapeHtml(o[last..]);
      PlainPrefix(e, []);
      assert e + [] == e;
    }
  }

  /** The non-empty pieces of a split. */
  function NonEmpty(parts: seq<string>): (r: seq<string>)
    ensures forall k :: 0 <= k < |r| ==> r[k] != []
    ensures forall t :: t in r ==> t in parts
  {
    if parts == [] then []
    else (if parts[0] == [] then [] else [parts[0]]) + NonEmpty(parts[1..])
  }

  /** The tokens of a query: its normalized form split on spaces. */
  function Tokens(f: CharFolding, q: string): seq<string>
  {
    NonEmpty(Split(NormalizeForSearch(f, q), ' '))
  }

  lemma {:induction false} NonEmptyKeeps(parts: seq<string>)
    requires forall k :: 0 <= k < |parts| ==> parts[k] != []
    ensures NonEmpty(parts) == parts
  {
    if parts != [] {
      NonEmptyKeeps(parts[1..]);
    }
  }

  /** The filter is a no-op on a non-empty normalized query: its split has
      no empty piece, and no piece holds a space. */
  lemma TokensOfQuery(f: CharFolding, q: string)
    ensures NormalizeForSearch(f, q) != [] ==> Tokens(f, q) == Split(NormalizeForSearch(f, q), ' ')
    ensures (Tokens(f, q) == []) == (NormalizeForSearch(f, q) == [])
    ensures forall t :: t in Tokens(f, q) ==> t != [] && ' ' !in t
  {
    var n := NormalizeForSearch(f, q);
    if n != [] {
      NormalizedTokensNonEmpty(f, q);
      NonEmptyKeeps(Split(n, ' '));
    } else {
      assert Split(n, ' ') == [[]];
      assert NonEmpty(Split(n, ' ')) == [] + NonEmpty([]);
    }
  }

  /** The ranges of all tokens, concatenated in token order. */
  function AllRanges(f: CharFolding, o: string, ts: seq<string>): seq<Range>
    requires forall k :: 0 <= k < |ts| ==> ts[k] != []
  {
    if ts == [] then []
    else AllRanges(f, o, ts[..|ts| - 1]) + TokenRanges(f, o, ts[|ts| - 1])
  }

  /** The merged ranges `highlightText` marks; none when the query or the
      text is empty or the query has no token. */
  function HighlightRanges(f: CharFolding, o: string, q: string): seq<Range>
  {
    if q == [] || o == [] then []
    else
      var ts := Tokens(f, q);
      MergeSorted(SortBy(AllRanges(f, o, ts), Start))
  }

  /** The result of `highlightText`. */
  function Highlighted(f: CharFolding, o: string, q: string): string
  {
    var ms := HighlightRanges(f, o, q);
    if ms == [] then EscapeHtml(o) else Marked(o, 0, ms)
  }

  lemma Regroup(d: string, a: string, s: string, b: string, e: string, r: string)
    ensures d + (a + s + b + e + r) == d + a + s + b + e + r
  {
  }

  lemma MarkedStep(o: string, last: nat, ms: seq<Range>, done: string, total: string)
    requires ms != [] && done + Marked(o, last, ms) == total
    ensures done + EscapeHtml(Slice(o, last, ms[0].lo))
      + "<strong>" + EscapeHtml(Slice(o, ms[0].lo, ms[0].hi)) + "</strong>"
      + Marked(o, ms[0].hi, ms[1..]) == total
  {
    Regroup(done, EscapeHtml(Slice(o, last, ms[0].lo)), "<strong>",
      EscapeHtml(Slice(o, ms[0].lo, ms[0].hi)), "</strong>", Marked(o, ms[0].hi, ms[1..]));
  }

  /** `highlightText` (script.js): with an empty query or text, no token, or
      no occurrence, the escaped text; otherwise the merged ranges of all
      tokens' occurrences wrapped in `<strong>`, everything escaped. */
  method HighlightText(f: CharFolding, original: string, query: string) returns (out: string)
    ensures out == Highlighted(f, original, query)
  {
    if query == [] || original == [] {
      return EscapeHtml(original);
    }
    var qNorm := NormalizeForSearch(f, query);
    var tokens := NonEmpty(Split(qNorm, ' '));
    if |tokens| == 0 {
      return EscapeHtml(original);
    }
    var allRanges := CollectRanges(f, original, tokens);
    if |allRanges| == 0 {
      return EscapeHtml(original);
    }
    var merged := MergeRanges(allRanges);
    out := MarkRanges(original, merged);
  }

  /** The token loop of `highlightText`: the ranges of every token,
      concatenated. */
  method CollectRanges(f: CharFolding, original: string, tokens: seq<string>)
    returns (allRanges: seq<Range>)
    requires forall k :: 0 <= k < |tokens| ==> tokens[k] != []
    ensures allRanges == AllRanges(f, original, tokens)
  {
    allRanges := [];
    for i := 0 to |tokens|
      invariant allRanges == AllRanges(f, original, tokens[..i])
    {
      var ranges := FindRangesForToken(f, original, tokens[i]);
      assert tokens[..i + 1][..i] == tokens[..i];
      allRanges := allRanges + ranges;
    }
    assert tokens[..|tokens|] == tokens;
  }

  /** The output loop of `highlightText`: the text before each range, the
      range in `<strong>`, then the rest, all escaped. */
  method MarkRanges(original: string, merged: seq<Range>) returns (out: string)
    ensures out == Marked(original, 0, merged)
  {
    ghost var total := Marked(original, 0, merged);
    out := [];
    var lastIdx: nat := 0;
    for i := 0 to |merged|
      invariant out + Marked(original, lastIdx, merged[i..]) == total
    {
      var s, e := merged[i].lo, merged[i].hi;
      MarkedStep(original, lastIdx, merged[i..], out, total);
      assert merged[i..][1..] == merged[i + 1..];
      out := out + EscapeHtml(Slice(original, lastIdx, s));
      out := out + "<strong>" + EscapeHtml(Slice(original, s, e)) + "</strong>";
      lastIdx := e;
    }
    out := out + EscapeHtml(Slice(original, lastIdx, |original|));
  }

  /** Every range of every token lies inside the text and is non-empty. */
  lemma {:induction false} AllRangesInside(f: CharFolding, o: string, ts: seq<string>)
    requires forall k :: 0 <= k < |ts| ==> ts[k] != []
    ensures forall k :: 0 <= k < |AllRanges(f, o, ts)| ==>
      AllRanges(f, o, ts)[k].lo < AllRanges(f, o, ts)[k].hi <= |o|
  {
    if ts != [] {
      var init := ts[..|ts| - 1];
      AllRangesInside(f, o, init);
      TokenRangesShape(f, o, ts[|ts| - 1]);
      var a := AllRanges(f, o, init);
      var b := TokenRanges(f, o, ts[|ts| - 1]);
      var ab: seq<Range> := a + b;
      forall k | 0 <= k < |ab| ensures ab[k].lo < ab[k].hi <= |o| {
        if k >= |a| {
          assert ab[k] == b[k - |a|];
        } else {
          assert ab[k] == a[k];
        }
      }
    }
  }

  /** The marked ranges are separated and inside the text, so the marking
      loop walks them in order. */
  lemma HighlightRangesChained(f: CharFolding, o: string, q: string)
    ensures Chained(0, HighlightRanges(f, o, q), |o|)
  {
    var ms := HighlightRanges(f, o, q);
    if q != [] && o != [] {
      var ts := Tokens(f, q);
      AllRangesInside(f, o, ts);
      MergeRangesShape(AllRanges(f, o, ts), |o|, 0);
    }
    SeparatedChained(0, ms, |o|);
  }

  /** Deleting every `<strong>` and `</strong>` from the result of
      `highlightText` gives exactly the escaped text: highlighting only
      inserts tags. */
  lemma HighlightUnmark(f: CharFolding, o: string, q: string)
    ensures Unmark(Highlighted(f, o, q)) == EscapeHtml(o)
  {
    var ms := HighlightRanges(f, o, q);
    if ms == [] {
      PlainPrefix(EscapeHtml(o), []);
      assert EscapeHtml(o) + [] == EscapeHtml(o);
    } else {
      HighlightRangesChained(f, o, q);
      MarkedShape(o, 0, ms);
      assert o[0..] == o;
    }
  }

  /** There is one `<strong>` span per merged range. */
  lemma HighlightCount(f: CharFolding, o: string, q: string)
    ensures OpenCount(Highlighted(f, o, q)) == |HighlightRanges(f, o, q)|
  {
    var ms := HighlightRanges(f, o, q);
    if ms == [] {
      PlainPrefix(EscapeHtml(o), []);
      assert EscapeHtml(o) + [] == EscapeHtml(o);
    } else {
      HighlightRangesChained(f, o, q);
      MarkedShape(o, 0, ms);
    }
  }

  /** A position of the text is marked exactly when some occurrence of some
      query token covers it. */
  lemma HighlightCovers(f: CharFolding, o: string, q: string, x: int)
    requires q != [] && o != []
    ensures Covered(HighlightRanges(f, o, q), x) <==> Covered(AllRanges(f, o, Tokens(f, q)), x)
  {
    var ts := Tokens(f, q);
    AllRangesInside(f, o, ts);
    MergeRangesShape(AllRanges(f, o, ts), |o|, x);
  }

  lemma {:induction false} NoOccurrenceNoRanges(f: CharFolding, o: string, ts: seq<string>)
    requires forall k :: 0 <= k < |ts| ==> ts[k] != [] && !Contains(Fold(f, o), ts[k])
    ensures AllRanges(f, o, ts) == []
  {
    if ts != [] {
      NoOccurrenceNoRanges(f, o, ts[..|ts| - 1]);
      assert Matches(Fold(f, o), ts[|ts| - 1], 0) == [];
    }
  }

  /** When no query token occurs in the folded text, nothing is marked and
      the result is the escaped text. */
  lemma HighlightNoMatch(f: CharFolding, o: string, q: string)
    requires forall t :: t in Tokens(f, q) ==> !Contains(Fold(f, o), t)
    ensures HighlightRanges(f, o, q) == []
    ensures Highlighted(f, o, q) == EscapeHtml(o)
  {
    if q != [] && o != [] {
      var ts := Tokens(f, q);
      NoOccurrenceNoRanges(f, o, ts);
    }
  }
}
