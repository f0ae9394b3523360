/** Diacritic-insensitive folding of text for search (`normalizeForSearch`)
    and the folded copy with a position map back to the original
    (`buildNormalizedMap`). */
module Normalize {
  import opened Text

  /** The host's Unicode tables, which the viewer reaches through
      `String.prototype.normalize('NFD')` followed by removal of
      `\p{Diacritic}` (`decompose`, per character: zero or more characters)
      and `toLowerCase` (`lower`, one character for one character). */
  datatype CharFolding = CharFolding(decompose: char -> seq<char>, lower: char -> char)

  /** The characters matched by the regular-expression class `\s`, which are
      also the characters `String.prototype.trim` removes. */
  predicate IsSpace(c: char)
  {
    || c == ' ' || c == '\t' || c == '\n' || c == '\r'
    || c == '\U{000B}' || c == '\U{000C}' || c == '\U{00A0}' || c == '\U{1680}'
    || ('\U{2000}' <= c <= '\U{200A}')
    || c == '\U{2028}' || c == '\U{2029}' || c == '\U{202F}' || c == '\U{205F}'
    || c == '\U{3000}' || c == '\U{FEFF}'
  }

  /** Each character replaced by its decomposition without diacritics. */
  function Stripped(f: CharFolding, s: string): string
    decreases |s|
  {
    if s == [] then [] else Stripped(f, s[..|s| - 1]) + f.decompose(s[|s| - 1])
  }

  /** `toLowerCase`, one character at a time. */
  function Lowered(f: CharFolding, s: string): (r: string)
    ensures |r| == |s|
  {
    seq(|s|, k requires 0 <= k < |s| => f.lower(s[k]))
  }

  /** Decomposed, stripped of diacritics, lower-cased. */
  function Fold(f: CharFolding, s: string): string
  {
    Lowered(f, Stripped(f, s))
  }

  /** Leading whitespace removed (`trimStart`). */
  function TrimStart(s: string): (r: string)
    ensures |r| <= |s| && r == s[|s| - |r|..]
    ensures r == [] || !IsSpace(r[0])
    ensures s != [] && IsSpace(s[0]) ==> |r| < |s|
  {
    if s != [] && IsSpace(s[0]) then TrimStart(s[1..]) else s
  }

  /** Trailing whitespace removed (`trimEnd`). */
  function TrimEnd(s: string): (r: string)
    ensures |r| <= |s| && r == s[..|r|]
    ensures r == [] || !IsSpace(r[|r| - 1])
    ensures s != [] && !IsSpace(s[0]) ==> r != []
  {
    if s != [] && IsSpace(s[|s| - 1]) then TrimEnd(s[..|s| - 1]) else s
  }

  function Trim(s: string): string
  {
    TrimEnd(TrimStart(s))
  }

  /** The whitespace replacement of `normalizeForSearch`: every maximal run
      of whitespace becomes one plain space. */
  function Collapse(s: string): (r: string)
    ensures (r == []) == (s == [])
    decreases |s|
  {
    if s == [] then []
    else if IsSpace(s[0]) then [' '] + Collapse(TrimStart(s))
    else [s[0]] + Collapse(s[1..])
  }

  /** The only whitespace is a plain space, and never two in a row. */
  predicate Spaced(t: string)
  {
    && (forall k :: 0 <= k < |t| && IsSpace(t[k]) ==> t[k] == ' ')
    && (forall k :: 0 <= k < |t| - 1 ==> !(t[k] == ' ' && t[k + 1] == ' '))
  }

  /** After collapsing, the text is spaced, and it starts with a space
      exactly when it started with whitespace. */
  lemma {:induction false} CollapseShape(s: string)
    ensures Spaced(Collapse(s))
    ensures Collapse(s) != [] ==> (Collapse(s)[0] == ' ' <==> IsSpace(s[0]))
    decreases |s|
  {
    if s != [] {
      var r := Collapse(s);
      if IsSpace(s[0]) {
        var c := Collapse(TrimStart(s));
        CollapseShape(TrimStart(s));
        assert r == [' '] + c;
        assert c != [] ==> c[0] != ' ';
        forall k | 0 < k < |r|
          ensures r[k] == c[k - 1]
        {
        }
      } else {
        var c := Collapse(s[1..]);
        CollapseShape(s[1..]);
        assert r == [s[0]] + c;
        assert r[0] != ' ';
        forall k | 0 < k < |r|
          ensures r[k] == c[k - 1]
        {
        }
      }
    }
  }

  /** `normalizeForSearch` (script.js): empty for empty input, otherwise
      folded, whitespace collapsed, trimmed. The result is in search form
      (below). */
  function NormalizeForSearch(f: CharFolding, s: string): (r: string)
    ensures InSearchForm(r)
  {
    if s == [] then []
    else
      TrimmedCollapseInSearchForm(Fold(f, s));
      TrimEnd(TrimStart(Collapse(Fold(f, s))))
  }

  lemma TrimmedCollapseInSearchForm(x: string)
    ensures InSearchForm(TrimEnd(TrimStart(Collapse(x))))
  {
    SpacedTrimStart(x);
    TrimEndInSearchForm(TrimStart(Collapse(x)));
  }

  lemma TrimEndInSearchForm(t: string)
    requires Spaced(t) && (t == [] || !IsSpace(t[0]))
    ensures InSearchForm(TrimEnd(t))
  {
    var r := TrimEnd(t);
    InfixKeepsSpacing(t, 0, |r|);
    assert t[0..|r|] == r;
    assert r != [] ==> r[0] == t[0];
  }

  lemma SpacedTrimStart(x: string)
    ensures Spaced(TrimStart(Collapse(x)))
  {
    CollapseShape(x);
    SpacedSuffix(Collapse(x), TrimStart(Collapse(x)));
  }

  lemma SpacedSuffix(c: string, t: string)
    requires Spaced(c) && |t| <= |c| && t == c[|c| - |t|..]
    ensures Spaced(t)
  {
    InfixKeepsSpacing(c, |c| - |t|, |c|);
    assert c[|c| - |t|..|c|] == t;
  }

  /** The shape of a normalized string: spaced, and never a space at either
      end. */
  predicate InSearchForm(t: string)
  {
    Spaced(t) && (t != [] ==> t[0] != ' ' && t[|t| - 1] != ' ')
  }

  lemma InfixKeepsSpacing(c: string, i: nat, j: nat)
    requires i <= j <= |c|
    requires Spaced(c)
    ensures Spaced(c[i..j])
  {
    var t := c[i..j];
    forall k | 0 <= k < |t| - 1
      ensures !(t[k] == ' ' && t[k + 1] == ' ')
    {
      assert t[k] == c[i + k] && t[k + 1] == c[i + k + 1];
    }
  }

  /** Splitting a non-empty normalized query on `' '` yields only
      non-empty tokens, as `highlightText` and `fuzzyScore` assume. */
  lemma NormalizedTokensNonEmpty(f: CharFolding, s: string)
    requires NormalizeForSearch(f, s) != []
    ensures var ts := Split(NormalizeForSearch(f, s), ' ');
      forall k :: 0 <= k < |ts| ==> ts[k] != [] && ' ' !in ts[k]
  {
    SplitPiecesNonEmpty(NormalizeForSearch(f, s), ' ');
  }

  /** The non-whitespace characters of a string, in order. */
  function Visible(s: string): string
  {
    if s == [] then [] else (if IsSpace(s[0]) then [] else [s[0]]) + Visible(s[1..])
  }

  lemma {:induction false} VisibleAppend(a: string, b: string)
    ensures Visible(a + b) == Visible(a) + Visible(b)
  {
    if a != [] {
      assert (a + b)[1..] == a[1..] + b;
      VisibleAppend(a[1..], b);
    } else {
      assert a + b == b;
    }
  }

  lemma {:induction false} VisibleTrimStart(s: string)
    ensures Visible(TrimStart(s)) == Visible(s)
  {
    if s != [] && IsSpace(s[0]) {
      VisibleTrimStart(s[1..]);
    }
  }

  lemma {:induction false} VisibleTrimEnd(s: string)
    ensures Visible(TrimEnd(s)) == Visible(s)
  {
    if s != [] && IsSpace(s[|s| - 1]) {
      var init := s[..|s| - 1];
      VisibleTrimEnd(init);
      assert s == init + [s[|s| - 1]];
      VisibleAppend(init, [s[|s| - 1]]);
      assert Visible([s[|s| - 1]]) == [];
    }
  }

  lemma {:induction false} VisibleCollapse(s: string)
    ensures Visible(Collapse(s)) == Visible(s)
    decreases |s|
  {
    if s != [] {
      if IsSpace(s[0]) {
        VisibleCollapse(TrimStart(s));
        VisibleTrimStart(s);
        assert Visible([' '] + Collapse(TrimStart(s))) == Visible(Collapse(TrimStart(s)));
      } else {
        VisibleCollapse(s[1..]);
        assert ([s[0]] + Collapse(s[1..]))[1..] == Collapse(s[1..]);
      }
    }
  }

  /** Normalization only rewrites whitespace: the visible characters of the
      result are exactly those of the folded text. */
  lemma NormalizeKeepsVisible(f: CharFolding, s: string)
    ensures Visible(NormalizeForSearch(f, s)) == Visible(Fold(f, s))
  {
    if s != [] {
      var c := Collapse(Fold(f, s));
      VisibleCollapse(Fold(f, s));
      VisibleTrimStart(c);
      VisibleTrimEnd(TrimStart(c));
    } else {
      assert Stripped(f, s) == [];
    }
  }

  /** The longest prefix without whitespace. */
  function Word(s: string): (w: string)
    ensures |w| <= |s| && w == s[..|w|]
    ensures forall k :: 0 <= k < |w| ==> !IsSpace(w[k])
    ensures |w| < |s| ==> IsSpace(s[|w|])
    ensures s != [] && !IsSpace(s[0]) ==> w != []
    decreases |s|
  {
    if s == [] || IsSpace(s[0]) then [] else [s[0]] + Word(s[1..])
  }

  /** The words of a text: its maximal runs of non-whitespace characters,
      in order. */
  function Words(s: string): seq<string>
    decreases |s|
  {
    var t := TrimStart(s);
    if t == [] then [] else [Word(t)] + Words(t[|Word(t)|..])
  }

  /** A non-empty run of non-whitespace characters. */
  predicate IsWord(w: string)
  {
    w != [] && forall j :: 0 <= j < |w| ==> !IsSpace(w[j])
  }

  /** Every word is non-empty and free of whitespace. */
  lemma {:induction false} WordsShape(s: string)
    ensures forall k :: 0 <= k < |Words(s)| ==> IsWord(Words(s)[k])
    decreases |s|
  {
    var t := TrimStart(s);
    if t != [] {
      var w := Word(t);
      WordsShape(t[|w|..]);
      ConsWords(w, Words(t[|w|..]));
    }
  }

  lemma ConsWords(w: string, ws: seq<string>)
    requires IsWord(w)
    requires forall k :: 0 <= k < |ws| ==> IsWord(ws[k])
    ensures forall k :: 0 <= k < |[w] + ws| ==> IsWord(([w] + ws)[k])
  {
    forall k | 0 <= k < |[w] + ws|
      ensures IsWord(([w] + ws)[k])
    {
      if k > 0 {
        assert ([w] + ws)[k] == ws[k - 1];
      }
    }
  }

  /** Collapsing passes a word through unchanged. */
  lemma {:induction false} CollapseWord(w: string, r: string)
    requires forall k :: 0 <= k < |w| ==> !IsSpace(w[k])
    ensures Collapse(w + r) == w + Collapse(r)
    decreases |w|
  {
    if w == [] {
      assert w + r == r;
    } else {
      CollapseWord(w[1..], r);
      CollapseWordStep(w, r);
    }
  }

  /** One step of `CollapseWord`: the first character of the word is kept. */
  lemma CollapseWordStep(w: string, r: string)
    requires w != [] && !IsSpace(w[0])
    requires Collapse(w[1..] + r) == w[1..] + Collapse(r)
    ensures Collapse(w + r) == w + Collapse(r)
  {
    ConsAppend(w, r);
    CollapseCons(w[0], w[1..] + r);
    ConsAppend(w, Collapse(r));
  }

  lemma ConsAppend(w: string, r: string)
    requires w != []
    ensures w + r == [w[0]] + (w[1..] + r)
  {
    assert w == [w[0]] + w[1..];
  }

  /** A non-space character is kept as it is. */
  lemma CollapseCons(a: char, b: string)
    requires !IsSpace(a)
    ensures Collapse([a] + b) == [a] + Collapse(b)
  {
    assert ([a] + b)[1..] == b;
  }

  /** Trailing whitespace removal does not reach into a prefix when the rest
      keeps something. */
  lemma {:induction false} TrimEndAppend(a: string, b: string)
    requires TrimEnd(b) != []
    ensures TrimEnd(a + b) == a + TrimEnd(b)
    decreases |b|
  {
    assert b != [];
    assert (a + b)[|a + b| - 1] == b[|b| - 1];
    if IsSpace(b[|b| - 1]) {
      assert (a + b)[..|a + b| - 1] == a + b[..|b| - 1];
      TrimEndAppend(a, b[..|b| - 1]);
    }
  }

  /** One step of `CollapseJoinsWords`: a word followed by whitespace
      only. */
  lemma WordThenBlank(w: string, rest: string)
    requires IsWord(w) && rest != [] && IsSpace(rest[0]) && TrimStart(rest) == []
    ensures TrimEnd(w + Collapse(rest)) == Join([w] + Words(rest), ' ')
  {
    assert Collapse(rest) == [' '];
    assert Words(rest) == [];
    TrimEndWordSpace(w);
  }

  lemma TrimEndWordSpace(w: string)
    requires IsWord(w)
    ensures TrimEnd(w + [' ']) == w
  {
    assert (w + [' '])[..|w|] == w;
    assert !IsSpace(w[|w| - 1]);
  }

  /** One step of `CollapseJoinsWords`: a word, a space, and a collapsed
      text that starts with a word. */
  lemma WordThenWords(w: string, c: string, joined: string)
    requires c != [] && !IsSpace(c[0]) && TrimEnd(c) == joined
    ensures TrimEnd(w + ([' '] + c)) == w + [' '] + joined
  {
    var a := w + [' '];
    assert w + ([' '] + c) == a + c;
    assert TrimEnd(a + c) == a + joined by {
      TrimEndAppend(a, c);
    }
  }

  /** A text collapses, once its leading and trailing whitespace is gone,
      into its words joined by single spaces. */
  lemma {:induction false} CollapseJoinsWords(s: string)
    ensures TrimEnd(Collapse(TrimStart(s))) == Join(Words(s), ' ')
    decreases |s|
  {
    var t := TrimStart(s);
    if t != [] {
      var w := Word(t);
      var rest := t[|w|..];
      assert IsWord(w);
      assert Collapse(t) == w + Collapse(rest) by {
        assert t == w + rest;
        CollapseWord(w, rest);
      }
      assert Words(s) == [w] + Words(rest);
      if rest == [] {
        assert Collapse(t) == w;
        assert TrimEnd(w) == w by {
          assert !IsSpace(w[|w| - 1]);
        }
      } else {
        CollapseJoinsWords(rest);
        if TrimStart(rest) == [] {
          WordThenBlank(w, rest);
        } else {
          var c2 := Collapse(TrimStart(rest));
          CollapseShape(TrimStart(rest));
          var ws := Words(rest);
          assert Collapse(rest) == [' '] + c2 by {
            assert rest[0] == t[|w|];
            assert IsSpace(rest[0]);
          }
          WordThenWords(w, c2, Join(ws, ' '));
          assert Join([w] + ws, ' ') == w + [' '] + Join(ws, ' ') by {
            assert ws != [];
            assert ([w] + ws)[1..] == ws;
          }
        }
      }
    }
  }

  /** `normalizeForSearch` yields exactly the words of the folded text, each
      separated from the next by one space: no word is lost, split or glued
      to its neighbour. */
  lemma NormalizedWords(f: CharFolding, s: string)
    ensures NormalizeForSearch(f, s) == Join(Words(Fold(f, s)), ' ')
  {
    var x := Fold(f, s);
    if s == [] {
      assert Stripped(f, s) == [];
      assert TrimStart(x) == [];
    } else {
      var c := Collapse(x);
      CollapseJoinsWords(x);
      if x != [] && IsSpace(x[0]) {
        assert c == [' '] + Collapse(TrimStart(x));
        assert TrimStart(c) == TrimStart(Collapse(TrimStart(x)));
      }
      var c1 := Collapse(TrimStart(x));
      CollapseShape(TrimStart(x));
      assert c1 == [] || c1[0] != ' ';
      assert TrimStart(c1) == c1;
    }
  }

  /** Hence the tokens `highlightText` and `fuzzyScore` split a normalized
      query into are exactly the words of the folded query. */
  lemma NormalizedTokensAreWords(f: CharFolding, s: string)
    requires NormalizeForSearch(f, s) != []
    ensures Split(NormalizeForSearch(f, s), ' ') == Words(Fold(f, s))
  {
    var ws := Words(Fold(f, s));
    NormalizedWords(f, s);
    WordsShape(Fold(f, s));
    assert ws != [];
    forall k | 0 <= k < |ws|
      ensures ' ' !in ws[k]
    {
      assert IsWord(ws[k]);
    }
    SplitJoin(ws, ' ');
  }

  /** The folded copy of a string with, for each of its characters, the
      index of the original character it came from. */
  datatype PositionMap = PositionMap(normalized: string, mapping: seq<nat>)

  /** The original index behind each character of `Stripped(f, s)`. */
  function Origins(f: CharFolding, s: string): (m: seq<nat>)
    ensures |m| == |Stripped(f, s)|
    ensures forall k :: 0 <= k < |m| ==> m[k] < |s|
    ensures forall k, j :: 0 <= k <= j < |m| ==> m[k] <= m[j]
    ensures forall k :: 0 <= k < |m| ==> Stripped(f, s)[k] in f.decompose(s[m[k]])
    decreases |s|
  {
    if s == [] then []
    else
      var init := s[..|s| - 1];
      var m := Origins(f, init);
      var r := m + seq(|f.decompose(s[|s| - 1])|, _ => |s| - 1);
      OriginsStep(f, s, m, r);
      r
  }

  lemma OriginsStep(f: CharFolding, s: string, m: seq<nat>, r: seq<nat>)
    requires s != []
    requires |m| == |Stripped(f, s[..|s| - 1])|
    requires forall k :: 0 <= k < |m| ==> m[k] < |s| - 1
    requires forall k, j :: 0 <= k <= j < |m| ==> m[k] <= m[j]
    requires forall k :: 0 <= k < |m| ==> Stripped(f, s[..|s| - 1])[k] in f.decompose(s[..|s| - 1][m[k]])
    requires r == m + seq(|f.decompose(s[|s| - 1])|, _ => |s| - 1)
    ensures |r| == |Stripped(f, s)|
    ensures forall k :: 0 <= k < |r| ==> r[k] < |s|
    ensures forall k, j :: 0 <= k <= j < |r| ==> r[k] <= r[j]
    ensures forall k :: 0 <= k < |r| ==> Stripped(f, s)[k] in f.decompose(s[r[k]])
  {
    var init, d := s[..|s| - 1], f.decompose(s[|s| - 1]);
    var st := Stripped(f, init);
    assert Stripped(f, s) == st + d;
    forall k | 0 <= k < |r|
      ensures Stripped(f, s)[k] in f.decompose(s[r[k]])
    {
      if k < |m| {
        assert r[k] == m[k] && init[m[k]] == s[m[k]];
        assert Stripped(f, s)[k] == st[k];
      } else {
        assert r[k] == |s| - 1;
        assert Stripped(f, s)[k] == d[k - |m|];
      }
    }
  }

  lemma LoweredKeepsMembership(f: CharFolding, d: string, x: char)
    requires x in d
    ensures f.lower(x) in Lowered(f, d)
  {
    var j :| 0 <= j < |d| && d[j] == x;
    assert Lowered(f, d)[j] == f.lower(x);
  }

  /** The position map of a string: its folded text and the origin of
      each folded character. */
  function NormalizedMap(f: CharFolding, s: string): PositionMap
  {
    PositionMap(Fold(f, s), Origins(f, s))
  }

  /** What the position map guarantees: one original index per folded
      character, in non-decreasing order, each inside the original, and
      each folded character a lower-cased character of the stripped
      decomposition of the original character it points to. */
  lemma PositionMapShape(f: CharFolding, original: string)
    ensures var pm := NormalizedMap(f, original);
      && |pm.mapping| == |pm.normalized|
      && (forall k :: 0 <= k < |pm.mapping| ==> pm.mapping[k] < |original|)
      && (forall k, j :: 0 <= k <= j < |pm.mapping| ==> pm.mapping[k] <= pm.mapping[j])
      && (forall k :: 0 <= k < |pm.normalized| ==>
            pm.normalized[k] in Lowered(f, f.decompose(original[pm.mapping[k]])))
  {
    var pm := NormalizedMap(f, original);
    var stripped := Stripped(f, original);
    forall k | 0 <= k < |pm.normalized|
      ensures pm.normalized[k] in Lowered(f, f.decompose(original[pm.mapping[k]]))
    {
      LoweredKeepsMembership(f, f.decompose(original[pm.mapping[k]]), stripped[k]);
    }
  }

  /** `buildNormalizedMap` (script.js): walks the original one character at
      a time, appending each character of its stripped decomposition and
      the character's index, then lower-cases the whole folded text. */
  method BuildNormalizedMap(f: CharFolding, original: string) returns (pm: PositionMap)
    ensures pm == NormalizedMap(f, original)
  {
    var mapping: seq<nat> := [];
    var normalized: string := [];
    for i := 0 to |original|
      invariant mapping == Origins(f, original[..i])
      invariant normalized == Stripped(f, original[..i])
    {
      var n := f.decompose(original[i]);
      for k := 0 to |n|
        invariant mapping == Origins(f, original[..i]) + seq(k, _ => i)
        invariant normalized == Stripped(f, original[..i]) + n[..k]
      {
        assert seq(k, _ => i) + [i] == seq(k + 1, _ => i);
        assert n[..k] + [n[k]] == n[..k + 1];
        mapping := mapping + [i];
        normalized := normalized + [n[k]];
      }
      assert original[..i + 1][..i] == original[..i];
      assert n[..|n|] == n;
    }
    assert original[..|original|] == original;
    pm := PositionMap(Lowered(f, normalized), mapping);
  }
}
