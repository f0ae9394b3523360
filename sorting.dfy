/** `Array.prototype.sort` with a comparator that subtracts integer keys
    (`(a, b) => a[0] - b[0]` in `mergeRanges`, `(a, b) => b.score - a.score`
    in `performSearch`): a stable sort, ascending by the key. */
module Sorting {

  predicate SortedBy<T>(s: seq<T>, key: T -> int)
  {
    forall i, j :: 0 <= i < j < |s| ==> key(s[i]) <= key(s[j])
  }

  /** `a` comes before `b`: smaller key, or equal key and smaller tag. */
  predicate Before<T>(key: T -> int, tag: T -> int, a: T, b: T)
  {
    key(a) < key(b) || (key(a) == key(b) && tag(a) < tag(b))
  }

  predicate SortedByThen<T>(s: seq<T>, key: T -> int, tag: T -> int)
  {
    forall i, j :: 0 <= i < j < |s| ==> Before(key, tag, s[i], s[j])
  }

  /** Places `x` after every element whose key is not greater than its own. */
  function Insert<T>(s: seq<T>, x: T, key: T -> int): (r: seq<T>)
    ensures multiset(r) == multiset(s) + multiset{x}
  {
    if s == [] || key(s[|s| - 1]) <= key(x) then s + [x]
    else
      var init := s[..|s| - 1];
      assert s == init + [s[|s| - 1]];
      Insert(init, x, key) + [s[|s| - 1]]
  }

  /** Insertion sort, the element order a stable sort produces. */
  function SortBy<T>(s: seq<T>, key: T -> int): (r: seq<T>)
    ensures multiset(r) == multiset(s)
  {
    if s == [] then []
    else
      var init := s[..|s| - 1];
      assert s == init + [s[|s| - 1]];
      Insert(SortBy(init, key), s[|s| - 1], key)
  }

  lemma {:induction false} InsertSorted<T>(s: seq<T>, x: T, key: T -> int)
    requires SortedBy(s, key)
    ensures SortedBy(Insert(s, x, key), key)
  {
    if !(s == [] || key(s[|s| - 1]) <= key(x)) {
      var init := s[..|s| - 1];
      var last := s[|s| - 1];
      InsertSorted(init, x, key);
      var r := Insert(init, x, key);
      forall e | e in r ensures key(e) <= key(last) {
        assert e in multiset(r);
        if e != x {
          assert e in multiset(init);
          var i :| 0 <= i < |init| && init[i] == e;
          assert s[i] == e;
        }
      }
      var out := r + [last];
      forall i, j | 0 <= i < j < |out| ensures key(out[i]) <= key(out[j]) {
        if j == |r| {
          assert out[i] in r;
        } else {
          assert out[i] == r[i] && out[j] == r[j];
        }
      }
    }
  }

  /** The sort orders by key. */
  lemma {:induction false} SortBySorted<T>(s: seq<T>, key: T -> int)
    ensures SortedBy(SortBy(s, key), key)
  {
    if s != [] {
      SortBySorted(s[..|s| - 1], key);
      InsertSorted(SortBy(s[..|s| - 1], key), s[|s| - 1], key);
    }
  }

  lemma {:induction false} InsertStable<T>(s: seq<T>, x: T, key: T -> int, tag: T -> int)
    requires SortedByThen(s, key, tag)
    requires forall e :: e in s ==> tag(e) < tag(x)
    ensures SortedByThen(Insert(s, x, key), key, tag)
  {
    if s == [] || key(s[|s| - 1]) <= key(x) {
      var out := s + [x];
      forall i, j | 0 <= i < j < |out| ensures Before(key, tag, out[i], out[j]) {
        if j == |s| {
          assert out[i] in s;
          if i < |s| - 1 {
            assert Before(key, tag, s[i], s[|s| - 1]);
          }
        } else {
          assert out[i] == s[i] && out[j] == s[j];
        }
      }
    } else {
      var init := s[..|s| - 1];
      var last := s[|s| - 1];
      forall e | e in init ensures tag(e) < tag(x) {
        var i :| 0 <= i < |init| && init[i] == e;
        assert s[i] == e;
      }
      InsertStable(init, x, key, tag);
      var r := Insert(init, x, key);
      forall e | e in r ensures Before(key, tag, e, last) {
        assert e in multiset(r);
        if e != x {
          assert e in multiset(init);
          var i :| 0 <= i < |init| && init[i] == e;
          assert s[i] == e;
        }
      }
      var out := r + [last];
      forall i, j | 0 <= i < j < |out| ensures Before(key, tag, out[i], out[j]) {
        if j == |r| {
          assert out[i] in r;
        } else {
          assert out[i] == r[i] && out[j] == r[j];
        }
      }
    }
  }

  /** Stability: if the input is in increasing order of `tag`, elements
      with equal keys keep that order in the output. */
  lemma {:induction false} SortByStable<T>(s: seq<T>, key: T -> int, tag: T -> int)
    requires forall i, j :: 0 <= i < j < |s| ==> tag(s[i]) < tag(s[j])
    ensures SortedByThen(SortBy(s, key), key, tag)
  {
    if s != [] {
      var init := s[..|s| - 1];
      var x := s[|s| - 1];
      SortByStable(init, key, tag);
      var r := SortBy(init, key);
      forall e | e in r ensures tag(e) < tag(x) {
        assert e in multiset(r);
        assert e in multiset(init);
        var i :| 0 <= i < |init| && init[i] == e;
        assert s[i] == e;
      }
      InsertStable(r, x, key, tag);
    }
  }
}
