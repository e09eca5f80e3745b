/** Python's ordering as app.py uses it: `sorted(keys, key=lambda w: (-n1, ..., -nk, w))`.
    Every sort key in the report is a tuple of integers followed by the word
    itself, so it is given here by its integer part; the word always breaks
    the remaining ties. */
module Ordering {
  import opened Counting

  /** Lexicographic order on integer sequences, a proper prefix first: how
      Python compares tuples of integers and strings by code point. */
  predicate LexLess(a: seq<int>, b: seq<int>)
    decreases |a|
  {
    |b| > 0 && (|a| == 0 || a[0] < b[0] || (a[0] == b[0] && LexLess(a[1..], b[1..])))
  }

  lemma {:induction false} LexLessIrreflexive(a: seq<int>)
    ensures !LexLess(a, a)
    decreases |a|
  {
    if |a| > 0 {
      LexLessIrreflexive(a[1..]);
    }
  }

  lemma {:induction false} LexLessTransitive(a: seq<int>, b: seq<int>, c: seq<int>)
    requires LexLess(a, b) && LexLess(b, c)
    ensures LexLess(a, c)
    decreases |a|
  {
    if |a| > 0 && a[0] == b[0] == c[0] {
      LexLessTransitive(a[1..], b[1..], c[1..]);
    }
  }

  lemma {:induction false} LexLessTotal(a: seq<int>, b: seq<int>)
    requires a != b
    ensures LexLess(a, b) || LexLess(b, a)
    decreases |a|
  {
    if |a| > 0 && |b| > 0 && a[0] == b[0] {
      assert a == [a[0]] + a[1..] && b == [b[0]] + b[1..];
      LexLessTotal(a[1..], b[1..]);
    }
  }

  /** The code points of a word. */
  function CodePoints(w: string): seq<int>
  {
    seq(|w|, i requires 0 <= i < |w| => w[i] as int)
  }

  /** Python's `v < w` on strings. */
  predicate StrLess(v: string, w: string)
  {
    LexLess(CodePoints(v), CodePoints(w))
  }

  lemma CodePointsInjective(v: string, w: string)
    requires CodePoints(v) == CodePoints(w)
    ensures v == w
  {
    assert |v| == |CodePoints(v)|;
    forall i | 0 <= i < |v| ensures v[i] == w[i] {
      assert CodePoints(v)[i] == CodePoints(w)[i];
    }
  }

  /** `v` comes before `w` under the Python key `key(v) + (v,)` against `key(w) + (w,)`. */
  predicate Before(key: Token -> seq<int>, v: Token, w: Token)
  {
    LexLess(key(v), key(w)) || (key(v) == key(w) && StrLess(v, w))
  }

  lemma BeforeIrreflexive(key: Token -> seq<int>, w: Token)
    ensures !Before(key, w, w)
  {
    LexLessIrreflexive(key(w));
    LexLessIrreflexive(CodePoints(w));
  }

  lemma BeforeTransitive(key: Token -> seq<int>, u: Token, v: Token, w: Token)
    requires Before(key, u, v) && Before(key, v, w)
    ensures Before(key, u, w)
  {
    if LexLess(key(u), key(v)) && LexLess(key(v), key(w)) {
      LexLessTransitive(key(u), key(v), key(w));
    } else if !LexLess(key(u), key(v)) && !LexLess(key(v), key(w)) {
      LexLessTransitive(CodePoints(u), CodePoints(v), CodePoints(w));
    }
  }

  /** Since the word is the last component of every key, two different words never tie. */
  lemma BeforeTotal(key: Token -> seq<int>, v: Token, w: Token)
    requires v != w
    ensures Before(key, v, w) || Before(key, w, v)
  {
    if key(v) != key(w) {
      LexLessTotal(key(v), key(w));
    } else {
      if CodePoints(v) == CodePoints(w) {
        CodePointsInjective(v, w);
      }
      LexLessTotal(CodePoints(v), CodePoints(w));
    }
  }

  /** Ordered as `sorted` leaves it: no element comes before one to its left. */
  ghost predicate Sorted(s: seq<Token>, key: Token -> seq<int>)
  {
    forall i, j :: 0 <= i < j < |s| ==> !Before(key, s[j], s[i])
  }

  /** The result of `sorted(keys, key=...)` for a set (or a dict's keys):
      each key exactly once, in sorted order. */
  ghost predicate SortedOf(r: seq<Token>, keys: set<Token>, key: Token -> seq<int>)
  {
    multiset(r) == multiset(keys) && Sorted(r, key)
  }

  /** Inserts `x` in front of the first element it comes before. */
  function Insert(x: Token, s: seq<Token>, key: Token -> seq<int>): (r: seq<Token>)
    ensures multiset(r) == multiset(s) + multiset{x}
  {
    if s == [] then [x]
    else if Before(key, x, s[0]) then [x] + s
    else
      assert s == [s[0]] + s[1..];
      [s[0]] + Insert(x, s[1..], key)
  }

  /** Insertion sort: a permutation of `s`. */
  function SortBy(s: seq<Token>, key: Token -> seq<int>): (r: seq<Token>)
    ensures multiset(r) == multiset(s)
  {
    if s == [] then []
    else
      assert s == [s[0]] + s[1..];
      Insert(s[0], SortBy(s[1..], key), key)
  }

  lemma {:induction false} InsertSorted(x: Token, s: seq<Token>, key: Token -> seq<int>)
    requires Sorted(s, key)
    ensures Sorted(Insert(x, s, key), key)
    decreases |s|
  {
    if s == [] {
    } else if Before(key, x, s[0]) {
      var r := [x] + s;
      forall i, j | 0 <= i < j < |r| ensures !Before(key, r[j], r[i]) {
        if i == 0 && Before(key, r[j], x) {
          BeforeTransitive(key, r[j], x, s[0]);
          if j == 1 {
            BeforeIrreflexive(key, s[0]);
          }
          assert false;
        }
      }
    } else {
      InsertSorted(x, s[1..], key);
      var t := Insert(x, s[1..], key);
      var r := [s[0]] + t;
      forall i, j | 0 <= i < j < |r| ensures !Before(key, r[j], r[i]) {
        if i == 0 {
          assert r[j] in multiset(t);
          if r[j] != x {
            assert r[j] in multiset(s[1..]);
            var k :| 0 <= k < |s[1..]| && s[1..][k] == r[j];
            assert s[k + 1] == r[j];
          }
        } else {
          assert r[i] == t[i - 1] && r[j] == t[j - 1];
        }
      }
    }
  }

  /** The insertion sort leaves its result sorted. */
  lemma {:induction false} SortBySorted(s: seq<Token>, key: Token -> seq<int>)
    ensures Sorted(SortBy(s, key), key)
    decreases |s|
  {
    if s != [] {
      SortBySorted(s[1..], key);
      InsertSorted(s[0], SortBy(s[1..], key), key);
    }
  }

  /** Two sorted arrangements of the same elements are the same sequence:
      the order `sorted` produces does not depend on the order it reads its input in. */
  lemma {:induction false} SortedUnique(a: seq<Token>, b: seq<Token>, key: Token -> seq<int>)
    requires Sorted(a, key) && Sorted(b, key)
    requires multiset(a) == multiset(b)
    ensures a == b
    decreases |a|
  {
    assert |a| == |multiset(a)| == |multiset(b)| == |b|;
    if a != [] {
      if a[0] != b[0] {
        assert b[0] in multiset(a) && a[0] in multiset(b);
        var j :| 0 <= j < |a| && a[j] == b[0];
        var k :| 0 <= k < |b| && b[k] == a[0];
        BeforeTotal(key, a[0], b[0]);
        assert false;
      }
      assert a == [a[0]] + a[1..] && b == [b[0]] + b[1..];
      assert multiset(a) == multiset{a[0]} + multiset(a[1..]);
      assert multiset(b) == multiset{a[0]} + multiset(b[1..]);
      assert forall x :: multiset(a[1..])[x] == multiset(a)[x] - multiset{a[0]}[x] == multiset(b[1..])[x];
      SortedUnique(a[1..], b[1..], key);
    }
  }

  /** An element that occurs at two positions is counted twice. */
  lemma RepeatCounted(r: seq<Token>, i: int, j: int)
    requires 0 <= i < j < |r| && r[i] == r[j]
    ensures multiset(r)[r[i]] >= 2
  {
    assert r == r[..j] + r[j..];
    assert r[i] in multiset(r[..j]) && r[j] in multiset(r[j..]);
  }

  /** A sorted arrangement of a set lists each element once, strictly ordered. */
  lemma SortedOfStrict(r: seq<Token>, keys: set<Token>, key: Token -> seq<int>, i: int, j: int)
    requires SortedOf(r, keys, key)
    requires 0 <= i < j < |r|
    ensures Before(key, r[i], r[j])
  {
    assert r[i] != r[j] by {
      if r[i] == r[j] {
        RepeatCounted(r, i, j);
      }
    }
    BeforeTotal(key, r[i], r[j]);
  }

  /** `sorted(keys, key=...)` over a set: the set is read in some unspecified
      order and then sorted. */
  method SortSet(keys: set<Token>, key: Token -> seq<int>) returns (r: seq<Token>)
    ensures SortedOf(r, keys, key)
  {
    var listed: seq<Token> := [];
    var rest := keys;
    while rest != {}
      invariant rest <= keys
      invariant multiset(listed) + multiset(rest) == multiset(keys)
      decreases |rest|
    {
      var w :| w in rest;
      assert multiset(rest) == multiset(rest - {w}) + multiset{w};
      listed := listed + [w];
      rest := rest - {w};
    }
    r := SortBy(listed, key);
    SortBySorted(listed, key);
  }
}
