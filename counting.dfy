/** Frequency tables: the `collections.Counter` values that app.py builds over
    token sequences (the job description's and each resume's), and the
    Counter lookup that reads an unseen token as 0. */
module Counting {

  /** A cleaned word: lower-case, alphabetic, not a stop word. */
  type Token = string

  /** Counter lookup (`counts[w]`, `counts.get(w, 0)`): an unseen key reads as 0. */
  function Get(m: map<Token, nat>, w: Token): nat
  {
    if w in m then m[w] else 0
  }

  /** `collections.Counter(s)`: one entry per distinct token of `s`, holding
      the number of times it occurs. */
  function Tally(s: seq<Token>): (m: map<Token, nat>)
    ensures forall w :: Get(m, w) == multiset(s)[w]
    ensures forall w :: w in m <==> w in s
    decreases |s|
  {
    if s == [] then map[]
    else
      var prefix, last := s[..|s| - 1], s[|s| - 1];
      assert s == prefix + [last];
      var before := Tally(prefix);
      before[last := Get(before, last) + 1]
  }

  /** Some key of a non-empty table. */
  ghost function Pick(m: map<Token, nat>): (k: Token)
    requires |m| > 0
    ensures k in m
  {
    var k :| k in m; k
  }

  /** The sum of all counts of a table. */
  ghost function Total(m: map<Token, nat>): nat
    decreases |m|
  {
    if |m| == 0 then 0
    else
      var k := Pick(m);
      assert (m - {k}).Keys == m.Keys - {k};
      m[k] + Total(m - {k})
  }

  /** Any entry can be split off the sum, not only the one Total picks. */
  lemma {:induction false} TotalWithout(m: map<Token, nat>, k: Token)
    requires k in m
    ensures Total(m) == m[k] + Total(m - {k})
    decreases |m|
  {
    var j := Pick(m);
    if j != k {
      assert (m - {j}).Keys == m.Keys - {j};
      assert (m - {k}).Keys == m.Keys - {k};
      TotalWithout(m - {j}, k);
      TotalWithout(m - {k}, j);
      assert (m - {j}) - {k} == (m - {k}) - {j};
    }
  }

  /** Setting one entry changes the sum by the difference of the entries. */
  lemma TotalUpdate(m: map<Token, nat>, x: Token, v: nat)
    ensures Total(m[x := v]) + Get(m, x) == Total(m) + v
  {
    TotalWithout(m[x := v], x);
    assert m[x := v] - {x} == m - {x};
    if x in m {
      TotalWithout(m, x);
    } else {
      assert m - {x} == m;
    }
  }

  /** A Counter's counts add up to the length of the sequence it was built from. */
  lemma {:induction false} TallyTotal(s: seq<Token>)
    ensures Total(Tally(s)) == |s|
    decreases |s|
  {
    if s != [] {
      var prefix, last := s[..|s| - 1], s[|s| - 1];
      TallyTotal(prefix);
      var before := Tally(prefix);
      TotalUpdate(before, last, Get(before, last) + 1);
    }
  }
}
