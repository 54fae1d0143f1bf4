/**
 * The pairs the nested loop `for i in range(n): for j in range(i + 1, n)`
 * visits over a list of actors, each pair taken as an undirected edge.
 */
module Pairing {

  /** An undirected edge of `nx.Graph`: `{a, b}`, or `{a}` for a self-loop. */
  type Edge = set<string>

  function Link(a: string, b: string): Edge {
    {a, b}
  }

  /** The edges from `x` to each element of `t`, in order. */
  function Links(x: string, t: seq<string>): seq<Edge> {
    if t == [] then [] else Links(x, t[..|t| - 1]) + [Link(x, t[|t| - 1])]
  }

  /** Every pair of positions `i < j` of `s`, in the order of the nested loop. */
  function Pairs(s: seq<string>): seq<Edge> {
    if s == [] then [] else Links(s[0], s[1..]) + Pairs(s[1..])
  }

  /** The edges the nested loop has produced once rows `0 .. i - 1` are done. */
  function RowsBefore(s: seq<string>, i: nat): seq<Edge>
    requires i <= |s|
  {
    if i == 0 then [] else RowsBefore(s, i - 1) + Links(s[i - 1], s[i..])
  }

  /** After the last row the nested loop has produced exactly `Pairs(s)`. */
  lemma {:induction false} RowsBeforePairs(s: seq<string>, i: nat)
    requires i <= |s|
    ensures RowsBefore(s, i) + Pairs(s[i..]) == Pairs(s)
  {
    if i == 0 {
      assert s[0..] == s;
    } else {
      RowsBeforePairs(s, i - 1);
      assert s[i - 1..][1..] == s[i..];
    }
  }

  lemma LinkEq(x: string, y: string, a: string, b: string)
    requires a != b
    ensures Link(x, y) == Link(a, b) <==> (x == a && y == b) || (x == b && y == a)
  {
    if Link(x, y) == Link(a, b) {
      assert x in Link(a, b) && y in Link(a, b);
      assert a in Link(x, y) && b in Link(x, y);
    }
  }

  lemma SelfLinkEq(x: string, y: string, a: string)
    ensures Link(x, y) == Link(a, a) <==> x == a && y == a
  {
    if Link(x, y) == Link(a, a) {
      assert x in Link(a, a) && y in Link(a, a);
    }
  }

  lemma {:induction false} LinksCount(x: string, t: seq<string>, a: string, b: string)
    requires a != b
    ensures multiset(Links(x, t))[Link(a, b)] ==
      (if x == a then multiset(t)[b] else 0) + (if x == b then multiset(t)[a] else 0)
  {
    if t != [] {
      var p, y := t[..|t| - 1], t[|t| - 1];
      LinksCount(x, p, a, b);
      LinkEq(x, y, a, b);
      assert t == p + [y];
      CountSnoc(Links(x, p), Link(x, y), Link(a, b));
      CountSnoc(p, y, a);
      CountSnoc(p, y, b);
    }
  }

  lemma {:induction false} LinksSelfCount(x: string, t: seq<string>, a: string)
    ensures multiset(Links(x, t))[Link(a, a)] == if x == a then multiset(t)[a] else 0
  {
    if t != [] {
      var p, y := t[..|t| - 1], t[|t| - 1];
      LinksSelfCount(x, p, a);
      SelfLinkEq(x, y, a);
      assert t == p + [y];
      CountSnoc(Links(x, p), Link(x, y), Link(a, a));
      CountSnoc(p, y, a);
    }
  }

  lemma CountSnoc<T>(p: seq<T>, y: T, z: T)
    ensures multiset(p + [y])[z] == multiset(p)[z] + (if y == z then 1 else 0)
  {
    assert multiset(p + [y]) == multiset(p) + multiset{y};
  }

  /** Distinct `a` and `b` are paired once for every occurrence of `a` and every occurrence of `b`. */
  lemma {:induction false} PairCount(s: seq<string>, a: string, b: string)
    requires a != b
    ensures multiset(Pairs(s))[Link(a, b)] == multiset(s)[a] * multiset(s)[b]
  {
    if s != [] {
      var x, t := s[0], s[1..];
      PairCount(t, a, b);
      LinksCount(x, t, a, b);
      assert s == [x] + t;
      var ca, cb := multiset(t)[a], multiset(t)[b];
      assert Pairs(s) == Links(x, t) + Pairs(t);
      var row := multiset(Links(x, t))[Link(a, b)];
      assert multiset(Pairs(s))[Link(a, b)] == row + ca * cb;
      if x == a {
        assert multiset(s)[a] == ca + 1 && multiset(s)[b] == cb;
        ProductStep(multiset(s)[a], multiset(s)[b], ca, cb);
      } else if x == b {
        assert multiset(s)[a] == ca && multiset(s)[b] == cb + 1;
        ProductStep(multiset(s)[b], multiset(s)[a], cb, ca);
      } else {
        assert multiset(s)[a] == ca && multiset(s)[b] == cb;
      }
    }
  }

  lemma ProductStep(x: int, y: int, p: int, q: int)
    requires x == p + 1 && y == q
    ensures x * y == y * x == q + p * q
  {
  }

  lemma PairStep(x: int, c: int)
    requires x == c + 1
    ensures x * (x - 1) == 2 * c + c * (c - 1)
  {
  }

  /** `a` is paired with itself once for every two of its occurrences: `c (c - 1) / 2` times. */
  lemma {:induction false} PairSelfCount(s: seq<string>, a: string)
    ensures 2 * multiset(Pairs(s))[Link(a, a)] == multiset(s)[a] * (multiset(s)[a] as int - 1)
  {
    if s != [] {
      var x, t := s[0], s[1..];
      PairSelfCount(t, a);
      LinksSelfCount(x, t, a);
      assert s == [x] + t;
      var c: int := multiset(t)[a];
      assert Pairs(s) == Links(x, t) + Pairs(t);
      var row := multiset(Links(x, t))[Link(a, a)];
      assert 2 * multiset(Pairs(s))[Link(a, a)] == 2 * row + c * (c - 1);
      if x == a {
        assert multiset(s)[a] == c + 1;
        PairStep(multiset(s)[a], c);
      } else {
        assert multiset(s)[a] == c;
      }
    }
  }

  /** Every paired edge joins two elements of the list. */
  lemma {:induction false} PairsMembers(s: seq<string>, e: Edge)
    requires e in Pairs(s)
    ensures forall x :: x in e ==> x in s
  {
    var t := s[1..];
    assert s == [s[0]] + t;
    if e in Links(s[0], t) {
      LinksMembers(s[0], t, e);
    } else {
      PairsMembers(t, e);
    }
  }

  lemma {:induction false} LinksMembers(x: string, t: seq<string>, e: Edge)
    requires e in Links(x, t)
    ensures exists y :: y in t && e == Link(x, y)
  {
    var p, y := t[..|t| - 1], t[|t| - 1];
    assert t == p + [y];
    if e != Link(x, y) {
      LinksMembers(x, p, e);
    }
  }
}
