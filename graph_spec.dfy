/**
 * What `build_actor_graph` (src/task_3_graph/main.py) computes, as
 * functions of its input, and what follows from that.
 *
 * The input dict `actor -> [movie records]` is a sequence of
 * `(actor, movies)` pairs in the dict's iteration order. The graph is its
 * node set plus, for every edge, the edge's `movies` attribute.
 */
module ActorGraphSpec {
  import opened Wrappers
  import opened PyStr
  import opened Grouping
  import opened Pairing

  /** A movie record: its `title` and `airdate` fields. */
  datatype Movie = Movie(title: string, airdate: string)

  /** A movie's identity: its title and the year of its airdate. */
  type MovieKey = (string, int)

  /** The input dict, in iteration order. */
  type Data = seq<(string, seq<Movie>)>

  /** The input with every movie record replaced by its key. */
  type Listing = seq<(string, seq<MovieKey>)>

  datatype Graph = Graph(nodes: set<string>, edges: map<Edge, seq<MovieKey>>)

  /** `airdate[:4]`: the first four characters, or all of a shorter string. */
  function YearPrefix(airdate: string): (p: string)
    ensures |p| == if |airdate| < 4 then |airdate| else 4
    ensures p <= airdate
  {
    if |airdate| < 4 then airdate else airdate[..4]
  }

  /** `int(airdate[:4])`; None where that raises `ValueError`. */
  function Year(airdate: string): Option<int> {
    ParseInt(YearPrefix(airdate))
  }

  predicate Dated(m: Movie) {
    Year(m.airdate).Some?
  }

  function Key(m: Movie): MovieKey
    requires Dated(m)
  {
    (m.title, Year(m.airdate).value)
  }

  predicate MoviesDated(movies: seq<Movie>) {
    forall t :: 0 <= t < |movies| ==> Dated(movies[t])
  }

  /** Every airdate of the input has an integer year. */
  predicate AllDated(data: Data) {
    forall i, t :: 0 <= i < |data| && 0 <= t < |data[i].1| ==> Dated(data[i].1[t])
  }

  /** Movie `t` is the first of `movies` whose airdate has no integer year. */
  predicate FirstUndatedMovie(movies: seq<Movie>, t: int) {
    0 <= t < |movies| && !Dated(movies[t]) && MoviesDated(movies[..t])
  }

  /**
   * Movie `t` of entry `i` is the first movie of the input, in its order,
   * whose airdate has no integer year: the one `int()` raises on.
   */
  predicate FirstUndated(data: Data, i: int, t: int) {
    0 <= i < |data| && AllDated(data[..i]) && FirstUndatedMovie(data[i].1, t)
  }

  /** There is at most one first undated movie, so the build's error literal is determined by its input. */
  lemma FirstUndatedUnique(data: Data, i: int, t: int, i': int, t': int)
    requires FirstUndated(data, i, t) && FirstUndated(data, i', t')
    ensures i == i' && t == t'
  {
    if i < i' {
      DatedBefore(data, i', i, t);
    } else if i' < i {
      DatedBefore(data, i, i', t');
    } else if t < t' {
      DatedMovieBefore(data[i].1, t', t);
    } else if t' < t {
      DatedMovieBefore(data[i].1, t, t');
    }
  }

  lemma DatedMovieBefore(movies: seq<Movie>, n: nat, t: nat)
    requires n <= |movies| && MoviesDated(movies[..n]) && t < n
    ensures Dated(movies[t])
  {
    assert movies[..n][t] == movies[t];
  }

  lemma DatedBefore(data: Data, n: nat, i: nat, t: nat)
    requires n <= |data| && AllDated(data[..n]) && i < n && t < |data[i].1|
    ensures Dated(data[i].1[t])
  {
    assert data[..n][i] == data[i];
  }

  /** The keys of a list of movies; None when an airdate has no integer year. */
  function MovieKeys(movies: seq<Movie>): Option<seq<MovieKey>> {
    if movies == [] then Some([])
    else
      var last := movies[|movies| - 1];
      var init := MovieKeys(movies[..|movies| - 1]);
      if init.None? || !Dated(last) then None else Some(init.value + [Key(last)])
  }

  /** The input with every movie replaced by its key; None when an airdate has no integer year. */
  function Keyed(data: Data): Option<Listing> {
    if data == [] then Some([])
    else
      var last := data[|data| - 1];
      var init := Keyed(data[..|data| - 1]);
      var keys := MovieKeys(last.1);
      if init.None? || keys.None? then None else Some(init.value + [(last.0, keys.value)])
  }

  /** The keys of the input dict. */
  function Actors(kd: Listing): set<string> {
    set i | 0 <= i < |kd| :: kd[i].0
  }

  /** The reverse-index appends `(movie key, actor)` made for one actor's movies, in order. */
  function ActorEntries(actor: string, keys: seq<MovieKey>): seq<(MovieKey, string)> {
    seq(|keys|, t requires 0 <= t < |keys| => (keys[t], actor))
  }

  /** Every reverse-index append, in the order the loop over the input makes them. */
  function Entries(kd: Listing): seq<(MovieKey, string)> {
    if kd == [] then []
    else Entries(kd[..|kd| - 1]) + ActorEntries(kd[|kd| - 1].0, kd[|kd| - 1].1)
  }

  function Tagged(es: seq<Edge>, k: MovieKey): seq<(Edge, MovieKey)> {
    seq(|es|, n requires 0 <= n < |es| => (es[n], k))
  }

  /**
   * The appends to edge `movies` lists that the pairing loop makes for the
   * movie keys `keys`, visited in order, with the reverse index given by `log`.
   */
  function EdgeLog(keys: seq<MovieKey>, log: seq<(MovieKey, string)>): seq<(Edge, MovieKey)> {
    if keys == [] then []
    else
      var k := keys[|keys| - 1];
      EdgeLog(keys[..|keys| - 1], log) + Tagged(Pairs(Values(log, k)), k)
  }

  /** The graph `build_actor_graph(kd)` returns. */
  function ActorGraph(kd: Listing): Graph {
    var log := Entries(kd);
    Graph(Actors(kd), Collect(EdgeLog(Order(log), log)))
  }

  /** `G[a][b]["movies"]`, or the empty list when there is no such edge. */
  function EdgeMovies(g: Graph, a: string, b: string): seq<MovieKey> {
    if Link(a, b) in g.edges then g.edges[Link(a, b)] else []
  }

  /** How many times actor `a`'s list holds a movie with key `m`. */
  function Appearances(kd: Listing, a: string, m: MovieKey): nat {
    multiset(Entries(kd))[(m, a)]
  }

  /** Some list of actor `a` holds a movie with key `m`. */
  predicate Lists(kd: Listing, a: string, m: MovieKey) {
    exists i, t :: 0 <= i < |kd| && 0 <= t < |kd[i].1| && kd[i].0 == a && kd[i].1[t] == m
  }

  /** A date starting with four digits has the year they spell. */
  lemma YearOfDate(airdate: string)
    requires |airdate| >= 4 && forall k :: 0 <= k < 4 ==> IsDigit(airdate[k])
    ensures Year(airdate) == Some(DigitsValue(airdate[..4]))
  {
    ParseDigits(airdate[..4]);
  }

  /** A date whose first four characters hold no digit has no year. */
  lemma UndatedWithoutDigits(airdate: string)
    requires forall k :: 0 <= k < |airdate| && k < 4 ==> !IsDigit(airdate[k])
    ensures Year(airdate).None?
  {
    NoDigitsNoInt(YearPrefix(airdate));
  }

  /** An airdate with an information separator U+001C to U+001F among its first four characters has no year. */
  lemma SeparatorInPrefixUndated(airdate: string, k: nat)
    requires k < 4 && k < |airdate| && '\U{1C}' <= airdate[k] <= '\U{1F}'
    ensures Year(airdate).None?
  {
    var p := YearPrefix(airdate);
    assert p[k] == airdate[k];
    SeparatorNeverSkipped(p, k);
  }

  /** An airdate padded with U+001C has no year even beside a non-ASCII space, so the build fails on it. */
  lemma SeparatorPaddedUndated()
    ensures YearPrefix("\U{1C}19\U{A0}-05") == "\U{1C}19\U{A0}"
    ensures Year("\U{1C}19\U{A0}-05").None?
  {
    var p := YearPrefix("\U{1C}19\U{A0}-05");
    assert p == "\U{1C}19\U{A0}";
    assert IntStripLeft(p) == p;
    assert IntStripRight(p) == "\U{1C}19";
    assert !ValidDigits("\U{1C}19");
  }

  /** A list of movies has keys exactly when every airdate in it has a year. */
  lemma MovieKeysDefined(movies: seq<Movie>)
    ensures MovieKeys(movies).Some? <==> MoviesDated(movies)
  {
    if MovieKeys(movies).Some? {
      forall t | 0 <= t < |movies|
        ensures Dated(movies[t])
      {
        MovieKeyAt(movies, t);
      }
    }
    if MoviesDated(movies) {
      DatedHasKeys(movies);
    }
  }

  lemma {:induction false} DatedHasKeys(movies: seq<Movie>)
    requires MoviesDated(movies)
    ensures MovieKeys(movies).Some?
  {
    if movies != [] {
      var p := movies[..|movies| - 1];
      assert MoviesDated(p) by {
        forall t | 0 <= t < |p|
          ensures Dated(p[t])
        {
          assert p[t] == movies[t];
        }
      }
      DatedHasKeys(p);
      assert Dated(movies[|movies| - 1]);
    }
  }

  /** The keys of a list are its movies' keys, one for one. */
  lemma MovieKeysValues(movies: seq<Movie>)
    requires MovieKeys(movies).Some?
    ensures |MovieKeys(movies).value| == |movies|
    ensures forall t :: 0 <= t < |movies| ==> Dated(movies[t]) && MovieKeys(movies).value[t] == Key(movies[t])
  {
    MovieKeysLength(movies);
    forall t | 0 <= t < |movies|
      ensures Dated(movies[t]) && MovieKeys(movies).value[t] == Key(movies[t])
    {
      MovieKeyAt(movies, t);
    }
  }

  lemma {:induction false} MovieKeysLength(movies: seq<Movie>)
    requires MovieKeys(movies).Some?
    ensures |MovieKeys(movies).value| == |movies|
  {
    if movies != [] {
      MovieKeysLength(movies[..|movies| - 1]);
    }
  }

  lemma {:induction false} MovieKeyAt(movies: seq<Movie>, t: nat)
    requires MovieKeys(movies).Some? && t < |movies|
    ensures Dated(movies[t]) && t < |MovieKeys(movies).value| && MovieKeys(movies).value[t] == Key(movies[t])
  {
    var p, last := movies[..|movies| - 1], movies[|movies| - 1];
    assert MovieKeys(p).Some? && Dated(last);
    var ks := MovieKeys(p).value;
    assert MovieKeys(movies).value == ks + [Key(last)];
    MovieKeysLength(p);
    if t < |p| {
      MovieKeyAt(p, t);
      assert movies[t] == p[t];
    }
  }

  /** The input has a keyed form exactly when every airdate in it has a year. */
  lemma {:induction false} KeyedDefined(data: Data)
    ensures Keyed(data).Some? <==> AllDated(data)
  {
    if data != [] {
      var p, last := data[..|data| - 1], data[|data| - 1];
      KeyedDefined(p);
      MovieKeysDefined(last.1);
      AllDatedSnoc(data);
    }
  }

  lemma AllDatedSnoc(data: Data)
    requires data != []
    ensures AllDated(data) <==>
      AllDated(data[..|data| - 1]) && MoviesDated(data[|data| - 1].1)
  {
    var p := data[..|data| - 1];
    assert forall i :: 0 <= i < |p| ==> p[i] == data[i];
  }

  /** The keyed input has the actors of the input, in order, each with the keys of its movies. */
  lemma {:induction false} KeyedValues(data: Data)
    requires Keyed(data).Some?
    ensures |Keyed(data).value| == |data|
    ensures forall i :: 0 <= i < |data| ==>
      Keyed(data).value[i].0 == data[i].0 && Some(Keyed(data).value[i].1) == MovieKeys(data[i].1)
  {
    if data != [] {
      var p := data[..|data| - 1];
      KeyedValues(p);
      assert forall i :: 0 <= i < |p| ==> p[i] == data[i];
    }
  }

  /** An actor appears under a movie key exactly when one of its lists holds that movie. */
  lemma {:induction false} EntriesListed(kd: Listing, a: string, m: MovieKey)
    ensures Appearances(kd, a, m) > 0 <==> Lists(kd, a, m)
  {
    if kd != [] {
      var p, last := kd[..|kd| - 1], kd[|kd| - 1];
      EntriesListed(p, a, m);
      ActorEntriesHas(last.0, last.1, a, m);
      ListsSnoc(kd, a, m);
      assert Entries(kd) == Entries(p) + ActorEntries(last.0, last.1);
    }
  }

  lemma ActorEntriesHas(actor: string, keys: seq<MovieKey>, a: string, m: MovieKey)
    ensures (m, a) in ActorEntries(actor, keys) <==> actor == a && m in keys
  {
    if actor == a && m in keys {
      var t :| 0 <= t < |keys| && keys[t] == m;
      assert ActorEntries(actor, keys)[t] == (m, a);
    }
  }

  lemma ListsSnoc(kd: Listing, a: string, m: MovieKey)
    requires kd != []
    ensures Lists(kd, a, m) <==> Lists(kd[..|kd| - 1], a, m) || (kd[|kd| - 1].0 == a && m in kd[|kd| - 1].1)
  {
    var p, last := kd[..|kd| - 1], kd[|kd| - 1];
    if Lists(p, a, m) {
      var i, t :| 0 <= i < |p| && 0 <= t < |p[i].1| && p[i].0 == a && p[i].1[t] == m;
      assert kd[i] == p[i];
    }
    if last.0 == a && m in last.1 {
      var t :| 0 <= t < |last.1| && last.1[t] == m;
      assert kd[|p|] == last;
    }
    if Lists(kd, a, m) {
      var i, t :| 0 <= i < |kd| && 0 <= t < |kd[i].1| && kd[i].0 == a && kd[i].1[t] == m;
      if i < |p| {
        assert p[i] == kd[i];
      }
    }
  }

  lemma {:induction false} TaggedCount(es: seq<Edge>, k: MovieKey, e: Edge, m: MovieKey)
    ensures multiset(Tagged(es, k))[(e, m)] == if m == k then multiset(es)[e] else 0
  {
    if es != [] {
      var p := es[..|es| - 1];
      TaggedCount(p, k, e, m);
      assert Tagged(es, k) == Tagged(p, k) + [(es[|es| - 1], k)];
      assert es == p + [es[|es| - 1]];
    }
  }

  /** Over distinct movie keys, movie `m` is appended to edge `e` once per pairing of `e` under `m`. */
  lemma {:induction false} EdgeLogCount(keys: seq<MovieKey>, log: seq<(MovieKey, string)>, e: Edge, m: MovieKey)
    requires forall p, q :: 0 <= p < q < |keys| ==> keys[p] != keys[q]
    ensures multiset(EdgeLog(keys, log))[(e, m)] == if m in keys then multiset(Pairs(Values(log, m)))[e] else 0
  {
    if keys != [] {
      var p, k := keys[..|keys| - 1], keys[|keys| - 1];
      EdgeLogCount(p, log, e, m);
      TaggedCount(Pairs(Values(log, k)), k, e, m);
      assert keys == p + [k];
      assert m == k ==> m !in p;
    }
  }

  /** Movie `m` is on edge `e` once for every pairing that forms `e` in the reverse-index list of `m`. */
  lemma EdgeMovieCount(kd: Listing, e: Edge, m: MovieKey)
    ensures var g := ActorGraph(kd);
      multiset(if e in g.edges then g.edges[e] else [])[m] == multiset(Pairs(Values(Entries(kd), m)))[e]
  {
    var log := Entries(kd);
    var keys := Order(log);
    EdgeMoviesValues(kd, e);
    ValuesCount(EdgeLog(keys, log), e, m);
    OrderKeys(log);
    EdgeLogCount(keys, log, e, m);
    if m !in keys {
      CollectValues(log, m);
    }
  }

  /** Each edge's `movies` list is what the pairing loop appended to it, in order. */
  lemma EdgeMoviesValues(kd: Listing, e: Edge)
    ensures var log := Entries(kd);
      var g := ActorGraph(kd);
      (if e in g.edges then g.edges[e] else []) == Values(EdgeLog(Order(log), log), e)
  {
    var log := Entries(kd);
    CollectValues(EdgeLog(Order(log), log), e);
  }

  /**
   * The `movies` list of the edge between distinct actors `a` and `b` holds
   * movie `m` once for every pair of a listing of `m` by `a` and a listing
   * of `m` by `b`.
   */
  lemma CoStarCount(kd: Listing, a: string, b: string, m: MovieKey)
    requires a != b
    ensures multiset(EdgeMovies(ActorGraph(kd), a, b))[m] == Appearances(kd, a, m) * Appearances(kd, b, m)
  {
    var v := Values(Entries(kd), m);
    EdgeMovieCount(kd, Link(a, b), m);
    ValuesCount(Entries(kd), m, a);
    ValuesCount(Entries(kd), m, b);
    PairCount(v, a, b);
  }

  /** A self-loop at `a` holds movie `m` once for every two listings of `m` by `a`. */
  lemma SelfLoopCount(kd: Listing, a: string, m: MovieKey)
    ensures 2 * multiset(EdgeMovies(ActorGraph(kd), a, a))[m] ==
      Appearances(kd, a, m) * (Appearances(kd, a, m) as int - 1)
  {
    var v := Values(Entries(kd), m);
    EdgeMovieCount(kd, Link(a, a), m);
    ValuesCount(Entries(kd), m, a);
    PairSelfCount(v, a);
  }

  /** An edge is created only together with its first movie, so no `movies` list is empty. */
  lemma EdgeMoviesNonEmpty(kd: Listing)
    ensures forall e :: e in ActorGraph(kd).edges ==> ActorGraph(kd).edges[e] != []
  {
    var log := Entries(kd);
    forall e | e in ActorGraph(kd).edges
      ensures ActorGraph(kd).edges[e] != []
    {
      CollectValues(EdgeLog(Order(log), log), e);
    }
  }

  lemma ProductPositive(x: int, y: int)
    ensures x > 0 && y > 0 ==> x * y > 0
    ensures x == 0 || y == 0 ==> x * y == 0
  {
  }

  /** Two distinct actors are adjacent exactly when some movie key is in both their lists. */
  lemma AdjacentIffShareMovie(kd: Listing, a: string, b: string)
    requires a != b
    ensures Link(a, b) in ActorGraph(kd).edges <==> exists m :: Lists(kd, a, m) && Lists(kd, b, m)
  {
    var g := ActorGraph(kd);
    if Link(a, b) in g.edges {
      EdgeMoviesNonEmpty(kd);
      var m := g.edges[Link(a, b)][0];
      CoStarCount(kd, a, b, m);
      ProductPositive(Appearances(kd, a, m), Appearances(kd, b, m));
      EntriesListed(kd, a, m);
      EntriesListed(kd, b, m);
    }
    if exists m :: Lists(kd, a, m) && Lists(kd, b, m) {
      var m :| Lists(kd, a, m) && Lists(kd, b, m);
      EntriesListed(kd, a, m);
      EntriesListed(kd, b, m);
      CoStarCount(kd, a, b, m);
      ProductPositive(Appearances(kd, a, m), Appearances(kd, b, m));
    }
  }

  /** When no actor lists movie `m` twice, a shared movie is recorded once on the edge. */
  lemma SharedMovieRecordedOnce(kd: Listing, a: string, b: string, m: MovieKey)
    requires a != b
    requires Lists(kd, a, m) && Lists(kd, b, m)
    requires Appearances(kd, a, m) <= 1 && Appearances(kd, b, m) <= 1
    ensures multiset(EdgeMovies(ActorGraph(kd), a, b))[m] == 1
  {
    EntriesListed(kd, a, m);
    EntriesListed(kd, b, m);
    CoStarCount(kd, a, b, m);
  }

  /** An actor gets a self-loop exactly when it lists some movie key twice or more. */
  lemma SelfLoopIffRepeat(kd: Listing, a: string)
    ensures Link(a, a) in ActorGraph(kd).edges <==> exists m :: Appearances(kd, a, m) >= 2
  {
    var g := ActorGraph(kd);
    if Link(a, a) in g.edges {
      EdgeMoviesNonEmpty(kd);
      var m := g.edges[Link(a, a)][0];
      SelfLoopCount(kd, a, m);
      var c: int := Appearances(kd, a, m);
      ProductPositive(c, c - 1);
      assert c >= 2;
    }
    if exists m :: Appearances(kd, a, m) >= 2 {
      var m :| Appearances(kd, a, m) >= 2;
      SelfLoopCount(kd, a, m);
      var c: int := Appearances(kd, a, m);
      ProductPositive(c, c - 1);
    }
  }

  /** Every edge joins actors that are keys of the input. */
  lemma EdgesJoinNodes(kd: Listing)
    ensures forall e, x :: e in ActorGraph(kd).edges && x in e ==> x in ActorGraph(kd).nodes
  {
    var log := Entries(kd);
    var keys := Order(log);
    var elog := EdgeLog(keys, log);
    OrderKeys(log);
    forall e, x | e in ActorGraph(kd).edges && x in e
      ensures x in ActorGraph(kd).nodes
    {
      CollectValues(elog, e);
      var m := Values(elog, e)[0];
      ValuesCount(elog, e, m);
      EdgeLogCount(keys, log, e, m);
      var v := Values(log, m);
      PairsMembers(v, e);
      ValuesCount(log, m, x);
      EntriesListed(kd, x, m);
    }
  }

  /** Two actors with one movie each: their keyed form holds the two movies' keys. */
  lemma KeyedTwo(a: string, b: string, m1: Movie, m2: Movie)
    requires Dated(m1) && Dated(m2)
    ensures Keyed([(a, [m1]), (b, [m2])]) == Some([(a, [Key(m1)]), (b, [Key(m2)])])
  {
    OneKey(m1);
    OneKey(m2);
    var r1, r2 := (a, [Key(m1)]), (b, [Key(m2)]);
    var first: Data := [(a, [m1])];
    assert first[..0] == [];
    assert Keyed(first) == Some([] + [r1]);
    assert [] + [r1] == [r1];
    var data: Data := [(a, [m1]), (b, [m2])];
    assert data[..1] == first;
    assert Keyed(data) == Some([r1] + [r2]);
    assert [r1] + [r2] == [r1, r2];
  }

  lemma OneKey(m: Movie)
    requires Dated(m)
    ensures MovieKeys([m]) == Some([Key(m)])
  {
    var k := Key(m);
    assert MovieKeys([m]) == Some([] + [k]);
    assert [] + [k] == [k];
  }

  /**
   * Movie identity includes the year: two actors whose only movies share a
   * title but not the year of their airdates are not linked.
   */
  lemma SameTitleOtherYear(a: string, b: string, title: string, d1: string, d2: string)
    requires a != b && Year(d1).Some? && Year(d2).Some? && Year(d1) != Year(d2)
    ensures Keyed([(a, [Movie(title, d1)]), (b, [Movie(title, d2)])]).Some?
    ensures Link(a, b) !in ActorGraph(Keyed([(a, [Movie(title, d1)]), (b, [Movie(title, d2)])]).value).edges
  {
    KeyedTwo(a, b, Movie(title, d1), Movie(title, d2));
    YearSeparates(a, b, title, Year(d1).value, Year(d2).value);
  }

  lemma YearSeparates(a: string, b: string, title: string, y1: int, y2: int)
    requires a != b && y1 != y2
    ensures Link(a, b) !in ActorGraph([(a, [(title, y1)]), (b, [(title, y2)])]).edges
  {
    var kd := [(a, [(title, y1)]), (b, [(title, y2)])];
    assert forall m :: Lists(kd, a, m) ==> m == (title, y1);
    assert forall m :: Lists(kd, b, m) ==> m == (title, y2);
    AdjacentIffShareMovie(kd, a, b);
  }
}
