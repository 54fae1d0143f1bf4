/**
 * `build_actor_graph` and `shortest_actor_graph` (src/task_3_graph/main.py)
 * as methods and functions, proved against the functions of ActorGraphSpec.
 */
module ActorGraphBuild {
  import opened Wrappers
  import opened Grouping
  import opened Pairing
  import opened ActorGraphSpec

  /** `int(airdate[:4])` raised `ValueError` on this literal. */
  datatype BuildError = ValueError(literal: string)

  /** The default target of a path query. */
  const BACON: string := "Kevin Bacon"

  /** Adds every actor of the input as a node. */
  method AddNodes(data: Data) returns (nodes: set<string>)
    ensures forall x :: x in nodes <==> exists i :: 0 <= i < |data| && data[i].0 == x
  {
    nodes := {};
    var i := 0;
    while i < |data|
      invariant 0 <= i <= |data|
      invariant forall x :: x in nodes <==> exists k :: 0 <= k < i && data[k].0 == x
    {
      nodes := nodes + {data[i].0};
      i := i + 1;
    }
  }

  /**
   * The reverse index `movie_to_actors`: its keys in insertion order and its
   * lists, built by one append per movie record. Fails on the first airdate
   * without an integer year.
   */
  method ReverseIndex(data: Data) returns (r: Result<(seq<MovieKey>, map<MovieKey, seq<string>>), BuildError>)
    ensures r.Err? <==> Keyed(data).None?
    ensures r.Ok? ==> r.value.0 == Order(Entries(Keyed(data).value)) && r.value.1 == Collect(Entries(Keyed(data).value))
    ensures r.Err? ==> (exists i, t :: FirstUndated(data, i, t) &&
                          r.error == ValueError(YearPrefix(data[i].1[t].airdate)))
  {
    var index: map<MovieKey, seq<string>> := map[];
    var keys: seq<MovieKey> := [];
    ghost var done: Listing := [];
    var i := 0;
    while i < |data|
      invariant 0 <= i <= |data|
      invariant Keyed(data[..i]) == Some(done)
      invariant index == Collect(Entries(done)) && keys == Order(Entries(done))
    {
      var step := IndexMovies(data[i].0, data[i].1, keys, index, Entries(done));
      if step.Err? {
        var t :| FirstUndatedMovie(data[i].1, t) && step.error == ValueError(YearPrefix(data[i].1[t].airdate));
        KeyedDefined(data[..i]);
        assert FirstUndated(data, i, t);
        KeyedDefined(data);
        return Err(step.error);
      }
      ghost var row := MovieKeys(data[i].1).value;
      KeyedStep(data, i, done, row);
      keys, index := step.value.0, step.value.1;
      done := done + [(data[i].0, row)];
      i := i + 1;
    }
    assert data[..i] == data;
    return Ok((keys, index));
  }

  /**
   * The appends `movie_to_actors[key].append(actor)` for one actor's movies,
   * on the dict `(keys, index)` of the appends `log` made so far.
   */
  method IndexMovies(actor: string, movies: seq<Movie>, keys: seq<MovieKey>, index: map<MovieKey, seq<string>>,
                     ghost log: seq<(MovieKey, string)>)
    returns (r: Result<(seq<MovieKey>, map<MovieKey, seq<string>>), BuildError>)
    requires index == Collect(log) && keys == Order(log)
    ensures r.Err? <==> MovieKeys(movies).None?
    ensures r.Ok? ==> var log' := log + ActorEntries(actor, MovieKeys(movies).value);
                      r.value.0 == Order(log') && r.value.1 == Collect(log')
    ensures r.Err? ==> (exists t :: FirstUndatedMovie(movies, t) &&
                          r.error == ValueError(YearPrefix(movies[t].airdate)))
  {
    var keys', index' := keys, index;
    ghost var row: seq<MovieKey> := [];
    ghost var log' := log;
    var t := 0;
    while t < |movies|
      invariant 0 <= t <= |movies|
      invariant MovieKeys(movies[..t]) == Some(row)
      invariant log' == log + ActorEntries(actor, row)
      invariant index' == Collect(log') && keys' == Order(log')
    {
      var year := Year(movies[t].airdate);
      if year.None? {
        MovieKeysUndated(movies, t);
        MovieKeysDefined(movies[..t]);
        assert FirstUndatedMovie(movies, t);
        return Err(ValueError(YearPrefix(movies[t].airdate)));
      }
      var key := (movies[t].title, year.value);
      keys', index' := Append(keys', index', key, actor, log');
      ActorEntriesSnoc(log, actor, row, key);
      MovieKeysStep(movies, t, row);
      log' := log' + [(key, actor)];
      row := row + [key];
      t := t + 1;
    }
    assert movies[..t] == movies;
    return Ok((keys', index'));
  }

  lemma ActorEntriesSnoc(log: seq<(MovieKey, string)>, actor: string, row: seq<MovieKey>, key: MovieKey)
    ensures log + ActorEntries(actor, row + [key]) == (log + ActorEntries(actor, row)) + [(key, actor)]
  {
    assert ActorEntries(actor, row + [key]) == ActorEntries(actor, row) + [(key, actor)];
  }

  lemma MovieKeysStep(movies: seq<Movie>, t: nat, row: seq<MovieKey>)
    requires t < |movies| && MovieKeys(movies[..t]) == Some(row) && Dated(movies[t])
    ensures MovieKeys(movies[..t + 1]) == Some(row + [Key(movies[t])])
  {
    assert movies[..t + 1][..t] == movies[..t];
  }

  lemma MovieKeysUndated(movies: seq<Movie>, t: nat)
    requires t < |movies| && !Dated(movies[t])
    ensures MovieKeys(movies).None?
  {
    MovieKeysDefined(movies);
  }

  lemma KeyedStep(data: Data, i: nat, done: Listing, row: seq<MovieKey>)
    requires i < |data| && Keyed(data[..i]) == Some(done) && MovieKeys(data[i].1) == Some(row)
    ensures Keyed(data[..i + 1]) == Some(done + [(data[i].0, row)])
    ensures Entries(done + [(data[i].0, row)]) == Entries(done) + ActorEntries(data[i].0, row)
  {
    assert data[..i + 1][..i] == data[..i];
    assert (done + [(data[i].0, row)])[..|done|] == done;
  }

  /**
   * The pairing loop: for every movie key in insertion order and every pair
   * `i < j` of its actor list, appends the key to that pair's edge, creating
   * the edge with an empty list first if it is new.
   */
  method ConnectCoStars(keys: seq<MovieKey>, index: map<MovieKey, seq<string>>, ghost log: seq<(MovieKey, string)>)
    returns (edges: map<Edge, seq<MovieKey>>)
    requires keys == Order(log) && index == Collect(log)
    ensures edges == Collect(EdgeLog(keys, log))
  {
    edges := map[];
    var n := 0;
    while n < |keys|
      invariant 0 <= n <= |keys|
      invariant edges == Collect(EdgeLog(keys[..n], log))
    {
      var key := keys[n];
      ListedKey(log, n);
      EdgeLogStep(keys, n, log);
      edges := ConnectActors(index[key], key, edges, EdgeLog(keys[..n], log));
      n := n + 1;
    }
    assert keys[..n] == keys;
  }

  /** The `n`-th key of the reverse index lists the actors logged under it. */
  lemma ListedKey(log: seq<(MovieKey, string)>, n: nat)
    requires n < |Order(log)|
    ensures Order(log)[n] in Collect(log) && Collect(log)[Order(log)[n]] == Values(log, Order(log)[n])
  {
    OrderKeys(log);
    CollectValues(log, Order(log)[n]);
  }

  lemma EdgeLogStep(keys: seq<MovieKey>, n: nat, log: seq<(MovieKey, string)>)
    requires n < |keys|
    ensures EdgeLog(keys[..n + 1], log) == EdgeLog(keys[..n], log) + Tagged(Pairs(Values(log, keys[n])), keys[n])
  {
    assert keys[..n + 1][..n] == keys[..n];
  }

  /**
   * The body of the pairing loop for one movie key: `key` is appended to the
   * edge of every pair `i < j` of `actors`, on the edges of the appends `elog`.
   */
  method ConnectActors(actors: seq<string>, key: MovieKey, edges: map<Edge, seq<MovieKey>>,
                       ghost elog: seq<(Edge, MovieKey)>)
    returns (edges': map<Edge, seq<MovieKey>>)
    requires edges == Collect(elog)
    ensures edges' == Collect(elog + Tagged(Pairs(actors), key))
  {
    edges' := edges;
    assert elog + Tagged(RowsBefore(actors, 0), key) == elog;
    var i := 0;
    while i < |actors|
      invariant 0 <= i <= |actors|
      invariant edges' == Collect(elog + Tagged(RowsBefore(actors, i), key))
    {
      edges' := ConnectRow(actors[i], actors[i + 1..], key, edges', elog + Tagged(RowsBefore(actors, i), key));
      assert RowsBefore(actors, i + 1) == RowsBefore(actors, i) + Links(actors[i], actors[i + 1..]);
      TaggedAppend(elog, RowsBefore(actors, i), Links(actors[i], actors[i + 1..]), key);
      i := i + 1;
    }
    RowsBeforeAll(actors);
  }

  /** The inner loop over `j`: `key` is appended to the edge from `x` to each of `rest`. */
  method ConnectRow(x: string, rest: seq<string>, key: MovieKey, edges: map<Edge, seq<MovieKey>>,
                    ghost elog: seq<(Edge, MovieKey)>)
    returns (edges': map<Edge, seq<MovieKey>>)
    requires edges == Collect(elog)
    ensures edges' == Collect(elog + Tagged(Links(x, rest), key))
  {
    edges' := edges;
    ghost var elog' := elog;
    var j := 0;
    while j < |rest|
      invariant 0 <= j <= |rest|
      invariant edges' == Collect(elog')
      invariant elog' == elog + Tagged(Links(x, rest[..j]), key)
    {
      var e := Link(x, rest[j]);
      if e !in edges' {
        edges' := edges'[e := []];
      }
      edges' := edges'[e := edges'[e] + [key]];
      EdgeStep(elog', e, key);
      LinksSnoc(x, rest, j);
      TaggedSnoc(elog, Links(x, rest[..j]), e, key);
      elog' := elog' + [(e, key)];
      j := j + 1;
    }
    assert rest[..j] == rest;
  }

  lemma TaggedAppend(pre: seq<(Edge, MovieKey)>, a: seq<Edge>, b: seq<Edge>, k: MovieKey)
    ensures pre + Tagged(a + b, k) == (pre + Tagged(a, k)) + Tagged(b, k)
  {
    assert Tagged(a + b, k) == Tagged(a, k) + Tagged(b, k);
  }

  lemma LinksSnoc(x: string, rest: seq<string>, j: nat)
    requires j < |rest|
    ensures Links(x, rest[..j + 1]) == Links(x, rest[..j]) + [Link(x, rest[j])]
  {
    assert rest[..j + 1][..j] == rest[..j];
  }

  lemma RowsBeforeAll(actors: seq<string>)
    ensures RowsBefore(actors, |actors|) == Pairs(actors)
  {
    RowsBeforePairs(actors, |actors|);
    assert actors[|actors|..] == [];
  }

  /** One `G[a][b]["movies"].append(key)` on the edges of `elog`. */
  lemma EdgeStep(elog: seq<(Edge, MovieKey)>, e: Edge, key: MovieKey)
    ensures Collect(elog + [(e, key)]) == Collect(elog)[e := (if e in Collect(elog) then Collect(elog)[e] else []) + [key]]
  {
    assert (elog + [(e, key)])[..|elog|] == elog;
  }

  lemma TaggedSnoc(pre: seq<(Edge, MovieKey)>, es: seq<Edge>, e: Edge, k: MovieKey)
    ensures pre + Tagged(es + [e], k) == (pre + Tagged(es, k)) + [(e, k)]
  {
    assert Tagged(es + [e], k) == Tagged(es, k) + [(e, k)];
  }

  /**
   * `build_actor_graph(data)`: the graph of ActorGraph on the keyed input,
   * or the `ValueError` of the first airdate without an integer year.
   */
  method BuildActorGraph(data: Data) returns (r: Result<Graph, BuildError>)
    ensures r.Err? <==> !AllDated(data)
    ensures r.Ok? ==> Keyed(data).Some? && r.value == ActorGraph(Keyed(data).value)
    ensures r.Ok? ==> forall x :: x in r.value.nodes <==> exists i :: 0 <= i < |data| && data[i].0 == x
    ensures r.Err? ==> (exists i, t :: FirstUndated(data, i, t) &&
                          r.error == ValueError(YearPrefix(data[i].1[t].airdate)))
  {
    KeyedDefined(data);
    var nodes := AddNodes(data);
    var index := ReverseIndex(data);
    if index.Err? {
      return Err(index.error);
    }
    var kd := Keyed(data).value;
    var edges := ConnectCoStars(index.value.0, index.value.1, Entries(kd));
    KeyedValues(data);
    assert nodes == Actors(kd) by {
      forall x
        ensures x in nodes <==> x in Actors(kd)
      {
        if x in nodes {
          var i :| 0 <= i < |data| && data[i].0 == x;
          assert kd[i].0 == x;
        }
      }
    }
    return Ok(Graph(nodes, edges));
  }

  /** A walk in `g` from `a` to `b`: consecutive actors are joined by an edge. */
  predicate IsPath(g: Graph, p: seq<string>, a: string, b: string) {
    p != [] && p[0] == a && p[|p| - 1] == b &&
    forall k :: 0 <= k < |p| - 1 ==> Link(p[k], p[k + 1]) in g.edges
  }

  /**
   * `shortest_actor_graph(graph, actor, target)`: None without a graph or
   * when either endpoint is not a node; otherwise the answer of the library
   * search `search`, which is None where it raises `NetworkXNoPath` or
   * `NodeNotFound`.
   */
  function ShortestActorGraph(graph: Option<Graph>, actor: string, target: string,
                              search: (Graph, string, string) -> Option<seq<string>>): (r: Option<seq<string>>)
    ensures r.Some? ==> graph.Some? && actor in graph.value.nodes && target in graph.value.nodes
    ensures graph.Some? && actor in graph.value.nodes && target in graph.value.nodes ==>
      r == search(graph.value, actor, target)
  {
    if graph.None? then None
    else if actor !in graph.value.nodes || target !in graph.value.nodes then None
    else search(graph.value, actor, target)
  }

  /** The Bacon number shown for a path: the number of links in it. */
  function BaconNumber(path: seq<string>): int {
    |path| - 1
  }

  /** `a` and `b` are listed with a common movie key. */
  ghost predicate CoStars(kd: Listing, a: string, b: string) {
    exists m :: Lists(kd, a, m) && Lists(kd, b, m)
  }

  /**
   * The query the selection handler makes: for a search whose answer on it is
   * a walk in the graph, an answer for the built graph starts at `actor`, ends
   * at Kevin Bacon, has a non-negative Bacon number, and each of its steps
   * between two distinct actors joins two actors who share a movie key.
   */
  lemma BaconPathCoStars(kd: Listing, actor: string,
                         search: (Graph, string, string) -> Option<seq<string>>, p: seq<string>)
    requires search(ActorGraph(kd), actor, BACON).Some? ==>
               IsPath(ActorGraph(kd), search(ActorGraph(kd), actor, BACON).value, actor, BACON)
    requires ShortestActorGraph(Some(ActorGraph(kd)), actor, BACON, search) == Some(p)
    ensures p[0] == actor && p[|p| - 1] == BACON && BaconNumber(p) >= 0
    ensures forall k :: 0 <= k < BaconNumber(p) && p[k] != p[k + 1] ==> CoStars(kd, p[k], p[k + 1])
  {
    var g := ActorGraph(kd);
    assert IsPath(g, p, actor, BACON);
    forall k | 0 <= k < BaconNumber(p) && p[k] != p[k + 1]
      ensures CoStars(kd, p[k], p[k + 1])
    {
      AdjacentIffShareMovie(kd, p[k], p[k + 1]);
    }
  }
}
