# Actor graph, header finder and heat step — a Dafny model

This project models three small Python scripts and proves properties of the model.

- **The actor co-appearance graph** (`src/task_3_graph/main.py`). `build_actor_graph` makes one node per
  actor of a `movies.json` dict. It builds a reverse index from `(title, year)` movie keys to the actors
  listing them. The year is `int` of the first four characters of the airdate. It then joins every pair of
  actors of a movie with an edge whose `movies` list records the movie key. `shortest_actor_graph` guards a
  library shortest-path search. The Bacon number of a path is its length minus one.
  - The reverse index is a `defaultdict(list)`, modelled in module `Grouping` as the ordered log of its
    appends.
  - The pairing loops are modelled in module `Pairing`.
  - The reference definition of the whole graph is module `ActorGraphSpec`.
  - The imperative build, which follows the script loop by loop, is module `ActorGraphBuild`.
  - Python's `int()`, which reads the year, is in module `PyStr`.
- **The header finder** (`src/task_1_statistics/main.py`). `find_header_line_idx` returns the index of the
  first line whose columns include `TIME`, `EVENT` and `AVGTSMR`. Blank lines and lines starting with `[`
  are skipped. A line's columns are its tab fields, or its whitespace words when it has fewer than three
  tab fields.
  - The Python string primitives it uses are module `PyStr`: `isspace`, `strip`, `split(sep)` and
    `split()`.
  - The intended header test is module `HeaderSpec`.
  - The loop is module `HeaderLine`.
  - The line as written calls a method that Python sets do not have (see Findings).
- **One explicit heat-equation step** (`src/task_2_physics_problem/main.py`). The script fixes a 101×101
  grid on the unit square, with diffusivity 1. It zeroes the boundary of the initial field and picks
  `dt = 0.8 · dx² / (4k)`. It then makes one forward-time, centred-space (FTCS) update into a copy, and
  zeroes the copy's boundary again. This is module `HeatEquation`, on `array2<real>`. The model proves
  that with this `dt` and `dx == dy`, each interior value is the average of the old value and its four
  neighbours. So one step cannot raise the maximum or lower the minimum.

The step is modelled as the code is written: it uses only `dx` to pick `dt`, and it takes one step rather
than a time loop.

## Model

| member | source | states |
|---|---|---|
| ActorGraphBuild.BuildActorGraph | src/task_3_graph/main.py:10-48 | Fails exactly when some airdate has no integer year, with a `ValueError` carrying the first four characters of the first such airdate in input order. Otherwise it returns the reference graph `ActorGraph` of the keyed input, whose nodes are exactly the input's actors. |
| ActorGraphBuild.AddNodes | src/task_3_graph/main.py:26-28 | The node set holds exactly the keys of the input. |
| ActorGraphBuild.ReverseIndex | src/task_3_graph/main.py:30-37 | Fails exactly when keying the input fails, on the first undated airdate in input order. Otherwise the index's keys, in insertion order, and its lists are those of the logged appends `(movie key, actor)`, in the order the loops make them. |
| ActorGraphBuild.IndexMovies | src/task_3_graph/main.py:32-37 | One actor's movies extend the index by exactly that actor's appends. The first undated movie stops the build with its year prefix; every movie before it is dated. |
| Grouping.Append | src/task_3_graph/main.py:37 | `d[k].append(v)` on a `defaultdict(list)` gives the dict of the extended log, including the insertion order of a new key. |
| ActorGraphBuild.ConnectCoStars | src/task_3_graph/main.py:39-46 | The edge map equals the dict of edge appends for all movie keys, in index order. |
| ActorGraphBuild.ConnectActors | src/task_3_graph/main.py:40-46 | The nested loop over one movie's actors appends the movie key to the edge of every pair `i < j`, in loop order. |
| ActorGraphBuild.ConnectRow | src/task_3_graph/main.py:42-46 | The inner loop creates a missing edge with an empty `movies` list, then appends the key to the edge of `actors[i]` and each later actor. |
| ActorGraphBuild.ShortestActorGraph | src/task_3_graph/main.py:51-62 | Returns None without a graph or when either endpoint is not a node. Otherwise it returns the search's answer. |
| ActorGraphBuild.BaconPathCoStars | src/task_3_graph/main.py:100-107 | A path answered for the built graph runs from the actor to `Kevin Bacon`, and has a non-negative Bacon number `len(path) - 1`. Each step between distinct actors joins two actors who list a common movie key. |
| ActorGraphSpec.YearPrefix | src/task_3_graph/main.py:35 | `airdate[:4]` is a prefix of the airdate, of length `min(4, len)`. |
| ActorGraphSpec.YearOfDate | src/task_3_graph/main.py:35 | An airdate starting with four digits has the year those digits spell. |
| ActorGraphSpec.UndatedWithoutDigits | src/task_3_graph/main.py:35 | An airdate with no digit among its first four characters has no year, so the build fails on it. |
| ActorGraphSpec.FirstUndatedUnique | src/task_3_graph/main.py:32-35 | At most one movie is the first undated one, so the build's error literal is determined by its input. |
| ActorGraphSpec.MovieKeysDefined | src/task_3_graph/main.py:33-36 | An actor's movies all have keys exactly when every one of them is dated. |
| ActorGraphSpec.MovieKeysValues | src/task_3_graph/main.py:33-36 | The keys are one per movie, in order, each `(title, year)`. |
| ActorGraphSpec.KeyedDefined | src/task_3_graph/main.py:32-36 | The whole input can be keyed exactly when every airdate has a year. |
| ActorGraphSpec.KeyedValues | src/task_3_graph/main.py:32-36 | Keying keeps the actors and their order, and replaces each movie list by its keys. |
| ActorGraphSpec.EntriesListed | src/task_3_graph/main.py:32-37 | An actor is appended under a movie key exactly when one of its listed movies has that key. |
| ActorGraphSpec.EdgeMoviesValues | src/task_3_graph/main.py:39-46 | Each edge's `movies` list is exactly the keys appended to it, in loop order. |
| ActorGraphSpec.EdgeMovieCount | src/task_3_graph/main.py:39-46 | An edge's `movies` list holds a key as often as that edge is a pair of the key's actor list. |
| ActorGraphSpec.CoStarCount | src/task_3_graph/main.py:39-46 | For distinct actors, the edge records a movie key `p · q` times, where `p` and `q` count each actor's listings of the key. |
| ActorGraphSpec.SelfLoopCount | src/task_3_graph/main.py:39-46 | An actor listing a movie key `c` times has a self-loop that records it `c (c - 1) / 2` times. |
| ActorGraphSpec.SharedMovieRecordedOnce | src/task_3_graph/main.py:39-46 | Two distinct actors who list a movie once each have it exactly once on their edge. |
| ActorGraphSpec.EdgeMoviesNonEmpty | src/task_3_graph/main.py:44-46 | No edge has an empty `movies` list. |
| ActorGraphSpec.AdjacentIffShareMovie | src/task_3_graph/main.py:30-46 | Two distinct actors are adjacent exactly when they list a common `(title, year)` key. |
| ActorGraphSpec.SelfLoopIffRepeat | src/task_3_graph/main.py:30-46 | An actor has a self-loop exactly when they list some movie key at least twice. |
| ActorGraphSpec.EdgesJoinNodes | src/task_3_graph/main.py:26-46 | Every edge joins nodes of the graph. |
| ActorGraphSpec.SameTitleOtherYear | src/task_3_graph/main.py:34-36 | Two actors whose only movies share a title but have different years are not adjacent. |
| ActorGraphSpec.YearSeparates | src/task_3_graph/main.py:36-46 | Equal titles with different years are different movie keys, so they give no edge. |
| Grouping.CollectValues | src/task_3_graph/main.py:31-37 | A key is in the dict exactly when something was appended under it, and its list is those values in order. |
| Grouping.OrderKeys | src/task_3_graph/main.py:31-40 | The dict's iteration order lists each key exactly once. |
| Grouping.ValuesCount | src/task_3_graph/main.py:31-37 | A key's list holds a value as often as that pair was appended. |
| Pairing.RowsBeforePairs | src/task_3_graph/main.py:41-42 | After all rows, the nested loop has visited exactly the pairs `i < j`. |
| Pairing.PairCount | src/task_3_graph/main.py:41-43 | Distinct actors are paired `p · q` times, from `p` and `q` occurrences. |
| Pairing.PairSelfCount | src/task_3_graph/main.py:41-43 | An actor occurring `c` times is paired with itself `c (c - 1) / 2` times. |
| Pairing.PairsMembers | src/task_3_graph/main.py:41-43 | Every visited pair joins two members of the list. |
| HeaderLine.FindHeaderLineIdx | src/task_1_statistics/main.py:6-21 | Returns the first line that is a header: earlier lines are not headers, and the returned one is not skipped. It fails with `ValueError("[WARIN] Header line not found: …")` exactly when no line is a header. |
| HeaderLine.FindHeaderLineIdxAsWritten | src/task_1_statistics/main.py:6-21 | As written, it never returns an index. It raises `AttributeError` exactly when some line survives the skip, and `ValueError` otherwise. |
| HeaderSpec.IssubclassRejectsHeader | src/task_1_statistics/main.py:18 | A tab-separated `TIME EVENT AVGTSMR` line is a header by the intended test. Yet it reaches the set method call and raises there. |
| HeaderSpec.BlankLineIsNotHeader | src/task_1_statistics/main.py:8-12 | A line of whitespace strips to empty, is skipped, and is not a header. |
| HeaderSpec.TabSeparatedHeader | src/task_1_statistics/main.py:14-18 | A line of three or more non-empty tab fields, not starting with `[` or whitespace and not ending with whitespace, is a header exactly when its fields include the three names. |
| HeaderSpec.SpaceLineFields | src/task_1_statistics/main.py:14-16 | A line of space-separated words falls back to `split()` and gets back exactly those words. |
| HeaderSpec.SpaceSeparatedHeader | src/task_1_statistics/main.py:14-18 | A line of words separated by single spaces, not starting with `[`, is a header exactly when the words include the three names. |
| PyStr.StripSpec | src/task_1_statistics/main.py:8 | `strip()` leaves no whitespace at either end. It leaves a trimmed string unchanged, and is empty exactly for whitespace-only input. |
| PyStr.SplitOnFields | src/task_1_statistics/main.py:14 | No field of `split(sep)` contains the separator. |
| PyStr.JoinSplit | src/task_1_statistics/main.py:14 | Joining the fields of `split(sep)` with `sep` gives back the line. |
| PyStr.SplitJoin | src/task_1_statistics/main.py:14 | Splitting a join of separator-free fields gives back the fields. |
| PyStr.SplitWsJoin | src/task_1_statistics/main.py:16 | `split()` of words joined by single spaces gives back the words. |
| PyStr.ParseDigits | src/task_3_graph/main.py:35 | `int()` of a digit string is its decimal value. |
| PyStr.NoDigitsNoInt | src/task_3_graph/main.py:35 | `int()` fails on a string with no digit. |
| PyStr.IntSkipsSpaces | src/task_3_graph/main.py:35 | A valid digit string between any runs of the whitespace `int()` skips parses to the digits' value. Those runs may hold space, `\t`–`\r` and the `str.isspace` characters above U+007F. |
| PyStr.SeparatorNeverSkipped | src/task_3_graph/main.py:35 | `int()` fails on every string that holds an information separator U+001C to U+001F anywhere, although `str.isspace` counts them as whitespace. |
| PyStr.IntWhitespace | src/task_3_graph/main.py:35 | Four instances: `" 1\n"` and `"\xa01\x85"` parse to 1, while `"\x1c1"` and `"\x1c1\xa0"` fail. |
| ActorGraphSpec.SeparatorInPrefixUndated | src/task_3_graph/main.py:35 | An airdate with an information separator among its first four characters has no year, so the build fails on it. |
| ActorGraphSpec.SeparatorPaddedUndated | src/task_3_graph/main.py:35 | One instance: the airdate `"\x1c19\xa0-05"` has the prefix `"\x1c19\xa0"` and no year. |
| HeatEquation.Spacing | src/task_2_physics_problem/main.py:9-10 | `L / (n - 1)` spaces `n` points across the extent, and is positive for a positive extent. |
| HeatEquation.TimeStep | src/task_2_physics_problem/main.py:38 | `4k · dt = 0.8 · dx²`. For `k > 0` and `dx ≠ 0` this is strictly inside the bound `dx² / (4k)`. |
| HeatEquation.ZeroRow | src/task_2_physics_problem/main.py:25-26 | Zeroes one row and keeps every other value. |
| HeatEquation.ZeroColumn | src/task_2_physics_problem/main.py:27-28 | Zeroes one column and keeps every other value. |
| HeatEquation.ZeroBoundary | src/task_2_physics_problem/main.py:25-28 | Zeroes exactly the boundary and keeps the interior. |
| HeatEquation.FtcsStep | src/task_2_physics_problem/main.py:39-51 | Writes a fresh array and leaves the old one unchanged. Each interior value is the FTCS update of the old array's neighbourhood, and the boundary is zero. |
| HeatEquation.FtcsIsAverage | src/task_2_physics_problem/main.py:38-45 | With the script's `dt` and `dx == dy`, the update is the mean of the point and its four neighbours. |
| HeatEquation.MaximumPrinciple | src/task_2_physics_problem/main.py:38-54 | From a field with a zero boundary, a step keeps every value at or below any bound of the old field. So the maximum after is at most the maximum before. |
| HeatEquation.MinimumPrinciple | src/task_2_physics_problem/main.py:38-51 | Likewise, a step keeps every value at or above any lower bound of the old field. |
| HeatEquation.HeatScript | src/task_2_physics_problem/main.py:5-51 | On the 101×101 grid it fixes `dx`, `dy` and `dt`, and zeroes the initial field's boundary. It returns a fresh FTCS step of that field, which keeps its upper and lower bounds. |

## Left out

- The Tkinter GUI `BaconGUI`, the file dialog and JSON loading are left out. They are I/O. Only the
  `shortest_actor_graph` call and `len(path) - 1` of the selection handler are modelled.
- `nx.shortest_path` is a library search, so it is a function parameter `search` of `ShortestActorGraph`.
  A search that raises `NetworkXNoPath` or `NodeNotFound` is modelled as one returning None. That a path
  is shortest is not modelled. `BaconPathCoStars` assumes only that the search answers with a walk in the
  graph.
- `networkx.Graph` is modelled as a node set and a map from undirected edges to `movies` lists. The
  edge's set is `{a, b}`, or `{a}` for a self-loop. The graph's internal adjacency dicts and their
  edge iteration order are not modelled.
- Input records are `(title, airdate)` string pairs. A record missing a key (`KeyError`) or an airdate
  that is not a string (`TypeError`) is not modelled.
- `ParseInt` models `int()` on ASCII decimal digits, with a sign and single underscores between digits.
  Around the digits it skips space, `\t \n \v \f \r` and the `str.isspace` characters above U+007F, but not
  U+001C to U+001F. Python's `int()` also accepts Unicode decimal digits other than ASCII ones; those digits are
  not modelled.
- The `ValueError` of the build carries the four-character literal, not Python's full message text.
- The Gaussian initial condition and its normalisation (`src/task_2_physics_problem/main.py:13-23`)
  are left out, because they use `exp` and floating point. `HeatScript` takes the initial field as a
  parameter.
- Floating point is modelled by exact reals. Rounding and overflow are not modelled.
- The plotting and the two prints of the heat script are left out, because they are I/O.
  `MaximumPrinciple` states the comparison the prints display.
- `FtcsStep`: requires at least one row and one column, and non-zero `dx`, `dy`. NumPy raises
  `IndexError` on an empty array, and dividing by a zero spacing gives infinities. Neither is
  modelled.
- `TimeStep`: requires `k != 0`. The script's `k` is `1.0`.
- `MaximumPrinciple` and `MinimumPrinciple`: proved for the script's `dt` and for `dx == dy`. That is
  the script's grid, not an arbitrary one.
- `main()` of the statistics script only prints a greeting, and is not part of this model.

## Findings

| source | as written | input that shows it | evidently intended | confidence | as-written member | corrected member |
|---|---|---|---|---|---|---|
| src/task_1_statistics/main.py:18 | `COLS.issubclass(set(cols))`: Python sets have no `issubclass` method, so the first line that survives the skip raises `AttributeError` | `["TIME\tEVENT\tAVGTSMR"]` raises `AttributeError` instead of returning 0 | `COLS <= set(cols)` (`issubset`): return the index of the first line whose columns include all three names | not executed | HeaderLine.FindHeaderLineIdxAsWritten, HeaderSpec.IssubclassRejectsHeader | HeaderLine.FindHeaderLineIdx |
