# Lin-Kernighan tour improvement, modelled in Dafny

This project models the core of a small Lin-Kernighan solver for the
travelling salesman problem. It covers four parts:

- the road registry that every tour shares;
- the `Tour` object, which is either a closed tour or an open Lin-Kernighan
  path, and which is changed in place by exchanges that can be undone exactly;
- `find_lk_mods`, which proposes exchanges;
- the depth-first `path_search` and the `tour_improve` loop around it.

Modules:

- `RoadDef` (road.dfy): cities and roads (road.py).
- `RoadIndex` (registry.dfy):
  - the `Roads` dictionary with its `by_length` cache (roads.py);
  - the registry contents that `init_roads` produces, as values;
  - the length sort.
- `RoadSetup` (setup.dfy): `Tour.init_roads`. It fills the global registry
  and each city's own registry.
- `PathAlgebra` (paths.dfy): the algebra of visiting orders:
  - a path exchange (`Exchange`), reversal and rotation;
  - the neighbour links, road sets and lengths that each of them determines.
- `TourState` (tour.dfy): the class `Tour`.
  - Its fields are the road set, the neighbour links, the path ends and the
    running length.
  - A ghost `order` holds the visiting order that the links encode.
  - `Valid()` ties every field to `order`. In the tour state the links form
    a cycle over the cities. In the path state they run from `first` to
    `last`.
- `LinKernighan` (search.dfy): `path_search` and `tour_improve` as methods
  that mutate one `Tour` and restore it.

The main results:

- `modify` and `unmodify` are mutual inverses on the whole object.
- The exchanges that `find_lk_mods` proposes are exactly those that pass
  the tests its code applies, and each one can be carried out. The code's
  test for `city_insert` is looser than its documented rule 2 (see
  "## Left out").
- `path_search` terminates.
- `path_search` leaves its path exactly as it found it.
- `path_search` returns the closed tour of `min(results)`, where `results`
  holds the path's own record and one record per exchange tried. That tour
  is never longer than the closed-tour length of the path it started from.
- `tour_improve` runs two searches per road of its start, backward first,
  and every road gets its pair. Each search is `revert`, `tour2path` and
  `path_search`, and its triples and records are those `path_search` makes
  on the opened path.
- `tour_improve`'s `best_iteration` is 0 exactly when no search found a
  tour shorter than the start, and the answer is then the start. Otherwise
  it numbers the first search whose answer is shortest, and the answer is
  that search's tour, strictly shorter than the start.

The code's `min(results)` compares `(length, cities)` tuples. Equal lengths
are therefore ordered by the city lists, not by recording order. The model
follows the code (`FoundLess`, `MinFound`).

## Model

| member | source | states |
|---|---|---|
| RoadDef.NewRoad | road.py:6-8 | a new road has its endpoints in construction order and the length of that pair |
| RoadDef.Road.Ends | road.py:6-7 | the road seen as a two-element list holds its first city, then its second |
| RoadDef.Road.Other | road.py:12-17 | `other` is None exactly for a city that is not an endpoint; otherwise it gives an endpoint, the second for the first and the first for the second |
| RoadDef.OtherSwapsEnds | road.py:12-17 | `other` sends each end of a road to the opposite end, and applying it twice gives back the start |
| RoadDef.ReversedRoadDiffers | road.py:34-35 | road equality depends on the order of the endpoints: the same cities in reverse order make a different road |
| RoadDef.ComparisonsByLength | road.py:40-47 | `<`, `<=` and `>` are the length order: `<` is the converse of `>`, `<=` is `<` or equal length, and any two roads compare one way or the other |
| RoadDef.GeAsWrittenDisagreesWithGt | road.py:46-50 | as written, `>=` is false for roads of lengths 2 and 1 although `>` is true |
| RoadDef.GeIsConverseOfLe | road.py:43-50 | the corrected `>=` is the converse of `<=`, is `>` or equal length, and is the negation of `<` |
| RoadIndex.Roads.constructor | roads.py:13-17 | a new registry is empty and has no sorted cache |
| RoadIndex.Roads.Get | roads.py:19-20 | `get(a, b)` gives the road stored under `(a, b)` when there is one, otherwise the road stored under `(b, a)`, and None exactly when neither is stored |
| RoadIndex.LookupSymmetric | roads.py:19-20 | when each unordered pair is stored once, `get(a, b) == get(b, a)` |
| RoadIndex.LookupEnds | roads.py:19-20 | a road found by `get(a, b)` joins exactly `a` and `b`, and `a != b` |
| RoadIndex.LookupInjective | roads.py:19-20 | two lookups that find the same road asked for the same unordered pair |
| RoadIndex.Roads.Values | roads.py:24 | `values()` lists the stored road of each key, in the dictionary's enumeration order |
| RoadIndex.Roads.Store | tour.py:66-67 | `roads[(a, b)] = road` adds or overwrites that one entry, keeps the keys distinct and leaves the cache alone |
| RoadIndex.Take | roads.py:26 | the slice `[:count]` is a prefix: everything for None, `count` roads (at most all) for a non-negative count, and all but `-count` for a negative one |
| RoadIndex.SortByLengthCorrect | roads.py:25 | the sort returns an ascending-by-length permutation of its input |
| RoadIndex.Roads.SortedValues | roads.py:23-25 | the sorted list holds exactly the stored roads |
| RoadIndex.Roads.GetByLength | roads.py:22-26 | while the cache is empty it is filled with the sorted values; the answer is the first `count` roads of the cache |
| RoadIndex.DistinctPerm | roads.py:25 | a permutation of a list without repeats has no repeats |
| RoadIndex.TakeKeepsShortest | roads.py:26 | the slice of a sorted list is sorted, and each road in it is no longer than any road left out |
| RoadIndex.AllRoadsWellKeyed | tour.py:63-67 | the registry of all pairs `i < j` stores each road under its own endpoints, joins different cities, and stores each unordered pair once |
| RoadIndex.AllRoadsCovers | tour.py:63-67 | that registry has a road for every two different cities |
| RoadIndex.AllRoadsFits | tour.py:63-67 | the registry of all pairs is well keyed and covers the cities |
| RoadSetup.StoreRoad | tour.py:66-67 | the road is stored under `(city1, city2)` in the global registry and in the registries of both of its cities, and in nothing else |
| RoadSetup.StorePair | tour.py:64-67 | one turn of the inner loop extends what every registry holds by the pair `(i, j)` |
| RoadSetup.InitRoads | tour.py:57-67 | after the double loop, the global registry holds every pair `cs[i], cs[j]` with `i < j`, each city's registry holds those that touch it, other keys keep their old entries, and no cache changes |
| RoadSetup.HoldsAll | tour.py:63-67 | from empty dictionaries, a registry holds exactly the pairs of all roads that it keeps, with the same roads |
| RoadSetup.GlobalIsAllRoads | tour.py:57-67 | from empty, the global registry has the entries of all roads, so it is well keyed and covers the cities |
| RoadSetup.CityRoadRegistered | tour.py:63-67 | every road in a city's own registry touches that city and is the global road for its pair |
| RoadSetup.InRegistryRegistered | tour.py:63-67 | after setup, a road in a city's own registry touches the city and is the global road for its pair |
| RoadSetup.RegisteredInRegistry | tour.py:63-67 | after setup, every global road that touches a city is in that city's own registry |
| RoadSetup.RegistryValuesDistinct | tour.py:63-67 | after setup, a city's registry lists each road once |
| RoadSetup.SortedRegistry | tour.py:121 | `c.roads.get_by_length()` after setup lists every road of `c` exactly once, ascending by length |
| RoadSetup.NearFromRegistries | tour.py:121 | when each city's list is the sorted values of its own registry, the lists are exactly what `find_lk_mods` needs: complete, without repeats and ascending |
| PathAlgebra.Rev | tour.py:192-204 | reversal keeps the length and reads the sequence backwards |
| PathAlgebra.Exchange | tour.py:206-230 | the path after `modify` at position `i` keeps `p[..i+1]` and reverses the rest |
| PathAlgebra.Rotate | tour.py:152-162 | the opened path is the tour order started at position `j`, with wrap-around |
| PathAlgebra.ExchangeInvolution | tour.py:232-242 | exchanging twice at the same position gives back the path |
| PathAlgebra.ExchangeSameCities | tour.py:206-230 | an exchange visits each city once, as before |
| PathAlgebra.RevSameCities | tour.py:201-204 | a reversed tour visits each city once, as before |
| PathAlgebra.RotateSameCities | tour.py:152-162 | a rotated tour visits each city once, as before |
| PathAlgebra.ExchangeLen | tour.py:225-229 | new path length plus the deleted road's length equals old path length plus the added road's length |
| PathAlgebra.ExchangeRoads | tour.py:225-229 | the exchanged path's roads are the old ones minus `p[i] -- p[i+1]` plus `p[n-1] -- p[i]` |
| PathAlgebra.ReconnectNbrs | tour.py:225-229 | remove, flip from `p[i+1]` to the last city, then add: the links are those of the exchanged path |
| PathAlgebra.ExchangeNbrs | tour.py:225-229 | unlink `p[i]`/`p[i+1]`, flip the tail and link `p[i]` to the last city: the links are those of the exchanged path |
| PathAlgebra.JoinNotOnPath | tour.py:120-128 | a road from the last city to a city `p[i]` that is neither the last city nor the one before it (`i + 2 < n`) is not a road of the path |
| PathAlgebra.FlipAllTwice | tour.py:187-190 | flipping a run of cities twice restores the links |
| PathAlgebra.FlipAllCycle | tour.py:201-203 | flipping every city of a tour gives the links of the reversed tour |
| PathAlgebra.CycleLenRev | tour.py:201-204 | a reversed tour has the same length |
| PathAlgebra.CycleRoadsRev | tour.py:201-204 | a reversed tour has the same roads |
| PathAlgebra.CutCycleLen | tour.py:131-137 | the path length plus its closing road is the length of the tour it was cut from |
| PathAlgebra.CutCycleRoads | tour.py:152-162 | the path opened at a road has the tour's roads minus that road |
| PathAlgebra.CutCycleNbrs | tour.py:152-162 | unlinking the two ends of one road of a tour leaves the links of the rotated path |
| TourState.ExchangeUndone | tour.py:232-242 | after `modify(ci, ra, rd)`, the same triple describes the reverse exchange, and it restores the path |
| TourState.CycleStateOf | tour.py:73-83 | cyclic links over the cities, the roads between consecutive cities and their total length form a valid tour |
| TourState.FlipCycle | tour.py:201-204 | flipping every city of a tour gives a valid tour over the reversed order with the same roads and length |
| TourState.OpenEnabled | tour.py:157-161 | for a tour road, `is_forward` picks the far end as `first` and the near end as `last` |
| TourState.OpenEffect | tour.py:157-162 | opening a tour at a road gives a valid path from its far end round to its near end, with the tour's length as closed-tour length |
| TourState.ExchangeEffect | tour.py:221-230 | the fields after the steps of `modify` are those of the valid path over the exchanged order |
| TourState.Tour.constructor | tour.py:73-83 | `Tour(cities)` is a valid closed tour over `cities` |
| TourState.Tour.Reset | tour.py:73-83 | `__init__` on an existing object sets every field to the closed tour over the given cities |
| TourState.Tour.LinkCycle | tour.py:80-82 | each city's neighbours are the previous and the next city, cyclically |
| TourState.Tour.Revert | tour.py:85-89 | `revert` gives the closed tour over the original city list |
| TourState.Tour.Close | tour.py:91-94 | `close` gives the closed tour over the current visiting order, with the same tour length |
| TourState.Tour.NeighboursFollowOrder | tour.py:244-248 | `next_city`/`prev_city` are the next and previous cities in the visiting order: cyclic in a tour, None past the ends of a path |
| TourState.Tour.IsForwardAlongOrder | tour.py:139-145 | `is_forward(road)` holds exactly when `road[1]` follows `road[0]` in the visiting order, or when the road closes the path from last to first |
| TourState.Tour.TourLength | tour.py:131-137 | in both states, `tour_length` is the closed-tour length of the visiting order |
| TourState.Tour.CitySequence | tour.py:250-263 | `city_sequence` returns the visiting order; in the path state it starts at `first`, ends at `last` and follows `next_city` |
| TourState.Tour.Tour2Path | tour.py:152-162 | outside the tour state the source asserts (`ok` false, nothing changes); otherwise the result is a valid path over the optionally reversed order, rotated, with one road fewer, that road's length subtracted and the same tour length |
| TourState.Tour.OpenAt | tour.py:157-162 | `remove(road)` after picking the ends opens the tour into a valid path with the old tour length as closed-tour length |
| TourState.Tour.ReplaceNeighbors | tour.py:164-173 | both ends of the road get the new facing neighbours, on the side that `is_forward` picks |
| TourState.Tour.Add | tour.py:175-179 | the road joins the set, its length is added, and its ends link to each other |
| TourState.Tour.Remove | tour.py:181-185 | the road leaves the set, its length is subtracted, and its ends face None |
| TourState.Tour.Flip1City | tour.py:187-190 | one city's two neighbours are swapped |
| TourState.Tour.FlipDirection | tour.py:192-204 | with a start city, the run up to and including `cityB` is flipped and the ends are kept; otherwise every city is flipped and `first`/`last` are swapped |
| TourState.Tour.Rejoin | tour.py:221-230 | remove, flip, add and the new last city in the source's order; the links are described exactly |
| TourState.Tour.Reconnect | tour.py:206-242 | fails exactly when the road to cut is missing, with nothing changed; otherwise the path over the exchanged order, with one road swapped and the length adjusted |
| TourState.Tour.Modify | tour.py:206-230 | `modify` raises exactly when `road_delete` is missing; otherwise it performs the exchange at `city_insert` and `road_delete`'s far end becomes `last` |
| TourState.Tour.Unmodify | tour.py:232-242 | `unmodify` raises exactly when `road_add` is missing; otherwise it performs the reverse exchange |
| TourState.Tour.CandidateEnabled | tour.py:119-124 | for a road from the last city, `city_insert`, its successor and `road_delete` exist on the path |
| TourState.Tour.Candidate | tour.py:121-128 | a road is kept exactly when `city_insert` is neither the last city nor the one before it, the road is shorter than `road_delete`, `road_delete` is not in `added` and the road is not in `deleted`; a kept triple is an exchange that `modify` can carry out |
| TourState.Tour.LkMods | tour.py:118-129 | the kept triples, in candidate order: no more than the candidates |
| TourState.Tour.LkModsStep | tour.py:121-128 | one more candidate appends its triple exactly when it is kept |
| TourState.Tour.LkModsSound | tour.py:118-129 | every listed triple comes from a candidate road that passes the tests |
| TourState.Tour.LkModsComplete | tour.py:118-129 | every candidate road that passes the tests has its triple listed |
| TourState.Tour.LkModsViable | tour.py:96-112 | every listed triple meets the rules as the code applies them (rules 1 and 3-6 as documented, rule 2 only as "not the last city nor the one before it") and can be carried out by `modify` |
| TourState.ShortestFirst | roads.py:26 | the first `count` roads of a city's sorted list are ascending, and no road of that city left out is shorter than one kept |
| TourState.Tour.FindLkMods | tour.py:96-129 | `find_lk_mods` returns the kept triples of the last city's candidate roads, in `get_by_length` order; the candidates are ascending and no road of the last city left out is shorter than one of them; each triple passes the code's tests and is executable |
| TourState.Tour.KeepMods | tour.py:118-129 | the loop builds exactly that list |
| TourState.Tour.FirstCityKept | tour.py:102-122 | a road from the last city to the first city that passes tests 4-6 gives the triple at position 0, which the documented rule 2 (`2 <= i`) excludes |
| TourState.Tour.TestRoad | tour.py:121-128 | tests 2-6 for one road give exactly the kept triple or nothing |
| TourState.Tour.CandidateAgrees | tour.py:119-128 | the test of one road depends only on the registry and the visiting order (`CandidateOn`) |
| TourState.Tour.LkModsAgrees | tour.py:118-129 | the kept triples depend only on the registry, the visiting order and the candidates (`LkModsOn`) |
| TourState.Tour.NearModsAgree | tour.py:118-129 | on a path, the last city has a candidate list, every candidate starts at the last city, and the kept triples are `LkModsOn` of the visiting order |
| LinKernighan.SeqLessIrreflexive | tsp.py:79 | no city list is smaller than itself |
| LinKernighan.SeqLessTransitive | tsp.py:79 | list comparison is transitive |
| LinKernighan.SeqLessTotal | tsp.py:79 | different city lists are ordered one way or the other |
| LinKernighan.FoundLessOrder | tsp.py:79 | tuple comparison of results is a strict total order |
| LinKernighan.MinFound | tsp.py:79 | `min(results)` is one of the results |
| LinKernighan.MinFoundIsLeast | tsp.py:79 | the minimum is no greater than any result, every other result is greater, and no result is shorter |
| LinKernighan.TourOfMin | tsp.py:79-80 | the answer is a new closed tour whose (length, cities) pair is `min(results)`, so it is one of the results and no result is shorter |
| LinKernighan.PathSearch | tsp.py:37-80 | the path is left exactly as found; the triples tried are those `find_lk_mods` returns for the path as given; `results` starts with the path's own closed-tour record and holds one record per triple, in order; the answer is a new valid closed tour over the same cities whose pair is `min(results)`, so it is no longer than the path's closed-tour length |
| LinKernighan.TryMods | tsp.py:49-76 | the loop leaves the path as found and appends one record per triple, in order, after the first |
| LinKernighan.TryMod | tsp.py:49-76 | one turn of the loop records a consistent (length, cities) pair: past a set depth limit the exchanged path itself, otherwise a tour no longer than the exchanged path closed; it restores the trails and leaves the path as found |
| LinKernighan.ModifyAndSearch | tsp.py:55-66 | `modify` succeeds and gives the exchanged path, the trails grow by the triple's roads, and the record is that path itself past a set depth limit and otherwise no longer than it closed |
| LinKernighan.SearchOn | tsp.py:63-67 | past a set depth limit the record is the path itself with its closed-tour length; otherwise it is `min` of the recursive search's records, whose triples are `find_lk_mods` of the path on the trails and whose first record is the path's own; the path is unchanged |
| LinKernighan.UndoMod | tsp.py:76 | `unmodify` with the same triple succeeds and brings back every field |
| LinKernighan.TourImprove | tsp.py:9-34 | the searches are two per road of the start, every road has its pair, and each is `revert`, `tour2path` and `path_search` from the start (`RunsOf`); the answer and `best_iteration` are `BestOf` the searches: 0 exactly when no search beat the start, with the start as answer, and otherwise the first search whose answer is shortest, with that answer; the answer is a valid closed tour over the same cities, never longer than the start |
| LinKernighan.SearchAllRoads | tsp.py:13-31 | every road of the tour, taken once, gets its two searches; the count is twice the number of roads, the best so far is `BestOf` the searches, and `best_tour` is the closed tour over the best cities |
| LinKernighan.SearchBothWays | tsp.py:20-31 | two searches from one road, backward then forward, are appended; the best is `BestOf` all searches so far, and `best_tour` is the closed tour over the best cities |
| LinKernighan.SearchPass | tsp.py:21-31 | one search is counted and appended, the best becomes `BestOf` the searches including it, and `best_tour` is rebuilt from the best cities |
| LinKernighan.KeepShorter | tsp.py:27-30 | the search's tour replaces the best, numbered by its search, exactly when it is strictly shorter; the best never grows |
| LinKernighan.SearchFromRoad | tsp.py:22-25 | the search is a `RunOf` the tour: the path is the tour, reversed when `backward`, rotated to run between the road's two ends; its triples are `find_lk_mods` of that path with empty trails and its records those of `path_search`; the answer is the closed tour of `min` of the records, over the same cities and no longer than the tour |
| LinKernighan.OpenRoad | tsp.py:22-23 | `revert` and `tour2path` give a valid path over the tour, reversed when `backward`, rotated, whose ends are the road's two cities, with the tour's length as closed-tour length |
| LinKernighan.BestOfIsShortest | tsp.py:27-30 | the update rule's best is never longer than the start; its iteration is 0 exactly when no search's answer is shorter than the start, and otherwise numbers the first search with the shortest answer, which is the best |
| LinKernighan.ShortestRunStep | tsp.py:27-30 | one more search keeps that characterisation when a strictly shorter answer becomes the best and any other leaves it |
| LinKernighan.RunsAnswered | tsp.py:41 | every search of `tour_improve` has at least the record of its own path |
| LinKernighan.RunsOfAt | tsp.py:19-25 | each search in the list is a search from the tour |
| LinKernighan.AlternatesAt | tsp.py:19-20 | the first search goes backward, directions alternate, and each forward search repeats the road of the backward one before it |
| LinKernighan.RunsStep | tsp.py:19-25 | one more search that follows that pattern keeps the list a list of searches from the tour |
| LinKernighan.FollowsStep | tsp.py:20 | in the first pass over a road the search goes backward, in the second forward over the same road, and after both the searches are paired |
| LinKernighan.PassStep | tsp.py:21-30 | appending a search and updating the best keeps the list of searches and keeps the best equal to `BestOf` them |
| LinKernighan.RoadDone | tsp.py:19 | a road whose searches were appended leaves the set of roads to do, and every road done has a search |
| LinKernighan.AllClosedIn | tsp.py:41-76 | every record of `path_search` is a closed-tour length with its cities, a reordering of the tour's |
| LinKernighan.RecordsStep | tsp.py:49-76 | one more triple's record extends the records of `path_search` |

## Left out

- Plotting (`plot_paths`), `__str__`, the CSV reader, the argument parser, the random start order and all `print`/verbose output are I/O and are not modelled. `lk_verbose` is therefore not a parameter.
- Road lengths are Euclidean distances in floating point in the source. Here they are abstract non-negative integers given by a distance function. Floating-point rounding is not modelled.
- A city is an opaque value with an integer `key`. The key stands for its display string `_str` (the name and the coordinates to two decimals), by which the source compares cities (city.py:18-19). The source defines no hash for cities, so dictionaries and sets hash them by identity. Distinct city objects with equal strings are not modelled: `Distinct` excludes them. The coordinates themselves are not part of this model.
- Road equality compares the printed form (names and the length to two decimals) in the source. Here it is structural equality of the two ordered endpoints and the length. Hashing by `id` is not modelled.
- The class attribute `Tour.roads`, shared by every tour, is the constant field `table`. `init_roads` is modelled separately (`RoadSetup.InitRoads`), and its result is linked to `table` by `GlobalIsAllRoads`.
- Each city's sorted road list is passed to the search as the map `near`. `NearFromRegistries` links it to the city registries. `NearFromRegistries` takes `near[c]` to be the sorted values of `c`'s registry, which is what `Roads.GetByLength` caches. The filling of the cache on first use inside the search is not modelled.
- The dictionary enumeration order (Python 2 gives no fixed order) is taken to be insertion order. This order matters only for ties in the stable sort.
- `tour_improve` iterates over `set(tour)` in an unspecified order. The model chooses an arbitrary remaining road each time.
- TourState.Tour.constructor: requires at least three distinct cities that the registry covers. With fewer cities the source's neighbour map and road set degenerate, and that case is not modelled.
- TourState.Tour.Modify: when `road_delete` is in the set, requires the triple to be the exchange at `city_insert` that `find_lk_mods` proposes. Other triples, which no caller passes, would leave the links inconsistent and are not modelled.
- TourState.Tour.Unmodify: the same restriction, for the reverse exchange.
- The source's `assert` in `tour2path` and its exceptions in `modify`/`unmodify` are modelled as an `ok == false` result that changes nothing.
- TourState.Tour.Tour2Path: requires a closed tour to contain `road`. Otherwise the source raises `KeyError` in `remove` after it has already flipped the direction and set `first`/`last`, and that partial change is not modelled. Its only caller passes a road of the reverted tour.
- `path_search` assumes a path and `tour_improve` assumes a closed tour; these are preconditions.
- RoadSetup.InitRoads: requires distinct cities and separate registry objects, as the source's setup provides. The order in which keys enter the dictionaries is not stated.
- TourState.Tour.Candidate: follows the code's test for `city_insert` (tour.py:122), which skips only the city before the last one. The documentation of `find_lk_mods` (tour.py:102) also excludes the first city. The model keeps the first city, as the code does (`FirstCityKept`).
- LinKernighan.TryMod: below the depth limit states only that the record is no longer than the exchanged path closed. That the record is the recursive search's minimum is stated one level down, by `SearchOn`.
- LinKernighan.ModifyAndSearch: the same bound below the depth limit, for the same reason.
- LinKernighan.TryMods: each record is stated through `Recorded`, so below the depth limit only the bound is stated, as for `TryMod`.
- LinKernighan.PathSearch: its records are stated through `Recorded`, so below the depth limit each is only bounded here. Its own answer is `min` of them exactly.
- LinKernighan.TourImprove: the count of searches and the list of searches are ghost out-parameters. The source prints the count and returns neither.

## Findings

| source | as written | input that shows it | evidently intended | confidence | as-written member | corrected member |
|---|---|---|---|---|---|---|
| road.py:49-50 | `__ge__` returns `self.length <= other.length` | roads of lengths 2 and 1: the longer one is `>` the shorter but not `>=` it | `self.length >= other.length` | not executed | RoadDef.GeAsWrittenDisagreesWithGt | RoadDef.GeIsConverseOfLe |
