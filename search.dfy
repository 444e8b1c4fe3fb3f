/** The Lin-Kernighan search (tsp.py): `path_search`, the depth-first
    search over the exchanges `find_lk_mods` proposes, and `tour_improve`,
    which restarts it from every road of the tour in both directions. */
module LinKernighan {
  import opened RoadDef
  import opened RoadIndex
  import opened PathAlgebra
  import opened TourState

  /** One entry of the `results` list: a closed-tour length and the city
      sequence that has it. */
  type Found = (int, seq<City>)

  /** Python's `<` on lists of cities: the first position where they differ
      decides by `City.__cmp__`; a proper prefix is the smaller. */
  predicate SeqLess(a: seq<City>, b: seq<City>)
    decreases |a|
  {
    if a == [] then b != []
    else if b == [] then false
    else if a[0] != b[0] then CityLess(a[0], b[0])
    else SeqLess(a[1..], b[1..])
  }

  /** Python's `<` on `(length, cities)` tuples: by length, ties by the cities. */
  predicate FoundLess(x: Found, y: Found) {
    if x.0 != y.0 then x.0 < y.0 else SeqLess(x.1, y.1)
  }

  lemma {:induction false} SeqLessIrreflexive(a: seq<City>)
    ensures !SeqLess(a, a)
    decreases |a|
  {
    if a != [] {
      SeqLessIrreflexive(a[1..]);
    }
  }

  lemma {:induction false} SeqLessTransitive(a: seq<City>, b: seq<City>, c: seq<City>)
    requires SeqLess(a, b) && SeqLess(b, c)
    ensures SeqLess(a, c)
    decreases |a|
  {
    if a != [] && a[0] == b[0] && b[0] == c[0] {
      SeqLessTransitive(a[1..], b[1..], c[1..]);
    }
  }

  /** Different lists of cities are ordered one way or the other. */
  lemma {:induction false} SeqLessTotal(a: seq<City>, b: seq<City>)
    requires a != b
    ensures SeqLess(a, b) || SeqLess(b, a)
    decreases |a|
  {
    if a != [] && b != [] && a[0] == b[0] {
      assert a == [a[0]] + a[1..] && b == [b[0]] + b[1..];
      SeqLessTotal(a[1..], b[1..]);
    }
  }

  /** The tuple order is a strict order, total on different tuples. */
  lemma FoundLessOrder(x: Found, y: Found, z: Found)
    ensures !FoundLess(x, x)
    ensures FoundLess(x, y) && FoundLess(y, z) ==> FoundLess(x, z)
    ensures x != y ==> FoundLess(x, y) || FoundLess(y, x)
  {
    SeqLessIrreflexive(x.1);
    if FoundLess(x, y) && FoundLess(y, z) && x.0 == y.0 && y.0 == z.0 {
      SeqLessTransitive(x.1, y.1, z.1);
    }
    if x != y && x.0 == y.0 {
      SeqLessTotal(x.1, y.1);
    }
  }

  /** Python's `min` over a non-empty list: a left-to-right scan that
      replaces the candidate only by a strictly smaller item, so the first
      of equal minima wins. */
  function MinFound(rs: seq<Found>): (m: Found)
    requires rs != []
    ensures m in rs
    decreases |rs|
  {
    if |rs| == 1 then rs[0]
    else
      var m := MinFound(rs[..|rs| - 1]);
      if FoundLess(rs[|rs| - 1], m) then rs[|rs| - 1] else m
  }

  /** Nothing in the list is smaller than its minimum, every other entry is
      larger, and in particular no length in it is shorter. */
  lemma {:induction false} MinFoundIsLeast(rs: seq<Found>)
    requires rs != []
    ensures forall x :: x in rs ==> !FoundLess(x, MinFound(rs))
    ensures forall x :: x in rs ==> x == MinFound(rs) || FoundLess(MinFound(rs), x)
    ensures forall x :: x in rs ==> MinFound(rs).0 <= x.0
    decreases |rs|
  {
    var m := MinFound(rs);
    forall x | x in rs ensures !FoundLess(x, m) ==> x == m || FoundLess(m, x) {
      FoundLessOrder(x, m, m);
    }
    if |rs| > 1 {
      var init, z := rs[..|rs| - 1], rs[|rs| - 1];
      MinFoundIsLeast(init);
      var m0 := MinFound(init);
      forall x | x in rs ensures !FoundLess(x, m) {
        if x in init {
          FoundLessOrder(x, z, m0);
        } else {
          FoundLessOrder(z, z, m0);
        }
      }
    } else {
      FoundLessOrder(m, m, m);
    }
  }

  /** `pop` undoes `append`. */
  lemma PopPush(s: seq<Road>, x: Road)
    ensures (s + [x])[..|s + [x]| - 1] == s
  {
  }

  /** `path_search(path, added, deleted, lk_max_search_roads, ...,
      lk_depth_limit)`: records the path's own closed-tour length and city
      sequence, then for each exchange `find_lk_mods` proposes applies it,
      searches on from there (or, past the depth limit, records the changed
      path), and undoes it; the answer is a new closed tour over the
      minimum record. The path is left as it was found, and the answer is
      never longer than the path's closed-tour length. `near[c]` stands for
      the sorted road list of city `c`. */
  method PathSearch(path: Tour, added: seq<Road>, deleted: seq<Road>, near: map<City, seq<Road>>,
                    maxSearchRoads: Option<int>, depthLimit: Option<int>)
    returns (best: Tour, ghost mods: seq<Mod>, ghost results: seq<Found>)
    requires path.Valid() && !path.IsTour() && NearOk(path.table, path.cities, near)
    modifies path
    ensures path.Valid() && path.Snapshot() == old(path.Snapshot())
    ensures old(path.last.value in near && mods == path.LkMods(Take(near[path.last.value], maxSearchRoads), added, deleted))
    ensures Records(path.table, path.cities, path.order, mods, depthLimit, |added|, results) &&
      results[0] == (old(path.TourLength()), path.order)
    ensures fresh(best) && best.Valid() && best.IsTour() && best.table == path.table
    ensures SameCities(best.cities, path.cities)
    ensures (best.TourLength(), best.cities) == MinFound(results)
    ensures best.TourLength() <= old(path.TourLength())
    decreases path.length, 3
  {
    var depth := |added|;
    var oldTourLength := path.TourLength();
    var oldCities := path.CitySequence();
    var found := path.FindLkMods(near, maxSearchRoads, added, deleted);
    mods := found;
    ghost var p, table := path.order, path.table;
    var records := TryMods(path, found, added, deleted, depth, near, maxSearchRoads, depthLimit,
                           (oldTourLength, oldCities));
    results := records;
    AllClosedIn(path.table, path.cities, records);
    best := TourOfMin(path.table, path.cities, records);
    assert records[0] in records;
    assert path.order == p && path.table == table;
  }

  /** What one turn of the loop records for the triple `md` on the path `p`:
      with `q` the exchanged path, past a truthy depth limit the pair for
      `q` itself, and otherwise a tour no longer than `q` closed. */
  ghost predicate Recorded(table: map<Key, Road>, p: seq<City>, md: Mod, depthLimit: Option<int>, depth: int,
                           x: Found) {
    md.city in p && IndexOf(p, md.city) < |p| &&
    var q := Exchange(p, IndexOf(p, md.city));
    (Cutoff(depthLimit, depth) ==> x == (CycleLen(table, q), q)) && x.0 <= CycleLen(table, q)
  }

  /** The records of the loop of `path_search` after the triples `mods`,
      on the path `p` over `cs`: first the path's own, then one record per
      triple, in order, each a closed-tour length with its city sequence. */
  ghost predicate Records(table: map<Key, Road>, cs: seq<City>, p: seq<City>, mods: seq<Mod>,
                          depthLimit: Option<int>, depth: int, results: seq<Found>) {
    |results| == |mods| + 1 &&
    AllClosed(table, cs, results) && AllRecorded(table, p, mods, depthLimit, depth, results[1..])
  }

  /** Each record in `rs` is a closed-tour length with its city sequence, a
      reordering of `cs`, stated from the last record backwards. */
  ghost predicate AllClosed(table: map<Key, Road>, cs: seq<City>, rs: seq<Found>)
    decreases |rs|
  {
    rs != [] ==>
      AllClosed(table, cs, rs[..|rs| - 1]) &&
      rs[|rs| - 1].0 == CycleLen(table, rs[|rs| - 1].1) && SameCities(rs[|rs| - 1].1, cs)
  }

  /** `AllClosed` speaks of every record in the list. */
  lemma {:induction false} AllClosedIn(table: map<Key, Road>, cs: seq<City>, rs: seq<Found>)
    requires AllClosed(table, cs, rs)
    ensures forall x :: x in rs ==> x.0 == CycleLen(table, x.1) && SameCities(x.1, cs)
    decreases |rs|
  {
    if rs != [] {
      var init := rs[..|rs| - 1];
      AllClosedIn(table, cs, init);
      assert forall x :: x in rs ==> x in init || x == rs[|rs| - 1];
    }
  }

  /** `rs[k]` is what the loop records for the triple `mods[k]`, for each
      `k`, stated from the last triple backwards. */
  ghost predicate AllRecorded(table: map<Key, Road>, p: seq<City>, mods: seq<Mod>, depthLimit: Option<int>,
                              depth: int, rs: seq<Found>)
    decreases |mods|
  {
    |rs| == |mods| &&
    (mods != [] ==>
       AllRecorded(table, p, mods[..|mods| - 1], depthLimit, depth, rs[..|rs| - 1]) &&
       Recorded(table, p, mods[|mods| - 1], depthLimit, depth, rs[|rs| - 1]))
  }

  /** `AllRecorded` pairs every triple with its record. */
  lemma {:induction false} AllRecordedAt(table: map<Key, Road>, p: seq<City>, mods: seq<Mod>, depthLimit: Option<int>,
                                         depth: int, rs: seq<Found>)
    requires AllRecorded(table, p, mods, depthLimit, depth, rs)
    ensures |rs| == |mods| && forall k :: 0 <= k < |mods| ==> Recorded(table, p, mods[k], depthLimit, depth, rs[k])
    decreases |mods|
  {
    if mods != [] {
      var n := |mods| - 1;
      AllRecordedAt(table, p, mods[..n], depthLimit, depth, rs[..n]);
      forall k | 0 <= k < n ensures Recorded(table, p, mods[k], depthLimit, depth, rs[k]) {
        assert mods[..n][k] == mods[k] && rs[..n][k] == rs[k];
      }
    }
  }

  /** One more triple adds its record. */
  lemma RecordsStep(table: map<Key, Road>, cs: seq<City>, p: seq<City>, mods: seq<Mod>, k: nat,
                    depthLimit: Option<int>, depth: int, results: seq<Found>, found: Found)
    requires k < |mods| && Records(table, cs, p, mods[..k], depthLimit, depth, results)
    requires found.0 == CycleLen(table, found.1) && SameCities(found.1, cs)
    requires Recorded(table, p, mods[k], depthLimit, depth, found)
    ensures Records(table, cs, p, mods[..k + 1], depthLimit, depth, results + [found])
  {
    var rs := results + [found];
    assert mods[..k + 1][..k] == mods[..k] && mods[..k + 1][k] == mods[k];
    assert rs[1..][..k] == results[1..] && rs[1..][k] == found;
    assert rs[..|rs| - 1] == results;
  }

  /** The loop of `path_search` over `mods`, after the record `start` of the
      path itself: one record per triple, in order, and the path as found. */
  method TryMods(path: Tour, mods: seq<Mod>, added: seq<Road>, deleted: seq<Road>, depth: nat,
                 near: map<City, seq<Road>>, maxSearchRoads: Option<int>, depthLimit: Option<int>, start: Found)
    returns (results: seq<Found>)
    requires path.Valid() && !path.IsTour() && NearOk(path.table, path.cities, near)
    requires forall md :: md in mods ==> md.add.length < md.del.length && Viable(path.table, path.order, path.roads, md)
    requires start.0 == CycleLen(path.table, start.1) && SameCities(start.1, path.cities)
    modifies path
    ensures path.Valid() && path.Snapshot() == old(path.Snapshot())
    ensures Records(path.table, path.cities, path.order, mods, depthLimit, depth, results) && results[0] == start
    decreases path.length, 2
  {
    ghost var table, cs, p := path.table, path.cities, path.order;
    results := [start];
    var trailAdded, trailDeleted := added, deleted;
    for k := 0 to |mods|
      invariant path.Valid() && path.Snapshot() == old(path.Snapshot())
      invariant path.table == table && path.cities == cs && path.order == p
      invariant trailAdded == added && trailDeleted == deleted
      invariant Records(table, cs, p, mods[..k], depthLimit, depth, results) && results[0] == start
    {
      var found;
      found, trailAdded, trailDeleted := TryMod(path, mods[k], trailAdded, trailDeleted, depth, near,
                                                maxSearchRoads, depthLimit);
      RecordsStep(table, cs, p, mods, k, depthLimit, depth, results, found);
      results := results + [found];
    }
    assert mods[..|mods|] == mods;
  }

  /** The end of `path_search`: `min(results)`, the record of least length
      (ties broken by the city sequences), becomes a new closed tour. */
  method TourOfMin(table: map<Key, Road>, cs: seq<City>, results: seq<Found>) returns (best: Tour)
    requires WellKeyed(table) && Covers(table, cs) && Distinct(cs) && |cs| >= 3
    requires results != [] && forall x :: x in results ==> x.0 == CycleLen(table, x.1) && SameCities(x.1, cs)
    ensures fresh(best) && best.Valid() && best.IsTour() && best.table == table
    ensures (best.TourLength(), best.cities) == MinFound(results)
    ensures (best.TourLength(), best.cities) in results
    ensures forall x :: x in results ==> best.TourLength() <= x.0
  {
    var (bestLength, bestCitySeq) := MinFound(results);
    MinFoundIsLeast(results);
    SameCitiesCovers(table, bestCitySeq, cs);
    best := new Tour(table, bestCitySeq);
  }

  /** One turn of the loop of `path_search` for the triple `md`: `modify`,
      push `road_add` and `road_delete` onto the trails, search on from the
      changed path, pop the trails and `unmodify`. Both exchanges succeed,
      the trails come back as they were and the path is restored. */
  method TryMod(path: Tour, md: Mod, added: seq<Road>, deleted: seq<Road>, depth: nat,
                near: map<City, seq<Road>>, maxSearchRoads: Option<int>, depthLimit: Option<int>)
    returns (found: Found, addedAfter: seq<Road>, deletedAfter: seq<Road>)
    requires path.Valid() && !path.IsTour() && NearOk(path.table, path.cities, near)
    requires md.add.length < md.del.length && Viable(path.table, path.order, path.roads, md)
    modifies path
    ensures path.Valid() && path.Snapshot() == old(path.Snapshot())
    ensures found.0 == CycleLen(path.table, found.1) && SameCities(found.1, path.cities)
    ensures Recorded(path.table, old(path.order), md, depthLimit, depth, found)
    ensures addedAfter == added && deletedAfter == deleted
    decreases path.length, 1
  {
    ghost var p := path.order;
    ghost var first, last, m, rs, len := path.first, path.last, path.neighbors, path.roads, path.length;
    var trailAdded, trailDeleted;
    found, trailAdded, trailDeleted := ModifyAndSearch(path, md, added, deleted, depth, near, maxSearchRoads, depthLimit);
    addedAfter, deletedAfter := trailAdded[..|trailAdded| - 1], trailDeleted[..|trailDeleted| - 1];
    PopPush(added, md.add);
    PopPush(deleted, md.del);
    UndoMod(path, md, p, first, last, m, rs, len);
  }

  /** The last step of a turn: `unmodify` with the triple of the `modify`
      (which succeeds) brings back the path `p` with every field as it was. */
  method UndoMod(path: Tour, md: Mod, ghost p: seq<City>, ghost first: Option<City>, ghost last: Option<City>,
                 ghost m: Nbrs, ghost rs: set<Road>, ghost len: int)
    requires path.Valid() && !path.IsTour() && PathState(path.table, path.cities, first, last, m, rs, len, p)
    requires md.city in p && ExchangeAt(path.table, p, IndexOf(p, md.city), md.city, md.del, md.add)
    requires path.order == Exchange(p, IndexOf(p, md.city)) && md.add in path.roads
    modifies path
    ensures path.Valid() && path.Snapshot() == (old(path.cities), rs, m, first, last, len, p)
  {
    ExchangeUndone(path.table, p, IndexOf(p, md.city), md.city, md.del, md.add);
    var ok := path.Unmodify(md.city, md.add, md.del);
    assert ok;
    PathStateUnique(path.table, path.cities, p, first, last, m, rs, len,
                    path.first, path.last, path.neighbors, path.roads, path.length);
  }

  /** The first half of a turn: `modify` (which succeeds), the pushes onto
      the trails, and the search from the changed path. */
  method ModifyAndSearch(path: Tour, md: Mod, added: seq<Road>, deleted: seq<Road>, depth: nat,
                         near: map<City, seq<Road>>, maxSearchRoads: Option<int>, depthLimit: Option<int>)
    returns (found: Found, trailAdded: seq<Road>, trailDeleted: seq<Road>)
    requires path.Valid() && !path.IsTour() && NearOk(path.table, path.cities, near)
    requires md.add.length < md.del.length && Viable(path.table, path.order, path.roads, md)
    modifies path
    ensures path.Valid() && !path.IsTour() && path.cities == old(path.cities)
    ensures path.order == Exchange(old(path.order), IndexOf(old(path.order), md.city))
    ensures md.add in path.roads
    ensures found.0 == CycleLen(path.table, found.1) && SameCities(found.1, path.cities)
    ensures Cutoff(depthLimit, depth) ==> found == (CycleLen(path.table, path.order), path.order)
    ensures found.0 <= CycleLen(path.table, path.order)
    ensures trailAdded == added + [md.add] && trailDeleted == deleted + [md.del]
    decreases path.length, 0
  {
    var ok := path.Modify(md.city, md.add, md.del);
    assert ok;
    trailAdded, trailDeleted := added + [md.add], deleted + [md.del];
    ghost var subMods, subResults;
    found, subMods, subResults := SearchOn(path, trailAdded, trailDeleted, depth, near, maxSearchRoads, depthLimit);
  }

  /** `lk_depth_limit and depth > lk_depth_limit`: a limit of None or 0
      never cuts the search off. */
  predicate Cutoff(depthLimit: Option<int>, depth: int) {
    depthLimit.Some? && depthLimit.value != 0 && depth > depthLimit.value
  }

  /** The middle of a turn of the loop of `path_search`, on the changed
      path: past a truthy depth limit the path itself is the result,
      otherwise the tour the recursive search returns, which is never
      longer; its closed-tour length and city sequence are recorded. Below
      the limit, `subMods` and `subResults` are the triples and records of
      that recursive search on the trails `added` and `deleted`, and the
      record is their minimum. */
  method SearchOn(path: Tour, added: seq<Road>, deleted: seq<Road>, depth: nat,
                  near: map<City, seq<Road>>, maxSearchRoads: Option<int>, depthLimit: Option<int>)
    returns (found: Found, ghost subMods: seq<Mod>, ghost subResults: seq<Found>)
    requires path.Valid() && !path.IsTour() && NearOk(path.table, path.cities, near)
    modifies path
    ensures path.Valid() && path.Snapshot() == old(path.Snapshot())
    ensures found.0 == CycleLen(path.table, found.1) && SameCities(found.1, path.cities)
    ensures Cutoff(depthLimit, depth) ==> found == (CycleLen(path.table, path.order), path.order)
    ensures !Cutoff(depthLimit, depth) ==>
      old(path.last.value in near &&
          subMods == path.LkMods(Take(near[path.last.value], maxSearchRoads), added, deleted)) &&
      Records(path.table, path.cities, path.order, subMods, depthLimit, |added|, subResults) &&
      subResults[0] == (CycleLen(path.table, path.order), path.order) &&
      found == MinFound(subResults)
    ensures found.0 <= CycleLen(path.table, path.order)
    decreases path.length, 4
  {
    var resultPath: Tour;
    if Cutoff(depthLimit, depth) {
      resultPath := path;
      subMods, subResults := [], [];
    } else {
      resultPath, subMods, subResults := PathSearch(path, added, deleted, near, maxSearchRoads, depthLimit);
    }
    var resultCities := resultPath.CitySequence();
    found := (resultPath.TourLength(), resultCities);
  }

  /** The length of the answer of the search `r`. */
  function RunLength(r: Run): int
    requires r.results != []
  {
    MinFound(r.results).0
  }

  /** The searches `runs` of `tour_improve` from the tour over `cs`, in
      order: two per road, `backward` first true and then false. */
  ghost predicate RunsOf(table: map<Key, Road>, cs: seq<City>, near: map<City, seq<Road>>,
                         maxSearchRoads: Option<int>, depthLimit: Option<int>, runs: seq<Run>)
  {
    EachRunOf(table, cs, near, maxSearchRoads, depthLimit, runs) && Alternates(runs)
  }

  /** Each of `runs` is a search from the tour over `cs`. */
  ghost predicate EachRunOf(table: map<Key, Road>, cs: seq<City>, near: map<City, seq<Road>>,
                            maxSearchRoads: Option<int>, depthLimit: Option<int>, runs: seq<Run>)
    decreases |runs|, 1
  {
    runs != [] ==> RunAfter(table, cs, near, maxSearchRoads, depthLimit, runs[..|runs| - 1], runs[|runs| - 1])
  }

  /** Each of `runs`, and then `r`, is a search from the tour over `cs`.
      Going through this step, a fact `EachRunOf` about a list does not
      spell out the searches in it until a proof asks for them. */
  ghost predicate RunAfter(table: map<Key, Road>, cs: seq<City>, near: map<City, seq<Road>>,
                           maxSearchRoads: Option<int>, depthLimit: Option<int>, runs: seq<Run>, r: Run)
    decreases |runs| + 1, 0
  {
    EachRunOf(table, cs, near, maxSearchRoads, depthLimit, runs) && RunOf(table, cs, near, maxSearchRoads, depthLimit, r)
  }

  /** Each search in `runs` may come after those before it. */
  ghost predicate Alternates(runs: seq<Run>)
    decreases |runs|
  {
    runs != [] ==> Alternates(runs[..|runs| - 1]) && Follows(runs[..|runs| - 1], runs[|runs| - 1])
  }

  /** The search `r` may come after `runs`: the first search and each one
      after a forward search go backward, and a forward search repeats the
      road of the backward search before it. */
  ghost predicate Follows(runs: seq<Run>, r: Run) {
    (runs == [] ==> r.backward) &&
    (runs != [] ==> r.backward == !runs[|runs| - 1].backward) &&
    (!r.backward ==> runs != [] && r.road == runs[|runs| - 1].road)
  }

  /** Every search in `runs` has its forward partner. */
  ghost predicate Paired(runs: seq<Run>) {
    runs != [] ==> !runs[|runs| - 1].backward
  }

  /** Equal searches are searches alike. */
  lemma SameRun(table: map<Key, Road>, cs: seq<City>, near: map<City, seq<Road>>,
                maxSearchRoads: Option<int>, depthLimit: Option<int>, r: Run, r': Run)
    requires r == r' && RunOf(table, cs, near, maxSearchRoads, depthLimit, r)
    ensures RunOf(table, cs, near, maxSearchRoads, depthLimit, r')
  {
  }

  /** Each search of `EachRunOf` is a search from the tour over `cs`. */
  lemma {:induction false} RunsOfAt(table: map<Key, Road>, cs: seq<City>, near: map<City, seq<Road>>,
                                    maxSearchRoads: Option<int>, depthLimit: Option<int>, runs: seq<Run>, k: nat)
    requires EachRunOf(table, cs, near, maxSearchRoads, depthLimit, runs) && k < |runs|
    ensures RunOf(table, cs, near, maxSearchRoads, depthLimit, runs[k])
    decreases |runs|
  {
    if k < |runs| - 1 {
      var init := runs[..|runs| - 1];
      RunsOfAt(table, cs, near, maxSearchRoads, depthLimit, init, k);
      assert init[k] == runs[k];
      SameRun(table, cs, near, maxSearchRoads, depthLimit, init[k], runs[k]);
    }
  }

  /** The searches of `Alternates` pair up: the first goes backward, the
      directions alternate, and each forward search repeats the road of the
      backward one before it. */
  lemma {:induction false} AlternatesAt(runs: seq<Run>, k: nat)
    requires Alternates(runs) && k < |runs|
    ensures k == 0 ==> runs[k].backward
    ensures k > 0 ==> runs[k].backward == !runs[k - 1].backward
    ensures !runs[k].backward ==> k > 0 && runs[k].road == runs[k - 1].road
    decreases |runs|
  {
    var init := runs[..|runs| - 1];
    if k < |runs| - 1 {
      AlternatesAt(init, k);
      assert init[k] == runs[k];
      if k > 0 {
        assert init[k - 1] == runs[k - 1];
      }
    } else if k > 0 {
      assert init[|init| - 1] == runs[k - 1];
    }
  }

  /** `best_iteration` after the searches `runs`, starting from length
      `start` and cities `cs`: 0 exactly when no search found a shorter
      tour, and otherwise the number of the first search whose answer is
      shortest, whose length and cities are the best. */
  ghost predicate ShortestRun(start: int, cs: seq<City>, runs: seq<Run>, bestLength: int, bestCities: seq<City>,
                              bestIteration: nat) {
    (forall k :: 0 <= k < |runs| ==> runs[k].results != []) &&
    (bestIteration == 0 <==> forall k :: 0 <= k < |runs| ==> start <= RunLength(runs[k])) &&
    (bestIteration == 0 ==> bestLength == start && bestCities == cs) &&
    (bestIteration != 0 ==>
       bestIteration <= |runs| && (bestLength, bestCities) == MinFound(runs[bestIteration - 1].results) &&
       (forall k :: 0 <= k < |runs| ==> bestLength <= RunLength(runs[k])) &&
       forall k :: 0 <= k < bestIteration - 1 ==> bestLength < RunLength(runs[k]))
  }

  /** One more search keeps `ShortestRun` when a strictly shorter answer
      becomes the best and any other leaves the best as it was. */
  lemma ShortestRunStep(start: int, cs: seq<City>, runs: seq<Run>, bestLength: int, bestCities: seq<City>,
                        bestIteration: nat, run: Run, newLength: int, newCities: seq<City>, newIteration: nat)
    requires ShortestRun(start, cs, runs, bestLength, bestCities, bestIteration) && bestLength <= start
    requires run.results != []
    requires RunLength(run) < bestLength ==>
      (newLength, newCities) == MinFound(run.results) && newIteration == |runs| + 1
    requires RunLength(run) >= bestLength ==>
      (newLength, newCities, newIteration) == (bestLength, bestCities, bestIteration)
    ensures ShortestRun(start, cs, runs + [run], newLength, newCities, newIteration)
  {
    var rs := runs + [run];
    assert rs[|runs|] == run;
    assert forall k :: 0 <= k < |runs| ==> rs[k] == runs[k];
  }

  /** `(best_length, best_cities, best_iteration)` after the searches
      `runs`, from the length `start` of the tour over `cs`: the loop of
      `tour_improve` replaces the best only by a strictly shorter answer,
      numbered by its search. A search always has its start record, so
      the guard on empty records never applies to the searches of
      `RunsOf`. */
  function BestOf(start: int, cs: seq<City>, runs: seq<Run>): (int, seq<City>, nat)
    decreases |runs|
  {
    if runs == [] then (start, cs, 0)
    else
      var best := BestOf(start, cs, runs[..|runs| - 1]);
      var r := runs[|runs| - 1];
      if r.results != [] && RunLength(r) < best.0 then (RunLength(r), MinFound(r.results).1, |runs|) else best
  }

  /** What the best of `BestOf` is: 0 exactly when no search beat the
      start, and otherwise the first search whose answer is shortest. */
  lemma {:induction false} BestOfIsShortest(start: int, cs: seq<City>, runs: seq<Run>)
    requires forall k :: 0 <= k < |runs| ==> runs[k].results != []
    ensures BestOf(start, cs, runs).0 <= start
    ensures ShortestRun(start, cs, runs, BestOf(start, cs, runs).0, BestOf(start, cs, runs).1, BestOf(start, cs, runs).2)
    decreases |runs|
  {
    if runs != [] {
      var init, r := runs[..|runs| - 1], runs[|runs| - 1];
      assert forall k :: 0 <= k < |init| ==> init[k] == runs[k];
      BestOfIsShortest(start, cs, init);
      var (len, cities, it) := BestOf(start, cs, init);
      var (len', cities', it') := BestOf(start, cs, runs);
      ShortestRunStep(start, cs, init, len, cities, it, r, len', cities', it');
      assert init + [r] == runs;
    }
  }

  /** Every search of `RunsOf` has records. */
  lemma RunsAnswered(table: map<Key, Road>, cs: seq<City>, near: map<City, seq<Road>>,
                     maxSearchRoads: Option<int>, depthLimit: Option<int>, runs: seq<Run>)
    requires RunsOf(table, cs, near, maxSearchRoads, depthLimit, runs)
    ensures forall k :: 0 <= k < |runs| ==> runs[k].results != []
  {
    forall k | 0 <= k < |runs| ensures runs[k].results != [] {
      RunsOfAt(table, cs, near, maxSearchRoads, depthLimit, runs, k);
    }
  }

  /** One more search keeps `RunsOf` when its direction and road follow
      the pattern. */
  lemma RunsStep(table: map<Key, Road>, cs: seq<City>, near: map<City, seq<Road>>,
                 maxSearchRoads: Option<int>, depthLimit: Option<int>, runs: seq<Run>, run: Run)
    requires RunsOf(table, cs, near, maxSearchRoads, depthLimit, runs)
    requires RunOf(table, cs, near, maxSearchRoads, depthLimit, run) && Follows(runs, run)
    ensures RunsOf(table, cs, near, maxSearchRoads, depthLimit, runs + [run])
  {
    var rs := runs + [run];
    assert rs[..|rs| - 1] == runs && rs[|rs| - 1] == run;
    assert RunOf(table, cs, near, maxSearchRoads, depthLimit, rs[|rs| - 1]);
  }

  /** What `tour_improve` keeps between searches, starting from the tour
      over `cs`: `best_length` is the closed-tour length of `best_cities`,
      a reordering of `cs`, never longer than the start; `best_iteration`,
      at most the count `i` of searches so far, is 0 only while nothing
      strictly shorter was found (the start is then the best), and
      otherwise the best is strictly shorter. */
  ghost predicate BestSoFar(table: map<Key, Road>, cs: seq<City>, bestLength: int, bestCities: seq<City>,
                            bestIteration: nat, i: nat) {
    bestLength == CycleLen(table, bestCities) && SameCities(bestCities, cs) &&
    bestLength <= CycleLen(table, cs) && bestIteration <= i &&
    (bestIteration == 0 ==> bestCities == cs) &&
    (bestIteration != 0 ==> bestLength < CycleLen(table, cs))
  }

  /** `best_tour`: a valid closed tour over `cs` in the registry `table`. */
  ghost predicate ClosedOver(t: Tour, table: map<Key, Road>, cs: seq<City>)
    reads t
  {
    t.Valid() && t.IsTour() && t.table == table && t.cities == cs
  }

  /** `tour_improve(tour, lk_max_search_roads, ..., lk_depth_limit)`: for
      every road of the starting tour, two searches (see `SearchBothWays`).
      The answer is never longer than the starting tour, `best_iteration`
      numbers the search that found it (0 when none was shorter, and then
      the answer is the starting tour), and `searches`, the final count `i`,
      is twice the number of roads. */
  method TourImprove(tour: Tour, near: map<City, seq<Road>>, maxSearchRoads: Option<int>, depthLimit: Option<int>)
    returns (bestTour: Tour, bestIteration: nat, ghost searches: nat, ghost runs: seq<Run>)
    requires tour.Valid() && tour.IsTour() && NearOk(tour.table, tour.cities, near)
    modifies tour
    ensures tour.Valid() && tour.cities == old(tour.cities)
    ensures |runs| == searches && RunsOf(tour.table, tour.cities, near, maxSearchRoads, depthLimit, runs)
    ensures Covered(runs, old(tour.roads))
    ensures fresh(bestTour) && bestTour.Valid() && bestTour.IsTour() && bestTour.table == tour.table
    ensures (bestTour.TourLength(), bestTour.cities, bestIteration) == BestOf(old(tour.TourLength()), old(tour.cities), runs)
    ensures ShortestRun(old(tour.TourLength()), old(tour.cities), runs, bestTour.TourLength(), bestTour.cities,
                        bestIteration)
    ensures SameCities(bestTour.cities, tour.cities)
    ensures bestTour.TourLength() <= old(tour.TourLength())
    ensures searches == 2 * |old(tour.roads)| && bestIteration <= searches
    ensures bestIteration == 0 ==> bestTour.cities == old(tour.cities)
    ensures bestIteration != 0 ==> bestTour.TourLength() < old(tour.TourLength())
  {
    var bestLength, bestCities;
    searches, bestLength, bestCities, bestIteration, bestTour, runs :=
      SearchAllRoads(tour, near, maxSearchRoads, depthLimit);
    RunsAnswered(tour.table, tour.cities, near, maxSearchRoads, depthLimit, runs);
    BestOfIsShortest(CycleLen(tour.table, tour.cities), tour.cities, runs);
  }

  /** The outer loop of `tour_improve`: `best_length` and `best_cities`
      start as the tour's, `best_iteration` and `i` at 0, and every road of
      the tour, taken once in some order, gets its two searches. */
  method SearchAllRoads(tour: Tour, near: map<City, seq<Road>>, maxSearchRoads: Option<int>, depthLimit: Option<int>)
    returns (i: nat, bestLength: int, bestCities: seq<City>, bestIteration: nat, best: Tour, ghost runs: seq<Run>)
    requires tour.Valid() && tour.IsTour() && NearOk(tour.table, tour.cities, near)
    modifies tour
    ensures tour.Valid() && tour.cities == old(tour.cities)
    ensures i == 2 * |old(tour.roads)| && BestSoFar(tour.table, tour.cities, bestLength, bestCities, bestIteration, i)
    ensures fresh(best) && ClosedOver(best, tour.table, bestCities)
    ensures |runs| == i && RunsOf(tour.table, tour.cities, near, maxSearchRoads, depthLimit, runs)
    ensures (bestLength, bestCities, bestIteration) == BestOf(CycleLen(tour.table, tour.cities), tour.cities, runs)
    ensures Covered(runs, old(tour.roads))
  {
    bestLength := tour.TourLength();
    bestCities := tour.CitySequence();
    var loopRoads := tour.roads;
    CycleRoadAt(tour.table, tour.cities, 0);
    i := 0;
    bestIteration := 0;
    var lastBest: Tour? := null;
    var rest := loopRoads;
    runs := [];
    while rest != {}
      invariant rest <= loopRoads && loopRoads == CycleRoads(tour.table, tour.cities) == old(tour.roads)
      invariant tour.Valid() && tour.cities == old(tour.cities) && NearOk(tour.table, tour.cities, near)
      invariant i == 2 * (|loopRoads| - |rest|)
      invariant BestSoFar(tour.table, tour.cities, bestLength, bestCities, bestIteration, i)
      invariant rest != loopRoads ==> lastBest != null && fresh(lastBest) && ClosedOver(lastBest, tour.table, bestCities)
      invariant |runs| == i && Paired(runs) && RunsOf(tour.table, tour.cities, near, maxSearchRoads, depthLimit, runs)
      invariant (bestLength, bestCities, bestIteration) == BestOf(CycleLen(tour.table, tour.cities), tour.cities, runs)
      invariant Covered(runs, loopRoads - rest)
      decreases |rest|
    {
      var road :| road in rest;
      ghost var runs0 := runs;
      i, bestLength, bestCities, bestIteration, lastBest, runs :=
        SearchBothWays(tour, road, near, maxSearchRoads, depthLimit, i, bestLength, bestCities, bestIteration, runs);
      RoadDone(loopRoads, rest, road, runs0, runs);
      rest := rest - {road};
    }
    assert loopRoads - rest == loopRoads;
    best := lastBest;
  }

  /** Every road in `roads` has a search in `runs` opened at it. */
  ghost predicate Covered(runs: seq<Run>, roads: set<Road>) {
    forall r :: r in roads ==> exists k :: 0 <= k < |runs| && runs[k].road == r
  }

  /** Taking `road` out of the roads `rest` still to search, once the
      searches appended after `runs0` start with one opened at `road`:
      one road fewer is left, and the roads done are still covered. */
  lemma RoadDone(loopRoads: set<Road>, rest: set<Road>, road: Road, runs0: seq<Run>, runs: seq<Run>)
    requires road in rest && rest <= loopRoads && Covered(runs0, loopRoads - rest)
    requires |runs0| < |runs| && runs[..|runs0|] == runs0 && runs[|runs0|].road == road
    ensures rest - {road} <= loopRoads && |rest - {road}| == |rest| - 1
    ensures Covered(runs, loopRoads - (rest - {road}))
  {
    forall r | r in loopRoads - (rest - {road}) ensures exists k :: 0 <= k < |runs| && runs[k].road == r {
      if r != road {
        assert r in loopRoads - rest;
        var k :| 0 <= k < |runs0| && runs0[k].road == r;
        assert runs[k] == runs0[k];
      }
    }
  }

  /** The bookkeeping of one pass of the inner loop of `tour_improve`: the
      search `run` is appended to `runs`, and the best is updated when it is
      strictly shorter. */
  lemma PassStep(table: map<Key, Road>, cs: seq<City>, near: map<City, seq<Road>>, maxSearchRoads: Option<int>,
                 depthLimit: Option<int>, road: Road, i0: nat, runs0: seq<Run>, b: nat, runs: seq<Run>, run: Run,
                 bestLength: int, bestCities: seq<City>, bestIteration: nat,
                 newLength: int, newCities: seq<City>, newIteration: nat)
    requires b < 2 && |runs| == i0 + b && runs[..i0] == runs0 && Paired(runs0)
    requires b > 0 ==> runs[i0].road == road && runs[i0].backward
    requires RunsOf(table, cs, near, maxSearchRoads, depthLimit, runs)
    requires (bestLength, bestCities, bestIteration) == BestOf(CycleLen(table, cs), cs, runs)
    requires RunOf(table, cs, near, maxSearchRoads, depthLimit, run) && run.road == road && run.backward == (b == 0)
    requires RunLength(run) < bestLength ==>
      (newLength, newCities) == MinFound(run.results) && newIteration == |runs| + 1
    requires RunLength(run) >= bestLength ==>
      (newLength, newCities, newIteration) == (bestLength, bestCities, bestIteration)
    ensures |runs + [run]| == i0 + b + 1 && (runs + [run])[..i0] == runs0
    ensures (runs + [run])[i0].road == road && (runs + [run])[i0].backward
    ensures b == 1 ==> Paired(runs + [run])
    ensures RunsOf(table, cs, near, maxSearchRoads, depthLimit, runs + [run])
    ensures (newLength, newCities, newIteration) == BestOf(CycleLen(table, cs), cs, runs + [run])
  {
    FollowsStep(road, i0, runs0, b, runs, run);
    assert (runs + [run])[..|runs|] == runs;
    RunsStep(table, cs, near, maxSearchRoads, depthLimit, runs, run);
  }

  /** In pass `b` over `road`, after the paired searches `runs0`, the
      search `run` (backward in the first pass, forward over the same road
      in the second) may follow `runs`, and after the second pass the
      searches are paired again. */
  lemma FollowsStep(road: Road, i0: nat, runs0: seq<Run>, b: nat, runs: seq<Run>, run: Run)
    requires b < 2 && |runs| == i0 + b && runs[..i0] == runs0 && Paired(runs0)
    requires b > 0 ==> runs[i0].road == road && runs[i0].backward
    requires run.road == road && run.backward == (b == 0)
    ensures Follows(runs, run)
    ensures |runs + [run]| == i0 + b + 1 && (runs + [run])[..i0] == runs0
    ensures (runs + [run])[i0].road == road && (runs + [run])[i0].backward
    ensures b == 1 ==> Paired(runs + [run])
  {
    if b == 1 {
      assert runs[|runs| - 1] == runs[i0];
    } else if i0 > 0 {
      assert runs[|runs| - 1] == runs0[i0 - 1];
    }
    assert (runs + [run])[..i0] == runs[..i0];
  }

  /** One pass of the inner loop of `tour_improve`: count the search in
      `i`, search from the tour opened at `road` in direction `backward`,
      keep a strictly shorter result as the best with its count as
      `best_iteration`, and rebuild `best_tour` from the best cities. */
  method SearchPass(tour: Tour, road: Road, backward: bool, near: map<City, seq<Road>>, maxSearchRoads: Option<int>,
                    depthLimit: Option<int>, ghost i0: nat, ghost runs0: seq<Run>, ghost b: nat,
                    i1: nat, bestLength1: int, bestCities1: seq<City>, bestIteration1: nat, ghost runs1: seq<Run>)
    returns (i: nat, bestLength: int, bestCities: seq<City>, bestIteration: nat, best: Tour, ghost runs: seq<Run>)
    requires tour.Valid() && NearOk(tour.table, tour.cities, near) && road in CycleRoads(tour.table, tour.cities)
    requires b < 2 && backward == (b == 0) && i1 == i0 + b
    requires BestSoFar(tour.table, tour.cities, bestLength1, bestCities1, bestIteration1, i1)
    requires |runs1| == i1 && runs1[..i0] == runs0 && Paired(runs0)
    requires b > 0 ==> runs1[i0].road == road && runs1[i0].backward
    requires RunsOf(tour.table, tour.cities, near, maxSearchRoads, depthLimit, runs1)
    requires (bestLength1, bestCities1, bestIteration1) == BestOf(CycleLen(tour.table, tour.cities), tour.cities, runs1)
    modifies tour
    ensures tour.Valid() && tour.cities == old(tour.cities)
    ensures i == i1 + 1 && BestSoFar(tour.table, tour.cities, bestLength, bestCities, bestIteration, i)
    ensures fresh(best) && ClosedOver(best, tour.table, bestCities)
    ensures |runs| == i && runs[..i0] == runs0 && runs[i0].road == road && runs[i0].backward
    ensures b == 1 ==> Paired(runs)
    ensures RunsOf(tour.table, tour.cities, near, maxSearchRoads, depthLimit, runs)
    ensures (bestLength, bestCities, bestIteration) == BestOf(CycleLen(tour.table, tour.cities), tour.cities, runs)
  {
    ghost var table, cs := tour.table, tour.cities;
    i := i1 + 1;
    var tour2;
    ghost var run;
    tour2, run := SearchFromRoad(tour, road, backward, near, maxSearchRoads, depthLimit);
    bestLength, bestCities, bestIteration := KeepShorter(tour2, i, bestLength1, bestCities1, bestIteration1);
    PassStep(table, cs, near, maxSearchRoads, depthLimit, road, i0, runs0, b, runs1, run,
             bestLength1, bestCities1, bestIteration1, bestLength, bestCities, bestIteration);
    runs := runs1 + [run];
    SameCitiesCovers(table, bestCities, cs);
    best := new Tour(tour.table, bestCities);
  }

  /** The update after each search of `tour_improve`: the search's tour
      `tour2`, found as search `i`, becomes the best when it is strictly
      shorter; otherwise the best stays. */
  method KeepShorter(tour2: Tour, i: nat, bestLength0: int, bestCities0: seq<City>, bestIteration0: nat)
    returns (bestLength: int, bestCities: seq<City>, bestIteration: nat)
    requires tour2.Valid() && tour2.IsTour()
    ensures tour2.TourLength() < bestLength0 ==> (bestLength, bestCities, bestIteration) == (tour2.TourLength(), tour2.cities, i)
    ensures tour2.TourLength() >= bestLength0 ==>
      (bestLength, bestCities, bestIteration) == (bestLength0, bestCities0, bestIteration0)
    ensures bestLength <= bestLength0
  {
    bestLength, bestCities, bestIteration := bestLength0, bestCities0, bestIteration0;
    if tour2.TourLength() < bestLength {
      bestLength := tour2.TourLength();
      bestCities := tour2.CitySequence();
      bestIteration := i;
    }
  }

  /** The inner loop of `tour_improve` for one road: one pass for
      `backward` in `(True, False)`. */
  method SearchBothWays(tour: Tour, road: Road, near: map<City, seq<Road>>, maxSearchRoads: Option<int>,
                        depthLimit: Option<int>, i0: nat, bestLength0: int, bestCities0: seq<City>,
                        bestIteration0: nat, ghost runs0: seq<Run>)
    returns (i: nat, bestLength: int, bestCities: seq<City>, bestIteration: nat, best: Tour, ghost runs: seq<Run>)
    requires tour.Valid() && NearOk(tour.table, tour.cities, near) && road in CycleRoads(tour.table, tour.cities)
    requires BestSoFar(tour.table, tour.cities, bestLength0, bestCities0, bestIteration0, i0)
    requires |runs0| == i0 && Paired(runs0) && RunsOf(tour.table, tour.cities, near, maxSearchRoads, depthLimit, runs0)
    requires (bestLength0, bestCities0, bestIteration0) == BestOf(CycleLen(tour.table, tour.cities), tour.cities, runs0)
    modifies tour
    ensures tour.Valid() && tour.cities == old(tour.cities)
    ensures i == i0 + 2 && BestSoFar(tour.table, tour.cities, bestLength, bestCities, bestIteration, i)
    ensures fresh(best) && ClosedOver(best, tour.table, bestCities)
    ensures |runs| == i && runs[..i0] == runs0 && runs[i0].road == road && Paired(runs)
    ensures RunsOf(tour.table, tour.cities, near, maxSearchRoads, depthLimit, runs)
    ensures (bestLength, bestCities, bestIteration) == BestOf(CycleLen(tour.table, tour.cities), tour.cities, runs)
  {
    i, bestLength, bestCities, bestIteration := i0, bestLength0, bestCities0, bestIteration0;
    runs := runs0;
    ghost var table, cs := tour.table, tour.cities;
    var passes := [true, false];
    var lastBest: Tour? := null;
    assert runs[..i0] == runs0;
    for b := 0 to |passes|
      invariant tour.Valid() && tour.cities == cs && tour.table == table && NearOk(table, cs, near)
      invariant i == i0 + b && BestSoFar(table, cs, bestLength, bestCities, bestIteration, i)
      invariant b > 0 ==> lastBest != null && fresh(lastBest) && ClosedOver(lastBest, table, bestCities)
      invariant |runs| == i && runs[..i0] == runs0 && (b > 0 ==> runs[i0].road == road && runs[i0].backward)
      invariant b == 2 ==> Paired(runs)
      invariant RunsOf(table, cs, near, maxSearchRoads, depthLimit, runs)
      invariant (bestLength, bestCities, bestIteration) == BestOf(CycleLen(table, cs), cs, runs)
    {
      var best;
      i, bestLength, bestCities, bestIteration, best, runs :=
        SearchPass(tour, road, passes[b], near, maxSearchRoads, depthLimit, i0, runs0, b,
                   i, bestLength, bestCities, bestIteration, runs);
      lastBest := best;
    }
    best := lastBest;
  }

  /** One search of `tour_improve`, as a value: the road the tour was
      opened at, the direction, the opened path, the triples and the records
      of `path_search` on it. */
  datatype Run = Run(road: Road, backward: bool, path: seq<City>, mods: seq<Mod>, results: seq<Found>)

  /** `r` is what one search from the closed tour over `cs` does: the path
      is the (reversed, when `backward`) tour rotated to start at one end of
      `r.road` and end at the other, the triples are `find_lk_mods` of that
      path with empty trails, and the records those of `path_search`. */
  ghost predicate RunOf(table: map<Key, Road>, cs: seq<City>, near: map<City, seq<Road>>,
                        maxSearchRoads: Option<int>, depthLimit: Option<int>, r: Run) {
    var d := if r.backward then Rev(cs) else cs;
    r.road in CycleRoads(table, cs) &&
    r.path != [] && r.path[0] in d && r.path == Rotate(d, IndexOf(d, r.path[0])) &&
    ((r.path[0], r.path[|r.path| - 1]) == (r.road.c2, r.road.c1) ||
     (r.path[0], r.path[|r.path| - 1]) == (r.road.c1, r.road.c2)) &&
    r.path[|r.path| - 1] in near &&
    r.mods == LkModsOn(table, r.path, Take(near[r.path[|r.path| - 1]], maxSearchRoads), [], []) &&
    Records(table, cs, r.path, r.mods, depthLimit, 0, r.results) && r.results[0] == (CycleLen(table, r.path), r.path)
  }

  /** One search of `tour_improve`: `revert`, `tour2path(road, backward)`
      (which succeeds, the reverted tour having `road`), and `path_search`
      with empty trails. The answer is the closed tour of the minimum
      record of that search. */
  method SearchFromRoad(tour: Tour, road: Road, backward: bool, near: map<City, seq<Road>>,
                        maxSearchRoads: Option<int>, depthLimit: Option<int>) returns (tour2: Tour, ghost run: Run)
    requires tour.Valid() && NearOk(tour.table, tour.cities, near) && road in CycleRoads(tour.table, tour.cities)
    modifies tour
    ensures tour.Valid() && tour.cities == old(tour.cities)
    ensures fresh(tour2) && tour2.Valid() && tour2.IsTour() && tour2.table == tour.table
    ensures SameCities(tour2.cities, tour.cities)
    ensures RunOf(tour.table, tour.cities, near, maxSearchRoads, depthLimit, run)
    ensures run.road == road && run.backward == backward
    ensures (tour2.TourLength(), tour2.cities) == MinFound(run.results)
    ensures tour2.TourLength() <= CycleLen(tour.table, tour.cities)
  {
    ghost var table, cs := tour.table, tour.cities;
    OpenRoad(tour, road, backward);
    ghost var p := tour.order;
    tour.NearModsAgree(near, maxSearchRoads, [], []);
    ghost var expected := tour.LkMods(Take(near[p[|p| - 1]], maxSearchRoads), [], []);
    ghost var mods, results;
    tour2, mods, results := PathSearch(tour, [], [], near, maxSearchRoads, depthLimit);
    assert mods == expected;
    RunOfIntro(table, cs, near, maxSearchRoads, depthLimit, road, backward, p, mods, results);
    run := Run(road, backward, p, mods, results);
  }

  /** The opening of one search: `revert`, then `tour2path(road, backward)`,
      which succeeds because the reverted tour holds `road`. The path
      starts and ends at the road's cities and visits them in the tour's
      order, or the reverse one. */
  method OpenRoad(tour: Tour, road: Road, backward: bool)
    requires tour.Valid() && road in CycleRoads(tour.table, tour.cities)
    modifies tour
    ensures tour.Valid() && !tour.IsTour() && tour.cities == old(tour.cities)
    ensures tour.TourLength() == CycleLen(tour.table, tour.cities)
    ensures var p, d := tour.order, if backward then Rev(tour.cities) else tour.cities;
      p != [] && p[0] in d && p == Rotate(d, IndexOf(d, p[0])) && p[|p| - 1] in tour.cities &&
      tour.first == Some(p[0]) && tour.last == Some(p[|p| - 1])
    ensures (tour.first, tour.last) == (Some(road.c2), Some(road.c1)) ||
            (tour.first, tour.last) == (Some(road.c1), Some(road.c2))
  {
    tour.Revert();
    var ok := tour.Tour2Path(road, backward);
    tour.PathEnds();
  }

  /** Gathers the facts a search establishes into `RunOf`, away from the heap. */
  lemma RunOfIntro(table: map<Key, Road>, cs: seq<City>, near: map<City, seq<Road>>,
                   maxSearchRoads: Option<int>, depthLimit: Option<int>,
                   road: Road, backward: bool, p: seq<City>, mods: seq<Mod>, results: seq<Found>)
    requires road in CycleRoads(table, cs)
    requires p != [] && p[0] in (if backward then Rev(cs) else cs)
    requires p == Rotate(if backward then Rev(cs) else cs, IndexOf(if backward then Rev(cs) else cs, p[0]))
    requires (p[0], p[|p| - 1]) == (road.c2, road.c1) || (p[0], p[|p| - 1]) == (road.c1, road.c2)
    requires p[|p| - 1] in near
    requires mods == LkModsOn(table, p, Take(near[p[|p| - 1]], maxSearchRoads), [], [])
    requires Records(table, cs, p, mods, depthLimit, 0, results)
    requires results[0] == (CycleLen(table, p), p)
    ensures RunOf(table, cs, near, maxSearchRoads, depthLimit, Run(road, backward, p, mods, results))
  {
  }
}
