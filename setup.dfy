/** Building the road registries (tour.py, `Tour.init_roads`): the global
    registry of all roads and each city's own registry of the roads that
    end at it, and the sorted per-city road lists the search reads. */
module RoadSetup {
  import opened RoadDef
  import opened RoadIndex
  import opened TourState

  /** `init_roads` has stored the road `k` before it reaches the pair
      `(i, j)`: `k` joins `cs[a]` and `cs[b]` with `a < b`, and the pair
      `(a, b)` comes earlier in row-by-row order. */
  ghost predicate StoredBefore(cs: seq<City>, k: Key, i: int, j: int) {
    k.0 in cs && k.1 in cs &&
    var a, b := IndexOf(cs, k.0), IndexOf(cs, k.1);
    a < b && (a < i || (a == i && b < j))
  }

  /** The road `k` belongs in the registry kept for `owner`: the global one
      (None) takes every road, a city's own takes the roads ending there. */
  predicate Keeps(owner: Option<City>, k: Key) {
    owner.None? || k.0 == owner.value || k.1 == owner.value
  }

  /** The registry `t`, which held `t0` before `init_roads`, holds what it
      should for the key `k` once every pair before `(i, j)` is done: the
      road built from the key if the pair is done and the registry keeps
      it, and otherwise whatever `t0` had. */
  ghost predicate HoldsAt(t: map<Key, Road>, t0: map<Key, Road>, cs: seq<City>, dist: (City, City) -> nat,
                          owner: Option<City>, i: int, j: int, k: Key) {
    if StoredBefore(cs, k, i, j) && Keeps(owner, k) then k in t && t[k] == NewRoad(k.0, k.1, dist)
    else (k in t <==> k in t0) && (k in t ==> t[k] == t0[k])
  }

  ghost predicate Holds(t: map<Key, Road>, t0: map<Key, Road>, cs: seq<City>, dist: (City, City) -> nat,
                        owner: Option<City>, i: int, j: int) {
    forall k :: HoldsAt(t, t0, cs, dist, owner, i, j, k)
  }

  /** One pair further in row order: `(i, j)` itself is the pair added. */
  lemma StoredBeforeStep(cs: seq<City>, k: Key, i: nat, j: nat)
    requires Distinct(cs) && i < j < |cs|
    ensures StoredBefore(cs, k, i, j + 1) <==> StoredBefore(cs, k, i, j) || k == (cs[i], cs[j])
  {
    IndexOfAt(cs, i);
    IndexOfAt(cs, j);
  }

  /** Storing the road of the pair `(i, j)`, when the registry keeps it,
      moves the registry on to the next pair, key by key. */
  lemma HoldsAtStep(t: map<Key, Road>, t0: map<Key, Road>, cs: seq<City>, dist: (City, City) -> nat,
                    owner: Option<City>, i: nat, j: nat, k: Key)
    requires Distinct(cs) && i < j < |cs| && HoldsAt(t, t0, cs, dist, owner, i, j, k)
    ensures var k0 := (cs[i], cs[j]);
      HoldsAt(if Keeps(owner, k0) then t[k0 := NewRoad(cs[i], cs[j], dist)] else t, t0, cs, dist, owner, i, j + 1, k)
  {
    StoredBeforeStep(cs, k, i, j);
  }

  lemma HoldsStep(t: map<Key, Road>, t0: map<Key, Road>, cs: seq<City>, dist: (City, City) -> nat,
                  owner: Option<City>, i: nat, j: nat)
    requires Distinct(cs) && i < j < |cs| && Holds(t, t0, cs, dist, owner, i, j)
    ensures var k0 := (cs[i], cs[j]);
      Holds(if Keeps(owner, k0) then t[k0 := NewRoad(cs[i], cs[j], dist)] else t, t0, cs, dist, owner, i, j + 1)
  {
    var k0 := (cs[i], cs[j]);
    var t' := if Keeps(owner, k0) then t[k0 := NewRoad(cs[i], cs[j], dist)] else t;
    var next := j + 1;
    forall k ensures HoldsAt(t', t0, cs, dist, owner, i, next, k) {
      HoldsAtStep(t, t0, cs, dist, owner, i, j, k);
    }
  }

  /** The roads of `AllRoads` are the ones stored before the end of the last row. */
  lemma AllRoadsAt(cs: seq<City>, dist: (City, City) -> nat, k: Key)
    requires Distinct(cs)
    ensures k in AllRoads(cs, dist) <==> StoredBefore(cs, k, |cs|, 0)
    ensures k in AllRoads(cs, dist) ==> AllRoads(cs, dist)[k] == NewRoad(k.0, k.1, dist)
  {
    if k in AllRoads(cs, dist) {
      AllRoadsStored(cs, dist, k);
    }
    if StoredBefore(cs, k, |cs|, 0) {
      StoredInAllRoads(cs, dist, k);
    }
  }

  lemma AllRoadsStored(cs: seq<City>, dist: (City, City) -> nat, k: Key)
    requires Distinct(cs) && k in AllRoads(cs, dist)
    ensures StoredBefore(cs, k, |cs|, 0) && AllRoads(cs, dist)[k] == NewRoad(k.0, k.1, dist)
  {
    var a, b :| 0 <= a < b < |cs| && k == (cs[a], cs[b]);
    PairStored(cs, a, b);
  }

  lemma PairStored(cs: seq<City>, a: nat, b: nat)
    requires Distinct(cs) && a < b < |cs|
    ensures StoredBefore(cs, (cs[a], cs[b]), |cs|, 0)
  {
    IndexOfAt(cs, a);
    IndexOfAt(cs, b);
  }

  lemma StoredInAllRoads(cs: seq<City>, dist: (City, City) -> nat, k: Key)
    requires StoredBefore(cs, k, |cs|, 0)
    ensures k in AllRoads(cs, dist)
  {
    var a, b := IndexOf(cs, k.0), IndexOf(cs, k.1);
    AllRoadsHas(cs, dist, a, b);
    assert (cs[a], cs[b]) == k;
  }

  /** Started from empty registries, the global registry ends up as
      `AllRoads` and a city's registry as the roads of `AllRoads` that end
      at that city. */
  lemma HoldsAllAt(t: map<Key, Road>, cs: seq<City>, dist: (City, City) -> nat, owner: Option<City>, k: Key)
    requires Distinct(cs) && HoldsAt(t, map[], cs, dist, owner, |cs|, 0, k)
    ensures k in t <==> k in AllRoads(cs, dist) && Keeps(owner, k)
    ensures k in t ==> t[k] == AllRoads(cs, dist)[k]
  {
    AllRoadsAt(cs, dist, k);
  }

  lemma HoldsAll(t: map<Key, Road>, cs: seq<City>, dist: (City, City) -> nat, owner: Option<City>)
    requires Distinct(cs) && Holds(t, map[], cs, dist, owner, |cs|, 0)
    ensures forall k :: k in t <==> k in AllRoads(cs, dist) && Keeps(owner, k)
    ensures forall k :: k in t ==> t[k] == AllRoads(cs, dist)[k]
  {
    forall k ensures (k in t <==> k in AllRoads(cs, dist) && Keeps(owner, k)) &&
                     (k in t ==> t[k] == AllRoads(cs, dist)[k]) {
      HoldsAllAt(t, cs, dist, owner, k);
    }
  }

  /** The three stores `obj.roads[(city1, city2)] = road` for `obj` in
      `(Tour, city1, city2)`. */
  method StoreRoad(all: Roads, reg: map<City, Roads>, a: City, b: City, road: Road)
    requires a in reg && b in reg && reg[a] != reg[b] && all != reg[a] && all != reg[b]
    requires all.Valid() && reg[a].Valid() && reg[b].Valid()
    modifies all, reg[a], reg[b]
    ensures all.Valid() && all.table == old(all.table)[(a, b) := road] && all.byLength == old(all.byLength)
    ensures reg[a].Valid() && reg[a].table == old(reg[a].table)[(a, b) := road]
    ensures reg[a].byLength == old(reg[a].byLength)
    ensures reg[b].Valid() && reg[b].table == old(reg[b].table)[(a, b) := road]
    ensures reg[b].byLength == old(reg[b].byLength)
  {
    all.Store((a, b), road);
    reg[a].Store((a, b), road);
    reg[b].Store((a, b), road);
  }

  /** The registries are separate objects: the global one and one per city of `cs`. */
  ghost predicate Separate(all: Roads, reg: map<City, Roads>, cs: seq<City>) {
    (forall c :: c in cs <==> c in reg) &&
    (forall a, b :: a in reg && b in reg && a != b ==> reg[a] != reg[b]) &&
    all !in reg.Values
  }

  /** Every registry holds what it should once the pairs before `(i, j)`
      are done, starting from the dictionaries `t0` (global) and `r0[c]`
      (city `c`), with the `by_length` caches `b0` and `rb0[c]` untouched. */
  ghost predicate Filled(all: Roads, reg: map<City, Roads>, cs: seq<City>, dist: (City, City) -> nat,
                         t0: map<Key, Road>, b0: seq<Road>, r0: map<City, map<Key, Road>>,
                         rb0: map<City, seq<Road>>, i: int, j: int)
    reads all, reg.Values
  {
    all.Valid() && Holds(all.table, t0, cs, dist, None, i, j) && all.byLength == b0 &&
    forall c :: c in reg ==>
      c in r0 && c in rb0 && reg[c].Valid() && Holds(reg[c].table, r0[c], cs, dist, Some(c), i, j) &&
      reg[c].byLength == rb0[c]
  }

  /** `Tour.init_roads(cities)`: for each pair `cs[i], cs[j]` with `i < j`,
      row by row, one new road is stored under `(cs[i], cs[j])` in the
      global registry `all` and in the registries `reg` of both cities.
      Each registry ends up with its old entries overlaid by the new roads
      it keeps (all of them for the global one, those ending at the city
      for a city's own); no cache changes. */
  method InitRoads(all: Roads, reg: map<City, Roads>, cs: seq<City>, dist: (City, City) -> nat)
    requires Distinct(cs) && Separate(all, reg, cs)
    requires all.Valid() && forall c :: c in reg ==> reg[c].Valid()
    modifies all, reg.Values
    ensures all.Valid() && Holds(all.table, old(all.table), cs, dist, None, |cs|, 0)
    ensures all.byLength == old(all.byLength)
    ensures forall c :: c in reg ==>
      reg[c].Valid() && Holds(reg[c].table, old(reg[c].table), cs, dist, Some(c), |cs|, 0) &&
      reg[c].byLength == old(reg[c].byLength)
  {
    ghost var t0, b0 := all.table, all.byLength;
    ghost var r0 := map c | c in reg :: reg[c].table;
    ghost var rb0 := map c | c in reg :: reg[c].byLength;
    FilledStart(all, reg, cs, dist, t0, b0, r0, rb0);
    for i := 0 to |cs|
      invariant Filled(all, reg, cs, dist, t0, b0, r0, rb0, i, 0)
    {
      RowEdges(cs, i);
      FilledSame(all, reg, cs, dist, t0, b0, r0, rb0, i, 0, i, i + 1);
      for j := i + 1 to |cs|
        invariant Filled(all, reg, cs, dist, t0, b0, r0, rb0, i, j)
      {
        StorePair(all, reg, cs, dist, i, j, t0, b0, r0, rb0);
      }
      FilledSame(all, reg, cs, dist, t0, b0, r0, rb0, i, |cs|, i + 1, 0);
    }
  }

  /** Before the first pair every registry holds what it held. */
  lemma FilledStart(all: Roads, reg: map<City, Roads>, cs: seq<City>, dist: (City, City) -> nat,
                    t0: map<Key, Road>, b0: seq<Road>, r0: map<City, map<Key, Road>>, rb0: map<City, seq<Road>>)
    requires all.Valid() && all.table == t0 && all.byLength == b0
    requires forall c :: c in reg ==> c in r0 && c in rb0 && reg[c].Valid() && reg[c].table == r0[c] &&
                                      reg[c].byLength == rb0[c]
    ensures Filled(all, reg, cs, dist, t0, b0, r0, rb0, 0, 0)
  {
    forall t: map<Key, Road>, owner: Option<City> ensures Holds(t, t, cs, dist, owner, 0, 0) {
      forall k ensures HoldsAt(t, t, cs, dist, owner, 0, 0, k) {
      }
    }
  }

  /** A row starts where the previous one ended: `(i, 0)`, `(i, i + 1)` and
      the end `(i - 1, |cs|)` of the row before have the same pairs done. */
  lemma RowEdges(cs: seq<City>, i: nat)
    ensures forall k :: StoredBefore(cs, k, i, 0) == StoredBefore(cs, k, i, i + 1)
    ensures forall k :: StoredBefore(cs, k, i, |cs|) == StoredBefore(cs, k, i + 1, 0)
  {
  }

  /** Two points of the order with the same pairs done describe the same registries. */
  lemma FilledSame(all: Roads, reg: map<City, Roads>, cs: seq<City>, dist: (City, City) -> nat,
                   t0: map<Key, Road>, b0: seq<Road>, r0: map<City, map<Key, Road>>, rb0: map<City, seq<Road>>,
                   i: int, j: int, i2: int, j2: int)
    requires Filled(all, reg, cs, dist, t0, b0, r0, rb0, i, j)
    requires forall k :: StoredBefore(cs, k, i, j) == StoredBefore(cs, k, i2, j2)
    ensures Filled(all, reg, cs, dist, t0, b0, r0, rb0, i2, j2)
  {
    forall t: map<Key, Road>, t1: map<Key, Road>, owner: Option<City> | Holds(t, t1, cs, dist, owner, i, j)
      ensures Holds(t, t1, cs, dist, owner, i2, j2)
    {
      forall k ensures HoldsAt(t, t1, cs, dist, owner, i2, j2, k) {
        assert HoldsAt(t, t1, cs, dist, owner, i, j, k);
      }
    }
  }

  /** One turn of the inner loop of `init_roads`: the road `cs[i] -- cs[j]`
      built and stored in the three registries. */
  method StorePair(all: Roads, reg: map<City, Roads>, cs: seq<City>, dist: (City, City) -> nat, i: nat, j: nat,
                   ghost t0: map<Key, Road>, ghost b0: seq<Road>, ghost r0: map<City, map<Key, Road>>,
                   ghost rb0: map<City, seq<Road>>)
    requires Distinct(cs) && Separate(all, reg, cs) && i < j < |cs|
    requires Filled(all, reg, cs, dist, t0, b0, r0, rb0, i, j)
    modifies all, reg.Values
    ensures Filled(all, reg, cs, dist, t0, b0, r0, rb0, i, j + 1)
  {
    var road := NewRoad(cs[i], cs[j], dist);
    ghost var before := map c | c in reg :: reg[c].table;
    ghost var allBefore := all.table;
    DistinctAt(cs, i, j);
    StoreRoad(all, reg, cs[i], cs[j], road);
    HoldsStep(allBefore, t0, cs, dist, None, i, j);
    forall c | c in reg
      ensures Holds(reg[c].table, r0[c], cs, dist, Some(c), i, j + 1)
    {
      HoldsStep(before[c], r0[c], cs, dist, Some(c), i, j);
    }
  }

  /** Started from an empty dictionary, `init_roads` leaves in the global
      registry exactly the roads of `AllRoads(cs, dist)`, which fit the cities. */
  lemma GlobalIsAllRoads(cs: seq<City>, dist: (City, City) -> nat, t: map<Key, Road>)
    requires Distinct(cs) && Holds(t, map[], cs, dist, None, |cs|, 0)
    ensures forall k :: k in t <==> k in AllRoads(cs, dist)
    ensures forall k :: k in t ==> t[k] == AllRoads(cs, dist)[k]
    ensures WellKeyed(t) && Covers(t, cs)
  {
    HoldsAll(t, cs, dist, None);
    AllRoadsFits(cs, dist);
    SameEntriesWellKeyed(t, AllRoads(cs, dist));
    SameEntriesCovers(t, AllRoads(cs, dist), cs);
  }

  lemma SameEntriesWellKeyed(t: map<Key, Road>, u: map<Key, Road>)
    requires (forall k :: k in t <==> k in u) && (forall k :: k in t ==> t[k] == u[k]) && WellKeyed(u)
    ensures WellKeyed(t)
  {
  }

  lemma SameEntriesCovers(t: map<Key, Road>, u: map<Key, Road>, cs: seq<City>)
    requires (forall k :: k in t <==> k in u) && (forall k :: k in t ==> t[k] == u[k]) && Covers(u, cs)
    ensures Covers(t, cs)
  {
    forall a, b | a in cs && b in cs && a != b ensures Lookup(t, a, b).Some? {
      assert Lookup(u, a, b).Some?;
    }
  }

  /** A road in the registry `init_roads` fills for city `c` (from empty)
      is a registry road from `c`. */
  lemma CityRoadRegistered(cs: seq<City>, dist: (City, City) -> nat, rc: map<Key, Road>, c: City, r: Road)
    requires Distinct(cs) && Holds(rc, map[], cs, dist, Some(c), |cs|, 0) && r in rc.Values
    ensures Registered(AllRoads(cs, dist), cs, c, r)
  {
    HoldsAll(rc, cs, dist, Some(c));
    var k :| k in rc && rc[k] == r;
    AllRoadsStored(cs, dist, k);
  }

  /** A road in the registry `init_roads` fills for city `c` is a registry
      road from `c` in the global registry `t`. */
  lemma InRegistryRegistered(cs: seq<City>, dist: (City, City) -> nat, t: map<Key, Road>, rc: map<Key, Road>,
                             c: City, r: Road)
    requires Distinct(cs) && Holds(t, map[], cs, dist, None, |cs|, 0)
    requires Holds(rc, map[], cs, dist, Some(c), |cs|, 0) && r in rc.Values
    ensures Registered(t, cs, c, r)
  {
    GlobalIsAllRoads(cs, dist, t);
    CityRoadRegistered(cs, dist, rc, c, r);
    assert Lookup(t, r.c1, r.c2) == Lookup(AllRoads(cs, dist), r.c1, r.c2);
  }

  /** Every registry road from `c` is in the registry filled for `c`. */
  lemma RegisteredInRegistry(cs: seq<City>, dist: (City, City) -> nat, t: map<Key, Road>, rc: map<Key, Road>,
                             c: City, r: Road)
    requires Distinct(cs) && Holds(t, map[], cs, dist, None, |cs|, 0)
    requires Holds(rc, map[], cs, dist, Some(c), |cs|, 0) && Registered(t, cs, c, r)
    ensures r in rc.Values
  {
    GlobalIsAllRoads(cs, dist, t);
    HoldsAll(rc, cs, dist, Some(c));
    var k := if (r.c1, r.c2) in t then (r.c1, r.c2) else (r.c2, r.c1);
    assert k in t && t[k] == r;
    assert k in rc && rc[k] == r;
  }

  /** The values of a registry filled by `init_roads` are different roads. */
  lemma RegistryValuesDistinct(cs: seq<City>, dist: (City, City) -> nat, rc: Roads, c: City)
    requires Distinct(cs) && rc.Valid() && Holds(rc.table, map[], cs, dist, Some(c), |cs|, 0)
    ensures Distinct(rc.Values())
  {
    var vs := rc.Values();
    HoldsAll(rc.table, cs, dist, Some(c));
    forall i, j | 0 <= i < j < |vs| ensures vs[i] != vs[j] {
      DistinctAt(rc.keys, i, j);
      AllRoadsStored(cs, dist, rc.keys[i]);
      AllRoadsStored(cs, dist, rc.keys[j]);
    }
    DistinctPairs(vs);
  }

  /** The list `get_by_length` sorts and caches for city `c` from the
      registry `init_roads` filled for `c` holds every registry road from
      `c`, each once, ascending by length. */
  lemma SortedRegistry(cs: seq<City>, dist: (City, City) -> nat, t: map<Key, Road>, rc: Roads, c: City)
    requires Distinct(cs) && Holds(t, map[], cs, dist, None, |cs|, 0)
    requires rc.Valid() && Holds(rc.table, map[], cs, dist, Some(c), |cs|, 0)
    ensures NearList(t, cs, c, SortByLength(rc.Values()))
  {
    var vs := rc.Values();
    SortByLengthCorrect(vs);
    RegistryValuesDistinct(cs, dist, rc, c);
    DistinctPerm(vs, SortByLength(vs));
    rc.SortedValues();
    forall r | r in SortByLength(vs) ensures Registered(t, cs, c, r) {
      InRegistryRegistered(cs, dist, t, rc.table, c, r);
    }
    forall r | Registered(t, cs, c, r) ensures r in SortByLength(vs) {
      RegisteredInRegistry(cs, dist, t, rc.table, c, r);
    }
  }

  /** The sorted lists of the cities' own registries, filled by
      `init_roads` from empty, are what the search reads as `near`. */
  lemma NearFromRegistries(cs: seq<City>, dist: (City, City) -> nat, t: map<Key, Road>,
                           reg: map<City, Roads>, near: map<City, seq<Road>>)
    requires Distinct(cs) && Holds(t, map[], cs, dist, None, |cs|, 0)
    requires forall c :: c in cs ==> c in reg && reg[c].Valid() && Holds(reg[c].table, map[], cs, dist, Some(c), |cs|, 0)
    requires forall c :: c in cs ==> c in near && near[c] == SortByLength(reg[c].Values())
    ensures NearOk(t, cs, near)
  {
    forall c | c in cs ensures NearList(t, cs, c, near[c]) {
      SortedRegistry(cs, dist, t, reg[c], c);
    }
  }
}
