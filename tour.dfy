/** The `Tour` object (tour.py): the road set, the neighbour links, the
    path ends and the running length, switched between the closed tour
    state and the open Lin-Kernighan path state.

    The class attribute `Tour.roads`, the registry every tour shares, is the
    constant `table` here; `order` is the visiting order the links encode,
    kept beside the fields for the proofs. */
module TourState {
  import opened RoadDef
  import opened RoadIndex
  import opened PathAlgebra

  /** After the exchange at `i` the same city and the two roads, swapped,
      describe the exchange that reverses it: `unmodify` with the arguments
      of `modify` applies exactly that one and gets the path back. */
  lemma ExchangeUndone(table: map<Key, Road>, p: seq<City>, i: nat, ci: City, cut: Road, join: Road)
    requires WellKeyed(table) && Distinct(p) && ExchangeAt(table, p, i, ci, cut, join)
    ensures ci in Exchange(p, i) && IndexOf(Exchange(p, i), ci) == i
    ensures ExchangeAt(table, Exchange(p, i), i, ci, join, cut)
    ensures Exchange(Exchange(p, i), i) == p
  {
    var n, q := |p|, Exchange(p, i);
    ExchangeSameCities(p, i);
    assert q[i] == ci;
    IndexOfAt(q, i);
    assert Hop(table, q, i) == Some(join) by {
      assert q[i + 1] == p[n - 1];
      LookupSymmetric(table, p[i], p[n - 1]);
    }
    assert Lookup(table, q[n - 1], q[i]) == Some(cut) by {
      assert q[n - 1] == p[i + 1];
      LookupSymmetric(table, p[i + 1], p[i]);
    }
    ExchangeInvolution(p, i);
  }

  /** What the steps of an exchange need of a valid path. */
  lemma ExchangeEnabled(table: map<Key, Road>, cs: seq<City>, first: Option<City>, last: Option<City>, m: Nbrs,
                        rs: set<Road>, len: int, p: seq<City>, i: nat, ci: City, cut: Road, join: Road)
    requires PathState(table, cs, first, last, m, rs, len, p) && ExchangeAt(table, p, i, ci, cut, join)
    ensures last == Some(p[|p| - 1]) && cut.Other(ci) == Some(p[i + 1])
    ensures cut.c1 in m && cut.c2 in m && Chain(Rewire(m, cut, None, None), p[i + 1..])
    ensures join.c1 in FlipAll(Rewire(m, cut, None, None), p[i + 1..])
    ensures join.c2 in FlipAll(Rewire(m, cut, None, None), p[i + 1..])
  {
    LookupEnds(table, p[i], p[i + 1]);
    LookupEnds(table, p[|p| - 1], p[i]);
    LinkedPath(m, p);
    ReconnectNbrs(m, p, i, cut, join);
  }

  /** Everything one exchange does to a valid path, on values: the links,
      road set and length it leaves are those of the exchanged path. */
  lemma ExchangeEffect(table: map<Key, Road>, cs: seq<City>, first: Option<City>, last: Option<City>, m: Nbrs,
                       rs: set<Road>, len: int, p: seq<City>, i: nat, ci: City, cut: Road, join: Road,
                       last3: Option<City>, m3: Nbrs, rs3: set<Road>, len3: int, q: seq<City>)
    requires PathState(table, cs, first, last, m, rs, len, p) && ExchangeAt(table, p, i, ci, cut, join)
    requires m3 == Rewire(FlipAll(Rewire(m, cut, None, None), p[i + 1..]), join, Some(join.c1), Some(join.c2))
    requires last3 == Some(p[i + 1]) && rs3 == rs - {cut} + {join} && len3 == len - cut.length + join.length
    requires q == Exchange(p, i)
    ensures PathState(table, cs, first, last3, m3, rs3, len3, q)
  {
    var n := |p|;
    SameCitiesCovers(table, p, cs);
    LookupEnds(table, p[i], p[i + 1]);
    LookupEnds(table, p[n - 1], p[i]);
    LinkedPath(m, p);
    ReconnectNbrs(m, p, i, cut, join);
    LinkedPath(m3, q);
    ExchangeRoads(table, p, i);
    ExchangeLen(table, p, i);
    ExchangeSameCities(p, i);
    SameCitiesTrans(Exchange(p, i), p, cs);
  }

  /** The state `__init__` builds, on values: links that close `cs` into a
      cycle, with the roads and the length of that cycle. */
  lemma CycleStateOf(table: map<Key, Road>, cs: seq<City>, m: Nbrs)
    requires WellKeyed(table) && Covers(table, cs) && Distinct(cs) && |cs| >= 3 && CycleShaped(m, cs)
    ensures CycleState(table, cs, m, CycleRoads(table, cs), CycleLen(table, cs))
  {
    LinkedCycle(m, cs);
  }

  /** `flip_direction()` in the tour state, on values: the links then close
      the reversed order, which has the same roads and the same length. */
  lemma FlipCycle(table: map<Key, Road>, cs: seq<City>, m: Nbrs, rs: set<Road>, len: int)
    requires CycleState(table, cs, m, rs, len)
    ensures CycleState(table, Rev(cs), FlipAll(m, cs), rs, len) && SameCities(Rev(cs), cs)
  {
    RevSameCities(cs);
    SameCitiesCovers(table, Rev(cs), cs);
    LinkedCycle(m, cs);
    FlipAllCycle(m, cs);
    LinkedCycle(FlipAll(m, cs), Rev(cs));
    CycleRoadsRev(table, cs);
    CycleLenRev(table, cs);
  }

  /** What opening the tour `d` at one of its roads needs, on values: the
      road joins `d[j]` to the next city `d[j + 1]`, and `is_forward` picks
      the ends so that the path runs from `d[j + 1]` round to `d[j]`. */
  lemma OpenEnabled(table: map<Key, Road>, d: seq<City>, m: Nbrs, rs: set<Road>, len: int, road: Road)
    returns (j: nat)
    requires CycleState(table, d, m, rs, len) && road in rs
    ensures j < |d| && CycleHop(table, d, j) == Some(road) && road.c1 in m && road.c2 in m
    ensures (if IsFwd(m, road) then (road.c2, road.c1) else (road.c1, road.c2)) == (d[Succ(|d|, j)], d[j])
  {
    j := CycleRoadIndex(table, d, road);
    LookupEnds(table, d[j], d[Succ(|d|, j)]);
    OpenLinks(m, d, j, road);
  }

  /** Opening the tour `d` at its road `d[j] -- d[j + 1]`, on values: the
      links, road set and length that `remove(road)` leaves are those of the
      path from `d[j + 1]` round to `d[j]`, whose closed-tour length is the
      old length. */
  lemma OpenEffect(table: map<Key, Road>, cs: seq<City>, d: seq<City>, m: Nbrs, rs: set<Road>, len: int,
                   road: Road, j: nat, first3: Option<City>, last3: Option<City>, m3: Nbrs, rs3: set<Road>,
                   len3: int, q: seq<City>)
    requires CycleState(table, d, m, rs, len) && SameCities(d, cs) && Distinct(cs) && Covers(table, cs)
    requires j < |d| && CycleHop(table, d, j) == Some(road)
    requires first3 == Some(d[Succ(|d|, j)]) && last3 == Some(d[j]) && m3 == Rewire(m, road, None, None)
    requires road.c1 in m && road.c2 in m
    requires rs3 == rs - {road} && len3 == len - road.length && q == Rotate(d, Succ(|d|, j))
    ensures PathState(table, cs, first3, last3, m3, rs3, len3, q)
    ensures CycleLen(table, q) == len
  {
    var s := Succ(|d|, j);
    LookupEnds(table, d[j], d[s]);
    OpenLinks(m, d, j, road);
    OpenRoadsLen(table, d, j);
    RotateSameCities(d, s);
    SameCitiesTrans(Rotate(d, s), d, cs);
  }

  /** The path state is a function of the visiting order: two path states
      over the same order agree in every field. */
  lemma PathStateUnique(table: map<Key, Road>, cs: seq<City>, p: seq<City>,
                        first1: Option<City>, last1: Option<City>, m1: Nbrs, rs1: set<Road>, len1: int,
                        first2: Option<City>, last2: Option<City>, m2: Nbrs, rs2: set<Road>, len2: int)
    requires PathState(table, cs, first1, last1, m1, rs1, len1, p)
    requires PathState(table, cs, first2, last2, m2, rs2, len2, p)
    ensures first1 == first2 && last1 == last2 && m1 == m2 && rs1 == rs2 && len1 == len2
  {
    LinkedPath(m1, p);
    LinkedPath(m2, p);
    PathShapedUnique(m1, m2, p);
  }

  /** A road `ra` from the last city of a valid path, located on the path:
      its far end is `p[i]` with `i` short of the last position, the links
      of both ends follow `p`, and the road from `p[i]` to the next city is
      in the set while `ra` is not, unless `p[i]` precedes the last city. */
  lemma LastRoadOnPath(table: map<Key, Road>, cs: seq<City>, first: Option<City>, last: Option<City>,
                       m: Nbrs, rs: set<Road>, len: int, p: seq<City>, ra: Road) returns (i: nat)
    requires PathState(table, cs, first, last, m, rs, len, p) && Registered(table, cs, last.value, ra)
    ensures var n := |p|;
      last == Some(p[n - 1]) && ra.Other(p[n - 1]).Some? &&
      (var ci := ra.Other(p[n - 1]).value;
       i + 1 < n && p[i] == ci && IndexOf(p, ci) == i &&
       p[n - 1] in m && m[p[n - 1]].0 == Some(p[n - 2]) && ci in m && m[ci].1 == Some(p[i + 1]) &&
       (ci == p[n - 2] <==> i + 2 == n) &&
       Hop(table, p, i).Some? && Lookup(table, p[n - 1], ci) == Some(ra) &&
       (i + 2 < n ==> Hop(table, p, i).value in rs && ra !in rs))
  {
    var n := |p|;
    LookupEnds(table, ra.c1, ra.c2);
    LookupSymmetric(table, ra.c1, ra.c2);
    var ci := ra.Other(p[n - 1]).value;
    assert ci in cs;
    i := IndexOf(p, ci);
    LinkedFromAll(m, p, 0);
    assert PathAt(m, p, n - 1) && PathAt(m, p, i);
    if ci == p[n - 2] {
      IndexUnique(p, i, n - 2);
    }
    SameCitiesCovers(table, p, cs);
    PathRoadAt(table, p, i);
    if i + 2 < n {
      JoinNotOnPath(table, p, i);
    }
  }

  /** A triple `(city_insert, road_add, road_delete)` of `find_lk_mods`. */
  datatype Mod = Mod(city: City, add: Road, del: Road)

  /** What `modify` needs of a triple on the path `p` with road set `rs`:
      it is the exchange at `city`, `del` is in the set and `add` is not. */
  ghost predicate Viable(table: map<Key, Road>, p: seq<City>, rs: set<Road>, md: Mod) {
    md.city in p && ExchangeAt(table, p, IndexOf(p, md.city), md.city, md.del, md.add) &&
    md.del in rs && md.add !in rs
  }

  /** `r` is a registry road from `c` to another city of `cs`: what each
      city's own `roads` registry holds after `init_roads`. */
  ghost predicate Registered(table: map<Key, Road>, cs: seq<City>, c: City, r: Road) {
    r.Has(c) && r.c1 in cs && r.c2 in cs && Lookup(table, r.c1, r.c2) == Some(r)
  }

  /** The list `c.roads.get_by_length` sorts and caches: every registry road
      from `c`, each once, ascending by length. */
  ghost predicate NearList(table: map<Key, Road>, cs: seq<City>, c: City, s: seq<Road>) {
    SortedByLength(s) && Distinct(s) && forall r :: r in s <==> Registered(table, cs, c, r)
  }

  /** `near[c]` stands for that list of each city `c` of `cs`. */
  ghost predicate NearOk(table: map<Key, Road>, cs: seq<City>, near: map<City, seq<Road>>) {
    forall c :: c in cs ==> c in near && NearList(table, cs, c, near[c])
  }

  /** `get_by_length(count)` on such a list gives the shortest roads from
      `c`: every road it leaves out is at least as long as every road it
      returns. */
  lemma ShortestFirst(table: map<Key, Road>, cs: seq<City>, c: City, s: seq<Road>, count: Option<int>)
    requires NearList(table, cs, c, s)
    ensures SortedByLength(Take(s, count))
    ensures forall r, x :: r in Take(s, count) && Registered(table, cs, c, x) && x !in Take(s, count) ==>
      r.length <= x.length
  {
    var t := Take(s, count);
    TakeKeepsShortest(s, count);
    forall r, x | r in t && Registered(table, cs, c, x) && x !in t ensures r.length <= x.length {
      var i :| 0 <= i < |t| && t[i] == r;
      var j :| 0 <= j < |s| && s[j] == x;
    }
  }

  /** The tests of `find_lk_mods` for one road `ra` from the last city of
      the path `p`, on values: with `city_insert == p[i]`, the triple is
      kept when `p[i]` is neither the last city nor the one before it, `ra`
      is shorter than `p[i] -- p[i + 1]`, that road is not in `added` and
      `ra` is not in `deleted`. */
  function CandidateOn(table: map<Key, Road>, p: seq<City>, ra: Road, added: seq<Road>, deleted: seq<Road>)
    : Option<Mod>
    requires p != []
  {
    match ra.Other(p[|p| - 1])
    case None => None
    case Some(ci) =>
      if ci !in p then None
      else
        var i := IndexOf(p, ci);
        if i + 2 < |p| && Hop(table, p, i).Some? && ra.length < Hop(table, p, i).value.length &&
           Hop(table, p, i).value !in added && ra !in deleted
        then Some(Mod(ci, ra, Hop(table, p, i).value))
        else None
  }

  /** The list `find_lk_mods` builds on the path `p` from the roads `cands`,
      on values. */
  function LkModsOn(table: map<Key, Road>, p: seq<City>, cands: seq<Road>, added: seq<Road>, deleted: seq<Road>)
    : seq<Mod>
    requires p != []
    decreases |cands|
  {
    if cands == [] then []
    else
      var rest := LkModsOn(table, p, cands[..|cands| - 1], added, deleted);
      match CandidateOn(table, p, cands[|cands| - 1], added, deleted)
      case None => rest
      case Some(md) => rest + [md]
  }

  class Tour {
    const table: map<Key, Road>
    var cities: seq<City>
    var roads: set<Road>
    var neighbors: Nbrs
    var first: Option<City>
    var last: Option<City>
    var length: int
    ghost var order: seq<City>

    /** In the tour state the links close `cities` into a cycle and the set
        holds its n roads; in the path state they run from `first` to `last`
        along `order` and the set holds its n - 1 roads. */
    ghost predicate Valid()
      reads this
    {
      if first.None? && last.None? then CycleState(table, cities, neighbors, roads, length) && order == cities
      else PathState(table, cities, first, last, neighbors, roads, length, order)
    }

    /** `is_tour`: neither path end is set. */
    predicate IsTour()
      reads this
    {
      first.None? && last.None?
    }

    /** `Tour(cities)`. */
    constructor (table: map<Key, Road>, cs: seq<City>)
      requires WellKeyed(table) && Covers(table, cs) && Distinct(cs) && |cs| >= 3
      ensures Valid() && IsTour() && this.table == table && cities == cs && order == cs
    {
      this.table := table;
      new;
      Reset(cs);
    }

    /** The body of `__init__`, which `revert` and `close` call again on an
        existing tour: the roads between consecutive cities (with the
        wrap-around), the cyclic neighbour links, no path ends, and the
        total length. */
    method Reset(cs: seq<City>)
      requires WellKeyed(table) && Covers(table, cs) && Distinct(cs) && |cs| >= 3
      modifies this
      ensures Valid() && IsTour() && cities == cs && order == cs
    {
      cities := cs;
      roads := CycleRoads(table, cs);
      first, last := None, None;
      LinkCycle(cs);
      length := CycleLen(table, cs);
      order := cs;
      CycleStateOf(table, cs, neighbors);
    }

    /** The loop of `__init__` that sets each city's neighbours to the
        previous and the next city, cyclically. */
    method LinkCycle(cs: seq<City>)
      requires Distinct(cs)
      modifies this`neighbors
      ensures CycleShaped(neighbors, cs)
    {
      var n := |cs|;
      neighbors := map[];
      var i := 0;
      while i < n
        invariant 0 <= i <= n
        invariant forall c :: c in neighbors <==> c in cs[..i]
        invariant forall k {:trigger neighbors[cs[k]]} :: 0 <= k < i ==>
          neighbors[cs[k]] == (Some(cs[Pred(n, k)]), Some(cs[Succ(n, k)]))
      {
        forall k | 0 <= k < i ensures cs[k] != cs[i] {
          DistinctAt(cs, k, i);
        }
        neighbors := neighbors[cs[i] := (Some(cs[Pred(n, i)]), Some(cs[Succ(n, i)]))];
        i := i + 1;
      }
      assert cs[..n] == cs;
    }

    /** `revert`: back to the closed tour over the original city order. */
    method Revert()
      requires Valid()
      modifies this
      ensures Valid() && IsTour() && cities == old(cities) && order == cities
    {
      Reset(cities);
    }

    /** `close`: a closed tour over the current visiting order. */
    method Close()
      requires Valid()
      modifies this
      ensures Valid() && IsTour() && cities == old(order)
      ensures TourLength() == old(TourLength())
    {
      var cs := CitySequence();
      SameCitiesCovers(table, order, cities);
      Reset(cs);
    }

    function NextCity(c: City): Option<City>
      reads this
      requires c in neighbors
    {
      neighbors[c].1
    }

    function PrevCity(c: City): Option<City>
      reads this
      requires c in neighbors
    {
      neighbors[c].0
    }

    /** In the path state `first` and `last` are the two ends of the
        visiting order. */
    lemma PathEnds()
      requires Valid() && !IsTour()
      ensures order != [] && order[|order| - 1] in cities &&
        first == Some(order[0]) && last == Some(order[|order| - 1])
    {
    }

    /** `next_city` and `prev_city` follow the visiting order, cyclically in
        the tour state and with None past the ends in the path state. */
    lemma NeighboursFollowOrder(c: City)
      requires Valid() && c in cities
      ensures c in order && c in neighbors
      ensures var i, n := IndexOf(order, c), |order|;
        NextCity(c) == (if IsTour() then Some(order[Succ(n, i)]) else NextIn(order, i)) &&
        PrevCity(c) == (if IsTour() then Some(order[Pred(n, i)]) else PrevIn(order, i))
    {
      var i := IndexOf(order, c);
      if IsTour() {
        LinkedCycle(neighbors, order);
      } else {
        LinkedPath(neighbors, order);
      }
      assert neighbors[order[i]] == neighbors[c];
    }

    /** `is_forward`. */
    function IsForward(road: Road): bool
      reads this
      requires road.c1 in neighbors && road.c2 in neighbors
    {
      IsFwd(neighbors, road)
    }

    /** `road[0] => road[1]` is a link of the visiting order, or (in the path
        state) the road joins the last city back to the first. */
    lemma IsForwardAlongOrder(road: Road)
      requires Valid() && road.c1 in cities && road.c2 in cities
      ensures road.c1 in neighbors && road.c2 in neighbors && road.c1 in order && road.c2 in order
      ensures var i, n := IndexOf(order, road.c1), |order|;
        IsForward(road) <==>
          if IsTour() then order[Succ(n, i)] == road.c2
          else (i + 1 < n && order[i + 1] == road.c2) || (i + 1 == n && road.c2 == order[0])
    {
      NeighboursFollowOrder(road.c1);
      NeighboursFollowOrder(road.c2);
      var i, j := IndexOf(order, road.c1), IndexOf(order, road.c2);
      if !IsTour() && i + 1 < |order| && order[i + 1] == road.c2 {
        IndexUnique(order, j, i + 1);
      }
    }

    /** `tour_length`: the closed-tour length of the visiting order, whichever
        state the object is in. */
    function TourLength(): (r: int)
      reads this
      requires Valid()
      ensures r == CycleLen(table, order)
    {
      if IsTour() then length
      else
        var n := |order|;
        assert order[0] in cities && order[n - 1] in cities;
        DistinctAt(order, 0, n - 1);
        LinkLenSymmetric(table, order[0], order[n - 1]);
        length + Lookup(table, first.value, last.value).value.length
    }

    /** `city_sequence`: the stored cities in the tour state; in the path
        state the walk from `first` along `next_city` to `last`. */
    method CitySequence() returns (r: seq<City>)
      requires Valid()
      ensures r == order
      ensures !IsTour() ==>
        (Some(r[0]) == first && Some(r[|r| - 1]) == last &&
         forall k :: 0 <= k < |r| - 1 ==> r[k] in neighbors && NextCity(r[k]) == Some(r[k + 1]))
    {
      if first.None? && last.None? {
        return cities;
      }
      LinkedPath(neighbors, order);
      PathShapedAt(neighbors, order);
      r := [];
      var city := first.value;
      ghost var k := 0;
      while true
        invariant k < |order| && city == order[k] && r == order[..k]
        decreases |order| - k
      {
        r := r + [city];
        if Some(city) == last {
          break;
        }
        assert PathAt(neighbors, order, k);
        city := NextCity(city).value;
        k := k + 1;
      }
      IndexUnique(order, k, |order| - 1);
      assert r == order;
      forall j | 0 <= j < |r| - 1 ensures r[j] in neighbors && NextCity(r[j]) == Some(r[j + 1]) {
        assert PathAt(neighbors, order, j);
      }
    }

    /** `tour2path(road, backward)`: the source asserts the tour state (here
        `ok == false` with nothing changed); otherwise the links are
        optionally reversed, `is_forward` decides which end of `road`
        becomes the first city, and `remove(road)` opens the tour there.
        The path visits the (possibly reversed) tour order, rotated to
        start at the new first city. */
    method Tour2Path(road: Road, backward: bool) returns (ok: bool)
      requires Valid()
      requires IsTour() ==> road in roads
      modifies this
      ensures Valid() && cities == old(cities)
      ensures ok == old(IsTour())
      ensures !ok ==> order == old(order) && roads == old(roads) && neighbors == old(neighbors) &&
                      length == old(length) && first == old(first) && last == old(last)
      ensures ok ==> !IsTour() && roads == old(roads) - {road} && length == old(length) - road.length
      ensures ok ==> TourLength() == old(TourLength())
      ensures ok ==> (first, last) == (Some(road.c2), Some(road.c1)) || (first, last) == (Some(road.c1), Some(road.c2))
      ensures ok ==>
        var d := if backward then Rev(old(order)) else old(order);
        order[0] in d && order == Rotate(d, IndexOf(d, order[0]))
    {
      if !IsTour() {
        return false;
      }
      ghost var d := if backward then Rev(order) else order;
      if backward {
        FlipCycle(table, cities, neighbors, roads, length);
        FlipDirection(None, None, []);
      }
      OpenAt(road, d);
      ok := true;
    }

    /** The part of `tour2path` after the optional flip, from a tour whose
        links close `d`: `is_forward` picks the far end of `road` as the
        first city and its near end as the last, and `remove(road)` opens
        the tour there. */
    method OpenAt(road: Road, ghost d: seq<City>)
      requires CycleState(table, d, neighbors, roads, length) && SameCities(d, cities)
      requires Distinct(cities) && Covers(table, cities) && IsTour() && road in roads
      modifies this
      ensures Valid() && !IsTour() && cities == old(cities)
      ensures roads == old(roads) - {road} && length == old(length) - road.length
      ensures CycleLen(table, order) == old(length)
      ensures (first, last) == (Some(road.c2), Some(road.c1)) || (first, last) == (Some(road.c1), Some(road.c2))
      ensures order[0] in d && order == Rotate(d, IndexOf(d, order[0]))
    {
      ghost var m, rs, len := neighbors, roads, length;
      ghost var j := OpenEnabled(table, d, m, rs, len, road);
      if IsForward(road) {
        first, last := Some(road.c2), Some(road.c1);
      } else {
        first, last := Some(road.c1), Some(road.c2);
      }
      Remove(road);
      ghost var s := Succ(|d|, j);
      order := Rotate(d, s);
      OpenEffect(table, cities, d, m, rs, len, road, j, first, last, neighbors, roads, length, order);
      IndexOfAt(d, s);
    }

    /** `replace_neighbors(road, (a, b))`: the two ends of `road` get `a` and
        `b` as their facing neighbours, on the side `is_forward` picks. */
    method ReplaceNeighbors(road: Road, a: Option<City>, b: Option<City>)
      requires road.c1 in neighbors && road.c2 in neighbors
      modifies this`neighbors
      ensures neighbors == Rewire(old(neighbors), road, a, b)
    {
      var (before0, after0) := neighbors[road.c1];
      var (before1, after1) := neighbors[road.c2];
      if IsForward(road) {
        neighbors := neighbors[road.c1 := (before0, b)];
        neighbors := neighbors[road.c2 := (a, after1)];
      } else {
        neighbors := neighbors[road.c2 := (before1, a)];
        neighbors := neighbors[road.c1 := (b, after0)];
      }
    }

    /** `add`: the road joins the set, its length is added, and its ends are
        linked to each other. */
    method Add(road: Road)
      requires road.c1 in neighbors && road.c2 in neighbors
      modifies this`roads, this`length, this`neighbors
      ensures roads == old(roads) + {road} && length == old(length) + road.length
      ensures neighbors == Rewire(old(neighbors), road, Some(road.c1), Some(road.c2))
    {
      roads := roads + {road};
      length := length + road.length;
      ReplaceNeighbors(road, Some(road.c1), Some(road.c2));
    }

    /** `remove`: the road leaves the set (`set.remove` requires it to be
        there), its length is subtracted, and its ends face None. */
    method Remove(road: Road)
      requires road in roads && road.c1 in neighbors && road.c2 in neighbors
      modifies this`roads, this`length, this`neighbors
      ensures roads == old(roads) - {road} && length == old(length) - road.length
      ensures neighbors == Rewire(old(neighbors), road, None, None)
    {
      roads := roads - {road};
      length := length - road.length;
      ReplaceNeighbors(road, None, None);
    }

    /** `flip1city`. */
    method Flip1City(c: City)
      requires c in neighbors
      modifies this`neighbors
      ensures neighbors == old(neighbors)[c := Swap(old(neighbors)[c])]
    {
      var (before, after) := neighbors[c];
      neighbors := neighbors[c := (after, before)];
    }

    /** `flip_direction(cityA, cityB)`: with a start city, walk forward from
        it flipping each city up to and including `cityB` (the ghost `seg`
        names that run); without one, flip every city and swap the ends. */
    method FlipDirection(cityA: Option<City>, cityB: Option<City>, ghost seg: seq<City>)
      requires cityA.Some? ==> Chain(neighbors, seg) && seg[0] == cityA.value && cityB == Some(seg[|seg| - 1])
      requires cityA.None? ==> Distinct(cities) && forall c :: c in cities ==> c in neighbors
      modifies this`neighbors, this`first, this`last
      ensures cityA.Some? ==> neighbors == FlipAll(old(neighbors), seg) && first == old(first) && last == old(last)
      ensures cityA.None? ==> neighbors == FlipAll(old(neighbors), cities) && first == old(last) && last == old(first)
    {
      if cityA.Some? {
        var city := cityA;
        ghost var k := 0;
        FlipAllNone(neighbors);
        assert seg[..0] == [];
        while city.Some?
          modifies this`neighbors
          invariant k < |seg| && city == Some(seg[k])
          invariant neighbors == FlipAll(old(neighbors), seg[..k])
          decreases |seg| - k
        {
          var nextCity := NextCity(city.value);
          FlipAllStep(old(neighbors), seg, k);
          Flip1City(city.value);
          if city == cityB {
            IndexUnique(seg, k, |seg| - 1);
            assert seg[..k + 1] == seg;
            break;
          }
          assert old(neighbors)[seg[k]].1 == Some(seg[k + 1]);
          city := nextCity;
          k := k + 1;
        }
      } else {
        FlipAllNone(neighbors);
        for i := 0 to |cities|
          modifies this`neighbors
          invariant neighbors == FlipAll(old(neighbors), cities[..i])
        {
          FlipAllStep(old(neighbors), cities, i);
          Flip1City(cities[i]);
        }
        assert cities[..|cities|] == cities;
        first, last := last, first;
      }
    }

    /** The state changes of an exchange, in the source's order: the far end
        `start` of `cut` seen from `ci` is read, then `remove(cut)`,
        `flip_direction(start, last)` over the run `p[i + 1..]`, `add(join)`,
        and `start` becomes the last city. */
    method Rejoin(ci: City, cut: Road, join: Road, ghost p: seq<City>, ghost i: nat)
      requires PathState(table, cities, first, last, neighbors, roads, length, p)
      requires ExchangeAt(table, p, i, ci, cut, join) && cut in roads
      modifies this`roads, this`length, this`neighbors, this`first, this`last
      ensures roads == old(roads) - {cut} + {join} && length == old(length) - cut.length + join.length
      ensures neighbors ==
        Rewire(FlipAll(Rewire(old(neighbors), cut, None, None), p[i + 1..]), join, Some(join.c1), Some(join.c2))
      ensures first == old(first) && last == Some(p[i + 1]) && last == cut.Other(ci)
    {
      ExchangeEnabled(table, cities, first, last, neighbors, roads, length, p, i, ci, cut, join);
      var start := cut.Other(ci).value;
      Remove(cut);
      FlipDirection(Some(start), last, p[i + 1..]);
      Add(join);
      last := Some(start);
    }

    /** The common body of `modify` and `unmodify`: if `cut` is not in the
        set the source raises, which here is `ok == false` with nothing
        changed. Otherwise `cut` is removed, the run from its far end to the
        last city is flipped, `join` is added and that far end becomes the
        last city. */
    method Reconnect(ci: City, cut: Road, join: Road) returns (ok: bool)
      requires Valid() && !IsTour()
      requires cut in roads ==> ci in order && ExchangeAt(table, order, IndexOf(order, ci), ci, cut, join)
      modifies this
      ensures Valid() && !IsTour() && cities == old(cities) && first == old(first)
      ensures ok == old(cut in roads)
      ensures !ok ==> order == old(order) && roads == old(roads) && neighbors == old(neighbors) &&
                      length == old(length) && last == old(last)
      ensures ok ==>
        var i := IndexOf(old(order), ci);
        order == Exchange(old(order), i) && last == Some(old(order)[i + 1]) && last == cut.Other(ci) &&
        roads == old(roads) - {cut} + {join} && length == old(length) - cut.length + join.length
    {
      if cut !in roads {
        return false;
      }
      ghost var p, i := order, IndexOf(order, ci);
      ghost var m, rs, len, lst := neighbors, roads, length, last;
      Rejoin(ci, cut, join, p, i);
      order := Exchange(p, i);
      ExchangeEffect(table, cities, first, lst, m, rs, len, p, i, ci, cut, join, last, neighbors, roads, length, order);
      ok := true;
    }

    /** `modify(city_insert, road_add, road_delete)`: one Lin-Kernighan
        exchange at `city_insert`. It fails (the source raises) exactly when
        `road_delete` is not in the set. */
    method Modify(ci: City, ra: Road, rd: Road) returns (ok: bool)
      requires Valid() && !IsTour()
      requires rd in roads ==> ci in order && ExchangeAt(table, order, IndexOf(order, ci), ci, rd, ra)
      modifies this
      ensures Valid() && !IsTour() && cities == old(cities) && first == old(first)
      ensures ok == old(rd in roads)
      ensures !ok ==> order == old(order) && roads == old(roads) && neighbors == old(neighbors) &&
                      length == old(length) && last == old(last)
      ensures ok ==>
        var i := IndexOf(old(order), ci);
        order == Exchange(old(order), i) && last == rd.Other(ci) &&
        roads == old(roads) - {rd} + {ra} && length == old(length) - rd.length + ra.length
    {
      ok := Reconnect(ci, rd, ra);
    }

    /** `unmodify(city_insert, road_add, road_delete)`: the reverse exchange.
        It fails (the source raises) exactly when `road_add` is not in the set. */
    method Unmodify(ci: City, ra: Road, rd: Road) returns (ok: bool)
      requires Valid() && !IsTour()
      requires ra in roads ==> ci in order && ExchangeAt(table, order, IndexOf(order, ci), ci, ra, rd)
      modifies this
      ensures Valid() && !IsTour() && cities == old(cities) && first == old(first)
      ensures ok == old(ra in roads)
      ensures !ok ==> order == old(order) && roads == old(roads) && neighbors == old(neighbors) &&
                      length == old(length) && last == old(last)
      ensures ok ==>
        var i := IndexOf(old(order), ci);
        order == Exchange(old(order), i) && last == ra.Other(ci) &&
        roads == old(roads) - {ra} + {rd} && length == old(length) - ra.length + rd.length
    {
      ok := Reconnect(ci, ra, rd);
    }

    /** Every field, for stating that a search leaves the object as it found it. */
    ghost function Snapshot(): (seq<City>, set<Road>, Nbrs, Option<City>, Option<City>, int, seq<City>)
      reads this
    {
      (cities, roads, neighbors, first, last, length, order)
    }

    /** `road_add` is one of the roads `get_by_length` of the last city
        returns: a registry road from the last city to another city. */
    ghost predicate FromLast(ra: Road)
      reads this
    {
      last.Some? && Registered(table, cities, last.value, ra)
    }

    /** What the tests of `find_lk_mods` read for one road from the last
        city, located on the visiting order: the last city's predecessor,
        the far end `city_insert` and its successor, and the two roads. */
    lemma CandidateEnabled(ra: Road)
      requires Valid() && !IsTour() && FromLast(ra)
      ensures var n, cityN := |order|, last.value;
        cityN == order[n - 1] && cityN in neighbors && PrevCity(cityN) == Some(order[n - 2]) &&
        ra.Other(cityN).Some? &&
        (var ci := ra.Other(cityN).value;
         ci in order && var i := IndexOf(order, ci);
         i + 1 < n &&
         ci in neighbors && NextCity(ci) == Some(order[i + 1]) &&
         (Some(ci) == PrevCity(cityN) <==> i + 2 == n) &&
         Hop(table, order, i).Some? && Lookup(table, cityN, ci) == Some(ra) &&
         (i + 2 < n ==> Hop(table, order, i).value in roads && ra !in roads))
    {
      var i := LastRoadOnPath(table, cities, first, last, neighbors, roads, length, order, ra);
    }

    /** The tests `find_lk_mods` applies to one road `ra` from the last city.
        On the visiting order `p`, with `city_insert == p[i]`: the triple is
        kept exactly when `p[i]` is neither the last city nor the one before
        it, `ra` is shorter than the road `p[i] -- p[i + 1]`, that road is
        not in `added` and `ra` is not in `deleted`; and a kept triple is an
        exchange `modify` can carry out. */
    function Candidate(ra: Road, added: seq<Road>, deleted: seq<Road>): (r: Option<Mod>)
      reads this
      requires Valid() && !IsTour() && FromLast(ra)
      ensures var n, ci := |order|, ra.Other(last.value).value;
        ci in order && IndexOf(order, ci) + 1 < n &&
        (var i := IndexOf(order, ci);
         Hop(table, order, i).Some? &&
         (r.Some? <==> i + 2 < n && ra.length < Hop(table, order, i).value.length &&
                       Hop(table, order, i).value !in added && ra !in deleted) &&
         (r.Some? ==> r.value == Mod(ci, ra, Hop(table, order, i).value) && Viable(table, order, roads, r.value)))
    {
      CandidateEnabled(ra);
      var cityN := last.value;
      var ci := ra.Other(cityN).value;
      if Some(ci) == PrevCity(cityN) then None
      else
        var rd := Lookup(table, ci, NextCity(ci).value).value;
        if ra.length >= rd.length then None
        else if rd in added then None
        else if ra in deleted then None
        else Some(Mod(ci, ra, rd))
    }

    /** The tests skip only the city before the last one, so the first city
        of the path can be `city_insert`: a short enough road from the last
        city to `p[0]` yields the triple that cuts `p[0] -- p[1]`. */
    lemma FirstCityKept(ra: Road, added: seq<Road>, deleted: seq<Road>)
      requires Valid() && !IsTour() && FromLast(ra) && ra.Other(last.value) == Some(order[0])
      requires Hop(table, order, 0).Some? && ra.length < Hop(table, order, 0).value.length
      requires Hop(table, order, 0).value !in added && ra !in deleted
      ensures Candidate(ra, added, deleted) == Some(Mod(order[0], ra, Hop(table, order, 0).value))
    {
      assert IndexOf(order, order[0]) == 0;
    }

    /** The list `find_lk_mods` builds from the roads `cands`: the kept
        triples, in the order of `cands`. */
    function LkMods(cands: seq<Road>, added: seq<Road>, deleted: seq<Road>): (mods: seq<Mod>)
      reads this
      requires Valid() && !IsTour() && forall r :: r in cands ==> FromLast(r)
      ensures |mods| <= |cands|
      decreases |cands|
    {
      if cands == [] then []
      else
        var rest := LkMods(cands[..|cands| - 1], added, deleted);
        match Candidate(cands[|cands| - 1], added, deleted)
        case None => rest
        case Some(md) => rest + [md]
    }

    /** One more road extends the list by its triple, if it is kept. */
    lemma LkModsStep(cands: seq<Road>, k: nat, added: seq<Road>, deleted: seq<Road>)
      requires Valid() && !IsTour() && (forall r :: r in cands ==> FromLast(r)) && k < |cands|
      ensures forall r :: r in cands[..k] ==> FromLast(r)
      ensures forall r :: r in cands[..k + 1] ==> FromLast(r)
      ensures LkMods(cands[..k + 1], added, deleted) ==
        LkMods(cands[..k], added, deleted) +
        (if Candidate(cands[k], added, deleted).Some? then [Candidate(cands[k], added, deleted).value] else [])
    {
      assert forall r :: r in cands[..k + 1] ==> r in cands;
      assert cands[..k + 1][..k] == cands[..k];
    }

    /** Every listed triple comes from one of the roads and passes its tests. */
    lemma {:induction false} LkModsSound(cands: seq<Road>, added: seq<Road>, deleted: seq<Road>)
      requires Valid() && !IsTour() && forall r :: r in cands ==> FromLast(r)
      ensures forall md :: md in LkMods(cands, added, deleted) ==>
        md.add in cands && Candidate(md.add, added, deleted) == Some(md)
      decreases |cands|
    {
      if cands != [] {
        var init := cands[..|cands| - 1];
        assert forall r :: r in init ==> r in cands;
        LkModsSound(init, added, deleted);
      }
    }

    /** The test of one road depends only on the registry and the visiting
        order. */
    lemma CandidateAgrees(ra: Road, added: seq<Road>, deleted: seq<Road>)
      requires Valid() && !IsTour() && FromLast(ra)
      ensures order != [] && Candidate(ra, added, deleted) == CandidateOn(table, order, ra, added, deleted)
    {
      assert last.value == order[|order| - 1];
    }

    /** `find_lk_mods`'s list depends only on the registry and the visiting
        order: it is `LkModsOn` of the order. */
    lemma {:induction false} LkModsAgrees(cands: seq<Road>, added: seq<Road>, deleted: seq<Road>)
      requires Valid() && !IsTour() && forall r :: r in cands ==> FromLast(r)
      ensures order != [] && LkMods(cands, added, deleted) == LkModsOn(table, order, cands, added, deleted)
      decreases |cands|
    {
      assert last.value == order[|order| - 1];
      if cands != [] {
        var init := cands[..|cands| - 1];
        assert forall r :: r in init ==> r in cands;
        LkModsAgrees(init, added, deleted);
        CandidateAgrees(cands[|cands| - 1], added, deleted);
      }
    }

    /** On the candidate list of the last city, `find_lk_mods`'s list is
        `LkModsOn` of the visiting order. */
    lemma NearModsAgree(near: map<City, seq<Road>>, count: Option<int>, added: seq<Road>, deleted: seq<Road>)
      requires Valid() && !IsTour() && NearOk(table, cities, near)
      ensures order != [] && last.value == order[|order| - 1] && last.value in near
      ensures forall r :: r in Take(near[last.value], count) ==> FromLast(r)
      ensures LkMods(Take(near[last.value], count), added, deleted) ==
              LkModsOn(table, order, Take(near[last.value], count), added, deleted)
    {
      var cityN := last.value;
      assert cityN == order[|order| - 1] && cityN in cities;
      var cands := Take(near[cityN], count);
      assert forall r :: r in cands ==> FromLast(r);
      LkModsAgrees(cands, added, deleted);
    }

    /** Every listed triple passes the code's tests and is an exchange
        `modify` can carry out on the current path. */
    lemma LkModsViable(cands: seq<Road>, added: seq<Road>, deleted: seq<Road>)
      requires Valid() && !IsTour() && forall r :: r in cands ==> FromLast(r)
      ensures forall md :: md in LkMods(cands, added, deleted) ==>
        md.add in cands && md.add.length < md.del.length && md.del !in added &&
        md.add !in deleted && Viable(table, order, roads, md)
    {
      LkModsSound(cands, added, deleted);
    }

    /** Every road that passes the tests yields a listed triple. */
    lemma {:induction false} LkModsComplete(cands: seq<Road>, added: seq<Road>, deleted: seq<Road>, j: nat)
      requires Valid() && !IsTour() && forall r :: r in cands ==> FromLast(r)
      requires j < |cands| && Candidate(cands[j], added, deleted).Some?
      ensures Candidate(cands[j], added, deleted).value in LkMods(cands, added, deleted)
      decreases |cands|
    {
      var init := cands[..|cands| - 1];
      if j < |init| {
        assert forall r :: r in init ==> r in cands;
        assert init[j] == cands[j];
        LkModsComplete(init, added, deleted, j);
      }
    }

    /** `find_lk_mods(max_search_roads, added, deleted)`: the last city's
        `count` shortest roads (`near[last]` is its sorted road list, so the
        slice is what `get_by_length(count)` returns) are tested in order,
        and each triple kept passes the code's tests and is an exchange
        `modify` can carry out. The slice
        is ascending, and no registered road left out of it is shorter than
        a road in it. */
    method FindLkMods(near: map<City, seq<Road>>, count: Option<int>, added: seq<Road>, deleted: seq<Road>)
      returns (mods: seq<Mod>)
      requires Valid() && !IsTour() && NearOk(table, cities, near)
      ensures last.value in near
      ensures mods == LkMods(Take(near[last.value], count), added, deleted)
      ensures SortedByLength(Take(near[last.value], count))
      ensures forall r, x :: r in Take(near[last.value], count) && FromLast(x) && x !in Take(near[last.value], count) ==>
        r.length <= x.length
      ensures forall md :: md in mods ==>
        md.add in near[last.value] && md.add.length < md.del.length && md.del !in added &&
        md.add !in deleted && Viable(table, order, roads, md)
    {
      var cityN := last.value;
      assert cityN == order[|order| - 1] && cityN in cities;
      var cands := Take(near[cityN], count);
      assert forall r :: r in cands ==> FromLast(r);
      mods := KeepMods(cands, added, deleted);
      LkModsViable(cands, added, deleted);
      ShortestFirst(table, cities, cityN, near[cityN], count);
    }

    /** The loop of `find_lk_mods` over the roads `cands` from the last city. */
    method KeepMods(cands: seq<Road>, added: seq<Road>, deleted: seq<Road>) returns (mods: seq<Mod>)
      requires Valid() && !IsTour() && forall r :: r in cands ==> FromLast(r)
      ensures mods == LkMods(cands, added, deleted)
    {
      mods := [];
      for k := 0 to |cands|
        invariant mods == LkMods(cands[..k], added, deleted)
      {
        LkModsStep(cands, k, added, deleted);
        var md := TestRoad(cands[k], added, deleted);
        if md.Some? {
          mods := mods + [md.value];
        }
      }
      assert cands[..|cands|] == cands;
    }

    /** The body of that loop for one `road_add`: the tests 2 to 6, each
        skipping the road, and otherwise the triple to keep. */
    method TestRoad(roadAdd: Road, added: seq<Road>, deleted: seq<Road>) returns (md: Option<Mod>)
      requires Valid() && !IsTour() && FromLast(roadAdd)
      ensures md == Candidate(roadAdd, added, deleted)
    {
      var cityN := last.value;
      CandidateEnabled(roadAdd);
      var cityInsert := roadAdd.Other(cityN).value;
      if Some(cityInsert) == PrevCity(cityN) {
        return None;
      }
      var roadDelete := Lookup(table, cityInsert, NextCity(cityInsert).value).value;
      if roadAdd.length >= roadDelete.length {
        return None;
      }
      if roadDelete in added {
        return None;
      }
      if roadAdd in deleted {
        return None;
      }
      md := Some(Mod(cityInsert, roadAdd, roadDelete));
    }
  }
}
