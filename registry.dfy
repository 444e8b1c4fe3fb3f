/** The road registry (roads.py): roads stored under ordered city pairs,
    looked up in either order, with a lazily computed list of the roads
    sorted by length. */
module RoadIndex {
  import opened RoadDef

  type Key = (City, City)

  /** No element occurs twice. */
  ghost predicate Distinct<T>(s: seq<T>) {
    DistinctFrom(s, 0)
  }

  /** From position `k` on, each element is absent from the rest. */
  ghost predicate DistinctFrom<T>(s: seq<T>, k: nat)
    decreases |s| - k
  {
    k >= |s| || (Absent(s, s[k], k + 1) && DistinctFrom(s, k + 1))
  }

  /** `x` does not occur from position `k` on. */
  ghost predicate Absent<T>(s: seq<T>, x: T, k: nat)
    decreases |s| - k
  {
    k >= |s| || (s[k] != x && Absent(s, x, k + 1))
  }

  lemma {:induction false} AbsentAll<T>(s: seq<T>, x: T, k: nat)
    ensures Absent(s, x, k) <==> forall t :: k <= t < |s| ==> s[t] != x
    decreases |s| - k
  {
    if k < |s| {
      AbsentAll(s, x, k + 1);
    }
  }

  lemma {:induction false} DistinctFromAll<T>(s: seq<T>, k: nat)
    ensures DistinctFrom(s, k) <==> forall i, j :: k <= i < j < |s| ==> s[i] != s[j]
    decreases |s| - k
  {
    if k < |s| {
      DistinctFromAll(s, k + 1);
      AbsentAll(s, s[k], k + 1);
    }
  }

  /** Distinctness as a statement about every pair of positions. */
  lemma DistinctPairs<T>(s: seq<T>)
    ensures Distinct(s) <==> forall i, j :: 0 <= i < j < |s| ==> s[i] != s[j]
  {
    DistinctFromAll(s, 0);
  }

  /** Distinct elements sit at different positions. */
  lemma DistinctAt<T>(s: seq<T>, i: nat, j: nat)
    requires Distinct(s) && i < |s| && j < |s| && i != j
    ensures s[i] != s[j]
  {
    DistinctPairs(s);
  }

  /** Appending an element not yet present keeps a sequence distinct. */
  lemma DistinctAppend<T>(s: seq<T>, x: T)
    requires Distinct(s) && x !in s
    ensures Distinct(s + [x])
  {
    DistinctPairs(s);
    forall i, j | 0 <= i < j < |s + [x]| ensures (s + [x])[i] != (s + [x])[j] {
      if j == |s| { assert s[i] in s; }
    }
    DistinctPairs(s + [x]);
  }

  /** A suffix of a sequence without repeats has none either. */
  lemma DistinctDrop<T>(s: seq<T>, k: nat)
    requires Distinct(s) && k <= |s|
    ensures Distinct(s[k..])
  {
    forall a, b | 0 <= a < b < |s[k..]| ensures s[k..][a] != s[k..][b] {
      DistinctAt(s, k + a, k + b);
    }
    DistinctPairs(s[k..]);
  }

  /** In a sequence without repeats, no element occurs before its own position. */
  lemma DistinctNotBefore<T>(s: seq<T>, k: nat)
    requires Distinct(s) && k < |s|
    ensures s[k] !in s[..k]
  {
    forall t | 0 <= t < k ensures s[..k][t] != s[k] {
      DistinctAt(s, t, k);
    }
  }

  /** An element occurs at most once in a sequence without repeats. */
  lemma {:induction false} DistinctCountOne<T>(s: seq<T>, x: T)
    requires Distinct(s)
    ensures multiset(s)[x] <= 1
    decreases |s|
  {
    if s != [] {
      DistinctDrop(s, 1);
      DistinctCountOne(s[1..], x);
      assert s == [s[0]] + s[1..];
      if x == s[0] {
        forall t | 0 <= t < |s[1..]| ensures s[1..][t] != x {
          DistinctAt(s, 0, t + 1);
        }
      }
    }
  }

  /** A permutation of a sequence without repeats has none either. */
  lemma DistinctPerm<T>(s: seq<T>, t: seq<T>)
    requires Distinct(s) && multiset(s) == multiset(t)
    ensures Distinct(t)
  {
    forall i, j | 0 <= i < j < |t| ensures t[i] != t[j] {
      DistinctCountOne(s, t[i]);
      if t[i] == t[j] {
        CountedTwice(t, i, j);
      }
    }
    DistinctPairs(t);
  }

  lemma CountedTwice<T>(t: seq<T>, i: nat, j: nat)
    requires i < j < |t| && t[i] == t[j]
    ensures multiset(t)[t[i]] >= 2
  {
    assert t == t[..j] + t[j..];
    assert t[i] in t[..j] && t[j] in t[j..];
  }

  /** Position of `c` in `s` (the first, and with distinct cities the only one). */
  function IndexOf(s: seq<City>, c: City): (k: nat)
    requires c in s
    ensures k < |s| && s[k] == c
    ensures forall j :: 0 <= j < k ==> s[j] != c
  {
    if s[0] == c then 0 else 1 + IndexOf(s[1..], c)
  }

  lemma IndexOfAt(s: seq<City>, k: nat)
    requires Distinct(s) && k < |s|
    ensures IndexOf(s, s[k]) == k
  {
    var j := IndexOf(s, s[k]);
    if j != k { DistinctAt(s, j, k); }
  }

  /** `Roads.get(a, b)`: the road under `(a, b)`, else the one under `(b, a)`, else None. */
  function Lookup(table: map<Key, Road>, a: City, b: City): Option<Road> {
    if (a, b) in table then Some(table[(a, b)])
    else if (b, a) in table then Some(table[(b, a)])
    else None
  }

  /** What `init_roads` guarantees of the registry: every road is stored under
      its own endpoints in construction order, joins two different cities, and
      each unordered pair is stored once. */
  ghost predicate WellKeyed(table: map<Key, Road>) {
    forall k :: k in table ==>
      table[k].c1 == k.0 && table[k].c2 == k.1 && k.0 != k.1 && (k.1, k.0) !in table
  }

  /** Every pair of different cities of `cs` has a road. */
  ghost predicate Covers(table: map<Key, Road>, cs: seq<City>) {
    forall a, b :: a in cs && b in cs && a != b ==> Lookup(table, a, b).Some?
  }

  /** With each unordered pair stored once, `get(a, b)` and `get(b, a)` agree. */
  lemma LookupSymmetric(table: map<Key, Road>, a: City, b: City)
    requires WellKeyed(table)
    ensures Lookup(table, a, b) == Lookup(table, b, a)
  {
    if (a, b) in table {
      assert (b, a) !in table;
    } else if (b, a) in table {
      assert (a, b) !in table;
    }
  }

  /** A looked-up road joins exactly the two cities asked for. */
  lemma LookupEnds(table: map<Key, Road>, a: City, b: City)
    requires WellKeyed(table)
    requires Lookup(table, a, b).Some?
    ensures a != b
    ensures var r := Lookup(table, a, b).value;
      (r.c1 == a && r.c2 == b) || (r.c1 == b && r.c2 == a)
  {
  }

  /** Different unordered pairs have different roads. */
  lemma LookupInjective(table: map<Key, Road>, a: City, b: City, c: City, d: City)
    requires WellKeyed(table)
    requires Lookup(table, a, b).Some? && Lookup(table, a, b) == Lookup(table, c, d)
    ensures (a == c && b == d) || (a == d && b == c)
  {
    LookupEnds(table, a, b);
    LookupEnds(table, c, d);
  }

  /** The registry `init_roads` builds: one road for each pair `cs[i], cs[j]`
      with `i < j`, stored under that ordered pair. */
  ghost function AllRoads(cs: seq<City>, dist: (City, City) -> nat): map<Key, Road> {
    map i, j | 0 <= i < j < |cs| :: (cs[i], cs[j]) := NewRoad(cs[i], cs[j], dist)
  }

  lemma AllRoadsWellKeyed(cs: seq<City>, dist: (City, City) -> nat)
    requires Distinct(cs)
    ensures WellKeyed(AllRoads(cs, dist))
  {
    var t := AllRoads(cs, dist);
    forall k | k in t
      ensures t[k].c1 == k.0 && t[k].c2 == k.1 && k.0 != k.1 && (k.1, k.0) !in t
    {
      var i, j :| 0 <= i < j < |cs| && k == (cs[i], cs[j]);
      assert t[k] == NewRoad(cs[i], cs[j], dist);
      DistinctAt(cs, i, j);
      forall i', j' | 0 <= i' < j' < |cs| ensures (cs[i'], cs[j']) != (k.1, k.0) {
        if i' == j {
          DistinctAt(cs, j', i);
        } else {
          DistinctAt(cs, i', j);
        }
      }
    }
  }

  lemma AllRoadsHas(cs: seq<City>, dist: (City, City) -> nat, i: int, j: int)
    requires 0 <= i < j < |cs|
    ensures (cs[i], cs[j]) in AllRoads(cs, dist)
  {
  }

  lemma AllRoadsCovers(cs: seq<City>, dist: (City, City) -> nat)
    ensures Covers(AllRoads(cs, dist), cs)
  {
    forall a, b | a in cs && b in cs && a != b
      ensures Lookup(AllRoads(cs, dist), a, b).Some?
    {
      var i :| 0 <= i < |cs| && cs[i] == a;
      var j :| 0 <= j < |cs| && cs[j] == b;
      if i < j {
        AllRoadsHas(cs, dist, i, j);
      } else {
        AllRoadsHas(cs, dist, j, i);
      }
    }
  }

  /** The registry built by `init_roads` has one road per unordered pair of
      the (distinct) cities, and every pair is found. */
  lemma AllRoadsFits(cs: seq<City>, dist: (City, City) -> nat)
    requires Distinct(cs)
    ensures WellKeyed(AllRoads(cs, dist))
    ensures Covers(AllRoads(cs, dist), cs)
  {
    AllRoadsWellKeyed(cs, dist);
    AllRoadsCovers(cs, dist);
  }

  /** Python's slice `s[:count]`, with None meaning "no bound" and a
      negative count dropping that many roads from the end. */
  function Take(s: seq<Road>, count: Option<int>): (r: seq<Road>)
    ensures |r| <= |s| && r == s[..|r|]
    ensures count.None? ==> r == s
    ensures count.Some? && 0 <= count.value ==>
      |r| == if count.value < |s| then count.value else |s|
    ensures count.Some? && count.value < 0 ==>
      |r| == if |s| + count.value < 0 then 0 else |s| + count.value
  {
    match count
    case None => s
    case Some(k) =>
      if k >= 0 then (if k < |s| then s[..k] else s)
      else if |s| + k < 0 then [] else s[..|s| + k]
  }

  ghost predicate SortedByLength(s: seq<Road>) {
    forall i, j :: 0 <= i < j < |s| ==> s[i].length <= s[j].length
  }

  /** Insert `r` before the first road that is not shorter (keeps equal
      lengths in their original order). */
  function InsertByLength(r: Road, s: seq<Road>): seq<Road> {
    if s == [] || r.length <= s[0].length then [r] + s
    else [s[0]] + InsertByLength(r, s[1..])
  }

  /** `list.sort()` on roads, which compares them with `__lt__`, that is by length. */
  function SortByLength(s: seq<Road>): seq<Road> {
    if s == [] then [] else InsertByLength(s[0], SortByLength(s[1..]))
  }

  lemma SortedCons(x: Road, t: seq<Road>)
    requires SortedByLength(t)
    requires forall y :: y in t ==> x.length <= y.length
    ensures SortedByLength([x] + t)
  {
    var u := [x] + t;
    forall i, j | 0 <= i < j < |u| ensures u[i].length <= u[j].length {
      if i == 0 {
        assert u[j] == t[j - 1];
        assert u[j] in t;
      } else {
        assert u[i] == t[i - 1] && u[j] == t[j - 1];
      }
    }
  }

  /** Inserting adds exactly the one road. */
  lemma {:induction false} InsertByLengthPerm(r: Road, s: seq<Road>)
    ensures multiset(InsertByLength(r, s)) == multiset(s) + multiset{r}
  {
    if !(s == [] || r.length <= s[0].length) {
      InsertByLengthPerm(r, s[1..]);
      assert s == [s[0]] + s[1..];
    }
  }

  lemma SortedTail(s: seq<Road>)
    requires SortedByLength(s) && s != []
    ensures SortedByLength(s[1..])
    ensures forall y :: y in s[1..] ==> s[0].length <= y.length
  {
    forall i, j | 0 <= i < j < |s[1..]| ensures s[1..][i].length <= s[1..][j].length {
      assert s[1..][i] == s[i + 1] && s[1..][j] == s[j + 1];
    }
    forall y | y in s[1..] ensures s[0].length <= y.length {
      var k :| 0 <= k < |s[1..]| && s[1..][k] == y;
      assert s[k + 1] == y;
    }
  }

  lemma {:induction false} InsertByLengthSorted(r: Road, s: seq<Road>)
    requires SortedByLength(s)
    ensures SortedByLength(InsertByLength(r, s))
  {
    if s == [] || r.length <= s[0].length {
      forall y | y in s ensures r.length <= y.length {
        var k :| 0 <= k < |s| && s[k] == y;
        if k > 0 { assert s[0].length <= s[k].length; }
      }
      SortedCons(r, s);
    } else {
      var t := InsertByLength(r, s[1..]);
      SortedTail(s);
      InsertByLengthSorted(r, s[1..]);
      InsertByLengthPerm(r, s[1..]);
      forall y | y in t ensures s[0].length <= y.length {
        assert y in multiset(t);
        if y != r {
          assert y in multiset(s[1..]);
        }
      }
      SortedCons(s[0], t);
    }
  }

  /** The sorted view is ascending by length and holds exactly the stored roads. */
  lemma {:induction false} SortByLengthCorrect(s: seq<Road>)
    ensures SortedByLength(SortByLength(s))
    ensures multiset(SortByLength(s)) == multiset(s)
  {
    if s != [] {
      SortByLengthCorrect(s[1..]);
      InsertByLengthSorted(s[0], SortByLength(s[1..]));
      InsertByLengthPerm(s[0], SortByLength(s[1..]));
      assert s == [s[0]] + s[1..];
    }
  }

  /** `get_by_length(count)` keeps the shortest roads: every returned road is
      at most as long as every road left out. */
  lemma TakeKeepsShortest(s: seq<Road>, count: Option<int>)
    requires SortedByLength(s)
    ensures SortedByLength(Take(s, count))
    ensures forall i, j :: 0 <= i < |Take(s, count)| <= j < |s| ==>
      Take(s, count)[i].length <= s[j].length
  {
  }

  function ValuesIn(table: map<Key, Road>, ks: seq<Key>): (vs: seq<Road>)
    requires forall k :: k in ks ==> k in table
    ensures |vs| == |ks|
    ensures forall i :: 0 <= i < |ks| ==> vs[i] == table[ks[i]]
  {
    if ks == [] then [] else [table[ks[0]]] + ValuesIn(table, ks[1..])
  }

  /** `Roads`, a dictionary from ordered city pairs to roads plus the
      `by_length` cache. The dictionary's enumeration order is kept as the
      key sequence `keys`. An empty cache means "not computed yet", as
      `not self.by_length` does. */
  class Roads {
    var keys: seq<Key>
    var table: map<Key, Road>
    var byLength: seq<Road>

    ghost predicate Valid()
      reads this`keys, this`table
    {
      Distinct(keys) && (forall k :: k in table <==> k in keys)
    }

    constructor ()
      ensures Valid() && keys == [] && table == map[] && byLength == []
    {
      keys, table, byLength := [], map[], [];
    }

    /** `Roads.get`. */
    function Get(a: City, b: City): (r: Option<Road>)
      reads this
      ensures (a, b) in table ==> r == Some(table[(a, b)])
      ensures (a, b) !in table && (b, a) in table ==> r == Some(table[(b, a)])
      ensures r.None? <==> (a, b) !in table && (b, a) !in table
    {
      Lookup(table, a, b)
    }

    /** `dict.values()` in enumeration order. */
    function Values(): (vs: seq<Road>)
      reads this`keys, this`table
      requires Valid()
      ensures |vs| == |keys|
      ensures forall i :: 0 <= i < |keys| ==> vs[i] == table[keys[i]]
    {
      ValuesIn(table, keys)
    }

    /** `roads[(a, b)] = road`: the dictionary store, which leaves the cache alone. */
    method Store(k: Key, r: Road)
      requires Valid()
      modifies this
      ensures Valid()
      ensures table == old(table)[k := r]
      ensures keys == if k in old(table) then old(keys) else old(keys) + [k]
      ensures byLength == old(byLength)
    {
      if k !in table {
        DistinctAppend(keys, k);
        keys := keys + [k];
      }
      table := table[k := r];
    }

    /** The sorted list `get_by_length` builds holds exactly the stored roads. */
    lemma SortedValues()
      requires Valid()
      ensures forall r :: r in SortByLength(Values()) <==> r in table.Values
    {
      var vs := Values();
      SortByLengthCorrect(vs);
      assert forall r :: r in SortByLength(vs) <==> r in multiset(vs);
      forall r | r in table.Values ensures r in vs {
        var k :| k in table && table[k] == r;
        var i :| 0 <= i < |keys| && keys[i] == k;
        assert vs[i] == r;
      }
    }

    /** `Roads.get_by_length`: sorts the stored roads on the first call (or
        while the cache is empty) and then answers from the cache, so roads
        stored after that call are not reflected. */
    method GetByLength(count: Option<int>) returns (r: seq<Road>)
      requires Valid()
      modifies this`byLength
      ensures byLength == if old(byLength) == [] then SortByLength(Values()) else old(byLength)
      ensures r == Take(byLength, count)
    {
      if byLength == [] {
        byLength := SortByLength(Values());
      }
      r := Take(byLength, count);
    }
  }
}
