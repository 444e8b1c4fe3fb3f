/** The shapes behind the `Tour` data structure (tour.py): a visiting order
    of the cities, the neighbour map that encodes it as a doubly linked list
    (closed for a tour, open for a path), the roads it uses and its length,
    and the Lin-Kernighan exchange that reverses the tail of a path. */
module PathAlgebra {
  import opened RoadDef
  import opened RoadIndex

  /** A city's (predecessor, successor); None is an open path end. */
  type Pair = (Option<City>, Option<City>)
  type Nbrs = map<City, Pair>

  function Succ(n: nat, k: nat): nat
    requires k < n
  {
    if k + 1 < n then k + 1 else 0
  }

  function Pred(n: nat, k: nat): nat
    requires k < n
  {
    if k == 0 then n - 1 else k - 1
  }

  function PrevIn(p: seq<City>, k: nat): Option<City>
    requires k < |p|
  {
    if k > 0 then Some(p[k - 1]) else None
  }

  function NextIn(p: seq<City>, k: nat): Option<City>
    requires k < |p|
  {
    if k + 1 < |p| then Some(p[k + 1]) else None
  }

  ghost predicate SameKeys(m: Nbrs, s: seq<City>) {
    forall c :: c in m <==> c in s
  }

  /** `m` links `p` as an open path from `p[0]` to its last city. */
  ghost predicate PathShaped(m: Nbrs, p: seq<City>) {
    SameKeys(m, p) && forall k {:trigger m[p[k]]} :: 0 <= k < |p| ==> m[p[k]] == (PrevIn(p, k), NextIn(p, k))
  }

  /** The walk `next_city` makes along the links: from position `k` on,
      each city of `p` is in `m` and faces its neighbours on `p`. */
  ghost predicate LinkedFrom(m: Nbrs, p: seq<City>, k: nat)
    decreases |p| - k
  {
    k >= |p| || (PathAt(m, p, k) && LinkedFrom(m, p, k + 1))
  }

  /** Position `k` of the path `p` is in `m` and faces its neighbours on `p`. */
  ghost predicate PathAt(m: Nbrs, p: seq<City>, k: nat)
    requires k < |p|
  {
    p[k] in m && m[p[k]] == (PrevIn(p, k), NextIn(p, k))
  }

  /** The walk holds from `k` exactly when every position from `k` on is linked. */
  lemma {:induction false} LinkedFromAll(m: Nbrs, p: seq<City>, k: nat)
    ensures LinkedFrom(m, p, k) <==> forall j :: k <= j < |p| ==> PathAt(m, p, j)
    decreases |p| - k
  {
    if k < |p| {
      LinkedFromAll(m, p, k + 1);
    }
  }

  /** An open path is linked exactly when the walk from its first city follows it. */
  lemma LinkedPath(m: Nbrs, p: seq<City>)
    ensures PathShaped(m, p) <==> SameKeys(m, p) && LinkedFrom(m, p, 0)
  {
    LinkedFromAll(m, p, 0);
    if SameKeys(m, p) && LinkedFrom(m, p, 0) {
      forall k | 0 <= k < |p| ensures m[p[k]] == (PrevIn(p, k), NextIn(p, k)) {
        assert PathAt(m, p, k);
      }
    }
    if PathShaped(m, p) {
      PathShapedAt(m, p);
    }
  }

  /** Every position of a linked path is linked. */
  lemma PathShapedAt(m: Nbrs, p: seq<City>)
    requires PathShaped(m, p)
    ensures forall k :: 0 <= k < |p| ==> PathAt(m, p, k)
  {
    forall k | 0 <= k < |p| ensures PathAt(m, p, k) {
      assert p[k] in p;
    }
  }

  /** `m` links `c` as a closed cycle, `c[0]` following its last city. */
  ghost predicate CycleShaped(m: Nbrs, c: seq<City>) {
    SameKeys(m, c) &&
    forall k {:trigger m[c[k]]} :: 0 <= k < |c| ==> m[c[k]] == (Some(c[Pred(|c|, k)]), Some(c[Succ(|c|, k)]))
  }

  /** Position `k` of the tour `c` is in `m` and faces its neighbours on `c`. */
  ghost predicate RoundAt(m: Nbrs, c: seq<City>, k: nat)
    requires k < |c|
  {
    c[k] in m && m[c[k]] == (Some(c[Pred(|c|, k)]), Some(c[Succ(|c|, k)]))
  }

  /** The walk round a tour: every position from `k` on is linked. */
  ghost predicate RoundFrom(m: Nbrs, c: seq<City>, k: nat)
    decreases |c| - k
  {
    k >= |c| || (RoundAt(m, c, k) && RoundFrom(m, c, k + 1))
  }

  lemma {:induction false} RoundFromAll(m: Nbrs, c: seq<City>, k: nat)
    ensures RoundFrom(m, c, k) <==> forall j :: k <= j < |c| ==> RoundAt(m, c, j)
    decreases |c| - k
  {
    if k < |c| {
      RoundFromAll(m, c, k + 1);
    }
  }

  /** A tour is linked exactly when the walk round it follows it. */
  lemma LinkedCycle(m: Nbrs, c: seq<City>)
    ensures CycleShaped(m, c) <==> SameKeys(m, c) && RoundFrom(m, c, 0)
  {
    RoundFromAll(m, c, 0);
    if SameKeys(m, c) && RoundFrom(m, c, 0) {
      forall k | 0 <= k < |c| ensures m[c[k]] == (Some(c[Pred(|c|, k)]), Some(c[Succ(|c|, k)])) {
        assert RoundAt(m, c, k);
      }
    }
    if CycleShaped(m, c) {
      forall k | 0 <= k < |c| ensures RoundAt(m, c, k) {
        assert c[k] in c;
      }
    }
  }

  /** `a` visits exactly the cities of `b`, each once. */
  ghost predicate SameCities(a: seq<City>, b: seq<City>) {
    |a| == |b| && Distinct(a) && forall c :: c in a <==> c in b
  }

  /** The tour state on values: the links close `cs` into a cycle and the
      set holds its n roads. */
  ghost predicate CycleState(table: map<Key, Road>, cs: seq<City>, m: Nbrs, rs: set<Road>, len: int) {
    var holds := WellKeyed(table) && Covers(table, cs) && Distinct(cs) && |cs| >= 3 &&
      SameKeys(m, cs) && RoundFrom(m, cs, 0) && rs == CycleRoads(table, cs) && len == CycleLen(table, cs);
    holds
  }

  /** The path state on values: the links run along `p`, a reordering of
      `cs`, from `first` to `last`, and the set holds its n - 1 roads. */
  ghost predicate PathState(table: map<Key, Road>, cs: seq<City>, first: Option<City>, last: Option<City>,
                            m: Nbrs, rs: set<Road>, len: int, p: seq<City>) {
    var holds := WellKeyed(table) && Covers(table, cs) && Distinct(cs) && |cs| >= 3 && SameCities(p, cs) &&
      first == Some(p[0]) && last == Some(p[|p| - 1]) &&
      SameKeys(m, p) && LinkedFrom(m, p, 0) && rs == PathRoads(table, p) && len == PathLen(table, p);
    holds
  }

  /** The exchange that `modify` carries out on path `p` at `p[i] == ci`:
      `cut` is the road `p[i] -- p[i+1]` and `join` the road from the last
      city back to `p[i]`; `p[i]` is neither the last city nor the one
      before it. */
  ghost predicate ExchangeAt(table: map<Key, Road>, p: seq<City>, i: nat, ci: City, cut: Road, join: Road) {
    i + 2 < |p| && p[i] == ci &&
    Hop(table, p, i) == Some(cut) && Lookup(table, p[|p| - 1], p[i]) == Some(join)
  }

  function Rev(s: seq<City>): (r: seq<City>)
    ensures |r| == |s|
    ensures forall k :: 0 <= k < |s| ==> r[k] == s[|s| - 1 - k]
  {
    seq(|s|, k requires 0 <= k < |s| => s[|s| - 1 - k])
  }

  /** One Lin-Kernighan exchange on a path `p`: the part after position `i`
      is reversed, so `p[i]` is followed by the old last city and the old
      `p[i + 1]` becomes the new last city. */
  function Exchange(p: seq<City>, i: nat): (q: seq<City>)
    requires i < |p|
    ensures |q| == |p|
    ensures forall k :: 0 <= k <= i ==> q[k] == p[k]
    ensures forall k :: i < k < |p| ==> q[k] == p[|p| + i - k]
  {
    p[..i + 1] + Rev(p[i + 1..])
  }

  /** Rotation of a cycle so that it starts at position `j`. */
  function Rotate(c: seq<City>, j: nat): (r: seq<City>)
    requires j < |c|
    ensures |r| == |c|
    ensures forall t :: 0 <= t < |c| ==> r[t] == c[RotIdx(|c|, j, t)]
  {
    c[j..] + c[..j]
  }

  /** The position of the tour that lands at `t` when rotating to start at `j`. */
  function RotIdx(n: nat, j: nat, t: nat): (s: nat)
    requires j < n && t < n
    ensures s < n
  {
    if j + t < n then j + t else j + t - n
  }

  function Swap(p: Pair): Pair {
    (p.1, p.0)
  }

  /** Cut the link x -> y. */
  function Unlink(m: Nbrs, x: City, y: City): Nbrs
    requires x in m && y in m
  {
    var px, py := m[x], m[y];
    m[x := (px.0, None)][y := (None, py.1)]
  }

  /** Make y follow x. */
  function Link(m: Nbrs, x: City, y: City): Nbrs
    requires x in m && y in m
  {
    var px, py := m[x], m[y];
    m[x := (px.0, Some(y))][y := (Some(x), py.1)]
  }

  /** Swap predecessor and successor of every city of `seg`. */
  function FlipAll(m: Nbrs, seg: seq<City>): Nbrs {
    map c | c in m :: if c in seg then Swap(m[c]) else m[c]
  }

  /** `Tour.is_forward` on a neighbour map: `road[0] => road[1]` is a link,
      or `road[0]` is the path's last city and `road[1]` its first. */
  function IsFwd(m: Nbrs, road: Road): bool
    requires road.c1 in m && road.c2 in m
  {
    m[road.c1].1 == Some(road.c2) || (m[road.c1].1 == None && m[road.c2].0 == None)
  }

  /** `Tour.replace_neighbors(road, (a, b))` on a neighbour map. */
  function Rewire(m: Nbrs, road: Road, a: Option<City>, b: Option<City>): Nbrs
    requires road.c1 in m && road.c2 in m
  {
    var p0, p1 := m[road.c1], m[road.c2];
    if IsFwd(m, road) then m[road.c1 := (p0.0, b)][road.c2 := (a, p1.1)]
    else m[road.c2 := (p1.0, a)][road.c1 := (b, p0.1)]
  }

  /** Length of the registry road between two cities (0 if there is none). */
  function LinkLen(table: map<Key, Road>, a: City, b: City): nat {
    match Lookup(table, a, b)
    case Some(r) => r.length
    case None => 0
  }

  /** Sum of the road lengths along an open path. */
  function PathLen(table: map<Key, Road>, p: seq<City>): nat
    decreases |p|
  {
    if |p| < 2 then 0 else LinkLen(table, p[0], p[1]) + PathLen(table, p[1..])
  }

  /** Sum of the road lengths around a closed tour, including the road back
      from the last city to the first. */
  function CycleLen(table: map<Key, Road>, c: seq<City>): nat {
    if c == [] then 0 else PathLen(table, c) + LinkLen(table, c[|c| - 1], c[0])
  }

  /** The road between positions `k` and `k + 1` of a path. */
  function Hop(table: map<Key, Road>, p: seq<City>, k: nat): Option<Road>
    requires k + 1 < |p|
  {
    Lookup(table, p[k], p[k + 1])
  }

  /** The road from position `k` of a tour to the next one, wrapping around. */
  function CycleHop(table: map<Key, Road>, c: seq<City>, k: nat): Option<Road>
    requires k < |c|
  {
    Lookup(table, c[k], c[Succ(|c|, k)])
  }

  /** The roads along an open path. */
  function PathRoads(table: map<Key, Road>, p: seq<City>): set<Road> {
    set k: nat | k + 1 < |p| && Hop(table, p, k).Some? :: Hop(table, p, k).value
  }

  /** The roads around a closed tour: `get_road(c[k], c[(k + 1) % n])` for every k. */
  function CycleRoads(table: map<Key, Road>, c: seq<City>): set<Road> {
    set k: nat | k < |c| && CycleHop(table, c, k).Some? :: CycleHop(table, c, k).value
  }

  // ---------------------------------------------------------------------
  // Sequences

  lemma RevRev(s: seq<City>)
    ensures Rev(Rev(s)) == s
  {
  }

  lemma RevSameCities(s: seq<City>)
    requires Distinct(s)
    ensures SameCities(Rev(s), s)
  {
    forall c ensures c in Rev(s) <==> c in s {
      if c in s {
        var k :| 0 <= k < |s| && s[k] == c;
        assert Rev(s)[|s| - 1 - k] == c;
      }
    }
    forall a, b | 0 <= a < b < |s| ensures Rev(s)[a] != Rev(s)[b] {
      DistinctAt(s, |s| - 1 - a, |s| - 1 - b);
    }
    DistinctPairs(Rev(s));
  }

  /** Reversing the tail twice gives the path back: `unmodify` undoes `modify`. */
  lemma ExchangeInvolution(p: seq<City>, i: nat)
    requires i < |p|
    ensures Exchange(Exchange(p, i), i) == p
  {
    var q := Exchange(Exchange(p, i), i);
    forall k | 0 <= k < |p| ensures q[k] == p[k] {
    }
  }

  lemma ExchangeSameCities(p: seq<City>, i: nat)
    requires i < |p| && Distinct(p)
    ensures SameCities(Exchange(p, i), p)
  {
    var q := Exchange(p, i);
    forall c ensures c in q <==> c in p {
      if c in p {
        var k :| 0 <= k < |p| && p[k] == c;
        if k <= i { assert q[k] == c; } else { assert q[|p| + i - k] == c; }
      }
      if c in q {
        var k :| 0 <= k < |q| && q[k] == c;
        if k <= i { assert p[k] == c; } else { assert p[|p| + i - k] == c; }
      }
    }
    forall a, b | 0 <= a < b < |q| ensures q[a] != q[b] {
      DistinctAt(p, if a <= i then a else |p| + i - a, if b <= i then b else |p| + i - b);
    }
    DistinctPairs(q);
  }

  lemma RotateSameCities(c: seq<City>, j: nat)
    requires j < |c| && Distinct(c)
    ensures SameCities(Rotate(c, j), c)
  {
    var r := Rotate(c, j);
    forall x ensures x in r <==> x in c {
      if x in c {
        var k :| 0 <= k < |c| && c[k] == x;
        if k >= j { assert r[k - j] == x; } else { assert r[k + |c| - j] == x; }
      }
    }
    forall a, b | 0 <= a < b < |r| ensures r[a] != r[b] {
      DistinctAt(c, if j + a < |c| then j + a else j + a - |c|, if j + b < |c| then j + b else j + b - |c|);
    }
    DistinctPairs(r);
  }

  lemma SameCitiesTrans(a: seq<City>, b: seq<City>, c: seq<City>)
    requires SameCities(a, b) && SameCities(b, c)
    ensures SameCities(a, c)
  {
  }

  lemma SameCitiesSymm(a: seq<City>, b: seq<City>)
    requires SameCities(a, b) && Distinct(b)
    ensures SameCities(b, a)
  {
  }

  lemma SameCitiesCovers(table: map<Key, Road>, a: seq<City>, b: seq<City>)
    requires SameCities(a, b) && Covers(table, b)
    ensures Covers(table, a)
  {
  }

  lemma IndexUnique(p: seq<City>, k: nat, l: nat)
    requires Distinct(p) && k < |p| && l < |p| && p[k] == p[l]
    ensures k == l
  {
    if k != l {
      DistinctAt(p, k, l);
    }
  }

  // ---------------------------------------------------------------------
  // Neighbour maps

  /** The neighbour map of a path is determined by its visiting order. */
  lemma PathShapedUnique(m1: Nbrs, m2: Nbrs, p: seq<City>)
    requires PathShaped(m1, p) && PathShaped(m2, p)
    ensures m1 == m2
  {
    forall c | c in m1 ensures c in m2 && m1[c] == m2[c] {
      var k :| 0 <= k < |p| && p[k] == c;
    }
  }

  /** In a path, `replace_neighbors(road, (None, None))` on the road of a link
      cuts exactly that link, whichever way the road is oriented (for a path
      of at least three cities, where the road cannot look like the gap). */
  lemma RewireUnlinks(m: Nbrs, p: seq<City>, k: nat, road: Road)
    requires PathShaped(m, p) && Distinct(p)
    requires k + 1 < |p| && |p| >= 3
    requires (road.c1 == p[k] && road.c2 == p[k + 1]) || (road.c1 == p[k + 1] && road.c2 == p[k])
    ensures road.c1 in m && road.c2 in m
    ensures Rewire(m, road, None, None) == Unlink(m, p[k], p[k + 1])
  {
    var x, y := p[k], p[k + 1];
    assert m[x] == (PrevIn(p, k), Some(y));
    assert m[y] == (Some(x), NextIn(p, k + 1));
    if road.c1 == x {
      assert IsFwd(m, road);
    } else {
      assert NextIn(p, k + 1) != Some(x) by {
        if k + 2 < |p| { DistinctAt(p, k + 2, k); }
      }
      assert NextIn(p, k + 1) == None ==> PrevIn(p, k) != None;
      assert !IsFwd(m, road);
    }
  }

  /** `replace_neighbors(road, road)` joins a path's dangling end `x` to the
      start `y` of a reversed segment, whichever way the road is oriented. */
  lemma RewireLinks(m: Nbrs, x: City, y: City, z: City, road: Road)
    requires x in m && y in m && x != y && z != x
    requires m[x].1 == None && m[y].0 == None && m[y].1 == Some(z)
    requires (road.c1 == x && road.c2 == y) || (road.c1 == y && road.c2 == x)
    ensures Rewire(m, road, Some(road.c1), Some(road.c2)) == Link(m, x, y)
  {
  }

  lemma InTail(p: seq<City>, i: nat, j: nat)
    requires i < j < |p|
    ensures p[j] in p[i + 1..]
  {
    assert p[i + 1..][j - i - 1] == p[j];
  }

  lemma NotInTail(p: seq<City>, i: nat, k: nat)
    requires Distinct(p) && k <= i < |p|
    ensures p[k] !in p[i + 1..]
  {
    var tail := p[i + 1..];
    forall t | 0 <= t < |tail| ensures tail[t] != p[k] {
      DistinctAt(p, i + 1 + t, k);
    }
  }

  /** The neighbour map after cutting `p[i] -> p[i+1]` and reversing the segment
      from `p[i+1]` to the last city, position by position. */
  lemma CutAndFlipAt(m: Nbrs, p: seq<City>, i: nat, j: nat)
    requires Distinct(p) && i + 2 < |p| && j < |p|
    requires PathAt(m, p, i) && PathAt(m, p, i + 1) && PathAt(m, p, j)
    ensures var m2 := FlipAll(Unlink(m, p[i], p[i + 1]), p[i + 1..]);
      p[j] in m2 &&
      m2[p[j]] == (if j < i then m[p[j]]
                   else if j == i then (PrevIn(p, i), None)
                   else if j == i + 1 then (Some(p[j + 1]), None)
                   else if j + 1 == |p| then (None, Some(p[j - 1]))
                   else (Some(p[j + 1]), Some(p[j - 1])))
  {
    if j != i { DistinctAt(p, j, i); }
    if j != i + 1 { DistinctAt(p, j, i + 1); }
    if j <= i {
      NotInTail(p, i, j);
    } else {
      InTail(p, i, j);
    }
  }

  lemma LinkAt(m: Nbrs, x: City, y: City, c: City)
    requires x in m && y in m && c in m && x != y
    ensures c in Link(m, x, y)
    ensures Link(m, x, y)[c] == if c == y then (Some(x), m[y].1)
                                else if c == x then (m[x].0, Some(y))
                                else m[c]
  {
  }

  /** The exchanged links at a position up to the pivot `i`. */
  lemma ExchangeNbrsHead(m: Nbrs, p: seq<City>, i: nat, k: nat)
    requires Distinct(p) && i + 2 < |p| && k <= i
    requires PathAt(m, p, i) && PathAt(m, p, i + 1) && PathAt(m, p, |p| - 1) && PathAt(m, p, k)
    ensures var m2 := FlipAll(Unlink(m, p[i], p[i + 1]), p[i + 1..]);
            var q := Exchange(p, i);
            p[i] in m2 && p[|p| - 1] in m2 && q[k] in m2 &&
            Link(m2, p[i], p[|p| - 1])[q[k]] == (PrevIn(q, k), NextIn(q, k))
  {
    var n := |p|;
    var m2 := FlipAll(Unlink(m, p[i], p[i + 1]), p[i + 1..]);
    CutAndFlipAt(m, p, i, i);
    CutAndFlipAt(m, p, i, n - 1);
    CutAndFlipAt(m, p, i, k);
    var q := Exchange(p, i);
    assert q[k] == p[k];
    DistinctAt(p, i, n - 1);
    LinkAt(m2, p[i], p[n - 1], p[k]);
    if k < i {
      DistinctAt(p, k, i);
      DistinctAt(p, k, n - 1);
      assert q[k + 1] == p[k + 1];
      assert k > 0 ==> q[k - 1] == p[k - 1];
    } else {
      assert q[i + 1] == p[n - 1];
      assert i > 0 ==> q[i - 1] == p[i - 1];
    }
  }

  /** The exchanged links at a position of the reversed tail. */
  lemma ExchangeNbrsTail(m: Nbrs, p: seq<City>, i: nat, k: nat)
    requires Distinct(p) && i + 2 < |p| && i < k < |p|
    requires PathAt(m, p, i) && PathAt(m, p, i + 1) && PathAt(m, p, |p| - 1) && PathAt(m, p, |p| + i - k)
    ensures var m2 := FlipAll(Unlink(m, p[i], p[i + 1]), p[i + 1..]);
            var q := Exchange(p, i);
            p[i] in m2 && p[|p| - 1] in m2 && q[k] in m2 &&
            Link(m2, p[i], p[|p| - 1])[q[k]] == (PrevIn(q, k), NextIn(q, k))
  {
    var n := |p|;
    var m2 := FlipAll(Unlink(m, p[i], p[i + 1]), p[i + 1..]);
    CutAndFlipAt(m, p, i, i);
    CutAndFlipAt(m, p, i, n - 1);
    var q := Exchange(p, i);
    var j := n + i - k;
    CutAndFlipAt(m, p, i, j);
    assert q[k] == p[j];
    DistinctAt(p, i, n - 1);
    LinkAt(m2, p[i], p[n - 1], p[j]);
    if j == n - 1 {
      assert q[i + 2] == p[n - 2];
    } else if j == i + 1 {
      DistinctAt(p, j, i);
      DistinctAt(p, j, n - 1);
      assert q[k - 1] == p[j + 1];
    } else {
      DistinctAt(p, j, i);
      DistinctAt(p, j, n - 1);
      assert q[k - 1] == p[j + 1] && q[k + 1] == p[j - 1];
    }
  }

  lemma ExchangeNbrsAt(m: Nbrs, p: seq<City>, i: nat, k: nat)
    requires Distinct(p) && i + 2 < |p| && k < |p|
    requires forall t :: 0 <= t < |p| ==> PathAt(m, p, t)
    ensures p[i] in m && p[i + 1] in m
    ensures var m2 := FlipAll(Unlink(m, p[i], p[i + 1]), p[i + 1..]);
            var q := Exchange(p, i);
            p[i] in m2 && p[|p| - 1] in m2 && q[k] in m2 &&
            Link(m2, p[i], p[|p| - 1])[q[k]] == (PrevIn(q, k), NextIn(q, k))
  {
    assert PathAt(m, p, i) && PathAt(m, p, i + 1) && PathAt(m, p, |p| - 1) && PathAt(m, p, k);
    if k <= i {
      ExchangeNbrsHead(m, p, i, k);
    } else {
      assert PathAt(m, p, |p| + i - k);
      ExchangeNbrsTail(m, p, i, k);
    }
  }

  /** One exchange on the neighbour map: cut `p[i] -> p[i+1]`, reverse the
      segment from `p[i+1]` to the last city, link `p[i]` to the old last
      city. The result links the exchanged path. */
  lemma ExchangeNbrs(m: Nbrs, p: seq<City>, i: nat)
    requires PathShaped(m, p) && Distinct(p) && i + 2 < |p|
    ensures p[i] in m && p[i + 1] in m && p[|p| - 1] in m
    ensures var m2 := FlipAll(Unlink(m, p[i], p[i + 1]), p[i + 1..]);
            p[i] in m2 && p[|p| - 1] in m2 &&
            PathShaped(Link(m2, p[i], p[|p| - 1]), Exchange(p, i))
  {
    var n := |p|;
    PathShapedAt(m, p);
    ExchangeNbrsAt(m, p, i, i);
    var m2 := FlipAll(Unlink(m, p[i], p[i + 1]), p[i + 1..]);
    var m3 := Link(m2, p[i], p[n - 1]);
    var q := Exchange(p, i);
    forall k | 0 <= k < n ensures m3[q[k]] == (PrevIn(q, k), NextIn(q, k)) {
      ExchangeNbrsAt(m, p, i, k);
    }
    ExchangeSameCities(p, i);
    assert SameKeys(m3, q);
  }

  /** `seg` is a run of distinct cities, each linked forward to the next. */
  ghost predicate Chain(m: Nbrs, seg: seq<City>) {
    seg != [] && Distinct(seg) && (forall c :: c in seg ==> c in m) &&
    forall k {:trigger m[seg[k]]} :: 0 <= k < |seg| - 1 ==> m[seg[k]].1 == Some(seg[k + 1])
  }

  /** After the cut `p[i] -> p[i+1]` the tail of the path is still linked
      forward from `p[i+1]` to the last city. */
  lemma UnlinkChain(m: Nbrs, p: seq<City>, i: nat)
    requires SameKeys(m, p) && Distinct(p) && i + 1 < |p|
    requires forall t :: 0 <= t < |p| ==> PathAt(m, p, t)
    ensures p[i] in m && p[i + 1] in m
    ensures Chain(Unlink(m, p[i], p[i + 1]), p[i + 1..])
  {
    var m1, seg := Unlink(m, p[i], p[i + 1]), p[i + 1..];
    assert PathAt(m, p, i) && PathAt(m, p, i + 1);
    forall k | 0 <= k < |seg| - 1 ensures m1[seg[k]].1 == Some(seg[k + 1]) {
      assert seg[k] == p[i + 1 + k] && seg[k + 1] == p[i + 2 + k];
      assert PathAt(m, p, i + 1 + k);
      DistinctAt(p, i + 1 + k, i);
    }
    DistinctDrop(p, i + 1);
  }

  lemma FlipAllNone(m: Nbrs)
    ensures FlipAll(m, []) == m
  {
  }

  /** Flipping one more city of a run of distinct cities. */
  lemma FlipAllStep(m: Nbrs, s: seq<City>, k: nat)
    requires Distinct(s) && k < |s| && s[k] in m
    ensures s[k] in FlipAll(m, s[..k])
    ensures FlipAll(m, s[..k])[s[k] := Swap(FlipAll(m, s[..k])[s[k]])] == FlipAll(m, s[..k + 1])
  {
    DistinctNotBefore(s, k);
    var f := FlipAll(m, s[..k]);
    forall c | c in m ensures (c in s[..k + 1]) <==> (c in s[..k] || c == s[k]) {
      assert s[..k + 1] == s[..k] + [s[k]];
    }
  }

  /** Flipping a segment twice restores the links (`flip1city` is an involution). */
  lemma FlipAllTwice(m: Nbrs, s: seq<City>)
    ensures FlipAll(FlipAll(m, s), s) == m
  {
  }

  /** The neighbour-map side of one exchange, as `modify` performs it:
      `remove(cut)`, flip the run from `p[i+1]` to the last city, `add(join)`. */
  lemma ReconnectNbrs(m: Nbrs, p: seq<City>, i: nat, cut: Road, join: Road)
    requires PathShaped(m, p) && Distinct(p) && i + 2 < |p|
    requires (cut.c1 == p[i] && cut.c2 == p[i + 1]) || (cut.c1 == p[i + 1] && cut.c2 == p[i])
    requires (join.c1 == p[|p| - 1] && join.c2 == p[i]) || (join.c1 == p[i] && join.c2 == p[|p| - 1])
    ensures cut.c1 in m && cut.c2 in m
    ensures Chain(Rewire(m, cut, None, None), p[i + 1..])
    ensures var m2 := FlipAll(Rewire(m, cut, None, None), p[i + 1..]);
      join.c1 in m2 && join.c2 in m2 &&
      PathShaped(Rewire(m2, join, Some(join.c1), Some(join.c2)), Exchange(p, i))
  {
    var n := |p|;
    RewireUnlinks(m, p, i, cut);
    PathShapedAt(m, p);
    assert PathAt(m, p, i) && PathAt(m, p, i + 1) && PathAt(m, p, n - 1);
    UnlinkChain(m, p, i);
    CutAndFlipAt(m, p, i, i);
    CutAndFlipAt(m, p, i, n - 1);
    var m2 := FlipAll(Unlink(m, p[i], p[i + 1]), p[i + 1..]);
    RewireLinks(m2, p[i], p[n - 1], p[n - 2], join);
    ExchangeNbrs(m, p, i);
  }

  // ---------------------------------------------------------------------
  // Lengths

  lemma LinkLenSymmetric(table: map<Key, Road>, a: City, b: City)
    requires WellKeyed(table)
    ensures LinkLen(table, a, b) == LinkLen(table, b, a)
  {
    LookupSymmetric(table, a, b);
  }

  lemma {:induction false} PathLenConcat(table: map<Key, Road>, a: seq<City>, b: seq<City>)
    requires a != [] && b != []
    ensures PathLen(table, a + b) == PathLen(table, a) + LinkLen(table, a[|a| - 1], b[0]) + PathLen(table, b)
    decreases |a|
  {
    if |a| == 1 {
      assert (a + b)[1..] == b;
    } else {
      assert (a + b)[1..] == a[1..] + b;
      PathLenConcat(table, a[1..], b);
    }
  }

  /** A path has the same length walked backwards. */
  lemma {:induction false} PathLenRev(table: map<Key, Road>, s: seq<City>)
    requires WellKeyed(table)
    ensures PathLen(table, Rev(s)) == PathLen(table, s)
    decreases |s|
  {
    if |s| >= 2 {
      assert Rev(s) == Rev(s[1..]) + [s[0]];
      PathLenRev(table, s[1..]);
      PathLenConcat(table, Rev(s[1..]), [s[0]]);
      LinkLenSymmetric(table, s[0], s[1]);
    }
  }

  /** An exchange trades the road `p[i] -- p[i+1]` for the road from the old
      last city to `p[i]`. */
  lemma ExchangeLen(table: map<Key, Road>, p: seq<City>, i: nat)
    requires WellKeyed(table) && i + 1 < |p|
    ensures PathLen(table, Exchange(p, i)) + LinkLen(table, p[i], p[i + 1])
         == PathLen(table, p) + LinkLen(table, p[|p| - 1], p[i])
  {
    var a, b := p[..i + 1], p[i + 1..];
    assert p == a + b;
    PathLenConcat(table, a, b);
    PathLenConcat(table, a, Rev(b));
    PathLenRev(table, b);
    LinkLenSymmetric(table, p[i], p[|p| - 1]);
  }

  /** The length of a closed tour does not depend on the direction. */
  lemma CycleLenRev(table: map<Key, Road>, c: seq<City>)
    requires WellKeyed(table)
    ensures CycleLen(table, Rev(c)) == CycleLen(table, c)
  {
    if c != [] {
      PathLenRev(table, c);
      LinkLenSymmetric(table, c[0], c[|c| - 1]);
    }
  }

  /** Opening a tour at the road into `c[j]` leaves a path that is shorter by
      exactly that road. */
  lemma CutCycleLen(table: map<Key, Road>, c: seq<City>, j: nat)
    requires j < |c|
    ensures PathLen(table, Rotate(c, j)) + LinkLen(table, c[Pred(|c|, j)], c[j]) == CycleLen(table, c)
  {
    if j == 0 {
      assert Rotate(c, j) == c;
    } else {
      assert c == c[..j] + c[j..];
      PathLenConcat(table, c[..j], c[j..]);
      PathLenConcat(table, c[j..], c[..j]);
    }
  }

  // ---------------------------------------------------------------------
  // Road sets

  /** Two different cities of a covered sequence have a road. */
  lemma CoversAt(table: map<Key, Road>, p: seq<City>, a: nat, b: nat)
    requires Covers(table, p) && Distinct(p) && a < |p| && b < |p| && a != b
    ensures Lookup(table, p[a], p[b]).Some?
  {
    assert p[a] in p && p[b] in p;
    DistinctAt(p, a, b);
  }

  lemma PathRoadAt(table: map<Key, Road>, p: seq<City>, k: nat)
    requires Covers(table, p) && Distinct(p) && k + 1 < |p|
    ensures Hop(table, p, k).Some?
    ensures Hop(table, p, k).value in PathRoads(table, p)
  {
    assert p[k] in p && p[k + 1] in p;
    DistinctAt(p, k, k + 1);
  }

  lemma CycleRoadAt(table: map<Key, Road>, c: seq<City>, k: nat)
    requires Covers(table, c) && Distinct(c) && k < |c| && |c| >= 2
    ensures CycleHop(table, c, k).Some?
    ensures CycleHop(table, c, k).value in CycleRoads(table, c)
  {
    assert c[k] in c && c[Succ(|c|, k)] in c;
    DistinctAt(c, k, Succ(|c|, k));
  }

  /** The road from the last city back to `p[i]`, where `p[i]` is neither
      the last city nor its neighbour on the path, is not a road of the path. */
  lemma JoinNotOnPath(table: map<Key, Road>, p: seq<City>, i: nat)
    requires WellKeyed(table) && Distinct(p) && i + 2 < |p| && Lookup(table, p[|p| - 1], p[i]).Some?
    ensures Lookup(table, p[|p| - 1], p[i]).value !in PathRoads(table, p)
  {
    var n, join := |p|, Lookup(table, p[|p| - 1], p[i]).value;
    if join in PathRoads(table, p) {
      var k: nat :| k + 1 < n && Hop(table, p, k).Some? && Hop(table, p, k).value == join;
      LookupInjective(table, p[k], p[k + 1], p[n - 1], p[i]);
      if p[k] == p[n - 1] {
        IndexUnique(p, k, n - 1);
      } else {
        IndexUnique(p, k + 1, n - 1);
        IndexUnique(p, k, i);
      }
    }
  }

  /** Two different links of a path carry two different roads. */
  lemma HopsDiffer(table: map<Key, Road>, p: seq<City>, a: nat, b: nat)
    requires WellKeyed(table) && Covers(table, p) && Distinct(p)
    requires a + 1 < |p| && b + 1 < |p| && a != b
    ensures Hop(table, p, a).Some? && Hop(table, p, b).Some?
    ensures Hop(table, p, a).value != Hop(table, p, b).value
  {
    PathRoadAt(table, p, a);
    PathRoadAt(table, p, b);
    if Hop(table, p, a).value == Hop(table, p, b).value {
      LookupInjective(table, p[a], p[a + 1], p[b], p[b + 1]);
      if p[a] == p[b] {
        DistinctAt(p, a, b);
      } else if a != b + 1 {
        DistinctAt(p, a, b + 1);
      } else {
        DistinctAt(p, a + 1, b);
      }
    }
  }

  /** A link of an exchanged path up to the pivot is an old link, or the new one. */
  lemma ExchangeHopHead(table: map<Key, Road>, p: seq<City>, i: nat, k: nat)
    requires k <= i && i + 1 < |p|
    ensures Hop(table, Exchange(p, i), k)
         == if k < i then Hop(table, p, k) else Lookup(table, p[i], p[|p| - 1])
  {
    var q := Exchange(p, i);
    assert q[k] == p[k];
    if k < i {
      assert q[k + 1] == p[k + 1];
    } else {
      assert q[i + 1] == p[|p| + i - (i + 1)];
    }
  }

  /** A link of the reversed tail of an exchanged path is an old link read backwards. */
  lemma ExchangeHopTail(table: map<Key, Road>, p: seq<City>, i: nat, k: nat)
    requires i < k && k + 1 < |p|
    ensures Hop(table, Exchange(p, i), k) == Lookup(table, p[|p| + i - k], p[|p| + i - k - 1])
  {
    var q := Exchange(p, i);
    assert q[k] == p[|p| + i - k];
    assert q[k + 1] == p[|p| + i - (k + 1)];
  }

  /** Each link of the exchanged path other than the new one at the pivot is
      an old link other than the cut one: position `k` before the pivot is
      itself, a position after it is the old link at `|p| + i - k - 1`. */
  lemma ExchangeHop(table: map<Key, Road>, p: seq<City>, i: nat, k: nat)
    requires WellKeyed(table) && i + 2 < |p| && k + 1 < |p|
    ensures var q, o := Exchange(p, i), if k < i then k else |p| + i - k - 1;
      (k == i ==> Hop(table, q, k) == Lookup(table, p[|p| - 1], p[i])) &&
      (k != i ==> o + 1 < |p| && o != i && Hop(table, q, k) == Hop(table, p, o))
  {
    var n := |p|;
    if k <= i {
      ExchangeHopHead(table, p, i, k);
      if k == i { LookupSymmetric(table, p[i], p[n - 1]); }
    } else {
      ExchangeHopTail(table, p, i, k);
      LookupSymmetric(table, p[n + i - k], p[n + i - k - 1]);
    }
  }

  /** A link of the exchanged path away from the pivot carries an old road
      other than the cut one. */
  lemma ExchangeKeptRoad(table: map<Key, Road>, p: seq<City>, i: nat, k: nat)
    requires WellKeyed(table) && Covers(table, p) && Distinct(p) && i + 2 < |p| && k + 1 < |p| && k != i
    ensures Hop(table, p, i).Some? && Hop(table, Exchange(p, i), k).Some?
    ensures Hop(table, Exchange(p, i), k).value in PathRoads(table, p)
    ensures Hop(table, Exchange(p, i), k).value != Hop(table, p, i).value
  {
    var o := if k < i then k else |p| + i - k - 1;
    ExchangeHop(table, p, i, k);
    PathRoadAt(table, p, o);
    HopsDiffer(table, p, o, i);
  }

  /** Every road of the exchanged path is the new road or an old road other
      than the cut one. */
  lemma ExchangeRoadsSub(table: map<Key, Road>, p: seq<City>, i: nat, r: Road)
    requires WellKeyed(table) && Covers(table, p) && Distinct(p) && i + 2 < |p|
    requires r in PathRoads(table, Exchange(p, i))
    ensures Hop(table, p, i).Some?
    ensures Lookup(table, p[|p| - 1], p[i]).Some? &&
            (r == Lookup(table, p[|p| - 1], p[i]).value
         || (r in PathRoads(table, p) && r != Hop(table, p, i).value))
  {
    var n, q := |p|, Exchange(p, i);
    CoversAt(table, p, i, i + 1);
    CoversAt(table, p, n - 1, i);
    var k: nat :| k + 1 < n && Hop(table, q, k).Some? && r == Hop(table, q, k).value;
    if k == i {
      ExchangeHop(table, p, i, k);
    } else {
      ExchangeKeptRoad(table, p, i, k);
    }
  }

  /** Every old road other than the cut one is still on the exchanged path. */
  lemma ExchangeRoadsSuper(table: map<Key, Road>, p: seq<City>, i: nat, r: Road)
    requires WellKeyed(table) && Covers(table, p) && Distinct(p) && i + 2 < |p|
    requires r in PathRoads(table, p)
    requires Hop(table, p, i).Some? && r != Hop(table, p, i).value
    ensures r in PathRoads(table, Exchange(p, i))
  {
    var n, q := |p|, Exchange(p, i);
    ExchangeSameCities(p, i);
    SameCitiesCovers(table, q, p);
    var k: nat :| k + 1 < n && Hop(table, p, k).Some? && r == Hop(table, p, k).value;
    if k < i {
      assert q[k] == p[k] && q[k + 1] == p[k + 1];
      PathRoadAt(table, q, k);
    } else {
      var k' := n + i - k - 1;
      assert q[k'] == p[k + 1] && q[k' + 1] == p[k];
      LookupSymmetric(table, p[k], p[k + 1]);
      PathRoadAt(table, q, k');
    }
  }

  /** An exchange removes the road `p[i] -- p[i+1]` and adds the road from
      the old last city to `p[i]`; every other road stays. */
  lemma ExchangeRoads(table: map<Key, Road>, p: seq<City>, i: nat)
    requires WellKeyed(table) && Covers(table, p) && Distinct(p) && i + 2 < |p|
    ensures Lookup(table, p[i], p[i + 1]).Some? && Lookup(table, p[|p| - 1], p[i]).Some?
    ensures PathRoads(table, Exchange(p, i))
         == PathRoads(table, p) - {Lookup(table, p[i], p[i + 1]).value}
            + {Lookup(table, p[|p| - 1], p[i]).value}
  {
    var n, q := |p|, Exchange(p, i);
    ExchangeSameCities(p, i);
    SameCitiesCovers(table, q, p);
    PathRoadAt(table, p, i);
    assert q[i] == p[i] && q[i + 1] == p[n - 1];
    PathRoadAt(table, q, i);
    LookupSymmetric(table, p[n - 1], p[i]);
    var lhs, rhs := PathRoads(table, q), PathRoads(table, p) - {Hop(table, p, i).value} + {Hop(table, q, i).value};
    forall r | r in lhs ensures r in rhs {
      ExchangeRoadsSub(table, p, i, r);
    }
    forall r | r in rhs ensures r in lhs {
      if r != Hop(table, q, i).value {
        ExchangeRoadsSuper(table, p, i, r);
      }
    }
  }

  // ---------------------------------------------------------------------
  // Opening a tour

  lemma FlipAllCycleAt(m: Nbrs, c: seq<City>, t: nat)
    requires CycleShaped(m, c) && t < |c|
    ensures Rev(c)[t] in FlipAll(m, c)
    ensures FlipAll(m, c)[Rev(c)[t]] == (Some(Rev(c)[Pred(|c|, t)]), Some(Rev(c)[Succ(|c|, t)]))
  {
    var n, r := |c|, Rev(c);
    var s := n - 1 - t;
    assert r[t] == c[s];
    assert m[c[s]] == (Some(c[Pred(n, s)]), Some(c[Succ(n, s)]));
    assert r[Pred(n, t)] == c[Succ(n, s)];
    assert r[Succ(n, t)] == c[Pred(n, s)];
  }

  /** Reversing every city of a tour links it the other way round. */
  lemma FlipAllCycle(m: Nbrs, c: seq<City>)
    requires CycleShaped(m, c) && Distinct(c)
    ensures CycleShaped(FlipAll(m, c), Rev(c))
  {
    var n, m2, r := |c|, FlipAll(m, c), Rev(c);
    RevSameCities(c);
    forall t | 0 <= t < n ensures m2[r[t]] == (Some(r[Pred(n, t)]), Some(r[Succ(n, t)])) {
      FlipAllCycleAt(m, c, t);
    }
  }

  /** A road of a tour sits at some position of the tour. */
  lemma CycleRoadIndex(table: map<Key, Road>, c: seq<City>, road: Road) returns (k: nat)
    requires road in CycleRoads(table, c)
    ensures k < |c| && CycleHop(table, c, k) == Some(road)
  {
    k :| k < |c| && CycleHop(table, c, k).Some? && CycleHop(table, c, k).value == road;
  }

  /** A tour uses the same roads in either direction. */
  lemma CycleRoadsRev(table: map<Key, Road>, c: seq<City>)
    requires WellKeyed(table)
    ensures CycleRoads(table, Rev(c)) == CycleRoads(table, c)
  {
    var n, r := |c|, Rev(c);
    forall road | road in CycleRoads(table, r) ensures road in CycleRoads(table, c) {
      var t := CycleRoadIndex(table, r, road);
      var s := if t + 1 < n then n - 2 - t else n - 1;
      assert r[t] == c[Succ(n, s)] && r[Succ(n, t)] == c[s];
      LookupSymmetric(table, c[s], c[Succ(n, s)]);
      assert CycleHop(table, c, s) == Some(road);
    }
    forall road | road in CycleRoads(table, c) ensures road in CycleRoads(table, r) {
      var s := CycleRoadIndex(table, c, road);
      var t := if s + 1 < n then n - 2 - s else n - 1;
      assert r[t] == c[Succ(n, s)] && r[Succ(n, t)] == c[s];
      LookupSymmetric(table, c[s], c[Succ(n, s)]);
      assert CycleHop(table, r, t) == Some(road);
    }
  }

  /** On a tour of at least three cities, `is_forward` holds for a road of
      the link `c[k] -> c[k+1]` exactly when the road is written in that
      direction, and `replace_neighbors(road, (None, None))` cuts that link. */
  lemma RewireCutsCycle(m: Nbrs, c: seq<City>, k: nat, road: Road)
    requires CycleShaped(m, c) && Distinct(c) && |c| >= 3 && k < |c|
    requires (road.c1 == c[k] && road.c2 == c[Succ(|c|, k)]) || (road.c1 == c[Succ(|c|, k)] && road.c2 == c[k])
    ensures road.c1 in m && road.c2 in m
    ensures IsFwd(m, road) <==> road.c1 == c[k]
    ensures Rewire(m, road, None, None) == Unlink(m, c[k], c[Succ(|c|, k)])
  {
    var n, j := |c|, Succ(|c|, k);
    assert m[c[k]] == (Some(c[Pred(n, k)]), Some(c[j]));
    assert m[c[j]] == (Some(c[k]), Some(c[Succ(n, j)]));
    DistinctAt(c, k, j);
    DistinctAt(c, Succ(n, j), k);
  }

  /** Position `t` of the rotation starting at `j` sits at `RotIdx(n, j, t)`
      of the tour; its neighbours sit at the tour's neighbouring positions. */
  lemma RotIdxStep(n: nat, j: nat, t: nat)
    requires j < n && t < n
    ensures t > 0 ==> RotIdx(n, j, t - 1) == Pred(n, RotIdx(n, j, t))
    ensures t + 1 < n ==> RotIdx(n, j, t + 1) == Succ(n, RotIdx(n, j, t))
  {
  }

  lemma CutCycleNbrsMid(m: Nbrs, c: seq<City>, j: nat, t: nat)
    requires |c| >= 3 && j < |c| && 0 < t < |c| - 1
    requires c[Pred(|c|, j)] in m && c[j] in m && RoundAt(m, c, RotIdx(|c|, j, t))
    requires c[RotIdx(|c|, j, t)] != c[j] && c[RotIdx(|c|, j, t)] != c[Pred(|c|, j)]
    ensures var r := Rotate(c, j);
      r[t] in Unlink(m, c[Pred(|c|, j)], c[j]) &&
      Unlink(m, c[Pred(|c|, j)], c[j])[r[t]] == (PrevIn(r, t), NextIn(r, t))
  {
    var n, r := |c|, Rotate(c, j);
    RotIdxStep(n, j, t);
    assert r[t] == c[RotIdx(n, j, t)];
    assert r[t - 1] == c[RotIdx(n, j, t - 1)];
    assert r[t + 1] == c[RotIdx(n, j, t + 1)];
  }

  lemma CutCycleNbrsEnds(m: Nbrs, c: seq<City>, j: nat, t: nat)
    requires |c| >= 3 && j < |c| && (t == 0 || t == |c| - 1)
    requires RoundAt(m, c, j) && RoundAt(m, c, Pred(|c|, j)) && c[Pred(|c|, j)] != c[j]
    ensures var r := Rotate(c, j);
      r[t] in Unlink(m, c[Pred(|c|, j)], c[j]) &&
      Unlink(m, c[Pred(|c|, j)], c[j])[r[t]] == (PrevIn(r, t), NextIn(r, t))
  {
    var n, r := |c|, Rotate(c, j);
    RotIdxStep(n, j, t);
    if t == 0 {
      assert r[0] == c[j] && r[1] == c[RotIdx(n, j, 1)];
    } else {
      assert r[t] == c[RotIdx(n, j, t)] && r[t - 1] == c[RotIdx(n, j, t - 1)];
    }
  }

  lemma CutCycleNbrsAt(m: Nbrs, c: seq<City>, j: nat, t: nat)
    requires Distinct(c) && |c| >= 3 && j < |c| && t < |c|
    requires RoundAt(m, c, j) && RoundAt(m, c, Pred(|c|, j)) && RoundAt(m, c, RotIdx(|c|, j, t))
    ensures var r := Rotate(c, j);
      r[t] in Unlink(m, c[Pred(|c|, j)], c[j]) &&
      Unlink(m, c[Pred(|c|, j)], c[j])[r[t]] == (PrevIn(r, t), NextIn(r, t))
  {
    var n, k := |c|, Pred(|c|, j);
    DistinctAt(c, k, j);
    if t == 0 || t + 1 == n {
      CutCycleNbrsEnds(m, c, j, t);
    } else {
      var s := RotIdx(n, j, t);
      DistinctAt(c, s, j);
      DistinctAt(c, s, k);
      CutCycleNbrsMid(m, c, j, t);
    }
  }

  /** Opening a tour at the link `c[j-1] -> c[j]` leaves the path from `c[j]`
      round to `c[j-1]`. */
  lemma CutCycleNbrs(m: Nbrs, c: seq<City>, j: nat)
    requires SameKeys(m, c) && RoundFrom(m, c, 0) && Distinct(c) && |c| >= 3 && j < |c|
    ensures c[Pred(|c|, j)] in m && c[j] in m
    ensures PathShaped(Unlink(m, c[Pred(|c|, j)], c[j]), Rotate(c, j))
  {
    CutCycleNbrsAll(m, c, j);
    RotateSameCities(c, j);
  }

  lemma CutCycleNbrsAll(m: Nbrs, c: seq<City>, j: nat)
    requires RoundFrom(m, c, 0) && Distinct(c) && |c| >= 3 && j < |c|
    ensures c[Pred(|c|, j)] in m && c[j] in m
    ensures var r, m2 := Rotate(c, j), Unlink(m, c[Pred(|c|, j)], c[j]);
      forall t :: 0 <= t < |r| ==> r[t] in m2 && m2[r[t]] == (PrevIn(r, t), NextIn(r, t))
  {
    RoundFromAll(m, c, 0);
    var n := |c|;
    assert RoundAt(m, c, j) && RoundAt(m, c, Pred(n, j));
    var r, m2 := Rotate(c, j), Unlink(m, c[Pred(n, j)], c[j]);
    forall t | 0 <= t < |r| ensures r[t] in m2 && m2[r[t]] == (PrevIn(r, t), NextIn(r, t)) {
      assert RoundAt(m, c, RotIdx(n, j, t));
      CutCycleNbrsAt(m, c, j, t);
    }
  }

  lemma CutCycleRoadsSub(table: map<Key, Road>, c: seq<City>, j: nat, road: Road)
    requires WellKeyed(table) && Covers(table, c) && Distinct(c) && |c| >= 3 && j < |c|
    requires road in PathRoads(table, Rotate(c, j))
    ensures CycleHop(table, c, Pred(|c|, j)).Some?
    ensures road in CycleRoads(table, c) && road != CycleHop(table, c, Pred(|c|, j)).value
  {
    var n, k, r := |c|, Pred(|c|, j), Rotate(c, j);
    CycleRoadAt(table, c, k);
    var t: nat :| t + 1 < n && Hop(table, r, t).Some? && Hop(table, r, t).value == road;
    var s := if j + t < n then j + t else j + t - n;
    assert r[t] == c[s] && r[t + 1] == c[Succ(n, s)];
    CycleRoadAt(table, c, s);
    assert s != k;
    if road == CycleHop(table, c, k).value {
      LookupInjective(table, c[s], c[Succ(n, s)], c[k], c[j]);
      DistinctAt(c, s, k);
      if s != j { DistinctAt(c, s, j); } else { DistinctAt(c, Succ(n, s), k); }
    }
  }

  lemma CutCycleRoadsSuper(table: map<Key, Road>, c: seq<City>, j: nat, road: Road)
    requires WellKeyed(table) && Covers(table, c) && Distinct(c) && |c| >= 3 && j < |c|
    requires road in CycleRoads(table, c)
    requires CycleHop(table, c, Pred(|c|, j)) != Some(road)
    ensures road in PathRoads(table, Rotate(c, j))
  {
    var n, r := |c|, Rotate(c, j);
    RotateSameCities(c, j);
    SameCitiesCovers(table, r, c);
    var s := CycleRoadIndex(table, c, road);
    var t := if s >= j then s - j else s + n - j;
    assert r[t] == c[s] && r[t + 1] == c[Succ(n, s)];
    PathRoadAt(table, r, t);
  }

  /** Opening a tour removes exactly the cut road from its road set. */
  lemma CutCycleRoads(table: map<Key, Road>, c: seq<City>, j: nat)
    requires WellKeyed(table) && Covers(table, c) && Distinct(c) && |c| >= 3 && j < |c|
    ensures CycleHop(table, c, Pred(|c|, j)).Some?
    ensures PathRoads(table, Rotate(c, j)) == CycleRoads(table, c) - {CycleHop(table, c, Pred(|c|, j)).value}
  {
    CycleRoadAt(table, c, Pred(|c|, j));
    forall road | road in PathRoads(table, Rotate(c, j))
      ensures road in CycleRoads(table, c) - {CycleHop(table, c, Pred(|c|, j)).value}
    {
      CutCycleRoadsSub(table, c, j, road);
    }
    forall road | road in CycleRoads(table, c) - {CycleHop(table, c, Pred(|c|, j)).value}
      ensures road in PathRoads(table, Rotate(c, j))
    {
      CutCycleRoadsSuper(table, c, j, road);
    }
  }

  /** Cutting the tour's link `d[j] -> d[j + 1]` with
      `replace_neighbors(road, (None, None))` leaves the links of the path
      that starts at `d[j + 1]` and ends at `d[j]`; `is_forward` tells
      which end of `road` is `d[j]`. */
  lemma OpenLinks(m: Nbrs, d: seq<City>, j: nat, road: Road)
    requires SameKeys(m, d) && RoundFrom(m, d, 0) && Distinct(d) && |d| >= 3 && j < |d|
    requires (road.c1 == d[j] && road.c2 == d[Succ(|d|, j)]) || (road.c1 == d[Succ(|d|, j)] && road.c2 == d[j])
    ensures road.c1 in m && road.c2 in m
    ensures IsFwd(m, road) <==> road.c1 == d[j]
    ensures var p := Rotate(d, Succ(|d|, j));
      SameKeys(Rewire(m, road, None, None), p) && LinkedFrom(Rewire(m, road, None, None), p, 0)
  {
    var s := Succ(|d|, j);
    assert Pred(|d|, s) == j;
    CutCycleNbrs(m, d, s);
    LinkedCycle(m, d);
    RewireCutsCycle(m, d, j, road);
    LinkedPath(Rewire(m, road, None, None), Rotate(d, s));
  }

  /** Opening a tour at the road `d[j] -- d[j + 1]` leaves the path from
      `d[j + 1]` round to `d[j]`, without that road and shorter by its
      length; closing that path again gives the tour's length back. */
  lemma OpenRoadsLen(table: map<Key, Road>, d: seq<City>, j: nat)
    requires WellKeyed(table) && Covers(table, d) && Distinct(d) && |d| >= 3 && j < |d|
    ensures CycleHop(table, d, j).Some?
    ensures var p, road := Rotate(d, Succ(|d|, j)), CycleHop(table, d, j).value;
      p[0] == d[Succ(|d|, j)] && p[|p| - 1] == d[j] &&
      PathRoads(table, p) == CycleRoads(table, d) - {road} &&
      PathLen(table, p) == CycleLen(table, d) - road.length &&
      CycleLen(table, p) == CycleLen(table, d)
  {
    var n, s := |d|, Succ(|d|, j);
    assert Pred(n, s) == j;
    CutCycleRoads(table, d, s);
    CutCycleLen(table, d, s);
    var p := Rotate(d, s);
    if s == 0 {
      assert p[n - 1] == d[n - 1];
    } else {
      assert p[n - 1] == d[s - 1];
    }
  }
}
