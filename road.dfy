/** Cities and roads (road.py, city.py).

    A city is an opaque value with equality; its `key` stands for the display
    string that city.py compares cities by. A road is the ordered pair of the
    cities it was built from plus a length fixed at construction. Lengths are
    abstract non-negative numbers here instead of Euclidean distances. */
module RoadDef {

  datatype Option<T> = None | Some(value: T)

  datatype City = City(key: int)

  /** Display order of cities: what `City.__cmp__` decides by comparing strings. */
  predicate CityLess(a: City, b: City) {
    a.key < b.key
  }

  datatype Road = Road(c1: City, c2: City, length: nat) {

    /** The road seen as the two-element list `[city1, city2]`. */
    function Ends(): (s: seq<City>)
      ensures |s| == 2 && s[0] == c1 && s[1] == c2
    {
      [c1, c2]
    }

    predicate Has(c: City) {
      c == c1 || c == c2
    }

    /** `Road.other`: the city at the other end, or None for a non-endpoint. */
    function Other(c: City): (r: Option<City>)
      ensures r.None? <==> !Has(c)
      ensures r.Some? ==> Has(r.value)
      ensures c == c1 ==> r == Some(c2)
      ensures c == c2 && c != c1 ==> r == Some(c1)
    {
      if c !in Ends() then None
      else if c1 == c then Some(c2) else Some(c1)
    }

    predicate Lt(other: Road) { length < other.length }

    predicate Le(other: Road) { length <= other.length }

    predicate Gt(other: Road) { length > other.length }

    /** `Road.__ge__` exactly as written: it tests `<=`. */
    predicate GeAsWritten(other: Road) { length <= other.length }

    /** The comparison `__ge__` is evidently meant to be. */
    predicate Ge(other: Road) { length >= other.length }
  }

  /** `Road.__init__`: the endpoints in construction order and the given length. */
  function NewRoad(a: City, b: City, dist: (City, City) -> nat): (r: Road)
    ensures r.Ends() == [a, b]
    ensures r.length == dist(a, b)
  {
    Road(a, b, dist(a, b))
  }

  /** `other` sends each endpoint to the opposite one. */
  lemma OtherSwapsEnds(r: Road)
    requires r.c1 != r.c2
    ensures r.Other(r.c1) == Some(r.c2)
    ensures r.Other(r.c2) == Some(r.c1)
    ensures r.Other(r.Other(r.c1).value) == Some(r.c1)
  {
  }

  /** Equality is on the ordered endpoints and the length: reversing a road
      gives a different road. */
  lemma ReversedRoadDiffers(a: City, b: City, len: nat)
    requires a != b
    ensures Road(a, b, len) != Road(b, a, len)
    ensures Road(a, b, len).Ends() != Road(b, a, len).Ends()
  {
  }

  /** The three consistent comparisons are the length order. */
  lemma ComparisonsByLength(x: Road, y: Road)
    ensures x.Lt(y) <==> y.Gt(x)
    ensures x.Le(y) <==> (x.Lt(y) || x.length == y.length)
    ensures x.Le(y) || y.Le(x)
  {
  }

  /** As written, `>=` disagrees with `>` on roads of lengths 2 and 1:
      the longer road is `>` the shorter one but not `>=` it. */
  lemma GeAsWrittenDisagreesWithGt()
    ensures Road(City(0), City(1), 2).Gt(Road(City(1), City(2), 1))
    ensures !Road(City(0), City(1), 2).GeAsWritten(Road(City(1), City(2), 1))
  {
  }

  /** The corrected `>=` is `>` or equal length, and the converse of `<=`. */
  lemma GeIsConverseOfLe(x: Road, y: Road)
    ensures x.Ge(y) <==> y.Le(x)
    ensures x.Ge(y) <==> (x.Gt(y) || x.length == y.length)
    ensures x.Ge(y) <==> !x.Lt(y)
  {
  }
}
