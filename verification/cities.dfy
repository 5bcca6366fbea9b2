/** One row of the world-cities dataset (CityNode) and the letters the game keys on. */
module Cities {

  /** A city record. `id` is the geonameid; Java compares CityNodes by it (CityNode.equals). */
  datatype City = City(name: string, country: string, subcountry: string, id: int)

  /** CityNode.equals: two records denote the same city when their geonameids agree. */
  predicate SameCity(a: City, b: City) {
    a.id == b.id
  }

  /** The first letter of a name, standing for `name.substring(0, 1)`. Java takes one UTF-16
      code unit there; a `char` here is a whole Unicode scalar value, so the two agree only
      for characters of the Basic Multilingual Plane. */
  function First(name: string): char
    requires |name| > 0
  {
    name[0]
  }

  /** The last letter of a name, standing for `name.substring(name.length() - 1)`, with the
      same proviso as `First`. */
  function Last(name: string): char
    requires |name| > 0
  {
    name[|name| - 1]
  }

  /** A name is its first letter followed by the rest (`substring(0, 1)` and `substring(1)`),
      and the rest of it followed by its last letter. */
  lemma SplitAtLetters(name: string)
    requires |name| > 0
    ensures name == [First(name)] + name[1..]
    ensures name == name[..|name| - 1] + [Last(name)]
  {
  }

  /** No two stored records share a geonameid (and no record is stored twice). The dataset
      promises this; the loader never checks it, so it is a hypothesis where it is needed. */
  ghost predicate DistinctIds(m: multiset<City>) {
    && (forall a :: a in m ==> m[a] == 1)
    && (forall a, b :: a in m && b in m && a.id == b.id ==> a == b)
  }

  /** Part of a store with distinct ids has distinct ids. */
  lemma DistinctIdsWithin(m: multiset<City>, n: multiset<City>)
    requires DistinctIds(n) && m <= n
    ensures DistinctIds(m)
  {
    forall a | a in m ensures m[a] == 1 {
      assert a in n;
    }
  }

}
