/** The character trie below one first letter of one last-letter partition (TrieNode and the
    trie routines of GeographyGame). A node's own character is the key under which its parent
    holds it, so the model keeps it only as that key. */
module Tries {

  import opened Wrappers
  import opened Cities

  /** TrieNode: the isCity flag, the records whose whole name ends at this node (several
      records may share a name), and the children keyed by the next character. */
  datatype Trie = Trie(isCity: bool, cities: seq<City>, children: map<char, Trie>)

  /** A freshly allocated `new TrieNode(c)`. */
  const Empty: Trie := Trie(false, [], map[])

  /** The child under `a`, or a fresh node where the map has none (the "get, else create"
      step of the insertion code). */
  function ChildOrEmpty(t: Trie, a: char): Trie {
    if a in t.children then t.children[a] else Empty
  }

  // ------------------------------------------------------------------------------------------
  // Invariants

  /** At every node, isCity holds exactly when the node stores at least one record. */
  ghost predicate Valid(t: Trie) {
    && t.isCity == (|t.cities| > 0)
    && forall a :: a in t.children ==> Valid(t.children[a])
  }

  /** No dead node strictly below `t`: every descendant is terminal or has children. The node
      `t` itself may be dead (a first-letter node is never pruned). */
  ghost predicate Live(t: Trie) {
    forall a :: a in t.children ==>
      && (t.children[a].isCity || |t.children[a].children| > 0)
      && Live(t.children[a])
  }

  /** Every record at the node reached from `t` by path `p` is named `prefix + p`, and every
      such name ends with `last` (the partition key). */
  ghost predicate Stored(t: Trie, prefix: string, last: char) {
    && (forall i :: 0 <= i < |t.cities| ==> t.cities[i].name == prefix)
    && (|t.cities| > 0 ==> |prefix| > 0 && prefix[|prefix| - 1] == last)
    && forall a :: a in t.children ==> Stored(t.children[a], prefix + [a], last)
  }

  // ------------------------------------------------------------------------------------------
  // Abstract views: the records stored at each path, and the multiset of all records

  /** The node reached by following `p` from `t`, if every step has a child. */
  function NodeAt(t: Trie, p: string): Option<Trie>
    decreases |p|
  {
    if |p| == 0 then Some(t)
    else if p[0] in t.children then NodeAt(t.children[p[0]], p[1..])
    else None
  }

  /** The records stored under path `p` (none when the path does not exist). */
  function CitiesAt(t: Trie, p: string): seq<City> {
    match NodeAt(t, p)
    case Some(n) => n.cities
    case None => []
  }

  /** All records stored in `t`, counted with multiplicity. */
  ghost function Records(t: Trie): multiset<City>
    decreases t, 1
  {
    multiset(t.cities) + RecordsOf(t, t.children.Keys)
  }

  /** The records stored below the children of `t` named by `keys`. */
  ghost function RecordsOf(t: Trie, keys: set<char>): multiset<City>
    requires keys <= t.children.Keys
    decreases t, 0, keys
  {
    if keys == {} then multiset{}
    else
      var a :| a in keys;
      Records(t.children[a]) + RecordsOf(t, keys - {a})
  }

  /** The records below every child of `t` except the one under `a`. */
  ghost function RecordsBeside(t: Trie, a: char): multiset<City> {
    RecordsOf(t, t.children.Keys - {a})
  }

  lemma RecordsOfPick(t: Trie, keys: set<char>, a: char)
    requires keys <= t.children.Keys && a in keys
    ensures RecordsOf(t, keys) == Records(t.children[a]) + RecordsOf(t, keys - {a})
    decreases |keys|
  {
    assert exists b :: b in keys && RecordsOf(t, keys) == Records(t.children[b]) + RecordsOf(t, keys - {b});
    var b :| b in keys && RecordsOf(t, keys) == Records(t.children[b]) + RecordsOf(t, keys - {b});
    if b != a {
      var rest := keys - {b} - {a};
      assert keys - {a} - {b} == rest;
      RecordsOfPick(t, keys - {b}, a);
      RecordsOfPick(t, keys - {a}, b);
      assert RecordsOf(t, keys) == Records(t.children[b]) + (Records(t.children[a]) + RecordsOf(t, rest));
      assert RecordsOf(t, keys - {a}) == Records(t.children[b]) + RecordsOf(t, rest);
    }
  }

  lemma RecordsOfFrame(t: Trie, u: Trie, keys: set<char>)
    requires keys <= t.children.Keys && keys <= u.children.Keys
    requires forall a :: a in keys ==> t.children[a] == u.children[a]
    ensures RecordsOf(t, keys) == RecordsOf(u, keys)
    decreases |keys|
  {
    if keys != {} {
      assert exists b :: b in keys && RecordsOf(t, keys) == Records(t.children[b]) + RecordsOf(t, keys - {b});
      var b :| b in keys && RecordsOf(t, keys) == Records(t.children[b]) + RecordsOf(t, keys - {b});
      RecordsOfPick(u, keys, b);
      RecordsOfFrame(t, u, keys - {b});
    }
  }

  /** The records of `t` split at one child. */
  lemma RecordsSplit(t: Trie, a: char)
    requires a in t.children
    ensures Records(t) == multiset(t.cities) + Records(t.children[a]) + RecordsBeside(t, a)
  {
    RecordsOfPick(t, t.children.Keys, a);
  }

  /** The records of `t` without the child under `a` (absent or not). */
  lemma RecordsWithout(t: Trie, a: char)
    requires a !in t.children
    ensures Records(t) == multiset(t.cities) + RecordsBeside(t, a)
  {
    assert t.children.Keys - {a} == t.children.Keys;
  }

  /** Replacing, adding or dropping the child under `a` changes only that child's share. */
  lemma RecordsReplaceChild(t: Trie, a: char, v: Trie)
    ensures Records(t.(children := t.children[a := v])) == multiset(t.cities) + Records(v) + RecordsBeside(t, a)
    ensures Records(t.(children := t.children - {a})) == multiset(t.cities) + RecordsBeside(t, a)
  {
    var u := t.(children := t.children[a := v]);
    RecordsOfPick(u, u.children.Keys, a);
    assert u.children.Keys - {a} == t.children.Keys - {a};
    RecordsOfFrame(u, t, t.children.Keys - {a});
    var w := t.(children := t.children - {a});
    assert w.children.Keys == t.children.Keys - {a};
    RecordsOfFrame(w, t, t.children.Keys - {a});
  }

  /** Changing only the records stored at `t` itself leaves the share of its children alone. */
  lemma RecordsSetCities(t: Trie, cs: seq<City>, b: bool)
    ensures Records(t.(isCity := b, cities := cs)) == multiset(cs) + Records(t) - multiset(t.cities)
  {
    RecordsOfFrame(t.(isCity := b, cities := cs), t, t.children.Keys);
  }

  /** A dead node stores nothing at any path. */
  lemma DeadStoresNothing(n: Trie, q: string)
    requires Valid(n) && !n.isCity && |n.children| == 0
    ensures CitiesAt(n, q) == []
    ensures Records(n) == multiset{}
  {
  }

  /** Following one more character is looking inside that child. */
  lemma CitiesAtCons(t: Trie, q: string)
    requires |q| > 0
    ensures CitiesAt(t, q) == CitiesAt(ChildOrEmpty(t, q[0]), q[1..])
  {
    if q[0] !in t.children {
      if |q[1..]| > 0 {
        assert NodeAt(Empty, q[1..]) == None;
      }
    }
  }

  /** Every record stored at a path is one of the records of the trie. */
  lemma {:induction false} CitiesAtInRecords(t: Trie, p: string)
    ensures multiset(CitiesAt(t, p)) <= Records(t)
    decreases |p|
  {
    if |p| > 0 {
      CitiesAtCons(t, p);
      if p[0] in t.children {
        CitiesAtInRecords(t.children[p[0]], p[1..]);
        RecordsSplit(t, p[0]);
      }
    }
  }

  // ------------------------------------------------------------------------------------------
  // Insertion (insertNode, and the per-record step of loadData at the first-letter node)

  /** insertNode(curNode, cn, parseName): walks or creates one child per character of
      `suffix` and stores the record at the last one; an empty suffix is a no-op. */
  function InsertNode(t: Trie, c: City, suffix: string): (r: Trie)
    ensures |suffix| == 0 ==> r == t
    ensures r.isCity == t.isCity && r.cities == t.cities
    ensures |suffix| > 0 ==> CitiesAt(r, suffix) == CitiesAt(t, suffix) + [c]
    decreases |suffix|
  {
    if |suffix| == 0 then t
    else
      CitiesAtCons(t, suffix);
      var child := ChildOrEmpty(t, suffix[0]);
      var child' := if |suffix| > 1 then InsertNode(child, c, suffix[1..])
                    else child.(isCity := true, cities := child.cities + [c]);
      var r := t.(children := t.children[suffix[0] := child']);
      CitiesAtCons(r, suffix);
      r
  }

  /** The insertion step of loadData at the first-letter node: a one-letter name is stored
      at that node itself, a longer one through insertNode with the rest of the name. */
  function Store(t: Trie, c: City, p: string): (r: Trie)
    ensures CitiesAt(r, p) == CitiesAt(t, p) + [c]
  {
    if |p| == 0 then t.(isCity := true, cities := t.cities + [c])
    else InsertNode(t, c, p)
  }

  lemma InsertNodeStep(t: Trie, c: City, p: string)
    requires |p| > 0
    ensures Store(t, c, p) == t.(children := t.children[p[0] := Store(ChildOrEmpty(t, p[0]), c, p[1..])])
  {
  }

  /** Storing a record appends it to the records at exactly path `p`; every other path keeps
      its records. */
  lemma {:induction false} StoreCitiesAt(t: Trie, c: City, p: string)
    ensures forall q :: CitiesAt(Store(t, c, p), q) == if q == p then CitiesAt(t, p) + [c] else CitiesAt(t, q)
    decreases |p|
  {
    var r := Store(t, c, p);
    if |p| == 0 {
      forall q ensures CitiesAt(r, q) == if q == p then CitiesAt(t, p) + [c] else CitiesAt(t, q) {
        if |q| > 0 {
          CitiesAtCons(r, q);
          CitiesAtCons(t, q);
        }
      }
    } else {
      var child := ChildOrEmpty(t, p[0]);
      InsertNodeStep(t, c, p);
      StoreCitiesAt(child, c, p[1..]);
      forall q ensures CitiesAt(r, q) == if q == p then CitiesAt(t, p) + [c] else CitiesAt(t, q) {
        if |q| > 0 {
          CitiesAtCons(r, q);
          CitiesAtCons(t, q);
          if q[0] == p[0] {
            assert (q == p) == (q[1..] == p[1..]);
          }
        } else {
          assert NodeAt(r, q) == Some(r);
        }
      }
    }
  }

  /** Storing a record adds exactly that record to the trie's contents. */
  lemma {:induction false} StoreRecords(t: Trie, c: City, p: string)
    ensures Records(Store(t, c, p)) == Records(t) + multiset{c}
    decreases |p|
  {
    if |p| == 0 {
      RecordsSetCities(t, t.cities + [c], true);
    } else {
      var child := ChildOrEmpty(t, p[0]);
      InsertNodeStep(t, c, p);
      StoreRecords(child, c, p[1..]);
      RecordsReplaceChild(t, p[0], Store(child, c, p[1..]));
      if p[0] in t.children {
        RecordsSplit(t, p[0]);
      } else {
        RecordsWithout(t, p[0]);
        assert Records(Empty) == multiset{};
      }
    }
  }

  /** Storing keeps isCity in step with the records, and leaves no dead node: the node that
      receives the record is terminal and every node on the way has a child. */
  lemma {:induction false} StoreWellFormed(t: Trie, c: City, p: string)
    requires Valid(t) && Live(t)
    ensures Valid(Store(t, c, p)) && Live(Store(t, c, p))
    ensures Store(t, c, p).isCity || |Store(t, c, p).children| > 0
    decreases |p|
  {
    if |p| > 0 {
      var child := ChildOrEmpty(t, p[0]);
      InsertNodeStep(t, c, p);
      StoreWellFormed(child, c, p[1..]);
    }
  }

  /** A record stored at its own name's path keeps every record at its own name. */
  lemma {:induction false} StoreStored(t: Trie, c: City, prefix: string, p: string, last: char)
    requires Stored(t, prefix, last)
    requires c.name == prefix + p && |c.name| > 0 && Last(c.name) == last
    ensures Stored(Store(t, c, p), prefix, last)
    decreases |p|
  {
    if |p| > 0 {
      var child := ChildOrEmpty(t, p[0]);
      InsertNodeStep(t, c, p);
      assert c.name == (prefix + [p[0]]) + p[1..];
      StoreStored(child, c, prefix + [p[0]], p[1..], last);
    }
  }

  // ------------------------------------------------------------------------------------------
  // Exact lookup (findCityInTrie)

  /** findCityInTrie(tn, name): follows the characters of `name`; a missing child means no. */
  function FindCityInTrie(t: Trie, name: string): (r: bool)
    ensures r ==> NodeAt(t, name).Some?
    decreases |name|
  {
    if |name| > 0 then name[0] in t.children && FindCityInTrie(t.children[name[0]], name[1..])
    else t.isCity
  }

  /** findCityInTrie answers yes exactly when the whole path exists and ends at a terminal. */
  lemma {:induction false} FindCityPath(t: Trie, name: string)
    ensures FindCityInTrie(t, name) <==> NodeAt(t, name).Some? && NodeAt(t, name).value.isCity
    decreases |name|
  {
    if |name| > 0 && name[0] in t.children {
      FindCityPath(t.children[name[0]], name[1..]);
    }
  }

  /** In a valid trie, findCityInTrie answers yes exactly when a record is stored at the path. */
  lemma {:induction false} FindCityStored(t: Trie, name: string)
    requires Valid(t)
    ensures FindCityInTrie(t, name) <==> |CitiesAt(t, name)| > 0
    decreases |name|
  {
    if |name| > 0 {
      CitiesAtCons(t, name);
      if name[0] in t.children {
        FindCityStored(t.children[name[0]], name[1..]);
      }
    }
  }

  // ------------------------------------------------------------------------------------------
  // Removal with pruning (removeCityFromTrie)

  /** removeCityFromTrie(tn, city): descends along `p`, drops the first record of the
      terminal (clearing isCity when none is left), and on the way back up removes each
      visited child that is neither terminal nor has children. */
  function RemoveCityFromTrie(t: Trie, p: string): (r: Trie)
    requires |CitiesAt(t, p)| > 0
    ensures |p| > 0 ==> r.isCity == t.isCity && r.cities == t.cities
    ensures r.children.Keys <= t.children.Keys
    ensures |r.cities| == |t.cities| - (if |p| == 0 then 1 else 0)
    decreases |p|
  {
    if |p| == 0 then
      var rest := t.cities[1..];
      t.(cities := rest, isCity := if |rest| == 0 then false else t.isCity)
    else
      CitiesAtCons(t, p);
      var child := RemoveCityFromTrie(t.children[p[0]], p[1..]);
      if !child.isCity && |child.children| == 0 then t.(children := t.children - {p[0]})
      else t.(children := t.children[p[0] := child])
  }

  lemma {:induction false} RemoveValid(t: Trie, p: string)
    requires Valid(t) && |CitiesAt(t, p)| > 0
    ensures Valid(RemoveCityFromTrie(t, p))
    decreases |p|
  {
    if |p| > 0 {
      CitiesAtCons(t, p);
      RemoveValid(t.children[p[0]], p[1..]);
    }
  }

  /** Removal drops the first record stored at `p` and nothing else: every other path keeps
      its records, and the pruned nodes held none. */
  lemma {:induction false} RemoveCitiesAt(t: Trie, p: string)
    requires Valid(t) && |CitiesAt(t, p)| > 0
    ensures forall q :: CitiesAt(RemoveCityFromTrie(t, p), q) == if q == p then CitiesAt(t, p)[1..] else CitiesAt(t, q)
    decreases |p|
  {
    var r := RemoveCityFromTrie(t, p);
    if |p| == 0 {
      forall q ensures CitiesAt(r, q) == if q == p then CitiesAt(t, p)[1..] else CitiesAt(t, q) {
        if |q| > 0 {
          CitiesAtCons(r, q);
          CitiesAtCons(t, q);
        }
      }
    } else {
      CitiesAtCons(t, p);
      var child := t.children[p[0]];
      var child' := RemoveCityFromTrie(child, p[1..]);
      RemoveCitiesAt(child, p[1..]);
      RemoveValid(child, p[1..]);
      forall q ensures CitiesAt(r, q) == if q == p then CitiesAt(t, p)[1..] else CitiesAt(t, q) {
        if |q| > 0 {
          CitiesAtCons(r, q);
          CitiesAtCons(t, q);
          if q[0] == p[0] {
            assert (q == p) == (q[1..] == p[1..]);
            if !child'.isCity && |child'.children| == 0 {
              DeadStoresNothing(child', q[1..]);
            }
          }
        } else {
          assert NodeAt(r, q) == Some(r);
        }
      }
    }
  }

  /** Removal takes exactly the first record stored at `p` out of the trie's contents. */
  lemma {:induction false} RemoveRecords(t: Trie, p: string)
    requires Valid(t) && |CitiesAt(t, p)| > 0
    ensures Records(RemoveCityFromTrie(t, p)) + multiset{CitiesAt(t, p)[0]} == Records(t)
    decreases |p|
  {
    if |p| == 0 {
      RemoveRecordsHere(t);
    } else {
      CitiesAtCons(t, p);
      var child := t.children[p[0]];
      RemoveRecords(child, p[1..]);
      RemoveValid(child, p[1..]);
      RemoveRecordsStep(t, p);
    }
  }

  lemma RemoveRecordsHere(t: Trie)
    requires |t.cities| > 0
    ensures Records(RemoveCityFromTrie(t, [])) + multiset{t.cities[0]} == Records(t)
  {
    assert t.cities == [t.cities[0]] + t.cities[1..];
    RecordsSetCities(t, t.cities[1..], if |t.cities[1..]| == 0 then false else t.isCity);
  }

  lemma RemoveRecordsStep(t: Trie, p: string)
    requires |p| > 0 && p[0] in t.children && |CitiesAt(t.children[p[0]], p[1..])| > 0
    requires Valid(RemoveCityFromTrie(t.children[p[0]], p[1..]))
    requires Records(RemoveCityFromTrie(t.children[p[0]], p[1..])) + multiset{CitiesAt(t.children[p[0]], p[1..])[0]}
             == Records(t.children[p[0]])
    ensures |CitiesAt(t, p)| > 0
    ensures Records(RemoveCityFromTrie(t, p)) + multiset{CitiesAt(t, p)[0]} == Records(t)
  {
    CitiesAtCons(t, p);
    var child := t.children[p[0]];
    var child' := RemoveCityFromTrie(child, p[1..]);
    RecordsSplit(t, p[0]);
    if !child'.isCity && |child'.children| == 0 {
      DeadStoresNothing(child', []);
      RecordsReplaceChild(t, p[0], child');
      assert RemoveCityFromTrie(t, p) == t.(children := t.children - {p[0]});
    } else {
      RecordsReplaceChild(t, p[0], child');
      assert RemoveCityFromTrie(t, p) == t.(children := t.children[p[0] := child']);
    }
  }

  /** Removal leaves no dead node below the trie's root. */
  lemma {:induction false} RemoveLive(t: Trie, p: string)
    requires Valid(t) && Live(t) && |CitiesAt(t, p)| > 0
    ensures Live(RemoveCityFromTrie(t, p))
    decreases |p|
  {
    if |p| > 0 {
      CitiesAtCons(t, p);
      var child := RemoveCityFromTrie(t.children[p[0]], p[1..]);
      RemoveLive(t.children[p[0]], p[1..]);
      var r := RemoveCityFromTrie(t, p);
      forall b | b in r.children ensures (r.children[b].isCity || |r.children[b].children| > 0) && Live(r.children[b]) {
        if b == p[0] {
          assert r.children[b] == child;
        } else {
          assert r.children[b] == t.children[b];
        }
      }
    }
  }

  /** Removal keeps every remaining record at its own name's path. */
  lemma {:induction false} RemoveStored(t: Trie, p: string, prefix: string, last: char)
    requires Stored(t, prefix, last) && |CitiesAt(t, p)| > 0
    ensures Stored(RemoveCityFromTrie(t, p), prefix, last)
    decreases |p|
  {
    if |p| > 0 {
      CitiesAtCons(t, p);
      RemoveStored(t.children[p[0]], p[1..], prefix + [p[0]], last);
    }
  }

  // ------------------------------------------------------------------------------------------
  // Any-record search (getCityNameFromTrie, getCityNameFromTrieNotEqualCity)

  lemma LeastKeyExists(s: set<char>)
    requires |s| > 0
    ensures exists a :: a in s && forall b :: b in s ==> a <= b
  {
    var x :| x in s;
    if s != {x} {
      LeastKeyExists(s - {x});
      var m :| m in s - {x} && forall b :: b in s - {x} ==> m <= b;
      var w := if x < m then x else m;
      forall b | b in s ensures w <= b {
        if b != x { assert b in s - {x}; }
      }
    } else {
      assert forall b :: b in s ==> x <= b;
    }
  }

  /** The child the search descends into. Java takes the first value in HashMap order; the
      model fixes that order as the least key. */
  function FirstKey(m: map<char, Trie>): (a: char)
    requires |m| > 0
    ensures a in m && forall b :: b in m ==> a <= b
  {
    LeastKeyExists(m.Keys);
    var a :| a in m && forall b :: b in m ==> a <= b; a
  }

  /** getCityNameFromTrie(tn): the first record of a terminal node, else nothing at a
      childless node, else the search result of one child. */
  function AnyRecord(t: Trie): (r: Option<City>)
    requires Valid(t)
    ensures r.Some? ==> FirstAtSomePath(t, r.value)
  {
    if t.isCity then assert CitiesAt(t, []) == t.cities; Some(t.cities[0])
    else if |t.children| == 0 then None
    else
      var a := FirstKey(t.children);
      var r := AnyRecord(t.children[a]);
      if r.Some? then FirstAtParent(t, a, r.value); r else r
  }

  /** `c` is the first record stored at some path of `t`. */
  ghost predicate FirstAtSomePath(t: Trie, c: City) {
    exists p :: |CitiesAt(t, p)| > 0 && CitiesAt(t, p)[0] == c
  }

  lemma FirstAtParent(t: Trie, a: char, c: City)
    requires a in t.children && FirstAtSomePath(t.children[a], c)
    ensures FirstAtSomePath(t, c)
  {
    var p :| |CitiesAt(t.children[a], p)| > 0 && CitiesAt(t.children[a], p)[0] == c;
    CitiesAtCons(t, [a] + p);
    assert ([a] + p)[1..] == p;
  }

  lemma {:induction false} AnyRecordIn(t: Trie)
    requires Valid(t) && AnyRecord(t).Some?
    ensures AnyRecord(t).value in Records(t)
  {
    if !t.isCity {
      var a := FirstKey(t.children);
      AnyRecordIn(t.children[a]);
      RecordsSplit(t, a);
    }
  }

  /** getCityNameFromTrieNotEqualCity(tn, notEqualCity): at this node only, skips a record
      with the excluded geonameid in slot 0 and tries slot 1; otherwise it falls back to the
      plain search of one child, where nothing is excluded. */
  function AnyRecordExcluding(t: Trie, notEqual: City): (r: Option<City>)
    requires Valid(t)
    ensures !t.isCity ==> r == AnyRecord(t)
    ensures AnyRecord(t).Some? && !SameCity(AnyRecord(t).value, notEqual) ==> r.Some?
  {
    if t.isCity && !SameCity(t.cities[0], notEqual) then Some(t.cities[0])
    else if t.isCity && |t.cities| > 1 && !SameCity(t.cities[1], notEqual) then Some(t.cities[1])
    else if |t.children| == 0 then None
    else AnyRecord(t.children[FirstKey(t.children)])
  }

  /** The record the search returns is stored in the trie, at the path its own name spells
      below `prefix`, as the first record there; so it starts with `prefix` and ends with the
      partition key. */
  lemma {:induction false} AnyRecordFound(t: Trie, prefix: string, last: char, c: City)
    requires Valid(t) && Stored(t, prefix, last) && AnyRecord(t) == Some(c)
    ensures |c.name| > 0 && |c.name| >= |prefix| && c.name[..|prefix|] == prefix && Last(c.name) == last
    ensures |CitiesAt(t, c.name[|prefix|..])| > 0 && CitiesAt(t, c.name[|prefix|..])[0] == c
    ensures c in Records(t)
  {
    if t.isCity {
      StoredOwn(t, prefix, last, c);
      assert c.name[|prefix|..] == [];
      assert c in multiset(t.cities);
    } else {
      var a := FirstKey(t.children);
      AnyRecordFound(t.children[a], prefix + [a], last, c);
      FoundBelow(t, prefix, a, c);
    }
  }

  /** A record found below the child under `a`, at the path its name spells, is found in
      `t` at the path one letter longer. */
  lemma FoundBelow(t: Trie, prefix: string, a: char, c: City)
    requires a in t.children && |c.name| >= |prefix| + 1 && c.name[..|prefix| + 1] == prefix + [a]
    requires c in Records(t.children[a])
    ensures c.name[..|prefix|] == prefix
    ensures CitiesAt(t, c.name[|prefix|..]) == CitiesAt(t.children[a], c.name[|prefix| + 1..])
    ensures c in Records(t)
  {
    PrefixShorten(c.name, prefix, a);
    var path := c.name[|prefix| + 1..];
    assert c.name[|prefix|..] == [a] + path;
    CitiesAtCons(t, [a] + path);
    assert ([a] + path)[1..] == path;
    RecordsSplit(t, a);
  }

  /** A record stored under a live node keeps that node non-empty. */
  lemma {:induction false} LiveNodeHasRecords(n: Trie)
    requires Valid(n) && Live(n) && (n.isCity || |n.children| > 0)
    ensures Records(n) != multiset{}
  {
    if !n.isCity {
      var a :| a in n.children;
      LiveNodeHasRecords(n.children[a]);
      RecordsSplit(n, a);
    }
  }

  /** In a trie with no dead node below it, the search finds a record exactly when the trie
      holds one (the child it picks never matters). */
  lemma {:induction false} AnyRecordFindsIff(t: Trie)
    requires Valid(t) && Live(t)
    ensures AnyRecord(t).Some? <==> Records(t) != multiset{}
  {
    if AnyRecord(t).Some? {
      AnyRecordIn(t);
    } else if !t.isCity {
      if |t.children| == 0 {
        DeadStoresNothing(t, []);
      } else {
        var a := FirstKey(t.children);
        AnyRecordFindsIff(t.children[a]);
        LiveNodeHasRecords(t.children[a]);
      }
    }
  }

  /** What the excluding search returns is stored in the trie below `prefix`; it differs
      from the excluded city by geonameid, unless it came from a child, where the exclusion
      is not applied. */
  lemma {:induction false} AnyRecordExcludingFound(t: Trie, prefix: string, last: char, x: City, c: City)
    requires Valid(t) && Stored(t, prefix, last) && AnyRecordExcluding(t, x) == Some(c)
    ensures c in Records(t)
    ensures |c.name| > 0 && |c.name| >= |prefix| && c.name[..|prefix|] == prefix && Last(c.name) == last
    ensures !SameCity(c, x) || |c.name| > |prefix|
  {
    if t.isCity && !SameCity(t.cities[0], x) {
      assert c == t.cities[0];
      StoredOwn(t, prefix, last, c);
      assert c in multiset(t.cities);
    } else if t.isCity && |t.cities| > 1 && !SameCity(t.cities[1], x) {
      assert c == t.cities[1];
      StoredOwn(t, prefix, last, c);
      assert c in multiset(t.cities);
    } else {
      var a := FirstKey(t.children);
      AnyRecordFound(t.children[a], prefix + [a], last, c);
      FoundBelow(t, prefix, a, c);
    }
  }

  /** When record ids are distinct, the excluding search finds something whenever the trie
      holds a record with a geonameid other than the excluded one. */
  lemma {:induction false} AnyRecordExcludingComplete(t: Trie, x: City, e: City)
    requires Valid(t) && Live(t) && DistinctIds(Records(t))
    requires e in Records(t) && !SameCity(e, x)
    ensures AnyRecordExcluding(t, x).Some?
  {
    if |t.children| == 0 {
      assert Records(t) == multiset(t.cities);
      SlotsNotAllExcluded(t.cities, Records(t), x, e);
    }
    if t.isCity && !SameCity(t.cities[0], x) {
    } else if t.isCity && |t.cities| > 1 && !SameCity(t.cities[1], x) {
    } else if |t.children| > 0 {
      var a := FirstKey(t.children);
      LiveNodeHasRecords(t.children[a]);
      AnyRecordFindsIff(t.children[a]);
    } else {
      assert false;
    }
  }

  /** With distinct ids, the first two records of a list cannot both carry the excluded id
      when the list holds a record without it. */
  lemma SlotsNotAllExcluded(cs: seq<City>, m: multiset<City>, x: City, e: City)
    requires DistinctIds(m) && multiset(cs) <= m
    requires e in cs && !SameCity(e, x)
    ensures (|cs| > 0 && !SameCity(cs[0], x)) || (|cs| > 1 && !SameCity(cs[1], x))
  {
    if SameCity(cs[0], x) && |cs| > 1 {
      assert cs == [cs[0], cs[1]] + cs[2..];
      assert cs[0] in m && cs[1] in m;
    }
  }

  /** The exclusion is honoured only at the entry node: a trie whose single record sits one
      level down hands back the very city it was asked to exclude. */
  lemma ExclusionStopsAtEntry(x: City, a: char)
    ensures AnyRecordExcluding(Trie(false, [], map[a := Trie(true, [x], map[])]), x) == Some(x)
  {
    var t := Trie(false, [], map[a := Trie(true, [x], map[])]);
    assert FirstKey(t.children) == a;
  }

  // ------------------------------------------------------------------------------------------
  // Where a record sits

  /** A record in the share of `keys` sits below one of those children. */
  lemma RecordsOfMember(t: Trie, keys: set<char>, x: City)
    requires keys <= t.children.Keys && x in RecordsOf(t, keys)
    ensures exists a :: a in keys && x in Records(t.children[a])
    decreases |keys|
  {
    var a :| a in keys;
    RecordsOfPick(t, keys, a);
    if x !in Records(t.children[a]) {
      RecordsOfMember(t, keys - {a}, x);
    }
  }

  /** Every record of a well-stored trie is named by a path below `prefix` and ends with the
      partition key. */
  lemma {:induction false} StoredRecords(t: Trie, prefix: string, last: char, x: City)
    requires Stored(t, prefix, last) && x in Records(t)
    ensures |x.name| >= |prefix| && x.name[..|prefix|] == prefix
    ensures |x.name| > 0 && Last(x.name) == last
    decreases t
  {
    if x in t.cities {
      StoredOwn(t, prefix, last, x);
    } else {
      RecordsOfMember(t, t.children.Keys, x);
      var a :| a in t.children && x in Records(t.children[a]);
      StoredRecords(t.children[a], prefix + [a], last, x);
      PrefixShorten(x.name, prefix, a);
    }
  }

  lemma StoredOwn(t: Trie, prefix: string, last: char, x: City)
    requires Stored(t, prefix, last) && x in t.cities
    ensures x.name == prefix && |prefix| > 0 && Last(prefix) == last
  {
    var i :| 0 <= i < |t.cities| && t.cities[i] == x;
  }

  lemma PrefixShorten(n: string, prefix: string, a: char)
    requires |n| >= |prefix| + 1 && n[..|prefix| + 1] == prefix + [a]
    ensures n[..|prefix|] == prefix
  {
    assert n[..|prefix|] == n[..|prefix| + 1][..|prefix|];
  }

  // ------------------------------------------------------------------------------------------
  // The exclusion the game rules ask for: any record other than a given city, at any depth

  /** The least character of a non-empty set. */
  function LeastOf(keys: set<char>): (a: char)
    requires |keys| > 0
    ensures a in keys && forall b :: b in keys ==> a <= b
  {
    LeastKeyExists(keys);
    var a :| a in keys && forall b :: b in keys ==> a <= b; a
  }

  /** The first record of `cs` whose geonameid differs from that of `x`. */
  function FirstOther(cs: seq<City>, x: City): (r: Option<City>)
    ensures r.Some? ==> r.value in cs && !SameCity(r.value, x)
    ensures r.None? ==> forall c :: c in cs ==> SameCity(c, x)
  {
    if |cs| == 0 then None
    else if !SameCity(cs[0], x) then Some(cs[0])
    else
      assert forall c :: c in cs ==> c == cs[0] || c in cs[1..];
      FirstOther(cs[1..], x)
  }

  /** A record of `t` with a geonameid other than that of `x`: the node's own records first,
      then the children in key order. */
  function AnyRecordOtherThan(t: Trie, x: City): (r: Option<City>)
    decreases t, 1
  {
    match FirstOther(t.cities, x)
    case Some(c) => Some(c)
    case None => OtherAmong(t, x, t.children.Keys)
  }

  /** The search of AnyRecordOtherThan over the children named by `keys`, least key first. */
  function OtherAmong(t: Trie, x: City, keys: set<char>): (r: Option<City>)
    requires keys <= t.children.Keys
    decreases t, 0, keys
  {
    if keys == {} then None
    else
      var a := LeastOf(keys);
      match AnyRecordOtherThan(t.children[a], x)
      case Some(c) => Some(c)
      case None => OtherAmong(t, x, keys - {a})
  }

  /** The search finds a record exactly when `t` holds one with another geonameid, and what
      it finds is such a record. */
  lemma {:induction false} AnyRecordOtherThanIff(t: Trie, x: City)
    ensures AnyRecordOtherThan(t, x).Some? ==>
      AnyRecordOtherThan(t, x).value in Records(t) && !SameCity(AnyRecordOtherThan(t, x).value, x)
    ensures AnyRecordOtherThan(t, x).None? <==> forall c :: c in Records(t) ==> SameCity(c, x)
    decreases t, 1
  {
    OtherAmongIff(t, x, t.children.Keys);
    if FirstOther(t.cities, x).None? {
      forall c | c in Records(t) && c !in RecordsOf(t, t.children.Keys) ensures SameCity(c, x) {
        assert c in t.cities;
      }
    }
  }

  lemma {:induction false} OtherAmongIff(t: Trie, x: City, keys: set<char>)
    requires keys <= t.children.Keys
    ensures OtherAmong(t, x, keys).Some? ==>
      OtherAmong(t, x, keys).value in RecordsOf(t, keys) && !SameCity(OtherAmong(t, x, keys).value, x)
    ensures OtherAmong(t, x, keys).None? <==> forall c :: c in RecordsOf(t, keys) ==> SameCity(c, x)
    decreases t, 0, keys
  {
    if keys != {} {
      var a := LeastOf(keys);
      RecordsOfPick(t, keys, a);
      AnyRecordOtherThanIff(t.children[a], x);
      OtherAmongIff(t, x, keys - {a});
    }
  }

}
