/** The partitioned index of GeographyGame: one NodeHead per last letter (headNodeList with
    its alias headNodeMap), each holding the first-letter tries of the names ending in that
    letter, and the per-first-letter counts (firstLetterList with its alias firstLetterMap).
    Operations: the per-record step of loadData and the final sort, lookupCity and
    removeCity. */
module Index {

  import opened Wrappers
  import opened Cities
  import opened Tries
  import opened Ordering

  /** NodeHead: the partition of the names ending in `key`, the number of records it holds,
      and the first-letter nodes keyed by first letter. */
  datatype Head = Head(key: char, count: int, children: map<char, Trie>)

  /** Letter: the number of records whose name starts with `key`. */
  datatype Letter = Letter(key: char, count: int)

  /** The two lists; the two HashMaps hold the very same entries, so a map lookup is the
      first list entry with that key. */
  datatype GameState = GameState(heads: seq<Head>, letters: seq<Letter>)

  const Initial: GameState := GameState([], [])

  function HeadKey(h: Head): char { h.key }
  function HeadCount(h: Head): int { h.count }
  function LetterKey(l: Letter): char { l.key }
  function LetterCount(l: Letter): int { l.count }

  /** The head's children seen as one trie node that stores no record itself. */
  function Root(h: Head): Trie {
    Trie(false, [], h.children)
  }

  /** headNodeMap.get(k). */
  function Partition(s: GameState, k: char): Option<Head> {
    Lookup(s.heads, HeadKey, k)
  }

  /** nbrOfCities of the partition for last letter `k` (0 when there is none). */
  function PartitionTotal(s: GameState, k: char): int {
    HeadTally(s.heads, k)
  }

  /** The count the partition list holds for `k` (0 when it has no entry). */
  function HeadTally(heads: seq<Head>, k: char): int {
    match Lookup(heads, HeadKey, k)
    case Some(h) => h.count
    case None => 0
  }

  /** nbrOfCities of firstLetterMap.get(f) (0 when there is none). */
  function LetterTotal(s: GameState, f: char): int {
    Tally(s.letters, f)
  }

  /** The count the first-letter list holds for `f` (0 when it has no entry). */
  function Tally(letters: seq<Letter>, f: char): int {
    match Lookup(letters, LetterKey, f)
    case Some(l) => l.count
    case None => 0
  }

  /** The records stored under the full name `name`, in insertion order. */
  function Stock(s: GameState, name: string): seq<City>
    requires |name| > 0
  {
    match Partition(s, Last(name))
    case Some(h) => CitiesAt(Root(h), name)
    case None => []
  }

  // ------------------------------------------------------------------------------------------
  // Record views and the invariant

  ghost function HeadRecords(h: Head): multiset<City> {
    Records(Root(h))
  }

  /** The records of partition `h` that start with `f`. */
  ghost function UnderOf(h: Head, f: char): multiset<City> {
    if f in h.children then Records(h.children[f]) else multiset{}
  }

  /** UnderOf as a function of the partition, for totals over the list. */
  ghost function Under(f: char): Head -> multiset<City> {
    (h: Head) => UnderOf(h, f)
  }

  /** Every record held by the index. */
  ghost function AllRecords(s: GameState): multiset<City> {
    Gather(s.heads, HeadRecords)
  }

  /** The records whose name starts with `f`, over all partitions. */
  ghost function StartingWith(s: GameState, f: char): multiset<City> {
    Gather(s.heads, Under(f))
  }

  /** The shape of a partition's tries: isCity iff records at every node, no dead node below
      the first-letter level, and every record named by its path and ending in the key. */
  ghost predicate Shaped(h: Head) {
    && Valid(Root(h))
    && (forall a :: a in h.children ==> Live(h.children[a]))
    && Stored(Root(h), [], h.key)
  }

  /** A partition: well shaped, with a positive count equal to its stored records. */
  ghost predicate HeadOk(h: Head) {
    && h.count > 0
    && h.count == |HeadRecords(h)|
    && Shaped(h)
  }

  /** The state every load step keeps. */
  ghost predicate Consistent(s: GameState) {
    && UniqueKeys(s.heads, HeadKey)
    && UniqueKeys(s.letters, LetterKey)
    && (forall h :: h in s.heads ==> HeadOk(h))
    && (forall l :: l in s.letters ==> l.count > 0)
    && (forall f :: LetterTotal(s, f) == |StartingWith(s, f)|)
  }

  /** The state between moves: consistent, and both lists ascending by count. */
  ghost predicate Inv(s: GameState) {
    && Consistent(s)
    && Ascending(s.heads, HeadCount)
    && Ascending(s.letters, LetterCount)
  }

  lemma UnderInHead(h: Head, f: char)
    ensures UnderOf(h, f) <= HeadRecords(h)
  {
    if f in h.children {
      RecordsSplit(Root(h), f);
    }
  }

  /** Every partition entry in a consistent state is the map's answer for its key. */
  lemma PartitionOf(s: GameState, h: Head)
    requires Consistent(s) && h in s.heads
    ensures Partition(s, h.key) == Some(h) && HeadOk(h)
  {
    LookupUnique(s.heads, HeadKey, h);
  }

  /** The records under one partition and one first letter are part of both totals. */
  lemma UnderInTotals(s: GameState, h: Head, f: char)
    requires h in s.heads
    ensures UnderOf(h, f) <= StartingWith(s, f)
    ensures HeadRecords(h) <= AllRecords(s)
  {
    GatherMember(s.heads, Under(f), h);
    GatherMember(s.heads, HeadRecords, h);
  }

  // ------------------------------------------------------------------------------------------
  // lookupCity

  /** The test lookupCity applies to one partition. */
  predicate Holds(h: Head, name: string)
    requires |name| > 0
  {
    && h.key == Last(name)
    && h.count > 0
    && name[0] in h.children
    && FindCityInTrie(h.children[name[0]], name[1..])
  }

  /** The scan of lookupCity from index `i` on: the first passing index, or -1. */
  function LookupFrom(heads: seq<Head>, name: string, i: nat): (r: int)
    requires |name| > 0 && i <= |heads|
    ensures r == -1 || i <= r < |heads|
    ensures r >= 0 ==> Holds(heads[r], name)
    ensures forall j :: i <= j < |heads| && (r == -1 || j < r) ==> !Holds(heads[j], name)
    decreases |heads| - i
  {
    if i == |heads| then -1
    else if Holds(heads[i], name) then i
    else LookupFrom(heads, name, i + 1)
  }

  /** lookupCity(city): the index of the partition holding `name`, or -1 for an empty name
      or a name no partition holds. */
  function LookupCity(s: GameState, name: string): (r: int)
    ensures -1 <= r < |s.heads|
    ensures |name| == 0 ==> r == -1
    ensures r >= 0 ==> |name| > 0 && Holds(s.heads[r], name)
    ensures r >= 0 ==> forall j :: 0 <= j < r ==> !Holds(s.heads[j], name)
    ensures r == -1 && |name| > 0 ==> forall j :: 0 <= j < |s.heads| ==> !Holds(s.heads[j], name)
  {
    if |name| == 0 then -1 else LookupFrom(s.heads, name, 0)
  }

  /** lookupCity finds a name exactly when a record of that name is stored, and then it finds
      the partition of the name's last letter. */
  lemma LookupIff(s: GameState, name: string)
    requires Consistent(s) && |name| > 0
    ensures LookupCity(s, name) >= 0 <==> |Stock(s, name)| > 0
    ensures LookupCity(s, name) >= 0 ==> Partition(s, Last(name)) == Some(s.heads[LookupCity(s, name)])
  {
    var i := LookupCity(s, name);
    if i >= 0 {
      var h := s.heads[i];
      PartitionOf(s, h);
      CitiesAtCons(Root(h), name);
      FindCityStored(h.children[name[0]], name[1..]);
    } else if Partition(s, Last(name)).Some? {
      var h := Partition(s, Last(name)).value;
      var j :| 0 <= j < |s.heads| && s.heads[j] == h;
      PartitionOf(s, h);
      CitiesAtCons(Root(h), name);
      if name[0] in h.children {
        FindCityStored(h.children[name[0]], name[1..]);
        assert !Holds(h, name);
      } else {
        DeadStoresNothing(Empty, name[1..]);
      }
    }
  }

  // ------------------------------------------------------------------------------------------
  // removeCity

  /** What removeCity needs to run without an exception: lookupCity finds the name, the
      terminal has a record to drop, and firstLetterMap has an entry for the first letter. */
  predicate Removable(s: GameState, name: string) {
    && |name| > 0
    && LookupCity(s, name) >= 0
    && |CitiesAt(s.heads[LookupCity(s, name)].children[name[0]], name[1..])| > 0
    && Lookup(s.letters, LetterKey, name[0]).Some?
  }

  /** The partition after one record named `name` is dropped from it. */
  function Drained(h: Head, name: string): (r: Head)
    requires |name| > 0 && name[0] in h.children && |CitiesAt(h.children[name[0]], name[1..])| > 0
    ensures r.key == h.key && r.count == h.count - 1
  {
    h.(count := h.count - 1,
       children := h.children[name[0] := RemoveCityFromTrie(h.children[name[0]], name[1..])])
  }

  /** The partition list after the record is dropped from entry `i`: the entry is deleted
      when its count reaches zero, otherwise the list is re-sorted. */
  function DropHead(heads: seq<Head>, name: string, i: int): (r: seq<Head>)
    requires 0 <= i < |heads| && |name| > 0 && name[0] in heads[i].children
    requires |CitiesAt(heads[i].children[name[0]], name[1..])| > 0
    ensures forall h :: h in r ==> h in heads || (h == Drained(heads[i], name) && heads[i].count != 1)
  {
    SettleMembers(heads, i, Drained(heads[i], name), HeadCount);
    Settle(heads, i, Drained(heads[i], name), HeadCount)
  }

  /** The first-letter list after the count of `f` is decremented: the entry is deleted
      at zero, otherwise the list is re-sorted. */
  function DropLetter(letters: seq<Letter>, f: char): (r: seq<Letter>)
    requires Lookup(letters, LetterKey, f).Some?
    ensures var l := Lookup(letters, LetterKey, f).value;
      multiset(r) == multiset(letters) - multiset{l} + if l.count == 1 then multiset{} else multiset{l.(count := l.count - 1)}
  {
    var li := Position(letters, LetterKey, f);
    var l := letters[li];
    assert Lookup(letters, LetterKey, f).value == l;
    assert LetterCount(l.(count := l.count - 1)) == 0 <==> l.count == 1;
    Settle(letters, li, l.(count := l.count - 1), LetterCount)
  }

  /** removeCity(city): drops the first record stored under `name`, decrements the partition
      count and the first-letter count, deleting each entry at zero. */
  function RemoveCity(s: GameState, name: string): (r: GameState)
    requires Removable(s, name)
    ensures |r.heads| <= |s.heads| && |r.letters| <= |s.letters|
  {
    GameState(DropHead(s.heads, name, LookupCity(s, name)), DropLetter(s.letters, name[0]))
  }

  /** In a consistent state, every name lookupCity finds can be removed. */
  lemma FoundIsRemovable(s: GameState, name: string)
    requires Consistent(s) && LookupCity(s, name) >= 0
    ensures Removable(s, name)
  {
    var h := s.heads[LookupCity(s, name)];
    PartitionOf(s, h);
    FindCityStored(h.children[name[0]], name[1..]);
    var c := CitiesAt(h.children[name[0]], name[1..])[0];
    CitiesAtInRecords(h.children[name[0]], name[1..]);
    assert c in UnderOf(h, name[0]);
    UnderInTotals(s, h, name[0]);
  }

  /** The first-letter node under `a` of a well-shaped partition is itself well formed. */
  lemma ShapedChild(h: Head, a: char)
    requires Shaped(h) && a in h.children
    ensures Valid(h.children[a]) && Live(h.children[a]) && Stored(h.children[a], [a], h.key)
  {
    assert [] + [a] == [a];
  }

  /** Putting a well-formed node under `a` keeps the partition well shaped. */
  lemma ShapedReplace(h: Head, a: char, v: Trie)
    requires Shaped(h) && Valid(v) && Live(v) && Stored(v, [a], h.key)
    ensures Shaped(h.(children := h.children[a := v]))
  {
    var h' := h.(children := h.children[a := v]);
    forall b | b in h'.children
      ensures Valid(h'.children[b]) && Live(h'.children[b]) && Stored(h'.children[b], [b], h'.key)
    {
      if b != a {
        ShapedChild(h, b);
      }
    }
    ShapedOfChildren(h');
  }

  /** A partition is well shaped when every first-letter node is. */
  lemma ShapedOfChildren(h: Head)
    requires forall b :: b in h.children ==> Valid(h.children[b]) && Live(h.children[b]) && Stored(h.children[b], [b], h.key)
    ensures Shaped(h)
  {
    forall b | b in h.children ensures Stored(h.children[b], [] + [b], h.key) {
      assert [] + [b] == [b];
    }
  }

  /** Putting `v` under `a`: the records change only below `a`. */
  lemma ReplaceChildRecords(h: Head, a: char, v: Trie)
    ensures HeadRecords(h.(children := h.children[a := v])) + UnderOf(h, a) == HeadRecords(h) + Records(v)
    ensures UnderOf(h.(children := h.children[a := v]), a) == Records(v)
    ensures forall f :: f != a ==> UnderOf(h.(children := h.children[a := v]), f) == UnderOf(h, f)
  {
    var h' := h.(children := h.children[a := v]);
    assert Root(h') == Root(h).(children := Root(h).children[a := v]);
    RecordsReplaceChild(Root(h), a, v);
    if a in h.children {
      RecordsSplit(Root(h), a);
    } else {
      RecordsWithout(Root(h), a);
    }
  }

  /** Putting `v` under `a`: the names stored change only below `a`. */
  lemma ReplaceChildCities(h: Head, a: char, v: Trie)
    ensures forall m :: |m| > 0 ==>
      CitiesAt(Root(h.(children := h.children[a := v])), m) == (if m[0] == a then CitiesAt(v, m[1..]) else CitiesAt(Root(h), m))
  {
    var h' := h.(children := h.children[a := v]);
    forall m | |m| > 0
      ensures CitiesAt(Root(h'), m) == if m[0] == a then CitiesAt(v, m[1..]) else CitiesAt(Root(h), m)
    {
      CitiesAtCons(Root(h'), m);
      CitiesAtCons(Root(h), m);
    }
  }

  /** Two non-empty names are equal exactly when first letters and rests are. */
  lemma NameSplit(m: string, name: string)
    requires |m| > 0 && |name| > 0 && m[0] == name[0]
    ensures m == name <==> m[1..] == name[1..]
  {
    assert m == [m[0]] + m[1..];
    assert name == [name[0]] + name[1..];
  }

  /** The drained partition loses exactly the first record stored under the name. */
  lemma DrainedFacts(h: Head, name: string)
    requires HeadOk(h) && |name| > 0 && name[0] in h.children
    requires |CitiesAt(h.children[name[0]], name[1..])| > 0
    ensures CitiesAt(Root(h), name) == CitiesAt(h.children[name[0]], name[1..])
    ensures HeadRecords(Drained(h, name)) + multiset{CitiesAt(Root(h), name)[0]} == HeadRecords(h)
    ensures UnderOf(Drained(h, name), name[0]) + multiset{CitiesAt(Root(h), name)[0]} == UnderOf(h, name[0])
    ensures forall f :: f != name[0] ==> UnderOf(Drained(h, name), f) == UnderOf(h, f)
    ensures Drained(h, name).count > 0 ==> HeadOk(Drained(h, name))
    ensures Drained(h, name).count == 0 ==> HeadRecords(Drained(h, name)) == multiset{}
  {
    var a, p := name[0], name[1..];
    var node := h.children[a];
    var v := RemoveCityFromTrie(node, p);
    CitiesAtCons(Root(h), name);
    ShapedChild(h, a);
    RemoveRecords(node, p);
    RemoveValid(node, p);
    RemoveLive(node, p);
    RemoveStored(node, p, [a], h.key);
    ReplaceChildRecords(h, a, v);
    ShapedReplace(h, a, v);
    var c0 := CitiesAt(Root(h), name)[0];
    var d := Drained(h, name);
    Cancel(HeadRecords(d) + multiset{c0}, HeadRecords(h), Records(v));
  }

  /** The drained partition stores the same names, less the dropped record. */
  lemma DrainedStock(h: Head, name: string)
    requires HeadOk(h) && |name| > 0 && name[0] in h.children
    requires |CitiesAt(h.children[name[0]], name[1..])| > 0
    ensures forall m :: |m| > 0 ==>
      CitiesAt(Root(Drained(h, name)), m) == if m == name then CitiesAt(Root(h), name)[1..] else CitiesAt(Root(h), m)
  {
    var a, p := name[0], name[1..];
    var node := h.children[a];
    var v := RemoveCityFromTrie(node, p);
    CitiesAtCons(Root(h), name);
    ShapedChild(h, a);
    RemoveCitiesAt(node, p);
    ReplaceChildCities(h, a, v);
    forall m | |m| > 0
      ensures CitiesAt(Root(Drained(h, name)), m) == if m == name then CitiesAt(Root(h), name)[1..] else CitiesAt(Root(h), m)
    {
      if m[0] == a {
        NameSplit(m, name);
        CitiesAtCons(Root(h), m);
      }
    }
  }

  /** The partition side of removeCity: keys stay unique, entries stay well formed and
      ascending, and only the name's partition changes. */
  lemma DropHeadLookup(heads: seq<Head>, name: string, i: int)
    requires 0 <= i < |heads| && |name| > 0 && name[0] in heads[i].children
    requires |CitiesAt(heads[i].children[name[0]], name[1..])| > 0
    requires heads[i].key == Last(name) && heads[i] in heads && HeadOk(heads[i])
    requires UniqueKeys(heads, HeadKey) && Ascending(heads, HeadCount)
    requires forall h :: h in heads ==> HeadOk(h)
    ensures UniqueKeys(DropHead(heads, name, i), HeadKey)
    ensures Ascending(DropHead(heads, name, i), HeadCount)
    ensures forall h :: h in DropHead(heads, name, i) ==> HeadOk(h)
    ensures var d := Drained(heads[i], name);
      forall k :: Lookup(DropHead(heads, name, i), HeadKey, k)
               == if k != Last(name) then Lookup(heads, HeadKey, k) else if d.count == 0 then None else Some(d)
  {
    var d := Drained(heads[i], name);
    DrainedFacts(heads[i], name);
    SettleLookup(heads, i, d, HeadKey, HeadCount);
    SettleMembers(heads, i, d, HeadCount);
  }

  /** The total after removeCity's partition step: exactly the dropped record leaves it. */
  lemma DropHeadAll(heads: seq<Head>, name: string, i: int)
    requires 0 <= i < |heads| && |name| > 0 && name[0] in heads[i].children
    requires |CitiesAt(heads[i].children[name[0]], name[1..])| > 0
    requires HeadOk(heads[i])
    ensures Gather(DropHead(heads, name, i), HeadRecords) + multiset{CitiesAt(Root(heads[i]), name)[0]}
         == Gather(heads, HeadRecords)
  {
    var d := Drained(heads[i], name);
    DrainedFacts(heads[i], name);
    GatherSettle(heads, i, d, HeadCount, HeadRecords);
    Cancel(Gather(DropHead(heads, name, i), HeadRecords) + multiset{CitiesAt(Root(heads[i]), name)[0]},
           Gather(heads, HeadRecords), HeadRecords(d));
  }

  /** The records starting with `f` after removeCity's partition step: the dropped record
      leaves the total of its own first letter and no other. */
  lemma DropHeadUnder(heads: seq<Head>, name: string, i: int, f: char)
    requires 0 <= i < |heads| && |name| > 0 && name[0] in heads[i].children
    requires |CitiesAt(heads[i].children[name[0]], name[1..])| > 0
    requires HeadOk(heads[i])
    ensures Gather(DropHead(heads, name, i), Under(f))
            + (if f == name[0] then multiset{CitiesAt(Root(heads[i]), name)[0]} else multiset{})
         == Gather(heads, Under(f))
  {
    var h := heads[i];
    var d := Drained(h, name);
    var extra := if f == name[0] then multiset{CitiesAt(Root(h), name)[0]} else multiset{};
    DrainedFacts(h, name);
    UnderInHead(d, f);
    assert Under(f)(h) == UnderOf(h, f) && Under(f)(d) == UnderOf(d, f);
    assert UnderOf(d, f) + extra == UnderOf(h, f);
    SettleTotal(heads, i, d, HeadCount, Under(f), extra);
  }

  /** The first-letter side of removeCity: keys stay unique, counts positive and ascending,
      and exactly the count of `f` drops by one. */
  lemma DropLetterFacts(letters: seq<Letter>, f: char)
    requires Lookup(letters, LetterKey, f).Some?
    requires UniqueKeys(letters, LetterKey) && Ascending(letters, LetterCount)
    requires forall l :: l in letters ==> l.count > 0
    ensures UniqueKeys(DropLetter(letters, f), LetterKey)
    ensures Ascending(DropLetter(letters, f), LetterCount)
    ensures forall l :: l in DropLetter(letters, f) ==> l.count > 0
    ensures var l := Lookup(letters, LetterKey, f).value;
      forall k :: Lookup(DropLetter(letters, f), LetterKey, k)
               == if k != f then Lookup(letters, LetterKey, k)
                  else if l.count == 1 then None else Some(l.(count := l.count - 1))
  {
    var li := Position(letters, LetterKey, f);
    var l := letters[li].(count := letters[li].count - 1);
    SettleLookup(letters, li, l, LetterKey, LetterCount);
    DropLetterPositive(letters, li, l);
  }

  lemma DropLetterPositive(letters: seq<Letter>, i: int, y: Letter)
    requires 0 <= i < |letters| && y.count >= 0 && forall l :: l in letters ==> l.count > 0
    ensures forall l :: l in Settle(letters, i, y, LetterCount) ==> l.count > 0
  {
    SettleMembers(letters, i, y, LetterCount);
  }

  /** removeCity lowers the first-letter count of the name by one and no other. */
  lemma DropLetterTotal(s: GameState, name: string)
    requires Removable(s, name)
    requires UniqueKeys(s.letters, LetterKey) && Ascending(s.letters, LetterCount)
    requires forall l :: l in s.letters ==> l.count > 0
    ensures forall f :: LetterTotal(RemoveCity(s, name), f) == LetterTotal(s, f) - if f == name[0] then 1 else 0
    ensures Lookup(RemoveCity(s, name).letters, LetterKey, name[0]).None? <==> LetterTotal(s, name[0]) == 1
  {
    var r := RemoveCity(s, name);
    assert r.letters == DropLetter(s.letters, name[0]);
    DropLetterTotals(s.letters, name[0]);
  }

  lemma DropLetterTotals(letters: seq<Letter>, f: char)
    requires Lookup(letters, LetterKey, f).Some?
    requires UniqueKeys(letters, LetterKey) && Ascending(letters, LetterCount)
    requires forall l :: l in letters ==> l.count > 0
    ensures forall k :: Tally(DropLetter(letters, f), k)
                     == Tally(letters, k) - if k == f then 1 else 0
    ensures Lookup(DropLetter(letters, f), LetterKey, f).None? <==> Tally(letters, f) == 1
  {
    var r := DropLetter(letters, f);
    var l := Lookup(letters, LetterKey, f).value;
    assert forall k :: Lookup(r, LetterKey, k)
                     == if k != f then Lookup(letters, LetterKey, k)
                        else if l.count == 1 then None else Some(l.(count := l.count - 1)) by {
      DropLetterFacts(letters, f);
    }
    TallyDrop(letters, r, f, l);
  }

  /** Tallies follow lookups: lowering the entry for `f` by one lowers its tally by one. */
  lemma TallyDrop(letters: seq<Letter>, r: seq<Letter>, f: char, l: Letter)
    requires Lookup(letters, LetterKey, f) == Some(l)
    requires forall k :: Lookup(r, LetterKey, k)
                       == if k != f then Lookup(letters, LetterKey, k)
                          else if l.count == 1 then None else Some(l.(count := l.count - 1))
    ensures forall k :: Tally(r, k) == Tally(letters, k) - if k == f then 1 else 0
    ensures Lookup(r, LetterKey, f).None? <==> Tally(letters, f) == 1
  {
    forall k ensures Tally(r, k) == Tally(letters, k) - if k == f then 1 else 0 {
      if k == f {
        assert Tally(r, k) == l.count - 1;
      } else {
        assert Lookup(r, LetterKey, k) == Lookup(letters, LetterKey, k);
      }
    }
  }

  /** Exactly the first record stored under the name leaves the index. */
  lemma RemoveCityRecords(s: GameState, name: string)
    requires Consistent(s) && Removable(s, name)
    ensures |Stock(s, name)| > 0 && AllRecords(RemoveCity(s, name)) + multiset{Stock(s, name)[0]} == AllRecords(s)
  {
    var i := LookupCity(s, name);
    LookupIff(s, name);
    PartitionOf(s, s.heads[i]);
    var rest := Gather(DropHead(s.heads, name, i), HeadRecords);
    var c0 := CitiesAt(Root(s.heads[i]), name)[0];
    DropHeadAll(s.heads, name, i);
    assert rest + multiset{c0} == AllRecords(s);
    assert Stock(s, name)[0] == c0;
    assert AllRecords(RemoveCity(s, name)) == rest;
  }

  /** removeCity keeps the invariant. */
  lemma RemoveCityInv(s: GameState, name: string)
    requires Inv(s) && Removable(s, name)
    ensures Inv(RemoveCity(s, name))
  {
    var r := RemoveCity(s, name);
    var i := LookupCity(s, name);
    var h := s.heads[i];
    PartitionOf(s, h);
    assert r.heads == DropHead(s.heads, name, i) && r.letters == DropLetter(s.letters, name[0]);
    DropHeadLookup(s.heads, name, i);
    DropLetterFacts(s.letters, name[0]);
    DropLetterTotal(s, name);
    forall f ensures LetterTotal(r, f) == |StartingWith(r, f)| {
      DropHeadUnder(s.heads, name, i, f);
      var gone := if f == name[0] then multiset{CitiesAt(Root(h), name)[0]} else multiset{};
      assert StartingWith(r, f) + gone == StartingWith(s, f);
      assert LetterTotal(r, f) == LetterTotal(s, f) - |gone|;
    }
  }

  /** The records starting with `f` after removeCity: the dropped record leaves the total of
      its own first letter and no other. */
  lemma RemoveCityStarting(s: GameState, name: string, f: char)
    requires Consistent(s) && Removable(s, name)
    ensures |Stock(s, name)| > 0
    ensures StartingWith(RemoveCity(s, name), f) + (if f == name[0] then multiset{Stock(s, name)[0]} else multiset{})
         == StartingWith(s, f)
  {
    var i := LookupCity(s, name);
    LookupIff(s, name);
    PartitionOf(s, s.heads[i]);
    assert RemoveCity(s, name).heads == DropHead(s.heads, name, i);
    DropHeadUnder(s.heads, name, i, f);
  }

  // ------------------------------------------------------------------------------------------
  // Where a record sits

  /** A record held by a consistent index sits in the partition of its last letter, below its
      first letter. */
  lemma RecordHome(s: GameState, x: City)
    requires (forall h :: h in s.heads ==> Shaped(h)) && x in AllRecords(s)
    ensures |x.name| > 0
    ensures exists h :: h in s.heads && h.key == Last(x.name) && x in UnderOf(h, x.name[0])
  {
    GatherPick(s.heads, HeadRecords, x);
    var h :| h in s.heads && x in HeadRecords(h);
    HeadRecordHome(h, x);
  }

  /** A record of a well-shaped partition ends with its key and sits below its first letter. */
  lemma HeadRecordHome(h: Head, x: City)
    requires Shaped(h) && x in HeadRecords(h)
    ensures |x.name| > 0 && h.key == Last(x.name) && x in UnderOf(h, x.name[0])
  {
    RecordsOfMember(Root(h), h.children.Keys, x);
    var a :| a in h.children && x in Records(h.children[a]);
    ShapedChild(h, a);
    StoredRecords(h.children[a], [a], h.key, x);
    assert x.name[..1] == [a];
    assert x.name[0] == x.name[..1][0];
  }

  /** A record among those starting with `f` is held and its name starts with `f`. */
  lemma StartingWithNamed(s: GameState, f: char, x: City)
    requires (forall h :: h in s.heads ==> Shaped(h)) && x in StartingWith(s, f)
    ensures x in AllRecords(s) && |x.name| > 0 && x.name[0] == f
  {
    GatherPick(s.heads, Under(f), x);
    var h :| h in s.heads && x in Under(f)(h);
    assert x in UnderOf(h, f);
    ShapedChild(h, f);
    StoredRecords(h.children[f], [f], h.key, x);
    assert x.name[..1] == [f];
    assert x.name[0] == x.name[..1][0];
    UnderInHead(h, f);
    UnderInTotals(s, h, f);
    assert x in HeadRecords(h);
  }

  /** The records starting with `f` are exactly the held records whose name starts with `f`. */
  lemma StartingWithIff(s: GameState, f: char, x: City)
    requires forall h :: h in s.heads ==> Shaped(h)
    ensures x in StartingWith(s, f) <==> x in AllRecords(s) && |x.name| > 0 && x.name[0] == f
  {
    if x in StartingWith(s, f) {
      StartingWithNamed(s, f, x);
    }
    if x in AllRecords(s) && |x.name| > 0 && x.name[0] == f {
      RecordHome(s, x);
      var h :| h in s.heads && h.key == Last(x.name) && x in UnderOf(h, f);
      UnderInTotals(s, h, f);
    }
  }

  lemma StartingWithPart(s: GameState, f: char)
    ensures StartingWith(s, f) <= AllRecords(s)
  {
    forall h | h in s.heads ensures Under(f)(h) <= HeadRecords(h) {
      UnderInHead(h, f);
    }
    GatherMono(s.heads, Under(f), HeadRecords);
  }

  // ------------------------------------------------------------------------------------------
  // The per-record step of loadData

  /** The partition after the record is stored below its first letter (creating that
      first-letter node when missing) and counted. */
  function Filled(h: Head, c: City): (r: Head)
    requires |c.name| > 0
    ensures r.key == h.key && r.count == h.count + 1
  {
    h.(count := h.count + 1,
       children := h.children[c.name[0] := Store(ChildOrEmpty(Root(h), c.name[0]), c, c.name[1..])])
  }

  /** A fresh `new NodeHead(key)`. */
  function FreshHead(k: char): Head {
    Head(k, 0, map[])
  }

  /** headNodeList after the record is added: the partition of its last letter is found or
      created (appended), then filled. */
  function AddHead(heads: seq<Head>, c: City): (r: seq<Head>)
    requires |c.name| > 0
    ensures |r| == if Lookup(heads, HeadKey, Last(c.name)).None? then |heads| + 1 else |heads|
  {
    Put(heads, Position(heads, HeadKey, Last(c.name)), Filled(Target(heads, c), c))
  }

  /** firstLetterList after the record is counted: the entry of its first letter is found or
      created (appended), then incremented. */
  function AddLetter(letters: seq<Letter>, f: char): (r: seq<Letter>)
    ensures |r| == if Lookup(letters, LetterKey, f).None? then |letters| + 1 else |letters|
  {
    var li := Position(letters, LetterKey, f);
    var l := if li >= 0 then letters[li] else Letter(f, 0);
    Put(letters, li, l.(count := l.count + 1))
  }

  /** The per-record step of loadData: a record with an empty name is skipped; otherwise it
      is stored in the partition of its last letter, below its first letter, and counted in
      both lists. The lists are not re-sorted here. */
  function InsertCity(s: GameState, c: City): (r: GameState)
    ensures |c.name| == 0 ==> r == s
    ensures |c.name| > 0 ==> |r.heads| == if Partition(s, Last(c.name)).None? then |s.heads| + 1 else |s.heads|
    ensures |c.name| > 0 ==> |r.letters| == if Lookup(s.letters, LetterKey, c.name[0]).None? then |s.letters| + 1 else |s.letters|
  {
    if |c.name| == 0 then s
    else GameState(AddHead(s.heads, c), AddLetter(s.letters, c.name[0]))
  }

  lemma FreshHeadEmpty(k: char)
    ensures Shaped(FreshHead(k)) && HeadRecords(FreshHead(k)) == multiset{}
    ensures forall f :: UnderOf(FreshHead(k), f) == multiset{}
  {
    DeadStoresNothing(Root(FreshHead(k)), []);
  }

  /** Filling a partition adds exactly the record, below its first letter, and keeps the
      partition well shaped. */
  lemma FilledFacts(h: Head, c: City)
    requires |c.name| > 0 && Shaped(h) && h.key == Last(c.name)
    ensures Shaped(Filled(h, c))
    ensures HeadRecords(Filled(h, c)) == HeadRecords(h) + multiset{c}
    ensures forall f :: UnderOf(Filled(h, c), f) == UnderOf(h, f) + if f == c.name[0] then multiset{c} else multiset{}
  {
    FilledShaped(h, c);
    FilledRecords(h, c);
  }

  lemma FilledShaped(h: Head, c: City)
    requires |c.name| > 0 && Shaped(h) && h.key == Last(c.name)
    ensures Shaped(Filled(h, c))
  {
    var a, p := c.name[0], c.name[1..];
    var node := ChildOrEmpty(Root(h), a);
    if a in h.children {
      ShapedChild(h, a);
    } else {
      DeadStoresNothing(Empty, []);
    }
    assert c.name == [a] + p;
    StoreWellFormed(node, c, p);
    StoreStored(node, c, [a], p, h.key);
    ShapedReplace(h, a, Store(node, c, p));
    assert Filled(h, c).children == h.children[a := Store(node, c, p)];
  }

  lemma FilledRecords(h: Head, c: City)
    requires |c.name| > 0
    ensures HeadRecords(Filled(h, c)) == HeadRecords(h) + multiset{c}
    ensures forall f :: UnderOf(Filled(h, c), f) == UnderOf(h, f) + if f == c.name[0] then multiset{c} else multiset{}
  {
    FilledParts(h, c);
    var u := UnderOf(h, c.name[0]);
    assert HeadRecords(h) + u + multiset{c} == (HeadRecords(h) + multiset{c}) + u;
    Cancel(HeadRecords(Filled(h, c)), HeadRecords(h) + multiset{c}, u);
  }

  lemma FilledParts(h: Head, c: City)
    requires |c.name| > 0
    ensures HeadRecords(Filled(h, c)) + UnderOf(h, c.name[0]) == HeadRecords(h) + UnderOf(h, c.name[0]) + multiset{c}
    ensures UnderOf(Filled(h, c), c.name[0]) == UnderOf(h, c.name[0]) + multiset{c}
    ensures forall f :: f != c.name[0] ==> UnderOf(Filled(h, c), f) == UnderOf(h, f)
  {
    var a, p := c.name[0], c.name[1..];
    var node := ChildOrEmpty(Root(h), a);
    var v := Store(node, c, p);
    UnderIsChild(h, a);
    StoreRecords(node, c, p);
    ReplacedParts(h, a, v, c);
    var h0 := h.(children := h.children[a := v]);
    assert Filled(h, c) == h0.(count := h.count + 1);
    CountIrrelevant(h0, h.count + 1);
  }

  lemma UnderIsChild(h: Head, a: char)
    ensures UnderOf(h, a) == Records(ChildOrEmpty(Root(h), a))
  {
    if a !in h.children {
      assert Records(Empty) == multiset{};
    }
  }

  lemma ReplacedParts(h: Head, a: char, v: Trie, c: City)
    requires Records(v) == UnderOf(h, a) + multiset{c}
    ensures HeadRecords(h.(children := h.children[a := v])) + UnderOf(h, a) == HeadRecords(h) + UnderOf(h, a) + multiset{c}
    ensures UnderOf(h.(children := h.children[a := v]), a) == UnderOf(h, a) + multiset{c}
    ensures forall f :: f != a ==> UnderOf(h.(children := h.children[a := v]), f) == UnderOf(h, f)
  {
    ReplaceChildRecords(h, a, v);
  }

  lemma CountIrrelevant(h: Head, n: int)
    ensures HeadRecords(h.(count := n)) == HeadRecords(h)
    ensures forall f :: UnderOf(h.(count := n), f) == UnderOf(h, f)
  {
    assert Root(h.(count := n)) == Root(h);
  }

  /** Filling a partition appends the record to the records stored under its name and
      changes no other name. */
  lemma FilledStock(h: Head, c: City)
    requires |c.name| > 0
    ensures forall m :: |m| > 0 ==>
      CitiesAt(Root(Filled(h, c)), m) == if m == c.name then CitiesAt(Root(h), m) + [c] else CitiesAt(Root(h), m)
  {
    var a, p := c.name[0], c.name[1..];
    var node := ChildOrEmpty(Root(h), a);
    var v := Store(node, c, p);
    StoreCitiesAt(node, c, p);
    ReplaceChildCities(h, a, v);
    assert Root(Filled(h, c)) == Root(h.(children := h.children[a := v]));
    forall m | |m| > 0
      ensures CitiesAt(Root(Filled(h, c)), m) == if m == c.name then CitiesAt(Root(h), m) + [c] else CitiesAt(Root(h), m)
    {
      if m[0] == a {
        NameSplit(m, c.name);
        CitiesAtCons(Root(h), m);
      }
    }
  }

  /** The partition AddHead fills: the one found for the last letter, or a fresh one. */
  function Target(heads: seq<Head>, c: City): (h: Head)
    requires |c.name| > 0
    ensures h.key == Last(c.name)
  {
    var i := Position(heads, HeadKey, Last(c.name));
    if i >= 0 then heads[i] else FreshHead(Last(c.name))
  }

  /** The partition side of the insertion step: keys stay unique, entries stay well formed,
      and only the last letter's partition changes, to the filled one. */
  lemma AddHeadLookup(heads: seq<Head>, c: City)
    requires |c.name| > 0 && UniqueKeys(heads, HeadKey)
    requires forall h :: h in heads ==> HeadOk(h)
    ensures UniqueKeys(AddHead(heads, c), HeadKey)
    ensures forall h :: h in AddHead(heads, c) ==> HeadOk(h)
    ensures forall k :: Lookup(AddHead(heads, c), HeadKey, k)
                     == if k == Last(c.name) then Some(Filled(Target(heads, c), c)) else Lookup(heads, HeadKey, k)
  {
    var h := Target(heads, c);
    var i := Position(heads, HeadKey, Last(c.name));
    if i < 0 {
      FreshHeadEmpty(Last(c.name));
    }
    FilledFacts(h, c);
    assert HeadKey(Filled(h, c)) == Last(c.name);
    PutLookup(heads, Filled(h, c), HeadKey);
  }

  /** The totals after the insertion step: exactly the record joins them. */
  lemma AddHeadTotals(heads: seq<Head>, c: City)
    requires |c.name| > 0
    ensures Gather(AddHead(heads, c), HeadRecords) == Gather(heads, HeadRecords) + multiset{c}
    ensures forall f :: Gather(AddHead(heads, c), Under(f))
                     == Gather(heads, Under(f)) + if f == c.name[0] then multiset{c} else multiset{}
  {
    var h := Target(heads, c);
    FreshHeadEmpty(Last(c.name));
    FilledRecords(h, c);
    PutTotal(heads, c, HeadRecords);
    Cancel(Gather(AddHead(heads, c), HeadRecords), Gather(heads, HeadRecords) + multiset{c}, HeadRecords(h));
    forall f ensures Gather(AddHead(heads, c), Under(f))
                  == Gather(heads, Under(f)) + if f == c.name[0] then multiset{c} else multiset{}
    {
      AddHeadUnder(heads, c, f);
    }
  }

  lemma AddHeadUnder(heads: seq<Head>, c: City, f: char)
    requires |c.name| > 0
    ensures Gather(AddHead(heads, c), Under(f))
         == Gather(heads, Under(f)) + if f == c.name[0] then multiset{c} else multiset{}
  {
    var h := Target(heads, c);
    var added := if f == c.name[0] then multiset{c} else multiset{};
    FreshHeadEmpty(Last(c.name));
    FilledRecords(h, c);
    assert Under(f)(h) == UnderOf(h, f) && Under(f)(Filled(h, c)) == UnderOf(h, f) + added;
    PutTotal(heads, c, Under(f));
    Cancel(Gather(AddHead(heads, c), Under(f)), Gather(heads, Under(f)) + added, UnderOf(h, f));
  }

  /** Putting the filled partition in place of its old self: the total over the list moves
      by what the partition moves by (a fresh partition counts as empty). */
  lemma PutTotal(heads: seq<Head>, c: City, total: Head -> multiset<City>)
    requires |c.name| > 0
    requires total(FreshHead(Last(c.name))) == multiset{}
    ensures Gather(AddHead(heads, c), total) + total(Target(heads, c))
         == Gather(heads, total) + total(Filled(Target(heads, c), c))
  {
    var i := Position(heads, HeadKey, Last(c.name));
    GatherPut(heads, i, Filled(Target(heads, c), c), total);
  }

  /** The first-letter side of the insertion step: keys stay unique, counts positive, and
      exactly the count of `f` rises by one. */
  lemma AddLetterFacts(letters: seq<Letter>, f: char)
    requires UniqueKeys(letters, LetterKey) && forall l :: l in letters ==> l.count > 0
    ensures UniqueKeys(AddLetter(letters, f), LetterKey)
    ensures forall l :: l in AddLetter(letters, f) ==> l.count > 0
    ensures forall k :: Tally(AddLetter(letters, f), k)
                     == Tally(letters, k) + if k == f then 1 else 0
  {
    var li := Position(letters, LetterKey, f);
    var l := if li >= 0 then letters[li] else Letter(f, 0);
    var y := l.(count := l.count + 1);
    assert LetterKey(y) == f && y.count > 0;
    assert l.count == Tally(letters, f);
    PutLookup(letters, y, LetterKey);
    assert AddLetter(letters, f) == Put(letters, li, y);
    PutPositive(letters, li, y);
    forall k ensures Tally(AddLetter(letters, f), k)
                  == Tally(letters, k) + if k == f then 1 else 0
    {
      TotalOfLookup(AddLetter(letters, f), letters, k, f, y);
    }
  }

  lemma PutPositive(letters: seq<Letter>, i: int, y: Letter)
    requires -1 <= i < |letters| && y.count > 0 && forall l :: l in letters ==> l.count > 0
    ensures forall l :: l in Put(letters, i, y) ==> l.count > 0
  {
    forall l | l in Put(letters, i, y) ensures l.count > 0 {
      var m :| 0 <= m < |Put(letters, i, y)| && Put(letters, i, y)[m] == l;
      if m != i && m < |letters| {
        assert letters[m] == l;
      }
    }
  }

  lemma TotalOfLookup(a: seq<Letter>, b: seq<Letter>, k: char, f: char, y: Letter)
    requires Lookup(a, LetterKey, k) == if k == f then Some(y) else Lookup(b, LetterKey, k)
    requires y.count == Tally(b, f) + 1
    ensures Tally(a, k) == Tally(b, k) + if k == f then 1 else 0
  {
  }

  /** The insertion step keeps the state consistent (the lists are sorted only at the end of
      loading) and adds exactly the record. */
  lemma InsertCityConsistent(s: GameState, c: City)
    requires Consistent(s)
    ensures Consistent(InsertCity(s, c))
    ensures AllRecords(InsertCity(s, c)) == AllRecords(s) + if |c.name| > 0 then multiset{c} else multiset{}
  {
    if |c.name| > 0 {
      var r := InsertCity(s, c);
      AddHeadLookup(s.heads, c);
      AddHeadTotals(s.heads, c);
      AddLetterFacts(s.letters, c.name[0]);
      assert r.heads == AddHead(s.heads, c) && r.letters == AddLetter(s.letters, c.name[0]);
      forall f ensures LetterTotal(r, f) == |StartingWith(r, f)| {
        var added := if f == c.name[0] then multiset{c} else multiset{};
        assert StartingWith(r, f) == StartingWith(s, f) + added;
        assert LetterTotal(r, f) == LetterTotal(s, f) + |added|;
      }
    }
  }

  // ------------------------------------------------------------------------------------------
  // What insertion and removal do to the names stored and the counts

  /** The insertion step appends the record to the records stored under its name, and
      lookupCity finds the name afterwards. */
  lemma InsertCityStock(s: GameState, c: City)
    requires Consistent(s)
    ensures forall m :: |m| > 0 ==>
      Stock(InsertCity(s, c), m) == if m == c.name then Stock(s, m) + [c] else Stock(s, m)
    ensures |c.name| > 0 ==> LookupCity(InsertCity(s, c), c.name) >= 0
  {
    if |c.name| > 0 {
      InsertStockNames(s, c);
      InsertCityConsistent(s, c);
      LookupIff(InsertCity(s, c), c.name);
    }
  }

  lemma InsertStockNames(s: GameState, c: City)
    requires |c.name| > 0 && UniqueKeys(s.heads, HeadKey) && forall h :: h in s.heads ==> HeadOk(h)
    ensures forall m :: |m| > 0 ==>
      Stock(InsertCity(s, c), m) == if m == c.name then Stock(s, m) + [c] else Stock(s, m)
  {
    var r := InsertCity(s, c);
    var h := Target(s.heads, c);
    assert forall k :: Partition(r, k) == if k == Last(c.name) then Some(Filled(h, c)) else Partition(s, k) by {
      AddHeadLookup(s.heads, c);
    }
    assert forall m :: |m| > 0 && Last(m) == Last(c.name) ==>
      CitiesAt(Root(Filled(h, c)), m) == if m == c.name then Stock(s, m) + [c] else Stock(s, m) by {
      FilledStock(h, c);
      TargetStock(s, c);
    }
    StockFromPartitions(s, r, c, Filled(h, c));
  }

  /** When `r` differs from `s` only in the partition of the last letter of `c`, and that
      partition adds `c` under its name, the stock of `r` adds `c` under its name only. */
  lemma StockFromPartitions(s: GameState, r: GameState, c: City, h: Head)
    requires |c.name| > 0
    requires forall k :: Partition(r, k) == if k == Last(c.name) then Some(h) else Partition(s, k)
    requires forall m :: |m| > 0 && Last(m) == Last(c.name) ==>
      CitiesAt(Root(h), m) == if m == c.name then Stock(s, m) + [c] else Stock(s, m)
    ensures forall m :: |m| > 0 ==>
      Stock(r, m) == if m == c.name then Stock(s, m) + [c] else Stock(s, m)
  {
    forall m | |m| > 0 ensures Stock(r, m) == if m == c.name then Stock(s, m) + [c] else Stock(s, m) {
      if Last(m) != Last(c.name) {
        assert m != c.name;
      }
    }
  }

  /** The partition the insertion step fills holds, under every name ending in its key, what
      the index holds under that name. */
  lemma TargetStock(s: GameState, c: City)
    requires |c.name| > 0
    ensures forall m :: |m| > 0 && Last(m) == Last(c.name) ==> CitiesAt(Root(Target(s.heads, c)), m) == Stock(s, m)
  {
    var h := Target(s.heads, c);
    forall m | |m| > 0 && Last(m) == Last(c.name) ensures CitiesAt(Root(h), m) == Stock(s, m) {
      if Position(s.heads, HeadKey, Last(c.name)) < 0 {
        DeadStoresNothing(Root(h), m);
      }
    }
  }

  /** The insertion step raises the partition count of the last letter and the count of the
      first letter by exactly one. */
  lemma InsertCityCounts(s: GameState, c: City)
    requires Consistent(s) && |c.name| > 0
    ensures forall k :: PartitionTotal(InsertCity(s, c), k) == PartitionTotal(s, k) + if k == Last(c.name) then 1 else 0
    ensures forall f :: LetterTotal(InsertCity(s, c), f) == LetterTotal(s, f) + if f == c.name[0] then 1 else 0
  {
    var r := InsertCity(s, c);
    AddHeadLookup(s.heads, c);
    AddLetterFacts(s.letters, c.name[0]);
  }

  /** removeCity drops exactly the first record stored under the name, and no other name
      changes. */
  lemma RemoveCityStock(s: GameState, name: string)
    requires Inv(s) && Removable(s, name)
    ensures |Stock(s, name)| > 0
    ensures forall m :: |m| > 0 ==>
      Stock(RemoveCity(s, name), m) == if m == name then Stock(s, name)[1..] else Stock(s, m)
  {
    var r := RemoveCity(s, name);
    var i := LookupCity(s, name);
    var h := s.heads[i];
    var d := Drained(h, name);
    LookupIff(s, name);
    PartitionOf(s, h);
    assert r.heads == DropHead(s.heads, name, i);
    DropHeadLookup(s.heads, name, i);
    DrainedFacts(h, name);
    DrainedStock(h, name);
    forall m | |m| > 0 ensures Stock(r, m) == if m == name then Stock(s, name)[1..] else Stock(s, m) {
      DroppedStock(s, r, name, h, d, m);
    }
  }

  /** One name's records after removeCity, given what happened to the partitions. */
  lemma DroppedStock(s: GameState, r: GameState, name: string, h: Head, d: Head, m: string)
    requires |m| > 0 && |name| > 0 && Partition(s, Last(name)) == Some(h)
    requires forall k :: Partition(r, k) == if k != Last(name) then Partition(s, k) else if d.count == 0 then None else Some(d)
    requires |CitiesAt(Root(h), name)| > 0
    requires forall m :: |m| > 0 ==>
      CitiesAt(Root(d), m) == if m == name then CitiesAt(Root(h), name)[1..] else CitiesAt(Root(h), m)
    requires d.count == 0 ==> HeadRecords(d) == multiset{}
    ensures Stock(r, m) == if m == name then Stock(s, name)[1..] else Stock(s, m)
  {
    if Last(m) == Last(name) && d.count == 0 {
      CitiesAtInRecords(Root(d), m);
    }
  }

  /** removeCity lowers the partition count of the last letter and the count of the first
      letter by exactly one; an entry that reaches zero is gone. */
  lemma RemoveCityCounts(s: GameState, name: string)
    requires Inv(s) && Removable(s, name)
    ensures forall k :: PartitionTotal(RemoveCity(s, name), k) == PartitionTotal(s, k) - if k == Last(name) then 1 else 0
    ensures forall f :: LetterTotal(RemoveCity(s, name), f) == LetterTotal(s, f) - if f == name[0] then 1 else 0
    ensures Partition(RemoveCity(s, name), Last(name)).None? <==> PartitionTotal(s, Last(name)) == 1
    ensures Lookup(RemoveCity(s, name).letters, LetterKey, name[0]).None? <==> LetterTotal(s, name[0]) == 1
  {
    RemovePartitionCounts(s, name);
    DropLetterTotal(s, name);
  }

  lemma RemovePartitionCounts(s: GameState, name: string)
    requires Inv(s) && Removable(s, name)
    ensures forall k :: PartitionTotal(RemoveCity(s, name), k) == PartitionTotal(s, k) - if k == Last(name) then 1 else 0
    ensures Partition(RemoveCity(s, name), Last(name)).None? <==> PartitionTotal(s, Last(name)) == 1
  {
    var i := LookupCity(s, name);
    var h := s.heads[i];
    LookupIff(s, name);
    PartitionOf(s, h);
    assert RemoveCity(s, name).heads == DropHead(s.heads, name, i);
    DropHeadTallies(s.heads, name, i);
  }

  lemma DropHeadTallies(heads: seq<Head>, name: string, i: int)
    requires 0 <= i < |heads| && |name| > 0 && name[0] in heads[i].children
    requires |CitiesAt(heads[i].children[name[0]], name[1..])| > 0
    requires heads[i].key == Last(name) && HeadOk(heads[i])
    requires UniqueKeys(heads, HeadKey) && Ascending(heads, HeadCount)
    requires forall h :: h in heads ==> HeadOk(h)
    ensures forall k :: HeadTally(DropHead(heads, name, i), k) == HeadTally(heads, k) - if k == Last(name) then 1 else 0
    ensures Lookup(DropHead(heads, name, i), HeadKey, Last(name)).None? <==> HeadTally(heads, Last(name)) == 1
  {
    var d := Drained(heads[i], name);
    var r := DropHead(heads, name, i);
    assert forall k :: Lookup(r, HeadKey, k) == (if k != Last(name) then Lookup(heads, HeadKey, k)
                                                 else if d.count == 0 then None else Some(d)) by {
      DropHeadLookup(heads, name, i);
    }
    assert Lookup(heads, HeadKey, Last(name)) == Some(heads[i]) by {
      LookupUnique(heads, HeadKey, heads[i]);
    }
    assert d.count == heads[i].count - 1;
    forall k ensures HeadTally(r, k) == HeadTally(heads, k) - if k == Last(name) then 1 else 0 {
      if k != Last(name) {
        assert Lookup(r, HeadKey, k) == Lookup(heads, HeadKey, k);
      } else if d.count == 0 {
        assert Lookup(r, HeadKey, k) == None;
        assert HeadTally(r, k) == 0;
      } else {
        assert Lookup(r, HeadKey, k) == Some(d);
        assert HeadTally(r, k) == d.count;
      }
    }
  }


  /** No reuse: once removed, a name is found again only while another record of the very
      same name is still stored. */
  lemma RemoveCityNoReuse(s: GameState, name: string)
    requires Inv(s) && Removable(s, name)
    ensures LookupCity(RemoveCity(s, name), name) >= 0 <==> |Stock(s, name)| > 1
  {
    RemoveCityInv(s, name);
    RemoveCityStock(s, name);
    LookupIff(RemoveCity(s, name), name);
  }

  /** An invariant state with no records left is the empty state. */
  lemma NoRecordsIsEmpty(s: GameState)
    requires Consistent(s) && AllRecords(s) == multiset{}
    ensures s == Initial
  {
    if |s.heads| > 0 {
      UnderInTotals(s, s.heads[0], 'a');
      assert false;
    }
    if |s.letters| > 0 {
      var l := s.letters[0];
      assert StartingWith(s, l.key) == multiset{};
      var total := LetterTotal(s, l.key);
      LookupUnique(s.letters, LetterKey, l);
      assert false;
    }
  }

  // ------------------------------------------------------------------------------------------
  // Loading: the per-record step over all records, then the sort of both lists

  /** The records of `rs` named `m`, in input order. */
  function Named(rs: seq<City>, m: string): seq<City> {
    if |rs| == 0 then []
    else (if rs[0].name == m then [rs[0]] else []) + Named(rs[1..], m)
  }

  /** The records of `rs` that have a non-empty name (those the load keeps). */
  ghost function Kept(rs: seq<City>): multiset<City> {
    if |rs| == 0 then multiset{}
    else (if |rs[0].name| > 0 then multiset{rs[0]} else multiset{}) + Kept(rs[1..])
  }

  /** How many records of `rs` have a non-empty name ending in `k`. */
  function CountEnding(rs: seq<City>, k: char): nat {
    if |rs| == 0 then 0
    else (if |rs[0].name| > 0 && Last(rs[0].name) == k then 1 else 0) + CountEnding(rs[1..], k)
  }

  /** How many records of `rs` have a non-empty name starting with `f`. */
  function CountStarting(rs: seq<City>, f: char): nat {
    if |rs| == 0 then 0
    else (if |rs[0].name| > 0 && rs[0].name[0] == f then 1 else 0) + CountStarting(rs[1..], f)
  }

  /** The loop of loadData: the per-record step applied to each record in input order. */
  function LoadRecords(s: GameState, rs: seq<City>): (r: GameState)
    ensures |r.heads| >= |s.heads| && |r.letters| >= |s.letters|
    decreases |rs|
  {
    if |rs| == 0 then s else LoadRecords(InsertCity(s, rs[0]), rs[1..])
  }

  /** The end of loadData: both lists sorted ascending by count. */
  function FinishLoad(s: GameState): (r: GameState)
    ensures multiset(r.heads) == multiset(s.heads) && multiset(r.letters) == multiset(s.letters)
    ensures Ascending(r.heads, HeadCount) && Ascending(r.letters, LetterCount)
  {
    GameState(SortByCount(s.heads, HeadCount), SortByCount(s.letters, LetterCount))
  }

  /** loadData on the records of the data file, starting from empty lists. */
  function Load(rs: seq<City>): (r: GameState)
    ensures Ascending(r.heads, HeadCount) && Ascending(r.letters, LetterCount)
  {
    FinishLoad(LoadRecords(Initial, rs))
  }

  lemma {:induction false} LoadRecordsFacts(s: GameState, rs: seq<City>)
    requires Consistent(s)
    ensures Consistent(LoadRecords(s, rs))
    ensures AllRecords(LoadRecords(s, rs)) == AllRecords(s) + Kept(rs)
    decreases |rs|
  {
    if |rs| > 0 {
      InsertCityConsistent(s, rs[0]);
      LoadRecordsFacts(InsertCity(s, rs[0]), rs[1..]);
    }
  }

  lemma {:induction false} LoadRecordsStock(s: GameState, rs: seq<City>)
    requires HeadsOk(s)
    ensures forall m :: |m| > 0 ==> Stock(LoadRecords(s, rs), m) == Stock(s, m) + Named(rs, m)
    decreases |rs|
  {
    if |rs| > 0 {
      var s' := InsertCity(s, rs[0]);
      InsertHeadsOk(s, rs[0]);
      LoadRecordsStock(s', rs[1..]);
      var t := LoadRecords(s', rs[1..]);
      assert LoadRecords(s, rs) == t;
      forall m | |m| > 0 ensures Stock(t, m) == Stock(s, m) + Named(rs, m) {
        StockStep(Stock(s, m), Stock(s', m), Stock(t, m), rs, m);
      }
    }
  }

  /** The partition side of the invariant: unique keys and well-formed partitions. */
  ghost predicate HeadsOk(s: GameState) {
    UniqueKeys(s.heads, HeadKey) && forall h :: h in s.heads ==> HeadOk(h)
  }

  /** The insertion step keeps the partitions well formed and appends the record to those
      stored under its name. */
  lemma InsertHeadsOk(s: GameState, c: City)
    requires HeadsOk(s)
    ensures HeadsOk(InsertCity(s, c))
    ensures forall m :: |m| > 0 ==>
      Stock(InsertCity(s, c), m) == if m == c.name then Stock(s, m) + [c] else Stock(s, m)
  {
    if |c.name| > 0 {
      AddHeadLookup(s.heads, c);
      InsertStockNames(s, c);
    }
  }

  lemma StockStep(a: seq<City>, b: seq<City>, c: seq<City>, rs: seq<City>, m: string)
    requires |rs| > 0
    requires b == a + if rs[0].name == m then [rs[0]] else []
    requires c == b + Named(rs[1..], m)
    ensures c == a + Named(rs, m)
  {
    var here := if rs[0].name == m then [rs[0]] else [];
    assert Named(rs, m) == here + Named(rs[1..], m);
    SeqAssoc(a, here, Named(rs[1..], m));
  }

  /** Loading adds each record to the count of its last letter's partition and to the count
      of its first letter. */
  lemma LoadRecordsCounts(s: GameState, rs: seq<City>)
    requires Consistent(s)
    ensures forall k :: PartitionTotal(LoadRecords(s, rs), k) == PartitionTotal(s, k) + CountEnding(rs, k)
    ensures forall f :: LetterTotal(LoadRecords(s, rs), f) == LetterTotal(s, f) + CountStarting(rs, f)
  {
    LoadRecordsEnding(s, rs);
    LoadRecordsStarting(s, rs);
  }

  /** One insertion adds one to the partition count of the record's last letter only. */
  lemma EndingStep(s: GameState, x: City, k: char)
    requires Consistent(s)
    ensures PartitionTotal(InsertCity(s, x), k) == PartitionTotal(s, k) + if |x.name| > 0 && Last(x.name) == k then 1 else 0
  {
    if |x.name| > 0 {
      InsertCityCounts(s, x);
    }
  }

  /** One insertion adds one to the count of the record's first letter only. */
  lemma StartingStep(s: GameState, x: City, f: char)
    requires Consistent(s)
    ensures LetterTotal(InsertCity(s, x), f) == LetterTotal(s, f) + if |x.name| > 0 && x.name[0] == f then 1 else 0
  {
    if |x.name| > 0 {
      InsertCityCounts(s, x);
    }
  }

  /** The partition-count half of LoadRecordsCounts. */
  lemma {:induction false} LoadRecordsEnding(s: GameState, rs: seq<City>)
    requires Consistent(s)
    ensures forall k :: PartitionTotal(LoadRecords(s, rs), k) == PartitionTotal(s, k) + CountEnding(rs, k)
    decreases |rs|
  {
    var r := LoadRecords(s, rs);
    if |rs| > 0 {
      var x := rs[0];
      var u := InsertCity(s, x);
      assert forall k :: PartitionTotal(r, k) == PartitionTotal(u, k) + CountEnding(rs[1..], k) by {
        assert r == LoadRecords(u, rs[1..]);
        InsertCityConsistent(s, x);
        LoadRecordsEnding(u, rs[1..]);
      }
      forall k ensures PartitionTotal(r, k) == PartitionTotal(s, k) + CountEnding(rs, k) {
        EndingStep(s, x, k);
        assert CountEnding(rs, k) == (if |x.name| > 0 && Last(x.name) == k then 1 else 0) + CountEnding(rs[1..], k);
      }
    } else {
      assert r == s;
    }
  }

  /** The first-letter half of LoadRecordsCounts. */
  lemma {:induction false} LoadRecordsStarting(s: GameState, rs: seq<City>)
    requires Consistent(s)
    ensures forall f :: LetterTotal(LoadRecords(s, rs), f) == LetterTotal(s, f) + CountStarting(rs, f)
    decreases |rs|
  {
    var r := LoadRecords(s, rs);
    if |rs| > 0 {
      var x := rs[0];
      var u := InsertCity(s, x);
      assert forall f :: LetterTotal(r, f) == LetterTotal(u, f) + CountStarting(rs[1..], f) by {
        assert r == LoadRecords(u, rs[1..]);
        InsertCityConsistent(s, x);
        LoadRecordsStarting(u, rs[1..]);
      }
      forall f ensures LetterTotal(r, f) == LetterTotal(s, f) + CountStarting(rs, f) {
        StartingStep(s, x, f);
        assert CountStarting(rs, f) == (if |x.name| > 0 && x.name[0] == f then 1 else 0) + CountStarting(rs[1..], f);
      }
    } else {
      assert r == s;
    }
  }

  lemma InitialConsistent()
    ensures Consistent(Initial) && HeadsOk(Initial) && AllRecords(Initial) == multiset{}
  {
    forall f ensures LetterTotal(Initial, f) == |StartingWith(Initial, f)| {
      assert StartingWith(Initial, f) == multiset{};
    }
  }

  lemma LoadKeys(rs: seq<City>)
    ensures UniqueKeys(LoadRecords(Initial, rs).heads, HeadKey)
  {
    InitialConsistent();
    LoadRecordsFacts(Initial, rs);
  }

  /** The final sort keeps consistency, makes both lists ascending, and changes no lookup. */
  lemma FinishLoadFacts(s: GameState)
    requires Consistent(s)
    ensures Inv(FinishLoad(s))
    ensures AllRecords(FinishLoad(s)) == AllRecords(s)
    ensures forall k :: Partition(FinishLoad(s), k) == Partition(s, k)
    ensures forall f :: LetterTotal(FinishLoad(s), f) == LetterTotal(s, f)
  {
    FinishLoadLookups(s);
    FinishLoadRecords(s);
    FinishLoadEntries(s);
  }

  /** The final sort changes no lookup. */
  lemma FinishLoadLookups(s: GameState)
    requires UniqueKeys(s.heads, HeadKey) && UniqueKeys(s.letters, LetterKey)
    ensures UniqueKeys(FinishLoad(s).heads, HeadKey) && UniqueKeys(FinishLoad(s).letters, LetterKey)
    ensures forall k :: Partition(FinishLoad(s), k) == Partition(s, k)
    ensures forall f :: LetterTotal(FinishLoad(s), f) == LetterTotal(s, f)
  {
    SortLookup(s.heads, HeadKey, HeadCount);
    SortLookup(s.letters, LetterKey, LetterCount);
  }

  /** The final sort changes no total. */
  lemma FinishLoadRecords(s: GameState)
    ensures AllRecords(FinishLoad(s)) == AllRecords(s)
    ensures forall f :: StartingWith(FinishLoad(s), f) == StartingWith(s, f)
  {
    GatherSort(s.heads, HeadCount, HeadRecords);
    forall f ensures StartingWith(FinishLoad(s), f) == StartingWith(s, f) {
      GatherSort(s.heads, HeadCount, Under(f));
    }
  }

  /** The final sort keeps the same entries. */
  lemma FinishLoadEntries(s: GameState)
    requires (forall h :: h in s.heads ==> HeadOk(h)) && forall l :: l in s.letters ==> l.count > 0
    ensures forall h :: h in FinishLoad(s).heads ==> HeadOk(h)
    ensures forall l :: l in FinishLoad(s).letters ==> l.count > 0
  {
    var r := FinishLoad(s);
    forall h | h in r.heads ensures HeadOk(h) {
      assert h in multiset(r.heads);
    }
    forall l | l in r.letters ensures l.count > 0 {
      assert l in multiset(r.letters);
    }
  }

  /** Loading yields an invariant state holding exactly the records with a non-empty name. */
  lemma LoadInv(rs: seq<City>)
    ensures Inv(Load(rs))
    ensures AllRecords(Load(rs)) == Kept(rs)
  {
    InitialConsistent();
    LoadRecordsFacts(Initial, rs);
    FinishLoadFacts(LoadRecords(Initial, rs));
  }

  /** After loading, each name holds the records of that name in input order. */
  lemma LoadStock(rs: seq<City>)
    ensures forall m :: |m| > 0 ==> Stock(Load(rs), m) == Named(rs, m)
  {
    var t := LoadRecords(Initial, rs);
    LoadRecordsStockInitial(rs);
    assert forall m :: |m| > 0 ==> Stock(Load(rs), m) == Stock(t, m) by {
      LoadKeys(rs);
      FinishLoadStock(t);
    }
  }

  /** Loading into the empty lists gives each name exactly the records of that name. */
  lemma LoadRecordsStockInitial(rs: seq<City>)
    ensures forall m :: |m| > 0 ==> Stock(LoadRecords(Initial, rs), m) == Named(rs, m)
  {
    var t := LoadRecords(Initial, rs);
    assert forall m :: |m| > 0 ==> Stock(t, m) == Stock(Initial, m) + Named(rs, m) by {
      InitialConsistent();
      LoadRecordsStock(Initial, rs);
    }
    forall m | |m| > 0 ensures Stock(t, m) == Named(rs, m) {
      InitialStockEmpty(m, Named(rs, m));
    }
  }

  /** The empty lists hold no record under any name, so they add nothing in front. */
  lemma InitialStockEmpty(m: string, n: seq<City>)
    requires |m| > 0
    ensures Stock(Initial, m) + n == n
  {
    assert Partition(Initial, Last(m)).None?;
    assert Stock(Initial, m) == [];
  }

  /** The final sort changes no name's records. */
  lemma FinishLoadStock(s: GameState)
    requires UniqueKeys(s.heads, HeadKey)
    ensures forall m :: |m| > 0 ==> Stock(FinishLoad(s), m) == Stock(s, m)
  {
    SortLookup(s.heads, HeadKey, HeadCount);
    forall m | |m| > 0 ensures Stock(FinishLoad(s), m) == Stock(s, m) {
      assert Partition(FinishLoad(s), Last(m)) == Partition(s, Last(m));
    }
  }

  /** After loading, the partition count of each last letter and the count of each first
      letter are the numbers of input records with such names. */
  lemma LoadCounts(rs: seq<City>)
    ensures forall k :: PartitionTotal(Load(rs), k) == CountEnding(rs, k)
    ensures forall f :: LetterTotal(Load(rs), f) == CountStarting(rs, f)
  {
    var t := LoadRecords(Initial, rs);
    assert Consistent(t) by {
      InitialConsistent();
      LoadRecordsFacts(Initial, rs);
    }
    assert (forall k :: PartitionTotal(t, k) == CountEnding(rs, k))
        && (forall f :: LetterTotal(t, f) == CountStarting(rs, f)) by {
      InitialConsistent();
      LoadRecordsCounts(Initial, rs);
      forall k ensures PartitionTotal(Initial, k) == 0 {}
      forall f ensures LetterTotal(Initial, f) == 0 {}
    }
    FinishLoadFacts(t);
    forall k ensures PartitionTotal(Load(rs), k) == CountEnding(rs, k) {
      assert Partition(Load(rs), k) == Partition(t, k);
    }
  }

  lemma {:induction false} NamedNonEmpty(rs: seq<City>, m: string)
    ensures |Named(rs, m)| > 0 <==> exists j :: 0 <= j < |rs| && rs[j].name == m
  {
    if |rs| > 0 {
      NamedNonEmpty(rs[1..], m);
      if rs[0].name != m && exists j :: 0 <= j < |rs| && rs[j].name == m {
        var j :| 0 <= j < |rs| && rs[j].name == m;
        assert rs[1..][j - 1].name == m;
      }
    }
  }

  /** After loading, lookupCity finds exactly the non-empty names of the input. */
  lemma LoadFinds(rs: seq<City>, m: string)
    requires |m| > 0
    ensures LookupCity(Load(rs), m) >= 0 <==> exists j :: 0 <= j < |rs| && rs[j].name == m
  {
    LoadInv(rs);
    LoadStock(rs);
    LookupIff(Load(rs), m);
    NamedNonEmpty(rs, m);
  }

  // ------------------------------------------------------------------------------------------
  // Removing everything

  /** Each name of the sequence can be removed in turn. */
  predicate RemovableAll(s: GameState, names: seq<string>)
    decreases |names|
  {
    |names| == 0 || (Removable(s, names[0]) && RemovableAll(RemoveCity(s, names[0]), names[1..]))
  }

  /** removeCity applied to each name in turn. */
  function RemoveAll(s: GameState, names: seq<string>): GameState
    requires RemovableAll(s, names)
    decreases |names|
  {
    if |names| == 0 then s else RemoveAll(RemoveCity(s, names[0]), names[1..])
  }

  /** Removing as many names as there are records empties both lists. */
  lemma {:induction false} RemoveAllEmpties(s: GameState, names: seq<string>)
    requires Inv(s) && RemovableAll(s, names) && |names| == |AllRecords(s)|
    ensures RemoveAll(s, names) == Initial
    decreases |names|
  {
    if |names| == 0 {
      NoRecordsIsEmpty(s);
    } else {
      RemoveCityInv(s, names[0]);
      RemoveCityRecords(s, names[0]);
      RemoveAllEmpties(RemoveCity(s, names[0]), names[1..]);
    }
  }

  /** Names may be removed in any order as long as no name is removed more often than it
      has records. */
  lemma {:induction false} StockRemovable(s: GameState, names: seq<string>)
    requires Inv(s)
    requires forall m :: multiset(names)[m] <= if |m| > 0 then |Stock(s, m)| else 0
    ensures RemovableAll(s, names)
    decreases |names|
  {
    if |names| > 0 {
      var n := names[0];
      assert multiset(names) == multiset{n} + multiset(names[1..]) by {
        assert names == [n] + names[1..];
      }
      assert Removable(s, n) by {
        assert multiset(names)[n] > 0;
        LookupIff(s, n);
        FoundIsRemovable(s, n);
      }
      var s' := RemoveCity(s, n);
      RemoveCityInv(s, n);
      RemoveCityStock(s, n);
      forall m ensures multiset(names[1..])[m] <= if |m| > 0 then |Stock(s', m)| else 0 {
        assert multiset(names)[m] == multiset(names[1..])[m] + if m == n then 1 else 0;
      }
      StockRemovable(s', names[1..]);
    }
  }

  /** The names of the records of `rs` that have a non-empty name, one per record. */
  function KeptNames(rs: seq<City>): (r: multiset<string>)
    ensures forall m :: r[m] == if |m| > 0 then |Named(rs, m)| else 0
    ensures |r| == |Kept(rs)|
  {
    if |rs| == 0 then multiset{}
    else (if |rs[0].name| > 0 then multiset{rs[0].name} else multiset{}) + KeptNames(rs[1..])
  }

  /** Removing every loaded record by name, in any order, is always possible and empties
      both lists. */
  lemma LoadThenRemoveAll(rs: seq<City>, names: seq<string>)
    requires multiset(names) == KeptNames(rs)
    ensures RemovableAll(Load(rs), names)
    ensures RemoveAll(Load(rs), names) == Initial
  {
    LoadInv(rs);
    LoadStock(rs);
    StockRemovable(Load(rs), names);
    assert |names| == |multiset(names)|;
    RemoveAllEmpties(Load(rs), names);
  }
}
