/** The program's side of a game turn (nextMove and hasValidResponseNotEqualCity of
    GeographyGame): check the opponent's city, take it out, and answer with a city starting
    with its last letter, trying the letters that start the fewest names first. */
module Moves {

  import opened Wrappers
  import opened Cities
  import opened Tries
  import opened Ordering
  import opened Index

  /** The four answers nextMove gives. */
  datatype Outcome = OpponentOutOfCities | InvalidCity | Move(city: City) | NoValidResponse

  /** The text nextMove returns for each answer. */
  const Winner: string := "Winner"
  const Loser: string := "Loser"
  const OutOfCitiesRest: string := ". Opponent has run out of cities. Better luck next time."
  const InvalidRest: string := ". Opponents city is not valid or was previously used."
  const LoserRest: string := ". No valid response found that would give my opponent a valid choice."

  function Message(o: Outcome): (r: string)
    ensures o.OpponentOutOfCities? || o.InvalidCity? ==> StartsWith(r, Winner)
    ensures o.NoValidResponse? ==> StartsWith(r, Loser)
    ensures o.Move? ==> r == o.city.name
  {
    match o
    case OpponentOutOfCities => Winner + OutOfCitiesRest
    case InvalidCity => Winner + InvalidRest
    case Move(c) => c.name
    case NoValidResponse => Loser + LoserRest
  }

  predicate StartsWith(m: string, p: string) {
    |p| <= |m| && m[..|p|] == p
  }

  /** The test of the play loop that ends the game after an answer is written. */
  predicate EndsGame(m: string) {
    |m| == 0 || StartsWith(m, Loser) || StartsWith(m, Winner)
  }

  /** A move naming a stored city (the loader lower-cases names, so none starts with 'L' or
      'W') never ends the game; every other answer does. */
  lemma MessageEndsGame(o: Outcome)
    requires o.Move? ==> |o.city.name| > 0 && o.city.name[0] != 'L' && o.city.name[0] != 'W'
    ensures EndsGame(Message(o)) <==> !o.Move?
  {
    if o.Move? {
      assert !StartsWith(o.city.name, Loser) by {
        if |o.city.name| >= 5 { assert o.city.name[..5][0] == o.city.name[0]; }
      }
      assert !StartsWith(o.city.name, Winner) by {
        if |o.city.name| >= 6 { assert o.city.name[..6][0] == o.city.name[0]; }
      }
    } else {
      match o
      case NoValidResponse => assert (Loser + LoserRest)[..5] == Loser;
      case OpponentOutOfCities => assert (Winner + OutOfCitiesRest)[..6] == Winner;
      case InvalidCity => assert (Winner + InvalidRest)[..6] == Winner;
    }
  }

  // ------------------------------------------------------------------------------------------
  // hasValidResponseNotEqualCity

  /** Every partition's tries are well formed (getCityNameFromTrie reads cities.get(0) of a
      node whose isCity flag is set). */
  ghost predicate ValidHeads(heads: seq<Head>) {
    forall h :: h in heads ==> Valid(Root(h))
  }

  /** The loop of hasValidResponseNotEqualCity over the partitions, in list order: a partition
      with a positive count and a first-letter node for `k` where the excluding search finds
      a record. */
  function AnyAnswer(heads: seq<Head>, k: char, cn: City): (r: bool)
    requires ValidHeads(heads)
    ensures r <==> exists h :: h in heads && h.count > 0 && k in h.children && AnyRecordExcluding(h.children[k], cn).Some?
  {
    if |heads| == 0 then false
    else
      var nh := heads[0];
      assert forall h :: h in heads[1..] ==> h in heads;
      assert forall h :: h in heads ==> h == heads[0] || h in heads[1..];
      assert Valid(Root(nh)) && Root(nh).children == nh.children;
      (nh.count > 0 && k in nh.children && AnyRecordExcluding(nh.children[k], cn).Some?)
      || AnyAnswer(heads[1..], k, cn)
  }

  /** hasValidResponseNotEqualCity(cn): some partition's node for the last letter of `cn`
      yields a record under the excluding search. */
  function HasValidResponseNotEqualCity(s: GameState, cn: City): (r: bool)
    requires ValidHeads(s.heads) && |cn.name| > 0
    ensures r <==> exists h :: h in s.heads && h.count > 0 && Last(cn.name) in h.children
                              && AnyRecordExcluding(h.children[Last(cn.name)], cn).Some?
  {
    AnyAnswer(s.heads, Last(cn.name), cn)
  }

  /** What the check finds is a held record starting with the last letter of `cn`; it has a
      geonameid other than that of `cn` unless its name is longer than one letter (the
      exclusion is applied only at the first-letter node). */
  lemma HasValidSound(s: GameState, cn: City)
    requires Inv(s) && |cn.name| > 0 && HasValidResponseNotEqualCity(s, cn)
    ensures exists e :: e in AllRecords(s) && |e.name| > 0 && e.name[0] == Last(cn.name)
                        && (!SameCity(e, cn) || |e.name| > 1)
  {
    var k := Last(cn.name);
    var h :| h in s.heads && h.count > 0 && k in h.children && AnyRecordExcluding(h.children[k], cn).Some?;
    var e := AnyRecordExcluding(h.children[k], cn).value;
    assert |e.name| > 0 && e.name[0] == k && (!SameCity(e, cn) || |e.name| > 1) && e in UnderOf(h, k) by {
      ShapedChild(h, k);
      ExcludingBelow(h.children[k], k, h.key, cn, e);
    }
    assert e in AllRecords(s) by {
      UnderInTotals(s, h, k);
      UnderInHead(h, k);
    }
  }

  /** What the excluding search finds below first letter `k` starts with `k`, is stored
      there, and differs from `cn` unless its name is longer than one letter. */
  lemma ExcludingBelow(t: Trie, k: char, key: char, cn: City, e: City)
    requires Valid(t) && Stored(t, [k], key) && AnyRecordExcluding(t, cn) == Some(e)
    ensures |e.name| > 0 && e.name[0] == k && (!SameCity(e, cn) || |e.name| > 1) && e in Records(t)
  {
    AnyRecordExcludingFound(t, [k], key, cn, e);
    assert e.name[0] == e.name[..1][0];
  }

  /** With distinct geonameids the check succeeds whenever a held record other than `cn`
      starts with the last letter of `cn`. */
  lemma HasValidComplete(s: GameState, cn: City, e: City)
    requires Inv(s) && DistinctIds(AllRecords(s)) && |cn.name| > 0
    requires e in AllRecords(s) && |e.name| > 0 && e.name[0] == Last(cn.name) && !SameCity(e, cn)
    ensures HasValidResponseNotEqualCity(s, cn)
  {
    var k := Last(cn.name);
    RecordHome(s, e);
    var h :| h in s.heads && h.key == Last(e.name) && e in UnderOf(h, k);
    PartitionOf(s, h);
    ShapedChild(h, k);
    UnderInHead(h, k);
    UnderInTotals(s, h, k);
    DistinctIdsWithin(Records(h.children[k]), AllRecords(s));
    AnyRecordExcludingComplete(h.children[k], cn, e);
  }

  /** Any stored city of two or more letters that starts with its own last letter passes
      the check, because the search for a reply can return that very city. */
  lemma SelfAnswer(s: GameState, c: City)
    requires Inv(s) && DistinctIds(AllRecords(s)) && c in AllRecords(s)
    requires |c.name| > 1 && c.name[0] == Last(c.name)
    ensures HasValidResponseNotEqualCity(s, c)
  {
    var k := c.name[0];
    RecordHome(s, c);
    var h :| h in s.heads && h.key == Last(c.name) && c in UnderOf(h, k);
    PartitionOf(s, h);
    ShapedChild(h, k);
    var t := h.children[k];
    UnderInHead(h, k);
    UnderInTotals(s, h, k);
    DistinctIdsWithin(Records(t), AllRecords(s));
    SelfAnswerBelow(t, k, h.key, c);
  }

  /** The trie part: below the first-letter node, the excluding search finds a record when
      one of two or more letters is stored there. */
  lemma SelfAnswerBelow(t: Trie, k: char, key: char, c: City)
    requires Valid(t) && Live(t) && Stored(t, [k], key) && DistinctIds(Records(t))
    requires c in Records(t) && |c.name| > 1
    ensures AnyRecordExcluding(t, c).Some?
  {
    if t.isCity {
      var x := t.cities[0];
      StoredOwn(t, [k], key, x);
      assert x in Records(t);
      assert x != c;
    } else {
      RecordsOfMember(t, t.children.Keys, c);
      var a := FirstKey(t.children);
      LiveNodeHasRecords(t.children[a]);
      AnyRecordFindsIff(t.children[a]);
    }
  }

  // ------------------------------------------------------------------------------------------
  // The check the game rules ask for

  /** The corrected loop: the search excludes `cn` at every depth. */
  function AnyOther(heads: seq<Head>, k: char, cn: City): bool {
    if |heads| == 0 then false
    else
      var nh := heads[0];
      (nh.count > 0 && k in nh.children && AnyRecordOtherThan(nh.children[k], cn).Some?)
      || AnyOther(heads[1..], k, cn)
  }

  /** A reply to `cn` leaves the opponent an answer: some record other than `cn` starts with
      the last letter of `cn`. */
  function HasValidResponseOtherThan(s: GameState, cn: City): bool
    requires |cn.name| > 0
  {
    AnyOther(s.heads, Last(cn.name), cn)
  }

  lemma {:induction false} AnyOtherIff(heads: seq<Head>, k: char, cn: City)
    ensures AnyOther(heads, k, cn) <==>
      exists h :: h in heads && h.count > 0 && k in h.children && AnyRecordOtherThan(h.children[k], cn).Some?
  {
    if |heads| > 0 {
      AnyOtherIff(heads[1..], k, cn);
      assert forall h :: h in heads ==> h == heads[0] || h in heads[1..];
    }
  }

  /** The corrected check succeeds exactly when a held record with a geonameid other than
      that of `cn` starts with the last letter of `cn`. */
  lemma HasValidOtherIff(s: GameState, cn: City)
    requires Consistent(s) && |cn.name| > 0
    ensures HasValidResponseOtherThan(s, cn) <==>
      exists e :: e in AllRecords(s) && |e.name| > 0 && e.name[0] == Last(cn.name) && !SameCity(e, cn)
  {
    var k := Last(cn.name);
    AnyOtherIff(s.heads, k, cn);
    if HasValidResponseOtherThan(s, cn) {
      var h :| h in s.heads && h.count > 0 && k in h.children && AnyRecordOtherThan(h.children[k], cn).Some?;
      var e := AnyRecordOtherThan(h.children[k], cn).value;
      AnyRecordOtherThanIff(h.children[k], cn);
      OtherFoundStarts(s, h, k, e);
    }
    if exists e :: e in AllRecords(s) && |e.name| > 0 && e.name[0] == k && !SameCity(e, cn) {
      var e :| e in AllRecords(s) && |e.name| > 0 && e.name[0] == k && !SameCity(e, cn);
      RecordHome(s, e);
      var h :| h in s.heads && h.key == Last(e.name) && e in UnderOf(h, k);
      PartitionOf(s, h);
      AnyRecordOtherThanIff(h.children[k], cn);
    }
  }

  lemma OtherFoundStarts(s: GameState, h: Head, k: char, e: City)
    requires Consistent(s) && h in s.heads && k in h.children && e in Records(h.children[k])
    ensures e in AllRecords(s) && |e.name| > 0 && e.name[0] == k
  {
    PartitionOf(s, h);
    ShapedChild(h, k);
    StoredRecords(h.children[k], [k], h.key, e);
    assert e.name[0] == e.name[..1][0];
    UnderInHead(h, k);
    UnderInTotals(s, h, k);
  }

  // ------------------------------------------------------------------------------------------
  // nextMove

  /** Which reply check nextMove applies: hasValidResponseNotEqualCity as the source writes
      it, or the check the game rules ask for. */
  datatype Rule = AsWritten | AsIntended

  function Check(s: GameState, cn: City, rule: Rule): (r: bool)
    requires Inv(s) && |cn.name| > 0
    ensures r ==> LetterTotal(s, Last(cn.name)) > 0
  {
    match rule
    case AsWritten =>
      if HasValidResponseNotEqualCity(s, cn) then
        HasValidSound(s, cn);
        ResponseCounted(s, Last(cn.name));
        true
      else false
    case AsIntended =>
      if HasValidResponseOtherThan(s, cn) then
        HasValidOtherIff(s, cn);
        ResponseCounted(s, Last(cn.name));
        true
      else false
  }

  /** A held record starting with `f` shows in the first-letter list's count for `f`. */
  lemma ResponseCounted(s: GameState, f: char)
    requires Inv(s) && exists e :: e in AllRecords(s) && |e.name| > 0 && e.name[0] == f
    ensures LetterTotal(s, f) > 0
  {
    var e :| e in AllRecords(s) && |e.name| > 0 && e.name[0] == f;
    StartingWithIff(s, f, e);
  }

  /** The city nextMove considers at entry `i` of the first-letter list: the record the
      search finds among the names that start with `last` and end with the entry's letter. */
  function Candidate(s: GameState, last: char, i: int): (r: Option<City>)
    requires Inv(s) && 0 <= i < |s.letters|
    ensures r.Some? ==> && |r.value.name| > 0
                        && r.value.name[0] == last && Last(r.value.name) == s.letters[i].key
  {
    match Partition(s, s.letters[i].key)
    case None => None
    case Some(nh) =>
      if |nh.children| == 0 || last !in nh.children then None
      else
        ShapedChild(nh, last);
        var c := AnyRecord(nh.children[last]);
        if c.Some? then FirstFound(s, nh, last, c.value); c else c
  }

  /** The record the search finds below first letter `f` of a partition starts with `f`,
      ends with the partition key, and is the first record stored under its name. */
  lemma FirstFound(s: GameState, h: Head, f: char, c: City)
    requires Consistent(s) && h in s.heads && f in h.children
    requires Valid(h.children[f]) && AnyRecord(h.children[f]) == Some(c)
    ensures |c.name| > 0 && c.name[0] == f && Last(c.name) == h.key
    ensures |CitiesAt(Root(h), c.name)| > 0 && CitiesAt(Root(h), c.name)[0] == c
    ensures c in AllRecords(s)
  {
    PartitionOf(s, h);
    FoundInHead(h, f, c);
    UnderInHead(h, f);
    UnderInTotals(s, h, f);
  }

  lemma FoundInHead(h: Head, f: char, c: City)
    requires Shaped(h) && f in h.children
    requires Valid(h.children[f]) && AnyRecord(h.children[f]) == Some(c)
    ensures |c.name| > 0 && c.name[0] == f && Last(c.name) == h.key
    ensures |CitiesAt(Root(h), c.name)| > 0 && CitiesAt(Root(h), c.name)[0] == c
    ensures c in UnderOf(h, f)
  {
    ShapedChild(h, f);
    FoundBelow(h.children[f], f, h.key, c);
    CitiesAtCons(Root(h), c.name);
  }

  /** The same for the first-letter node on its own. */
  lemma FoundBelow(t: Trie, f: char, key: char, c: City)
    requires Valid(t) && Stored(t, [f], key) && AnyRecord(t) == Some(c)
    ensures |c.name| > 0 && c.name[0] == f && Last(c.name) == key
    ensures |CitiesAt(t, c.name[1..])| > 0 && CitiesAt(t, c.name[1..])[0] == c
    ensures c in Records(t)
  {
    AnyRecordFound(t, [f], key, c);
    assert c.name[0] == c.name[..1][0];
  }

  /** Such a record is what removeCity takes out for its name. */
  lemma FirstFoundRemovable(s: GameState, h: Head, c: City)
    requires Consistent(s) && h in s.heads && |c.name| > 0 && Last(c.name) == h.key
    requires |CitiesAt(Root(h), c.name)| > 0 && CitiesAt(Root(h), c.name)[0] == c
    ensures Removable(s, c.name) && |Stock(s, c.name)| > 0 && Stock(s, c.name)[0] == c
  {
    PartitionOf(s, h);
    assert Stock(s, c.name) == CitiesAt(Root(h), c.name);
    LookupIff(s, c.name);
    FoundIsRemovable(s, c.name);
  }

  /** A candidate starts with `last`, ends with the entry's letter, and is the first record
      stored under its name, so removeCity takes out that very record. */
  lemma CandidateFacts(s: GameState, last: char, i: int)
    requires Inv(s) && 0 <= i < |s.letters| && Candidate(s, last, i).Some?
    ensures var c := Candidate(s, last, i).value;
      && |c.name| > 0 && c.name[0] == last && Last(c.name) == s.letters[i].key
      && Removable(s, c.name) && |Stock(s, c.name)| > 0 && Stock(s, c.name)[0] == c
      && c in AllRecords(s)
  {
    var c := Candidate(s, last, i).value;
    var nh := Partition(s, s.letters[i].key).value;
    PartitionOf(s, nh);
    ShapedChild(nh, last);
    FirstFound(s, nh, last, c);
    FirstFoundRemovable(s, nh, c);
  }

  /** Entry `i` offers a candidate exactly when a held record starts with `last` and ends
      with the entry's letter. */
  lemma CandidateIff(s: GameState, last: char, i: int, x: City)
    requires Inv(s) && 0 <= i < |s.letters|
    requires x in AllRecords(s) && |x.name| > 0 && x.name[0] == last && Last(x.name) == s.letters[i].key
    ensures Candidate(s, last, i).Some?
  {
    RecordHome(s, x);
    var h :| h in s.heads && h.key == Last(x.name) && x in UnderOf(h, last);
    PartitionOf(s, h);
    HeadOffers(h, last, x);
    assert Partition(s, s.letters[i].key) == Some(h);
    assert |h.children| > 0;
  }

  /** A partition holding a record below first letter `f` has a node there on which the
      search finds a record. */
  lemma HeadOffers(h: Head, f: char, x: City)
    requires Shaped(h) && x in UnderOf(h, f)
    ensures f in h.children && Valid(h.children[f]) && AnyRecord(h.children[f]).Some?
  {
    ShapedChild(h, f);
    AnyRecordFindsIff(h.children[f]);
  }

  /** The loop of nextMove from entry `i` of the live first-letter list: an entry without a
      candidate is skipped; a candidate that passes the check is removed and returned; one
      that fails is removed and the loop goes on with the next index of the list as it now
      stands. */
  function Scan(s: GameState, last: char, i: nat, rule: Rule): (r: (GameState, Outcome))
    requires Inv(s)
    ensures r.1.Move? || r.1 == NoValidResponse
    decreases |s.letters| - i
  {
    if i >= |s.letters| then (s, NoValidResponse)
    else
      match Candidate(s, last, i)
      case None => Scan(s, last, i + 1, rule)
      case Some(cn) =>
        CandidateFacts(s, last, i);
        RemoveCityInv(s, cn.name);
        if Check(s, cn, rule) then (RemoveCity(s, cn.name), Move(cn))
        else Scan(RemoveCity(s, cn.name), last, i + 1, rule)
  }

  /** The state once the opponent's city is taken out. */
  function AfterOpponent(s: GameState, opp: string): (r: GameState)
    requires Inv(s) && LookupCity(s, opp) >= 0
    ensures Inv(r)
  {
    FoundIsRemovable(s, opp);
    RemoveCityInv(s, opp);
    RemoveCity(s, opp)
  }

  /** nextMove(opponentsCity), with the reply check chosen by `rule`: an empty name means the
      opponent has run out of cities; a name no partition holds is invalid (or already
      used); otherwise the opponent's city is taken out and the loop picks the answer. */
  function NextMove(s: GameState, opp: string, rule: Rule): (r: (GameState, Outcome))
    requires Inv(s)
    ensures Inv(r.0)
    ensures |opp| == 0 ==> r == (s, OpponentOutOfCities)
    ensures |opp| > 0 ==> (r.1 == InvalidCity <==> |Stock(s, opp)| == 0)
    ensures r.1 == InvalidCity ==> r.0 == s
  {
    if |opp| == 0 then (s, OpponentOutOfCities)
    else
      LookupIff(s, opp);
      if LookupCity(s, opp) < 0 then (s, InvalidCity)
      else
        ScanInv(AfterOpponent(s, opp), Last(opp), 0, rule);
        Scan(AfterOpponent(s, opp), Last(opp), 0, rule)
  }

  // ------------------------------------------------------------------------------------------
  // What the loop removes and returns

  /** The loop keeps the invariant. */
  lemma {:induction false} ScanInv(s: GameState, last: char, i: nat, rule: Rule)
    requires Inv(s)
    ensures Inv(Scan(s, last, i, rule).0)
    decreases |s.letters| - i
  {
    var r := Scan(s, last, i, rule);
    if i >= |s.letters| {
      assert r.0 == s;
    } else if Candidate(s, last, i).None? {
      ScanSkipStep(s, last, i, rule);
      ScanInv(s, last, i + 1, rule);
    } else {
      var cn := Candidate(s, last, i).value;
      ScanTakeStep(s, last, i, rule);
      if Check(s, cn, rule) {
        assert r.0 == RemoveCity(s, cn.name);
      } else {
        ScanInv(RemoveCity(s, cn.name), last, i + 1, rule);
      }
    }
  }

  /** `b` is `a` less some records, each starting with `last`. */
  ghost predicate TakesOnly(a: multiset<City>, b: multiset<City>, last: char) {
    && b <= a
    && forall x :: x in a - b ==> |x.name| > 0 && x.name[0] == last
  }

  /** Taking out one record starting with `last`. */
  lemma TakesOne(a: multiset<City>, a': multiset<City>, c: City, last: char)
    requires a' + multiset{c} == a && |c.name| > 0 && c.name[0] == last
    ensures TakesOnly(a, a', last) && c in a - a'
  {
    assert a - a' == multiset{c};
  }

  /** Taking out one more record starting with `last` before the rest. */
  lemma TakesOnlyStep(a: multiset<City>, a': multiset<City>, b: multiset<City>, c: City, last: char)
    requires a' + multiset{c} == a && |c.name| > 0 && c.name[0] == last
    requires TakesOnly(a', b, last)
    ensures TakesOnly(a, b, last)
    ensures forall y :: y in a' - b ==> y in a - b
  {
    forall x | x in a - b ensures |x.name| > 0 && x.name[0] == last {
      if x != c {
        assert x in a' - b;
      }
    }
  }

  /** After move `c` the opponent can still answer: a held record starts with the last letter
      of `c`. As written, the check also lets through a move that starts with its own last
      letter, which is the only reply it leaves. */
  ghost predicate Answerable(s: GameState, c: City, rule: Rule)
    requires |c.name| > 0
  {
    || (exists e :: e in AllRecords(s) && |e.name| > 0 && e.name[0] == Last(c.name))
    || (rule == AsWritten && |c.name| > 1 && c.name[0] == Last(c.name))
  }

  /** After a passed check, a reply is left for the opponent: a record starting with the
      last letter of the move survives its removal, except (as written) when the move starts
      with its own last letter. */
  lemma ReplyLeft(s: GameState, c: City, rule: Rule)
    requires Inv(s) && |c.name| > 0 && Removable(s, c.name) && |Stock(s, c.name)| > 0 && Stock(s, c.name)[0] == c
    requires Check(s, c, rule)
    ensures Answerable(RemoveCity(s, c.name), c, rule)
  {
    var r := RemoveCity(s, c.name);
    RemoveCityRecords(s, c.name);
    assert AllRecords(r) + multiset{c} == AllRecords(s);
    if rule == AsIntended {
      HasValidOtherIff(s, c);
      var e :| e in AllRecords(s) && |e.name| > 0 && e.name[0] == Last(c.name) && !SameCity(e, c);
      assert e in AllRecords(r);
    } else {
      HasValidSound(s, c);
      var e :| e in AllRecords(s) && |e.name| > 0 && e.name[0] == Last(c.name) && (!SameCity(e, c) || |e.name| > 1);
      if e != c {
        assert e in AllRecords(r);
      }
    }
  }

  /** The loop removes only cities starting with `last`, and a returned move is one of them. */
  lemma ScanConsumes(s: GameState, last: char, i: nat, rule: Rule)
    requires Inv(s)
    ensures TakesOnly(AllRecords(s), AllRecords(Scan(s, last, i, rule).0), last)
    ensures Scan(s, last, i, rule).1.Move? ==>
      Scan(s, last, i, rule).1.city in AllRecords(s) - AllRecords(Scan(s, last, i, rule).0)
  {
    ScanTakesOnly(s, last, i, rule);
    ScanMoveTaken(s, last, i, rule);
  }

  /** The removal side of ScanConsumes. */
  lemma {:induction false} ScanTakesOnly(s: GameState, last: char, i: nat, rule: Rule)
    requires Inv(s)
    ensures TakesOnly(AllRecords(s), AllRecords(Scan(s, last, i, rule).0), last)
    decreases |s.letters| - i
  {
    var r := Scan(s, last, i, rule);
    if i >= |s.letters| {
      ScanStop(s, last, i, rule);
    } else if Candidate(s, last, i).None? {
      ScanSkipStep(s, last, i, rule);
      ScanTakesOnly(s, last, i + 1, rule);
      assert r == Scan(s, last, i + 1, rule);
    } else if Check(s, Candidate(s, last, i).value, rule) {
      ScanAcceptStep(s, last, i, rule);
    } else {
      var cn := Candidate(s, last, i).value;
      ScanRejectStep(s, last, i, rule);
      var s' := RemoveCity(s, cn.name);
      ScanTakesOnly(s', last, i + 1, rule);
      assert r == Scan(s', last, i + 1, rule);
      TakesOnlyStep(AllRecords(s), AllRecords(s'), AllRecords(r.0), cn, last);
    }
  }

  /** The move side of ScanConsumes. */
  lemma {:induction false} ScanMoveTaken(s: GameState, last: char, i: nat, rule: Rule)
    requires Inv(s)
    ensures Scan(s, last, i, rule).1.Move? ==>
      Scan(s, last, i, rule).1.city in AllRecords(s) - AllRecords(Scan(s, last, i, rule).0)
    decreases |s.letters| - i
  {
    var r := Scan(s, last, i, rule);
    if i >= |s.letters| {
      ScanStop(s, last, i, rule);
    } else if Candidate(s, last, i).None? {
      ScanSkipStep(s, last, i, rule);
      ScanMoveTaken(s, last, i + 1, rule);
      assert r == Scan(s, last, i + 1, rule);
    } else if Check(s, Candidate(s, last, i).value, rule) {
      ScanAcceptStep(s, last, i, rule);
    } else {
      var cn := Candidate(s, last, i).value;
      ScanRejectStep(s, last, i, rule);
      var s' := RemoveCity(s, cn.name);
      ScanMoveTaken(s', last, i + 1, rule);
      assert r == Scan(s', last, i + 1, rule);
      if r.1.Move? {
        DiffGrows(AllRecords(s), AllRecords(s'), AllRecords(r.0), r.1.city);
      }
    }
  }

  /** Past the end of the list the loop stops with the state unchanged. */
  lemma ScanStop(s: GameState, last: char, i: nat, rule: Rule)
    requires Inv(s) && i >= |s.letters|
    ensures Scan(s, last, i, rule) == (s, NoValidResponse)
    ensures TakesOnly(AllRecords(s), AllRecords(s), last)
  {
    assert AllRecords(s) - AllRecords(s) == multiset{};
  }

  /** A candidate that passes the check is removed and returned. */
  lemma ScanAcceptStep(s: GameState, last: char, i: nat, rule: Rule)
    requires Inv(s) && i < |s.letters| && Candidate(s, last, i).Some?
    requires Check(s, Candidate(s, last, i).value, rule)
    ensures var r := Scan(s, last, i, rule);
      && TakesOnly(AllRecords(s), AllRecords(r.0), last)
      && r.1.Move? && r.1.city in AllRecords(s) - AllRecords(r.0)
  {
    var cn := Candidate(s, last, i).value;
    ScanTakeStep(s, last, i, rule);
    var s' := RemoveCity(s, cn.name);
    assert Scan(s, last, i, rule) == (s', Move(cn));
    RemoveCityRecords(s, cn.name);
    TakesOne(AllRecords(s), AllRecords(s'), cn, last);
  }

  /** A candidate that fails the check is removed and the loop goes on with the next entry. */
  lemma ScanRejectStep(s: GameState, last: char, i: nat, rule: Rule)
    requires Inv(s) && i < |s.letters| && Candidate(s, last, i).Some?
    requires !Check(s, Candidate(s, last, i).value, rule)
    ensures Removable(s, Candidate(s, last, i).value.name)
    ensures var cn := Candidate(s, last, i).value; var s' := RemoveCity(s, cn.name);
      && |cn.name| > 0 && cn.name[0] == last
      && Inv(s') && AllRecords(s') + multiset{cn} == AllRecords(s)
      && Scan(s, last, i, rule) == Scan(s', last, i + 1, rule)
  {
    var cn := Candidate(s, last, i).value;
    ScanTakeStep(s, last, i, rule);
    RemoveCityRecords(s, cn.name);
  }

  /** Removing from a smaller store removes from the larger one. */
  lemma DiffGrows(a: multiset<City>, a': multiset<City>, b: multiset<City>, y: City)
    requires a' <= a && y in a' - b
    ensures y in a - b
  {
    assert a'[y] > b[y];
  }

  /** A returned move leaves the opponent a reply; as written, the only exception is a move
      that starts with its own last letter. */
  lemma {:induction false} ScanReply(s: GameState, last: char, i: nat, rule: Rule)
    requires Inv(s) && Scan(s, last, i, rule).1.Move?
    ensures |Scan(s, last, i, rule).1.city.name| > 0
    ensures Answerable(Scan(s, last, i, rule).0, Scan(s, last, i, rule).1.city, rule)
    decreases |s.letters| - i
  {
    var r := Scan(s, last, i, rule);
    if Candidate(s, last, i).None? {
      ScanSkipStep(s, last, i, rule);
      assert r == Scan(s, last, i + 1, rule);
      ScanReply(s, last, i + 1, rule);
    } else {
      var cn := Candidate(s, last, i).value;
      ScanTakeStep(s, last, i, rule);
      if Check(s, cn, rule) {
        assert r == (RemoveCity(s, cn.name), Move(cn));
        ReplyLeft(s, cn, rule);
      } else {
        assert r == Scan(RemoveCity(s, cn.name), last, i + 1, rule);
        ScanReply(RemoveCity(s, cn.name), last, i + 1, rule);
      }
    }
  }

  // ------------------------------------------------------------------------------------------
  // Which candidate the loop settles on

  /** The first entry from `i` on that offers a candidate, or the list length. */
  ghost function FirstCandidate(s: GameState, last: char, i: nat): (j: nat)
    requires Inv(s) && i <= |s.letters|
    ensures i <= j <= |s.letters|
    ensures j < |s.letters| ==> Candidate(s, last, j).Some?
    decreases |s.letters| - i
  {
    if i == |s.letters| || Candidate(s, last, i).Some? then i else FirstCandidate(s, last, i + 1)
  }

  /** No entry before the first candidate entry offers one. */
  lemma {:induction false} FirstCandidateLeast(s: GameState, last: char, i: nat, k: int)
    requires Inv(s) && i <= k < |s.letters| && Candidate(s, last, k).Some?
    ensures FirstCandidate(s, last, i) <= k
    decreases |s.letters| - i
  {
    var j := FirstCandidate(s, last, i);
    if Candidate(s, last, i).None? {
      assert i < k;
      assert j == FirstCandidate(s, last, i + 1);
      FirstCandidateLeast(s, last, i + 1, k);
    }
  }

  /** The candidate at entry `j` fails the check. */
  ghost predicate Rejected(s: GameState, last: char, j: nat, rule: Rule)
    requires Inv(s) && j < |s.letters|
  {
    && Candidate(s, last, j).Some?
    && |Candidate(s, last, j).value.name| > 0
    && !Check(s, Candidate(s, last, j).value, rule)
  }

  /** An entry with a candidate: the candidate is taken out, and it is either the move or
      the loop goes on with the next entry. */
  lemma ScanTakeStep(s: GameState, last: char, i: nat, rule: Rule)
    requires Inv(s) && i < |s.letters| && Candidate(s, last, i).Some?
    ensures var cn := Candidate(s, last, i).value;
      && |cn.name| > 0 && cn.name[0] == last
      && Removable(s, cn.name) && |Stock(s, cn.name)| > 0 && Stock(s, cn.name)[0] == cn
      && Inv(RemoveCity(s, cn.name))
      && Scan(s, last, i, rule) ==
           if Check(s, cn, rule) then (RemoveCity(s, cn.name), Move(cn))
           else Scan(RemoveCity(s, cn.name), last, i + 1, rule)
  {
    var cn := Candidate(s, last, i).value;
    CandidateFacts(s, last, i);
    RemoveCityInv(s, cn.name);
  }

  /** An entry without a candidate changes nothing. */
  lemma ScanSkipStep(s: GameState, last: char, i: nat, rule: Rule)
    requires Inv(s) && i < |s.letters| && Candidate(s, last, i).None?
    ensures Scan(s, last, i, rule) == Scan(s, last, i + 1, rule)
  {
  }

  /** Entries without a candidate change nothing: the loop behaves as if it started at the
      first entry that offers one. */
  lemma {:induction false} ScanSkips(s: GameState, last: char, i: nat, rule: Rule)
    requires Inv(s) && i <= |s.letters|
    ensures Scan(s, last, i, rule) == Scan(s, last, FirstCandidate(s, last, i), rule)
    decreases |s.letters| - i
  {
    var r := Scan(s, last, i, rule);
    if i < |s.letters| && Candidate(s, last, i).None? {
      assert FirstCandidate(s, last, i) == FirstCandidate(s, last, i + 1);
      ScanSkipStep(s, last, i, rule);
      ScanSkips(s, last, i + 1, rule);
      assert r == Scan(s, last, i + 1, rule);
    } else {
      assert FirstCandidate(s, last, i) == i;
    }
  }

  lemma CandidateStarts(s: GameState, last: char, i: int)
    requires Inv(s) && 0 <= i < |s.letters|
    ensures Candidate(s, last, i).Some? ==> Candidate(s, last, i).value in StartingWith(s, last)
  {
    if Candidate(s, last, i).Some? {
      CandidateFacts(s, last, i);
      StartingWithIff(s, last, Candidate(s, last, i).value);
    }
  }

  /** With no record starting with `last` left, the loop runs out and the state stays. */
  lemma {:induction false} ScanNoCandidates(s: GameState, last: char, i: nat, rule: Rule)
    requires Inv(s) && StartingWith(s, last) == multiset{}
    ensures Scan(s, last, i, rule) == (s, NoValidResponse)
    decreases |s.letters| - i
  {
    var r := Scan(s, last, i, rule);
    if i < |s.letters| {
      CandidateStarts(s, last, i);
      ScanSkipStep(s, last, i, rule);
      ScanNoCandidates(s, last, i + 1, rule);
      assert r == Scan(s, last, i + 1, rule);
    } else {
      ScanStop(s, last, i, rule);
    }
  }

  /** Either check succeeds when, with distinct ids, another record starts with the last
      letter of `cn`. */
  lemma CheckComplete(s: GameState, cn: City, rule: Rule, e: City)
    requires Inv(s) && DistinctIds(AllRecords(s)) && |cn.name| > 0
    requires e in AllRecords(s) && |e.name| > 0 && e.name[0] == Last(cn.name)
    ensures Check(s, cn, rule) || SameCity(e, cn)
  {
    if !SameCity(e, cn) {
      if rule == AsWritten {
        HasValidComplete(s, cn, e);
      } else {
        HasValidOtherIff(s, cn);
      }
    }
  }

  /** A candidate fails the check only when it is the one record starting with `last` and no
      other record starts with its last letter; the letter it ends with is then `last`. */
  lemma RejectFacts(s: GameState, last: char, j: nat, rule: Rule)
    requires Inv(s) && DistinctIds(AllRecords(s)) && j < |s.letters| && Rejected(s, last, j, rule)
    ensures var cn := Candidate(s, last, j).value;
      && StartingWith(s, last) == multiset{cn}
      && forall e :: e in AllRecords(s) && |e.name| > 0 && e.name[0] == Last(cn.name) ==> SameCity(e, cn)
  {
    var cn := Candidate(s, last, j).value;
    CandidateFacts(s, last, j);
    forall e | e in AllRecords(s) && |e.name| > 0 && e.name[0] == Last(cn.name) ensures SameCity(e, cn) {
      CheckComplete(s, cn, rule, e);
    }
    var key := s.letters[j].key;
    LookupUnique(s.letters, LetterKey, s.letters[j]);
    assert LetterTotal(s, key) > 0;
    assert StartingWith(s, key) != multiset{};
    var e0 :| e0 in StartingWith(s, key);
    StartingWithNamed(s, key, e0);
    assert e0 == cn;
    assert forall y :: y in StartingWith(s, last) ==> y == cn by {
      forall y | y in StartingWith(s, last) ensures y == cn {
        StartingWithNamed(s, last, y);
      }
    }
    assert cn in StartingWith(s, last) && StartingWith(s, last) <= AllRecords(s) by {
      StartingWithIff(s, last, cn);
      StartingWithPart(s, last);
    }
    OnlyMember(AllRecords(s), StartingWith(s, last), cn);
  }

  /** A part of a store with distinct records that holds `x` and nothing else is `{x}`. */
  lemma OnlyMember(a: multiset<City>, b: multiset<City>, x: City)
    requires DistinctIds(a) && b <= a && x in b && forall y :: y in b ==> y == x
    ensures b == multiset{x}
  {
    assert b[x] == 1;
    forall y ensures b[y] == multiset{x}[y] {
      if y != x {
        assert y !in b;
      }
    }
  }

  /** After a rejection no record starting with `last` is left. */
  lemma RejectEmpties(s: GameState, last: char, j: nat, rule: Rule)
    requires Inv(s) && DistinctIds(AllRecords(s)) && j < |s.letters| && Rejected(s, last, j, rule)
    ensures Removable(s, Candidate(s, last, j).value.name)
    ensures StartingWith(RemoveCity(s, Candidate(s, last, j).value.name), last) == multiset{}
  {
    var cn := Candidate(s, last, j).value;
    CandidateFacts(s, last, j);
    RejectFacts(s, last, j, rule);
    RemoveCityStarting(s, cn.name, last);
  }

  /** A candidate that passes the check is played. */
  lemma ScanAccepts(s: GameState, last: char, j: nat, rule: Rule)
    requires Inv(s) && j < |s.letters| && Candidate(s, last, j).Some?
    requires |Candidate(s, last, j).value.name| > 0 && Check(s, Candidate(s, last, j).value, rule)
    ensures Scan(s, last, j, rule).1 == Move(Candidate(s, last, j).value)
  {
  }

  /** With distinct ids, a rejected candidate is still taken out, and the loop then ends
      without a move. */
  lemma ScanRejects(s: GameState, last: char, j: nat, rule: Rule)
    requires Inv(s) && DistinctIds(AllRecords(s)) && j < |s.letters| && Rejected(s, last, j, rule)
    ensures Removable(s, Candidate(s, last, j).value.name)
    ensures Scan(s, last, j, rule) == (RemoveCity(s, Candidate(s, last, j).value.name), NoValidResponse)
  {
    var cn := Candidate(s, last, j).value;
    RejectEmpties(s, last, j, rule);
    RemoveCityInv(s, cn.name);
    ScanNoCandidates(RemoveCity(s, cn.name), last, j + 1, rule);
    assert Scan(s, last, j, rule) == Scan(RemoveCity(s, cn.name), last, j + 1, rule);
  }

  /** With distinct ids, the loop decides at the first entry that offers a candidate: it
      plays that candidate if it passes the check, and otherwise gives up. */
  lemma ScanFirst(s: GameState, last: char, rule: Rule)
    requires Inv(s) && DistinctIds(AllRecords(s))
    ensures var r := Scan(s, last, 0, rule); var j := FirstCandidate(s, last, 0);
      && (r.1.Move? ==> j < |s.letters| && Candidate(s, last, j) == Some(r.1.city)
                        && |r.1.city.name| > 0 && Check(s, r.1.city, rule))
      && (r.1 == NoValidResponse && j < |s.letters| ==> Rejected(s, last, j, rule))
  {
    var j := FirstCandidate(s, last, 0);
    ScanSkips(s, last, 0, rule);
    if j < |s.letters| {
      var cn := Candidate(s, last, j).value;
      CandidateFacts(s, last, j);
      if Check(s, cn, rule) {
        ScanAccepts(s, last, j, rule);
      } else {
        ScanRejects(s, last, j, rule);
      }
    }
  }

  /** With distinct ids, the loop's whole effect: with no entry offering a candidate the
      state stays and the answer is Loser; otherwise exactly the first candidate is taken
      out, and it is the move if it passes the check and the Loser answer if not. */
  lemma ScanState(s: GameState, last: char, rule: Rule)
    requires Inv(s) && DistinctIds(AllRecords(s))
    ensures var r := Scan(s, last, 0, rule); var j := FirstCandidate(s, last, 0);
      && (j == |s.letters| ==> r == (s, NoValidResponse))
      && (j < |s.letters| ==>
            var cn := Candidate(s, last, j).value;
            && Removable(s, cn.name)
            && r == (RemoveCity(s, cn.name), if Check(s, cn, rule) then Move(cn) else NoValidResponse))
  {
    var j := FirstCandidate(s, last, 0);
    ScanSkips(s, last, 0, rule);
    if j < |s.letters| {
      var cn := Candidate(s, last, j).value;
      CandidateFacts(s, last, j);
      if !Check(s, cn, rule) {
        ScanRejects(s, last, j, rule);
      }
    }
  }

  /** A record starting with `last` whose last letter starts some record bounds the first
      candidate entry: that entry exists and its count is no larger. */
  lemma FirstCandidateBound(s: GameState, last: char, x: City)
    requires Inv(s) && x in AllRecords(s) && |x.name| > 0 && x.name[0] == last
    requires LetterTotal(s, Last(x.name)) > 0
    ensures FirstCandidate(s, last, 0) < |s.letters|
    ensures s.letters[FirstCandidate(s, last, 0)].count <= LetterTotal(s, Last(x.name))
  {
    var k := Position(s.letters, LetterKey, Last(x.name));
    assert 0 <= k && s.letters[k].key == Last(x.name) && s.letters[k].count == LetterTotal(s, Last(x.name));
    CandidateIff(s, last, k, x);
    var j := FirstCandidate(s, last, 0);
    FirstCandidateLeast(s, last, 0, k);
    assert j <= k;
    assert s.letters[j].count <= s.letters[k].count;
  }

  // ------------------------------------------------------------------------------------------
  // nextMove, end to end

  /** Taking out the opponent's city removes its first record of that name. */
  lemma OpponentLeaves(s: GameState, opp: string)
    requires Inv(s) && LookupCity(s, opp) >= 0
    ensures |opp| > 0 && |Stock(s, opp)| > 0
    ensures AllRecords(AfterOpponent(s, opp)) + multiset{Stock(s, opp)[0]} == AllRecords(s)
  {
    FoundIsRemovable(s, opp);
    RemoveCityRecords(s, opp);
  }

  /** After the opponent's city, nextMove takes out only cities starting with its last
      letter; a move is one of those. */
  lemma NextMoveConsumes(s: GameState, opp: string, rule: Rule)
    requires Inv(s) && LookupCity(s, opp) >= 0
    ensures var r := NextMove(s, opp, rule);
      && (r.1.Move? || r.1 == NoValidResponse)
      && TakesOnly(AllRecords(AfterOpponent(s, opp)), AllRecords(r.0), Last(opp))
      && (r.1.Move? ==> r.1.city in AllRecords(AfterOpponent(s, opp)) - AllRecords(r.0)
                        && |r.1.city.name| > 0 && r.1.city.name[0] == Last(opp))
  {
    OpponentLeaves(s, opp);
    ScanConsumes(AfterOpponent(s, opp), Last(opp), 0, rule);
  }

  /** A move leaves the opponent a reply; as written, except for a move that starts with its
      own last letter. */
  lemma NextMoveReply(s: GameState, opp: string, rule: Rule)
    requires Inv(s) && NextMove(s, opp, rule).1.Move?
    ensures |NextMove(s, opp, rule).1.city.name| > 0
    ensures Answerable(NextMove(s, opp, rule).0, NextMove(s, opp, rule).1.city, rule)
  {
    ScanReply(AfterOpponent(s, opp), Last(opp), 0, rule);
  }

  /** The loop's move ends with the letter that starts the fewest records among the last
      letters of all possible replies (the first-letter list is ascending, ties in list
      order). */
  lemma ScanGreedy(s: GameState, last: char, rule: Rule)
    requires Inv(s) && DistinctIds(AllRecords(s)) && Scan(s, last, 0, rule).1.Move?
    ensures var c := Scan(s, last, 0, rule).1.city;
      && |c.name| > 0 && c in AllRecords(s) && c.name[0] == last
      && LetterTotal(s, Last(c.name)) > 0
      && forall x :: x in AllRecords(s) && |x.name| > 0 && x.name[0] == last && LetterTotal(s, Last(x.name)) > 0
           ==> LetterTotal(s, Last(c.name)) <= LetterTotal(s, Last(x.name))
  {
    ScanFirst(s, last, rule);
    var j := FirstCandidate(s, last, 0);
    CandidateFacts(s, last, j);
    LookupUnique(s.letters, LetterKey, s.letters[j]);
    forall x | x in AllRecords(s) && |x.name| > 0 && x.name[0] == last && LetterTotal(s, Last(x.name)) > 0
      ensures s.letters[j].count <= LetterTotal(s, Last(x.name))
    {
      FirstCandidateBound(s, last, x);
    }
  }

  /** With distinct ids, the loop gives up only when no city starting with `last` has a
      reply other than itself. */
  lemma ScanLoserHonest(s: GameState, last: char, rule: Rule)
    requires Inv(s) && DistinctIds(AllRecords(s)) && Scan(s, last, 0, rule).1 == NoValidResponse
    ensures forall c, e :: c in AllRecords(s) && |c.name| > 0 && c.name[0] == last
                           && e in AllRecords(s) && |e.name| > 0 && e.name[0] == Last(c.name)
                           ==> SameCity(e, c)
  {
    ScanFirst(s, last, rule);
    var j := FirstCandidate(s, last, 0);
    forall c, e | c in AllRecords(s) && |c.name| > 0 && c.name[0] == last
                  && e in AllRecords(s) && |e.name| > 0 && e.name[0] == Last(c.name)
      ensures SameCity(e, c)
    {
      StartingWithIff(s, Last(c.name), e);
      FirstCandidateBound(s, last, c);
      RejectFacts(s, last, j, rule);
      StartingWithIff(s, last, c);
    }
  }

  /** nextMove's answer ends with the letter that starts the fewest records among the last
      letters of all possible replies, counted once the opponent's city is out. */
  lemma NextMoveGreedy(s: GameState, opp: string, rule: Rule)
    requires Inv(s) && DistinctIds(AllRecords(s)) && LookupCity(s, opp) >= 0
    requires NextMove(s, opp, rule).1.Move?
    ensures var s1 := AfterOpponent(s, opp); var c := NextMove(s, opp, rule).1.city;
      && |opp| > 0 && |c.name| > 0 && c in AllRecords(s1) && c.name[0] == Last(opp)
      && LetterTotal(s1, Last(c.name)) > 0
      && forall x :: x in AllRecords(s1) && |x.name| > 0 && x.name[0] == Last(opp) && LetterTotal(s1, Last(x.name)) > 0
           ==> LetterTotal(s1, Last(c.name)) <= LetterTotal(s1, Last(x.name))
  {
    var s1 := AfterOpponent(s, opp);
    OpponentLeaves(s, opp);
    DistinctIdsWithin(AllRecords(s1), AllRecords(s));
    ScanGreedy(s1, Last(opp), rule);
  }

  /** With distinct ids, nextMove gives up only when no city starting with the opponent's
      last letter has a reply other than itself. */
  lemma NextMoveLoserHonest(s: GameState, opp: string, rule: Rule)
    requires Inv(s) && DistinctIds(AllRecords(s)) && LookupCity(s, opp) >= 0
    requires NextMove(s, opp, rule).1 == NoValidResponse
    ensures var s1 := AfterOpponent(s, opp);
      forall c, e :: c in AllRecords(s1) && |c.name| > 0 && c.name[0] == Last(opp)
                     && e in AllRecords(s1) && |e.name| > 0 && e.name[0] == Last(c.name)
                     ==> SameCity(e, c)
  {
    var s1 := AfterOpponent(s, opp);
    OpponentLeaves(s, opp);
    DistinctIdsWithin(AllRecords(s1), AllRecords(s));
    ScanLoserHonest(s1, Last(opp), rule);
  }

  /** With distinct ids, nextMove's whole effect on a held opponent city: that city and then
      exactly the first candidate for its last letter are taken out; the candidate is the
      move if it passes the check, and otherwise the answer is Loser. With no candidate, only
      the opponent's city goes. */
  lemma NextMoveState(s: GameState, opp: string, rule: Rule)
    requires Inv(s) && DistinctIds(AllRecords(s)) && LookupCity(s, opp) >= 0
    ensures var s1 := AfterOpponent(s, opp); var r := NextMove(s, opp, rule);
      var j := FirstCandidate(s1, Last(opp), 0);
      && (j == |s1.letters| ==> r == (s1, NoValidResponse))
      && (j < |s1.letters| ==>
            var cn := Candidate(s1, Last(opp), j).value;
            && Removable(s1, cn.name)
            && r == (RemoveCity(s1, cn.name), if Check(s1, cn, rule) then Move(cn) else NoValidResponse))
  {
    var s1 := AfterOpponent(s, opp);
    assert DistinctIds(AllRecords(s1)) && NextMove(s, opp, rule) == Scan(s1, Last(opp), 0, rule) by {
      OpponentLeaves(s, opp);
      DistinctIdsWithin(AllRecords(s1), AllRecords(s));
    }
    ScanState(s1, Last(opp), rule);
  }

  // ------------------------------------------------------------------------------------------
  // A move that leaves the opponent nothing

  /** An opponent's city `t` and a stored city `o` that starts and ends with the last letter
      of `t`, with different names and geonameids. */
  predicate SelfAnswerPair(t: City, o: City) {
    && |t.name| > 0 && |o.name| > 1
    && o.name[0] == Last(o.name) && Last(o.name) == Last(t.name)
    && t.name != o.name && t.id != o.id
  }

  const Toronto: City := City("toronto", "Canada", "Ontario", 6167865)
  const Orlando: City := City("orlando", "United States", "Florida", 4167147)

  lemma TorontoOrlando()
    ensures SelfAnswerPair(Toronto, Orlando)
  {
    assert Toronto.name != Orlando.name by {
      assert Toronto.name[0] != Orlando.name[0];
    }
  }

  /** Loading the pair stores both; the name of `t` names `t` alone. */
  lemma ExampleLoad(t: City, o: City)
    requires SelfAnswerPair(t, o)
    ensures Inv(Load([t, o]))
    ensures AllRecords(Load([t, o])) == multiset{t, o}
    ensures Stock(Load([t, o]), t.name) == [t]
    ensures LookupCity(Load([t, o]), t.name) >= 0
  {
    var rs := [t, o];
    PairKept(t, o);
    LoadInv(rs);
    LoadStock(rs);
    PairNamed(t, o);
    LoadFinds(rs, t.name);
    assert rs[0].name == t.name;
  }

  lemma PairKept(t: City, o: City)
    requires |t.name| > 0 && |o.name| > 0
    ensures Kept([t, o]) == multiset{t, o}
  {
    var rs := [t, o];
    assert rs[1..] == [o] && rs[1..][1..] == [];
    assert Kept(rs[1..]) == multiset{o};
  }

  lemma PairNamed(t: City, o: City)
    requires t.name != o.name
    ensures Named([t, o], t.name) == [t]
  {
    var rs := [t, o];
    assert rs[1..] == [o] && rs[1..][1..] == [];
    assert Named(rs[1..], t.name) == [];
  }

  /** Taking `t` out of a state that holds `t` and `o`, with `t` the only city of its name,
      leaves `o` alone. */
  lemma LeavesOther(s: GameState, t: City, o: City)
    requires Inv(s) && LookupCity(s, t.name) >= 0
    requires AllRecords(s) == multiset{t, o} && Stock(s, t.name) == [t]
    ensures AllRecords(AfterOpponent(s, t.name)) == multiset{o}
  {
    OpponentLeaves(s, t.name);
    OtherOfPair(AllRecords(AfterOpponent(s, t.name)), t, o);
  }

  lemma OtherOfPair(a: multiset<City>, t: City, o: City)
    requires a + multiset{t} == multiset{t, o}
    ensures a == multiset{o}
  {
    assert multiset{t, o} == multiset{o} + multiset{t};
    Cancel(a, multiset{o}, multiset{t});
  }

  /** Taking out the opponent's city then leaves only `o`. */
  lemma ExampleState(t: City, o: City)
    requires SelfAnswerPair(t, o)
    ensures Inv(Load([t, o])) && LookupCity(Load([t, o]), t.name) >= 0
    ensures var s1 := AfterOpponent(Load([t, o]), t.name);
      AllRecords(s1) == multiset{o} && DistinctIds(AllRecords(s1))
  {
    var s := Load([t, o]);
    ExampleLoad(t, o);
    LeavesOther(s, t, o);
  }

  /** In that state the loop's first candidate is `o`. */
  lemma ExampleCandidate(t: City, o: City, rule: Rule)
    requires SelfAnswerPair(t, o)
    ensures Inv(Load([t, o])) && LookupCity(Load([t, o]), t.name) >= 0
    ensures var s1 := AfterOpponent(Load([t, o]), t.name); var last := Last(t.name);
      && AllRecords(s1) == multiset{o} && DistinctIds(AllRecords(s1))
      && NextMove(Load([t, o]), t.name, rule) == Scan(s1, last, 0, rule)
      && FirstCandidate(s1, last, 0) < |s1.letters|
      && Candidate(s1, last, FirstCandidate(s1, last, 0)) == Some(o)
  {
    var s := Load([t, o]);
    var last := Last(t.name);
    ExampleState(t, o);
    var s1 := AfterOpponent(s, t.name);
    StartingWithIff(s1, last, o);
    FirstCandidateBound(s1, last, o);
    CandidateFacts(s1, last, FirstCandidate(s1, last, 0));
  }

  /** As written, nextMove answers `t` with `o` (for instance "toronto" with "orlando"): the
      check finds `o` itself as the opponent's reply, and afterwards no city is left at all. */
  lemma SelfAnswerExample(t: City, o: City)
    requires SelfAnswerPair(t, o)
    ensures Inv(Load([t, o]))
    ensures NextMove(Load([t, o]), t.name, AsWritten).1 == Move(o)
    ensures AllRecords(NextMove(Load([t, o]), t.name, AsWritten).0) == multiset{}
  {
    ExampleCandidate(t, o, AsWritten);
    var last := Last(t.name);
    var s1 := AfterOpponent(Load([t, o]), t.name);
    var r := Scan(s1, last, 0, AsWritten);
    ScanFirst(s1, last, AsWritten);
    ScanConsumes(s1, last, 0, AsWritten);
    SelfAnswer(s1, o);
    assert r.1 == Move(o);
    assert o in AllRecords(s1) - AllRecords(r.0);
  }

  /** With the check the game rules ask for, the program gives up instead. */
  lemma SelfAnswerRefused(t: City, o: City)
    requires SelfAnswerPair(t, o)
    ensures Inv(Load([t, o]))
    ensures NextMove(Load([t, o]), t.name, AsIntended).1 == NoValidResponse
  {
    ExampleCandidate(t, o, AsIntended);
    var s1 := AfterOpponent(Load([t, o]), t.name);
    ScanFirst(s1, Last(t.name), AsIntended);
    HasValidOtherIff(s1, o);
  }

}
