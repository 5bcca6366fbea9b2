/** GeoGameController, the referee of a game between two players: its tables of the dataset
    (cityMap and cityMapByFirstLetter), built by its own loadData, and the two checks it puts
    every answer through (checkAndRemoveValidCity, checkIfCityHasValidResponse). */
module Referee {

  import opened Wrappers
  import opened Cities
  import opened Ordering
  import Index

  /** cityMap: each name to the records of that name, in input order; byFirstLetter
      (cityMapByFirstLetter): each first letter to how many more answers may start with it. */
  datatype Tables = Tables(cityMap: map<string, seq<City>>, byFirstLetter: map<char, int>)

  const Empty: Tables := Tables(map[], map[])

  /** cityMap.get(m), a missing entry read as the empty list. */
  function Held(t: Tables, m: string): seq<City> {
    if m in t.cityMap then t.cityMap[m] else []
  }

  /** cityMapByFirstLetter.get(f), a missing entry read as zero. */
  function Allowance(t: Tables, f: char): int {
    if f in t.byFirstLetter then t.byFirstLetter[f] else 0
  }

  /** What the tables promise: every list holds only records of its own name, the empty name
      has no entry, and no allowance is negative. */
  ghost predicate Sound(t: Tables) {
    && "" !in t.cityMap
    && (forall m, j :: m in t.cityMap && 0 <= j < |t.cityMap[m]| ==> t.cityMap[m][j].name == m)
    && (forall f :: f in t.byFirstLetter ==> t.byFirstLetter[f] >= 0)
  }

  // ------------------------------------------------------------------------------------------
  // loadData

  /** The loop body of loadData: a record with a non-empty name is appended to the list of
      its name and counted under its first letter; any other record is skipped. */
  function Enter(t: Tables, x: City): (r: Tables)
    ensures forall m :: Held(r, m) == Held(t, m) + (if |x.name| > 0 && m == x.name then [x] else [])
    ensures forall f :: Allowance(r, f) == Allowance(t, f) + (if |x.name| > 0 && f == x.name[0] then 1 else 0)
    ensures forall m :: m in r.cityMap <==> m in t.cityMap || (|x.name| > 0 && m == x.name)
    ensures forall f :: f in r.byFirstLetter <==> f in t.byFirstLetter || (|x.name| > 0 && f == x.name[0])
  {
    if |x.name| == 0 then t
    else
      var f := First(x.name);
      Tables(t.cityMap[x.name := Held(t, x.name) + [x]], t.byFirstLetter[f := Allowance(t, f) + 1])
  }

  /** The loop of loadData over the records, in input order. */
  function LoadFrom(t: Tables, rs: seq<City>): (r: Tables)
    ensures "" in r.cityMap ==> "" in t.cityMap
    ensures (forall f :: f in t.byFirstLetter ==> t.byFirstLetter[f] > 0) ==>
              forall f :: f in r.byFirstLetter ==> r.byFirstLetter[f] > 0
    decreases |rs|
  {
    if |rs| == 0 then t else LoadFrom(Enter(t, rs[0]), rs[1..])
  }

  /** loadData, starting from empty tables. */
  function Load(rs: seq<City>): (r: Tables)
    ensures "" !in r.cityMap
    ensures forall f :: f in r.byFirstLetter ==> r.byFirstLetter[f] > 0
  {
    LoadFrom(Empty, rs)
  }

  /** The records named `m` all carry that name. */
  lemma {:induction false} NamedNames(rs: seq<City>, m: string)
    ensures forall j :: 0 <= j < |Index.Named(rs, m)| ==> Index.Named(rs, m)[j].name == m
  {
    if |rs| > 0 {
      NamedNames(rs[1..], m);
    }
  }

  /** The loop adds to each name the records of that name, and to each letter the number of
      records starting with it; the empty name gains nothing. */
  lemma LoadFromFacts(t: Tables, rs: seq<City>)
    ensures forall m :: |m| > 0 ==> Held(LoadFrom(t, rs), m) == Held(t, m) + Index.Named(rs, m)
    ensures Held(LoadFrom(t, rs), "") == Held(t, "")
    ensures forall f :: Allowance(LoadFrom(t, rs), f) == Allowance(t, f) + Index.CountStarting(rs, f)
    ensures forall m :: m in LoadFrom(t, rs).cityMap <==> m in t.cityMap || (|m| > 0 && |Index.Named(rs, m)| > 0)
    ensures forall f :: f in LoadFrom(t, rs).byFirstLetter <==> f in t.byFirstLetter || Index.CountStarting(rs, f) > 0
  {
    LoadFromHeld(t, rs);
    LoadFromAllowance(t, rs);
  }

  /** The name side of the loop. */
  lemma {:induction false} LoadFromHeld(t: Tables, rs: seq<City>)
    ensures forall m :: |m| > 0 ==> Held(LoadFrom(t, rs), m) == Held(t, m) + Index.Named(rs, m)
    ensures Held(LoadFrom(t, rs), "") == Held(t, "")
    ensures forall m :: m in LoadFrom(t, rs).cityMap <==> m in t.cityMap || (|m| > 0 && |Index.Named(rs, m)| > 0)
    decreases |rs|
  {
    var r := LoadFrom(t, rs);
    if |rs| == 0 {
      assert r == t;
      assert forall m :: Held(t, m) + Index.Named(rs, m) == Held(t, m);
    } else {
      var x := rs[0];
      var u := Enter(t, x);
      assert r == LoadFrom(u, rs[1..]);
      LoadFromHeld(u, rs[1..]);
      forall m | |m| > 0 ensures Held(r, m) == Held(t, m) + Index.Named(rs, m) {
        var here := if x.name == m then [x] else [];
        assert Held(u, m) == Held(t, m) + here;
        assert Index.Named(rs, m) == here + Index.Named(rs[1..], m);
        SeqAssoc(Held(t, m), here, Index.Named(rs[1..], m));
      }
      assert Held(r, "") == Held(t, "") by {
        assert Held(u, "") == Held(t, "");
      }
      forall m ensures m in r.cityMap <==> m in t.cityMap || (|m| > 0 && |Index.Named(rs, m)| > 0) {
        assert Index.Named(rs, m) == (if x.name == m then [x] else []) + Index.Named(rs[1..], m);
      }
    }
  }

  /** The letter side of the loop. */
  lemma {:induction false} LoadFromAllowance(t: Tables, rs: seq<City>)
    ensures forall f :: Allowance(LoadFrom(t, rs), f) == Allowance(t, f) + Index.CountStarting(rs, f)
    ensures forall f :: f in LoadFrom(t, rs).byFirstLetter <==> f in t.byFirstLetter || Index.CountStarting(rs, f) > 0
    decreases |rs|
  {
    var r := LoadFrom(t, rs);
    if |rs| == 0 {
      assert r == t;
    } else {
      var x := rs[0];
      var u := Enter(t, x);
      assert r == LoadFrom(u, rs[1..]);
      LoadFromAllowance(u, rs[1..]);
      forall f ensures Allowance(r, f) == Allowance(t, f) + Index.CountStarting(rs, f)
                    && (f in r.byFirstLetter <==> f in t.byFirstLetter || Index.CountStarting(rs, f) > 0) {
        assert Index.CountStarting(rs, f) == (if |x.name| > 0 && x.name[0] == f then 1 else 0)
                                              + Index.CountStarting(rs[1..], f);
      }
    }
  }

  /** After loading, each non-empty name holds exactly the records of that name in input
      order, and each letter's allowance is the number of records starting with it. */
  lemma LoadFacts(rs: seq<City>)
    ensures Sound(Load(rs))
    ensures forall m :: |m| > 0 ==> Held(Load(rs), m) == Index.Named(rs, m)
    ensures forall m :: m in Load(rs).cityMap <==> |m| > 0 && |Index.Named(rs, m)| > 0
    ensures forall f :: Allowance(Load(rs), f) == Index.CountStarting(rs, f)
    ensures forall f :: f in Load(rs).byFirstLetter <==> Index.CountStarting(rs, f) > 0
  {
    var t := Load(rs);
    LoadFromFacts(Empty, rs);
    forall m, j | m in t.cityMap && 0 <= j < |t.cityMap[m]| ensures t.cityMap[m][j].name == m {
      NamedNames(rs, m);
      assert Held(t, m) == Index.Named(rs, m);
    }
    forall f | f in t.byFirstLetter ensures t.byFirstLetter[f] >= 0 {
      assert Allowance(t, f) == Index.CountStarting(rs, f);
    }
  }

  /** The referee and the player load the same file alike: every name holds the same
      records in both, and every first letter has the same count. */
  lemma LoadAgrees(rs: seq<City>)
    ensures forall m :: |m| > 0 ==> Held(Load(rs), m) == Index.Stock(Index.Load(rs), m)
    ensures forall f :: Allowance(Load(rs), f) == Index.LetterTotal(Index.Load(rs), f)
  {
    LoadFacts(rs);
    Index.LoadStock(rs);
    Index.LoadCounts(rs);
  }

  // ------------------------------------------------------------------------------------------
  // The checks

  /** The outcome of a check and the tables after it. */
  datatype Answer = Answer(ok: bool, after: Tables)

  /** The position of the first record of `list` named `city`, or -1 when there is none. */
  function FirstNamed(list: seq<City>, city: string): (i: int)
    ensures -1 <= i < |list|
    ensures i >= 0 ==> list[i].name == city && forall j :: 0 <= j < i ==> list[j].name != city
    ensures i == -1 ==> forall j :: 0 <= j < |list| ==> list[j].name != city
  {
    if |list| == 0 then -1
    else if list[0].name == city then 0
    else
      var i := FirstNamed(list[1..], city);
      if i == -1 then -1 else i + 1
  }

  /** checkAndRemoveValidCity: the answer is valid when its name has a record left; the first
      such record is taken out of the list (the emptied list stays in the map). */
  function CheckAndRemoveValidCity(t: Tables, city: string): (a: Answer)
    ensures a.ok <==> exists j :: 0 <= j < |Held(t, city)| && Held(t, city)[j].name == city
    ensures !a.ok ==> a.after == t
    ensures a.after.byFirstLetter == t.byFirstLetter
    ensures a.after.cityMap.Keys == t.cityMap.Keys
    ensures forall m :: m != city ==> Held(a.after, m) == Held(t, m)
    ensures a.ok ==> exists j :: && 0 <= j < |Held(t, city)| && Held(t, city)[j].name == city
                                 && Held(a.after, city) == RemoveAt(Held(t, city), j)
                                 && forall i :: 0 <= i < j ==> Held(t, city)[i].name != city
  {
    if city !in t.cityMap then Answer(false, t)
    else
      var list := t.cityMap[city];
      var i := FirstNamed(list, city);
      if i == -1 then Answer(false, t)
      else
        assert Held(t, city)[i].name == city;
        Answer(true, t.(cityMap := t.cityMap[city := RemoveAt(list, i)]))
  }

  /** checkIfCityHasValidResponse: some city must start with the answer's last letter. A
      letter with a positive allowance spends one; a letter counted down to zero is dropped
      from the map, and one never seen rejects the answer as well. */
  function CheckIfCityHasValidResponse(t: Tables, city: string): (a: Answer)
    ensures a.ok <==> |city| > 0 && Last(city) in t.byFirstLetter && t.byFirstLetter[Last(city)] != 0
    ensures a.after.cityMap == t.cityMap
    ensures forall f :: (|city| == 0 || f != Last(city)) ==>
              (f in a.after.byFirstLetter <==> f in t.byFirstLetter) && Allowance(a.after, f) == Allowance(t, f)
    ensures a.ok ==> Last(city) in a.after.byFirstLetter
                     && a.after.byFirstLetter[Last(city)] == t.byFirstLetter[Last(city)] - 1
    ensures !a.ok && |city| > 0 ==> Last(city) !in a.after.byFirstLetter
  {
    if |city| == 0 then Answer(false, t)
    else
      var l := Last(city);
      if l !in t.byFirstLetter then Answer(false, t)
      else if t.byFirstLetter[l] == 0 then Answer(false, t.(byFirstLetter := t.byFirstLetter - {l}))
      else Answer(true, t.(byFirstLetter := t.byFirstLetter[l := t.byFirstLetter[l] - 1]))
  }

  /** On sound tables an answer is valid exactly when its name has a record left, and it is
      the first record that goes. */
  lemma CheckAndRemoveSound(t: Tables, city: string)
    requires Sound(t)
    ensures CheckAndRemoveValidCity(t, city).ok <==> |Held(t, city)| > 0
    ensures CheckAndRemoveValidCity(t, city).ok ==> Held(CheckAndRemoveValidCity(t, city).after, city) == Held(t, city)[1..]
  {
    var a := CheckAndRemoveValidCity(t, city);
    var list := Held(t, city);
    if |list| > 0 {
      assert list[0].name == city;
      assert a.ok;
      var j :| && 0 <= j < |list| && list[j].name == city
               && Held(a.after, city) == RemoveAt(list, j)
               && forall i :: 0 <= i < j ==> list[i].name != city;
      assert j == 0;
    }
  }

  /** Taking a record out keeps the tables sound. */
  lemma CheckAndRemoveKeepsSound(t: Tables, city: string)
    requires Sound(t)
    ensures Sound(CheckAndRemoveValidCity(t, city).after)
  {
    var a := CheckAndRemoveValidCity(t, city);
    if a.ok {
      var list := Held(t, city);
      var u := a.after;
      var j :| 0 <= j < |list| && Held(u, city) == RemoveAt(list, j);
      forall m, i | m in u.cityMap && 0 <= i < |u.cityMap[m]| ensures u.cityMap[m][i].name == m {
        if m == city {
          assert u.cityMap[m][i] == list[if i < j then i else i + 1];
        } else {
          assert u.cityMap[m] == Held(t, m);
        }
      }
    }
  }

  /** On sound tables a response check passes exactly when the last letter has allowance
      left, spends one unit of it, and keeps the tables sound. */
  lemma CheckResponseSound(t: Tables, city: string)
    requires Sound(t)
    ensures CheckIfCityHasValidResponse(t, city).ok <==> |city| > 0 && Allowance(t, Last(city)) > 0
    ensures forall f :: Allowance(CheckIfCityHasValidResponse(t, city).after, f)
                     == Allowance(t, f) - (if CheckIfCityHasValidResponse(t, city).ok && f == Last(city) then 1 else 0)
    ensures Sound(CheckIfCityHasValidResponse(t, city).after)
  {
  }

  // ------------------------------------------------------------------------------------------
  // play

  /** One answer in play: it must name an available city, and some city must start with its
      last letter. */
  function Turn(t: Tables, city: string): (a: Answer)
    ensures a.ok <==> && (exists j :: 0 <= j < |Held(t, city)| && Held(t, city)[j].name == city)
                      && |city| > 0 && Last(city) in t.byFirstLetter && t.byFirstLetter[Last(city)] != 0
    ensures a.after.cityMap.Keys == t.cityMap.Keys
  {
    var v := CheckAndRemoveValidCity(t, city);
    if !v.ok then v else CheckIfCityHasValidResponse(v.after, city)
  }

  /** How many answers the referee accepted before the game ended, and the tables then. */
  datatype Outcome = Outcome(accepted: nat, after: Tables)

  /** The answers of both players in turn, until the first one the referee rejects. */
  function Play(t: Tables, answers: seq<string>): (o: Outcome)
    ensures o.accepted <= |answers|
    decreases |answers|
  {
    if |answers| == 0 then Outcome(0, t)
    else
      var a := Turn(t, answers[0]);
      if !a.ok then Outcome(0, a.after)
      else
        var o := Play(a.after, answers[1..]);
        Outcome(o.accepted + 1, o.after)
  }

  /** How many of the answers end in `f`. */
  function EndingIn(answers: seq<string>, f: char): nat {
    if |answers| == 0 then 0
    else (if |answers[0]| > 0 && Last(answers[0]) == f then 1 else 0) + EndingIn(answers[1..], f)
  }

  /** A turn keeps sound tables sound. */
  lemma TurnSound(t: Tables, city: string)
    requires Sound(t)
    ensures Sound(Turn(t, city).after)
  {
    CheckAndRemoveKeepsSound(t, city);
    CheckResponseSound(CheckAndRemoveValidCity(t, city).after, city);
  }

  /** An accepted answer takes one record of its name and one unit of its last letter's
      allowance. */
  lemma TurnAccepted(t: Tables, city: string)
    requires Sound(t) && Turn(t, city).ok
    ensures Spent(t, city, Turn(t, city).after)
  {
    var v := CheckAndRemoveValidCity(t, city);
    var a := CheckIfCityHasValidResponse(v.after, city);
    assert v.ok && Turn(t, city) == a;
    assert forall m :: |Held(a.after, m)| + (if m == city then 1 else 0) == |Held(t, m)| by {
      CheckAndRemoveSound(t, city);
      assert forall m :: Held(a.after, m) == Held(v.after, m);
    }
    assert forall f :: Allowance(a.after, f) + (if f == Last(city) then 1 else 0) == Allowance(t, f) by {
      CheckAndRemoveKeepsSound(t, city);
      CheckResponseSound(v.after, city);
      assert forall f :: Allowance(v.after, f) == Allowance(t, f);
    }
  }

  /** A rejected answer takes at most one record and no allowance. */
  lemma TurnRejected(t: Tables, city: string)
    requires Sound(t) && !Turn(t, city).ok
    ensures Kept(t, city, Turn(t, city).after)
  {
    var v := CheckAndRemoveValidCity(t, city);
    if v.ok {
      NoResponseKept(t, city);
    } else {
      assert Turn(t, city).after == t;
    }
  }

  /** A name found but with no reply left: its record is gone and the allowances stay. */
  lemma NoResponseKept(t: Tables, city: string)
    requires Sound(t) && CheckAndRemoveValidCity(t, city).ok
    requires !CheckIfCityHasValidResponse(CheckAndRemoveValidCity(t, city).after, city).ok
    ensures Kept(t, city, CheckIfCityHasValidResponse(CheckAndRemoveValidCity(t, city).after, city).after)
  {
    FoundHeld(t, city);
    NoResponseAllowance(t, city);
  }

  /** The two checks of an answer never lengthen a name's list. */
  lemma FoundHeld(t: Tables, city: string)
    requires Sound(t)
    ensures forall m :: |Held(CheckIfCityHasValidResponse(CheckAndRemoveValidCity(t, city).after, city).after, m)|
                          <= |Held(t, m)|
  {
    var v := CheckAndRemoveValidCity(t, city);
    var u := CheckIfCityHasValidResponse(v.after, city).after;
    CheckAndRemoveSound(t, city);
    assert forall m :: Held(u, m) == Held(v.after, m);
  }

  /** A failed reply check leaves every allowance as it was. */
  lemma NoResponseAllowance(t: Tables, city: string)
    requires Sound(t) && !CheckIfCityHasValidResponse(CheckAndRemoveValidCity(t, city).after, city).ok
    ensures forall f :: Allowance(CheckIfCityHasValidResponse(CheckAndRemoveValidCity(t, city).after, city).after, f)
                          == Allowance(t, f)
  {
    var v := CheckAndRemoveValidCity(t, city);
    CheckAndRemoveKeepsSound(t, city);
    CheckResponseSound(v.after, city);
    assert forall f :: Allowance(v.after, f) == Allowance(t, f);
  }

  /** `u` is `t` after an accepted answer `city`. */
  ghost predicate Spent(t: Tables, city: string, u: Tables) {
    && |city| > 0
    && (forall m :: |Held(u, m)| + (if m == city then 1 else 0) == |Held(t, m)|)
    && (forall f :: Allowance(u, f) + (if f == Last(city) then 1 else 0) == Allowance(t, f))
  }

  /** `u` is `t` after a rejected answer `city`. */
  ghost predicate Kept(t: Tables, city: string, u: Tables) {
    && (forall m :: |Held(u, m)| <= |Held(t, m)|)
    && (forall f :: Allowance(u, f) == Allowance(t, f))
  }

  /** The accepted answers `acc` account for what the tables lost between `t` and `u`: each
      name at most its records, each letter exactly its allowance. */
  ghost predicate Accounted(t: Tables, acc: seq<string>, u: Tables) {
    && (forall m :: multiset(acc)[m] + |Held(u, m)| <= |Held(t, m)|)
    && (forall f :: EndingIn(acc, f) + Allowance(u, f) == Allowance(t, f))
  }

  lemma AccountedKept(t: Tables, city: string, u: Tables)
    requires Kept(t, city, u)
    ensures Accounted(t, [], u)
  {
  }

  lemma AccountedSpent(t: Tables, city: string, t1: Tables, acc: seq<string>, u: Tables)
    requires Spent(t, city, t1) && Accounted(t1, acc, u)
    ensures Accounted(t, [city] + acc, u)
  {
    assert ([city] + acc)[1..] == acc;
    assert multiset([city] + acc) == multiset{city} + multiset(acc);
  }

  lemma PrefixCons<T>(s: seq<T>, n: nat)
    requires n < |s|
    ensures s[..n + 1] == [s[0]] + s[1..][..n]
  {
  }

  /** Over a whole game on sound tables, no name is accepted more often than it has records,
      and no letter ends more accepted answers than its allowance. */
  lemma {:induction false} PlayBounds(t: Tables, answers: seq<string>)
    requires Sound(t)
    ensures Sound(Play(t, answers).after)
    ensures Accounted(t, answers[..Play(t, answers).accepted], Play(t, answers).after)
    decreases |answers|
  {
    if |answers| > 0 {
      var city := answers[0];
      var a := Turn(t, city);
      TurnSound(t, city);
      if a.ok {
        TurnAccepted(t, city);
        var rest := answers[1..];
        var o' := Play(a.after, rest);
        PlayBounds(a.after, rest);
        var o := Play(t, answers);
        assert o == Outcome(o'.accepted + 1, o'.after);
        PrefixCons(answers, o'.accepted);
        AccountedSpent(t, city, a.after, rest[..o'.accepted], o'.after);
        assert answers[..o.accepted] == [city] + rest[..o'.accepted];
      } else {
        TurnRejected(t, city);
        assert Play(t, answers) == Outcome(0, a.after);
        assert answers[..0] == [];
        AccountedKept(t, city, a.after);
      }
    } else {
      assert Play(t, answers) == Outcome(0, t);
      assert answers[..0] == [];
    }
  }

  /** Consequently a game from freshly loaded tables accepts each name at most as often as the
      file lists it, and at most as many answers ending in a letter as there are names
      starting with it. */
  lemma PlayFromLoad(rs: seq<City>, answers: seq<string>)
    ensures var o := Play(Load(rs), answers);
            && (forall m :: multiset(answers[..o.accepted])[m] <= |Index.Named(rs, m)|)
            && (forall f :: EndingIn(answers[..o.accepted], f) <= Index.CountStarting(rs, f))
  {
    LoadFacts(rs);
    PlayBounds(Load(rs), answers);
    var o := Play(Load(rs), answers);
    forall m ensures multiset(answers[..o.accepted])[m] <= |Index.Named(rs, m)| {
      if |m| == 0 {
        assert Held(Load(rs), m) == [];
      }
    }
    forall f ensures EndingIn(answers[..o.accepted], f) <= Index.CountStarting(rs, f) {
      assert Allowance(o.after, f) >= 0;
    }
  }

}
