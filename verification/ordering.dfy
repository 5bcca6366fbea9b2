/** The two count lists of the game (headNodeList and firstLetterList): the stable ascending
    sort Collections.sort applies to them, and the HashMap views keyed by letter that alias
    their entries (headNodeMap, firstLetterMap). */
module Ordering {

  import opened Wrappers

  // ------------------------------------------------------------------------------------------
  // Ascending order by count (Collections.sort with compareTo = difference of counts)

  ghost predicate Ascending<T>(s: seq<T>, count: T -> int) {
    forall i, j :: 0 <= i < j < |s| ==> count(s[i]) <= count(s[j])
  }

  /** Places `x` in front of the first entry whose count is not smaller, so entries with
      equal counts keep their order. */
  function InsertByCount<T>(x: T, s: seq<T>, count: T -> int): (r: seq<T>)
    ensures |r| == |s| + 1
    ensures multiset(r) == multiset(s) + multiset{x}
  {
    if |s| == 0 then [x]
    else if count(x) <= count(s[0]) then [x] + s
    else
      assert s == [s[0]] + s[1..];
      [s[0]] + InsertByCount(x, s[1..], count)
  }

  lemma {:induction false} InsertAscending<T>(x: T, s: seq<T>, count: T -> int)
    requires Ascending(s, count)
    ensures Ascending(InsertByCount(x, s, count), count)
  {
    if |s| > 0 && count(x) > count(s[0]) {
      var rest := InsertByCount(x, s[1..], count);
      InsertAscending(x, s[1..], count);
      forall j | 0 <= j < |rest| ensures count(s[0]) <= count(rest[j]) {
        assert rest[j] in multiset(rest);
        if rest[j] != x {
          assert rest[j] in s[1..];
          var m :| 0 <= m < |s[1..]| && s[1..][m] == rest[j];
          assert s[1 + m] == rest[j];
        }
      }
    }
  }

  /** Collections.sort(list): a stable sort ascending by count. */
  function SortByCount<T>(s: seq<T>, count: T -> int): (r: seq<T>)
    ensures |r| == |s|
    ensures multiset(r) == multiset(s)
    ensures Ascending(r, count)
  {
    if |s| == 0 then []
    else
      assert s == [s[0]] + s[1..];
      var sorted := SortByCount(s[1..], count);
      InsertAscending(s[0], sorted, count);
      InsertByCount(s[0], sorted, count)
  }

  /** The entries of `s` whose count is `v`, in order. */
  function WithCount<T>(s: seq<T>, count: T -> int, v: int): seq<T> {
    if |s| == 0 then []
    else (if count(s[0]) == v then [s[0]] else []) + WithCount(s[1..], count, v)
  }

  lemma {:induction false} InsertStable<T>(x: T, s: seq<T>, count: T -> int, v: int)
    ensures WithCount(InsertByCount(x, s, count), count, v)
         == (if count(x) == v then [x] else []) + WithCount(s, count, v)
  {
    var r := InsertByCount(x, s, count);
    if |s| == 0 {
    } else if count(x) <= count(s[0]) {
      assert r[0] == x && r[1..] == s;
    } else {
      var rest := InsertByCount(x, s[1..], count);
      assert r[0] == s[0] && r[1..] == rest;
      InsertStable(x, s[1..], count, v);
      var hx := if count(x) == v then [x] else [];
      var hs := if count(s[0]) == v then [s[0]] else [];
      assert WithCount(r, count, v) == hs + (hx + WithCount(s[1..], count, v));
      assert WithCount(s, count, v) == hs + WithCount(s[1..], count, v);
      assert hx == [] || hs == [];
    }
  }

  /** The sort is stable: for every count, the entries with that count appear in the sorted
      list in their original order. Together with the permutation and ascending order stated
      on SortByCount, this pins the result down to the one a stable sort produces. */
  lemma {:induction false} SortStable<T>(s: seq<T>, count: T -> int, v: int)
    ensures WithCount(SortByCount(s, count), count, v) == WithCount(s, count, v)
  {
    if |s| > 0 {
      SortStable(s[1..], count, v);
      InsertStable(s[0], SortByCount(s[1..], count), count, v);
    }
  }

  /** Removing one entry keeps the rest in order. */
  function RemoveAt<T>(s: seq<T>, i: int): (r: seq<T>)
    requires 0 <= i < |s|
    ensures |r| == |s| - 1
    ensures forall j :: 0 <= j < |r| ==> r[j] == if j < i then s[j] else s[j + 1]
  {
    s[..i] + s[i + 1..]
  }

  lemma RemoveAtMultiset<T>(s: seq<T>, i: int)
    requires 0 <= i < |s|
    ensures multiset(RemoveAt(s, i)) == multiset(s) - multiset{s[i]}
  {
    assert s == s[..i] + [s[i]] + s[i + 1..];
    assert RemoveAt(s, i) == s[..i] + s[i + 1..];
  }

  lemma RemoveAtAscending<T>(s: seq<T>, i: int, count: T -> int)
    requires 0 <= i < |s| && Ascending(s, count)
    ensures Ascending(RemoveAt(s, i), count)
  {
  }

  // ------------------------------------------------------------------------------------------
  // Keyed views (HashMap.get on the aliased entries)

  /** The keys present in the list. */
  ghost function KeySet<T>(s: seq<T>, key: T -> char): set<char> {
    set y | y in s :: key(y)
  }

  /** No two entries share a key (the map and the list hold the same entries). */
  ghost predicate UniqueKeys<T>(s: seq<T>, key: T -> char) {
    forall i, j :: 0 <= i < j < |s| ==> key(s[i]) != key(s[j])
  }

  /** map.get(k): the first entry with key `k`. */
  function Lookup<T>(s: seq<T>, key: T -> char, k: char): (r: Option<T>)
    ensures r.Some? ==> r.value in s && key(r.value) == k
    ensures r.None? <==> k !in KeySet(s, key)
  {
    if |s| == 0 then None
    else if key(s[0]) == k then Some(s[0])
    else
      assert forall y :: y in s ==> y == s[0] || y in s[1..];
      Lookup(s[1..], key, k)
  }

  /** The index of the first entry with key `k`, or -1. */
  function Position<T>(s: seq<T>, key: T -> char, k: char): (i: int)
    ensures -1 <= i < |s|
    ensures i >= 0 ==> Lookup(s, key, k) == Some(s[i])
    ensures i < 0 ==> Lookup(s, key, k) == None
  {
    if |s| == 0 then -1
    else if key(s[0]) == k then 0
    else
      var j := Position(s[1..], key, k);
      if j < 0 then -1 else j + 1
  }

  /** With unique keys, looking up an entry's key finds that very entry. */
  lemma {:induction false} LookupUnique<T>(s: seq<T>, key: T -> char, y: T)
    requires UniqueKeys(s, key) && y in s
    ensures Lookup(s, key, key(y)) == Some(y)
  {
    if s[0] != y {
      assert y in s[1..];
      var m :| 0 <= m < |s[1..]| && s[1..][m] == y;
      assert s[1 + m] == y;
      LookupUnique(s[1..], key, y);
    }
  }

  /** Two lists with unique keys and the same entries answer every lookup alike. */
  lemma LookupSame<T>(a: seq<T>, b: seq<T>, key: T -> char)
    requires UniqueKeys(a, key) && UniqueKeys(b, key)
    requires multiset(a) == multiset(b)
    ensures forall k :: Lookup(a, key, k) == Lookup(b, key, k)
  {
    assert forall y :: y in a <==> y in b by {
      forall y ensures y in a <==> y in b {
        assert y in a <==> y in multiset(a);
        assert y in b <==> y in multiset(b);
      }
    }
    assert KeySet(a, key) == KeySet(b, key);
    forall k ensures Lookup(a, key, k) == Lookup(b, key, k) {
      if Lookup(a, key, k).Some? {
        LookupUnique(b, key, Lookup(a, key, k).value);
      }
    }
  }

  lemma {:induction false} InsertUnique<T>(x: T, s: seq<T>, key: T -> char, count: T -> int)
    requires UniqueKeys(s, key) && key(x) !in KeySet(s, key)
    ensures UniqueKeys(InsertByCount(x, s, count), key)
  {
    var r := InsertByCount(x, s, count);
    if |s| == 0 {
    } else if count(x) <= count(s[0]) {
      forall i, j | 0 <= i < j < |r| ensures key(r[i]) != key(r[j]) {
        if i == 0 {
          assert r[j] == s[j - 1];
        } else {
          assert r[i] == s[i - 1] && r[j] == s[j - 1];
        }
      }
    } else {
      var rest := InsertByCount(x, s[1..], count);
      assert KeySet(s[1..], key) <= KeySet(s, key);
      InsertUnique(x, s[1..], key, count);
      forall i, j | 0 <= i < j < |r| ensures key(r[i]) != key(r[j]) {
        if i == 0 {
          assert r[j] == rest[j - 1];
          assert r[j] in multiset(rest);
          if r[j] != x {
            assert r[j] in s[1..];
            var m :| 0 <= m < |s[1..]| && s[1..][m] == r[j];
            assert s[1 + m] == r[j];
          } else {
            assert s[0] in s;
          }
        } else {
          assert r[i] == rest[i - 1] && r[j] == rest[j - 1];
        }
      }
    }
  }

  lemma {:induction false} SortUnique<T>(s: seq<T>, key: T -> char, count: T -> int)
    requires UniqueKeys(s, key)
    ensures UniqueKeys(SortByCount(s, count), key)
  {
    if |s| > 0 {
      var sorted := SortByCount(s[1..], count);
      SortUnique(s[1..], key, count);
      forall y | y in sorted ensures key(y) != key(s[0]) {
        assert y in multiset(s[1..]);
        var m :| 0 <= m < |s[1..]| && s[1..][m] == y;
        assert s[1 + m] == y;
      }
      InsertUnique(s[0], sorted, key, count);
    }
  }

  /** Re-sorting a list with unique keys changes no lookup. */
  lemma SortLookup<T>(s: seq<T>, key: T -> char, count: T -> int)
    requires UniqueKeys(s, key)
    ensures UniqueKeys(SortByCount(s, count), key)
    ensures forall k :: Lookup(SortByCount(s, count), key, k) == Lookup(s, key, k)
  {
    SortUnique(s, key, count);
    LookupSame(SortByCount(s, count), s, key);
  }

  /** Replacing an entry by one with the same key changes only the lookup of that key. */
  lemma UpdateLookup<T>(s: seq<T>, i: int, y: T, key: T -> char)
    requires 0 <= i < |s| && key(y) == key(s[i]) && UniqueKeys(s, key)
    ensures UniqueKeys(s[i := y], key)
    ensures forall k :: Lookup(s[i := y], key, k) == if k == key(y) then Some(y) else Lookup(s, key, k)
  {
    var r := s[i := y];
    assert UniqueKeys(r, key);
    assert KeySet(r, key) <= KeySet(s, key) by {
      forall z | z in r ensures key(z) in KeySet(s, key) {
        var m :| 0 <= m < |r| && r[m] == z;
        assert key(s[m]) == key(z);
      }
    }
    forall k ensures Lookup(r, key, k) == if k == key(y) then Some(y) else Lookup(s, key, k) {
      if k == key(y) {
        assert r[i] == y;
        LookupUnique(r, key, y);
      } else if Lookup(s, key, k).Some? {
        var z := Lookup(s, key, k).value;
        var m :| 0 <= m < |s| && s[m] == z;
        assert m != i && r[m] == z;
        LookupUnique(r, key, z);
      }
    }
  }

  /** Removing an entry removes exactly the lookup of its key. */
  lemma RemoveAtLookup<T>(s: seq<T>, i: int, key: T -> char)
    requires 0 <= i < |s| && UniqueKeys(s, key)
    ensures UniqueKeys(RemoveAt(s, i), key)
    ensures forall k :: Lookup(RemoveAt(s, i), key, k) == if k == key(s[i]) then None else Lookup(s, key, k)
  {
    RemoveAtUnique(s, i, key);
    RemoveAtKeys(s, i, key);
    forall k ensures Lookup(RemoveAt(s, i), key, k) == if k == key(s[i]) then None else Lookup(s, key, k) {
      if k != key(s[i]) && Lookup(s, key, k).Some? {
        RemoveAtKeeps(s, i, key, k);
      }
    }
  }

  lemma RemoveAtUnique<T>(s: seq<T>, i: int, key: T -> char)
    requires 0 <= i < |s| && UniqueKeys(s, key)
    ensures UniqueKeys(RemoveAt(s, i), key)
  {
    var r := RemoveAt(s, i);
    forall a, b | 0 <= a < b < |r| ensures key(r[a]) != key(r[b]) {
      var a' := if a < i then a else a + 1;
      var b' := if b < i then b else b + 1;
      assert r[a] == s[a'] && r[b] == s[b'] && a' < b';
    }
  }

  lemma RemoveAtKeys<T>(s: seq<T>, i: int, key: T -> char)
    requires 0 <= i < |s| && UniqueKeys(s, key)
    ensures key(s[i]) !in KeySet(RemoveAt(s, i), key)
    ensures KeySet(RemoveAt(s, i), key) <= KeySet(s, key)
  {
    var r := RemoveAt(s, i);
    forall z | z in r ensures key(z) != key(s[i]) && key(z) in KeySet(s, key) {
      var m :| 0 <= m < |r| && r[m] == z;
      var m' := if m < i then m else m + 1;
      assert s[m'] == z && m' != i;
    }
  }

  lemma RemoveAtKeeps<T>(s: seq<T>, i: int, key: T -> char, k: char)
    requires 0 <= i < |s| && UniqueKeys(s, key) && UniqueKeys(RemoveAt(s, i), key)
    requires k != key(s[i]) && Lookup(s, key, k).Some?
    ensures Lookup(RemoveAt(s, i), key, k) == Lookup(s, key, k)
  {
    var r := RemoveAt(s, i);
    var z := Lookup(s, key, k).value;
    assert z in r by {
      var m :| 0 <= m < |s| && s[m] == z;
      assert m != i;
      assert r[if m < i then m else m - 1] == z;
    }
    LookupUnique(r, key, z);
  }

  /** Appending an entry with a fresh key adds exactly the lookup of that key. */
  lemma AppendLookup<T>(s: seq<T>, y: T, key: T -> char)
    requires UniqueKeys(s, key) && key(y) !in KeySet(s, key)
    ensures UniqueKeys(s + [y], key)
    ensures forall k :: Lookup(s + [y], key, k) == if k == key(y) then Some(y) else Lookup(s, key, k)
  {
    var r := s + [y];
    forall a, b | 0 <= a < b < |r| ensures key(r[a]) != key(r[b]) {
      if b == |s| {
        assert r[a] in s;
      }
    }
    assert KeySet(r, key) == KeySet(s, key) + {key(y)} by {
      forall z | z in r ensures z in s || z == y {
      }
    }
    forall k ensures Lookup(r, key, k) == if k == key(y) then Some(y) else Lookup(s, key, k) {
      if k == key(y) {
        LookupUnique(r, key, y);
      } else if Lookup(s, key, k).Some? {
        var z := Lookup(s, key, k).value;
        assert z in r;
        LookupUnique(r, key, z);
      }
    }
  }

  // ------------------------------------------------------------------------------------------
  // Totals over a list (the records held by all partitions)

  /** The union of `f` over the entries of the list. */
  ghost function Gather<T, U>(s: seq<T>, f: T -> multiset<U>): multiset<U> {
    if |s| == 0 then multiset{} else f(s[0]) + Gather(s[1..], f)
  }

  lemma {:induction false} GatherMember<T, U>(s: seq<T>, f: T -> multiset<U>, y: T)
    requires y in s
    ensures f(y) <= Gather(s, f)
  {
    if s[0] != y {
      assert y in s[1..];
      GatherMember(s[1..], f, y);
    }
  }

  /** An element of the total comes from one entry. */
  lemma {:induction false} GatherPick<T, U>(s: seq<T>, f: T -> multiset<U>, x: U)
    requires x in Gather(s, f)
    ensures exists y :: y in s && x in f(y)
  {
    if x !in f(s[0]) {
      GatherPick(s[1..], f, x);
      var y :| y in s[1..] && x in f(y);
      assert y in s;
    }
  }

  /** Totals grow with their parts. */
  lemma {:induction false} GatherMono<T, U>(s: seq<T>, f: T -> multiset<U>, g: T -> multiset<U>)
    requires forall y :: y in s ==> f(y) <= g(y)
    ensures Gather(s, f) <= Gather(s, g)
  {
    if |s| > 0 {
      assert s[0] in s;
      assert forall y :: y in s[1..] ==> y in s;
      GatherMono(s[1..], f, g);
    }
  }

  lemma {:induction false} GatherAppend<T, U>(s: seq<T>, y: T, f: T -> multiset<U>)
    ensures Gather(s + [y], f) == Gather(s, f) + f(y)
  {
    if |s| > 0 {
      assert (s + [y])[1..] == s[1..] + [y];
      GatherAppend(s[1..], y, f);
    }
  }

  lemma {:induction false} GatherSplit<T, U>(a: seq<T>, b: seq<T>, f: T -> multiset<U>)
    ensures Gather(a + b, f) == Gather(a, f) + Gather(b, f)
  {
    if |a| == 0 {
      assert a + b == b;
    } else {
      assert (a + b)[1..] == a[1..] + b;
      GatherSplit(a[1..], b, f);
    }
  }

  lemma GatherUpdate<T, U>(s: seq<T>, i: int, y: T, f: T -> multiset<U>)
    requires 0 <= i < |s|
    ensures Gather(s[i := y], f) + f(s[i]) == Gather(s, f) + f(y)
  {
    assert s == s[..i] + [s[i]] + s[i + 1..];
    assert s[i := y] == s[..i] + [y] + s[i + 1..];
    GatherSplit(s[..i] + [s[i]], s[i + 1..], f);
    GatherSplit(s[..i] + [y], s[i + 1..], f);
    GatherAppend(s[..i], s[i], f);
    GatherAppend(s[..i], y, f);
  }

  lemma {:induction false} GatherRemoveAt<T, U>(s: seq<T>, i: int, f: T -> multiset<U>)
    requires 0 <= i < |s|
    ensures Gather(RemoveAt(s, i), f) + f(s[i]) == Gather(s, f)
  {
    var r := RemoveAt(s, i);
    if i == 0 {
      assert r == s[1..];
    } else {
      assert r[0] == s[0] && r[1..] == RemoveAt(s[1..], i - 1);
      GatherRemoveAt(s[1..], i - 1, f);
      SwapLast(f(s[0]), Gather(r[1..], f), f(s[i]));
    }
  }

  lemma SwapLast<U>(a: multiset<U>, b: multiset<U>, c: multiset<U>)
    ensures (a + b) + c == (a + c) + b
  {
  }

  lemma {:induction false} GatherInsert<T, U>(x: T, s: seq<T>, count: T -> int, f: T -> multiset<U>)
    ensures Gather(InsertByCount(x, s, count), f) == Gather(s, f) + f(x)
  {
    var r := InsertByCount(x, s, count);
    if |s| > 0 {
      if count(x) <= count(s[0]) {
        assert r[1..] == s;
      } else {
        assert r[1..] == InsertByCount(x, s[1..], count);
        GatherInsert(x, s[1..], count, f);
      }
    }
  }

  /** Re-sorting does not change the total. */
  lemma {:induction false} GatherSort<T, U>(s: seq<T>, count: T -> int, f: T -> multiset<U>)
    ensures Gather(SortByCount(s, count), f) == Gather(s, f)
  {
    if |s| > 0 {
      GatherSort(s[1..], count, f);
      GatherInsert(s[0], SortByCount(s[1..], count), count, f);
    }
  }


  // ------------------------------------------------------------------------------------------
  // One entry's count changes (the decrement step of removeCity)

  /** The list after entry `i` is replaced by `y`: dropped when the new count is zero,
      otherwise kept and the list re-sorted. */
  function Settle<T>(s: seq<T>, i: int, y: T, count: T -> int): (r: seq<T>)
    requires 0 <= i < |s|
    ensures multiset(r) == if count(y) == 0 then multiset(s) - multiset{s[i]}
                           else multiset(s) - multiset{s[i]} + multiset{y}
  {
    if count(y) == 0 then RemoveAtMultiset(s, i); RemoveAt(s, i) else SortByCount(s[i := y], count)
  }

  /** Settling keeps the keys unique and the order ascending; only `y`'s key changes its
      lookup, to `y` or to nothing. */
  lemma SettleLookup<T>(s: seq<T>, i: int, y: T, key: T -> char, count: T -> int)
    requires 0 <= i < |s| && key(y) == key(s[i]) && UniqueKeys(s, key) && Ascending(s, count)
    ensures UniqueKeys(Settle(s, i, y, count), key)
    ensures Ascending(Settle(s, i, y, count), count)
    ensures forall k :: Lookup(Settle(s, i, y, count), key, k)
                     == if k != key(y) then Lookup(s, key, k) else if count(y) == 0 then None else Some(y)
  {
    if count(y) == 0 {
      RemoveAtLookup(s, i, key);
      RemoveAtAscending(s, i, count);
    } else {
      UpdateLookup(s, i, y, key);
      SortLookup(s[i := y], key, count);
    }
  }

  /** Every entry of the settled list is an old entry or the new one, which is kept only
      with a non-zero count. */
  lemma SettleMembers<T>(s: seq<T>, i: int, y: T, count: T -> int)
    requires 0 <= i < |s|
    ensures forall x :: x in Settle(s, i, y, count) ==> x in s || (x == y && count(y) != 0)
  {
    var r := Settle(s, i, y, count);
    forall x | x in r ensures x in s || (x == y && count(y) != 0) {
      assert x in multiset(r);
      if x != y || count(y) == 0 {
        assert x in multiset(s);
      }
    }
  }

  /** A total over the settled list: the old entry's share is replaced by the new one's. */
  lemma GatherSettle<T, U>(s: seq<T>, i: int, y: T, count: T -> int, f: T -> multiset<U>)
    requires 0 <= i < |s|
    requires count(y) == 0 ==> f(y) == multiset{}
    ensures Gather(Settle(s, i, y, count), f) + f(s[i]) == Gather(s, f) + f(y)
  {
    GatherUpdate(s, i, y, f);
    if count(y) == 0 {
      assert RemoveAt(s, i) == RemoveAt(s[i := y], i);
      GatherRemoveAt(s[i := y], i, f);
    } else {
      GatherSort(s[i := y], count, f);
    }
  }

  /** Settling an entry that loses `extra` lowers the total by exactly `extra`. */
  lemma SettleTotal<T, U>(s: seq<T>, i: int, y: T, count: T -> int, f: T -> multiset<U>, extra: multiset<U>)
    requires 0 <= i < |s|
    requires count(y) == 0 ==> f(y) == multiset{}
    requires f(y) + extra == f(s[i])
    ensures Gather(Settle(s, i, y, count), f) + extra == Gather(s, f)
  {
    GatherSettle(s, i, y, count, f);
    var g := Gather(Settle(s, i, y, count), f);
    assert (g + extra) + f(y) == Gather(s, f) + f(y);
    Cancel(g + extra, Gather(s, f), f(y));
  }

  lemma Cancel<T>(a: multiset<T>, b: multiset<T>, c: multiset<T>)
    requires a + c == b + c
    ensures a == b
  {
    assert forall x :: a[x] == (a + c)[x] - c[x];
  }

  // ------------------------------------------------------------------------------------------
  // Get-or-create (the insertion step of loadData)

  /** The list after the entry found at `i` is replaced by `y`, or `y` is appended when
      nothing was found (`i` is -1). */
  function Put<T>(s: seq<T>, i: int, y: T): (r: seq<T>)
    requires -1 <= i < |s|
    ensures |r| == if i >= 0 then |s| else |s| + 1
  {
    if i >= 0 then s[i := y] else s + [y]
  }

  /** Putting `y` where its key was looked up keeps the keys unique and changes only the
      lookup of `y`'s key, which now finds `y`. */
  lemma PutLookup<T>(s: seq<T>, y: T, key: T -> char)
    requires UniqueKeys(s, key)
    ensures UniqueKeys(Put(s, Position(s, key, key(y)), y), key)
    ensures forall k :: Lookup(Put(s, Position(s, key, key(y)), y), key, k)
                     == if k == key(y) then Some(y) else Lookup(s, key, k)
    ensures forall x :: x in Put(s, Position(s, key, key(y)), y) ==> x in s || x == y
  {
    var i := Position(s, key, key(y));
    if i >= 0 {
      UpdateLookup(s, i, y, key);
    } else {
      AppendLookup(s, y, key);
    }
  }

  /** A total over the list after a put: the replaced entry's share (if any) gives way to
      the new entry's. */
  lemma GatherPut<T, U>(s: seq<T>, i: int, y: T, f: T -> multiset<U>)
    requires -1 <= i < |s|
    ensures Gather(Put(s, i, y), f) + (if i >= 0 then f(s[i]) else multiset{}) == Gather(s, f) + f(y)
  {
    if i >= 0 {
      GatherUpdate(s, i, y, f);
    } else {
      GatherAppend(s, y, f);
    }
  }
}
