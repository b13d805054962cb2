/** The country records and `makeCountryToCodeMap` (main.js:211-217), which
    files every record under its alpha-3 code. */
module CountryMap {
  import opened JsArray

  /** One record of the fetched country list, reduced to the fields the
      widget reads. */
  datatype Country = Country(alpha3Code: string, name: string, languages: seq<string>, currencies: seq<string>)

  /** The key of every record, in list order (the CRITERIA_TO_SEARCH field). */
  function Codes(list: seq<Country>): (r: seq<string>)
    ensures |r| == |list|
    ensures forall i | 0 <= i < |list| :: r[i] == list[i].alpha3Code
  {
    seq(|list|, i requires 0 <= i < |list| => list[i].alpha3Code)
  }

  /** The keys are ordered by the position at which their codes first
      appear. */
  predicate OrderedByFirstPosition<T(==)>(codes: seq<T>, keys: seq<T>) {
    forall i, j | 0 <= i < j < |keys| :: IndexOf(codes, keys[i]) < IndexOf(codes, keys[j])
  }

  /** Every key holds the LAST record with that code (a later assignment
      overwrites). */
  ghost predicate LastRecordWins(list: seq<Country>, obj: map<string, Country>) {
    forall k | k in obj :: k in Codes(list) && obj[k] == list[LastIndexOf(Codes(list), k)]
  }

  /** obj and its key order are what the loop over list leaves behind: a key
      for every code, the last record with that code as its value, and the
      keys in the order in which their codes FIRST appear (a JavaScript
      object keeps insertion order). */
  ghost predicate FiledByCode(list: seq<Country>, obj: map<string, Country>, keys: seq<string>) {
    (forall k :: k in obj <==> k in Codes(list)) &&
    LastRecordWins(list, obj) &&
    NoDuplicates(keys) &&
    (forall k :: k in keys <==> k in obj) &&
    OrderedByFirstPosition(Codes(list), keys)
  }

  lemma IndexOfExtend<T>(s: seq<T>, y: T, x: T)
    ensures IndexOf(s + [y], x) == if x in s then IndexOf(s, x) else if x == y then |s| else -1
  {
    var t := s + [y];
    var i := IndexOf(t, x);
    if x in s {
      var k := IndexOf(s, x);
      assert t[k] == x;
      assert i <= k;
      assert s[i] == t[i];
    } else if x == y {
      assert t[|s|] == x;
    }
  }

  lemma LastIndexOfExtend<T>(s: seq<T>, y: T, x: T)
    ensures LastIndexOf(s + [y], x) == if x == y then |s| else LastIndexOf(s, x)
  {
    assert (s + [y])[..|s|] == s;
  }

  /** Filing one more record keeps the object and its key order what the
      loop promises: the record overwrites its code's entry, and a code not
      seen before is appended to the key order. */
  lemma FilingStep(l: seq<Country>, item: Country, obj: map<string, Country>, keys: seq<string>)
    requires FiledByCode(l, obj, keys)
    ensures FiledByCode(l + [item], obj[item.alpha3Code := item],
      if item.alpha3Code in obj then keys else keys + [item.alpha3Code])
  {
    var key := item.alpha3Code;
    assert Codes(l + [item]) == Codes(l) + [key];
    LastRecordStep(l, item, obj);
    KeyOrderStep(Codes(l), keys, key);
  }

  lemma LastRecordStep(l: seq<Country>, item: Country, obj: map<string, Country>)
    requires LastRecordWins(l, obj)
    ensures LastRecordWins(l + [item], obj[item.alpha3Code := item])
  {
    var key := item.alpha3Code;
    var codes := Codes(l);
    assert Codes(l + [item]) == codes + [key];
    forall k | k in obj[key := item]
      ensures k in codes + [key] && obj[key := item][k] == (l + [item])[LastIndexOf(codes + [key], k)]
    {
      LastIndexOfExtend(codes, key, k);
      if k != key {
        assert (l + [item])[LastIndexOf(codes, k)] == l[LastIndexOf(codes, k)];
      }
    }
  }

  lemma KeyOrderStep<T>(codes: seq<T>, keys: seq<T>, key: T)
    requires forall k :: k in keys <==> k in codes
    requires NoDuplicates(keys) && OrderedByFirstPosition(codes, keys)
    ensures var keys' := if key in codes then keys else keys + [key];
      NoDuplicates(keys') && OrderedByFirstPosition(codes + [key], keys') &&
      forall k :: k in keys' <==> k in codes + [key]
  {
    var keys' := if key in codes then keys else keys + [key];
    forall k | k in keys' ensures IndexOf(codes + [key], k) == if k in codes then IndexOf(codes, k) else |codes| {
      IndexOfExtend(codes, key, k);
    }
    forall i, j | 0 <= i < j < |keys'| ensures IndexOf(codes + [key], keys'[i]) < IndexOf(codes + [key], keys'[j]) {
      assert keys'[i] in keys' && keys'[j] in keys';
      if j < |keys| {
        assert keys'[i] == keys[i] && keys'[j] == keys[j];
      } else {
        assert keys'[i] == keys[i];
      }
    }
  }

  /** `makeCountryToCodeMap(list)`, returning the object together with the
      order of its keys that `Object.keys` reports. */
  method MakeCountryToCodeMap(list: seq<Country>) returns (obj: map<string, Country>, keys: seq<string>)
    ensures FiledByCode(list, obj, keys)
  {
    obj, keys := map[], [];
    for n := 0 to |list|
      invariant FiledByCode(list[..n], obj, keys)
    {
      var item := list[n];
      var key := item.alpha3Code;
      assert list[..n + 1] == list[..n] + [item];
      FilingStep(list[..n], item, obj, keys);
      if key !in obj {
        keys := keys + [key];
      }
      obj := obj[key := item];
    }
    assert list[..|list|] == list;
  }

  /** When no two records share a code (as in the fetched country list),
      the key order is exactly the order of the list. */
  lemma DistinctCodesKeepListOrder(list: seq<Country>, obj: map<string, Country>, keys: seq<string>)
    requires NoDuplicates(Codes(list))
    requires FiledByCode(list, obj, keys)
    ensures keys == Codes(list)
  {
    KeysInCodeOrder(Codes(list), keys);
  }

  /** Keys holding exactly the distinct codes, ordered by first position,
      are the codes themselves. */
  lemma KeysInCodeOrder<T>(codes: seq<T>, keys: seq<T>)
    requires NoDuplicates(codes)
    requires forall k :: k in keys <==> k in codes
    requires forall i, j | 0 <= i < j < |keys| :: IndexOf(codes, keys[i]) < IndexOf(codes, keys[j])
    ensures keys == codes
  {
    forall m | 0 <= m < |codes| ensures IndexOf(codes, codes[m]) == m {
      var f := IndexOf(codes, codes[m]);
      assert codes[f] == codes[m];
    }
    KeyPositionsAtLeast(codes, keys, |keys|);
    forall m | 0 <= m < |codes| ensures m < |keys| && keys[m] == codes[m] {
      KeyAtItsPosition(codes, keys, m);
    }
    if |keys| > |codes| {
      KeyBelow(codes, keys, |codes|);
      assert false;
    }
    if |codes| > 0 {
      KeyAtItsPosition(codes, keys, |codes| - 1);
    }
  }

  /** Strictly increasing positions start no lower than their rank. */
  lemma {:induction false} KeyPositionsAtLeast<T>(codes: seq<T>, keys: seq<T>, n: nat)
    requires n <= |keys|
    requires forall k :: k in keys ==> k in codes
    requires forall i, j | 0 <= i < j < |keys| :: IndexOf(codes, keys[i]) < IndexOf(codes, keys[j])
    ensures forall i | 0 <= i < n :: IndexOf(codes, keys[i]) >= i
  {
    if n > 0 {
      KeyPositionsAtLeast(codes, keys, n - 1);
      if n >= 2 {
        assert IndexOf(codes, keys[n - 2]) < IndexOf(codes, keys[n - 1]);
      } else {
        assert keys[0] in codes;
      }
    }
  }

  /** A key's rank is below the number of codes. */
  lemma KeyBelow<T>(codes: seq<T>, keys: seq<T>, i: nat)
    requires i < |keys|
    requires forall k :: k in keys ==> k in codes
    requires forall j | 0 <= j < |keys| :: IndexOf(codes, keys[j]) >= j
    ensures i < |codes|
  {
    assert keys[i] in codes;
  }

  /** With every code a key and the positions strictly increasing and at
      least their rank, the m-th key sits at position m. */
  lemma {:induction false} KeyAtItsPosition<T>(codes: seq<T>, keys: seq<T>, m: nat)
    requires m < |codes|
    requires forall k :: k in keys <==> k in codes
    requires forall i | 0 <= i < |codes| :: IndexOf(codes, codes[i]) == i
    requires forall i, j | 0 <= i < j < |keys| :: IndexOf(codes, keys[i]) < IndexOf(codes, keys[j])
    requires forall i | 0 <= i < |keys| :: IndexOf(codes, keys[i]) >= i
    ensures m < |keys| && keys[m] == codes[m]
    decreases m
  {
    assert codes[m] in keys;
    var i :| 0 <= i < |keys| && keys[i] == codes[m];
    assert IndexOf(codes, keys[i]) == m;
    if i < m {
      KeyAtItsPosition(codes, keys, i);
      assert false;
    }
  }
}
