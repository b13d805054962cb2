/** The ranker `getPrioritizedList` (main.js:72-93): one pass over the
    matched codes that pushes each into one of three lists, then their
    concatenation. */
module Ranker {
  import opened Text
  import opened JsArray

  /** The list main.js:80-90 pushes item into. The containment test is the
      case-insensitive `new RegExp(val, 'i')`; the first-character test
      `firstChar === item.charAt(0)` is an exact, case-sensitive string
      comparison. */
  function Tier(item: string, val: string): (t: nat)
    ensures 1 <= t <= 3
  {
    if ContainsI(item, val) && CharAt(val, 0) == CharAt(item, 0) then 1
    else if ContainsI(item, val) then 2
    else 3
  }

  /** The items of list in tier t, in their original order. */
  function InTier(list: seq<string>, val: string, t: nat): seq<string>
    decreases |list|
  {
    if list == [] then []
    else (if Tier(list[0], val) == t then [list[0]] else []) + InTier(list[1..], val, t)
  }

  lemma InTierCons(h: string, tail: seq<string>, val: string, k: nat)
    ensures InTier([h] + tail, val, k) == (if Tier(h, val) == k then [h] else []) + InTier(tail, val, k)
  {
    assert ([h] + tail)[1..] == tail;
  }

  /** A tier's list is a subsequence of the input holding every item of
      that tier as often as the input does, and nothing else. */
  lemma {:induction false} InTierIsFilter(list: seq<string>, val: string, t: nat)
    ensures IsSubsequence(InTier(list, val, t), list)
    ensures forall x :: multiset(InTier(list, val, t))[x] == if Tier(x, val) == t then multiset(list)[x] else 0
    decreases |list|
  {
    if list != [] {
      var h, tail := list[0], list[1..];
      InTierIsFilter(tail, val, t);
      assert list == [h] + tail;
      InTierCons(h, tail, val, t);
      var rest := InTier(tail, val, t);
      if Tier(h, val) == t {
        assert ([h] + rest)[1..] == rest;
      } else {
        assert [] + rest == rest;
      }
    }
  }

  /** What `getPrioritizedList(list, val)` returns. */
  function Ranked(list: seq<string>, val: string): seq<string> {
    InTier(list, val, 1) + InTier(list, val, 2) + InTier(list, val, 3)
  }

  lemma {:induction false} InTierAppend(a: seq<string>, b: seq<string>, val: string, t: nat)
    ensures InTier(a + b, val, t) == InTier(a, val, t) + InTier(b, val, t)
    decreases |a|
  {
    if a == [] {
      assert a + b == b;
    } else {
      assert a + b == [a[0]] + (a[1..] + b);
      assert a == [a[0]] + a[1..];
      InTierAppend(a[1..], b, val, t);
      InTierCons(a[0], a[1..] + b, val, t);
      InTierCons(a[0], a[1..], val, t);
    }
  }

  /** `getPrioritizedList(list, val)`. The query reaches `new RegExp`
      unescaped, so only queries of word characters are modelled. */
  method GetPrioritizedList(list: seq<string>, val: string) returns (r: seq<string>)
    requires AllWord(val)
    ensures r == Ranked(list, val)
  {
    var firstPriority, secondPriority, restList := [], [], [];
    for i := 0 to |list|
      invariant firstPriority == InTier(list[..i], val, 1)
      invariant secondPriority == InTier(list[..i], val, 2)
      invariant restList == InTier(list[..i], val, 3)
    {
      var item := list[i];
      assert list[..i + 1] == list[..i] + [item];
      InTierAppend(list[..i], [item], val, 1);
      InTierAppend(list[..i], [item], val, 2);
      InTierAppend(list[..i], [item], val, 3);
      if ContainsI(item, val) && CharAt(val, 0) == CharAt(item, 0) {
        firstPriority := firstPriority + [item];
      } else if ContainsI(item, val) {
        secondPriority := secondPriority + [item];
      } else {
        restList := restList + [item];
      }
    }
    assert list[..|list|] == list;
    r := firstPriority + secondPriority + restList;
  }

  /** Every item of tier t's list is in tier t. */
  lemma InTierMembers(list: seq<string>, val: string, t: nat, x: string)
    ensures x in InTier(list, val, t) <==> x in list && Tier(x, val) == t
  {
    InTierIsFilter(list, val, t);
    var r := InTier(list, val, t);
    assert x in r <==> multiset(r)[x] > 0;
    assert x in list <==> multiset(list)[x] > 0;
  }

  /** The ranked list is a permutation of its input. */
  lemma RankedIsPermutation(list: seq<string>, val: string)
    ensures multiset(Ranked(list, val)) == multiset(list)
  {
    TiersPartition(list, val);
  }

  /** Every item lands in exactly one of the three tiers. */
  lemma {:induction false} TiersPartition(list: seq<string>, val: string)
    ensures multiset(InTier(list, val, 1)) + multiset(InTier(list, val, 2)) + multiset(InTier(list, val, 3)) == multiset(list)
    decreases |list|
  {
    if list != [] {
      var h, tail := list[0], list[1..];
      TiersPartition(tail, val);
      assert list == [h] + tail;
      var t := Tier(h, val);
      forall k | 1 <= k <= 3
        ensures multiset(InTier(list, val, k)) == (if t == k then multiset{h} else multiset{}) + multiset(InTier(tail, val, k))
      {
        InTierCons(h, tail, val, k);
      }
    }
  }

  /** Tier placement: an item lands in tier 1 exactly when it contains the
      query case-insensitively and begins with the query's first character
      exactly; in tier 2 when it contains the query but fails the
      first-character test; in tier 3 otherwise. */
  lemma TierPlacement(list: seq<string>, val: string, x: string)
    ensures x in InTier(list, val, 1) <==> x in list && ContainsI(x, val) && CharAt(x, 0) == CharAt(val, 0)
    ensures x in InTier(list, val, 2) <==> x in list && ContainsI(x, val) && CharAt(x, 0) != CharAt(val, 0)
    ensures x in InTier(list, val, 3) <==> x in list && !ContainsI(x, val)
  {
    InTierMembers(list, val, 1, x);
    InTierMembers(list, val, 2, x);
    InTierMembers(list, val, 3, x);
  }

  lemma InTierAll(list: seq<string>, val: string, t: nat)
    ensures forall i | 0 <= i < |InTier(list, val, t)| :: Tier(InTier(list, val, t)[i], val) == t
  {
    var r := InTier(list, val, t);
    forall i | 0 <= i < |r| ensures Tier(r[i], val) == t {
      InTierMembers(list, val, t, r[i]);
    }
  }

  /** Every tier-1 item precedes every tier-2 item, which precedes every
      tier-3 item. */
  lemma RankedTierOrder(list: seq<string>, val: string)
    ensures forall i, j | 0 <= i < j < |Ranked(list, val)| ::
      Tier(Ranked(list, val)[i], val) <= Tier(Ranked(list, val)[j], val)
  {
    var a, b, c := InTier(list, val, 1), InTier(list, val, 2), InTier(list, val, 3);
    InTierAll(list, val, 1);
    InTierAll(list, val, 2);
    InTierAll(list, val, 3);
    var r := a + b + c;
    forall k | 0 <= k < |r|
      ensures Tier(r[k], val) == if k < |a| then 1 else if k < |a| + |b| then 2 else 3
    {
      if k < |a| {
        assert r[k] == a[k];
      } else if k < |a| + |b| {
        assert r[k] == b[k - |a|];
      } else {
        assert r[k] == c[k - |a| - |b|];
      }
    }
  }

  /** Each tier keeps the items' original relative order. */
  lemma RankedIsStable(list: seq<string>, val: string)
    ensures Ranked(list, val) == InTier(list, val, 1) + InTier(list, val, 2) + InTier(list, val, 3)
    ensures IsSubsequence(InTier(list, val, 1), list)
    ensures IsSubsequence(InTier(list, val, 2), list)
    ensures IsSubsequence(InTier(list, val, 3), list)
  {
    InTierIsFilter(list, val, 1);
    InTierIsFilter(list, val, 2);
    InTierIsFilter(list, val, 3);
  }

  lemma {:induction false} InTierOfInTier(list: seq<string>, val: string, s: nat, t: nat)
    ensures InTier(InTier(list, val, s), val, t) == if s == t then InTier(list, val, s) else []
    decreases |list|
  {
    if list != [] {
      InTierOfInTier(list[1..], val, s, t);
      var rest := InTier(list[1..], val, s);
      if Tier(list[0], val) == s {
        assert ([list[0]] + rest)[1..] == rest;
      } else {
        assert [] + rest == rest;
      }
    }
  }

  /** Ranking an already ranked list with the same query changes nothing. */
  lemma RankedIdempotent(list: seq<string>, val: string)
    ensures Ranked(Ranked(list, val), val) == Ranked(list, val)
  {
    var a, b, c := InTier(list, val, 1), InTier(list, val, 2), InTier(list, val, 3);
    forall t | 1 <= t <= 3 ensures InTier(a + b + c, val, t) == if t == 1 then a else if t == 2 then b else c {
      InTierAppend(a + b, c, val, t);
      InTierAppend(a, b, val, t);
      InTierOfInTier(list, val, 1, t);
      InTierOfInTier(list, val, 2, t);
      InTierOfInTier(list, val, 3, t);
    }
    assert Ranked(a + b + c, val) == InTier(a + b + c, val, 1) + InTier(a + b + c, val, 2) + InTier(a + b + c, val, 3);
  }

  /** The first suggestion (the one Enter picks) is from the best tier
      present in the list. */
  lemma RankedHeadIsBest(list: seq<string>, val: string, x: string)
    requires x in list
    ensures |Ranked(list, val)| > 0
    ensures Tier(Ranked(list, val)[0], val) <= Tier(x, val)
  {
    RankedIsPermutation(list, val);
    var r := Ranked(list, val);
    assert x in multiset(r);
    var j :| 0 <= j < |r| && r[j] == x;
    RankedTierOrder(list, val);
    if j > 0 {
      assert Tier(r[0], val) <= Tier(r[j], val);
    }
  }

  /** Both AUS and AUT start with A and contain AU, so both are
      first-tier and keep their order. */
  lemma RankerExample()
    ensures Ranked(["AUS", "AUT"], "AU") == ["AUS", "AUT"]
    ensures Ranked([], "XYZ") == []
  {
    PrefixTierOne("AUS", "AU");
    PrefixTierOne("AUT", "AU");
    BothFirstTier("AUS", "AUT", "AU");
  }

  lemma BothFirstTier(a: string, b: string, val: string)
    requires Tier(a, val) == 1 && Tier(b, val) == 1
    ensures Ranked([a, b], val) == [a, b]
  {
    var l := [a, b];
    assert l[1..] == [b] && l[1..][1..] == [];
    assert [b][1..] == [];
    assert InTier([b], val, 1) == [b];
    assert InTier([b], val, 2) == [];
    assert InTier([b], val, 3) == [];
  }

  /** The first-character test is case-sensitive: a lower-case item that
      contains the query falls to the second tier. */
  lemma FirstCharacterCaseSensitive()
    ensures Tier("aus", "AU") == 2
  {
    assert OccursAt("aus", "AU", 0) by {
      assert EqI("aus"[0], "AU"[0]) && EqI("aus"[1], "AU"[1]);
    }
    assert CharAt("aus", 0) == "a" != "A" == CharAt("AU", 0);
  }

  /** An item that starts with the query is first-tier. */
  lemma PrefixTierOne(item: string, val: string)
    requires 0 < |val| <= |item| && item[..|val|] == val
    ensures Tier(item, val) == 1
  {
    assert OccursAt(item, val, 0) by {
      forall k | 0 <= k < |val| ensures EqI(item[0 + k], val[k]) {
        assert item[k] == item[..|val|][k];
      }
    }
    assert item[0] == item[..|val|][0];
  }
}
