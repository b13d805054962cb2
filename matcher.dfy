/** The loose matcher `getMatchedCodeList` (main.js:198-205), with the regular
    expression it builds written out as a predicate.

    For a query q0 q1 ... qn the source builds the pattern
      q0 GAP q1 GAP ... qn        with GAP = \w*\s*\w*
    and then `.replace(/\W/, "")` deletes the first non-word character of
    the pattern text. For a query of word characters that is the backslash
    of the first gap, so the first gap reads `w*\s*\w*`: with the `i` flag
    its leading run is a run of the letter w (either case), not of word
    characters. The pattern is matched case-insensitively and unanchored. */
module Matcher {
  import opened Text
  import opened JsArray

  /** A character of a gap's leading run: the letter w in the first gap,
      any word character in the later gaps. */
  predicate LeadChar(c: char, first: bool) {
    if first then c == 'w' || c == 'W' else IsWordChar(c)
  }

  /** g splits at a <= b into a leading run, a whitespace run and a run of
      word characters. */
  predicate SplitsAt(g: string, first: bool, a: nat, b: nat) {
    a <= b <= |g| &&
    (forall i :: 0 <= i < a ==> LeadChar(g[i], first)) &&
    (forall i :: a <= i < b ==> IsSpace(g[i])) &&
    (forall i :: b <= i < |g| ==> IsWordChar(g[i]))
  }

  /** g is matched by the first gap `w*\s*\w*` (first) or a later gap `\w*\s*\w*`. */
  predicate GapMatches(g: string, first: bool) {
    exists a, b | 0 <= a <= b <= |g| :: SplitsAt(g, first, a, b)
  }

  /** The pattern of q matches a prefix of s; `first` says whether the gap
      after q[0] is the pattern's first gap. */
  predicate MatchesPrefix(s: string, q: string, first: bool)
    decreases |q|
  {
    |q| == 0 ||
    (|s| > 0 && EqI(s[0], q[0]) &&
     (|q| == 1 ||
      exists j | 1 <= j <= |s| :: GapMatches(s[1..j], first) && MatchesPrefix(s[j..], q[1..], false)))
  }

  /** `item.match(regex)` succeeds: the pattern of q matches somewhere in item. */
  predicate Matches(item: string, q: string) {
    exists p | 0 <= p <= |item| :: MatchesPrefix(item[p..], q, true)
  }

  /** The filter callback returns the item itself when it matches, and an
      empty string is falsy: an item is kept when it matches and is not
      empty. */
  predicate Kept(item: string, val: string) {
    |item| > 0 && Matches(item, val)
  }

  /** A non-empty query only matches non-empty items, so for it (the only
      kind the keyup handler passes) being kept is just matching. */
  lemma KeptIsMatchedForNonEmptyQuery(item: string, val: string)
    requires |val| > 0
    ensures Kept(item, val) <==> Matches(item, val)
  {
    if Matches(item, val) {
      var p :| 0 <= p <= |item| && MatchesPrefix(item[p..], val, true);
      assert |item[p..]| > 0;
    }
  }

  /** `getMatchedCodeList(val, list)`: the filter of list by Kept. The
      query is put into the pattern unescaped, so only queries of word
      characters are modelled. */
  function GetMatchedCodeList(val: string, list: seq<string>): seq<string>
    requires AllWord(val)
    decreases |list|
  {
    if list == [] then []
    else (if Kept(list[0], val) then [list[0]] else []) + GetMatchedCodeList(val, list[1..])
  }

  /** One step of the filter. */
  lemma MatchedCons(val: string, h: string, tail: seq<string>)
    requires AllWord(val)
    ensures GetMatchedCodeList(val, [h] + tail) == (if Kept(h, val) then [h] else []) + GetMatchedCodeList(val, tail)
  {
    assert ([h] + tail)[1..] == tail;
  }

  /** The result is a subsequence of the candidates (order kept) holding
      every matched candidate as often as the candidates do, and nothing
      else. */
  lemma MatchedIsFilter(val: string, list: seq<string>)
    requires AllWord(val)
    ensures IsSubsequence(GetMatchedCodeList(val, list), list)
    ensures forall x :: multiset(GetMatchedCodeList(val, list))[x] == if Kept(x, val) then multiset(list)[x] else 0
  {
    MatchedKeepsOrder(val, list);
    MatchedCounts(val, list);
  }

  lemma {:induction false} MatchedKeepsOrder(val: string, list: seq<string>)
    requires AllWord(val)
    ensures IsSubsequence(GetMatchedCodeList(val, list), list)
    decreases |list|
  {
    if list != [] {
      var h, tail := list[0], list[1..];
      MatchedKeepsOrder(val, tail);
      MatchedCons(val, h, tail);
      assert list == [h] + tail;
      var rest := GetMatchedCodeList(val, tail);
      if Kept(h, val) {
        assert ([h] + rest)[1..] == rest;
      } else {
        assert [] + rest == rest;
      }
    }
  }

  lemma {:induction false} MatchedCounts(val: string, list: seq<string>)
    requires AllWord(val)
    ensures forall x :: multiset(GetMatchedCodeList(val, list))[x] == if Kept(x, val) then multiset(list)[x] else 0
    decreases |list|
  {
    if list != [] {
      var h, tail := list[0], list[1..];
      MatchedCounts(val, tail);
      MatchedCons(val, h, tail);
      assert list == [h] + tail;
      assert multiset(list) == multiset{h} + multiset(tail);
      var rest := GetMatchedCodeList(val, tail);
      assert multiset(GetMatchedCodeList(val, list)) == (if Kept(h, val) then multiset{h} else multiset{}) + multiset(rest);
    }
  }

  /** Exactly the candidates the pattern matches are kept. */
  lemma MatchedMembership(val: string, list: seq<string>, x: string)
    requires AllWord(val)
    ensures x in GetMatchedCodeList(val, list) <==> x in list && |x| > 0 && Matches(x, val)
  {
    MatchedIsFilter(val, list);
    var r := GetMatchedCodeList(val, list);
    assert x in r <==> multiset(r)[x] > 0;
    assert x in list <==> multiset(list)[x] > 0;
  }

  // ---------------------------------------------------------------------
  // Case-insensitive subsequences

  /** q's characters occur in s in order, compared case-insensitively. */
  predicate SubsequenceI(q: string, s: string)
    decreases |s|
  {
    |q| == 0 ||
    (|s| > 0 && ((EqI(q[0], s[0]) && SubsequenceI(q[1..], s[1..])) || SubsequenceI(q, s[1..])))
  }

  lemma {:induction false} SubsequenceIOfSuffix(q: string, s: string, k: nat)
    requires k <= |s| && SubsequenceI(q, s[k..])
    ensures SubsequenceI(q, s)
    decreases k
  {
    if k > 0 {
      assert s[k..] == s[1..][k - 1..];
      SubsequenceIOfSuffix(q, s[1..], k - 1);
    }
  }

  /** The first character of q can be placed at some p of s with the rest
      of q a subsequence of what follows. */
  lemma {:induction false} SubsequenceIFirst(q: string, s: string) returns (p: nat)
    requires |q| > 0 && SubsequenceI(q, s)
    ensures p < |s| && EqI(s[p], q[0]) && SubsequenceI(q[1..], s[p + 1..])
    decreases |s|
  {
    if EqI(q[0], s[0]) && SubsequenceI(q[1..], s[1..]) {
      p := 0;
    } else {
      var p' := SubsequenceIFirst(q, s[1..]);
      assert s[1..][p' + 1..] == s[p' + 2..];
      p := p' + 1;
    }
  }

  // ---------------------------------------------------------------------
  // What the pattern accepts

  lemma {:induction false} MatchesPrefixIsSubsequence(s: string, q: string, first: bool)
    requires MatchesPrefix(s, q, first)
    ensures SubsequenceI(q, s)
    decreases |q|
  {
    if |q| > 1 {
      var j :| 1 <= j <= |s| && GapMatches(s[1..j], first) && MatchesPrefix(s[j..], q[1..], false);
      MatchesPrefixIsSubsequence(s[j..], q[1..], false);
      assert s[j..] == s[1..][j - 1..];
      SubsequenceIOfSuffix(q[1..], s[1..], j - 1);
    } else if |q| == 1 {
      assert q[1..] == [];
    }
  }

  /** Whatever the gaps swallow, a match places q's characters in order:
      a matched item has the query as a case-insensitive subsequence. */
  lemma MatchIsSubsequence(item: string, q: string)
    requires Matches(item, q)
    ensures SubsequenceI(q, item)
  {
    var p :| 0 <= p <= |item| && MatchesPrefix(item[p..], q, true);
    MatchesPrefixIsSubsequence(item[p..], q, true);
    SubsequenceIOfSuffix(q, item, p);
  }

  lemma {:induction false} OccurrenceMatchesPrefix(s: string, q: string, first: bool)
    requires OccursAt(s, q, 0)
    ensures MatchesPrefix(s, q, first)
    decreases |q|
  {
    if |q| > 1 {
      assert SplitsAt(s[1..1], first, 0, 0);
      assert OccursAt(s[1..], q[1..], 0) by {
        forall k | 0 <= k < |q| - 1 ensures EqI(s[1..][k], q[1..][k]) {
          assert EqI(s[k + 1], q[k + 1]);
        }
      }
      OccurrenceMatchesPrefix(s[1..], q[1..], false);
      assert GapMatches(s[1..1], first) && MatchesPrefix(s[1..], q[1..], false);
    } else if |q| == 1 {
      assert EqI(s[0 + 0], q[0]);
    }
  }

  /** Every gap may be empty, so an item that contains the query as a
      case-insensitive substring is kept. */
  lemma SubstringMatches(item: string, q: string)
    requires ContainsI(item, q)
    ensures Matches(item, q)
  {
    var p :| 0 <= p <= |item| - |q| && OccursAt(item, q, p);
    assert OccursAt(item[p..], q, 0) by {
      forall k | 0 <= k < |q| ensures EqI(item[p..][k], q[k]) {
        assert EqI(item[p + k], q[k]);
      }
    }
    OccurrenceMatchesPrefix(item[p..], q, true);
  }

  lemma {:induction false} WordSubsequenceMatchesPrefix(s: string, q: string, first: bool)
    requires |q| > 0 && |s| > 0 && AllWord(s) && EqI(s[0], q[0]) && SubsequenceI(q[1..], s[1..])
    ensures MatchesPrefix(s, q, first)
    decreases |q|
  {
    if |q| > 1 {
      var t := s[1..];
      var p := SubsequenceIFirst(q[1..], t);
      var j := p + 1;
      var g := s[1..j];
      assert SplitsAt(g, first, 0, 0) by {
        forall i | 0 <= i < |g| ensures IsWordChar(g[i]) {
          assert g[i] == s[i + 1];
        }
      }
      assert s[j..] == t[p..];
      assert t[p..][1..] == t[p + 1..];
      assert q[1..][1..] == q[2..];
      WordSubsequenceMatchesPrefix(s[j..], q[1..], false);
      assert GapMatches(s[1..j], first) && MatchesPrefix(s[j..], q[1..], false);
    }
  }

  /** On an item of word characters alone the gaps can swallow anything,
      and the matcher keeps the item exactly when the query is a
      case-insensitive subsequence of it. */
  lemma WordItemMatchesIffSubsequence(item: string, q: string)
    requires AllWord(item)
    ensures Matches(item, q) <==> SubsequenceI(q, item)
  {
    if Matches(item, q) {
      MatchIsSubsequence(item, q);
    }
    if SubsequenceI(q, item) {
      if |q| == 0 {
        assert MatchesPrefix(item[0..], q, true);
      } else {
        var p := SubsequenceIFirst(q, item);
        var s := item[p..];
        assert s[1..] == item[p + 1..];
        assert AllWord(s) by {
          forall i | 0 <= i < |s| ensures IsWordChar(s[i]) {
            assert s[i] == item[p + i];
          }
        }
        WordSubsequenceMatchesPrefix(s, q, true);
      }
    }
  }

  /** A one-character query has no gap: it is that character alone, found
      anywhere in the item. */
  lemma SingleCharQuery(item: string, c: char)
    ensures Matches(item, [c]) <==> exists i | 0 <= i < |item| :: EqI(item[i], c)
  {
    if Matches(item, [c]) {
      var p :| 0 <= p <= |item| && MatchesPrefix(item[p..], [c], true);
      assert EqI(item[p], c);
    }
    if exists i | 0 <= i < |item| :: EqI(item[i], c) {
      var i :| 0 <= i < |item| && EqI(item[i], c);
      assert MatchesPrefix(item[i..], [c], true);
    }
  }

  // ---------------------------------------------------------------------
  // Consequences on small inputs

  /** Right after the first matched character comes the second query
      character, a whitespace or a word character: the first gap admits
      nothing else. */
  lemma SecondCharacter(s: string, q: string, first: bool)
    requires |q| >= 2 && MatchesPrefix(s, q, first)
    ensures |s| >= 2 && EqI(s[0], q[0])
    ensures EqI(s[1], q[1]) || IsSpace(s[1]) || IsWordChar(s[1])
  {
    var j :| 1 <= j <= |s| && GapMatches(s[1..j], first) && MatchesPrefix(s[j..], q[1..], false);
    if j == 1 {
      assert s[1..][0] == s[1];
    } else {
      var a, b :| 0 <= a <= b <= j - 1 && SplitsAt(s[1..j], first, a, b);
      assert s[1..j][0] == s[1];
    }
  }

  /** Punctuation is no filler: a dash between the letters defeats the
      match, although the letters occur in order. */
  lemma DashIsNotFiller()
    ensures SubsequenceI("dabb", "D-A-B-B-X")
    ensures !Matches("D-A-B-B-X", "dabb")
  {
    DashLettersInOrder();
    DashRefuted();
  }

  lemma DashRefuted()
    ensures !Matches("D-A-B-B-X", "dabb")
  {
    DashBlocks("D-A-B-B-X", "dabb");
    RefutedAtSecondCharacter("D-A-B-B-X", "dabb");
  }

  /** The only d of the item is followed by a dash, which can neither be
      the query's a nor begin the first gap. */
  lemma DashBlocks(item: string, q: string)
    requires item == "D-A-B-B-X" && q == "dabb"
    ensures forall p | 0 <= p < |item| - 1 :: EqI(item[p], q[0]) ==>
      !(EqI(item[p + 1], q[1]) || LeadChar(item[p + 1], true) || IsSpace(item[p + 1]) || IsWordChar(item[p + 1]))
  {
    forall p | 0 <= p < |item| - 1 && EqI(item[p], q[0])
      ensures !(EqI(item[p + 1], q[1]) || LeadChar(item[p + 1], true) || IsSpace(item[p + 1]) || IsWordChar(item[p + 1]))
    {
      if p == 0 {
        assert item[1] == '-';
      }
    }
  }

  /** No match where every occurrence of the first query character is
      followed by a character that can neither start the first gap nor be
      the second query character. */
  lemma RefutedAtSecondCharacter(item: string, q: string)
    requires |q| >= 2
    requires forall p | 0 <= p < |item| - 1 :: EqI(item[p], q[0]) ==>
      !(EqI(item[p + 1], q[1]) || LeadChar(item[p + 1], true) || IsSpace(item[p + 1]) || IsWordChar(item[p + 1]))
    ensures !Matches(item, q)
  {
    forall p | 0 <= p <= |item| ensures !MatchesPrefix(item[p..], q, true) {
      if MatchesPrefix(item[p..], q, true) {
        SecondCharacter(item[p..], q, true);
        assert false;
      }
    }
  }

  lemma DashLettersInOrder()
    ensures SubsequenceI("dabb", "D-A-B-B-X")
  {
    var item, q := "D-A-B-B-X", "dabb";
    assert SubsequenceI("b", "B-X");
    assert SubsequenceI("b", "-B-X");
    assert SubsequenceI("bb", "B-B-X");
    assert SubsequenceI("bb", "-B-B-X");
    assert SubsequenceI("abb", "A-B-B-X");
    assert SubsequenceI("abb", "-A-B-B-X");
    assert SubsequenceI(q, item);
  }

  /** The first gap differs from the later ones: between the first and the
      second query character only w's, then blanks, then word characters
      may stand, so "X " is refused there ... */
  lemma FirstGapRefusesWordThenBlank()
    ensures !Matches("AX B", "AB")
  {
    forall p | 0 <= p <= 4 ensures !MatchesPrefix("AX B"[p..], "AB", true) {
      FirstGapRefusesAt(p);
    }
  }

  lemma FirstGapRefusesAt(p: nat)
    requires p <= 4
    ensures !MatchesPrefix("AX B"[p..], "AB", true)
  {
    var t := "AX B";
    if p == 0 {
      FirstGapRefusesAtStart(t);
    } else if MatchesPrefix(t[p..], "AB", true) {
      assert false;
    }
  }

  lemma FirstGapRefusesAtStart(t: string)
    requires t == "AX B"
    ensures !MatchesPrefix(t, "AB", true)
  {
    forall j | 1 <= j <= |t| ensures !(GapMatches(t[1..j], true) && MatchesPrefix(t[j..], "B", false)) {
      if j == 3 {
        assert t[1..3][0] == 'X' && t[1..3][1] == ' ';
        FirstGapRefused(t[1..3]);
      } else if j < 4 {
        assert t[j..][0] == t[j];
      }
    }
  }

  /** ... and accepted one gap later, where `\w*\s*\w*` is intact. */
  lemma LaterGapAcceptsWordThenBlank()
    ensures Matches("ZAX B", "ZAB")
  {
    var u := "ZAX B";
    assert SplitsAt(u[2..4], false, 1, 2);
    assert MatchesPrefix(u[4..], "B", false);
    assert MatchesPrefix(u[1..], "AB", false) by {
      assert u[1..][1..3] == u[2..4] && u[1..][3..] == u[4..];
    }
    assert SplitsAt(u[1..1], true, 0, 0);
    assert MatchesPrefix(u[0..], "ZAB", true) by {
      assert u[0..][1..1] == u[1..1] && u[0..][1..] == u[1..];
    }
  }

  /** A first gap that starts with a character other than w or a blank
      must consist of word characters alone. */
  lemma FirstGapRefused(g: string)
    requires |g| >= 2 && !LeadChar(g[0], true) && !IsSpace(g[0]) && !IsWordChar(g[1])
    ensures !GapMatches(g, true)
  {
    forall a, b | 0 <= a <= b <= |g| ensures !SplitsAt(g, true, a, b) {
      if SplitsAt(g, true, a, b) {
        assert false;
      }
    }
  }

  /** Candidates are kept in their original order; "USA" has no A before
      a U and is dropped. */
  lemma MatcherKeepsOrder()
    ensures GetMatchedCodeList("AU", ["USA", "AUS", "AUT"]) == ["AUS", "AUT"]
  {
    AuKeeps();
    KeepsTwoOfThree("AU", "USA", "AUS", "AUT");
  }

  lemma AuKeeps()
    ensures AllWord("AU") && !Kept("USA", "AU") && Kept("AUS", "AU") && Kept("AUT", "AU")
  {
    AuStartsKept("AUS");
    AuStartsKept("AUT");
    UsaRefusesAu();
  }

  lemma AuStartsKept(item: string)
    requires item == "AUS" || item == "AUT"
    ensures Kept(item, "AU")
  {
    StartKept(item, "AU");
  }

  /** An item whose first characters are the query's, up to case, is kept. */
  lemma StartKept(item: string, q: string)
    requires 0 < |q| <= |item| && forall k | 0 <= k < |q| :: EqI(item[k], q[k])
    ensures Kept(item, q)
  {
    assert OccursAt(item, q, 0);
    SubstringMatches(item, q);
  }

  lemma UsaRefusesAu()
    ensures !Matches("USA", "AU")
  {
    assert !SubsequenceI("AU", "USA") by {
      assert !SubsequenceI("U", "A");
      assert !SubsequenceI("AU", "A");
      assert !SubsequenceI("U", "SA");
      assert !SubsequenceI("AU", "SA");
    }
    if Matches("USA", "AU") {
      MatchIsSubsequence("USA", "AU");
    }
  }

  lemma KeepsTwoOfThree(q: string, a: string, b: string, c: string)
    requires AllWord(q) && !Kept(a, q) && Kept(b, q) && Kept(c, q)
    ensures GetMatchedCodeList(q, [a, b, c]) == [b, c]
  {
    MatchedCons(q, c, []);
    MatchedCons(q, b, [c]);
    MatchedCons(q, a, [b, c]);
    assert [c] == [c] + [] && [b, c] == [b] + [c] && [a, b, c] == [a] + [b, c];
  }

  /** The comparison ignores case. */
  lemma MatcherIgnoresCase()
    ensures "DEU" in GetMatchedCodeList("de", ["DEU", "SWE"])
  {
    StartKept("DEU", "de");
    MatchedCons("de", "DEU", ["SWE"]);
    assert ["DEU", "SWE"] == ["DEU"] + ["SWE"];
  }

  /** No candidate, or no candidate holding the query's letters in order,
      gives no match. */
  lemma MatcherEmptyResults()
    ensures GetMatchedCodeList("XYZ", []) == []
    ensures GetMatchedCodeList("ZZZ", ["USA", "AUS"]) == []
  {
    assert !SubsequenceI("ZZZ", "USA") by {
      assert !SubsequenceI("ZZZ", "A");
      assert !SubsequenceI("ZZZ", "SA");
    }
    assert !SubsequenceI("ZZZ", "AUS") by {
      assert !SubsequenceI("ZZZ", "S");
      assert !SubsequenceI("ZZZ", "US");
    }
    if Matches("USA", "ZZZ") {
      MatchIsSubsequence("USA", "ZZZ");
    }
    if Matches("AUS", "ZZZ") {
      MatchIsSubsequence("AUS", "ZZZ");
    }
    MatchedCons("ZZZ", "AUS", []);
    MatchedCons("ZZZ", "USA", ["AUS"]);
    assert ["AUS"] == ["AUS"] + [] && ["USA", "AUS"] == ["USA"] + ["AUS"];
  }
}
