/** The widget's state and its transitions: the candidate and selected code
    lists, the last computed suggestion lists, and the handlers that move
    codes between the lists (main.js:19-65, 108-153, 223-227). The DOM is
    abstracted away: an event is reduced to the data the handler reads. */
module Widget {
  import opened Text
  import opened JsArray
  import opened Matcher
  import opened Ranker
  import opened CountryMap

  /** A module variable that may still hold `undefined`. */
  datatype Option<T> = None | Some(value: T)

  /** How a handler ends: normally, by `return false`, or with a TypeError
      raised by a property read on `undefined` or `null`. */
  datatype Outcome = Completed | ReturnedFalse | TypeError

  /** A click in the tag container: on the cross (the `I` element) of the
      tag of a code, or anywhere else. */
  datatype TagClick = Cross(code: string) | Elsewhere

  /** Keys the keyup handler tells apart. */
  const Enter := 13
  const Backspace := 8

  class AutoComplete {
    var allCountriesDetailList: seq<Country>
    var codeToCountryMap: map<string, Country>
    /** The candidates: codes not (or no longer) selected. */
    var countryCodeList: seq<string>
    var matchList: Option<seq<string>>
    var orderedMatchedList: Option<seq<string>>
    /** The tagged codes, in tagging order; the tag container shows one tag
        per entry. */
    var selectedCodeList: seq<string>

    /** The state once the country list has arrived and `makeInitialMap`
        has run: every code is a candidate, in order of first appearance,
        and nothing is selected or suggested yet. */
    constructor (response: seq<Country>)
      ensures allCountriesDetailList == response
      ensures FiledByCode(response, codeToCountryMap, countryCodeList)
      ensures NoDuplicates(Codes(response)) ==> countryCodeList == Codes(response)
      ensures selectedCodeList == []
      ensures matchList == None && orderedMatchedList == None
    {
      allCountriesDetailList := response;
      selectedCodeList := [];
      matchList, orderedMatchedList := None, None;
      var obj, keys := MakeCountryToCodeMap(response);
      codeToCountryMap, countryCodeList := obj, keys;
      if NoDuplicates(Codes(response)) {
        DistinctCodesKeepListOrder(response, obj, keys);
      }
    }

    /** `addSuggestedTag(code)`: code is appended to the selection and
        `splice(indexOf(code), 1)` is applied to the candidates. */
    method AddSuggestedTag(code: string)
      modifies this`selectedCodeList, this`countryCodeList
      ensures selectedCodeList == old(selectedCodeList) + [code]
      ensures countryCodeList == SpliceOne(old(countryCodeList), IndexOf(old(countryCodeList), code))
      ensures code in old(countryCodeList) ==>
        var i := IndexOf(old(countryCodeList), code);
        countryCodeList == old(countryCodeList)[..i] + old(countryCodeList)[i + 1..] &&
        multiset(countryCodeList) + multiset(selectedCodeList) ==
          old(multiset(countryCodeList) + multiset(selectedCodeList))
      ensures code !in old(countryCodeList) ==>
        countryCodeList == if old(countryCodeList) == [] then [] else old(countryCodeList)[..|old(countryCodeList)| - 1]
    {
      var candidates, selected := countryCodeList, selectedCodeList;
      if code in candidates {
        SpliceRemovesFirst(candidates, code);
        TagMovesCode(candidates, selected, code);
      } else {
        SpliceMissingRemovesLast(candidates, code);
      }
      selectedCodeList := selected + [code];
      countryCodeList := SpliceOne(candidates, IndexOf(candidates, code));
    }

    /** `removeTaggedItem(evt)`: a click on a tag's cross removes the first
        occurrence of its code from the selection (`splice(indexOf(code), 1)`)
        and appends the code to the END of the candidates. */
    method RemoveTaggedItem(click: TagClick)
      modifies this`selectedCodeList, this`countryCodeList
      ensures click == Elsewhere ==>
        selectedCodeList == old(selectedCodeList) && countryCodeList == old(countryCodeList)
      ensures click.Cross? ==> countryCodeList == old(countryCodeList) + [click.code]
      ensures click.Cross? && click.code in old(selectedCodeList) ==>
        var i := IndexOf(old(selectedCodeList), click.code);
        selectedCodeList == old(selectedCodeList)[..i] + old(selectedCodeList)[i + 1..] &&
        multiset(countryCodeList) + multiset(selectedCodeList) ==
          old(multiset(countryCodeList) + multiset(selectedCodeList))
      ensures click.Cross? && click.code !in old(selectedCodeList) ==>
        selectedCodeList == if old(selectedCodeList) == [] then [] else old(selectedCodeList)[..|old(selectedCodeList)| - 1]
    {
      if click.Cross? {
        var code := click.code;
        var candidates, selected := countryCodeList, selectedCodeList;
        if code in selected {
          SpliceRemovesFirst(selected, code);
          UntagMovesCode(candidates, selected, code);
        } else {
          SpliceMissingRemovesLast(selected, code);
        }
        selectedCodeList := SpliceOne(selected, IndexOf(selected, code));
        countryCodeList := candidates + [code];
      }
    }

    /** `removeLastCode(code)`: when code has a tag, it is appended to the
        candidates and the LAST selected code is popped. Without a tag the
        lookup yields null and reading its parent throws. */
    method RemoveLastCode(code: string) returns (outcome: Outcome)
      modifies this`selectedCodeList, this`countryCodeList
      ensures code !in old(selectedCodeList) ==>
        outcome == TypeError &&
        selectedCodeList == old(selectedCodeList) && countryCodeList == old(countryCodeList)
      ensures code in old(selectedCodeList) ==>
        outcome == Completed &&
        countryCodeList == old(countryCodeList) + [code] &&
        selectedCodeList == old(selectedCodeList)[..|old(selectedCodeList)| - 1]
      ensures code in old(selectedCodeList) && code == old(selectedCodeList)[|old(selectedCodeList)| - 1] ==>
        multiset(countryCodeList) + multiset(selectedCodeList) ==
          old(multiset(countryCodeList) + multiset(selectedCodeList))
    {
      if code !in selectedCodeList {
        return TypeError;
      }
      var candidates, selected := countryCodeList, selectedCodeList;
      PopMovesCode(candidates, selected);
      countryCodeList := candidates + [code];
      selectedCodeList := selected[..|selected| - 1];
      return Completed;
    }

    /** None of the four lists has changed since the call began. */
    twostate predicate Unchanged()
      reads this
    {
      selectedCodeList == old(selectedCodeList) && countryCodeList == old(countryCodeList) &&
      matchList == old(matchList) && orderedMatchedList == old(orderedMatchedList)
    }

    /** `handleInputChange(evt)` for a keyup with input value `value` and key
        code `keyCode`. The value is trimmed and upper-cased first. A
        non-empty value with Enter tags the top suggestion, if there is one;
        with any other key it recomputes the suggestions. An empty value
        with Backspace untags the last selected code. */
    method HandleInputChange(value: string, keyCode: int) returns (outcome: Outcome)
      requires |Trim(value)| > 0 && keyCode != Enter ==> AllWord(Trim(value))
      modifies this`selectedCodeList, this`countryCodeList, this`matchList, this`orderedMatchedList
      ensures
        if |Trim(value)| > 0 then
          if keyCode == Enter then
            // Enter before any suggestion list exists: `undefined.length` throws.
            if old(orderedMatchedList) == None then
              outcome == TypeError && Unchanged()
            // Enter with no suggestion: `return false`, nothing changes.
            else if old(orderedMatchedList).value == [] then
              outcome == ReturnedFalse && Unchanged()
            // Enter with suggestions: the first one is tagged (the list itself is kept).
            else
              var code := old(orderedMatchedList).value[0];
              outcome == Completed &&
              selectedCodeList == old(selectedCodeList) + [code] &&
              countryCodeList == SpliceOne(old(countryCodeList), IndexOf(old(countryCodeList), code)) &&
              matchList == old(matchList) && orderedMatchedList == old(orderedMatchedList) &&
              (code in old(countryCodeList) ==>
                multiset(countryCodeList) + multiset(selectedCodeList) ==
                  old(multiset(countryCodeList) + multiset(selectedCodeList)))
          // Any other key: the suggestions are recomputed from the candidates.
          else
            var v := ToUpper(Trim(value));
            outcome == Completed &&
            AllWord(v) &&
            matchList == Some(GetMatchedCodeList(v, countryCodeList)) &&
            orderedMatchedList == Some(Ranked(matchList.value, v)) &&
            selectedCodeList == old(selectedCodeList) && countryCodeList == old(countryCodeList)
        // Backspace on an empty input with a selection: the last code goes back.
        else if keyCode == Backspace && old(selectedCodeList) != [] then
          var code := old(selectedCodeList)[|old(selectedCodeList)| - 1];
          outcome == Completed &&
          countryCodeList == old(countryCodeList) + [code] &&
          selectedCodeList == old(selectedCodeList)[..|old(selectedCodeList)| - 1] &&
          multiset(countryCodeList) + multiset(selectedCodeList) ==
            old(multiset(countryCodeList) + multiset(selectedCodeList)) &&
          matchList == old(matchList) && orderedMatchedList == old(orderedMatchedList)
        // Any other key on an empty input: nothing changes.
        else
          outcome == Completed && Unchanged()
    {
      outcome := Completed;
      var inputVal := ToUpper(Trim(value));
      assert |inputVal| == |Trim(value)|;
      if |inputVal| > 0 {
        if keyCode == Enter {
          if orderedMatchedList == None {
            return TypeError;
          }
          if |orderedMatchedList.value| > 0 {
            AddSuggestedTag(orderedMatchedList.value[0]);
            return;
          } else {
            return ReturnedFalse;
          }
        } else {
          var matched := GetMatchedCodeList(inputVal, countryCodeList);
          var ordered := GetPrioritizedList(matched, inputVal);
          matchList := Some(matched);
          orderedMatchedList := Some(ordered);
        }
      } else {
        if |selectedCodeList| > 0 && keyCode == Backspace {
          outcome := RemoveLastCode(selectedCodeList[|selectedCodeList| - 1]);
        }
      }
    }
  }

  /** The suggestions shown after a keystroke are exactly the candidates
      the loose pattern matches, each as often as it is a candidate. */
  lemma SuggestionsAreMatchedCandidates(v: string, candidates: seq<string>)
    requires AllWord(v) && |v| > 0
    ensures var suggestions := Ranked(GetMatchedCodeList(v, candidates), v);
      (forall x :: x in suggestions <==> x in candidates && Matches(x, v)) &&
      (forall x :: multiset(suggestions)[x] == if Matches(x, v) then multiset(candidates)[x] else 0)
  {
    var matched := GetMatchedCodeList(v, candidates);
    RankedIsPermutation(matched, v);
    MatchedIsFilter(v, candidates);
    forall x ensures x in Ranked(matched, v) <==> x in candidates && Matches(x, v) {
      assert x in Ranked(matched, v) <==> x in multiset(Ranked(matched, v));
      MatchedMembership(v, candidates, x);
      KeptIsMatchedForNonEmptyQuery(x, v);
    }
    forall x ensures multiset(Ranked(matched, v))[x] == if Matches(x, v) then multiset(candidates)[x] else 0 {
      KeptIsMatchedForNonEmptyQuery(x, v);
    }
  }

  /** Tagging a candidate moves it to the selection: no code is lost or
      duplicated. */
  lemma TagMovesCode<T>(candidates: seq<T>, selected: seq<T>, code: T)
    requires code in candidates
    ensures multiset(SpliceOne(candidates, IndexOf(candidates, code))) + multiset(selected + [code]) ==
      multiset(candidates) + multiset(selected)
  {
    SpliceRemovesFirst(candidates, code);
  }

  /** Untagging a selected code moves it back to the candidates. */
  lemma UntagMovesCode<T>(candidates: seq<T>, selected: seq<T>, code: T)
    requires code in selected
    ensures multiset(candidates + [code]) + multiset(SpliceOne(selected, IndexOf(selected, code))) ==
      multiset(candidates) + multiset(selected)
  {
    SpliceRemovesFirst(selected, code);
  }

  /** Popping the last selected code onto the candidates moves it. */
  lemma PopMovesCode<T>(candidates: seq<T>, selected: seq<T>)
    requires selected != []
    ensures multiset(candidates + [selected[|selected| - 1]]) + multiset(selected[..|selected| - 1]) ==
      multiset(candidates) + multiset(selected)
  {
    assert selected == selected[..|selected| - 1] + [selected[|selected| - 1]];
  }
}
