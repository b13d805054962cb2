# Country-code autocomplete widget, modelled in Dafny

The widget (`main.js`) fetches the list of countries once and files every
record under its alpha-3 code. The codes become the *candidates*. On every
keyup it trims and upper-cases the input. What happens next depends on the
input and the key:

- **Any key except Enter, non-empty input:** the widget filters the
  candidates with a loose, case-insensitive pattern built from the input (the
  *matcher*). It then reorders the matches into three tiers (the *ranker*).
- **Enter, non-empty input:** the top suggestion is tagged: it is appended
  to the *selected* list and `splice(indexOf(code), 1)` is applied to the
  candidates. A stale top suggestion that is no longer a candidate costs
  the LAST candidate instead (see `Widget.AutoComplete.AddSuggestedTag`).
- **Backspace, empty input:** the last tagged code goes back to the
  candidates.
- **Clicking a tag's cross:** untags that code.

The model has six modules, one per concern of the script:

| file | module | what it holds |
|---|---|---|
| `text.dfy` | `Text` | `\w`, `\s`, ASCII `toUpperCase`, case-insensitive comparison, `charAt`, `trim` |
| `js_array.dfy` | `JsArray` | `indexOf`, `lastIndexOf`, `splice(start, 1)` with JavaScript start resolution, subsequences |
| `matcher.dfy` | `Matcher` | the regular expression of `getMatchedCodeList`, written out as a predicate, and the filter |
| `ranker.dfy` | `Ranker` | the tier of an item; `getPrioritizedList` as a loop proved against the function `Ranked` |
| `country_map.dfy` | `CountryMap` | `makeCountryToCodeMap` as a loop over the records, returning the object and the order of its keys |
| `widget.dfy` | `Widget` | class `AutoComplete`: the module variables of the script as fields, and the handlers as methods |

The query reaches `new RegExp` unescaped. So the matcher and the ranker are
modelled for queries made only of word characters (`[A-Za-z0-9_]`). For such
a query q0 q1 ... qn the pattern is q0 GAP q1 GAP ... qn with the gap
`\w*\s*\w*`. Then `.replace(/\W/, "")` deletes the backslash of the first
gap, and the first gap becomes `w*\s*\w*`. Under the `i` flag it therefore
starts with a run of the letter w, in either case, rather than a run of word
characters. `Matcher.MatchesPrefix` and `Matcher.Matches` state this case by
case.

Four behaviours of `main.js` are easy to miss:

- **The ranker's first-character test is case-sensitive.** It is
  `firstChar === item.charAt(0)` (main.js:81), not a case-insensitive
  comparison. See `Ranker.FirstCharacterCaseSensitive`.
- **Punctuation is not filler.** `"dabb"` does not match `"D-A-B-B-X"`: a
  dash can neither start a gap nor belong to one. See
  `Matcher.DashIsNotFiller`.
- **Query metacharacters are not escaped** (main.js:73, 199). Such queries are outside the
  model, through the word-character precondition.
- **An empty item is never suggested.** The filter callback returns the item
  itself, and `""` is falsy. This only matters for an empty query, which the
  keyup handler never passes. See `Matcher.KeptIsMatchedForNonEmptyQuery`.

## Model

| member | source | states |
|---|---|---|
| Text.ToUpper | main.js:40 | upper-casing keeps the length, leaves no lower-case ASCII letter, keeps every character equal up to case, and keeps a word-only string word-only |
| Text.IsWordChar | main.js:199 | `\w`: ASCII letters, digits and underscore (the gap pattern's word characters) |
| Text.IsSpace | main.js:199 | `\s`: the ECMAScript whitespace and line-terminator characters, which are also those `trim` strips |
| Text.CharAt | main.js:74 | `charAt(i)` is a one-character string exactly when i is inside the string, and "" past the end |
| Text.ContainsI | main.js:73-84 | `item.match(new RegExp(val, 'i'))` for a query without metacharacters: val occurs in item at some position, case-insensitively; TierPlacement states the tiers in its terms |
| Text.Trim | main.js:40 | `trim`: trimStart then trimEnd; its meaning is stated by TrimSpec |
| Text.TrimSpec | main.js:40 | the trimmed input is empty iff the input is all whitespace; otherwise it starts and ends with a non-space character; it is always the slice left once a whitespace prefix and a whitespace suffix are dropped |
| JsArray.IndexOf | main.js:144 | `indexOf` is -1 exactly when the element is absent; otherwise it is the first index holding it |
| JsArray.SpliceOne | main.js:144 | `splice(start, 1)` removes one element when start resolves inside the array and none when start is at or past the end; it never adds elements |
| JsArray.SpliceRemovesFirst | main.js:144 | `splice(indexOf(x), 1)` with x present removes exactly the first occurrence of x |
| JsArray.SpliceMissingRemovesLast | main.js:144 | `splice(indexOf(x), 1)` with x absent removes the LAST element, and an empty array stays empty |
| Matcher.GapMatches | main.js:199 | a gap's text splits into a leading run (the letter w, either case, in the first gap; word characters in later gaps), a whitespace run and a word-character run |
| Matcher.MatchesPrefix | main.js:199 | the pattern q0 GAP q1 ... qn matches a prefix of the text, each query character compared case-insensitively; its consequences are stated by MatchIsSubsequence and SubstringMatches |
| Matcher.Matches | main.js:199-201 | `item.match(regex)` succeeds: the pattern matches at some position of the item (unanchored); WordItemMatchesIffSubsequence, SingleCharQuery and DashIsNotFiller state what it accepts |
| Matcher.Kept | main.js:200-204 | the filter callback returns the item when it matches, and "" is falsy: an item is kept iff it is non-empty and matched; KeptIsMatchedForNonEmptyQuery drops the first condition for non-empty queries |
| Matcher.GetMatchedCodeList | main.js:198-205 | the candidates filtered by Kept; MatchedIsFilter and MatchedMembership state what it keeps and in which order |
| Matcher.MatchedIsFilter | main.js:198-205 | the matcher's result is a subsequence of the candidates and holds every kept candidate as often as the candidates do, and nothing else |
| Matcher.MatchedMembership | main.js:200-204 | a code is in the result iff it is a candidate, non-empty, and matched by the pattern |
| Matcher.KeptIsMatchedForNonEmptyQuery | main.js:200-204 | for a non-empty query, an item is kept iff the pattern matches it |
| Matcher.SubstringMatches | main.js:199 | an item containing the query as a contiguous case-insensitive substring is matched, since every gap may be empty |
| Matcher.MatchIsSubsequence | main.js:199 | a matched item contains the query's characters in order, up to case |
| Matcher.WordItemMatchesIffSubsequence | main.js:199 | an item of word characters only is matched iff the query is a case-insensitive subsequence of it |
| Matcher.SingleCharQuery | main.js:199 | a one-character query matches exactly the items containing that character, up to case |
| Matcher.SecondCharacter | main.js:199 | after the first matched character comes the second query character, a whitespace or a word character |
| Matcher.DashIsNotFiller | main.js:199 | "dabb" is a case-insensitive subsequence of "D-A-B-B-X", yet the pattern does not match it |
| Matcher.FirstGapRefusesWordThenBlank | main.js:199 | the first gap refuses a word character other than w followed by a blank: "AB" does not match "AX B" |
| Matcher.LaterGapAcceptsWordThenBlank | main.js:199 | a later gap accepts that filler: "ZAB" matches "ZAX B" |
| Matcher.MatcherKeepsOrder | main.js:198-205 | query "AU" over ["USA", "AUS", "AUT"] gives ["AUS", "AUT"], in candidate order |
| Matcher.MatcherIgnoresCase | main.js:199 | the lower-case query "de" keeps "DEU" |
| Matcher.MatcherEmptyResults | main.js:198-205 | no candidates give no matches, and candidates without the query's letters in order give none |
| Ranker.Tier | main.js:81-89 | the list an item is pushed into: 1, 2 or 3; TierPlacement states which |
| Ranker.Ranked | main.js:92 | the concatenation of the three tiers, each in input order; RankedIsPermutation, RankedTierOrder, RankedIsStable and RankedIdempotent state its properties |
| Ranker.GetPrioritizedList | main.js:72-93 | the three-list loop returns tier 1 ++ tier 2 ++ tier 3, each tier in input order |
| Ranker.InTierIsFilter | main.js:80-90 | each tier's list is a subsequence of the input holding every item of that tier as often as the input does |
| Ranker.TiersPartition | main.js:80-90 | every item lands in exactly one of the three tiers |
| Ranker.RankedIsPermutation | main.js:92 | the ranked list is a permutation of the matched list |
| Ranker.TierPlacement | main.js:81-89 | tier 1 iff the item contains the query case-insensitively and its first character equals the query's exactly; tier 2 iff it contains the query but fails that test; tier 3 iff it does not contain the query |
| Ranker.RankedTierOrder | main.js:92 | every tier-1 item precedes every tier-2 item, which precedes every tier-3 item |
| Ranker.RankedIsStable | main.js:76-92 | the result is the three tiers concatenated, and each tier keeps the input's relative order |
| Ranker.RankedIdempotent | main.js:72-93 | ranking an already ranked list with the same query changes nothing |
| Ranker.RankedHeadIsBest | main.js:46 | the suggestion Enter picks is of the best tier present in the list |
| Ranker.RankerExample | main.js:72-93 | ["AUS", "AUT"] ranked for "AU" stays ["AUS", "AUT"]; an empty list ranks to an empty list |
| Ranker.FirstCharacterCaseSensitive | main.js:81 | "aus" contains "AU" but is second-tier, because the first-character test is exact |
| Ranker.PrefixTierOne | main.js:81 | an item that starts with the query is first-tier |
| CountryMap.FilingStep | main.js:213-215 | filing one more record overwrites its code's entry and appends a code not seen before to the key order |
| CountryMap.MakeCountryToCodeMap | main.js:211-217 | with `Codes(list)` the `alpha3Code` of every record in list order: the object has a key for every code and nothing else, holds the last record with each code, and reports its keys once each, in order of their code's first appearance |
| CountryMap.DistinctCodesKeepListOrder | main.js:223-227 | when no two records share a code, the candidate list is exactly the list of codes in fetch order |
| Widget.AutoComplete.constructor | main.js:223-227 | after `makeInitialMap`, the candidates are the keys of the filed object, and nothing is selected or suggested |
| Widget.AutoComplete.AddSuggestedTag | main.js:142-153 | the code is appended to the selection; a present code loses its first occurrence among the candidates and the union of both lists is kept; an absent code costs the LAST candidate |
| Widget.AutoComplete.RemoveTaggedItem | main.js:108-119 | a click off a cross changes nothing; a cross appends its code to the END of the candidates and removes its first occurrence from the selection, or the last selected code when it is not selected |
| Widget.AutoComplete.RemoveLastCode | main.js:125-136 | a code without a tag throws and changes nothing; otherwise the code is appended to the candidates and the last selected code is popped |
| Widget.AutoComplete.HandleInputChange | main.js:39-65 | Enter before any suggestion list throws; Enter with no suggestion returns false; Enter otherwise tags the top suggestion; other keys recompute both suggestion lists from the candidates; Backspace on an empty input untags the last code; nothing else changes |
| Widget.SuggestionsAreMatchedCandidates | main.js:51-52 | the ranked suggestions are exactly the candidates the pattern matches, each as often as it is a candidate |
| Widget.TagMovesCode | main.js:143-144 | tagging a candidate moves it to the selection: no code is lost or duplicated |
| Widget.UntagMovesCode | main.js:113-114 | untagging a selected code moves it back to the candidates |
| Widget.PopMovesCode | main.js:130-133 | popping the last selected code onto the candidates moves it |

## Left out

- The XHR request, `JSON.parse` and the response callback (main.js:233-247) are network I/O. The constructor takes the parsed list as its argument.
- Element lookups and listener wiring (main.js:11-14, 30-32) are not modelled. A keyup is reduced to the input value and key code; a tag click to `Cross(code)` or `Elsewhere`.
- `displaySuggestedCountry` and `displayCountriesDetails` (main.js:159-191) are not modelled. They build markup and `JSON.stringify` output only.
- The `innerHTML`, `classList` and input-clearing updates (main.js:145-150, 60-62) are presentation and are not modelled.
- `selectListItem` (main.js:99-102) only forwards the clicked `data-code` to `addSuggestedTag`, which is modelled. A click that yields no code (`undefined`) is not modelled.
- The tag elements in the DOM are assumed to mirror `selectedCodeList`: one tag per selected code. So `removeLastCode` finds a tag exactly when its code is selected.
- A code that makes `querySelector` throw, for instance one starting with a digit, is not modelled.
- Keyups and clicks before the country list has arrived are not modelled. The class starts in the state `makeInitialMap` leaves.
- Queries with regular-expression metacharacters or other non-word characters are out of scope, because the query is not escaped (main.js:73, 199). The matcher, the ranker and the recomputing branch of the keyup handler require word-character queries.
- Case folding covers only ASCII letters. `toUpperCase` and the `i` flag on other characters are not modelled.
- `Object.keys` order is modelled as insertion order. Integer-like keys, which JavaScript lists first, and the special key `__proto__` are not modelled.
- Return values of the event listeners are not modelled: the browser ignores them. `HandleInputChange` reports only whether the handler finished, returned false or threw.
- Widget.AutoComplete.HandleInputChange: the recomputing branch ties the new suggestion list to `Ranked(GetMatchedCodeList(v, candidates), v)`. The statement that these are exactly the matched candidates is the separate lemma `Widget.SuggestionsAreMatchedCandidates`, about that same value, and not a clause of the method.
