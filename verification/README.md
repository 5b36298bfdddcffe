# aretext: word breaking and the command/file menu, in Dafny

This project models three small pieces of the aretext terminal editor and
proves what they promise.

- **The word-boundary scanner** (`text/segment/word.go`) and the loop that
  drives it in its test (`text/segment/word_test.go`).
  - A `WordBreaker` remembers the word-break property of the last rune it saw.
  - `ProcessRune` answers whether a boundary may come before the next rune.
  - The code implements two rules of the word-boundary algorithm of Unicode
    Standard Annex #29 (section 4.1.1): WB3 (no break inside CR LF) and WB3a
    (break after Newline, CR or LF). For every other pair it answers "no
    break". The model follows the code, not the annex.
  - The grouping loop cuts the rune stream into segments at each reported
    boundary, except before the first rune.
- **The menu search** (`menu/search.go`).
  - Item names and the query are split into words at ' ', '/', '-', '_' and '.'.
  - Each item is scored by greedily matching the query words, in order, as
    prefixes of the item's words. A non-empty alias equal to the raw query scores
    `maxScore`. Any other score is capped at `maxScore - 1`, and an unmatched
    query word gives -1.
  - Items are kept stably sorted by descending score, ties by name.
  - The results are the items before the first negative score.
  - Editing the query rescores every item in place.
- **The menu state** (`state/menu.go`).
  - Operations: showing and hiding the menu, executing the selected item, and
    moving the selection with wraparound.
  - Editing the query resets the selection to the first result.
  - The documented invariant holds throughout: the selection is 0 when there
    are no results, and below the number of results otherwise.

## Layout

| file | module | models |
|---|---|---|
| `wordbreak.dfy` | `WordBreak` | the property enum, the decision `BreakBefore` and the class `WordBreaker` |
| `segments.dfy` | `Segmentation` | the grouping loop, as the method `SegmentWords`, specified by `Flatten`, `Starts`, `Decision` and `NumBreaks` |
| `menu_text.dfy` | `MenuText` | strings: UTF-8 byte length, prefix, byte-wise order, and `splitWords`, specified by `Words` |
| `menu_search.dfy` | `Menu` | scoring (`ScoreOf`, with the reference `Embeds`), the sort (`SortByScore`), results (`Matches`) and the class `Search` |
| `menu_state.dfy` | `MenuStates` | the classes `MenuState` and `EditorState` (the menu's part of it) and the menu operations |

Go strings are modelled as sequences of code points. Where the Go code looks at
bytes, the model writes the bytes out:
- the points for a matched query word are its UTF-8 byte length (`Utf8Len`);
- the name order compares strings byte by byte, which on UTF-8 is code-point
  order (`StrLess`).

## Model

| member | source | states |
|---|---|---|
| WordBreak.CrLfNeverBreaks | text/segment/word.go:21-25 | WB3: an LF after a CR never gets a break |
| WordBreak.BreakAfterLineEnd | text/segment/word.go:27-31 | WB3a: after Newline, CR or LF there is a break, unless the pair is CR LF |
| WordBreak.BreakIffAfterLineEnd | text/segment/word.go:21-86 | both directions: a break is reported exactly after a line ending that is not followed by LF-after-CR; every other pair gets no break |
| WordBreak.FirstRuneNeverBreaks | text/segment/word.go:10-31 | a zero-valued breaker (property Other) never reports a break for its first rune |
| WordBreak.CrLfThenAny | text/segment/word.go:21-31 | no break between CR and LF, and a break before whatever follows the LF |
| WordBreak.WordBreaker.constructor | text/segment/word.go:10-12 | a fresh breaker has the zero property |
| WordBreak.WordBreaker.ProcessRune | text/segment/word.go:14-87 | the answer is the WB3/WB3a decision for (old lastProp, class of r); afterwards lastProp is the class of r, with no skipping of Extend/Format/ZWJ |
| WordBreak.ProcessRuneIsDeterministic | text/segment/word.go:14-15 | two breakers in the same state fed the same rune give the same answer and end in the same state |
| WordBreak.CrLfThenAnyRune | text/segment/word.go:21-31 | feeding "\r\n" and any rune to a breaker in any state: no break before the LF, a break before the next rune |
| Segmentation.SegmentWords | text/segment/word_test.go:15-28 | the segments concatenate to the input; none is empty; there are none exactly for empty input; for non-empty input there is 1 + (number of non-first runes with a reported break) of them; they start at 0 and exactly at the positions 0 < m where a break is reported; ProcessRune is called once per rune, in order (the ghost `reported` log) |
| Segmentation.GroupedInv | text/segment/word_test.go:18-25 | after k runes the loop state spells input[..k], has no empty segment, and its segment starts are 0 and the break positions below k |
| Segmentation.GroupedResult | text/segment/word_test.go:26-28 | closing the last non-empty segment at the end gives the promised segmentation |
| Segmentation.FirstStartIsZero | text/segment/word_test.go:20-24 | there is one start per segment, and the first segment starts at offset 0 |
| MenuText.Utf8Len | menu/search.go:148 | `len(qw)`: a string of n code points has between n and 4n bytes |
| MenuText.StrLessIrreflexive | menu/search.go:111-113 | the name order `n1 < n2` is irreflexive |
| MenuText.StrLessAsymmetric | menu/search.go:111-113 | the name order is asymmetric |
| MenuText.StrLessTransitive | menu/search.go:111-113 | the name order is transitive |
| MenuText.StrLessTotal | menu/search.go:111-113 | any two different names are ordered one way or the other |
| MenuText.RunLength | menu/search.go:177-183 | the run before the next cut is separator-free and ends at a separator or at the end |
| MenuText.WordsAreNonEmptyAndSeparatorFree | menu/search.go:171-191 | no word is empty and no word contains a separator |
| MenuText.SeparatorFreeIsOneWord | menu/search.go:186-188 | a non-empty string without separators is its own only word; the empty string has none |
| MenuText.WordsAtSeparator | menu/search.go:177-184 | cutting at a separator: the words of a ++ sep ++ b are the words of a, then those of b |
| MenuText.WordsKeepEveryOtherCharacter | menu/search.go:171-191 | the words spell the text with the separators left out: nothing else is lost, repeated or reordered |
| MenuText.CutAtSeparator | menu/search.go:178-183 | at a separator the pending run, if not empty, becomes the next word and scanning resumes after the separator |
| MenuText.SplitWords | menu/search.go:174-191 | the loop returns exactly the maximal separator-free substrings, left to right, none empty or containing a separator, together spelling the text without separators |
| Menu.Greedy | menu/search.go:144-156 | the greedy pass never un-matches a query word and matches at most all of them |
| Menu.GreedyIsComplete | menu/search.go:137-161 | greedy matching matches every query word exactly when the query words can be matched in order as prefixes of distinct candidate words by any choice (`Embeds`) |
| Menu.GreedyScoreNoBonus | menu/search.go:144-156 | after the first candidate word, each matched query word adds its byte length |
| Menu.GreedyTotal | menu/search.go:140-156 | a full greedy match scores the initial score plus every query word's byte length, plus the first word's length again when it matches the first candidate word |
| Menu.AliasScoresMax | menu/search.go:132-135 | a non-empty alias equal to the raw query scores maxScore |
| Menu.UnmatchedScoresMinusOne | menu/search.go:158-161 | if the query words cannot all be matched, the score is -1 |
| Menu.MatchedScore | menu/search.go:140-168 | if they can, the score is initial + total byte length + first-word bonus, capped at maxScore - 1 |
| Menu.ScoreBounds | menu/search.go:140-168 | apart from the alias case the score lies in [-1, maxScore - 1]; a full match scores at least the initial score; for non-empty query words the score is negative exactly for a mismatch, or for the empty query of the command menu |
| Menu.EmptyQueryScore | menu/search.go:34-40 | for the empty query every item scores the initial score (0 for the file menu, -1 otherwise) |
| Menu.BeforeAsymmetric | menu/search.go:109-116 | the comparator is asymmetric |
| Menu.NotBeforeTransitive | menu/search.go:109-116 | "not before" is transitive, so the comparator is a strict weak order |
| Menu.InsertSorted | menu/search.go:108-117 | inserting into a sorted list keeps it sorted |
| Menu.SortPermutes | menu/search.go:108-117 | sorting is a permutation of the scored items |
| Menu.SortSorts | menu/search.go:108-117 | the sorted items are ordered by descending score, ties by ascending name |
| Menu.SortIsStable | menu/search.go:108-117 | items the comparator cannot tell apart keep their relative order |
| Menu.SortKeepsItems | menu/search.go:108-117 | sorting keeps the same menu items |
| Menu.MatchesAreLeadingNonNegative | menu/search.go:95-104 | the results are the stored items, in order, before the first negative score; each has a score of at least 0 |
| Menu.SortedMatches | menu/search.go:92-104 | on sorted items the results are exactly the items with a non-negative score |
| Menu.MatchesAllNonNegative | menu/search.go:92-104 | when no score is negative, the results are all the items in stored order |
| Menu.InitialResults | menu/search.go:33-55 | before any query the file menu shows every item and the command menu shows none |
| Menu.InitialThenSort | menu/search.go:41-53 | the new search's items are sorted, are the given items, and carry their name words and the empty-query score |
| Menu.RescoreThenSort | menu/search.go:84-89 | rescoring and sorting again leaves the same items, sorted, each with its score for the new query |
| Menu.Search.constructor | menu/search.go:33-55 | NewSearch: empty query, the given items with their name words and the initial score, stably sorted; the search invariant holds (it requires only that normalizing the empty string gives the empty string) |
| Menu.Search.SortItemsByScore | menu/search.go:106-117 | the new order is SortByScore of the old one: sorted, and a permutation of it |
| Menu.Search.CalculateScore | menu/search.go:131-169 | the loop returns ScoreOf for the item, which the scoring lemmas above characterise |
| Menu.Search.SetQuery | menu/search.go:80-90 | stores the query and its words, rescores every item and re-sorts; the same items remain and the invariant is kept |
| Menu.Search.AppendRuneToQuery | menu/search.go:62-66 | the query becomes the old query followed by r, the query words are those of the normalized new query, and the items are rescored for them and re-sorted |
| Menu.Search.DeleteRuneFromQuery | menu/search.go:68-78 | an empty query leaves everything as it was; otherwise exactly the last rune is dropped, the query words are those of the normalized new query (also when it is empty), and the items are rescored for them and re-sorted |
| Menu.Search.Results | menu/search.go:92-104 | the loop returns the results specified by Matches |
| Menu.Search.EmptyQueryShowsInitial | menu/search.go:35-39 | whenever the query is empty, fresh or edited back to empty, there are no query words and every item has the initial score, so the file menu shows every item in stored order and the command menu shows none |
| MenuStates.GoRem | state/menu.go:112 | Go's `%` for a positive divisor: the remainder lies strictly between -n and n and has the sign of the dividend |
| MenuStates.WrapAround | state/menu.go:112-115 | adding n to a negative Go remainder gives the mathematical remainder |
| MenuStates.MenuState.constructor | state/menu.go:74 | the zero-valued menu: hidden, command style, no search, selection 0 |
| MenuStates.MenuState.Shown | state/menu.go:63-68 | a visible menu with the given style and search, and selection 0 |
| MenuStates.MenuState.SearchQuery | state/menu.go:41-46 | "" without a search, otherwise the search's query |
| MenuStates.MenuState.SearchResults | state/menu.go:48-53 | no results and index 0 without a search; otherwise the search's results and the selection, which the invariant keeps in range |
| MenuStates.ShowMenu | state/menu.go:55-70 | a visible menu with the given style and selection 0; a new search with the empty query, no query words and the loaded items (plus the custom items for the command style only) scored and sorted as NewSearch does; the file menu then shows every loaded item and the command menu none; the input mode is menu |
| MenuStates.HideMenu | state/menu.go:72-76 | the menu is replaced by a zero-valued one and the input mode is normal |
| MenuStates.ExecuteSelectedMenuItem | state/menu.go:78-103 | with no results: an error status, the menu hidden (zero-valued: command style, selection 0), no action; otherwise the menu is hidden, the status is untouched, and the selected result's action is returned if it is a function over the editor state |
| MenuStates.MoveMenuSelection | state/menu.go:105-118 | with no results the selection is unchanged; otherwise it becomes (old + delta) mod n, always in [0, n) |
| MenuStates.AppendRuneToMenuSearch | state/menu.go:120-125 | the query grows by r and the items are rescored for its words and re-sorted; the selection is reset to 0; the menu stays visible with its style; the invariant is kept |
| MenuStates.DeleteRuneFromMenuSearch | state/menu.go:127-132 | an empty query leaves the query, its words and the items unchanged; otherwise the query loses its last rune and the items are rescored for its words and re-sorted; the selection is reset to 0; the menu stays visible with its style; the invariant is kept |

## Left out

- `wbPropForRune` and its generated property tables are not part of this model. The breaker takes the classification as a total function `classify: char -> WbProp`. `Other` stands for the zero value of the property type.
- Rules WB3b to WB999 of the word-boundary algorithm are not modelled. The code has them only as a comment, so every pair other than those of WB3 and WB3a gets "no break", although the doc comment at text/segment/word.go:8-9 claims conformance with the annex.
- The generated test cases (`wordBreakTestCases`) and the comparison with their expected segments are not part of this model. Only the grouping loop is modelled.
- `normalize` (NFC normalization, then lower-casing) is an abstract function `string -> string` given to the search. The model assumes only what holds of the real function and what the empty-query behaviour depends on: it maps the empty string to the empty string (a conjunct of the search invariant, required by `NewSearch` and `ShowMenu`). Its effect on other strings is not modelled.
- `sort.SliceStable` is specified by its result, not by the library's algorithm. `SortByScore` is a stable insertion sort used as the reference, and it is proved sorted, a permutation and stable.
- Menu item actions are opaque values in Go. Here an action is either a numbered function over the editor state or something else. `ExecuteSelectedMenuItem` returns the number of the action to run instead of running it, so what an action does to the state is not modelled.
- `log.Printf` is not modelled. `SetStatusMsg` is modelled as setting the status field.
- `loadItems` in `ShowMenu` is replaced by the list it returns (`loaded`).
- Strings are sequences of code points. Invalid UTF-8 in names or queries is not modelled, nor is `string(r)` of an invalid rune. On valid UTF-8 the byte offsets of `splitWords` and the byte-wise `<` agree with the code-point versions used here.
- MenuStates.MoveMenuSelection: does not model 64-bit overflow of `selectedResultIdx + delta`, because integers here are unbounded. Score sums are unbounded for the same reason.
- MenuStates.ExecuteSelectedMenuItem: requires a search and the documented selection invariant. Where the Go code would panic (nil search, index out of range) the model has a precondition instead.
- MenuStates.MoveMenuSelection, MenuStates.AppendRuneToMenuSearch and MenuStates.DeleteRuneFromMenuSearch: require a non-nil search. The Go code dereferences it and would panic without one.
- `EditorState` has only the fields the menu operations use: the menu, the input mode (normal, menu, or any other), the custom menu items and the status message.
- The getters `Search.Query`, `MenuState.Visible` and `MenuState.Style` are modelled as plain field reads without contracts.
- state/document.go, internal/app/aretext/editor.go, syntax/languages/testutil.go and syntax/rules/json.go are not part of this model. They hold file I/O, the terminal event loop, test helpers and tokenizer tables.
