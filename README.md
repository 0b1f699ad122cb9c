# Peer feedback page: roster and feedback log

This project models the data logic of a small client-side peer-feedback page
(`node/script.js`), with the DOM stripped away. The page keeps two global
arrays:

- `STUDENTS`: the roster of peer names.
- `feedbackData`: the log of anonymous `{target, comment}` entries.

Its event handlers update these arrays in guarded ways:

- **Add peer**: trim the typed name and refuse it when it is empty. Refuse it
  when some roster entry equals it after lower-casing. Otherwise push it, then
  re-fill the dropdowns, which sorts the roster in place.
- **Remove peer**: trim the typed name and refuse it when it is empty. Find the
  first entry equal to it after lower-casing and splice it out, then re-fill
  the dropdowns. Report "not found" when no entry matches. The feedback log is
  left alone.
- **Submit feedback**: take the selected target as it is and trim the comment.
  Push one entry only when both are non-empty.
- **Summary**: with no selection, show a prompt. Otherwise show the entries
  whose target is exactly the selected name, in log order.

The project has three modules:

- `JsText` (`js_text.dfy`) models the two string built-ins the handlers use.
  `Trim` strips exactly ECMAScript's WhiteSpace and LineTerminator code points.
  `Lower` lower-cases ASCII letters.
- `JsSort` (`js_sort.dfy`) models `Array.prototype.sort()` without a
  comparator. `Less` compares strings code point by code point through a rank.
  `LessIsCodeUnitOrder` proves that this agrees with lexicographic order on the
  strings' UTF-16 code units, which is what JavaScript compares. The module
  also proves that `Less` is a strict total order. It follows that a sorted
  permutation is unique (`SortedPermutationUnique`), so the engine's choice of
  sorting algorithm cannot change the result.
- `PeerFeedback` (`peer_feedback.dfy`) models the page itself:
  - the queries, as functions over sequences: the lower-cased `map`, the
    `includes` duplicate test, `findIndex` and the `filter`;
  - the handlers' branch decisions;
  - the class `FeedbackPage`. It holds `students` and `feedbackData` as
    sequence fields, and each handler is a method that reassigns them.

`FeedbackPage.Valid()` is the roster invariant: no two entries are equal after
lower-casing. The constructor establishes it. Every method preserves it. The
lemmas that carry it (`DistinctAfterPush`, `DistinctAfterSplice`,
`DistinctUnderPermutation`) use `Lower` only as a function, so they hold for
any lower-casing.

## How the sort orders names

The comment at `node/script.js:38` says that the list is sorted
alphabetically. `STUDENTS.sort()` is called without a comparator, though, so
it orders the names by their UTF-16 code units. Every upper-case ASCII letter
therefore sorts before every lower-case one: 'Zed' comes before 'alice'. The
model follows the code. `SortStudents` promises ascending code-unit order.

Each re-fill of the dropdowns sorts `STUDENTS` in place, so `SortStudents` is a
state-changing method of `FeedbackPage`.

The remove handler returns nothing. `RemoveOutcome.Removed` carries the index
the name was removed from, so that the contracts can name the removed entry.

## Model

| member | source | states |
|---|---|---|
| `JsText.Trim` | node/script.js:61 | the result neither starts nor ends with a WhiteSpace/LineTerminator code point, is no longer than the input, and is empty exactly when the input is all white space |
| `JsText.TrimCutsInput` | node/script.js:61 | the input is a white-space run, then the trimmed string, then a white-space run: trimming removes nothing else |
| `JsText.TrimKeepsTrimmed` | node/script.js:115 | a string that does not start or end with white space is left unchanged by trimming |
| `JsText.TrimIdempotent` | node/script.js:82 | trimming twice gives the same string as trimming once |
| `JsText.Lower` | node/script.js:69 | `toLowerCase` keeps the length and maps each code point on its own, ASCII 'A'..'Z' to 'a'..'z' |
| `JsSort.CodeUnitsOrder` | node/script.js:39 | for two different code points, comparing their UTF-16 encodings unit by unit decides in the same direction as their rank |
| `JsSort.LessIsCodeUnitOrder` | node/script.js:39 | the string order used by the model is exactly lexicographic order on UTF-16 code units, a proper prefix first |
| `JsSort.LessIrreflexive` | node/script.js:39 | no string sorts below itself |
| `JsSort.LessTransitive` | node/script.js:39 | the sort order is transitive |
| `JsSort.LessTotal` | node/script.js:39 | of two different strings, one always sorts below the other |
| `JsSort.Insert` | node/script.js:39 | inserting into a sorted sequence gives a sorted sequence with exactly one more occurrence of the inserted string |
| `JsSort.SortedCopy` | node/script.js:39 | the result is sorted ascending and is a permutation of the input |
| `JsSort.SortedPermutationUnique` | node/script.js:39 | two sorted permutations of the same multiset are equal, so any sorting algorithm gives the same array |
| `PeerFeedback.LowerAll` | node/script.js:69 | the mapped roster has one entry per name, each the lower-cased name |
| `PeerFeedback.IsListed` | node/script.js:69 | the duplicate test holds exactly when some roster entry equals the name after lower-casing |
| `PeerFeedback.FindIndex` | node/script.js:89 | the result is -1 when no entry matches case-insensitively; otherwise it is an index whose entry matches and before which no entry matches |
| `PeerFeedback.FindIndexFindsListed` | node/script.js:69-89 | the lookup of the remove handler fails exactly when the duplicate test of the add handler fails |
| `PeerFeedback.AddDecision` | node/script.js:61-73 | an add is refused as empty exactly when the trimmed input is empty, refused as a duplicate exactly when the trimmed input is non-empty and some entry matches it case-insensitively, and accepted otherwise |
| `PeerFeedback.RemoveDecision` | node/script.js:82-107 | a removal is refused as empty exactly when the trimmed input is empty, reported not found exactly when no entry matches, and otherwise removes the first matching index |
| `PeerFeedback.DistinctAfterPush` | node/script.js:68-75 | pushing a name that no entry matches keeps the roster free of case-insensitive duplicates |
| `PeerFeedback.DistinctAfterSplice` | node/script.js:92 | splicing one entry out keeps the roster free of case-insensitive duplicates |
| `PeerFeedback.DistinctUnderPermutation` | node/script.js:39 | sorting the roster keeps it free of case-insensitive duplicates |
| `PeerFeedback.RemovedNameIsGone` | node/script.js:89-92 | in a roster without duplicates, after the first match is spliced out, no entry matches the name any more |
| `PeerFeedback.RemovalKeepsInvariant` | node/script.js:89-92 | removing the first match keeps the roster invariant and leaves no match |
| `PeerFeedback.NoneNamedUnderPermutation` | node/script.js:95 | re-sorting after a removal cannot bring the removed name back |
| `PeerFeedback.SeedStudentsDistinct` | node/script.js:4 | the starting roster has no two names equal after lower-casing |
| `PeerFeedback.FeedbackFor` | node/script.js:181 | the filtered log is no longer than the log, and every kept entry's target is exactly the selected name |
| `PeerFeedback.FeedbackForKeepsMatches` | node/script.js:181 | every entry for the selected name is kept as often as it is logged, and no other entry is kept |
| `PeerFeedback.FeedbackForAppend` | node/script.js:181 | filtering keeps log order: filtering a concatenation is concatenating the filtered parts |
| `PeerFeedback.FeedbackForAfterSubmit` | node/script.js:119-122 | after a submission, the new entry ends its target's aggregation, and every other target's aggregation is unchanged |
| `PeerFeedback.Summarize` | node/script.js:170-181 | an empty selection yields the no-selection prompt; any other selection yields that name's filtered feedback |
| `PeerFeedback.FeedbackPage.constructor` | node/script.js:4-13 | the page starts with the seed log, and with the seed roster sorted (the initial dropdown fill), which satisfies the roster invariant |
| `PeerFeedback.FeedbackPage.SortStudents` | node/script.js:39 | the roster becomes sorted ascending and is a permutation of what it was; the log is unchanged; the invariant is kept |
| `PeerFeedback.FeedbackPage.AddPeer` | node/script.js:60-75 | the outcome is `AddDecision`; an accepted add makes the roster exactly the old roster plus the trimmed name, and a refused one changes nothing; the log is unchanged; the invariant is kept; after an accepted add the new name occurs exactly once, whatever the roster held before |
| `PeerFeedback.FeedbackPage.AddPeerClicked` | node/script.js:60-79 | after an accepted add the roster is the old entries plus the trimmed name, sorted, with the name exactly once whatever the roster held before; a refused add changes nothing; the log is unchanged; the invariant is kept |
| `PeerFeedback.FeedbackPage.RemovePeer` | node/script.js:81-92 | the outcome is `RemoveDecision`; a removal deletes exactly the entry at the first matching index and keeps the others in order; otherwise nothing changes; the log is unchanged; the invariant is kept, and no entry matches the name afterwards |
| `PeerFeedback.FeedbackPage.RemovePeerClicked` | node/script.js:81-108 | after a removal the roster is the old entries minus the matched one, sorted, and no entry matches the name; otherwise nothing changes; existing feedback stays in the log |
| `PeerFeedback.FeedbackPage.SubmitFeedback` | node/script.js:111-130 | an entry is logged exactly when the target and the trimmed comment are both non-empty; it is the one entry `{target, trimmed comment}` appended at the end; otherwise the log is unchanged; the roster is never touched |

## Left out

- Rendering is not modelled. This covers the dropdown options built in `populateDropdowns`, the summary header, the "Anonymous Peer #n" cards and the empty-state messages. Only the data each of these shows is modelled.
- `alert` messages, clearing the name input, `feedbackForm.reset()` and resetting the target select are not modelled. They are user-interface side effects with no effect on the two arrays.
- The panel and navigation-button toggles are not modelled. They are pure user interface.
- The summary reset after a removal (node/script.js:98-101) is not modelled. It compares against a select that re-filling the dropdowns has just reset, so it concerns user-interface state only.
- The values read from the DOM become method parameters: the typed peer name, the selected target and the comment text.
- `JsText.Lower`: only ASCII letters are lower-cased. JavaScript's `toLowerCase` follows full Unicode case mapping, which can also change a string's length. As a result, two names that differ only in the case of a non-ASCII letter count as different names here. The roster invariant lemmas do not depend on how `Lower` is defined.
- Strings are sequences of code points. JavaScript strings can also hold lone surrogate code units, which this model cannot represent. The code-unit order of the sort is proved for well-formed strings only.
- `JsSort.SortedCopy` stands in for the engine's unspecified sorting algorithm. `SortStudents` promises only "sorted and a permutation". `SortedPermutationUnique` shows that this determines the result.
