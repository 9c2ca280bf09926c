# Scrappr suggestion and notes core, in Dafny

Scrappr is a writing tool with two panels. The first is a document editor. The second is a notes panel where short notes are written and saved. While the user types in the document, the editor finds the word at the caret. It then shows up to three saved notes whose text contains that word, ignoring case.

This project models the two pieces of logic under those panels:

- **The editor's suggestion check** (module `Editor`, file `editor.dfy`). The DOM selection it reads is a `Selection` value. `checkSuggestionAtCursor` becomes `Editor.CheckSuggestionAtCursor`, a method of the class `Editor`. That class holds the component's `suggestions` state. The method rejects a missing or non-collapsed selection and a caret outside a text node. Otherwise it scans for the word span with two loops (`WordSpan`), trims the word, and looks notes up only when the word is longer than two code units. The lookup `findSuggestions` is the pure function `Suggestions`: lower-case the word, keep the notes whose lower-cased content includes it (`Matching`), and take at most the first three.
- **The notes panel's list maintenance** (module `Notes`, file `notes.dfy`). `SavedNote` is a datatype. The component's state, `currentNote` and `savedNotes`, lives in the class `Notes`. `saveNote` ignores whitespace-only text. Otherwise it puts a new note in front of the list and clears the text. `deleteNote` removes every note with the given id, but only when the user confirms. The clock reading and the confirmation answer are parameters.
- **JavaScript string primitives** (module `JsText`, file `js_text.dfy`). Strings are sequences of UTF-16 code units, as in JavaScript. That way `length`, indexing and selection offsets count the same things the source counts. The module models `trim` and the whitespace class `\s` (the ECMAScript WhiteSpace and LineTerminator code points). It also models `toLowerCase` on ASCII, `includes`, and the decimal `toString` of the clock value used as a note id.
- **Order-preserving subsequences** (module `Seqs`, file `seqs.dfy`), used to state that filtering keeps list order.

The lookup is gated on the length of the current word (`currentWord.length > 2`, src/Editor.tsx:45). At most 3 notes are suggested (`slice(0, 3)`, src/Editor.tsx:128). Matching is case-insensitive substring containment (src/Editor.tsx:121-126). The suggestion items have no click handler, so nothing replaces the word.

## Model

| member | source | states |
|---|---|---|
| `JsText.TrimStart` | src/Editor.tsx:44 | the result is a suffix of the input that is empty or starts with non-whitespace, and everything dropped is whitespace |
| `JsText.TrimEnd` | src/Editor.tsx:44 | the result is a prefix of the input that is empty or ends with non-whitespace, and everything dropped is whitespace |
| `JsText.IsWhitespace` | src/Editor.tsx:38-44 | the class `\s` contains no ASCII letter or digit, and on ASCII it is exactly the space and the control characters tab through carriage return |
| `JsText.Trim` | src/Editor.tsx:44 | `trim()` leaves a string that is empty or starts and ends with non-whitespace (see `TrimIsInfix` for where it sits in the input) |
| `JsText.TrimIsInfix` | src/Editor.tsx:44 | `s.trim()` is a slice `s[a..b]` of `s`, and the parts cut off before `a` and after `b` are whitespace only |
| `JsText.TrimStartAllWhitespace` | src/Notes.tsx:37 | a whitespace-only string loses all of its code units to the leading trim |
| `JsText.TrimEmptyIffAllWhitespace` | src/Notes.tsx:37 | `s.trim()` is empty if and only if `s` is whitespace only (both directions) |
| `JsText.TrimNoWhitespace` | src/Editor.tsx:44 | trimming a string that contains no whitespace returns it unchanged |
| `JsText.ToLower` | src/Editor.tsx:121-124 | lower-casing keeps the length of the string |
| `JsText.ToLowerIdempotent` | src/Editor.tsx:121-124 | lower-casing an already lower-cased string changes nothing |
| `JsText.ToLowerEmpty` | src/Editor.tsx:117-121 | the lower-cased word is empty exactly when the word is empty |
| `JsText.Includes` | src/Editor.tsx:126 | a string includes every prefix of itself, and a string that includes `p` is at least as long as `p` |
| `JsText.IncludesIffOccurs` | src/Editor.tsx:126 | `s.includes(p)` holds if and only if `p` occurs in `s` at some position (both directions) |
| `JsText.IncludesEmpty` | src/Editor.tsx:126 | every string includes the empty string |
| `JsText.NatToString` | src/Notes.tsx:40 | the id numeral is non-empty, all decimal digits, `"0"` for zero and without a leading zero otherwise |
| `JsText.ParseNatToString` | src/Notes.tsx:40 | reading the numeral of a clock value back gives that value |
| `JsText.NatToStringInjective` | src/Notes.tsx:40 | different clock values give different id strings |
| `Seqs.SubsequencePrefix` | src/Editor.tsx:128 | the first `k` elements of an order-preserving subsequence are still an order-preserving subsequence |
| `Notes.NewNote` | src/Notes.tsx:39-43 | the new note's id is exactly the canonical decimal numeral of the clock value (so all digits, reading back to that value), its timestamp is that value, and its content is the current text verbatim |
| `Notes.WithoutId` | src/Notes.tsx:63 | a note survives a delete if and only if it was in the list and its id differs from the deleted id; the list never grows |
| `Notes.WithoutIdAppend` | src/Notes.tsx:63 | deleting from a concatenation deletes from each part and keeps them in order |
| `Notes.WithoutAbsentId` | src/Notes.tsx:63 | deleting an id that no note carries leaves the list unchanged |
| `Notes.WithoutIdSubsequence` | src/Notes.tsx:63 | the notes left after a delete keep their original relative order |
| `Notes.WithoutIdIdempotent` | src/Notes.tsx:63 | deleting the same id a second time changes nothing |
| `Notes.FreshClockFreshId` | src/Notes.tsx:39-43 | if each saved note's id is the numeral of its timestamp, a clock reading later than every timestamp gives an id that no saved note carries; the premise holds for lists built by `SaveNote`, which reads the clock once for id and timestamp |
| `Notes.DeleteUndoesSave` | src/Notes.tsx:45 | deleting the id of a note just saved with a new id gives back the list from before the save |
| `Notes.Notes.constructor` | src/Notes.tsx:14-15 | the panel starts with an empty current note and no saved notes |
| `Notes.Notes.HandleNotesChange` | src/Notes.tsx:29-33 | the editor text becomes the current note; the saved notes are unchanged |
| `Notes.Notes.SaveNote` | src/Notes.tsx:36-55 | whitespace-only text changes nothing; otherwise the list becomes the new note followed by the old list, and the current note becomes empty; ids that match timestamps stay that way, because the model reads the clock once for both |
| `Notes.Notes.DeleteNote` | src/Notes.tsx:58-67 | a declined prompt changes nothing; a confirmed one leaves exactly the notes with a different id, in order; the current note is untouched |
| `Editor.WordStart` | src/Editor.tsx:36-40 | the backward scan stops at the beginning of the text or right after a whitespace, having passed only non-whitespace |
| `Editor.WordEnd` | src/Editor.tsx:37-43 | the forward scan stops at the end of the text or at a whitespace, having passed only non-whitespace |
| `Editor.CurrentWord` | src/Editor.tsx:44 | the word at the caret holds no whitespace, is no longer than the text, and is empty exactly when the caret has whitespace or a text boundary on both sides |
| `Editor.CurrentWordIsWordSpan` | src/Editor.tsx:36-43 | the word span satisfies `start <= offset <= end <= length`, holds no whitespace, and cannot be extended on either side |
| `Editor.WordSpanIsUnique` | src/Editor.tsx:36-43 | any span with those properties is the scanned span, so the word at a caret is well defined |
| `Editor.WordSpan` | src/Editor.tsx:36-43 | the two `while` loops compute the maximal non-whitespace span around the caret |
| `Editor.TrimmedWordIsSpan` | src/Editor.tsx:44 | trimming the scanned word changes nothing |
| `Editor.LookupWord` | src/Editor.tsx:21-46 | a word is looked up only for a collapsed selection in a text node; it is the scanned word itself, longer than 2 code units and free of whitespace |
| `Editor.LookupWordSpec` | src/Editor.tsx:21-46 | a lookup happens if and only if the selection is collapsed, lies in a text node and has a current word longer than 2 code units; the word looked up is the span itself and holds no whitespace |
| `Editor.Matching` | src/Editor.tsx:122-127 | a note is kept if and only if it is a saved note whose lower-cased content includes the search text; never more notes than saved |
| `Editor.Suggestions` | src/Editor.tsx:116-128 | the empty word gives no suggestions; there are at most 3; each is a saved note whose lower-cased content includes the lower-cased word |
| `Editor.MatchingAppend` | src/Editor.tsx:122-127 | filtering a concatenation filters each part and keeps them in order |
| `Editor.MatchAtIndex` | src/Editor.tsx:122-127 | a matching note is the k-th match, where k is the number of matches before it |
| `Editor.MatchingSubsequence` | src/Editor.tsx:122-127 | the matches keep their order in the saved-notes list |
| `Editor.SuggestionsSubsequence` | src/Editor.tsx:122-128 | the suggestions are an order-preserving subsequence of the saved notes |
| `Editor.SuggestionsAreFirstMatches` | src/Editor.tsx:122-128 | a matching note with fewer than 3 matches before it is suggested at the position given by that count; fewer than 3 suggestions means every matching note is suggested |
| `Editor.SuggestionsIgnoreCase` | src/Editor.tsx:121-126 | looking up a word and looking up its lower-cased form give the same suggestions |
| `Editor.Editor.constructor` | src/Editor.tsx:62 | the editor starts with no suggestions |
| `Editor.Editor.FindSuggestions` | src/Editor.tsx:116-130 | the suggestions state becomes the lookup result for the word |
| `Editor.Editor.CheckSuggestionAtCursor` | src/Editor.tsx:15-58 | a missing or non-collapsed selection, a caret outside a text node, or a word of 2 code units or fewer clears the suggestions and performs no lookup; otherwise the scanned word is looked up and the suggestions become its result |

## Left out

- Rendering: JSX, styling, the suggestion popup's markup and the 100-character truncation of note text (src/Editor.tsx:132-200, src/Notes.tsx:69-113). This is presentation only.
- The bold, italic and underline buttons (`document.execCommand`, src/Editor.tsx:111-113). These are calls into the browser.
- PDF and Word export (src/Editor.tsx:78-109). These are calls into `html2canvas`, `jsPDF`, `docx` and `file-saver`.
- The popup position, `cursorPosition` (src/Editor.tsx:24, 32, 47-53, 56). It is computed from floating-point `getBoundingClientRect` coordinates. This includes the early return when the editor element is not mounted, which leaves the old position in place.
- Two guards on the note editor's DOM element. The first is `saveNote` clearing its `innerText` (src/Notes.tsx:52-54); the model keeps only `setCurrentNote('')` (src/Notes.tsx:51). The second is `handleNotesChange` returning early when the element is not mounted (src/Notes.tsx:30). The model assumes a mounted element, whose text is the `content` parameter.
- The `setTimeout` deferral of the check (src/Editor.tsx:190-192). `CheckSuggestionAtCursor` is called directly on the selection after the edit.
- Persistence: loading notes from `localStorage` on mount, and writing them back after each change (src/Notes.tsx:19-26, 47, 65). This is storage I/O. JSON decoding of stored notes is also not modelled.
- The `onNotesChange` callback and the wiring through `App` (src/Notes.tsx:48, 66; src/App.tsx). The editor's saved notes are a parameter of `CheckSuggestionAtCursor`.
- `window.confirm` and `Date.now()` are host calls. They become the parameters `confirmed` and `now`.
- `Notes.Notes.SaveNote`: `saveNote` reads `Date.now()` twice, once for the id and once for the timestamp. The model reads the clock once, so id and timestamp always agree. In the source they differ if a millisecond passes between the two reads.
- `JsText.ToLower`: models `toLowerCase` on ASCII letters only. Full Unicode case mapping, including mappings that change the length, is a library table.
- `JsText.NatToString`: models `Number.prototype.toString` only for non-negative integers below 10^21. Clock readings are in that range. Larger values switch to exponent notation.
- The `Selection` datatype keeps only what the check reads: whether there is a range, `isCollapsed`, whether the start container is a text node, its `textContent`, and the start offset. A text node's `textContent` is never null, so the `|| ''` fallback is not modelled.
