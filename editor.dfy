/** The document editor's suggestion logic: find the word at the caret and
    look up the saved notes that mention it. */
module Editor {
  import opened JsText
  import opened Seqs
  import opened Notes

  datatype Option<T> = None | Some(value: T)

  /** What `window.getSelection()` tells the editor. `NoSelection` stands for
      a null selection and for one with no range. Otherwise `collapsed` is
      `isCollapsed`, `inTextNode` says whether the range starts in a text
      node, and `text` and `offset` are that node's `textContent` and the
      range's start offset (code units into `text`). */
  datatype Selection =
    | NoSelection
    | Selection(collapsed: bool, inTextNode: bool, text: JsString, offset: nat)

  /** The DOM keeps the offset of a range starting in a text node within
      that node's text. */
  predicate WellFormed(sel: Selection) {
    sel.Selection? && sel.inTextNode ==> sel.offset <= |sel.text|
  }

  // ---------------------------------------------------------------------------
  // the word at the caret

  /** Where the run of non-whitespace that ends at `i` begins. */
  function WordStart(text: JsString, i: nat): (s: nat)
    requires i <= |text|
    ensures s <= i
    ensures NoWhitespace(text[s..i])
    ensures s == 0 || IsWhitespace(text[s - 1])
    decreases i
  {
    if i > 0 && !IsWhitespace(text[i - 1]) then
      var s := WordStart(text, i - 1);
      assert text[s..i] == text[s..i - 1] + [text[i - 1]];
      s
    else
      i
  }

  /** Where the run of non-whitespace that starts at `i` ends. */
  function WordEnd(text: JsString, i: nat): (e: nat)
    requires i <= |text|
    ensures i <= e <= |text|
    ensures NoWhitespace(text[i..e])
    ensures e == |text| || IsWhitespace(text[e])
    decreases |text| - i
  {
    if i < |text| && !IsWhitespace(text[i]) then
      var e := WordEnd(text, i + 1);
      assert text[i..e] == [text[i]] + text[i + 1..e];
      e
    else
      i
  }

  /** The word around position `offset` of `text`. */
  function CurrentWord(text: JsString, offset: nat): (w: JsString)
    requires offset <= |text|
    ensures |w| <= |text| && NoWhitespace(w)
    ensures w == [] <==>
              && (offset == 0 || IsWhitespace(text[offset - 1]))
              && (offset == |text| || IsWhitespace(text[offset]))
  {
    CurrentWordIsWordSpan(text, offset);
    text[WordStart(text, offset)..WordEnd(text, offset)]
  }

  /** The word span `[start, end)` contains the caret, holds no whitespace and
      cannot be extended on either side. */
  predicate IsWordSpan(text: JsString, offset: nat, start: nat, end: nat) {
    && start <= offset <= end <= |text|
    && NoWhitespace(text[start..end])
    && (start == 0 || IsWhitespace(text[start - 1]))
    && (end == |text| || IsWhitespace(text[end]))
  }

  /** `WordStart` and `WordEnd` give a word span. */
  lemma CurrentWordIsWordSpan(text: JsString, offset: nat)
    requires offset <= |text|
    ensures IsWordSpan(text, offset, WordStart(text, offset), WordEnd(text, offset))
  {
    var s, e := WordStart(text, offset), WordEnd(text, offset);
    forall k | s <= k < e ensures !IsWhitespace(text[k]) {
      if k < offset {
        assert text[k] == text[s..offset][k - s];
      } else {
        assert text[k] == text[offset..e][k - offset];
      }
    }
    assert forall k :: 0 <= k < e - s ==> text[s..e][k] == text[s + k];
  }

  /** A position preceded by non-whitespace back to a word boundary at
      `start` has its word starting at `start`. */
  lemma {:induction false} WordStartAt(text: JsString, i: nat, start: nat)
    requires start <= i <= |text|
    requires NoWhitespace(text[start..i])
    requires start == 0 || IsWhitespace(text[start - 1])
    ensures WordStart(text, i) == start
    decreases i
  {
    if i > start {
      assert text[start..i][i - 1 - start] == text[i - 1];
      assert text[start..i - 1] == text[start..i][..i - 1 - start];
      WordStartAt(text, i - 1, start);
    }
  }

  /** A position followed by non-whitespace up to a word boundary at `end`
      has its word ending at `end`. */
  lemma {:induction false} WordEndAt(text: JsString, i: nat, end: nat)
    requires i <= end <= |text|
    requires NoWhitespace(text[i..end])
    requires end == |text| || IsWhitespace(text[end])
    ensures WordEnd(text, i) == end
    decreases end - i
  {
    if i < end {
      assert text[i..end][0] == text[i];
      assert text[i + 1..end] == text[i..end][1..];
      WordEndAt(text, i + 1, end);
    }
  }

  /** There is only one word span at a caret. */
  lemma WordSpanIsUnique(text: JsString, offset: nat, start: nat, end: nat)
    requires IsWordSpan(text, offset, start, end)
    ensures start == WordStart(text, offset) && end == WordEnd(text, offset)
  {
    assert text[start..offset] == text[start..end][..offset - start];
    assert text[offset..end] == text[start..end][offset - start..];
    WordStartAt(text, offset, start);
    WordEndAt(text, offset, end);
  }

  /** The two scans of `checkSuggestionAtCursor`: step `start` back and
      `end` forward from the caret while they pass non-whitespace. */
  method WordSpan(text: JsString, offset: nat) returns (start: nat, end: nat)
    requires offset <= |text|
    ensures IsWordSpan(text, offset, start, end)
    ensures start == WordStart(text, offset) && end == WordEnd(text, offset)
  {
    start, end := offset, offset;
    while start > 0 && !IsWhitespace(text[start - 1])
      invariant start <= offset
      invariant WordStart(text, start) == WordStart(text, offset)
    {
      start := start - 1;
    }
    while end < |text| && !IsWhitespace(text[end])
      invariant offset <= end <= |text|
      invariant WordEnd(text, end) == WordEnd(text, offset)
    {
      end := end + 1;
    }
    CurrentWordIsWordSpan(text, offset);
  }

  /** A word with no whitespace in it is unchanged by `trim()`, so the word
      handed to the lookup is exactly the scanned span. */
  lemma TrimmedWordIsSpan(text: JsString, offset: nat)
    requires offset <= |text|
    ensures Trim(CurrentWord(text, offset)) == CurrentWord(text, offset)
  {
    CurrentWordIsWordSpan(text, offset);
    TrimNoWhitespace(CurrentWord(text, offset));
  }

  /** Words of this many code units or fewer trigger no lookup. */
  const MaxIgnoredWordLength: nat := 2

  /** The word `checkSuggestionAtCursor` passes to `findSuggestions`, or `None`
      when it clears the suggestions instead. */
  function LookupWord(sel: Selection): (r: Option<JsString>)
    requires WellFormed(sel)
    ensures r.Some? ==> && sel.Selection? && sel.collapsed && sel.inTextNode
                        && r.value == CurrentWord(sel.text, sel.offset)
                        && |r.value| > MaxIgnoredWordLength && NoWhitespace(r.value)
  {
    match sel
    case NoSelection => None
    case Selection(collapsed, inTextNode, text, offset) =>
      if !collapsed || !inTextNode then None
      else
        TrimmedWordIsSpan(text, offset);
        var currentWord := Trim(CurrentWord(text, offset));
        if |currentWord| > MaxIgnoredWordLength then Some(currentWord) else None
  }

  /** A lookup happens exactly for a collapsed selection inside a text node
      whose current word is longer than two code units; the word looked up
      is the scanned span itself, and it holds no whitespace. */
  lemma LookupWordSpec(sel: Selection)
    requires WellFormed(sel)
    ensures LookupWord(sel).Some? <==>
              && sel.Selection? && sel.collapsed && sel.inTextNode
              && |CurrentWord(sel.text, sel.offset)| > MaxIgnoredWordLength
    ensures LookupWord(sel).Some? ==>
              && LookupWord(sel).value == CurrentWord(sel.text, sel.offset)
              && NoWhitespace(LookupWord(sel).value)
  {
    if sel.Selection? && sel.inTextNode {
      TrimmedWordIsSpan(sel.text, sel.offset);
      CurrentWordIsWordSpan(sel.text, sel.offset);
    }
  }

  // ---------------------------------------------------------------------------
  // the note lookup

  /** At most this many notes are suggested. */
  const MaxSuggestions: nat := 3

  /** The note's lower-cased content includes `searchText`. */
  predicate Mentions(note: SavedNote, searchText: JsString) {
    Includes(ToLower(note.content), searchText)
  }

  /** `savedNotes.filter(note => note.content.toLowerCase().includes(searchText))`. */
  function Matching(notes: seq<SavedNote>, searchText: JsString): (r: seq<SavedNote>)
    ensures |r| <= |notes|
    ensures forall n :: n in r <==> n in notes && Mentions(n, searchText)
    decreases |notes|
  {
    if notes == [] then []
    else if Mentions(notes[0], searchText) then [notes[0]] + Matching(notes[1..], searchText)
    else Matching(notes[1..], searchText)
  }

  /** `findSuggestions(word)`: nothing for the empty word, otherwise the first
      three notes that mention the lower-cased word. */
  function Suggestions(savedNotes: seq<SavedNote>, word: JsString): (r: seq<SavedNote>)
    ensures word == [] ==> r == []
    ensures |r| <= MaxSuggestions
    ensures forall n :: n in r ==> n in savedNotes && Mentions(n, ToLower(word))
  {
    if word == [] then []
    else
      var matches := Matching(savedNotes, ToLower(word));
      var k := if |matches| < MaxSuggestions then |matches| else MaxSuggestions;
      assert forall n :: n in matches[..k] ==> n in matches;
      matches[..k]
  }

  lemma {:induction false} MatchingAppend(a: seq<SavedNote>, b: seq<SavedNote>, searchText: JsString)
    ensures Matching(a + b, searchText) == Matching(a, searchText) + Matching(b, searchText)
    decreases |a|
  {
    if a == [] {
      assert a + b == b;
    } else {
      assert (a + b)[0] == a[0] && (a + b)[1..] == a[1..] + b;
      MatchingAppend(a[1..], b, searchText);
      if Mentions(a[0], searchText) {
        var x, y := Matching(a[1..], searchText), Matching(b, searchText);
        assert Matching(a + b, searchText) == [a[0]] + (x + y);
        assert [a[0]] + (x + y) == ([a[0]] + x) + y;
      } else {
        assert Matching(a + b, searchText) == Matching(a[1..] + b, searchText);
      }
    }
  }

  /** A matching note at index `i` is the `k`-th match, where `k` is the
      number of matches before it. */
  lemma MatchAtIndex(notes: seq<SavedNote>, searchText: JsString, i: nat)
    requires i < |notes| && Mentions(notes[i], searchText)
    ensures var k := |Matching(notes[..i], searchText)|;
            k < |Matching(notes, searchText)| && Matching(notes, searchText)[k] == notes[i]
  {
    assert notes == notes[..i] + notes[i..];
    MatchingAppend(notes[..i], notes[i..], searchText);
    assert notes[i..][0] == notes[i];
  }

  lemma {:induction false} MatchingSubsequence(notes: seq<SavedNote>, searchText: JsString)
    ensures IsSubsequence(Matching(notes, searchText), notes)
    decreases |notes|
  {
    if notes != [] {
      MatchingSubsequence(notes[1..], searchText);
    }
  }

  /** The suggestions appear in the saved-notes list in the same order. */
  lemma SuggestionsSubsequence(savedNotes: seq<SavedNote>, word: JsString)
    ensures IsSubsequence(Suggestions(savedNotes, word), savedNotes)
  {
    if word != [] {
      var matches := Matching(savedNotes, ToLower(word));
      MatchingSubsequence(savedNotes, ToLower(word));
      SubsequencePrefix(matches, savedNotes, |Suggestions(savedNotes, word)|);
    }
  }

  /** The suggestions are the first matches in list order: a matching note
      preceded by fewer than three matches is suggested, at the position
      given by the number of matches before it; and fewer than three
      suggestions means every matching note is suggested. */
  lemma SuggestionsAreFirstMatches(savedNotes: seq<SavedNote>, word: JsString)
    requires word != []
    ensures forall i :: 0 <= i < |savedNotes| && Mentions(savedNotes[i], ToLower(word))
                        && |Matching(savedNotes[..i], ToLower(word))| < MaxSuggestions ==>
              var k := |Matching(savedNotes[..i], ToLower(word))|;
              k < |Suggestions(savedNotes, word)| && Suggestions(savedNotes, word)[k] == savedNotes[i]
    ensures |Suggestions(savedNotes, word)| < MaxSuggestions ==>
              forall n :: n in savedNotes && Mentions(n, ToLower(word)) ==> n in Suggestions(savedNotes, word)
  {
    var w := ToLower(word);
    forall i | 0 <= i < |savedNotes| && Mentions(savedNotes[i], w)
                 && |Matching(savedNotes[..i], w)| < MaxSuggestions
      ensures var k := |Matching(savedNotes[..i], w)|;
              k < |Suggestions(savedNotes, word)| && Suggestions(savedNotes, word)[k] == savedNotes[i]
    {
      MatchAtIndex(savedNotes, w, i);
    }
  }

  /** The lookup ignores the case of the word. */
  lemma SuggestionsIgnoreCase(savedNotes: seq<SavedNote>, word: JsString)
    ensures Suggestions(savedNotes, ToLower(word)) == Suggestions(savedNotes, word)
  {
    ToLowerIdempotent(word);
    ToLowerEmpty(word);
  }

  // ---------------------------------------------------------------------------
  // the component

  /** The `Editor` component's suggestion state. */
  class Editor {
    var suggestions: seq<SavedNote>

    /** The initial state (`useState([])`). */
    constructor ()
      ensures suggestions == []
    {
      suggestions := [];
    }

    /** `findSuggestions`: the suggestions become the lookup's result. */
    method FindSuggestions(savedNotes: seq<SavedNote>, word: JsString)
      modifies this
      ensures suggestions == Suggestions(savedNotes, word)
    {
      suggestions := Suggestions(savedNotes, word);
    }

    /** `checkSuggestionAtCursor`, run on the selection after an edit, key or
        click. Returns the word it looked up, if any. Without a lookup the
        suggestions are cleared. */
    method CheckSuggestionAtCursor(sel: Selection, savedNotes: seq<SavedNote>)
      returns (lookedUp: Option<JsString>)
      requires WellFormed(sel)
      modifies this
      ensures sel.NoSelection? || !sel.collapsed || !sel.inTextNode ==>
                lookedUp == None && suggestions == []
      ensures lookedUp == LookupWord(sel)
      ensures lookedUp.None? ==> suggestions == []
      ensures lookedUp.Some? ==> suggestions == Suggestions(savedNotes, lookedUp.value)
    {
      match sel {
        case NoSelection =>
          suggestions, lookedUp := [], None;
        case Selection(collapsed, inTextNode, text, offset) =>
          if !collapsed || !inTextNode {
            suggestions, lookedUp := [], None;
            return;
          }
          var start, end := WordSpan(text, offset);
          assert text[start..end] == CurrentWord(text, offset);
          var currentWord := Trim(text[start..end]);
          assert LookupWord(sel) == if |currentWord| > MaxIgnoredWordLength then Some(currentWord) else None;
          if |currentWord| > MaxIgnoredWordLength {
            FindSuggestions(savedNotes, currentWord);
            lookedUp := Some(currentWord);
          } else {
            suggestions, lookedUp := [], None;
          }
      }
    }
  }
}
