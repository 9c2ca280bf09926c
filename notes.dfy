/** The notes panel: the list of saved notes and the note being written. */
module Notes {
  import opened JsText
  import opened Seqs

  /** A saved note: its id, its text and the clock reading (milliseconds since
      the epoch) at which it was saved. */
  datatype SavedNote = SavedNote(id: JsString, content: JsString, timestamp: int)

  /** The note `saveNote` builds from the text being written and the clock
      reading `now`: the id is the decimal numeral of `now`, the content is the
      text as it stands (not trimmed). */
  function NewNote(content: JsString, now: nat): (n: SavedNote)
    ensures n.id == NatToString(now)
    ensures AllDigits(n.id) && ParseDecimal(n.id) == now
    ensures n.timestamp == now
    ensures n.content == content
  {
    ParseNatToString(now);
    SavedNote(NatToString(now), content, now)
  }

  /** `notes.filter(note => note.id !== noteId)`. */
  function WithoutId(notes: seq<SavedNote>, noteId: JsString): (r: seq<SavedNote>)
    ensures |r| <= |notes|
    ensures forall n :: n in r <==> n in notes && n.id != noteId
    decreases |notes|
  {
    if notes == [] then []
    else if notes[0].id != noteId then [notes[0]] + WithoutId(notes[1..], noteId)
    else WithoutId(notes[1..], noteId)
  }

  /** Filtering a concatenation filters each part. Together with the one-note
      cases of `WithoutId`, this pins the result down: every note whose id
      differs is kept, with its multiplicity, in the original order. */
  lemma {:induction false} WithoutIdAppend(a: seq<SavedNote>, b: seq<SavedNote>, noteId: JsString)
    ensures WithoutId(a + b, noteId) == WithoutId(a, noteId) + WithoutId(b, noteId)
    decreases |a|
  {
    if a == [] {
      assert a + b == b;
    } else {
      assert (a + b)[0] == a[0] && (a + b)[1..] == a[1..] + b;
      WithoutIdAppend(a[1..], b, noteId);
      if a[0].id != noteId {
        var x, y := WithoutId(a[1..], noteId), WithoutId(b, noteId);
        assert WithoutId(a + b, noteId) == [a[0]] + (x + y);
        assert [a[0]] + (x + y) == ([a[0]] + x) + y;
      } else {
        assert WithoutId(a + b, noteId) == WithoutId(a[1..] + b, noteId);
      }
    }
  }

  /** Deleting an id that no note carries leaves the list as it was. */
  lemma {:induction false} WithoutAbsentId(notes: seq<SavedNote>, noteId: JsString)
    requires forall n :: n in notes ==> n.id != noteId
    ensures WithoutId(notes, noteId) == notes
    decreases |notes|
  {
    if notes != [] {
      assert notes[0] in notes;
      assert forall n :: n in notes[1..] ==> n in notes;
      WithoutAbsentId(notes[1..], noteId);
    }
  }

  /** The notes left after a delete keep their relative order. */
  lemma {:induction false} WithoutIdSubsequence(notes: seq<SavedNote>, noteId: JsString)
    ensures IsSubsequence(WithoutId(notes, noteId), notes)
    decreases |notes|
  {
    if notes != [] {
      WithoutIdSubsequence(notes[1..], noteId);
    }
  }

  /** Deleting the same id twice is deleting it once. */
  lemma WithoutIdIdempotent(notes: seq<SavedNote>, noteId: JsString)
    ensures WithoutId(WithoutId(notes, noteId), noteId) == WithoutId(notes, noteId)
  {
    WithoutAbsentId(WithoutId(notes, noteId), noteId);
  }

  /** Notes whose ids are the numerals of their own timestamps, as `saveNote`
      makes them. */
  predicate Stamped(notes: seq<SavedNote>) {
    forall n :: n in notes ==> n.timestamp >= 0 && n.id == NatToString(n.timestamp)
  }

  /** A clock reading later than every saved timestamp gives an id no saved
      note carries. */
  lemma FreshClockFreshId(notes: seq<SavedNote>, now: nat)
    requires Stamped(notes)
    requires forall n :: n in notes ==> n.timestamp < now
    ensures forall n :: n in notes ==> n.id != NatToString(now)
  {
    forall n | n in notes ensures n.id != NatToString(now) {
      NatToStringInjective(n.timestamp, now);
    }
  }

  /** Deleting the note just saved restores the list, provided its id was new. */
  lemma DeleteUndoesSave(notes: seq<SavedNote>, content: JsString, now: nat)
    requires forall n :: n in notes ==> n.id != NatToString(now)
    ensures WithoutId([NewNote(content, now)] + notes, NewNote(content, now).id) == notes
  {
    var saved := NewNote(content, now);
    assert ([saved] + notes)[1..] == notes;
    WithoutAbsentId(notes, saved.id);
  }

  /** The `Notes` component's state: the text in the note editor and the
      saved notes, most recently saved first. */
  class Notes {
    var currentNote: JsString
    var savedNotes: seq<SavedNote>

    /** The initial state (`useState('')`, `useState([])`). */
    constructor ()
      ensures currentNote == [] && savedNotes == []
    {
      currentNote := [];
      savedNotes := [];
    }

    /** `handleNotesChange`: the note editor's text becomes the current note. */
    method HandleNotesChange(content: JsString)
      modifies this
      ensures currentNote == content
      ensures savedNotes == old(savedNotes)
    {
      currentNote := content;
    }

    /** `saveNote`, with `now` the reading of `Date.now()`. Whitespace-only
        text is ignored; otherwise the new note goes in front of the old
        ones and the editor is cleared. */
    method SaveNote(now: nat)
      modifies this
      ensures AllWhitespace(old(currentNote)) ==>
                currentNote == old(currentNote) && savedNotes == old(savedNotes)
      ensures !AllWhitespace(old(currentNote)) ==>
                && savedNotes == [NewNote(old(currentNote), now)] + old(savedNotes)
                && currentNote == []
      ensures Stamped(old(savedNotes)) ==> Stamped(savedNotes)
    {
      TrimEmptyIffAllWhitespace(currentNote);
      if Trim(currentNote) == [] {
        return;
      }
      var newNote := NewNote(currentNote, now);
      savedNotes := [newNote] + savedNotes;
      currentNote := [];
    }

    /** `deleteNote`, with `confirmed` the answer to the confirmation
        prompt. A declined prompt changes nothing; otherwise every note with
        id `noteId` is removed. */
    method DeleteNote(noteId: JsString, confirmed: bool)
      modifies this
      ensures currentNote == old(currentNote)
      ensures !confirmed ==> savedNotes == old(savedNotes)
      ensures confirmed ==> savedNotes == WithoutId(old(savedNotes), noteId)
      ensures Stamped(old(savedNotes)) ==> Stamped(savedNotes)
    {
      if !confirmed {
        return;
      }
      savedNotes := WithoutId(savedNotes, noteId);
    }
  }
}
