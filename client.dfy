/**
 * The notes page of the React client: its list of notes, the form's title
 * and content, and the selected note, and how each handler changes them
 * once its request has settled.
 *
 * A handler's reply is the value `await response.json()` produced, or
 * `None` when the request or the JSON parse threw. Where the list is
 * `undefined` (a GET reply without a `notes` property), spreading,
 * mapping or filtering it throws, and the handler's `catch` leaves the
 * state as it was.
 */
module Client {
  import opened Wrappers
  import opened Store
  import opened Http
  import opened Requests

  /** An element of the page's `notes` array, read through the properties
      `id`, `title` and `content`, each of which may be undefined. */
  datatype Entry = Entry(id: Option<int>, title: Option<string>, content: Option<string>)

  /** A row of a GET reply's `notes` array. */
  function RowEntry(n: Note): (e: Entry)
    ensures e.id == Some(n.id) && e.title == Some(n.title) && e.content == Some(n.content)
  {
    Entry(Some(n.id), Some(n.title), Some(n.content))
  }

  /** The page keeps a row's id, title and content and nothing else: two
      rows look the same to it exactly when they differ at most in `owner`. */
  lemma RowEntryDropsOwner(a: Note, b: Note)
    ensures RowEntry(a) == RowEntry(b) <==> a.(owner := b.owner) == b
  {
  }

  /** The rows of a GET reply, in the order the server sent them. */
  function Rows(ns: seq<Note>): (es: seq<Entry>)
    ensures |es| == |ns|
    ensures forall k :: 0 <= k < |ns| ==> es[k] == RowEntry(ns[k])
  {
    if ns == [] then [] else [RowEntry(ns[0])] + Rows(ns[1..])
  }

  /** The object `response.json()` yields for a reply body, as the page reads
      it: `None` for a plain-text body, on which the parse throws. Every JSON
      reply of the notes routes wraps its payload (`{ note }`, `{ notes }`,
      `{ message }`), so none of them has an `id`, `title` or `content`.
      The signup reply is the bare user row: it has an `id` but no `token`,
      although the sign-up form stores `data.token` (the sign-up form is not
      part of this model). */
  function ReplyEntry(body: Body): (e: Option<Entry>)
    ensures e.None? <==> body.Text?
    ensures body.NoteRow? || body.NoteRows? || body.Message? ==> e == Some(Entry(None, None, None))
  {
    match body
    case Text(_) => None
    case UserRow(u) => Some(Entry(Some(u.id), None, None))
    case _ => Some(Entry(None, None, None))
  }

  /** The note a `{ note }` reply carries: what the page evidently meant to
      put in its list when it adds or updates a note. */
  function NoteReply(body: Body): (e: Option<Entry>)
    ensures e.Some? <==> body.NoteRow? && body.note.Some?
    ensures e.Some? ==> e.value == RowEntry(body.note.value)
  {
    match body
    case NoteRow(Some(n)) => Some(RowEntry(n))
    case _ => None
  }

  /** `data.notes` of a GET reply: `None` where the property is undefined. */
  function NotesField(body: Body): (notes: Option<seq<Entry>>)
    ensures notes.Some? <==> body.NoteRows?
    ensures notes.Some? ==> notes.value == Rows(body.notes)
  {
    match body
    case NoteRows(ns) => Some(Rows(ns))
    case _ => None
  }

  /** After fetching the listing the server gives user `owner`, the page's
      list holds a row for every note of that user and nothing else. */
  lemma {:induction false} FetchShowsOwnNotes(ns: seq<Note>, owner: int)
    ensures NotesField(NoteRows(NotesOf(ns, owner))).Some?
    ensures forall e :: e in NotesField(NoteRows(NotesOf(ns, owner))).value <==>
      exists n :: n in ns && n.owner == Some(owner) && e == RowEntry(n)
  {
    var owned := NotesOf(ns, owner);
    var es := Rows(owned);
    forall e | e in es ensures exists n :: n in ns && n.owner == Some(owner) && e == RowEntry(n) {
      var k :| 0 <= k < |es| && es[k] == e;
      assert owned[k] in owned;
    }
    forall n | n in ns && n.owner == Some(owner) ensures RowEntry(n) in es {
      var k :| 0 <= k < |owned| && owned[k] == n;
      assert es[k] == RowEntry(n);
    }
  }

  /** `notes.map(note => note.id === id ? reply : note)`: every entry whose id
      equals `id` (undefined equals undefined) becomes `reply`, in place. */
  function ReplaceById(xs: seq<Entry>, id: Option<int>, reply: Entry): (ys: seq<Entry>)
    ensures |ys| == |xs|
    ensures forall k :: 0 <= k < |xs| && xs[k].id == id ==> ys[k] == reply
    ensures forall k :: 0 <= k < |xs| && xs[k].id != id ==> ys[k] == xs[k]
  {
    if xs == [] then []
    else [if xs[0].id == id then reply else xs[0]] + ReplaceById(xs[1..], id, reply)
  }

  /** `notes.filter(note => note.id !== id)`: exactly the entries with another
      id remain, in their order. */
  function RemoveById(xs: seq<Entry>, id: Option<int>): (ys: seq<Entry>)
    ensures forall e :: e in ys <==> e in xs && e.id != id
    ensures |ys| <= |xs|
  {
    if xs == [] then []
    else if xs[0].id == id then RemoveById(xs[1..], id)
    else [xs[0]] + RemoveById(xs[1..], id)
  }

  /** Filtering a concatenation filters each part. */
  lemma {:induction false} RemoveByIdConcat(xs: seq<Entry>, more: seq<Entry>, id: Option<int>)
    ensures RemoveById(xs + more, id) == RemoveById(xs, id) + RemoveById(more, id)
  {
    if xs == [] {
      assert xs + more == more;
    } else {
      assert (xs + more)[1..] == xs[1..] + more;
      RemoveByIdConcat(xs[1..], more, id);
    }
  }

  /** Deleting the same id twice deletes nothing more. */
  lemma {:induction false} RemoveByIdIdempotent(xs: seq<Entry>, id: Option<int>)
    ensures RemoveById(RemoveById(xs, id), id) == RemoveById(xs, id)
  {
    if xs != [] {
      RemoveByIdIdempotent(xs[1..], id);
    }
  }

  /** Replacing the same id twice with the same reply changes nothing more,
      whether or not the reply carries that id. */
  lemma {:induction false} ReplaceByIdIdempotent(xs: seq<Entry>, id: Option<int>, reply: Entry)
    ensures ReplaceById(ReplaceById(xs, id, reply), id, reply) == ReplaceById(xs, id, reply)
  {
    if xs != [] {
      ReplaceByIdIdempotent(xs[1..], id, reply);
      var ys := ReplaceById(xs, id, reply);
      assert ys[1..] == ReplaceById(xs[1..], id, reply);
    }
  }

  /** Deleting a note in the page removes from the listing exactly what
      deleting it on the server removes from the table. */
  lemma {:induction false} DeleteMatchesServer(ns: seq<Note>, id: int)
    ensures RemoveById(Rows(ns), Some(id)) == Rows(Remove(ns, id))
  {
    if ns != [] {
      assert Rows(ns)[1..] == Rows(ns[1..]);
      DeleteMatchesServer(ns[1..], id);
    }
  }

  /** As written, the page puts the whole `{ note }` reply of a successful
      update in place of the note, so the entry loses its id, title and
      content and the list no longer matches the server's table. */
  lemma {:induction false} UpdatedListDiverges(ns: seq<Note>, id: int, title: string, content: string, note: Option<Note>)
    requires FindNote(ns, id).Some?
    ensures ReplaceById(Rows(ns), Some(id), ReplyEntry(NoteRow(note)).value) != Rows(SetText(ns, id, title, content))
  {
    var k := IndexOfId(ns, id);
    var lhs := ReplaceById(Rows(ns), Some(id), ReplyEntry(NoteRow(note)).value);
    assert Rows(ns)[k].id == Some(id);
    assert lhs[k].id == None;
    assert Rows(SetText(ns, id, title, content))[k].id == Some(id);
  }

  /** A position of a row with that id. */
  lemma IndexOfId(ns: seq<Note>, id: int) returns (k: nat)
    requires FindNote(ns, id).Some?
    ensures k < |ns| && ns[k].id == id
  {
    var n := FindNote(ns, id).value;
    k :| 0 <= k < |ns| && ns[k] == n;
  }

  /** With the note taken out of the `{ note }` reply, the updated list is
      the server's updated table. */
  lemma {:induction false} UpdatedListAgrees(ns: seq<Note>, id: int, title: string, content: string)
    requires DistinctIds(ns)
    requires FindNote(ns, id).Some?
    ensures var reply := NoteRow(FindNote(SetText(ns, id, title, content), id));
      && NoteReply(reply).Some?
      && ReplaceById(Rows(ns), Some(id), NoteReply(reply).value) == Rows(SetText(ns, id, title, content))
  {
    var updated := SetText(ns, id, title, content);
    FindAfterSetText(ns, id, title, content);
    var e := NoteReply(NoteRow(FindNote(updated, id))).value;
    assert e == Entry(Some(id), Some(title), Some(content));
    ReplaceRowsBySetText(ns, id, title, content);
  }

  /** Replacing the rows with an id by that id's entry with the new text is
      the listing of the updated table. */
  lemma ReplaceRowsBySetText(ns: seq<Note>, id: int, title: string, content: string)
    ensures ReplaceById(Rows(ns), Some(id), Entry(Some(id), Some(title), Some(content)))
            == Rows(SetText(ns, id, title, content))
  {
    var lhs := ReplaceById(Rows(ns), Some(id), Entry(Some(id), Some(title), Some(content)));
    var rhs := Rows(SetText(ns, id, title, content));
    forall k | 0 <= k < |ns| ensures lhs[k] == rhs[k] {
      assert Rows(ns)[k] == RowEntry(ns[k]);
    }
  }

  /** The page's state. `notes == None` is an undefined list. */
  class NotesPage {
    var notes: Option<seq<Entry>>
    var title: Option<string>
    var content: Option<string>
    var selectedNote: Option<Entry>

    constructor ()
      ensures notes == Some([]) && title == Some("") && content == Some("") && selectedNote == None
    {
      notes, title, content, selectedNote := Some([]), Some(""), Some(""), None;
    }

    /** The reply to the add form's POST goes at the head of the list and the
        form is cleared; a failed request or parse, or an undefined list,
        changes nothing. */
    method HandleAddNote(newNote: Option<Entry>)
      modifies this
      ensures selectedNote == old(selectedNote)
      ensures if newNote.None? || old(notes).None? then
          notes == old(notes) && title == old(title) && content == old(content)
        else
          notes == Some([newNote.value] + old(notes).value) && title == Some("") && content == Some("")
    {
      if newNote.None? || notes.None? {
        return;
      }
      notes := Some([newNote.value] + notes.value);
      title, content := Some(""), Some("");
    }

    /** Clicking a note selects it and copies its text into the form. */
    method HandleNoteClick(note: Entry)
      modifies this
      ensures notes == old(notes)
      ensures selectedNote == Some(note) && title == note.title && content == note.content
    {
      selectedNote := Some(note);
      title, content := note.title, note.content;
    }

    /** The reply to the PUT for the selected note replaces every entry with
        the selected note's id, and the form and selection are cleared;
        without a selection, or when the request, the parse or the list
        fails, nothing changes. */
    method HandleUpdateNote(updateNote: Option<Entry>)
      modifies this
      ensures if old(selectedNote).None? || updateNote.None? || old(notes).None? then
          notes == old(notes) && title == old(title) && content == old(content)
          && selectedNote == old(selectedNote)
        else
          && notes == Some(ReplaceById(old(notes).value, old(selectedNote).value.id, updateNote.value))
          && title == Some("") && content == Some("") && selectedNote == None
    {
      if selectedNote.None? || updateNote.None? || notes.None? {
        return;
      }
      notes := Some(ReplaceById(notes.value, selectedNote.value.id, updateNote.value));
      title, content, selectedNote := Some(""), Some(""), None;
    }

    /** Cancelling clears the form and the selection and keeps the list. */
    method HandleCancel()
      modifies this
      ensures notes == old(notes)
      ensures title == Some("") && content == Some("") && selectedNote == None
    {
      title, content, selectedNote := Some(""), Some(""), None;
    }

    /** After the DELETE request settles, the entries with that id leave the
        list, whatever the server answered; a rejected request or an
        undefined list changes nothing. Only the list changes. */
    method DeleteNote(noteId: Option<int>, requestRejected: bool)
      modifies this`notes
      ensures if requestRejected || old(notes).None? then notes == old(notes)
        else notes == Some(RemoveById(old(notes).value, noteId))
    {
      if requestRejected || notes.None? {
        return;
      }
      notes := Some(RemoveById(notes.value, noteId));
    }

    /** The list becomes the `notes` property of the GET reply, undefined
        when the reply has none; a failed request or parse changes nothing. */
    method FetchNotes(reply: Option<Body>)
      modifies this`notes
      ensures if reply.None? || reply.value.Text? then notes == old(notes)
        else notes == NotesField(reply.value)
    {
      if reply.None? || reply.value.Text? {
        return;
      }
      notes := NotesField(reply.value);
    }

    /** Submitting the form updates the selected note, or adds one when none
        is selected; the same reply is what the handler receives. */
    method Submit(reply: Option<Entry>)
      modifies this
      ensures old(selectedNote).Some? && reply.Some? && old(notes).Some? ==>
        notes == Some(ReplaceById(old(notes).value, old(selectedNote).value.id, reply.value))
        && selectedNote == None && title == Some("") && content == Some("")
      ensures old(selectedNote).None? && reply.Some? && old(notes).Some? ==>
        notes == Some([reply.value] + old(notes).value) && selectedNote == None
        && title == Some("") && content == Some("")
      ensures reply.None? || old(notes).None? ==>
        notes == old(notes) && selectedNote == old(selectedNote)
        && title == old(title) && content == old(content)
    {
      if selectedNote.Some? {
        HandleUpdateNote(reply);
      } else {
        HandleAddNote(reply);
      }
    }
  }

  /** A note added as written leaves the page's list but not the server.
      Its entry has an undefined id, so its delete button requests
      `/api/notes/undefined`, whose id the server rejects (400, nothing
      deleted); the page filters by the undefined id anyway, which drops
      the added entry together with every other entry that has no id. */
  lemma {:induction false} AddedNoteDeletedOnlyLocally(xs: seq<Entry>, n: Note)
    ensures var added := ReplyEntry(NoteRow(Some(n))).value;
      && added.id == None
      && NoteId("undefined") == None
      && RemoveById([added] + xs, added.id) == RemoveById(xs, None)
  {
    var added := ReplyEntry(NoteRow(Some(n))).value;
    RemoveByIdConcat([added], xs, None);
    assert RemoveById([added], None) == [] by {
      assert [added][1..] == [];
    }
    UndefinedIdRejected();
  }
}
