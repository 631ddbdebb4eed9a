/**
 * The earlier Express server over Prisma: the same `/api/notes` routes with
 * no users, no owners and no authentication. Prisma's `update` and
 * `delete` throw when no row has the id, so a missing note ends in the
 * `catch` with 500, where the authenticated server answers 200.
 */
module OpenServer {
  import opened Wrappers
  import opened Requests
  import opened Store
  import opened Http

  class Server {
    var notes: seq<Note>
    /** The next value of the autoincrement id. */
    var nextNoteId: int

    /** Ids are distinct and below the next one; no note has an owner. */
    ghost predicate Valid()
      reads this
    {
      && DistinctIds(notes)
      && 1 <= nextNoteId
      && (forall k :: 0 <= k < |notes| ==> 1 <= notes[k].id < nextNoteId)
      && (forall n :: n in notes ==> n.owner == None)
    }

    constructor ()
      ensures Valid() && notes == [] && nextNoteId == 1
    {
      notes, nextNoteId := [], 1;
    }

    /** GET /api/notes: every note in the table, unfiltered. */
    method ListNotes() returns (resp: Response)
      ensures resp.status == 200 && resp.body.NoteRows?
      ensures forall n :: n in resp.body.notes <==> n in notes
      ensures resp.body.notes == notes
    {
      resp := Response(200, NoteRows(notes));
    }

    /** POST /api/notes: a note with a title and content is appended with a
        fresh id, exactly that title and content, and no owner. */
    method CreateNote(title: Option<string>, content: Option<string>, storeFails: bool) returns (resp: Response)
      requires Valid()
      modifies this
      ensures Valid()
      ensures resp.status != 200 ==> notes == old(notes) && nextNoteId == old(nextNoteId)
      ensures TitleOrContentMissing(title, content) ==> resp == Response(400, Text("we need a title and content"))
      ensures !TitleOrContentMissing(title, content) && storeFails ==>
        resp == Response(500, Text("An error occurred while creating the note"))
      ensures !TitleOrContentMissing(title, content) && !storeFails ==>
        var n := Note(old(nextNoteId), title.value, content.value, None);
        && notes == old(notes) + [n]
        && nextNoteId == old(nextNoteId) + 1
        && resp == Response(200, NoteRow(Some(n)))
    {
      if TitleOrContentMissing(title, content) {
        return Response(400, Text("we need a title and content"));
      }
      if storeFails {
        return Response(500, Text("An error occurred while creating the note"));
      }
      var n := Note(nextNoteId, title.value, content.value, None);
      notes := notes + [n];
      nextNoteId := nextNoteId + 1;
      resp := Response(200, NoteRow(Some(n)));
    }

    /** PUT /api/notes/:id: title and content are checked before the id; the
        note with that id gets the new text and no other note changes; an id
        with no note is a failed update (500). */
    method UpdateNote(idParam: string, title: Option<string>, content: Option<string>, storeFails: bool)
      returns (resp: Response)
      requires Valid()
      modifies this`notes
      ensures Valid()
      ensures resp.status != 200 ==> notes == old(notes)
      ensures TitleOrContentMissing(title, content) ==> resp == Response(400, Text("we need a title and content"))
      ensures !TitleOrContentMissing(title, content) && NoteId(idParam).None? ==>
        resp == Response(400, Text("we need a note id"))
      ensures !TitleOrContentMissing(title, content) && NoteId(idParam).Some? ==>
        var id := NoteId(idParam).value;
        if storeFails || FindNote(old(notes), id).None? then
          resp == Response(500, Text("An error occurred while updating the note"))
        else
          && notes == SetText(old(notes), id, title.value, content.value)
          && resp == Response(200, NoteRow(FindNote(notes, id)))
    {
      if TitleOrContentMissing(title, content) {
        return Response(400, Text("we need a title and content"));
      }
      var id := NoteId(idParam);
      if id.None? {
        return Response(400, Text("we need a note id"));
      }
      if storeFails || FindNote(notes, id.value).None? {
        return Response(500, Text("An error occurred while updating the note"));
      }
      resp := StoreText(id.value, title.value, content.value);
    }

    /** The successful `prisma.note.update`. */
    method StoreText(id: int, title: string, content: string) returns (resp: Response)
      requires Valid()
      modifies this`notes
      ensures Valid()
      ensures notes == SetText(old(notes), id, title, content)
      ensures resp == Response(200, NoteRow(FindNote(notes, id)))
    {
      SetTextKeeps(notes, id, title, content, nextNoteId);
      notes := SetText(notes, id, title, content);
      resp := Response(200, NoteRow(FindNote(notes, id)));
    }

    /** DELETE /api/notes/:id: the note with that id is removed and returned,
        and every other note stays; an id with no note is a failed delete (500). */
    method DeleteNote(idParam: string, storeFails: bool) returns (resp: Response)
      requires Valid()
      modifies this`notes
      ensures Valid()
      ensures resp.status != 200 ==> notes == old(notes)
      ensures NoteId(idParam).None? ==> resp == Response(400, Text("we need a note id"))
      ensures NoteId(idParam).Some? ==>
        var id := NoteId(idParam).value;
        if storeFails || FindNote(old(notes), id).None? then
          resp == Response(500, Text("An error occurred while deleting the note"))
        else
          && notes == Remove(old(notes), id)
          && resp == Response(200, NoteRow(FindNote(old(notes), id)))
    {
      var id := NoteId(idParam);
      if id.None? {
        return Response(400, Text("we need a note id"));
      }
      if storeFails || FindNote(notes, id.value).None? {
        return Response(500, Text("An error occurred while deleting the note"));
      }
      resp := DropRow(id.value);
    }

    /** The successful `prisma.note.delete`. */
    method DropRow(id: int) returns (resp: Response)
      requires Valid()
      modifies this`notes
      ensures Valid()
      ensures notes == Remove(old(notes), id)
      ensures resp == Response(200, NoteRow(FindNote(old(notes), id)))
    {
      resp := Response(200, NoteRow(FindNote(notes, id)));
      RemoveKeepsDistinct(notes, id);
      notes := Remove(notes, id);
    }
  }
}
