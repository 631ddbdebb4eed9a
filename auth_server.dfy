/**
 * The authenticated Express server over Postgres: signup and login, the
 * `authenticateToken` middleware, and the four `/api/notes` routes. Each
 * route is a method on a `Server` object that holds the two tables; a
 * request that fails inside the handler's `try` (a rejected query or a
 * bcrypt failure there) is the `storeFails` argument.
 */
module AuthServer {
  import opened Wrappers
  import opened JsParse
  import opened Requests
  import opened Bearer
  import opened Crypto
  import opened Store
  import opened Http

  /** The outcome of `authenticateToken`: the reply it sends, or the user id
      it writes into `req.userId` before calling `next()`. */
  datatype Auth = Denied(response: Response) | Granted(userId: int)

  /** The middleware: 401 when the second field of the Authorization header
      is undefined or empty, 403 when the token does not verify, and
      otherwise the verified `userId` claim. */
  function Authenticate(crypto: Oracles, authorization: Option<string>, now: int): (auth: Auth)
    ensures TokenMissing(ExtractToken(authorization)) <==> auth == Denied(Response(401, Message("Token required")))
    ensures !TokenMissing(ExtractToken(authorization)) ==>
      match crypto.verify(ExtractToken(authorization).value, now)
      case None => auth == Denied(Response(403, Message("Invalid token")))
      case Some(id) => auth == Granted(id)
  {
    var token := ExtractToken(authorization);
    if TokenMissing(token) then Denied(Response(401, Message("Token required")))
    else match crypto.verify(token.value, now)
      case None => Denied(Response(403, Message("Invalid token")))
      case Some(id) => Granted(id)
  }

  /** A token issued by login, sent back as the client sends it, admits
      exactly the user it was issued for. */
  lemma {:induction false} IssuedTokenAuthenticates(crypto: Oracles, userId: int, now: int)
    requires Sound(crypto)
    ensures Authenticate(crypto, Some("Bearer " + crypto.sign(userId, now)), now) == Granted(userId)
  {
    var token := crypto.sign(userId, now);
    ClientHeaderYieldsToken(token);
  }

  class Server {
    const crypto: Oracles
    var users: seq<User>
    var notes: seq<Note>
    /** The next values of the two `SERIAL` id sequences. */
    var nextUserId: int
    var nextNoteId: int

    /** Usernames are unique, note ids are distinct, and every id handed out
        lies below its sequence's next value. */
    ghost predicate Valid()
      reads this
    {
      && UniqueUsernames(users)
      && DistinctIds(notes)
      && 1 <= nextUserId && 1 <= nextNoteId
      && (forall k :: 0 <= k < |users| ==> 1 <= users[k].id < nextUserId)
      && (forall k :: 0 <= k < |notes| ==> 1 <= notes[k].id < nextNoteId)
    }

    constructor (crypto: Oracles)
      ensures Valid() && this.crypto == crypto
      ensures users == [] && notes == [] && nextUserId == 1 && nextNoteId == 1
    {
      this.crypto := crypto;
      users, notes := [], [];
      nextUserId, nextNoteId := 1, 1;
    }

    /** POST /api/auth/signup. A taken username gets 400 and changes nothing;
        otherwise one user with the hashed password is appended and returned
        with 201, hash included. */
    method Signup(username: string, password: string, salt: nat, storeFails: bool) returns (resp: Response)
      requires Valid()
      modifies this
      ensures Valid()
      ensures notes == old(notes) && nextNoteId == old(nextNoteId)
      ensures storeFails ==>
        resp == Response(500, Message("Error creating user")) && users == old(users) && nextUserId == old(nextUserId)
      ensures !storeFails && FindUser(old(users), username).Some? ==>
        resp == Response(400, Message("Username already taken")) && users == old(users) && nextUserId == old(nextUserId)
      ensures !storeFails && FindUser(old(users), username).None? ==>
        var u := User(old(nextUserId), username, crypto.hash(password, salt));
        && users == old(users) + [u]
        && nextUserId == old(nextUserId) + 1
        && resp == Response(201, UserRow(u))
    {
      var hashed := crypto.hash(password, salt);
      if storeFails {
        return Response(500, Message("Error creating user"));
      }
      if FindUser(users, username).Some? {
        return Response(400, Message("Username already taken"));
      }
      var u := User(nextUserId, username, hashed);
      users := users + [u];
      nextUserId := nextUserId + 1;
      resp := Response(201, UserRow(u));
    }

    /** POST /api/auth/login. Succeeds exactly when a user of that name
        exists and the password matches its hash; the token is signed for that
        user's id. Nothing changes. */
    method Login(username: string, password: string, now: int, storeFails: bool) returns (resp: Response)
      requires Valid()
      ensures storeFails ==> resp == Response(500, Message("Error logging in"))
      ensures !storeFails ==>
        (resp.status == 200 <==> exists u :: u in users && u.username == username && crypto.matches(password, u.password))
      ensures !storeFails && resp.status != 200 ==> resp == Response(400, Message("Invalid credentials"))
      ensures resp.status == 200 ==>
        exists u :: u in users && u.username == username && resp.body == Session(crypto.sign(u.id, now), username)
    {
      if storeFails {
        return Response(500, Message("Error logging in"));
      }
      var found := FindUser(users, username);
      if found.None? || !crypto.matches(password, found.value.password) {
        if found.Some? {
          forall u | u in users && u.username == username ensures !crypto.matches(password, u.password) {
            FindUniqueUser(users, u);
          }
        }
        return Response(400, Message("Invalid credentials"));
      }
      var user := found.value;
      resp := Response(200, Session(crypto.sign(user.id, now), user.username));
    }

    /** GET /api/notes: after authentication, exactly the caller's notes. */
    method ListNotes(authorization: Option<string>, now: int, storeFails: bool) returns (resp: Response)
      ensures Authenticate(crypto, authorization, now).Denied? ==> resp == Authenticate(crypto, authorization, now).response
      ensures Authenticate(crypto, authorization, now).Granted? ==>
        var userId := Authenticate(crypto, authorization, now).userId;
        resp == if storeFails then Response(500, Message("Error retrieving notes"))
                else Response(200, NoteRows(NotesOf(notes, userId)))
    {
      var auth := Authenticate(crypto, authorization, now);
      if auth.Denied? {
        return auth.response;
      }
      if storeFails {
        return Response(500, Message("Error retrieving notes"));
      }
      resp := Response(200, NoteRows(NotesOf(notes, auth.userId)));
    }

    /** POST /api/notes: after authentication, a note with a title and
        content is appended, owned by the authenticated user, with a fresh id. */
    method CreateNote(authorization: Option<string>, now: int, title: Option<string>, content: Option<string>,
                      storeFails: bool) returns (resp: Response)
      requires Valid()
      modifies this
      ensures Valid()
      ensures users == old(users) && nextUserId == old(nextUserId)
      ensures resp.status != 200 ==> notes == old(notes) && nextNoteId == old(nextNoteId)
      ensures Authenticate(crypto, authorization, now).Denied? ==> resp == Authenticate(crypto, authorization, now).response
      ensures Authenticate(crypto, authorization, now).Granted? && TitleOrContentMissing(title, content) ==>
        resp == Response(400, Message("Title and content are required"))
      ensures Authenticate(crypto, authorization, now).Granted? && !TitleOrContentMissing(title, content) && storeFails ==>
        resp == Response(500, Message("Error creating note"))
      ensures Authenticate(crypto, authorization, now).Granted? && !TitleOrContentMissing(title, content) && !storeFails ==>
        var n := Note(old(nextNoteId), title.value, content.value, Some(Authenticate(crypto, authorization, now).userId));
        && notes == old(notes) + [n]
        && nextNoteId == old(nextNoteId) + 1
        && resp == Response(200, NoteRow(Some(n)))
    {
      var auth := Authenticate(crypto, authorization, now);
      if auth.Denied? {
        return auth.response;
      }
      if TitleOrContentMissing(title, content) {
        return Response(400, Message("Title and content are required"));
      }
      if storeFails {
        return Response(500, Message("Error creating note"));
      }
      var n := Note(nextNoteId, title.value, content.value, Some(auth.userId));
      notes := notes + [n];
      nextNoteId := nextNoteId + 1;
      resp := Response(200, NoteRow(Some(n)));
    }

    /** PUT /api/notes/:id, with no authentication: title and content are
        checked before the id; the row with that id gets the new text whoever
        owns it; an id that matches no row still gets 200 with an undefined note. */
    method UpdateNote(idParam: string, title: Option<string>, content: Option<string>, storeFails: bool)
      returns (resp: Response)
      requires Valid()
      modifies this`notes
      ensures Valid()
      ensures resp.status != 200 ==> notes == old(notes)
      ensures TitleOrContentMissing(title, content) ==> resp == Response(400, Text("Title and content are required"))
      ensures !TitleOrContentMissing(title, content) && NoteId(idParam).None? ==>
        resp == Response(400, Text("Invalid note id"))
      ensures !TitleOrContentMissing(title, content) && NoteId(idParam).Some? && storeFails ==>
        resp == Response(500, Text("An error occurred while updating the note"))
      ensures !TitleOrContentMissing(title, content) && NoteId(idParam).Some? && !storeFails ==>
        var id := NoteId(idParam).value;
        && notes == SetText(old(notes), id, title.value, content.value)
        && resp == Response(200, NoteRow(FindNote(notes, id)))
    {
      if TitleOrContentMissing(title, content) {
        return Response(400, Text("Title and content are required"));
      }
      var id := NoteId(idParam);
      if id.None? {
        return Response(400, Text("Invalid note id"));
      }
      if storeFails {
        return Response(500, Text("An error occurred while updating the note"));
      }
      resp := StoreText(id.value, title.value, content.value);
    }

    /** The successful `UPDATE ... RETURNING *`. */
    method StoreText(id: int, title: string, content: string) returns (resp: Response)
      requires Valid()
      modifies this`notes
      ensures Valid()
      ensures notes == SetText(old(notes), id, title, content)
      ensures resp == Response(200, NoteRow(FindNote(notes, id)))
    {
      SetTextKeeps(notes, id, title, content, nextNoteId);
      notes := SetText(notes, id, title, content);
      resp := Response(200, NoteRow(FindNote(notes, id)));
    }

    /** DELETE /api/notes/:id, with no authentication: the row with that id
        is removed whoever owns it and returned; an id that matches no row
        still gets 200 with an undefined note and changes nothing. */
    method DeleteNote(idParam: string, storeFails: bool) returns (resp: Response)
      requires Valid()
      modifies this`notes
      ensures Valid()
      ensures resp.status != 200 ==> notes == old(notes)
      ensures NoteId(idParam).None? ==> resp == Response(400, Text("Invalid note id"))
      ensures NoteId(idParam).Some? && storeFails ==>
        resp == Response(500, Text("An error occurred while deleting the note"))
      ensures NoteId(idParam).Some? && !storeFails ==>
        var id := NoteId(idParam).value;
        && notes == Remove(old(notes), id)
        && resp == Response(200, NoteRow(FindNote(old(notes), id)))
      ensures resp.status == 200 && FindNote(old(notes), NoteId(idParam).value).None? ==> notes == old(notes)
    {
      var id := NoteId(idParam);
      if id.None? {
        return Response(400, Text("Invalid note id"));
      }
      if storeFails {
        return Response(500, Text("An error occurred while deleting the note"));
      }
      resp := DropRow(id.value);
    }

    /** The successful `DELETE ... RETURNING *`. */
    method DropRow(id: int) returns (resp: Response)
      requires Valid()
      modifies this`notes
      ensures Valid()
      ensures notes == Remove(old(notes), id)
      ensures FindNote(old(notes), id).None? ==> notes == old(notes)
      ensures resp == Response(200, NoteRow(FindNote(old(notes), id)))
    {
      resp := Response(200, NoteRow(FindNote(notes, id)));
      RemoveKeepsDistinct(notes, id);
      if FindNote(notes, id).None? {
        NoMatchNoChange(notes, id, "", "");
      }
      notes := Remove(notes, id);
    }
  }

  /** The account part of the walkthrough on a fresh server: "alice" signs
      up (201), cannot sign up again (400), and logs in (200), receiving a
      token for her id 1. */
  method AccountSteps(server: Server, salt: nat, now: int) returns (statuses: seq<int>, session: Body)
    requires server.Valid() && Sound(server.crypto)
    requires server.users == [] && server.notes == [] && server.nextUserId == 1 && server.nextNoteId == 1
    modifies server
    ensures server.Valid()
    ensures server.users == [User(1, "alice", server.crypto.hash("pw1", salt))]
    ensures server.notes == [] && server.nextNoteId == 1
    ensures statuses == [201, 400, 200]
    ensures session == Session(server.crypto.sign(1, now), "alice")
  {
    var alice := User(1, "alice", server.crypto.hash("pw1", salt));
    var signedUp := server.Signup("alice", "pw1", salt, false);
    assert server.users == [alice];
    var again := server.Signup("alice", "pw1", salt, false);
    var login := server.Login("alice", "pw1", now, false);
    assert login.status == 200 by {
      assert alice in server.users && server.crypto.matches("pw1", alice.password);
    }
    statuses, session := [signedUp.status, again.status, login.status], login.body;
  }

  /** User 1, holding the token login issued at `now`, creates note 1 (200)
      and then lists exactly it (200). */
  method CreateSteps(server: Server, token: string, now: int) returns (statuses: seq<int>, listing: Body)
    requires server.Valid() && Sound(server.crypto)
    requires token == server.crypto.sign(1, now)
    requires server.notes == [] && server.nextNoteId == 1
    modifies server
    ensures server.Valid() && server.notes == [Note(1, "A", "B", Some(1))]
    ensures statuses == [200, 200]
    ensures listing == NoteRows([Note(1, "A", "B", Some(1))])
  {
    var header := Some("Bearer " + token);
    IssuedTokenAuthenticates(server.crypto, 1, now);
    var created := server.CreateNote(header, now, Some("A"), Some("B"), false);
    var listed := server.ListNotes(header, now, false);
    statuses, listing := [created.status, listed.status], listed.body;
  }

  /** Without any token, the only note, owned by user 1, is renamed and then
      deleted through the URL the client builds from its id (200 each); user 1
      then lists nothing. */
  method EditSteps(server: Server, note: Note, now: int) returns (statuses: seq<int>, listing: Body)
    requires server.Valid() && Sound(server.crypto)
    requires server.notes == [note] && note.owner == Some(1)
    modifies server
    ensures statuses == [200, 200, 200]
    ensures listing == NoteRows([])
  {
    var renamed := note.(title := "A2", content := "B2");
    var updated := RenameStep(server, note);
    var deleted := DeleteStep(server, renamed);
    var header := Some("Bearer " + server.crypto.sign(1, now));
    IssuedTokenAuthenticates(server.crypto, 1, now);
    var relisted := server.ListNotes(header, now, false);
    statuses, listing := [updated, deleted, relisted.status], relisted.body;
  }

  /** Renaming the only note through the URL built from its id succeeds. */
  method RenameStep(server: Server, note: Note) returns (status: int)
    requires server.Valid() && server.notes == [note]
    modifies server`notes
    ensures server.Valid() && server.notes == [note.(title := "A2", content := "B2")]
    ensures status == 200
  {
    assert server.notes[0] == note;
    NoteIdOfNumber(note.id);
    assert !TitleOrContentMissing(Some("A2"), Some("B2"));
    var renamed := note.(title := "A2", content := "B2");
    assert SetText([note], note.id, "A2", "B2") == [renamed] by {
      var r := SetText([note], note.id, "A2", "B2");
      assert |r| == 1 && r[0] == renamed;
    }
    var resp := server.UpdateNote(NumberToString(note.id), Some("A2"), Some("B2"), false);
    status := resp.status;
  }

  /** Deleting the only note through the URL built from its id succeeds and
      empties the table. */
  method DeleteStep(server: Server, note: Note) returns (status: int)
    requires server.Valid() && server.notes == [note]
    modifies server`notes
    ensures server.Valid() && server.notes == []
    ensures status == 200
  {
    assert server.notes[0] == note;
    NoteIdOfNumber(note.id);
    var resp := server.DeleteNote(NumberToString(note.id), false);
    status := resp.status;
  }

  /** The delete button of an entry the page added without an id requests
      `/api/notes/undefined`: the server answers 400 and keeps every note. */
  method DeleteUnsetIdStep(server: Server) returns (resp: Response)
    requires server.Valid()
    modifies server
    ensures resp == Response(400, Text("Invalid note id"))
    ensures server.notes == old(server.notes) && server.Valid()
  {
    UndefinedIdRejected();
    resp := server.DeleteNote("undefined", false);
  }

  /** The session the system is built for, from a fresh database: sign up
      "alice", fail to sign her up again, log in, create note 1 with the
      issued token, list it, update and delete it through the URL the client
      builds from its id, and list nothing. */
  method Walkthrough(crypto: Oracles, salt: nat, now: int)
    returns (statuses: seq<int>, firstListing: Body, lastListing: Body)
    requires Sound(crypto)
    ensures statuses == [201, 400, 200, 200, 200, 200, 200, 200]
    ensures firstListing == NoteRows([Note(1, "A", "B", Some(1))])
    ensures lastListing == NoteRows([])
  {
    var server := new Server(crypto);
    var accountStatuses, session := AccountSteps(server, salt, now);
    var createStatuses, editStatuses;
    createStatuses, firstListing := CreateSteps(server, session.token, now);
    editStatuses, lastListing := EditSteps(server, Note(1, "A", "B", Some(1)), now);
    statuses := accountStatuses + createStatuses + editStatuses;
  }
}
