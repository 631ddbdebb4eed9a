/**
 * The two tables, "User" and "Note", as sequences of rows in storage order,
 * and the row-level effect of each query the handlers issue. A query without
 * ORDER BY may return rows in any order; the model returns storage order.
 */
module Store {
  import opened Wrappers

  /** A "User" row; `password` holds the bcrypt hash, never the password. */
  datatype User = User(id: int, username: string, password: string)

  /** A "Note" row; `owner` is the "userId" column, NULL (`None`) in the
      owner-less variant of the server. */
  datatype Note = Note(id: int, title: string, content: string, owner: Option<int>)

  ghost predicate UniqueUsernames(users: seq<User>) {
    forall i, j :: 0 <= i < j < |users| ==> users[i].username != users[j].username
  }

  ghost predicate DistinctIds(notes: seq<Note>) {
    forall i, j :: 0 <= i < j < |notes| ==> notes[i].id != notes[j].id
  }

  /** `rows[0]` of `SELECT * FROM "User" WHERE username = $1`. */
  function FindUser(users: seq<User>, username: string): (found: Option<User>)
    ensures found.Some? ==> found.value in users && found.value.username == username
    ensures found.None? <==> forall u :: u in users ==> u.username != username
  {
    if users == [] then None
    else if users[0].username == username then Some(users[0])
    else FindUser(users[1..], username)
  }

  /** With unique usernames the lookup finds the one user of that name. */
  lemma FindUniqueUser(users: seq<User>, u: User)
    requires UniqueUsernames(users) && u in users
    ensures FindUser(users, u.username) == Some(u)
  {
    var found := FindUser(users, u.username).value;
    var i :| 0 <= i < |users| && users[i] == u;
    var j :| 0 <= j < |users| && users[j] == found;
    assert i == j;
  }

  /** `SELECT * FROM "Note" WHERE "userId" = $1`. */
  function NotesOf(notes: seq<Note>, owner: int): (owned: seq<Note>)
    ensures forall n :: n in owned <==> n in notes && n.owner == Some(owner)
    ensures |owned| <= |notes|
  {
    if notes == [] then []
    else if notes[0].owner == Some(owner) then [notes[0]] + NotesOf(notes[1..], owner)
    else NotesOf(notes[1..], owner)
  }

  /** Listing distributes over the table, so an insert shows up at the end of
      its owner's list and in no one else's. */
  lemma {:induction false} NotesOfAppend(notes: seq<Note>, more: seq<Note>, owner: int)
    ensures NotesOf(notes + more, owner) == NotesOf(notes, owner) + NotesOf(more, owner)
  {
    if notes != [] {
      assert (notes + more)[1..] == notes[1..] + more;
      NotesOfAppend(notes[1..], more, owner);
    } else {
      assert notes + more == more;
    }
  }

  /** The row a `WHERE id = $1 RETURNING *` query returns first, if any. */
  function FindNote(notes: seq<Note>, id: int): (found: Option<Note>)
    ensures found.Some? ==> found.value in notes && found.value.id == id
    ensures found.None? <==> forall n :: n in notes ==> n.id != id
  {
    if notes == [] then None
    else if notes[0].id == id then Some(notes[0])
    else FindNote(notes[1..], id)
  }

  /** `UPDATE "Note" SET title = $1, content = $2 WHERE id = $3`: every row
      with that id gets the new text, whoever owns it; no other row changes. */
  function SetText(notes: seq<Note>, id: int, title: string, content: string): (updated: seq<Note>)
    ensures |updated| == |notes|
    ensures forall k :: 0 <= k < |notes| ==>
      updated[k] == if notes[k].id == id then notes[k].(title := title, content := content) else notes[k]
  {
    if notes == [] then []
    else [if notes[0].id == id then notes[0].(title := title, content := content) else notes[0]]
         + SetText(notes[1..], id, title, content)
  }

  /** `DELETE FROM "Note" WHERE id = $1`: exactly the rows with another id remain. */
  function Remove(notes: seq<Note>, id: int): (kept: seq<Note>)
    ensures forall n :: n in kept <==> n in notes && n.id != id
    ensures |kept| <= |notes|
  {
    if notes == [] then []
    else if notes[0].id == id then Remove(notes[1..], id)
    else [notes[0]] + Remove(notes[1..], id)
  }

  /** An update or delete that matches no row leaves the table as it was. */
  lemma {:induction false} NoMatchNoChange(notes: seq<Note>, id: int, title: string, content: string)
    requires FindNote(notes, id) == None
    ensures SetText(notes, id, title, content) == notes
    ensures Remove(notes, id) == notes
  {
    if notes != [] {
      NoMatchNoChange(notes[1..], id, title, content);
    }
  }

  /** After an update, the id finds the updated row (ids being distinct). */
  lemma {:induction false} FindAfterSetText(notes: seq<Note>, id: int, title: string, content: string)
    requires DistinctIds(notes)
    ensures DistinctIds(SetText(notes, id, title, content))
    ensures FindNote(SetText(notes, id, title, content), id)
            == match FindNote(notes, id)
               case None => None
               case Some(n) => Some(n.(title := title, content := content))
  {
    var updated := SetText(notes, id, title, content);
    if notes != [] {
      DistinctTail(notes);
      FindAfterSetText(notes[1..], id, title, content);
      assert updated[1..] == SetText(notes[1..], id, title, content);
    }
  }

  /** An update keeps ids distinct and below a bound. */
  lemma {:induction false} SetTextKeeps(notes: seq<Note>, id: int, title: string, content: string, bound: int)
    requires DistinctIds(notes)
    requires forall k :: 0 <= k < |notes| ==> 1 <= notes[k].id < bound
    ensures DistinctIds(SetText(notes, id, title, content))
    ensures forall k :: 0 <= k < |notes| ==> 1 <= SetText(notes, id, title, content)[k].id < bound
  {
    FindAfterSetText(notes, id, title, content);
  }

  /** Deleting keeps ids distinct. */
  lemma {:induction false} RemoveKeepsDistinct(notes: seq<Note>, id: int)
    requires DistinctIds(notes)
    ensures DistinctIds(Remove(notes, id))
  {
    if notes != [] {
      DistinctTail(notes);
      RemoveKeepsDistinct(notes[1..], id);
      if notes[0].id != id {
        DistinctCons(notes[0], Remove(notes[1..], id));
      }
    }
  }

  /** The rows after the first have distinct ids, none of them the first's. */
  lemma DistinctTail(notes: seq<Note>)
    requires DistinctIds(notes) && notes != []
    ensures DistinctIds(notes[1..])
    ensures forall n :: n in notes[1..] ==> n.id != notes[0].id
  {
    var rest := notes[1..];
    forall i, j | 0 <= i < j < |rest| ensures rest[i].id != rest[j].id {
      assert rest[i] == notes[i + 1] && rest[j] == notes[j + 1];
    }
    forall n | n in rest ensures n.id != notes[0].id {
      var k :| 0 <= k < |rest| && rest[k] == n;
      assert notes[k + 1] == n;
    }
  }

  /** A row whose id no other row has can go in front. */
  lemma DistinctCons(n: Note, rest: seq<Note>)
    requires DistinctIds(rest)
    requires forall m :: m in rest ==> m.id != n.id
    ensures DistinctIds([n] + rest)
  {
    var r := [n] + rest;
    forall i, j | 0 <= i < j < |r| ensures r[i].id != r[j].id {
      assert r[j] == rest[j - 1] && r[j] in rest;
      if i > 0 {
        assert r[i] == rest[i - 1];
      }
    }
  }
}
