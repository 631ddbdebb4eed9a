/** Replies as the route handlers write them: a status code and a body. */
module Http {
  import opened Wrappers
  import opened Store

  datatype Body =
    /** `res.json({ message })` */
    | Message(message: string)
    /** `res.send(text)`: plain text, not JSON. */
    | Text(text: string)
    /** A "User" row as `RETURNING *` gives it, password hash included. */
    | UserRow(user: User)
    /** `{ token, username }` */
    | Session(token: string, username: string)
    /** `{ notes }` */
    | NoteRows(notes: seq<Note>)
    /** `{ note }`; `None` is an undefined note, which JSON drops, leaving `{}`. */
    | NoteRow(note: Option<Note>)

  datatype Response = Response(status: int, body: Body)
}
