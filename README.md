# Notes app: server routes and the client's notes list

This project models the notes app: a minimal note-taking web application.
It covers three pieces of it.

- **The authenticated server** (`dist/index.js`). The Express server over Postgres handles signup and login. Its `authenticateToken` middleware reads `Authorization: Bearer <jwt>`. It serves the four `/api/notes` routes. The `User` and `Note` tables are sequences of rows in storage order, and ids come from counters that start at 1, like `SERIAL` columns. Each route is a method of `AuthServer.Server` that returns a status and a body and changes the tables.
- **The earlier owner-less server** (`src/index.ts`). This variant runs over Prisma and has no users or authentication. Each route is a method of `OpenServer.Server`.
- **The notes page** (`NotesPage.tsx`). This is the React component that holds `notes`, `title`, `content` and `selectedNote`. Each handler is a method of `Client.NotesPage`, and each list change is a pure function: prepend, `map` by id, `filter` by id.

Several shared pieces are modelled exactly:

- The `!title || !content` check runs over optional strings.
- The id check is `parseInt` followed by `!id || isNaN(id)`. `parseInt` follows section 19.2.5 of ECMA-262, including the white-space trimming, the sign and the `0x` branch.
- The bearer token is extracted with `split(" ")[1]`, through a `Split` that is proved to invert `Join`.

bcrypt and JWT are uninterpreted functions, constrained only by the laws the server relies on (`Crypto.Sound`). The clock and bcrypt's salt are parameters. A failure of an awaited call inside a handler's `try` is the `storeFails` argument.

Three behaviours of the code are stated as they are written:

- `PUT` and `DELETE` on the authenticated server need no token and match on the id alone, whoever owns the row. An unmatched id gets 200 with an undefined note.
- The owner-less server answers the same unmatched id with 500, because Prisma's `update` and `delete` throw.
- Signup answers 201 with the whole inserted row, so the reply includes the bcrypt hash of the password.

## Model

| member | source | states |
|---|---|---|
| JsParse.TrimStart | notes-app/notes-app-server/dist/index.js:139 | `parseInt` first drops leading white space: the result is a suffix of the input and does not start with white space or a line terminator |
| JsParse.TrimStartDropsWhite | notes-app/notes-app-server/dist/index.js:139 | everything the trimming drops is white space or a line terminator |
| JsParse.DigitPrefix | notes-app/notes-app-server/dist/index.js:139 | the digits `parseInt` reads are the longest prefix made only of digits of the radix |
| JsParse.ParseInt | notes-app/notes-app-server/dist/index.js:139 | blank text is NaN, and a negative result needs a minus sign after the white space; the exact readings are the lemmas ParseIntOfDigits, ParseIntSkipsWhite, ParseIntOfNumberThen and ParseIntRoundTrip |
| JsParse.NumberToString | notes-app/notes-app/src/NotesPage.tsx:78 | the id in the URL is non-empty, starts with a minus sign exactly when the id is negative, and is digits after that; DecimalStringValue and ParseIntRoundTrip state its value |
| JsParse.DecimalString | notes-app/notes-app/src/NotesPage.tsx:78 | the decimal text of a number in a template literal is non-empty and all digits |
| JsParse.DecimalStringValue | notes-app/notes-app/src/NotesPage.tsx:78 | reading that decimal text as digits gives the number back |
| JsParse.ParseIntOfDigits | notes-app/notes-app-server/dist/index.js:139 | an optional minus sign, decimal digits, then text that continues neither the digits nor a `0x` prefix: `parseInt` gives the signed value of those digits |
| JsParse.ParseIntSkipsWhite | notes-app/notes-app-server/dist/index.js:139 | a leading white-space character does not change the result of `parseInt` |
| JsParse.ParseIntOfDecimal | notes-app/notes-app-server/dist/index.js:139 | an optional minus sign, the decimal text of a number, then text that continues neither the digits nor (after a lone zero) a `0x` prefix: `parseInt` gives the signed number |
| JsParse.ParseIntOfNumberThen | notes-app/notes-app-server/dist/index.js:139 | `parseInt` reads back any integer written in decimal, whatever non-digit text follows it; only after a zero does a following `x` or `X` change the reading, as a hexadecimal prefix |
| JsParse.ParseIntRoundTrip | notes-app/notes-app/src/NotesPage.tsx:78 | round trip: `parseInt` of the id the client writes into the URL is that id |
| Requests.TitleOrContentMissing | notes-app/notes-app-server/dist/index.js:141 | `!title \|\| !content` holds exactly when a field is undefined or empty; when it is false both fields are non-empty strings |
| Requests.NoteId | notes-app/notes-app-server/dist/index.js:139-146 | an id is accepted exactly when `parseInt` gives neither NaN nor zero, and the accepted id is the value `parseInt` gave |
| Requests.NoteIdOfNumber | notes-app/notes-app-server/dist/index.js:144 | every non-zero integer the client writes is accepted as itself, negative ones included ("-3") |
| Requests.NoteIdIgnoresTrailing | notes-app/notes-app-server/dist/index.js:144 | text after the digits of a non-zero id is ignored when it does not start with a digit ("12abc" and "12x" are note 12) |
| Requests.FalsyFields | notes-app/notes-app-server/dist/index.js:141 | a field is falsy exactly when it is absent or the empty string |
| Requests.NoteIdRejectsZero | notes-app/notes-app-server/dist/index.js:144 | zero is rejected however many zeros are written, with or without a minus sign ("0", "-0", "000") |
| Requests.UndefinedIdRejected | notes-app/notes-app-server/dist/index.js:156-159 | the id "undefined" that a template literal writes for a missing id is rejected |
| Requests.NoteIdRejectsNonNumeric | notes-app/notes-app-server/src/index.ts:52-54 | text that, after any leading white space, starts with neither a sign nor a digit (for example "undefined") is rejected |
| Bearer.Split | notes-app/notes-app-server/dist/index.js:92 | `split(" ")` gives at least one field, no field holds a space, and joining the fields with spaces gives the header back |
| Bearer.SplitJoin | notes-app/notes-app-server/dist/index.js:92 | the other direction of that round trip: space-free fields come back from splitting their join |
| Bearer.ExtractToken | notes-app/notes-app-server/dist/index.js:92 | the token is defined exactly when the header is present and contains a space, and it holds no space |
| Bearer.SchemeIgnored | notes-app/notes-app-server/dist/index.js:92 | the first word is never checked: any scheme word followed by a token gives that token, and later fields are dropped |
| Bearer.ClientHeaderYieldsToken | notes-app/notes-app/src/NotesPage.tsx:35 | the header the client sends, `Bearer ${token}`, yields exactly the token |
| Bearer.BareSchemeHasNoToken | notes-app/notes-app-server/dist/index.js:92-95 | a one-word header such as a bare "Bearer" has no token |
| Bearer.DoubleSpaceHasEmptyToken | notes-app/notes-app-server/dist/index.js:92-95 | two spaces after the scheme give an empty token, which the middleware treats as missing |
| Store.FindUser | notes-app/notes-app-server/dist/index.js:54-55 | the lookup finds a user with that username, and finds none exactly when no user has it |
| Store.FindUniqueUser | notes-app/notes-app-server/dist/index.js:72-74 | with unique usernames, the row login reads first is the only user with that name |
| Store.NotesOf | notes-app/notes-app-server/dist/index.js:108 | `WHERE "userId" = $1` keeps exactly the rows owned by that user, and no others |
| Store.NotesOfAppend | notes-app/notes-app-server/dist/index.js:108 | a user's listing of a longer table is their listing of the old part, then their listing of the new rows |
| Store.FindNote | notes-app/notes-app-server/dist/index.js:148-149 | the row the query returns has that id, and there is none exactly when no row has that id |
| Store.SetText | notes-app/notes-app-server/dist/index.js:148 | the update gives every row with that id the new title and content, whoever owns it; no other row changes and the length is kept |
| Store.Remove | notes-app/notes-app-server/dist/index.js:162 | the delete keeps exactly the rows with another id |
| Store.NoMatchNoChange | notes-app/notes-app-server/dist/index.js:148-163 | an update or delete whose id matches no row leaves the table as it was |
| Store.FindAfterSetText | notes-app/notes-app-server/dist/index.js:148-149 | an update keeps ids distinct, and the row it returns is the old row with the new text |
| Store.SetTextKeeps | notes-app/notes-app-server/dist/index.js:148 | an update keeps ids distinct and below the next id |
| Store.RemoveKeepsDistinct | notes-app/notes-app-server/dist/index.js:162 | a delete keeps ids distinct |
| AuthServer.Authenticate | notes-app/notes-app-server/dist/index.js:89-103 | a missing or empty token gives exactly the 401 reply; otherwise a token that does not verify gives 403, and one that does admits exactly its `userId` claim |
| AuthServer.IssuedTokenAuthenticates | notes-app/notes-app-server/dist/index.js:78-101 | a token issued at login, sent back in the client's header, admits exactly the user it was issued for |
| AuthServer.Server.constructor | notes-app/notes-app-server/dist/index.js:26-29 | the server starts with empty tables and both id counters at 1 |
| AuthServer.Server.Signup | notes-app/notes-app-server/dist/index.js:48-66 | a taken username gets 400 and changes nothing; otherwise exactly one user with the hashed password is appended and returned with 201; usernames stay unique; notes are untouched |
| AuthServer.Server.Login | notes-app/notes-app-server/dist/index.js:68-87 | 200 exactly when a user of that name exists and the password matches its hash, with a token signed for that user's id and the username; otherwise 400 "Invalid credentials"; nothing changes |
| AuthServer.Server.ListNotes | notes-app/notes-app-server/dist/index.js:105-116 | the middleware's refusal is the reply; otherwise exactly the notes owned by the authenticated user, or 500 |
| AuthServer.Server.CreateNote | notes-app/notes-app-server/dist/index.js:118-136 | authentication first, then 400 for a missing title or content, then 500; otherwise one note with a fresh id, that text, owned by the authenticated user, is appended and returned; every failure leaves the tables unchanged |
| AuthServer.Server.UpdateNote | notes-app/notes-app-server/dist/index.js:138-154 | no authentication; title and content are checked before the id; the row with that id gets the new text whoever owns it, and the reply is the updated row, undefined when none matched; failures change nothing |
| AuthServer.Server.DeleteNote | notes-app/notes-app-server/dist/index.js:156-168 | no authentication; the row with that id is removed whoever owns it and is returned; an unmatched id gets 200 with an undefined note and changes nothing |
| AuthServer.AccountSteps | notes-app/notes-app-server/dist/index.js:48-87 | from empty tables, "alice" signs up (201), cannot sign up again (400) and logs in (200); the login reply carries a token for her id 1 and her name |
| AuthServer.CreateSteps | notes-app/notes-app-server/dist/index.js:105-136 | with the token login issued to user 1 as the bearer token, creating note 1 (200) and then listing returns exactly that note |
| AuthServer.DeleteUnsetIdStep | notes-app/notes-app-server/dist/index.js:155-159 | deleting through `/api/notes/undefined`, the URL the page builds for an entry without an id, answers 400 "Invalid note id" and keeps every note |
| AuthServer.EditSteps | notes-app/notes-app-server/dist/index.js:138-168 | note 1 is renamed and deleted without a token through the URL built from its id (200 each), and user 1's listing is then empty |
| AuthServer.Walkthrough | notes-app/notes-app-server/dist/index.js:48-168 | the whole session from a fresh database, with the token taken from the login reply, gives 201, 400, 200, 200, 200, 200, 200, 200, first listing note 1 and finally nothing |
| OpenServer.Server.constructor | notes-app/notes-app-server/src/index.ts:7 | the table starts empty with the id counter at 1 |
| OpenServer.Server.ListNotes | notes-app/notes-app-server/src/index.ts:14-17 | every note in the table, unfiltered |
| OpenServer.Server.CreateNote | notes-app/notes-app-server/src/index.ts:20-38 | 400 for a missing title or content and 500 for a store failure, both leaving the table unchanged; otherwise one note with a fresh id, exactly that text and no owner is appended and returned |
| OpenServer.Server.UpdateNote | notes-app/notes-app-server/src/index.ts:41-66 | title and content are checked before the id; an id that is missing or matches no row is an error (400 or 500) that changes nothing; otherwise only the note with that id gets the new text and is returned |
| OpenServer.Server.DeleteNote | notes-app/notes-app-server/src/index.ts:69-87 | a missing id gives 400, and an id that matches no row or a store failure gives 500; otherwise only the note with that id is removed and is returned |
| Client.RowEntryDropsOwner | notes-app/notes-app/src/NotesPage.tsx:5-9 | the page sees a row through its id, title and content only: two rows look the same exactly when they differ at most in the owner column |
| Client.Rows | notes-app/notes-app/src/NotesPage.tsx:158 | the fetched list has one entry per row, in order |
| Client.ReplyEntry | notes-app/notes-app/src/NotesPage.tsx:41 | the parsed reply fails exactly for a plain-text body; a `{ note }`, `{ notes }` or `{ message }` reply is an object with no id, title or content |
| Client.NoteReply | notes-app/notes-app/src/NotesPage.tsx:91 | the corrected reading of a reply: the note inside `{ note }`, with its id, title and content |
| Client.FetchShowsOwnNotes | notes-app/notes-app/src/NotesPage.tsx:151-158 | the `notes` of the listing the server sends a user is defined, and the page's list then holds a row for every note of that user and no other row |
| Client.ReplaceById | notes-app/notes-app/src/NotesPage.tsx:94-96 | the `map` keeps the length, puts the reply at every position whose id equals the selected id, and leaves every other position as it was |
| Client.RemoveById | notes-app/notes-app/src/NotesPage.tsx:131 | the `filter` keeps exactly the entries with another id |
| Client.RemoveByIdConcat | notes-app/notes-app/src/NotesPage.tsx:131 | the filter keeps relative order: filtering a concatenation filters each part |
| Client.RemoveByIdIdempotent | notes-app/notes-app/src/NotesPage.tsx:131 | deleting the same id twice removes nothing more |
| Client.ReplaceByIdIdempotent | notes-app/notes-app/src/NotesPage.tsx:94-96 | repeating the same update changes nothing more |
| Client.DeleteMatchesServer | notes-app/notes-app/src/NotesPage.tsx:131 | the page's delete removes from the fetched list exactly what the server's delete removes from the table |
| Client.UpdatedListDiverges | notes-app/notes-app/src/NotesPage.tsx:91-96 | as written, after the update of an existing note, whatever `{ note }` reply the server sent, the list differs from the server's updated table: the updated note's entry has no id |
| Client.UpdatedListAgrees | notes-app/notes-app/src/NotesPage.tsx:91-96 | with the note taken out of the `{ note }` reply, the updated list is exactly the server's updated table |
| Client.ReplaceRowsBySetText | notes-app/notes-app/src/NotesPage.tsx:94-96 | replacing the entries with an id by that id's row with the new text gives the listing of the updated table |
| Client.AddedNoteDeletedOnlyLocally | notes-app/notes-app/src/NotesPage.tsx:116-134 | as written, a note just added has no id in the list; its delete button requests the id "undefined", which the server rejects, while the page's filter drops the added entry and every other entry without an id, so the note leaves the list but stays on the server |
| Client.NotesPage.constructor | notes-app/notes-app/src/NotesPage.tsx:13-17 | the page starts with an empty list, an empty form and no selection |
| Client.NotesPage.HandleAddNote | notes-app/notes-app/src/NotesPage.tsx:25-53 | the reply goes in front of the old list, kept in order, and the form is cleared; a failed request or an undefined list changes nothing; the selection is untouched |
| Client.NotesPage.HandleNoteClick | notes-app/notes-app/src/NotesPage.tsx:61-65 | the clicked note is selected and its title and content are copied into the form; the list is unchanged |
| Client.NotesPage.HandleUpdateNote | notes-app/notes-app/src/NotesPage.tsx:68-106 | with no selection nothing changes; otherwise the reply replaces every entry with the selected id, and the form and selection are cleared; a failed request or an undefined list changes nothing |
| Client.NotesPage.HandleCancel | notes-app/notes-app/src/NotesPage.tsx:109-113 | the form and the selection are cleared, and the list is unchanged |
| Client.NotesPage.DeleteNote | notes-app/notes-app/src/NotesPage.tsx:116-138 | the entries with that id leave the list, the rest keep their order, and nothing else changes, even when the deleted note is the selected one |
| Client.NotesPage.FetchNotes | notes-app/notes-app/src/NotesPage.tsx:141-162 | the list is replaced wholesale by the reply's `notes`, undefined when the reply has none; a failed request or parse changes nothing |
| Client.NotesPage.Submit | notes-app/notes-app/src/NotesPage.tsx:174-176 | the form runs the update exactly when a note is selected, and the add otherwise; on success the form is cleared, and a failed request or an undefined list leaves list, form and selection as they were |

## Left out

- bcrypt and JWT internals are not modelled. This covers hashing, comparison, signing, verification, the one-hour expiry and the `"secret"` fallback key. They are the uninterpreted functions of `Crypto.Oracles`, constrained only by `Crypto.Sound`. The clock and the salt are parameters.
- Connection and framework plumbing is not modelled: the pg `Pool`, SSL, the `SELECT version()` probe, Prisma, CORS, the JSON middleware and `app.listen`. The tables are in-memory sequences.
- Concurrency is not modelled. Requests run one after another, so the check-then-insert race between two signups of the same name is not modelled.
- Errors thrown outside a handler's `try` are not modelled. Examples are a bcrypt failure before the signup `try` and a rejected `findMany` in the owner-less `GET`. A rejected `response.json()` in the page's add handler is modelled as a reply of `None`.
- OpenServer.Server.ListNotes: has no failure case, because that route has no `try` and a failing query never produces a reply.
- JSON body fields that are not strings (numbers, objects, arrays) are not modelled. Title and content are optional strings.
- AuthServer.Server.Signup: takes username and password as strings, although a JSON body may leave either out. A missing password makes `bcrypt.hash` throw before the `try` (notes-app/notes-app-server/dist/index.js:51), so no reply is sent. A missing username reaches the queries as SQL `NULL`, and what the insert then does depends on the table's constraints, which are not part of this model.
- AuthServer.Server.Login: takes username and password as strings, although a JSON body may leave either out. A missing username matches no row and gets 400. When a user of that name exists, a missing password makes `bcrypt.compare` throw inside the `try` (notes-app/notes-app-server/dist/index.js:74), which gives 500.
- Client.NotesPage.HandleAddNote and Client.NotesPage.HandleUpdateNote: run to completion on a persistent page. In the source, `event.preventDefault()` is commented out in both handlers (notes-app/notes-app/src/NotesPage.tsx:26 and :70). The browser's default form submission then reloads the page, which throws away the list the handler built and fetches the list again. Page reloads are not modelled. The reload can hide the `{ note }` defect under "Findings" in a browser, since the broken entry disappears when the list is fetched again.
- JsParse.ParseInt: results are exact integers. Rounding above 2^53 and an `Infinity` result from a very long digit string are not modelled. Such an id would reach the database only to fail, which `storeFails` covers.
- JsParse.NumberToString: writes every integer in plain decimal. The exponent form JavaScript uses from 1e21 upwards is not modelled.
- A failed insert still consumes a `SERIAL` value in Postgres. In the model, ids advance only on success.
- Row order without `ORDER BY` is unspecified in SQL. The model lists rows in storage order.
- React rendering, `useEffect` scheduling and console logging are not modelled. The page's handlers are methods run once their request has settled. Each handler in the source works on the `notes` of the render that created it (notes-app/notes-app/src/NotesPage.tsx:45, :94, :131), while the model's methods work on the current list. So stale closures are not modelled: when the first fetch settles before an earlier add's POST, the source prepends to the old empty list and loses the fetched notes, which the model does not show.
- The sign-up and login forms, the app shell and the landing page are not part of this model. They are only fetch, local storage, navigation and markup.

## Findings

| source | as written | input that shows it | evidently intended | confidence | as-written member | corrected member |
|---|---|---|---|---|---|---|
| notes-app/notes-app/src/NotesPage.tsx:91-96 | the page puts the whole parsed reply in the list, but both servers reply `{ note }`, so the entry has no id, title or content (the add at line 45 does the same, so an added entry's delete button requests `/api/notes/undefined`, which the server refuses, while the page drops the entry) | select note 1, change its text and submit: the reply `{ note: {id: 1, …} }` replaces note 1's entry with an object without `id` | put `reply.note` in the list, so the list matches the server's updated table | high (not executed) | Client.UpdatedListDiverges | Client.UpdatedListAgrees |

The page's handlers take the parsed reply as their input. `Client.NotesPage` therefore keeps the behaviour as written. `Client.NoteReply` is the corrected reading of the reply. `Client.AddedNoteDeletedOnlyLocally` and `AuthServer.DeleteUnsetIdStep` show a further consequence for a note just added: the page can remove it from its list but never delete it on the server.
