# Books context: a verified model of the client-side collection mirror

The book-catalog app keeps a client-side copy of the server's book list in a
React context, `src/context/books.js`. The copy is called the *mirror*. It
starts empty. Four handlers change it, and each one first awaits a call to
the books API:

- **load** (`fetchBooks`) replaces the whole mirror with the server's list;
- **create** (`handleCreateBook`) appends the record the server returned;
- **delete** (`handleDeleteBookById`) keeps only entries whose id differs
  from the target;
- **edit** (`handleEditBookById`) swaps every entry whose id equals the
  target for the record the server returned, in place.

When the awaited call rejects, the state update is never reached and the
mirror stays as it was.

The model has four Dafny modules:

- `Transport` (`transport.dfy`): the settled outcome of one API call.
  `Ok(value)` means the promise resolved; `Err` means it rejected: the
  request could not be made, no response came, or the response had an
  error status.
- `Book` (`book.dfy`): records `{id, title}`, their ids, and id uniqueness.
  An id is `Num(n)` or `Text(s)`. The handlers compare ids with strict
  equality, so a numeric id never equals a textual one.
- `BooksContext` (`books_context.dfy`): the initial mirror and the four
  handlers, each a pure function from (mirror, outcome) to the next mirror,
  with their properties. The filter in the delete handler is `Without` and
  the map in the edit handler is `Replace`.
- `Session` (`session.dfy`): handler calls applied one after another.
  Covers uniqueness as a run invariant, invisibility of rejected calls,
  which steps can change membership, and a worked session.

A few facts about the code shape the model:

- No title is trimmed or validated. `BookCreate.js:12` and `BookEdit.js:8`
  forward the raw text, and the title travels only in the request, so the
  handlers in the model do not take it.
- Every rejection is handled alike: the state update is skipped, whatever
  the kind of error.
- The delete handler ignores the response body (`books.js:24`), so the
  model's delete outcome carries no value.

## Model

| member | source | states |
|---|---|---|
| BooksContext.FetchBooks | src/context/books.js:7-12 | A resolved load makes the mirror exactly the server's list, whatever it held before. A rejected load leaves the mirror as it was, which at start-up is the empty mirror of line 7. |
| BooksContext.CreateBook | src/context/books.js:18-21 | A resolved create grows the mirror by one. The old mirror is an unchanged prefix, the last entry is exactly the server's record, and the ids gain exactly that record's id. A rejected create leaves the mirror unchanged. |
| BooksContext.CreateUniqueIff | src/context/books.js:18-21 | After a create, ids are unique if and only if they were unique before and the server-assigned id is new to the mirror. |
| BooksContext.Without | src/context/books.js:25 | The filter drops exactly as many entries as carry the id, and no surviving entry carries it. |
| BooksContext.DeleteBookById | src/context/books.js:23-26 | After a resolved delete, no entry carries the target id and the length drops by the number of entries that did. A rejected delete leaves the mirror unchanged. |
| BooksContext.KeptPositions | src/context/books.js:25 | The kept positions are strictly increasing and in range. A position is kept exactly when its entry's id differs from the target. |
| BooksContext.DeleteKeepsOrder | src/context/books.js:25 | The delete result is the old mirror read at exactly the positions whose id differs from the target, in their original order. |
| BooksContext.WithoutAppend | src/context/books.js:25 | Deleting from a concatenation equals concatenating the two deletes. |
| BooksContext.DeleteMembers | src/context/books.js:25 | A record survives a delete if and only if it was in the mirror and does not carry the target id. |
| BooksContext.DeleteAbsentIsNoop | src/context/books.js:25 | Deleting an id that no entry carries leaves the mirror unchanged. |
| BooksContext.DeleteChangesIffPresent | src/context/books.js:25 | A resolved delete changes the mirror if and only if some entry carries the target id. |
| Book.NoOccurrencesIff | src/context/books.js:25 | The number of entries carrying an id is zero if and only if the id is not among the mirror's ids. |
| BooksContext.DeleteIdempotent | src/context/books.js:25 | Deleting the same id twice gives the same mirror as deleting it once. |
| BooksContext.DeleteSingle | src/context/books.js:23-26 | With unique ids, deleting the id at position k removes exactly that entry. The rest keep their relative order. |
| BooksContext.DeleteIds | src/context/books.js:25 | After a delete, the set of ids is the old set minus the target id. |
| BooksContext.DeletePreservesUnique | src/context/books.js:25 | A delete keeps ids unique. |
| BooksContext.Replace | src/context/books.js:31-36 | The map keeps the length. Every position whose id equals the target holds the given record, and every other position is unchanged. |
| BooksContext.EditBookById | src/context/books.js:28-38 | A resolved edit keeps the length. Matching positions hold the server's record verbatim, and all other positions are unchanged. A rejected edit leaves the mirror unchanged. |
| BooksContext.EditAbsentIsNoop | src/context/books.js:31-36 | Editing an id that no entry carries leaves the mirror unchanged. The server's record is dropped, not appended. |
| BooksContext.EditAtPosition | src/context/books.js:28-38 | With unique ids, editing the id at position k replaces that one position and nothing else. |
| BooksContext.EditIds | src/context/books.js:31-36 | An edit adds no id except the one in the server's record. When that record keeps the target id, the set of ids is unchanged. |
| BooksContext.EditPreservesUnique | src/context/books.js:32-33 | An edit whose response keeps the target id keeps ids unique. |
| BooksContext.EditIdempotent | src/context/books.js:31-36 | Repeating an edit with the same response changes nothing further, whatever id the response carries. |
| Session.ResolvedSteps | src/context/books.js:18-38 | The selected steps all resolved, and a step is selected if and only if it is among the steps and resolved. |
| Session.ResolvedStepsAppend | src/context/books.js:18-38 | Selecting the resolved steps distributes over concatenation, so the selection keeps the steps' order and multiplicity. |
| Session.ResolvedStepsSingleton | src/context/books.js:18-38 | A single step is kept exactly when its call resolved. |
| Session.RejectedStepIsNoop | src/context/books.js:9-30 | A step whose call rejected leaves the mirror unchanged. |
| Session.RejectionsInvisible | src/context/books.js:9-38 | Running a sequence of handler calls gives the same mirror as running only the calls that resolved, in the same order. |
| Session.StepPreservesUnique | src/context/books.js:9-38 | One handler call keeps ids unique when its step keeps ids apart. That means: a load returns a list with unique ids, a create returns an id new to the mirror, and an edit returns the target id. |
| Session.RunPreservesUnique | src/context/books.js:9-38 | Id uniqueness holds after every run whose steps all keep ids apart. |
| Session.SessionIdsUnique | src/context/books.js:7-38 | Starting from the empty mirror, such a run never shows two entries with the same id. |
| Session.NoNewIdsWithoutLoadOrCreate | src/context/books.js:23-38 | A run of deletes and id-keeping edits never adds an id and never grows the mirror. |
| Session.Scenario | src/context/books.js:7-38 | A worked session. Load [1 "Dune"], create 2 "Foundation", rename 1 to "Dune Messiah", delete 2. The mirror ends as [1 "Dune Messiah"]. |

## Left out

- The HTTP client (`src/api/index.js`) is not modelled. Each handler receives the settled outcome of its API call as an argument. `getBookById` is not used by the store.
- The request each handler sends is not modelled: the path, and the raw `{ title }` body for create and edit. Only the outcome is.
- Overlapping handler calls are not modelled. The handlers compute the next mirror from the `books` value captured at render time (`books.js:20, 25, 30`), so two calls in flight at once can lose an update. The model applies calls strictly one after another.
- The effect lifecycle is not modelled: how many times the start-up load runs (`books.js:14-16`, and StrictMode in `src/index.js`). `FetchBooks` shows a resolved load depends only on the list, so a repeated load of the same list is harmless.
- A rejected API call makes every handler reject in turn: load, create, delete and edit alike (`books.js:9-38`). No caller awaits or catches it (`books.js:15`, `BookCreate.js:12`, `BookShow.js:8`, `BookShow.js:21`). The model's handlers return only the next mirror. They state the rejection's effect on the mirror, which is none, but not the error that escapes to the caller.
- Records carry only `id` and `title`. Other fields the server may return are not modelled; a stored record is the server's response without change.
- Ids are integers or strings. A non-integral or NaN numeric id (`NaN !== NaN`) is not modelled.
- The React components and the show/edit toggle are not modelled. They are presentation. The same goes for styling (`tailwind.config.js`) and bootstrap (`src/index.js`).
