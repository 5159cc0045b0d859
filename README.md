# Notes: access control and history of a note store

A Dafny model of the notes app of NoteTakingApp (a Django service): the
Note and NoteUpdate records of `notes/models.py` and the five views of
`notes/views.py` (create a note, read it, update it, share it, list its
history), with the access rules they enforce and the append-only history
they keep.

- `wrappers.dfy` — `Option`, `Result` and `Outcome`.
- `models.dfy` — module `Models`: the `Note` and `NoteUpdate` records and
  the 200-character title limit. The NoteUpdate table is one sequence of
  rows, each pointing at its note. `HistoryOf` gives the history of one
  note, `NewestFirst` gives the answer the history view builds from it, and
  lemmas cover both.
- `rules.dfy` — module `Rules`: the decisions the views take without
  touching the store. These are the create-form checks, the two access
  checks and the per-username checks of the share loop. The share loop
  itself is the function `ShareAll`, with lemmas for its success condition
  and for its partial application.
- `store.dfy` — module `Store`: class `NoteStore` holds four fields:
  - `notes`: the Note table, a map from id to `Note`;
  - `updates`: the NoteUpdate table, in the order rows were written;
  - `clock`: a logical clock that stamps each new row;
  - `nextId`: the next note id to hand out.

  The ORM calls the views make are methods: `InsertNote`, `AppendUpdate`,
  `WriteContent` and `AddShare`. Each view is a method taking an explicit
  `requester`:
  - `CreateNote`, `GetNote`, `UpdateNote` and `GetHistory`;
  - `ShareNote`, whose loop over the usernames is `ShareEach`.

  `Valid()` is the structural invariant. `Consistent()` says each note's
  content equals its latest snapshot. Every view keeps both. Every view that
  changes the store (`CreateNote`, `UpdateNote`, `ShareNote`) ensures
  `Evolves`: no note disappears, owner and title never change, and
  `sharedWith` never shrinks; each of them also keeps the NoteUpdate table a
  prefix of its later states. `GetNote` and `GetHistory` change nothing.
- `findings.dfy` — module `Findings`: the content write of the update view
  as written (see Findings).
- `scenarios.dfy` — module `Scenarios`: the URL tests, and a few more scenarios
  from the views, as client methods.
  Each one states the test's expectation and is proved from the views'
  contracts and the model functions.

Usernames are resolved through a `map<string, UserId>` passed to
`ShareNote`. A form or JSON field is an `Option<string>`. The views'
`not x or not isinstance(x, str)` test becomes `Present`: the field is
present and not empty.

The model follows the code, including where it is asymmetric or surprising:
- Reading a note is allowed to its owner only (`notes/views.py:76`).
  Updating it and reading its history are also allowed to shared users
  (`notes/views.py:87`, `notes/views.py:165`). So a shared user can edit a
  note and list its history but gets Forbidden on reading it.
- Sharing with a user who already has access is refused as invalid input
  (HTTP 400), the same 400 as a self-share.
- The share loop applies partially. A refused username ends the call, and
  users added earlier in the same call stay.
- A missing note always gives NotFound before any permission check.
  Forbidden comes before any content check.
- A note inserted directly (as the tests' fixture does) has no snapshot, so
  its history is empty. The invariants therefore do not require a
  non-empty history.

## Model

| member | source | states |
|---|---|---|
| `Models.WellFormedKept` | notes/models.py:11-14 | `WellFormed` (the title fits the 200-character column, the owner is not among the shared users) survives the two edits the views make: a new content, and one more shared user other than the owner |
| `Models.HistoryOf` | notes/models.py:24 | every row in a note's history points at that note, and the history is no longer than the table |
| `Models.InHistoryOf` | notes/models.py:24 | a row is in a note's history exactly when it is in the table and points at that note |
| `Models.HistoryOfUnreferenced` | notes/models.py:24 | a note that no row points at has an empty history |
| `Models.HistoryOfAppend` | notes/views.py:99 | creating a NoteUpdate extends the history of its own note by exactly that row and leaves every other note's history unchanged |
| `Models.HistoryOfPrefix` | notes/models.py:20-26 | when rows are only appended to the table, each note's earlier history is a prefix of its later history (append-only) |
| `Models.HistoryOfIncreasing` | notes/models.py:26 | if timestamps rise along the table, they rise along every note's history |
| `Models.NewestFirst` | notes/views.py:171 | the answer has one entry per snapshot; entry k is snapshot n-1-k, reduced by `AsEntry` to content and timestamp (`.values("content", "timestamp")`) |
| `Models.NewestFirstOrdered` | notes/views.py:171 | for a history in timestamp order, the answer is ordered by timestamp, newest first (`order_by("-timestamp")`) |
| `Models.NewestFirstHas` | notes/views.py:171 | every snapshot of the history appears in the answer |
| `Rules.CreateInputError` | notes/views.py:32-45 | no error exactly when title and content are `Present` (the `not x or not isinstance(x, str)` test passes: given and not empty) and the new note is `WellFormed`, i.e. the title has at most 200 characters; a missing title wins over a missing content, and a missing content wins over a long title |
| `Rules.IsOwner` | notes/views.py:76 | reading a note (and sharing it, line 123) is allowed only to its owner, who also passes the edit check |
| `Rules.HasAccess` | notes/views.py:87 | editing a note (and reading its history, line 165) is allowed to its owner and to its shared users; on a stored note the requester is exactly one of the two |
| `Rules.SharedUserEditsButCannotRead` | notes/views.py:76-90 | a shared user passes the edit and history check but fails the owner-only read check |
| `Rules.Verdict` | notes/views.py:130-144 | a username passes exactly when it resolves to a user who is not the requester and not already shared; an unknown name is NotFound, the requester's own name and an already shared user are InvalidInput (SelfShare, AlreadyShared) |
| `Rules.InResolved` | notes/views.py:130 | a user is among the resolved users exactly when some listed name maps to them |
| `Rules.ShareAll` | notes/views.py:129-145 | the share loop only adds users, and never adds the requester |
| `Rules.ShareAllSucceeds` | notes/views.py:129-147 | the loop succeeds exactly when every name resolves, to someone other than the requester, not yet shared, with no user listed twice; then every listed user has been added |
| `Rules.ShareAllStopsAtFirstFailure` | notes/views.py:129-145 | the loop stops at an index k; every name before k passed its verdict against the set shared before it, and their users have all been added; on failure, name k is the first refused one and the error is its verdict against the set shared by then |
| `Store.SyncedAfterWrite` | notes/views.py:99-100 | appending a snapshot and writing the same content into the note keeps every note equal to its latest snapshot |
| `Store.SyncedAfterShare` | notes/views.py:145 | changing only a note's shared users keeps every note equal to its latest snapshot |
| `Store.NoteStore.InsertNote` | notes/views.py:48 | a new note gets the next id (ids rise by one per note), owner and fields as given, nothing shared and an empty history; the table is otherwise unchanged |
| `Store.NoteStore.AppendUpdate` | notes/views.py:99 | exactly one row is appended, the clock advances by one and the row's timestamp is later than every earlier row's, and the Note table is unchanged |
| `Store.NoteStore.WriteContent` | notes/views.py:100 | only the edited note's content changes |
| `Store.NoteStore.AddShare` | notes/views.py:145 | the user joins the note's shared set, and the invariants hold because the owner is never added |
| `Store.NoteStore.CreateNote` | notes/views.py:17-57 | fails exactly on invalid input, with the first failing check's error, and creates nothing; otherwise it adds a note under the next id, owned by the requester, with empty `sharedWith` and a history of exactly one snapshot of the content |
| `Store.NoteStore.GetNote` | notes/views.py:72-82 | NotFound for a missing note, else Forbidden for anyone but the owner (shared users included), else the title and content |
| `Store.NoteStore.UpdateNote` | notes/views.py:83-102 | NotFound, then Forbidden unless owner or shared, then invalid content unless `Present`; every failure changes nothing; success appends one snapshot of the new content, sets the note's content, advances the clock by one and allocates no id |
| `Store.NoteStore.ShareNote` | notes/views.py:107-147 | NotFound, then Forbidden for a non-owner, both changing nothing; for the owner, `sharedWith` becomes what the share loop computes, and the call fails exactly when the loop does |
| `Store.NoteStore.ShareEach` | notes/views.py:129-147 | the loop leaves `sharedWith` equal to `ShareAll` of its starting set, including the additions made before a refusal, and returns the loop's error |
| `Store.NoteStore.GetHistory` | notes/views.py:151-172 | NotFound, then Forbidden unless owner or shared; otherwise it returns every snapshot of the note (one entry each), newest first, and the first entry holds the note's current content |
| `Findings.UnfilteredUpdateBreaksTable` | notes/views.py:100 | with two or more notes, `UnfilteredUpdate` (the UPDATE as written, asking every row to take the edited note's id and the new content) would give two rows the same primary key and would write the new content into every note |
| `Findings.UnfilteredUpdateCounterexample` | notes/views.py:100 | two notes, the first edited: the UPDATE as written would make the ids collide and would change the second note's content, which the intended update leaves alone |
| `Findings.SnapshotWithoutWriteLosesSync` | notes/views.py:99-100 | when the snapshot is stored but the content write is aborted, a new content different from the old leaves the note out of step with its latest snapshot |
| `Findings.UnfilteredUpdateOnSingleNote` | notes/views.py:100 | with only the edited note stored, the UPDATE as written equals the intended one |
| `Findings.FilteredUpdate` | notes/views.py:100 | the intended UPDATE changes only the edited row and keeps primary keys unique |
| `Scenarios.Fixture` | tests/notes/url/test_notes.py:18-23 | the tests' note, inserted directly into an empty store, gets id 1 and has no history |
| `Scenarios.CreateScenarios` | tests/notes/url/test_notes.py:25-50 | a complete form creates a note; a missing title gives "Invalid title"; a missing content gives "Invalid content" |
| `Scenarios.TitleLengthBoundary` | notes/views.py:42-45 | a 200-character title is accepted with one snapshot; a 201-character one is refused as too long |
| `Scenarios.GetScenarios` | tests/notes/url/test_notes.py:53-75 | the owner reads title and content; a missing id is NotFound; another user is Forbidden |
| `Scenarios.ShareScenarios` | tests/notes/url/test_notes.py:78-125 | sharing with a user succeeds; sharing with oneself is refused; sharing again with the same user is refused, and the user is in the set once |
| `Scenarios.PartialShare` | notes/views.py:129-145 | a call refused at its second name keeps the user added for its first |
| `Scenarios.UpdateRefused` | tests/notes/url/test_notes.py:138-167 | an update by a user without access, and an update without content, are refused, and the content stays |
| `Scenarios.UpdateByOwner` | tests/notes/url/test_notes.py:127-136 | the owner's update replaces the content |
| `Scenarios.HistoryWithoutUpdate` | tests/notes/url/test_notes.py:181-185 | the fixture note's history is empty |
| `Scenarios.HistoryAfterUpdate` | tests/notes/url/test_notes.py:169-179 | after one update the history has one entry, the new content |
| `Scenarios.HistoryForbidden` | notes/views.py:162-169 | a user without access is refused the history |
| `Scenarios.SharedUserEdits` | notes/views.py:87-90 | once shared, another user may update the note and read its one-entry history |
| `Scenarios.SharedUserRefused` | notes/views.py:76-80 | once shared, that user is still refused reading the note and sharing it on |

## Findings

| source | as written | input that shows it | evidently intended | confidence | as-written member | corrected member |
|---|---|---|---|---|---|---|
| notes/views.py:100 | `Note.objects.update(id=note.id, content=new_content)` is an UPDATE over the whole, unfiltered Note table. It asks every row to take the edited note's id and the new content. | Two notes stored, the first edited: both rows would get id 1. The primary key makes the database abort the UPDATE, so no note changes and the view fails (HTTP 500). The snapshot of line 99 has already been stored, so the history no longer matches the note (`Findings.SnapshotWithoutWriteLosesSync`). | Only the edited note's content changes, as in `Note.objects.filter(id=note.id).update(content=new_content)` | high; not executed | `Findings.UnfilteredUpdateBreaksTable` | `Store.NoteStore.WriteContent` |

With only one note stored (the tests' case), the UPDATE as written does what
was intended (`Findings.UnfilteredUpdateOnSingleNote`). `UpdateNote` uses
the corrected write, so its contract says every other note is unchanged.

## Left out

- HTTP plumbing is not modelled:
  - request parsing, `json.loads` of the PUT body and `JsonResponse`;
  - status codes and the error message texts;
  - `@login_required` and `@csrf_exempt`.

  The requester is an argument, and errors are the `Error` datatype. A JSON
  `content` that is not a string is modelled as a missing one.
- share_note called with a method other than POST uses an unbound `note`. This is undefined behaviour and is not modelled. The note id is a typed argument, so a missing or non-numeric `note_id` in the form is not modelled either.
- The `except Exception` branch of create_note (HTTP 500) and storage failures in general are not modelled.
- Concurrency is not modelled. This includes the missing transaction around the snapshot and content write of an update: each view runs as one sequential step.
- Wall-clock timestamps are replaced by a logical clock that rises on every appended row. As a result, timestamps within the table are strictly increasing, not merely non-decreasing.
- Cascade deletion is not modelled, because no view deletes anything.
- `Note.__str__` is not modelled; it only returns the title for display.
- URL routing (notes/urls.py, auth/urls.py), login, signup, token handling and the health check (auth/views.py) are not modelled. Users are only ids, and usernames resolve through the map given to `ShareNote`.
- Store.NoteStore.InsertNote: requires a title of at most 200 characters, the declared width of the column. What the database does with a longer title inserted directly is not modelled.
- Titles and contents are sequences of characters. Python's `len` counts code points, and no encoding is modelled.
