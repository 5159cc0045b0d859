/**
 * The URL tests of the notes app (tests/notes/url/test_notes.py) as clients
 * of the store: each fixture note is inserted directly, as the tests do,
 * and each method states what the test expects, derived from the views'
 * contracts and the model functions.
 */
module Scenarios {
  import opened Wrappers
  import opened Models
  import opened Rules
  import opened Store

  const John: UserId := 1
  const Ethan: UserId := 2

  /** The users table as a lookup from username to user id. */
  const Users: map<string, UserId> := map["johnwick" := John, "ethanhunt" := Ethan]

  /** The fixture of every test: one note owned by johnwick, inserted without a snapshot. */
  method Fixture() returns (store: NoteStore, id: NoteId)
    ensures fresh(store) && store.Valid() && store.Consistent()
    ensures id == 1
    ensures store.notes == map[id := Note("Test Note", "This is a test note.", John, {})]
    ensures store.updates == [] && store.clock == 0
  {
    store := new NoteStore();
    id := store.InsertNote("Test Note", "This is a test note.", John);
  }

  /** test_create_note, test_create_note_no_title, test_create_note_no_content. */
  method CreateScenarios() returns (ok: Result<NoteId, Error>, noTitle: Result<NoteId, Error>, noContent: Result<NoteId, Error>)
    ensures ok.Success?
    ensures noTitle == Failure(InvalidInput(InvalidTitle))
    ensures noContent == Failure(InvalidInput(InvalidContent))
  {
    var store, _ := Fixture();
    ok := store.CreateNote(John, Some("New Note"), Some("This is a new note."));
    noTitle := store.CreateNote(John, None, Some("This is a new note."));
    noContent := store.CreateNote(John, Some("New Note"), None);
  }

  /** A 200-character title is accepted and a 201-character one refused; the accepted note has one snapshot. */
  method TitleLengthBoundary() returns (at200: Result<NoteId, Error>, at201: Result<NoteId, Error>, history: Result<seq<Entry>, Error>)
    ensures at200.Success? && at201 == Failure(InvalidInput(TitleTooLong))
    ensures history == Success([Entry("body", 0)])
  {
    var t200: string := seq(200, _ => 'a');
    var t201: string := seq(201, _ => 'a');
    assert |t200| == 200 && |t201| == 201;
    var store := new NoteStore();
    at200 := store.CreateNote(John, Some(t200), Some("body"));
    at201 := store.CreateNote(John, Some(t201), Some("body"));
    assert store.updates == [NoteUpdate(at200.value, "body", 0)];
    assert HistoryOf(store.updates, at200.value) == [NoteUpdate(at200.value, "body", 0)];
    history := store.GetHistory(John, at200.value);
    assert NewestFirst([NoteUpdate(at200.value, "body", 0)]) == [Entry("body", 0)];
  }

  /** test_get_note, test_get_note_not_found, test_get_note_forbidden. */
  method GetScenarios() returns (own: Result<NoteView, Error>, missing: Result<NoteView, Error>, other: Result<NoteView, Error>)
    ensures own == Success(NoteView("Test Note", "This is a test note."))
    ensures missing == Failure(NotFound)
    ensures other == Failure(Forbidden)
  {
    var store, id := Fixture();
    own := store.GetNote(John, id);
    missing := store.GetNote(John, 3);
    other := store.GetNote(Ethan, id);
  }

  /** test_share_note, test_share_note_with_self, test_share_note_with_already_shared. */
  method ShareScenarios() returns (first: Outcome<Error>, self: Outcome<Error>, again: Outcome<Error>, shared: set<UserId>)
    ensures first == Pass && self == Fail(InvalidInput(SelfShare)) && again == Fail(InvalidInput(AlreadyShared))
    ensures shared == {Ethan}
  {
    var store, id := Fixture();
    first := store.ShareNote(John, id, ["ethanhunt"], Users);
    self := store.ShareNote(John, id, ["johnwick"], Users);
    again := store.ShareNote(John, id, ["ethanhunt"], Users);
    shared := store.notes[id].sharedWith;
  }

  /** A share call that fails on its second name keeps the user added by its first. */
  method PartialShare() returns (r: Outcome<Error>, shared: set<UserId>)
    ensures r == Fail(NotFound) && shared == {Ethan}
  {
    var store, id := Fixture();
    r := store.ShareNote(John, id, ["ethanhunt", "nobody"], Users);
    shared := store.notes[id].sharedWith;
  }

  /** test_update_note_forbidden, test_update_note_no_cotent: both are refused and the content stays. */
  method UpdateRefused() returns (forbidden: Outcome<Error>, empty: Outcome<Error>, content: string)
    ensures forbidden == Fail(Forbidden) && empty == Fail(InvalidInput(InvalidContent))
    ensures content == "This is a test note."
  {
    var store, id := Fixture();
    forbidden := store.UpdateNote(Ethan, id, Some("This is an updated note."));
    empty := store.UpdateNote(John, id, None);
    content := store.notes[id].content;
  }

  /** test_update_note: the owner's update replaces the content. */
  method UpdateByOwner() returns (ok: Outcome<Error>, content: string)
    ensures ok == Pass && content == "This is an updated note."
  {
    var store, id := Fixture();
    ok := store.UpdateNote(John, id, Some("This is an updated note."));
    content := store.notes[id].content;
  }

  /** test_get_note_history_no_update: a note inserted without a snapshot has an empty history. */
  method HistoryWithoutUpdate() returns (none: Result<seq<Entry>, Error>)
    ensures none == Success([])
  {
    var store, id := Fixture();
    none := store.GetHistory(John, id);
  }

  /** test_get_note_history: one update by the owner gives a history of one entry, the new content. */
  method HistoryAfterUpdate() returns (one: Result<seq<Entry>, Error>)
    ensures one.Success? && |one.value| == 1 && one.value[0].content == "This is an updated note."
  {
    var store, id := Fixture();
    var _ := store.UpdateNote(John, id, Some("This is an updated note."));
    assert HistoryOf(store.updates, id) == [NoteUpdate(id, "This is an updated note.", 0)];
    one := store.GetHistory(John, id);
  }

  /** test_get_note_history_forbidden: a user with no access is refused the history. */
  method HistoryForbidden() returns (other: Result<seq<Entry>, Error>)
    ensures other == Failure(Forbidden)
  {
    var store, id := Fixture();
    other := store.GetHistory(Ethan, id);
  }

  /** A shared user may edit the note and read its history. */
  method SharedUserEdits() returns (edit: Outcome<Error>, history: Result<seq<Entry>, Error>)
    ensures edit == Pass && history.Success? && |history.value| == 1
  {
    var store, id := Fixture();
    var _ := store.ShareNote(John, id, ["ethanhunt"], Users);
    edit := store.UpdateNote(Ethan, id, Some("Edited by a shared user."));
    assert HistoryOf(store.updates, id) == [NoteUpdate(id, "Edited by a shared user.", 0)];
    history := store.GetHistory(Ethan, id);
  }

  /** A shared user is refused reading the note itself and sharing it on. */
  method SharedUserRefused() returns (read: Result<NoteView, Error>, reshare: Outcome<Error>)
    ensures read == Failure(Forbidden) && reshare == Fail(Forbidden)
  {
    var store, id := Fixture();
    var _ := store.ShareNote(John, id, ["ethanhunt"], Users);
    read := store.GetNote(Ethan, id);
    reshare := store.ShareNote(Ethan, id, ["johnwick"], Users);
  }
}
