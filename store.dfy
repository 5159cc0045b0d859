/**
 * The note store and the five views of notes/views.py as methods on it.
 * `notes` is the Note table keyed by id, `updates` the NoteUpdate table in
 * the order rows were written, `clock` the logical clock that stamps each
 * new NoteUpdate, and `nextId` the next id the Note table hands out.
 * The requester is an explicit argument; user lookup by username is a map
 * given to shareNote.
 */
module Store {
  import opened Wrappers
  import opened Models
  import opened Rules

  /**
   * How the Note table may change between two states: no note disappears,
   * owner and title never change, and the shared-with set never shrinks.
   */
  predicate Evolves(before: map<NoteId, Note>, after: map<NoteId, Note>) {
    forall id :: id in before ==>
      && id in after
      && after[id].owner == before[id].owner
      && after[id].title == before[id].title
      && before[id].sharedWith <= after[id].sharedWith
  }

  /** Every note that has a history holds the content of its latest snapshot. */
  predicate Synced(notes: map<NoteId, Note>, log: seq<NoteUpdate>) {
    forall id :: id in notes && HistoryOf(log, id) != [] ==>
      HistoryOf(log, id)[|HistoryOf(log, id)| - 1].content == notes[id].content
  }

  /** Appending a snapshot of `c` and writing `c` into the note keeps every note in step with its latest snapshot. */
  lemma SyncedAfterWrite(notes: map<NoteId, Note>, log: seq<NoteUpdate>, id: NoteId, c: string, t: nat)
    requires Synced(notes, log) && id in notes
    ensures Synced(notes[id := notes[id].(content := c)], log + [NoteUpdate(id, c, t)])
  {
    var notes' := notes[id := notes[id].(content := c)];
    var log' := log + [NoteUpdate(id, c, t)];
    forall other | other in notes' && HistoryOf(log', other) != []
      ensures HistoryOf(log', other)[|HistoryOf(log', other)| - 1].content == notes'[other].content
    {
      HistoryOfAppend(log, NoteUpdate(id, c, t), other);
    }
  }

  /** Changing only who a note is shared with keeps every note in step with its latest snapshot. */
  lemma SyncedAfterShare(notes: map<NoteId, Note>, log: seq<NoteUpdate>, id: NoteId, s: set<UserId>)
    requires Synced(notes, log) && id in notes
    ensures Synced(notes[id := notes[id].(sharedWith := s)], log)
  {
  }

  class NoteStore {
    var notes: map<NoteId, Note>
    var updates: seq<NoteUpdate>
    var clock: nat
    var nextId: NoteId

    /** Structural invariant: ids below `nextId`, well-formed notes, every NoteUpdate points at a note and is older than the clock. */
    ghost predicate Valid()
      reads this
    {
      && (forall id :: id in notes ==> id < nextId && WellFormed(notes[id]))
      && (forall k :: 0 <= k < |updates| ==> updates[k].note in notes && updates[k].timestamp < clock)
      && Increasing(updates)
    }

    /** A note with a history holds the content of its latest snapshot. */
    ghost predicate Consistent()
      reads this
    {
      Synced(notes, updates)
    }

    constructor ()
      ensures Valid() && Consistent()
      ensures notes == map[] && updates == [] && clock == 0 && nextId == 1
    {
      notes := map[];
      updates := [];
      clock := 0;
      nextId := 1;
    }

    /** `Note.objects.create`: a new row with a fresh id, nothing shared and no history. */
    method InsertNote(title: string, content: string, owner: UserId) returns (id: NoteId)
      requires Valid() && Consistent()
      requires |title| <= MaxTitleLength
      modifies this
      ensures Valid() && Consistent()
      ensures id !in old(notes)
      ensures notes == old(notes)[id := Note(title, content, owner, {})]
      ensures updates == old(updates) && clock == old(clock)
      ensures id == old(nextId) && nextId == old(nextId) + 1
      ensures HistoryOf(updates, id) == []
    {
      id := nextId;
      HistoryOfUnreferenced(updates, id);
      notes := notes[id := Note(title, content, owner, {})];
      nextId := nextId + 1;
    }

    /** `NoteUpdate.objects.create`: append a snapshot of `content` for note `id`, stamped with the clock. */
    method AppendUpdate(id: NoteId, content: string)
      requires Valid() && id in notes
      modifies this
      ensures Valid()
      ensures notes == old(notes) && nextId == old(nextId)
      ensures updates == old(updates) + [NoteUpdate(id, content, old(clock))]
      ensures clock == old(clock) + 1
      ensures forall k :: 0 <= k < |old(updates)| ==> old(updates)[k].timestamp < updates[|updates| - 1].timestamp
    {
      var u := NoteUpdate(id, content, clock);
      updates := updates + [u];
      clock := clock + 1;
    }

    /**
     * The content write that follows a snapshot (`Note.objects.update`),
     * restricted to the edited note: every other note keeps its content.
     */
    method WriteContent(id: NoteId, content: string)
      requires Valid() && id in notes
      modifies this
      ensures Valid()
      ensures notes == old(notes)[id := old(notes)[id].(content := content)]
      ensures updates == old(updates) && clock == old(clock) && nextId == old(nextId)
    {
      notes := notes[id := notes[id].(content := content)];
    }

    /** `note.shared_with.add(user)`: add one user to a note's shared-with set. */
    method AddShare(id: NoteId, user: UserId)
      requires Valid() && Consistent()
      requires id in notes && user != notes[id].owner
      modifies this
      ensures Valid() && Consistent()
      ensures notes == old(notes)[id := old(notes)[id].(sharedWith := old(notes)[id].sharedWith + {user})]
      ensures updates == old(updates) && clock == old(clock) && nextId == old(nextId)
    {
      WellFormedKept(notes[id], notes[id].content, user);
      SyncedAfterShare(notes, updates, id, notes[id].sharedWith + {user});
      notes := notes[id := notes[id].(sharedWith := notes[id].sharedWith + {user})];
    }

    /**
     * create_note: validate, insert the note owned by the requester and
     * record its first snapshot. A failed validation creates nothing.
     */
    method CreateNote(requester: UserId, title: Option<string>, content: Option<string>) returns (r: Result<NoteId, Error>)
      requires Valid() && Consistent()
      modifies this
      ensures Valid() && Consistent()
      ensures r.Failure? <==> CreateInputError(title, content).Some?
      ensures r.Failure? ==> Some(r.error) == CreateInputError(title, content) && unchanged(this)
      ensures r.Success? ==>
                && r.value !in old(notes)
                && notes == old(notes)[r.value := Note(title.value, content.value, requester, {})]
                && updates == old(updates) + [NoteUpdate(r.value, content.value, old(clock))]
                && HistoryOf(updates, r.value) == [NoteUpdate(r.value, content.value, old(clock))]
                && r.value == old(nextId) && nextId == old(nextId) + 1 && clock == old(clock) + 1
      ensures Evolves(old(notes), notes) && old(updates) <= updates
    {
      var e := CreateInputError(title, content);
      if e.Some? {
        return Failure(e.value);
      }
      var id := InsertNote(title.value, content.value, requester);
      ghost var u := NoteUpdate(id, content.value, clock);
      assert Synced(notes, updates + [u]) && HistoryOf(updates + [u], id) == [u] by {
        HistoryOfAppend(updates, u, id);
        SyncedAfterWrite(notes, updates, id, content.value, clock);
        assert notes[id := notes[id].(content := content.value)] == notes;
      }
      AppendUpdate(id, content.value);
      r := Success(id);
    }

    /** The GET branch of get_or_update_note: not-found first, then owner only. */
    method GetNote(requester: UserId, id: NoteId) returns (r: Result<NoteView, Error>)
      requires Valid()
      ensures id !in notes ==> r == Failure(NotFound)
      ensures id in notes && !IsOwner(notes[id], requester) ==> r == Failure(Forbidden)
      ensures id in notes && requester in notes[id].sharedWith ==> r == Failure(Forbidden)
      ensures r.Success? <==> id in notes && IsOwner(notes[id], requester)
      ensures r.Success? ==> r.value == NoteView(notes[id].title, notes[id].content)
    {
      if id !in notes {
        return Failure(NotFound);
      }
      var n := notes[id];
      if requester != n.owner {
        return Failure(Forbidden);
      }
      r := Success(NoteView(n.title, n.content));
    }

    /**
     * The PUT branch of get_or_update_note: not-found, then access, then the
     * content; on success one snapshot is appended and the content replaced.
     */
    method UpdateNote(requester: UserId, id: NoteId, content: Option<string>) returns (r: Outcome<Error>)
      requires Valid() && Consistent()
      modifies this
      ensures Valid() && Consistent()
      ensures id !in old(notes) ==> r == Fail(NotFound)
      ensures id in old(notes) && !HasAccess(old(notes)[id], requester) ==> r == Fail(Forbidden)
      ensures id in old(notes) && HasAccess(old(notes)[id], requester) && !Present(content) ==>
                r == Fail(InvalidInput(InvalidContent))
      ensures r.Pass? <==> id in old(notes) && HasAccess(old(notes)[id], requester) && Present(content)
      ensures r.Fail? ==> unchanged(this)
      ensures r.Pass? ==>
                && notes == old(notes)[id := old(notes)[id].(content := content.value)]
                && updates == old(updates) + [NoteUpdate(id, content.value, old(clock))]
                && nextId == old(nextId) && clock == old(clock) + 1
      ensures Evolves(old(notes), notes) && old(updates) <= updates
    {
      if id !in notes {
        return Fail(NotFound);
      }
      var n := notes[id];
      if requester != n.owner && requester !in n.sharedWith {
        return Fail(Forbidden);
      }
      if !Present(content) {
        return Fail(InvalidInput(InvalidContent));
      }
      ghost var u := NoteUpdate(id, content.value, clock);
      assert Synced(notes[id := n.(content := content.value)], updates + [u]) by {
        SyncedAfterWrite(notes, updates, id, content.value, clock);
      }
      AppendUpdate(id, content.value);
      WriteContent(id, content.value);
      r := Pass;
    }

    /**
     * share_note: not-found, then owner only; then the usernames are
     * processed by the share loop.
     */
    method ShareNote(requester: UserId, id: NoteId, usernames: seq<string>, directory: map<string, UserId>)
      returns (r: Outcome<Error>)
      requires Valid() && Consistent()
      modifies this
      ensures Valid() && Consistent()
      ensures id !in old(notes) ==> r == Fail(NotFound) && unchanged(this)
      ensures id in old(notes) && !IsOwner(old(notes)[id], requester) ==> r == Fail(Forbidden) && unchanged(this)
      ensures id in old(notes) && IsOwner(old(notes)[id], requester) ==>
                var s := ShareAll(old(notes)[id].sharedWith, requester, usernames, directory);
                && notes == old(notes)[id := old(notes)[id].(sharedWith := s.shared)]
                && (r.Pass? <==> s.error.None?)
                && (r.Fail? ==> s.error == Some(r.error))
      ensures updates == old(updates) && clock == old(clock) && nextId == old(nextId)
      ensures Evolves(old(notes), notes)
    {
      if id !in notes {
        return Fail(NotFound);
      }
      if requester != notes[id].owner {
        return Fail(Forbidden);
      }
      r := ShareEach(requester, id, usernames, directory);
    }

    /**
     * The loop of share_note, run for the owner: each username in turn is
     * resolved, refused when it is the requester or already shared, and
     * otherwise added. The first refusal ends the call and keeps the users
     * added before it.
     */
    method ShareEach(requester: UserId, id: NoteId, usernames: seq<string>, directory: map<string, UserId>)
      returns (r: Outcome<Error>)
      requires Valid() && Consistent()
      requires id in notes && notes[id].owner == requester
      modifies this
      ensures Valid() && Consistent()
      ensures var s := ShareAll(old(notes)[id].sharedWith, requester, usernames, directory);
                && notes == old(notes)[id := old(notes)[id].(sharedWith := s.shared)]
                && (r.Pass? <==> s.error.None?)
                && (r.Fail? ==> s.error == Some(r.error))
      ensures updates == old(updates) && clock == old(clock) && nextId == old(nextId)
    {
      ghost var start := notes[id].sharedWith;
      ghost var shared := start;
      var i := 0;
      while i < |usernames|
        invariant 0 <= i <= |usernames|
        invariant Valid() && Consistent()
        invariant notes == old(notes)[id := old(notes)[id].(sharedWith := shared)]
        invariant updates == old(updates) && clock == old(clock) && nextId == old(nextId)
        invariant ShareAll(start, requester, usernames, directory)
                  == ShareAll(shared, requester, usernames[i..], directory)
      {
        ShareAllAdvance(start, shared, requester, usernames, i, directory);
        var refusal := Verdict(notes[id].sharedWith, requester, usernames[i], directory);
        if refusal.Some? {
          return Fail(refusal.value);
        }
        AddShare(id, directory[usernames[i]]);
        shared := shared + {directory[usernames[i]]};
        i := i + 1;
      }
      r := Pass;
    }

    /**
     * get_note_history: not-found, then access; then every snapshot of the
     * note as content and timestamp, newest first.
     */
    method GetHistory(requester: UserId, id: NoteId) returns (r: Result<seq<Entry>, Error>)
      requires Valid() && Consistent()
      ensures id !in notes ==> r == Failure(NotFound)
      ensures id in notes && !HasAccess(notes[id], requester) ==> r == Failure(Forbidden)
      ensures r.Success? <==> id in notes && HasAccess(notes[id], requester)
      ensures r.Success? ==> r.value == NewestFirst(HistoryOf(updates, id))
      ensures r.Success? ==> |r.value| == |HistoryOf(updates, id)| && NewestToOldest(r.value)
      ensures r.Success? ==> forall u :: u in updates && u.note == id ==> AsEntry(u) in r.value
      ensures r.Success? && r.value != [] ==> r.value[0].content == notes[id].content
    {
      if id !in notes {
        return Failure(NotFound);
      }
      var n := notes[id];
      if requester != n.owner && requester !in n.sharedWith {
        return Failure(Forbidden);
      }
      var h := HistoryOf(updates, id);
      HistoryOfIncreasing(updates, id);
      NewestFirstOrdered(h);
      forall u | u in updates && u.note == id ensures AsEntry(u) in NewestFirst(h) {
        InHistoryOf(updates, id, u);
        NewestFirstHas(h, u);
      }
      r := Success(NewestFirst(h));
    }
  }
}
