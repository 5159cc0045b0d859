/**
 * The pure decisions taken by the note views (notes/views.py): input
 * validation, the access checks, and the username-by-username share loop
 * stated as a function of the shared-with set it starts from.
 */
module Rules {
  import opened Wrappers
  import opened Models

  /** Why an input was rejected (HTTP 400), one per message of the views. */
  datatype Reason = InvalidTitle | InvalidContent | TitleTooLong | SelfShare | AlreadyShared

  /** The errors the views return: 400, 404 and 403. */
  datatype Error = InvalidInput(reason: Reason) | NotFound | Forbidden

  /** A form or JSON field that is present and not the empty string (Python truthiness of a str). */
  predicate Present(s: Option<string>) {
    s.Some? && s.value != []
  }

  /**
   * The checks of create_note, in their order: title first, then content,
   * then the title length. None means the note may be created.
   */
  function CreateInputError(title: Option<string>, content: Option<string>): (e: Option<Error>)
    ensures e.None? <==> Present(title) && Present(content) && WellFormed(Note(title.value, content.value, 0, {}))
    ensures !Present(title) ==> e == Some(InvalidInput(InvalidTitle))
    ensures Present(title) && !Present(content) ==> e == Some(InvalidInput(InvalidContent))
    ensures Present(title) && Present(content) && |title.value| > MaxTitleLength ==> e == Some(InvalidInput(TitleTooLong))
  {
    if !Present(title) then Some(InvalidInput(InvalidTitle))
    else if !Present(content) then Some(InvalidInput(InvalidContent))
    else if |title.value| > MaxTitleLength then Some(InvalidInput(TitleTooLong))
    else None
  }

  /** The check for reading a note and for sharing it: the requester owns it. */
  predicate IsOwner(n: Note, requester: UserId)
    ensures IsOwner(n, requester) ==> HasAccess(n, requester)
  {
    requester == n.owner
  }

  /** The check for editing a note and for reading its history: owner or a shared user. */
  predicate HasAccess(n: Note, requester: UserId)
    ensures WellFormed(n) && HasAccess(n, requester) ==> (requester == n.owner <==> requester !in n.sharedWith)
  {
    requester == n.owner || requester in n.sharedWith
  }

  /** A shared user may edit the note and read its history, but may not read the note itself. */
  lemma SharedUserEditsButCannotRead(n: Note, u: UserId)
    requires WellFormed(n) && u in n.sharedWith
    ensures HasAccess(n, u) && !IsOwner(n, u)
  {
  }

  /** The three checks applied to one username inside the share loop, in their order. */
  function Verdict(shared: set<UserId>, requester: UserId, name: string, directory: map<string, UserId>): (e: Option<Error>)
    ensures e.None? <==> name in directory && directory[name] != requester && directory[name] !in shared
    ensures name !in directory ==> e == Some(NotFound)
    ensures name in directory && directory[name] == requester ==> e == Some(InvalidInput(SelfShare))
    ensures name in directory && directory[name] != requester && directory[name] in shared ==>
              e == Some(InvalidInput(AlreadyShared))
  {
    if name !in directory then Some(NotFound)
    else if directory[name] == requester then Some(InvalidInput(SelfShare))
    else if directory[name] in shared then Some(InvalidInput(AlreadyShared))
    else None
  }

  /** The users the listed names resolve to. */
  function Resolved(names: seq<string>, directory: map<string, UserId>): set<UserId> {
    if names == [] then {}
    else (if names[0] in directory then {directory[names[0]]} else {}) + Resolved(names[1..], directory)
  }

  /** A user is resolved from the list exactly when some listed name maps to them. */
  lemma {:induction false} InResolved(names: seq<string>, directory: map<string, UserId>, u: UserId)
    ensures u in Resolved(names, directory) <==>
              exists i :: 0 <= i < |names| && names[i] in directory && directory[names[i]] == u
  {
    if names != [] {
      InResolved(names[1..], directory, u);
      if exists i :: 0 <= i < |names| && names[i] in directory && directory[names[i]] == u {
        var i :| 0 <= i < |names| && names[i] in directory && directory[names[i]] == u;
        if i > 0 { assert names[1..][i - 1] == names[i]; }
      }
      if exists i :: 0 <= i < |names[1..]| && names[1..][i] in directory && directory[names[1..][i]] == u {
        var i :| 0 <= i < |names[1..]| && names[1..][i] in directory && directory[names[1..][i]] == u;
        assert names[i + 1] == names[1..][i];
      }
    }
  }

  /** Shared-with set and error after the share loop. */
  datatype ShareResult = ShareResult(shared: set<UserId>, error: Option<Error>)

  /**
   * The share loop run by the owner from the set `shared`: each name in turn
   * is checked and added; the first name that fails ends the loop and keeps
   * what was added before it.
   */
  function ShareAll(shared: set<UserId>, requester: UserId, names: seq<string>, directory: map<string, UserId>): (r: ShareResult)
    ensures shared <= r.shared
    ensures requester !in shared ==> requester !in r.shared
    decreases |names|
  {
    if names == [] then ShareResult(shared, None)
    else
      var e := Verdict(shared, requester, names[0], directory);
      if e.Some? then ShareResult(shared, e)
      else ShareAll(shared + {directory[names[0]]}, requester, names[1..], directory)
  }

  /** One turn of the share loop: the first name's verdict either ends the call or adds its user and moves on. */
  lemma ShareAllStep(shared: set<UserId>, requester: UserId, names: seq<string>, directory: map<string, UserId>)
    requires names != []
    ensures var e := Verdict(shared, requester, names[0], directory);
            ShareAll(shared, requester, names, directory)
            == if e.Some? then ShareResult(shared, e)
               else ShareAll(shared + {directory[names[0]]}, requester, names[1..], directory)
  {
  }

  /**
   * The share loop after i names, as the remaining recursion: the name at i
   * either ends the call with its verdict or adds its user and moves to i + 1.
   */
  lemma ShareAllAdvance(start: set<UserId>, cur: set<UserId>, requester: UserId, names: seq<string>, i: nat, directory: map<string, UserId>)
    requires i < |names|
    requires ShareAll(start, requester, names, directory) == ShareAll(cur, requester, names[i..], directory)
    ensures var e := Verdict(cur, requester, names[i], directory);
            if e.Some? then ShareAll(start, requester, names, directory) == ShareResult(cur, e)
            else ShareAll(start, requester, names, directory)
                 == ShareAll(cur + {directory[names[i]]}, requester, names[i + 1..], directory)
  {
    assert names[i..][0] == names[i] && names[i..][1..] == names[i + 1..];
    ShareAllStep(cur, requester, names[i..], directory);
  }

  /** A whole list that the share loop accepts: every name resolves, to someone else, not yet shared, no user twice. */
  predicate Shareable(shared: set<UserId>, requester: UserId, names: seq<string>, directory: map<string, UserId>) {
    && (forall i :: 0 <= i < |names| ==>
          names[i] in directory && directory[names[i]] != requester && directory[names[i]] !in shared)
    && (forall i, j :: 0 <= i < j < |names| && names[i] in directory && names[j] in directory ==>
          directory[names[i]] != directory[names[j]])
  }

  lemma ShareableStep(shared: set<UserId>, requester: UserId, names: seq<string>, directory: map<string, UserId>)
    requires names != []
    ensures Shareable(shared, requester, names, directory) <==>
              Verdict(shared, requester, names[0], directory).None? &&
              Shareable(shared + {directory[names[0]]}, requester, names[1..], directory)
  {
    if Shareable(shared, requester, names, directory) {
      var s' := shared + {directory[names[0]]};
      forall i | 0 <= i < |names[1..]|
        ensures names[1..][i] in directory && directory[names[1..][i]] != requester && directory[names[1..][i]] !in s'
      {
        assert names[1..][i] == names[i + 1];
      }
      forall i, j | 0 <= i < j < |names[1..]| && names[1..][i] in directory && names[1..][j] in directory
        ensures directory[names[1..][i]] != directory[names[1..][j]]
      {
        assert names[1..][i] == names[i + 1] && names[1..][j] == names[j + 1];
      }
    }
    if Verdict(shared, requester, names[0], directory).None? &&
       Shareable(shared + {directory[names[0]]}, requester, names[1..], directory) {
      forall i | 0 <= i < |names|
        ensures names[i] in directory && directory[names[i]] != requester && directory[names[i]] !in shared
      {
        if i > 0 { assert names[i] == names[1..][i - 1]; }
      }
      forall i, j | 0 <= i < j < |names| && names[i] in directory && names[j] in directory
        ensures directory[names[i]] != directory[names[j]]
      {
        assert names[j] == names[1..][j - 1];
        if i > 0 { assert names[i] == names[1..][i - 1]; }
      }
    }
  }

  /** The share loop succeeds exactly on a shareable list, and then every listed user has been added. */
  lemma {:induction false} ShareAllSucceeds(shared: set<UserId>, requester: UserId, names: seq<string>, directory: map<string, UserId>)
    ensures ShareAll(shared, requester, names, directory).error.None? <==> Shareable(shared, requester, names, directory)
    ensures ShareAll(shared, requester, names, directory).error.None? ==>
              ShareAll(shared, requester, names, directory).shared == shared + Resolved(names, directory)
    decreases |names|
  {
    if names != [] {
      ShareableStep(shared, requester, names, directory);
      if Verdict(shared, requester, names[0], directory).None? {
        ShareAllSucceeds(shared + {directory[names[0]]}, requester, names[1..], directory);
      }
    }
  }

  /**
   * Partial application: the loop stops at index `k`. The names before `k`
   * were all added; on failure `k` is the first name that failed and the
   * error is its verdict against what had been shared by then.
   */
  lemma {:induction false} ShareAllStopsAtFirstFailure(shared: set<UserId>, requester: UserId, names: seq<string>, directory: map<string, UserId>)
    returns (k: nat)
    ensures k <= |names|
    ensures ShareAll(shared, requester, names, directory).shared == shared + Resolved(names[..k], directory)
    ensures ShareAll(shared, requester, names, directory).error.None? <==> k == |names|
    ensures k < |names| ==>
              ShareAll(shared, requester, names, directory).error
              == Verdict(shared + Resolved(names[..k], directory), requester, names[k], directory)
    ensures k < |names| ==> ShareAll(shared, requester, names, directory).error.Some?
    ensures forall j :: 0 <= j < k ==>
              Verdict(shared + Resolved(names[..j], directory), requester, names[j], directory).None?
    decreases |names|
  {
    if names == [] {
      k := 0;
    } else {
      var e := Verdict(shared, requester, names[0], directory);
      if e.Some? {
        k := 0;
        assert names[..0] == [];
      } else {
        var u := directory[names[0]];
        var k' := ShareAllStopsAtFirstFailure(shared + {u}, requester, names[1..], directory);
        k := k' + 1;
        assert names[..k][0] == names[0];
        assert names[..k][1..] == names[1..][..k'];
        assert Resolved(names[..k], directory) == {u} + Resolved(names[1..][..k'], directory);
        if k < |names| {
          assert names[k] == names[1..][k'];
        }
        forall j | 0 <= j < k
          ensures Verdict(shared + Resolved(names[..j], directory), requester, names[j], directory).None?
        {
          if j == 0 {
            assert names[..0] == [];
          } else {
            assert names[..j][0] == names[0];
            assert names[..j][1..] == names[1..][..j - 1];
            assert Resolved(names[..j], directory) == {u} + Resolved(names[1..][..j - 1], directory);
            assert names[j] == names[1..][j - 1];
          }
        }
      }
    }
  }
}
