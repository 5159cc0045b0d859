/**
 * The records of the note store (notes/models.py): a Note row and the
 * NoteUpdate table, whose rows point at their note. The history of a note
 * is the sub-sequence of the NoteUpdate table that points at it.
 */
module Models {

  type UserId = nat
  type NoteId = nat

  /** Declared width of the title column. */
  const MaxTitleLength: nat := 200

  /** A row of the Note table. `owner` is set once; `sharedWith` is a set of users. */
  datatype Note = Note(title: string, content: string, owner: UserId, sharedWith: set<UserId>)

  /**
   * A row of the NoteUpdate table: the note it belongs to, a full copy of
   * that note's content (not a diff), and the logical time it was written.
   */
  datatype NoteUpdate = NoteUpdate(note: NoteId, content: string, timestamp: nat)

  /** One item of the history answer: content and timestamp only. */
  datatype Entry = Entry(content: string, timestamp: nat)

  /** The `{title, content}` body returned when a note is read. */
  datatype NoteView = NoteView(title: string, content: string)

  /** What every stored note satisfies: the title fits its column, the owner is not among the shared users. */
  predicate WellFormed(n: Note) {
    |n.title| <= MaxTitleLength && n.owner !in n.sharedWith
  }

  /** The two edits the views make to a stored note, a new content and one more shared user other than the owner, keep it well formed. */
  lemma WellFormedKept(n: Note, c: string, u: UserId)
    requires WellFormed(n) && u != n.owner
    ensures WellFormed(n.(content := c))
    ensures WellFormed(n.(sharedWith := n.sharedWith + {u}))
  {
  }

  /** One history item: the snapshot's content and timestamp, without the note reference. */
  function AsEntry(u: NoteUpdate): Entry {
    Entry(u.content, u.timestamp)
  }

  /** Timestamps strictly increase along the table (rows are appended with a rising logical clock). */
  predicate Increasing(log: seq<NoteUpdate>) {
    forall i, j :: 0 <= i < j < |log| ==> log[i].timestamp < log[j].timestamp
  }

  /** Timestamps strictly decrease along an answer: newest first. */
  predicate NewestToOldest(es: seq<Entry>) {
    forall i, j :: 0 <= i < j < |es| ==> es[i].timestamp > es[j].timestamp
  }

  /** The rows of the NoteUpdate table that point at note `id`, in the order they were written. */
  function HistoryOf(log: seq<NoteUpdate>, id: NoteId): (h: seq<NoteUpdate>)
    ensures |h| <= |log|
    ensures forall k :: 0 <= k < |h| ==> h[k].note == id
  {
    if log == [] then []
    else if log[0].note == id then [log[0]] + HistoryOf(log[1..], id)
    else HistoryOf(log[1..], id)
  }

  /** A history ordered by timestamp, newest first, projected to content and timestamp. */
  function NewestFirst(h: seq<NoteUpdate>): (es: seq<Entry>)
    ensures |es| == |h|
    ensures forall k :: 0 <= k < |es| ==> es[k] == AsEntry(h[|h| - 1 - k])
  {
    if h == [] then [] else [AsEntry(h[|h| - 1])] + NewestFirst(h[..|h| - 1])
  }

  /** A note's history is exactly the rows that point at it. */
  lemma {:induction false} InHistoryOf(log: seq<NoteUpdate>, id: NoteId, u: NoteUpdate)
    ensures u in HistoryOf(log, id) <==> u in log && u.note == id
  {
    if log != [] {
      InHistoryOf(log[1..], id, u);
      assert u in log <==> u == log[0] || u in log[1..];
    }
  }

  /** A note that no row points at has an empty history. */
  lemma {:induction false} HistoryOfUnreferenced(log: seq<NoteUpdate>, id: NoteId)
    requires forall k :: 0 <= k < |log| ==> log[k].note != id
    ensures HistoryOf(log, id) == []
  {
    if log != [] {
      HistoryOfUnreferenced(log[1..], id);
    }
  }

  /** Appending a row extends the history of its own note by that row and leaves every other history as it was. */
  lemma {:induction false} HistoryOfAppend(log: seq<NoteUpdate>, u: NoteUpdate, id: NoteId)
    ensures HistoryOf(log + [u], id) == HistoryOf(log, id) + (if u.note == id then [u] else [])
  {
    if log == [] {
      assert log + [u] == [u];
    } else {
      assert (log + [u])[0] == log[0];
      assert (log + [u])[1..] == log[1..] + [u];
      HistoryOfAppend(log[1..], u, id);
    }
  }

  /** Rows are only ever appended to the table, so each note's history is only ever extended. */
  lemma {:induction false} HistoryOfPrefix(log: seq<NoteUpdate>, log': seq<NoteUpdate>, id: NoteId)
    requires log <= log'
    ensures HistoryOf(log, id) <= HistoryOf(log', id)
  {
    if log != [] {
      assert log'[0] == log[0];
      assert log[1..] <= log'[1..];
      HistoryOfPrefix(log[1..], log'[1..], id);
    }
  }

  /** Filtering keeps the timestamp order of the table. */
  lemma {:induction false} HistoryOfIncreasing(log: seq<NoteUpdate>, id: NoteId)
    requires Increasing(log)
    ensures Increasing(HistoryOf(log, id))
  {
    if log != [] {
      assert Increasing(log[1..]) by {
        forall i, j | 0 <= i < j < |log[1..]|
          ensures log[1..][i].timestamp < log[1..][j].timestamp
        {
          assert log[1..][i] == log[i + 1] && log[1..][j] == log[j + 1];
        }
      }
      HistoryOfIncreasing(log[1..], id);
      var rest := HistoryOf(log[1..], id);
      if log[0].note == id {
        var h := [log[0]] + rest;
        forall i, j | 0 <= i < j < |h| ensures h[i].timestamp < h[j].timestamp {
          if i == 0 {
            InHistoryOf(log[1..], id, h[j]);
            var m :| 0 <= m < |log[1..]| && log[1..][m] == h[j];
            assert log[m + 1] == h[j];
          } else {
            assert h[i] == rest[i - 1] && h[j] == rest[j - 1];
          }
        }
      }
    }
  }

  /** Reversing a history whose timestamps increase lists it newest first. */
  lemma NewestFirstOrdered(h: seq<NoteUpdate>)
    requires Increasing(h)
    ensures NewestToOldest(NewestFirst(h))
  {
  }

  /** Every row of the history appears, projected, in the newest-first answer. */
  lemma NewestFirstHas(h: seq<NoteUpdate>, u: NoteUpdate)
    requires u in h
    ensures AsEntry(u) in NewestFirst(h)
  {
  }
}
