/**
 * The content write of the PUT branch (notes/views.py:100) as written:
 * `Note.objects.update(id=note.id, content=new_content)` is an UPDATE over
 * the whole, unfiltered Note table that sets both the primary key and the
 * content of every row. The store in module Store performs the intended
 * write instead: only the edited note's content changes.
 */
module Findings {
  import opened Models
  import Store

  /** A row of the Note table with its primary key. */
  datatype Row = Row(id: NoteId, note: Note)

  /** The primary-key constraint of the Note table. */
  predicate UniqueIds(table: seq<Row>) {
    forall i, j :: 0 <= i < j < |table| ==> table[i].id != table[j].id
  }

  /** The UPDATE as written: it asks for every row to get id `target` and content `c`. */
  function UnfilteredUpdate(table: seq<Row>, target: NoteId, c: string): seq<Row> {
    seq(|table|, k requires 0 <= k < |table| => Row(target, table[k].note.(content := c)))
  }

  /** The intended UPDATE: only the row whose id is `target` gets content `c`. */
  function FilteredUpdate(table: seq<Row>, target: NoteId, c: string): (t: seq<Row>)
    ensures |t| == |table|
    ensures forall k :: 0 <= k < |t| ==> t[k].id == table[k].id
    ensures forall k :: 0 <= k < |t| && table[k].id != target ==> t[k] == table[k]
    ensures forall k :: 0 <= k < |t| && table[k].id == target ==> t[k].note == table[k].note.(content := c)
    ensures UniqueIds(table) ==> UniqueIds(t)
  {
    seq(|table|, k requires 0 <= k < |table| =>
      if table[k].id == target then Row(table[k].id, table[k].note.(content := c)) else table[k])
  }

  /**
   * With two or more notes stored, the written UPDATE would give two rows
   * the same primary key (the database refuses it) and would write `c`
   * into every other note as well.
   */
  lemma UnfilteredUpdateBreaksTable(table: seq<Row>, target: NoteId, c: string)
    requires |table| >= 2
    ensures !UniqueIds(UnfilteredUpdate(table, target, c))
    ensures forall k :: 0 <= k < |table| ==> UnfilteredUpdate(table, target, c)[k].note.content == c
  {
    var t := UnfilteredUpdate(table, target, c);
    assert t[0].id == t[1].id;
  }

  /** Two notes, the first edited: the second note's content is overwritten and the ids collide. */
  lemma UnfilteredUpdateCounterexample()
    ensures var before := [Row(1, Note("Test Note", "This is a test note.", 1, {})),
                           Row(2, Note("Other", "Untouched.", 2, {}))];
            var after := UnfilteredUpdate(before, 1, "This is an updated note.");
            && UniqueIds(before)
            && !UniqueIds(after)
            && after[1].note.content != before[1].note.content
            && FilteredUpdate(before, 1, "This is an updated note.")[1] == before[1]
  {
    var before := [Row(1, Note("Test Note", "This is a test note.", 1, {})),
                   Row(2, Note("Other", "Untouched.", 2, {}))];
    var after := UnfilteredUpdate(before, 1, "This is an updated note.");
    assert after[0].id == after[1].id;
    assert after[1].note.content == "This is an updated note.";
    assert before[1].note.content == "Untouched.";
    assert after[1].note.content[0] != before[1].note.content[0];
  }

  /**
   * The update view as written, on a store of two or more notes: the
   * snapshot of notes/views.py:99 is stored, then the UPDATE is refused, so
   * the note keeps its old content. Whenever the new content differs from
   * the old, the note no longer holds its latest snapshot.
   */
  lemma SnapshotWithoutWriteLosesSync(notes: map<NoteId, Note>, log: seq<NoteUpdate>, id: NoteId, c: string, t: nat)
    requires id in notes && c != notes[id].content
    ensures !Store.Synced(notes, log + [NoteUpdate(id, c, t)])
  {
    HistoryOfAppend(log, NoteUpdate(id, c, t), id);
  }

  /** With the edited note as the only row, the written UPDATE does what was intended. */
  lemma UnfilteredUpdateOnSingleNote(table: seq<Row>, target: NoteId, c: string)
    requires |table| == 1 && table[0].id == target
    ensures UnfilteredUpdate(table, target, c) == FilteredUpdate(table, target, c)
  {
  }
}
