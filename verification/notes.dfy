/** The notes handlers of backend/src/controllers/notesController.ts. Every
    handler runs behind the token gate, so it receives the authenticated
    caller's id. The note table is a sequence of rows; new rows get the next
    unused id, which stands for the database assigning a fresh one. */
module Notes {
  import opened Options
  import opened Text
  import opened Seqs
  import opened UserStore

  type NoteId = nat

  datatype Note = Note(id: NoteId, text: string, owner: UserId)

  datatype Table = Table(rows: seq<Note>, nextId: NoteId)

  /** Ids are distinct and all below the next one to hand out. */
  predicate Valid(t: Table)
  {
    && (forall i :: 0 <= i < |t.rows| ==> t.rows[i].id < t.nextId)
    && (forall i, j :: 0 <= i < j < |t.rows| ==> t.rows[i].id != t.rows[j].id)
  }

  datatype Reply =
    | Created(note: Note)
    | Deleted
    | Failed(status: int, error: string)

  function OwnedBy(caller: UserId): Note -> bool
  {
    (n: Note) => n.owner == caller
  }

  function NotId(id: NoteId): Note -> bool
  {
    (n: Note) => n.id != id
  }

  /** `createNote`. */
  function CreateNote(t: Table, caller: UserId, text: Option<string>): (r: (Reply, Table))
    ensures r.0 == Failed(400, "Text required") <==> !Truthy(text)
    ensures !Truthy(text) ==> r.1 == t
    ensures Truthy(text) ==>
      && r.0.Created?
      && r.0.note.owner == caller && r.0.note.text == text.value
      && r.1.rows == t.rows + [r.0.note]
      && (Valid(t) ==> forall i :: 0 <= i < |t.rows| ==> t.rows[i].id != r.0.note.id)
    ensures Valid(t) ==> Valid(r.1)
  {
    if !Truthy(text) then (Failed(400, "Text required"), t)
    else
      var note := Note(t.nextId, text.value, caller);
      var t' := Table(t.rows + [note], t.nextId + 1);
      assert forall i :: 0 <= i < |t.rows| ==> t'.rows[i] == t.rows[i];
      (Created(note), t')
  }

  /** `getNotes`: the caller's notes, in table order. */
  function GetNotes(t: Table, caller: UserId): (r: seq<Note>)
    ensures forall i :: 0 <= i < |r| ==> r[i] in t.rows && r[i].owner == caller
    ensures forall i :: 0 <= i < |t.rows| && t.rows[i].owner == caller ==> t.rows[i] in r
    ensures multiset(r) <= multiset(t.rows)
  {
    FilterSubMultiset(t.rows, OwnedBy(caller));
    Filter(t.rows, OwnedBy(caller))
  }

  /** The caller owns a note with this id. */
  predicate OwnsNote(t: Table, caller: UserId, id: NoteId)
  {
    exists i :: 0 <= i < |t.rows| && t.rows[i].id == id && t.rows[i].owner == caller
  }

  /** `deleteNote`: delete where both id and owner match; the database
      refuses a delete that matches no row, which the handler reports as a
      failure, the same whether the note is missing or someone else's. */
  function DeleteNote(t: Table, caller: UserId, id: NoteId): (r: (Reply, Table))
    ensures r.0 == Deleted <==> OwnsNote(t, caller, id)
    ensures r.0 != Deleted ==> r.0 == Failed(500, "Failed to delete note") && r.1 == t
    ensures r.0 == Deleted ==> forall i :: 0 <= i < |r.1.rows| ==> r.1.rows[i].id != id
    ensures r.0 == Deleted && Valid(t) ==>
      exists k :: 0 <= k < |t.rows| && t.rows[k].id == id && t.rows[k].owner == caller
        && r.1.rows == t.rows[..k] + t.rows[k + 1..]
    ensures r.1.nextId == t.nextId
    ensures Valid(t) ==> Valid(r.1)
  {
    if OwnsNote(t, caller, id) then
      var t' := t.(rows := Filter(t.rows, NotId(id)));
      DeleteRemovesOne(t, caller, id);
      (Deleted, t')
    else
      (Failed(500, "Failed to delete note"), t)
  }

  /** Dropping one row keeps a table valid. */
  lemma ValidWithout(t: Table, k: nat)
    requires Valid(t) && k < |t.rows|
    ensures Valid(t.(rows := t.rows[..k] + t.rows[k + 1..]))
  {
    var rest := t.rows[..k] + t.rows[k + 1..];
    forall i, j | 0 <= i < j < |rest|
      ensures rest[i].id != rest[j].id
    {
      var i0 := if i < k then i else i + 1;
      var j0 := if j < k then j else j + 1;
      assert rest[i] == t.rows[i0] && rest[j] == t.rows[j0];
    }
    forall i | 0 <= i < |rest|
      ensures rest[i].id < t.nextId
    {
      var i0 := if i < k then i else i + 1;
      assert rest[i] == t.rows[i0];
    }
  }

  /** In a valid table the row at `k` is the only one with its id. */
  lemma OnlyRowWithId(t: Table, k: nat)
    requires Valid(t) && k < |t.rows|
    ensures Filter(t.rows, NotId(t.rows[k].id)) == t.rows[..k] + t.rows[k + 1..]
  {
    var id := t.rows[k].id;
    forall i | 0 <= i < |t.rows| && i != k
      ensures NotId(id)(t.rows[i])
    {
      if i < k {
        assert t.rows[i].id != t.rows[k].id;
      } else {
        assert t.rows[k].id != t.rows[i].id;
      }
    }
    FilterDropsOne(t.rows, NotId(id), k);
  }

  /** In a valid table, removing the rows with an owned id removes exactly that row. */
  lemma DeleteRemovesOne(t: Table, caller: UserId, id: NoteId)
    requires OwnsNote(t, caller, id)
    ensures Valid(t) ==>
      && Valid(t.(rows := Filter(t.rows, NotId(id))))
      && exists k :: 0 <= k < |t.rows| && t.rows[k].id == id && t.rows[k].owner == caller
                     && Filter(t.rows, NotId(id)) == t.rows[..k] + t.rows[k + 1..]
  {
    if Valid(t) {
      var k :| 0 <= k < |t.rows| && t.rows[k].id == id && t.rows[k].owner == caller;
      OnlyRowWithId(t, k);
      ValidWithout(t, k);
    }
  }

  /** A created note appears at the end of its owner's list, and no one
      else's list changes. */
  lemma CreateThenList(t: Table, caller: UserId, text: string, other: UserId)
    requires text != ""
    ensures var r := CreateNote(t, caller, Some(text));
      && GetNotes(r.1, caller) == GetNotes(t, caller) + [r.0.note]
      && (other != caller ==> GetNotes(r.1, other) == GetNotes(t, other))
  {
    var r := CreateNote(t, caller, Some(text));
    var n := r.0.note;
    FilterAppend(t.rows, [n], OwnedBy(caller));
    FilterAppend(t.rows, [n], OwnedBy(other));
    assert [n][1..] == [];
  }

  /** Removing one of the caller's rows leaves every other user's list as it
      was and shortens the caller's by one. */
  lemma ListsWithout(t: Table, k: nat, caller: UserId, other: UserId)
    requires k < |t.rows| && t.rows[k].owner == caller
    ensures var t' := t.(rows := t.rows[..k] + t.rows[k + 1..]);
      && (other != caller ==> GetNotes(t', other) == GetNotes(t, other))
      && |GetNotes(t', caller)| + 1 == |GetNotes(t, caller)|
  {
    FilterWithout(t.rows, k, OwnedBy(other));
    FilterWithout(t.rows, k, OwnedBy(caller));
  }

  /** Deleting leaves every other user's list as it was; a successful delete
      shortens the caller's list by one, and no note with that id is left. */
  lemma DeleteThenList(t: Table, caller: UserId, id: NoteId, other: UserId)
    requires Valid(t)
    ensures var r := DeleteNote(t, caller, id);
      && (other != caller ==> GetNotes(r.1, other) == GetNotes(t, other))
      && (r.0 == Deleted ==> |GetNotes(r.1, caller)| + 1 == |GetNotes(t, caller)|)
      && (r.0 == Deleted ==> forall i :: 0 <= i < |GetNotes(r.1, caller)| ==> GetNotes(r.1, caller)[i].id != id)
  {
    var r := DeleteNote(t, caller, id);
    if r.0 == Deleted {
      var k :| 0 <= k < |t.rows| && t.rows[k].id == id && t.rows[k].owner == caller
        && r.1.rows == t.rows[..k] + t.rows[k + 1..];
      ListsWithout(t, k, caller, other);
    }
  }
}
