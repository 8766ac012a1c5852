/** The task table of `todo.db`, kept abstract: its contents are a sequence of
    rows in insertion order, and ids come from a counter that only grows.
    Create, delete-by-id and update-by-id are pure functions on that value;
    `DB.Find(&tasks)` reads `rows`. */
module Store {

  /** The `Task` record: id, title and description. */
  datatype Task = Task(id: nat, title: string, description: string)

  /** The table together with the id the next insert receives. */
  datatype Db = Db(rows: seq<Task>, nextId: nat)

  /** Every row's id was handed out before and no two rows share an id. */
  predicate WellFormed(db: Db) {
    (forall k :: 0 <= k < |db.rows| ==> db.rows[k].id < db.nextId)
    && (forall j, k :: 0 <= j < k < |db.rows| ==> db.rows[j].id != db.rows[k].id)
  }

  /** Some row carries `id`. */
  predicate HasId(rows: seq<Task>, id: nat) {
    exists k :: 0 <= k < |rows| && rows[k].id == id
  }

  /** `DB.Create(&task)`: the row is appended with a fresh id. */
  function Insert(db: Db, title: string, description: string): (r: Db)
    requires WellFormed(db)
    ensures WellFormed(r)
  {
    Db(db.rows + [Task(db.nextId, title, description)], db.nextId + 1)
  }

  /** Creating appends exactly one row, whose id no earlier row carries. */
  lemma InsertAppends(db: Db, title: string, description: string)
    requires WellFormed(db)
    ensures Insert(db, title, description).rows == db.rows + [Task(db.nextId, title, description)]
    ensures !HasId(db.rows, db.nextId)
  {
  }

  /** The rows whose id differs from `id`, in their order. */
  function RemoveId(rows: seq<Task>, id: nat): (r: seq<Task>)
    ensures |r| <= |rows|
    ensures forall t :: t in r <==> t in rows && t.id != id
    decreases |rows|
  {
    if rows == [] then []
    else if rows[0].id == id then RemoveId(rows[1..], id)
    else [rows[0]] + RemoveId(rows[1..], id)
  }

  /** `DB.Delete(&Task{}, "Id", id)`. */
  function DeleteById(db: Db, id: nat): (r: Db)
    requires WellFormed(db)
    ensures WellFormed(r)
    ensures !HasId(r.rows, id)
    ensures r.nextId == db.nextId
  {
    var rows := RemoveId(db.rows, id);
    assert forall k :: 0 <= k < |rows| ==> rows[k] in db.rows;
    assert forall k :: 0 <= k < |rows| ==> rows[k].id != id;
    assert WellFormed(Db(rows, db.nextId)) by { RemoveIdDistinct(db.rows, id); }
    Db(rows, db.nextId)
  }

  /** Distinct ids stay distinct after removal. */
  lemma {:induction false} RemoveIdDistinct(rows: seq<Task>, id: nat)
    requires forall j, k :: 0 <= j < k < |rows| ==> rows[j].id != rows[k].id
    ensures forall j, k :: 0 <= j < k < |RemoveId(rows, id)| ==>
      RemoveId(rows, id)[j].id != RemoveId(rows, id)[k].id
    decreases |rows|
  {
    if rows != [] {
      RemoveIdDistinct(rows[1..], id);
      var tail := RemoveId(rows[1..], id);
      if rows[0].id != id {
        var r := [rows[0]] + tail;
        forall j, k | 0 <= j < k < |r| ensures r[j].id != r[k].id {
          if j == 0 {
            assert r[k] == tail[k - 1] && tail[k - 1] in rows[1..];
          } else {
            assert r[j] == tail[j - 1] && r[k] == tail[k - 1];
          }
        }
      }
    }
  }

  /** Replaces title and description of the rows carrying `id`. */
  function ReplaceId(rows: seq<Task>, id: nat, title: string, description: string): (r: seq<Task>)
    ensures |r| == |rows|
    ensures forall k :: 0 <= k < |rows| ==>
      r[k] == (if rows[k].id == id then Task(id, title, description) else rows[k])
    decreases |rows|
  {
    if rows == [] then []
    else
      var head := if rows[0].id == id then Task(id, title, description) else rows[0];
      [head] + ReplaceId(rows[1..], id, title, description)
  }

  /** `DB.Find(&Task{}, "Id", id).Updates(Task{Title: title, Description: description})`. */
  function UpdateById(db: Db, id: nat, title: string, description: string): (r: Db)
    requires WellFormed(db)
    ensures WellFormed(r)
    ensures |r.rows| == |db.rows| && r.nextId == db.nextId
  {
    Db(ReplaceId(db.rows, id, title, description), db.nextId)
  }

  /** Deleting the id of row `i` removes exactly that row and keeps the others in order. */
  lemma {:induction false} DeleteAt(db: Db, i: nat)
    requires WellFormed(db) && i < |db.rows|
    ensures DeleteById(db, db.rows[i].id).rows == db.rows[..i] + db.rows[i + 1..]
  {
    RemoveOnly(db.rows, i);
  }

  /** Distinct ids in `rows` stay distinct in its tail. */
  lemma DistinctTail(rows: seq<Task>)
    requires rows != []
    requires forall j, k :: 0 <= j < k < |rows| ==> rows[j].id != rows[k].id
    ensures forall j, k :: 0 <= j < k < |rows[1..]| ==> rows[1..][j].id != rows[1..][k].id
    ensures !HasId(rows[1..], rows[0].id)
  {
  }

  lemma {:induction false} RemoveOnly(rows: seq<Task>, i: nat)
    requires i < |rows|
    requires forall j, k :: 0 <= j < k < |rows| ==> rows[j].id != rows[k].id
    ensures RemoveId(rows, rows[i].id) == rows[..i] + rows[i + 1..]
    decreases |rows|
  {
    var id := rows[i].id;
    DistinctTail(rows);
    if i == 0 {
      RemoveAbsent(rows[1..], id);
    } else {
      var tail := rows[1..];
      RemoveOnly(tail, i - 1);
      assert tail[i - 1] == rows[i];
      assert rows[0].id != id;
      assert RemoveId(rows, id) == [rows[0]] + (tail[..i - 1] + tail[i..]);
      assert [rows[0]] + tail[..i - 1] == rows[..i];
      assert tail[i..] == rows[i + 1..];
    }
  }

  /** Deleting an id no row carries changes nothing. */
  lemma {:induction false} RemoveAbsent(rows: seq<Task>, id: nat)
    requires !HasId(rows, id)
    ensures RemoveId(rows, id) == rows
    decreases |rows|
  {
    if rows != [] {
      assert rows[0].id != id;
      assert forall k :: 0 <= k < |rows[1..]| ==> rows[1..][k] == rows[k + 1];
      RemoveAbsent(rows[1..], id);
    }
  }

  /** Updating the id of row `i` rewrites exactly that row, keeping its id. */
  lemma UpdateAt(db: Db, i: nat, title: string, description: string)
    requires WellFormed(db) && i < |db.rows|
    ensures UpdateById(db, db.rows[i].id, title, description).rows
      == db.rows[i := Task(db.rows[i].id, title, description)]
  {
  }

  /** Ids are not reissued: a task created after the row at index `i` was
      deleted gets an id different from the deleted one. */
  lemma InsertAfterDeleteFresh(db: Db, i: nat, title: string, description: string)
    requires WellFormed(db) && i < |db.rows|
    ensures var d := DeleteById(db, db.rows[i].id);
      var c := Insert(d, title, description);
      c.rows[|d.rows|].id != db.rows[i].id
  {
  }

  /** Round trip: a task created and then updated reads back with the new text. */
  lemma CreateThenUpdate(db: Db, t: string, d: string, t': string, d': string)
    requires WellFormed(db)
    ensures var c := Insert(db, t, d);
      var id := c.rows[|db.rows|].id;
      UpdateById(c, id, t', d').rows == db.rows + [Task(id, t', d')]
  {
  }

  /** Round trip: deleting the task just created restores the previous rows. */
  lemma CreateThenDelete(db: Db, t: string, d: string)
    requires WellFormed(db)
    ensures var c := Insert(db, t, d);
      DeleteById(c, c.rows[|db.rows|].id).rows == db.rows
  {
    var c := Insert(db, t, d);
    DeleteAt(c, |db.rows|);
    assert c.rows[..|db.rows|] + c.rows[|db.rows| + 1..] == db.rows;
  }
}
