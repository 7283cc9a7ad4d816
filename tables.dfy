/**
 * One table of the hosted database: rows keyed by a serial primary key `id`
 * that the database assigns on insert. Every operation here is the effect of
 * one successful statement (`insert`, `update().eq("id", …)`, `delete().eq("id", …)`).
 */
module Tables {
  datatype Table<R> = Table(rows: map<int, R>, nextId: int)

  /** Every existing key was handed out before `nextId`. */
  predicate Valid<R>(t: Table<R>) {
    forall k :: k in t.rows ==> k < t.nextId
  }

  function Empty<R>(): (t: Table<R>)
    ensures Valid(t) && t.rows == map[]
  {
    Table(map[], 1)
  }

  /** `insert(row)`: the row is stored under a fresh id; the id is returned. */
  function Insert<R>(t: Table<R>, row: R): (res: (Table<R>, int))
    requires Valid(t)
    ensures var (t', id) := res;
      && Valid(t')
      && id !in t.rows
      && t'.rows.Keys == t.rows.Keys + {id}
      && t'.rows[id] == row
      && (forall k :: k in t.rows ==> t'.rows[k] == t.rows[k])
  {
    (Table(t.rows[t.nextId := row], t.nextId + 1), t.nextId)
  }

  /** `insert(rows)` of an array in one statement: consecutive fresh ids, in input order. */
  function InsertAll<R>(t: Table<R>, rs: seq<R>): (t': Table<R>)
    requires Valid(t)
    ensures Valid(t')
    ensures t'.nextId == t.nextId + |rs|
    ensures forall k :: t.nextId <= k < t.nextId + |rs| ==> k !in t.rows
    ensures forall i :: 0 <= i < |rs| ==> t.nextId + i in t'.rows && t'.rows[t.nextId + i] == rs[i]
    ensures forall k :: k in t'.rows <==> (k in t.rows || t.nextId <= k < t.nextId + |rs|)
    ensures forall k :: k in t.rows ==> t'.rows[k] == t.rows[k]
    decreases |rs|
  {
    if rs == [] then t
    else
      var t1 := Insert(t, rs[0]).0;
      var t' := InsertAll(t1, rs[1..]);
      assert forall i :: 1 <= i < |rs| ==> rs[i] == rs[1..][i - 1];
      t'
  }

  /** `update(f).eq("id", id)`: at most the row with that id changes; a missing id changes nothing. */
  function Update<R>(t: Table<R>, id: int, row: R): (t': Table<R>)
    requires Valid(t)
    ensures Valid(t') && t'.nextId == t.nextId
    ensures t'.rows.Keys == t.rows.Keys
    ensures id in t.rows ==> t'.rows[id] == row
    ensures forall k :: k in t.rows && k != id ==> t'.rows[k] == t.rows[k]
  {
    if id in t.rows then Table(t.rows[id := row], t.nextId) else t
  }

  /** `delete().eq("id", id)`: exactly the row with that id disappears, if there is one. */
  function Delete<R>(t: Table<R>, id: int): (t': Table<R>)
    requires Valid(t)
    ensures Valid(t') && t'.nextId == t.nextId
    ensures t'.rows.Keys == t.rows.Keys - {id}
    ensures forall k :: k in t'.rows ==> t'.rows[k] == t.rows[k]
  {
    Table(t.rows - {id}, t.nextId)
  }

  /** Deleting the row an insert just created gives back the table's rows. */
  lemma DeleteUndoesInsert<R>(t: Table<R>, row: R)
    requires Valid(t)
    ensures Delete(Insert(t, row).0, Insert(t, row).1).rows == t.rows
  {
    var (t', id) := Insert(t, row);
    assert Delete(t', id).rows.Keys == t.rows.Keys;
  }
}
