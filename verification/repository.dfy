/** The generic repository every entity table goes through: insert, list,
    fetch by id, filtered update and filtered delete.  A table is a map from
    primary key to record; keys come from a serial counter, so every stored
    key lies below the next key to be handed out. */
module Repository {
  import opened Results
  import opened Exceptions

  /** A record together with its primary key, as the repository returns it. */
  datatype Row<R> = Row(id: nat, data: R)

  datatype TableRep<R> = TableRep(rows: map<nat, R>, nextId: nat)

  type Table<R> = t: TableRep<R> | forall k :: k in t.rows ==> k < t.nextId
    witness TableRep(map[], 0)

  /** A `filter_by(...)` condition, applied to a row's key and record. */
  type Filter<!R> = (nat, R) -> bool

  /** `filter_by(id=id)` */
  function ById<R>(id: nat): Filter<R> {
    (k: nat, _: R) => k == id
  }

  /** No condition at all. */
  function Everything<R>(): Filter<R> {
    (_: nat, _: R) => true
  }

  ghost predicate Matches<R>(t: Table<R>, keep: Filter<R>, k: nat) {
    k in t.rows && keep(k, t.rows[k])
  }

  /** `k` is the one and only row the condition selects. */
  ghost predicate OnlyMatch<R>(t: Table<R>, keep: Filter<R>, k: nat) {
    Matches(t, keep, k) && forall j :: Matches(t, keep, j) ==> j == k
  }

  ghost predicate NoMatch<R>(t: Table<R>, keep: Filter<R>) {
    forall k :: !Matches(t, keep, k)
  }

  /** The selected rows whose keys lie in [lo, hi), in key order. */
  function SelectFrom<R>(rows: map<nat, R>, keep: Filter<R>, lo: nat, hi: nat): seq<Row<R>>
    decreases hi - lo
  {
    if lo >= hi then []
    else
      var rest := SelectFrom(rows, keep, lo + 1, hi);
      if lo in rows && keep(lo, rows[lo]) then [Row(lo, rows[lo])] + rest else rest
  }

  ghost predicate Ascending<R>(out: seq<Row<R>>) {
    forall i, j :: 0 <= i < j < |out| ==> out[i].id < out[j].id
  }

  /** Every listed row is a selected row of the key range, listed in order. */
  lemma {:induction false} SelectFromSound<R>(rows: map<nat, R>, keep: Filter<R>, lo: nat, hi: nat)
    ensures var out := SelectFrom(rows, keep, lo, hi);
      && (forall i :: 0 <= i < |out| ==>
            && lo <= out[i].id < hi
            && out[i].id in rows
            && out[i].data == rows[out[i].id]
            && keep(out[i].id, out[i].data))
      && Ascending(out)
    decreases hi - lo
  {
    if lo < hi {
      SelectFromSound(rows, keep, lo + 1, hi);
    }
  }

  /** Every selected row of the key range is listed. */
  lemma {:induction false} SelectFromComplete<R>(rows: map<nat, R>, keep: Filter<R>, lo: nat, hi: nat, k: nat)
    requires lo <= k < hi && k in rows && keep(k, rows[k])
    ensures exists i :: 0 <= i < |SelectFrom(rows, keep, lo, hi)| && SelectFrom(rows, keep, lo, hi)[i].id == k
    decreases hi - lo
  {
    var out := SelectFrom(rows, keep, lo, hi);
    if k == lo {
      assert out[0].id == k;
    } else {
      SelectFromComplete(rows, keep, lo + 1, hi, k);
      var rest := SelectFrom(rows, keep, lo + 1, hi);
      var i :| 0 <= i < |rest| && rest[i].id == k;
      if lo in rows && keep(lo, rows[lo]) {
        assert out[i + 1] == rest[i];
      } else {
        assert out[i] == rest[i];
      }
    }
  }

  /** Keys listed in increasing order spread at least one apart. */
  lemma {:induction false} AscendingSpread<R>(out: seq<Row<R>>)
    requires |out| > 0 && Ascending(out)
    ensures out[|out| - 1].id >= out[0].id + |out| - 1
  {
    if |out| > 1 {
      AscendingSpread(out[1..]);
      assert out[1..][|out| - 2] == out[|out| - 1];
      assert out[0].id < out[1].id;
    }
  }

  /** `select(model).filter_by(...)`: every selected row once.  The queries
      carry no `order_by`, so the database may return rows in any order; the
      model fixes one, ascending key order. */
  function Select<R>(t: Table<R>, keep: Filter<R>): (out: seq<Row<R>>)
    ensures forall i :: 0 <= i < |out| ==>
      Matches(t, keep, out[i].id) && out[i].data == t.rows[out[i].id]
    ensures forall k :: Matches(t, keep, k) ==> exists i :: 0 <= i < |out| && out[i].id == k
    ensures Ascending(out)
  {
    SelectFromSound(t.rows, keep, 0, t.nextId);
    forall k | Matches(t, keep, k)
      ensures exists i :: 0 <= i < |SelectFrom(t.rows, keep, 0, t.nextId)| && SelectFrom(t.rows, keep, 0, t.nextId)[i].id == k
    {
      SelectFromComplete(t.rows, keep, 0, t.nextId, k);
    }
    SelectFrom(t.rows, keep, 0, t.nextId)
  }

  /** `result.scalars().one()` */
  function One<R>(hits: seq<Row<R>>): (r: Result<Row<R>, Failure>)
    ensures r.Ok? <==> |hits| == 1
    ensures r.Ok? ==> r.value == hits[0]
    ensures r.Err? ==> (r.error == NoResultFound <==> |hits| == 0)
    ensures r.Err? ==> r.error == NoResultFound || r.error == MultipleResultsFound
  {
    if |hits| == 0 then Err(NoResultFound)
    else if |hits| > 1 then Err(MultipleResultsFound)
    else Ok(hits[0])
  }

  /** How many rows a condition selects decides what `.one()` does. */
  lemma SelectCount<R>(t: Table<R>, keep: Filter<R>)
    ensures |Select(t, keep)| == 0 <==> NoMatch(t, keep)
    ensures |Select(t, keep)| == 1 ==> OnlyMatch(t, keep, Select(t, keep)[0].id)
    ensures forall k :: OnlyMatch(t, keep, k) ==> |Select(t, keep)| == 1
  {
    var sel := Select(t, keep);
    if |sel| > 0 {
      assert Matches(t, keep, sel[0].id);
    }
    if |sel| == 1 {
      forall j | Matches(t, keep, j) ensures j == sel[0].id {
        var i :| 0 <= i < |sel| && sel[i].id == j;
      }
    }
    forall k | OnlyMatch(t, keep, k) ensures |sel| == 1 {
      var i :| 0 <= i < |sel| && sel[i].id == k;
      assert forall n :: 0 <= n < |sel| ==> sel[n].id == k;
      AscendingSpread(sel);
    }
  }

  // ---------------------------------------------------------------------
  // The repository operations

  /** `create`: inserts one row under a fresh key and returns it. */
  function Create<R>(t: Table<R>, data: R): (r: (Table<R>, Row<R>))
    ensures r.1.id !in t.rows && r.1.data == data
    ensures r.0.rows == t.rows[r.1.id := data]
  {
    (TableRep(t.rows[t.nextId := data], t.nextId + 1), Row(t.nextId, data))
  }

  /** `get_all`: every stored row, one entry per row, in the model's key order. */
  function GetAll<R>(t: Table<R>): (out: seq<Row<R>>)
    ensures forall k :: k in t.rows <==> exists i :: 0 <= i < |out| && out[i].id == k
    ensures forall i :: 0 <= i < |out| ==> out[i].id in t.rows && out[i].data == t.rows[out[i].id]
    ensures forall i, j :: 0 <= i < j < |out| ==> out[i].id != out[j].id
  {
    var out := Select(t, Everything());
    assert forall k :: k in t.rows ==> Matches(t, Everything(), k);
    out
  }

  /** `get_by_id`: the row under `id`; `.one()` fails when there is none. */
  function GetById<R>(t: Table<R>, id: nat): (r: Result<Row<R>, Failure>)
    ensures r.Ok? <==> id in t.rows
    ensures r.Ok? ==> r.value == Row(id, t.rows[id])
    ensures r.Err? ==> r.error == NoResultFound
  {
    SelectCount(t, ById(id));
    assert id in t.rows ==> OnlyMatch(t, ById(id), id);
    One(Select(t, ById(id)))
  }

  /** `update(data, **filter_by)`: `patch` is applied to the single selected
      row.  Selecting no row or several rows makes `.one()` raise, and the
      session discards the statement. */
  function Update<R>(t: Table<R>, keep: Filter<R>, patch: R -> R): (r: Result<(Table<R>, Row<R>), Failure>)
    ensures r.Ok? <==> exists k :: OnlyMatch(t, keep, k)
    ensures r.Err? ==> (r.error == NoResultFound <==> NoMatch(t, keep))
    ensures r.Err? ==> r.error == NoResultFound || r.error == MultipleResultsFound
    ensures r.Ok? ==>
      var (t', row) := r.value;
      && OnlyMatch(t, keep, row.id)
      && row.data == patch(t.rows[row.id])
      && t'.rows == t.rows[row.id := row.data]
      && t'.nextId == t.nextId
  {
    SelectCount(t, keep);
    var hit :- One(Select(t, keep));
    var data := patch(hit.data);
    Ok((TableRep(t.rows[hit.id := data], t.nextId), Row(hit.id, data)))
  }

  /** `delete(**filter_by)`: removes the single selected row and returns it;
      no row or several rows make `.one()` raise. */
  function Delete<R>(t: Table<R>, keep: Filter<R>): (r: Result<(Table<R>, Row<R>), Failure>)
    ensures r.Ok? <==> exists k :: OnlyMatch(t, keep, k)
    ensures r.Err? ==> (r.error == NoResultFound <==> NoMatch(t, keep))
    ensures r.Err? ==> r.error == NoResultFound || r.error == MultipleResultsFound
    ensures r.Ok? ==>
      var (t', row) := r.value;
      && OnlyMatch(t, keep, row.id)
      && row.data == t.rows[row.id]
      && t'.rows == t.rows - {row.id}
  {
    SelectCount(t, keep);
    var hit :- One(Select(t, keep));
    Ok((TableRep(t.rows - {hit.id}, t.nextId), hit))
  }

  /** `update(id=id, data=record)` with a fully populated record: replaces
      the row under `id` and nothing else. */
  function ReplaceById<R>(t: Table<R>, id: nat, data: R): (r: Result<Table<R>, Failure>)
    ensures r.Ok? <==> id in t.rows
    ensures r.Err? ==> r.error == NoResultFound
    ensures r.Ok? ==> r.value.rows == t.rows[id := data] && r.value.nextId == t.nextId
  {
    assert id in t.rows ==> OnlyMatch(t, ById(id), id);
    assert id !in t.rows ==> NoMatch(t, ById(id));
    var u :- Update(t, ById(id), (_: R) => data);
    Ok(u.0)
  }

  /** `delete(id=id)`: removes the row under `id` and returns it. */
  function DeleteById<R>(t: Table<R>, id: nat): (r: Result<(Table<R>, Row<R>), Failure>)
    ensures r.Ok? <==> id in t.rows
    ensures r.Err? ==> r.error == NoResultFound
    ensures r.Ok? ==> r.value.1 == Row(id, t.rows[id]) && r.value.0.rows == t.rows - {id}
  {
    assert id in t.rows ==> OnlyMatch(t, ById(id), id);
    assert id !in t.rows ==> NoMatch(t, ById(id));
    Delete(t, ById(id))
  }

  /** Inserting leaves every earlier row as it was, and the inserted row is
      found again by its key. */
  lemma CreateThenGet<R>(t: Table<R>, data: R, k: nat)
    ensures GetById(Create(t, data).0, Create(t, data).1.id) == Ok(Create(t, data).1)
    ensures k in t.rows ==> GetById(Create(t, data).0, k) == GetById(t, k)
  {
  }

  /** Replacing a row is seen by the next fetch of that row and by no other. */
  lemma ReplaceThenGet<R>(t: Table<R>, id: nat, data: R, k: nat)
    requires ReplaceById(t, id, data).Ok?
    ensures GetById(ReplaceById(t, id, data).value, id) == Ok(Row(id, data))
    ensures k != id ==> GetById(ReplaceById(t, id, data).value, k) == GetById(t, k)
  {
  }

  /** Deleting a row makes it unreachable and leaves the other rows. */
  lemma DeleteThenGet<R>(t: Table<R>, id: nat, k: nat)
    requires DeleteById(t, id).Ok?
    ensures GetById(DeleteById(t, id).value.0, id).Err?
    ensures k != id ==> GetById(DeleteById(t, id).value.0, k) == GetById(t, k)
  {
  }
}
