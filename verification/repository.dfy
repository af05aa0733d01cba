/** The todo repository: the five operations the service performs on the
    `todos` table, each a function from the table to its outcome and the
    table it leaves behind. */
module Repository {
  import opened Outcomes
  import opened Todos
  import opened Tables

  /** The most rows a listing returns. */
  const ListLimit: nat := 5

  /** The outcome of an operation together with the table afterwards. */
  datatype Step<+T> = Step(result: Result<T>, table: Table)

  // ---------------------------------------------------------------- get_all

  /** Reference definition of the listing's filter: every unchecked row,
      in table order. */
  function Unchecked(t: Table): (r: Table)
    ensures IsSubsequence(r, t)
  {
    if |t| == 0 then []
    else if t[0].isChecked then
      SubsequenceOfTail(Unchecked(t[1..]), t);
      Unchecked(t[1..])
    else [t[0]] + Unchecked(t[1..])
  }

  /** The filter keeps exactly the unchecked rows. */
  lemma {:induction false} UncheckedRows(t: Table)
    ensures forall x :: x in Unchecked(t) <==> x in t && !x.isChecked
  {
    if |t| > 0 {
      UncheckedRows(t[1..]);
      assert forall x :: x in t <==> x == t[0] || x in t[1..];
    }
  }

  /** The scan behind the listing query: walk the table in row order and
      keep unchecked rows until `limit` of them have been found. */
  function LoadUnchecked(t: Table, limit: nat): (r: Table)
    ensures |r| <= limit
    ensures forall i :: 0 <= i < |r| ==> !r[i].isChecked
    ensures IsSubsequence(r, t)
  {
    if |t| == 0 || limit == 0 then []
    else if t[0].isChecked then
      SubsequenceOfTail(LoadUnchecked(t[1..], limit), t);
      LoadUnchecked(t[1..], limit)
    else [t[0]] + LoadUnchecked(t[1..], limit - 1)
  }

  /** The scan yields exactly the first `limit` unchecked rows. */
  lemma {:induction false} LoadUncheckedIsPrefix(t: Table, limit: nat)
    ensures LoadUnchecked(t, limit) == Unchecked(t)[..Min(limit, |Unchecked(t)|)]
  {
    if |t| == 0 || limit == 0 {
      assert LoadUnchecked(t, limit) == [];
    } else if t[0].isChecked {
      LoadUncheckedIsPrefix(t[1..], limit);
      assert LoadUnchecked(t, limit) == LoadUnchecked(t[1..], limit);
      assert Unchecked(t) == Unchecked(t[1..]);
    } else {
      LoadUncheckedIsPrefix(t[1..], limit - 1);
      var u := Unchecked(t[1..]);
      var k := Min(limit - 1, |u|);
      assert LoadUnchecked(t, limit) == [t[0]] + u[..k];
      assert Unchecked(t) == [t[0]] + u;
      assert Min(limit, |u| + 1) == k + 1;
      assert ([t[0]] + u)[..k + 1] == [t[0]] + u[..k];
    }
  }

  /** `Todo::get_all`: the first five unchecked rows in table order. The
      table is left as it was. */
  function GetAll(t: Table): (s: Step<seq<Todo>>)
    ensures s.table == t
    ensures s.result.Ok?
    ensures |s.result.value| <= ListLimit
    ensures forall i :: 0 <= i < |s.result.value| ==> !s.result.value[i].isChecked
    ensures IsSubsequence(s.result.value, t)
    ensures s.result.value == Unchecked(t)[..Min(ListLimit, |Unchecked(t)|)]
  {
    LoadUncheckedIsPrefix(t, ListLimit);
    Step(Ok(LoadUnchecked(t, ListLimit)), t)
  }

  // ----------------------------------------------------------------- insert

  /** `Todo::insert`: store the payload as a new row under the id
      `newId` that storage picked for it, an id no row holds. */
  function Insert(t: Table, payload: InsertableTodo, newId: int): (s: Step<()>)
    requires newId !in Ids(t)
    ensures s.result == Ok(())
    ensures |s.table| == |t| + 1
    ensures s.table[..|t|] == t
    ensures s.table[|t|].id == newId
    ensures s.table[|t|].title == payload.title && s.table[|t|].body == payload.body
    ensures s.table[|t|].isChecked == payload.isChecked
    ensures Ids(s.table) == Ids(t) + {newId}
    ensures UniqueIds(t) ==> UniqueIds(s.table)
  {
    var t' := t + [FromPayload(payload, newId)];
    assert forall i :: 0 <= i < |t| ==> t'[i] == t[i];
    Step(Ok(()), t')
  }

  // ----------------------------------------------------------------- update

  /** The read step of `Todo::update`: the first row holding `id`. */
  function Fetch(t: Table, id: int): (r: Option<Todo>)
    ensures r.None? <==> id !in Ids(t)
    ensures r.Some? ==> r.value in t && r.value.id == id
    ensures r.Some? ==> IndexOf(t, id).Some? && r.value == t[IndexOf(t, id).value]
    ensures UniqueIds(t) ==> forall i :: 0 <= i < |t| && t[i].id == id ==> r == Some(t[i])
  {
    match IndexOf(t, id)
    case None => None
    case Some(i) => Some(t[i])
  }

  /** The write step of `Todo::update`: an UPDATE filtered on `id` that sets
      the three mutable columns of every matching row. */
  function SetColumns(t: Table, id: int, title: string, body: string, isChecked: bool): (r: Table)
    ensures |r| == |t|
    ensures forall i :: 0 <= i < |t| && t[i].id != id ==> r[i] == t[i]
    ensures forall i :: 0 <= i < |t| && t[i].id == id ==> r[i] == Todo(id, title, body, isChecked)
  {
    if |t| == 0 then []
    else
      var row := if t[0].id == id then t[0].(title := title, body := body, isChecked := isChecked) else t[0];
      var rest := SetColumns(t[1..], id, title, body, isChecked);
      assert forall i :: 1 <= i < |t| ==> t[i] == t[1..][i - 1];
      [row] + rest
  }

  /** A table keeps the ids of its rows when a write changes no id. */
  lemma SameIds(t: Table, t': Table)
    requires |t'| == |t|
    requires forall i :: 0 <= i < |t| ==> t'[i].id == t[i].id
    ensures Ids(t') == Ids(t)
    ensures UniqueIds(t) ==> UniqueIds(t')
  {
  }

  /** `Todo::update`: read the row holding `todoId`, merge the patch over
      it, and write the merged columns back. A missing row is an error and
      leaves the table as it was. */
  function Update(t: Table, todoId: int, patch: EditableTodo): (s: Step<()>)
    ensures s.result.Err? <==> todoId !in Ids(t)
    ensures s.result.Err? ==> s.result.error == NotFound(todoId) && s.table == t
    ensures s.result.Ok? ==> s.result.value == ()
    ensures |s.table| == |t|
    ensures forall i :: 0 <= i < |t| && t[i].id != todoId ==> s.table[i] == t[i]
    ensures forall i :: 0 <= i < |t| && t[i].id == todoId ==> s.table[i] == Merge(Fetch(t, todoId).value, patch)
    ensures UniqueIds(t) ==> forall i :: 0 <= i < |t| && t[i].id == todoId ==> s.table[i] == Merge(t[i], patch)
    ensures Ids(s.table) == Ids(t)
    ensures UniqueIds(t) ==> UniqueIds(s.table)
  {
    match Fetch(t, todoId)
    case None => Step(Err(NotFound(todoId)), t)
    case Some(stored) =>
      var merged := Merge(stored, patch);
      var t' := SetColumns(t, todoId, merged.title, merged.body, merged.isChecked);
      SameIds(t, t');
      Step(Ok(()), t')
  }

  /** Updating with a patch that supplies no field leaves the table as it
      was (given unique ids), whether or not the row exists. */
  lemma UpdateNoChanges(t: Table, todoId: int)
    requires UniqueIds(t)
    ensures Update(t, todoId, NoChanges).table == t
  {
  }

  /** Applying the same patch twice gives the same outcome and table as
      applying it once. */
  lemma UpdateIdempotent(t: Table, todoId: int, patch: EditableTodo)
    ensures var once := Update(t, todoId, patch);
            Update(once.table, todoId, patch) == once
  {
  }

  // ----------------------------------------------------------------- delete

  /** The number of rows holding `id`. */
  function Count(t: Table, id: int): (n: nat)
    ensures n <= |t|
  {
    if |t| == 0 then 0
    else (if t[0].id == id then 1 else 0) + Count(t[1..], id)
  }

  /** No row holds an id exactly when its count is zero. */
  lemma {:induction false} CountZero(t: Table, id: int)
    ensures Count(t, id) == 0 <==> id !in Ids(t)
  {
    if |t| > 0 {
      IdsCons(t);
      CountZero(t[1..], id);
    }
  }

  /** In a table with unique ids, an id is held by at most one row. */
  lemma {:induction false} CountUnique(t: Table, id: int)
    requires UniqueIds(t)
    ensures Count(t, id) == if id in Ids(t) then 1 else 0
  {
    if |t| > 0 {
      UniqueIdsCons(t);
      IdsCons(t);
      CountUnique(t[1..], id);
      CountZero(t[1..], id);
    }
  }

  /** The statement behind `Todo::delete`: drop every row holding `id` and
      keep the others in order. */
  function RemoveId(t: Table, id: int): (r: Table)
    ensures IsSubsequence(r, t)
    ensures forall i :: 0 <= i < |r| ==> r[i].id != id
    ensures |r| == |t| - Count(t, id)
  {
    if |t| == 0 then []
    else if t[0].id == id then
      SubsequenceOfTail(RemoveId(t[1..], id), t);
      RemoveId(t[1..], id)
    else
      [t[0]] + RemoveId(t[1..], id)
  }

  /** Removal keeps exactly the rows holding another id. */
  lemma {:induction false} RemoveIdRows(t: Table, id: int)
    ensures forall x :: x in RemoveId(t, id) <==> x in t && x.id != id
  {
    if |t| > 0 {
      RemoveIdRows(t[1..], id);
      assert forall x :: x in t <==> x == t[0] || x in t[1..];
    }
  }

  /** Removing rows keeps the ids unique. */
  lemma {:induction false} RemoveIdUnique(t: Table, id: int)
    requires UniqueIds(t)
    ensures UniqueIds(RemoveId(t, id))
  {
    if |t| > 0 {
      UniqueIdsCons(t);
      RemoveIdUnique(t[1..], id);
      if t[0].id != id {
        var rest := RemoveId(t[1..], id);
        RemoveIdRows(t[1..], id);
        var r := [t[0]] + rest;
        assert r[1..] == rest;
        forall x | x in Ids(rest) ensures x in Ids(t[1..]) {
          var k :| 0 <= k < |rest| && rest[k].id == x;
          assert rest[k] in t[1..];
          var m :| 0 <= m < |t[1..]| && t[1..][m] == rest[k];
        }
        UniqueIdsCons(r);
      }
    }
  }

  /** A table without a row holding `id` is its own result of removal. */
  lemma {:induction false} RemoveAbsent(t: Table, id: int)
    requires id !in Ids(t)
    ensures RemoveId(t, id) == t
  {
    if |t| > 0 {
      IdsCons(t);
      RemoveAbsent(t[1..], id);
    }
  }

  /** Removal takes exactly `id` out of the table's ids. */
  lemma RemoveIdIds(t: Table, id: int)
    ensures Ids(RemoveId(t, id)) == Ids(t) - {id}
  {
    var r := RemoveId(t, id);
    RemoveIdRows(t, id);
    forall x | x in Ids(t) - {id} ensures x in Ids(r) {
      var k :| 0 <= k < |t| && t[k].id == x;
      assert t[k] in t;
      var j :| 0 <= j < |r| && r[j] == t[k];
    }
    forall x | x in Ids(r) ensures x in Ids(t) - {id} {
      var k :| 0 <= k < |r| && r[k].id == x;
      assert r[k] in r;
      var j :| 0 <= j < |t| && t[j] == r[k];
    }
  }

  /** What removal does to a table with unique ids, and to a table without
      the id. */
  lemma RemoveIdFacts(t: Table, id: int)
    ensures Ids(RemoveId(t, id)) == Ids(t) - {id}
    ensures UniqueIds(t) && id in Ids(t) ==> |RemoveId(t, id)| == |t| - 1
    ensures UniqueIds(t) ==> UniqueIds(RemoveId(t, id))
    ensures id !in Ids(t) ==> RemoveId(t, id) == t
  {
    RemoveIdIds(t, id);
    if UniqueIds(t) {
      CountUnique(t, id);
      RemoveIdUnique(t, id);
    }
    if id !in Ids(t) {
      RemoveAbsent(t, id);
    }
  }

  /** `Todo::delete`: remove every row holding `todoId`. It succeeds
      whether or not such a row exists, and an absent id changes nothing. */
  function Delete(t: Table, todoId: int): (s: Step<()>)
    ensures s.result == Ok(())
    ensures IsSubsequence(s.table, t)
    ensures todoId !in Ids(s.table)
    ensures forall x :: x in t && x.id != todoId ==> x in s.table
    ensures Ids(s.table) == Ids(t) - {todoId}
    ensures |s.table| == |t| - Count(t, todoId)
    ensures UniqueIds(t) && todoId in Ids(t) ==> |s.table| == |t| - 1
    ensures todoId !in Ids(t) ==> s.table == t
    ensures UniqueIds(t) ==> UniqueIds(s.table)
  {
    RemoveIdFacts(t, todoId);
    RemoveIdRows(t, todoId);
    Step(Ok(()), RemoveId(t, todoId))
  }

  /** Deleting twice is the same as deleting once. */
  lemma DeleteIdempotent(t: Table, todoId: int)
    ensures Delete(Delete(t, todoId).table, todoId) == Delete(t, todoId)
  {
  }

  // ------------------------------------------------------------- delete_all

  /** `Todo::delete_all`: remove every row. */
  function DeleteAll(t: Table): (s: Step<()>)
    ensures s.result == Ok(())
    ensures Ids(s.table) == {}
    ensures forall x :: x !in s.table
  {
    Step(Ok(()), [])
  }

  /** After `delete_all`, a listing returns nothing. */
  lemma ListAfterDeleteAll(t: Table)
    ensures GetAll(DeleteAll(t).table).result == Ok([])
  {
  }
}
