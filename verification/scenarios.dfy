/** Properties of sequences of repository operations, as a client of the
    service observes them. */
module Scenarios {
  import opened Outcomes
  import opened Todos
  import opened Tables
  import opened Repository

  /** Appending a row appends it to the filter exactly when it is unchecked. */
  lemma {:induction false} UncheckedAppend(t: Table, x: Todo)
    ensures Unchecked(t + [x]) == Unchecked(t) + (if x.isChecked then [] else [x])
  {
    if |t| == 0 {
      assert t + [x] == [x];
      assert [x][1..] == [];
    } else {
      UncheckedAppend(t[1..], x);
      assert (t + [x])[1..] == t[1..] + [x];
      assert (t + [x])[0] == t[0];
    }
  }

  /** A newly inserted unchecked row shows up in the next listing exactly
      when fewer than five unchecked rows precede it. */
  lemma InsertedRowListed(t: Table, payload: InsertableTodo, newId: int)
    requires newId !in Ids(t)
    requires !payload.isChecked
    ensures var row := FromPayload(payload, newId);
            row in GetAll(Insert(t, payload, newId).table).result.value
            <==> |Unchecked(t)| < ListLimit
  {
    var row := FromPayload(payload, newId);
    var t' := Insert(t, payload, newId).table;
    assert t' == t + [row];
    UncheckedAppend(t, row);
    var u := Unchecked(t);
    var listed := GetAll(t').result.value;
    assert listed == (u + [row])[..Min(ListLimit, |u| + 1)];
    if |u| < ListLimit {
      assert listed == u + [row];
      assert listed[|u|] == row;
    } else {
      UncheckedRows(t);
      assert row !in t by {
        forall k | 0 <= k < |t| ensures t[k] != row {
          assert t[k].id in Ids(t);
        }
      }
      assert listed == u[..ListLimit];
      assert forall y :: y in u[..ListLimit] ==> y in u;
    }
  }

  /** The patch that only marks a row as done. */
  const CheckOff: EditableTodo := EditableTodo(None, None, Some(true))

  /** Marking a row as done removes it from every later listing. */
  lemma CheckedRowNotListed(t: Table, todoId: int)
    ensures var t' := Update(t, todoId, CheckOff).table;
            forall x :: x in GetAll(t').result.value ==> x.id != todoId
  {
    var t' := Update(t, todoId, CheckOff).table;
    var listed := GetAll(t').result.value;
    SubsequenceRows(listed, t');
    forall x | x in listed ensures x.id != todoId {
      var k :| 0 <= k < |listed| && listed[k] == x;
      assert !x.isChecked;
      var i :| 0 <= i < |t'| && t'[i] == x;
      assert t'[i] == t[i];
    }
  }

  /** In a table with unique ids, marking a row as done changes nothing
      but that row's flag. */
  lemma CheckOffKeepsText(t: Table, todoId: int)
    requires UniqueIds(t)
    ensures var t' := Update(t, todoId, CheckOff).table;
            forall i :: 0 <= i < |t| ==>
              t'[i].id == t[i].id && t'[i].title == t[i].title && t'[i].body == t[i].body
    ensures var t' := Update(t, todoId, CheckOff).table;
            forall i :: 0 <= i < |t| ==> t'[i].isChecked == (t[i].isChecked || t[i].id == todoId)
  {
  }

  /** Insert `{"a", "b", unchecked}`, patch its body to `"c"`, and read the
      row back: it holds title `"a"`, body `"c"` and is still unchecked. */
  lemma PatchRoundTrip(t: Table, newId: int)
    requires newId !in Ids(t)
    ensures var t1 := Insert(t, InsertableTodo("a", "b", false), newId).table;
            var s := Update(t1, newId, EditableTodo(None, Some("c"), None));
            s.result == Ok(()) && Fetch(s.table, newId) == Some(Todo(newId, "a", "c", false))
  {
  }

  /** Removing an id distributes over appending a row. */
  lemma {:induction false} RemoveIdAppend(t: Table, x: Todo, id: int)
    ensures RemoveId(t + [x], id) == RemoveId(t, id) + (if x.id == id then [] else [x])
  {
    if |t| == 0 {
      assert t + [x] == [x];
      assert [x][1..] == [];
    } else {
      var tail := if x.id == id then [] else [x];
      RemoveIdAppend(t[1..], x, id);
      assert (t + [x])[1..] == t[1..] + [x];
      if t[0].id == id {
        assert RemoveId(t + [x], id) == RemoveId(t[1..] + [x], id);
      } else {
        var rest := RemoveId(t[1..], id);
        assert RemoveId(t + [x], id) == [t[0]] + (rest + tail);
        assert [t[0]] + (rest + tail) == ([t[0]] + rest) + tail;
      }
    }
  }

  /** Deleting the row an insert just created gives back the table from
      before the insert. */
  lemma DeleteUndoesInsert(t: Table, payload: InsertableTodo, newId: int)
    requires newId !in Ids(t)
    ensures Delete(Insert(t, payload, newId).table, newId).table == t
  {
    var row := FromPayload(payload, newId);
    assert Insert(t, payload, newId).table == t + [row];
    RemoveIdAppend(t, row, newId);
    RemoveIdFacts(t, newId);
  }

  /** Reading a row back after patching it gives the stored row merged
      with the patch. */
  lemma FetchAfterUpdate(t: Table, todoId: int, patch: EditableTodo)
    requires todoId in Ids(t)
    ensures Fetch(Update(t, todoId, patch).table, todoId) == Some(Merge(Fetch(t, todoId).value, patch))
  {
  }
}
