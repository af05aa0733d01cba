/** The todo entity and the two request payloads built from it. */
module Todos {
  import opened Outcomes

  /** A persisted row of the `todos` table. */
  datatype Todo = Todo(id: int, title: string, body: string, isChecked: bool)

  /** The creation payload: every column except the storage-assigned id. */
  datatype InsertableTodo = InsertableTodo(title: string, body: string, isChecked: bool)

  /** The partial-update payload: an absent field means "keep the stored value". */
  datatype EditableTodo = EditableTodo(title: Option<string>, body: Option<string>, isChecked: Option<bool>)

  /** The patch that supplies no field at all. */
  const NoChanges: EditableTodo := EditableTodo(None, None, None)

  /** The row an insert stores once storage has assigned it the id `id`. */
  function FromPayload(payload: InsertableTodo, id: int): Todo {
    Todo(id, payload.title, payload.body, payload.isChecked)
  }

  /** The application-level merge of an update: each field of the patch
      that is present overrides the stored one, every absent field keeps
      the stored value, and the id is never touched. */
  function Merge(stored: Todo, patch: EditableTodo): (merged: Todo)
    ensures merged.id == stored.id
    ensures patch.title.Some? ==> merged.title == patch.title.value
    ensures patch.title.None? ==> merged.title == stored.title
    ensures patch.body.Some? ==> merged.body == patch.body.value
    ensures patch.body.None? ==> merged.body == stored.body
    ensures patch.isChecked.Some? ==> merged.isChecked == patch.isChecked.value
    ensures patch.isChecked.None? ==> merged.isChecked == stored.isChecked
  {
    stored.(title := patch.title.GetOr(stored.title),
            body := patch.body.GetOr(stored.body),
            isChecked := patch.isChecked.GetOr(stored.isChecked))
  }

  /** A patch without fields changes nothing. */
  lemma MergeNoChanges(stored: Todo)
    ensures Merge(stored, NoChanges) == stored
  {
  }

  /** Applying a patch a second time changes nothing more. */
  lemma MergeIdempotent(stored: Todo, patch: EditableTodo)
    ensures Merge(Merge(stored, patch), patch) == Merge(stored, patch)
  {
  }

  /** A patch that supplies every field determines the whole row except its id. */
  lemma MergeFullPatch(a: Todo, b: Todo, patch: EditableTodo)
    requires patch.title.Some? && patch.body.Some? && patch.isChecked.Some?
    requires a.id == b.id
    ensures Merge(a, patch) == Merge(b, patch)
  {
  }
}
