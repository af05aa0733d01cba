/** The `todos` table as an abstract in-memory store. */
module Tables {
  import opened Outcomes
  import opened Todos

  /** The rows of the table in storage's natural row order. */
  type Table = seq<Todo>

  /** The ids present in the table. */
  function Ids(t: Table): set<int> {
    set i | 0 <= i < |t| :: t[i].id
  }

  /** The table's key invariant: no id is held by two rows. */
  predicate UniqueIds(t: Table) {
    forall i, j :: 0 <= i < j < |t| ==> t[i].id != t[j].id
  }

  /** `a` is obtained from `b` by dropping rows, keeping the rest in order. */
  predicate IsSubsequence(a: Table, b: Table)
    decreases |b|
  {
    if |a| == 0 then true
    else if |b| == 0 then false
    else if a[0] == b[0] then IsSubsequence(a[1..], b[1..])
    else IsSubsequence(a, b[1..])
  }

  function Min(a: int, b: int): int {
    if a <= b then a else b
  }

  lemma IdsCons(t: Table)
    requires |t| > 0
    ensures Ids(t) == {t[0].id} + Ids(t[1..])
  {
  }

  /** A table has unique ids exactly when its first row's id does not
      recur and the rest has unique ids. */
  lemma UniqueIdsCons(t: Table)
    requires |t| > 0
    ensures UniqueIds(t) <==> t[0].id !in Ids(t[1..]) && UniqueIds(t[1..])
  {
  }

  /** Dropping the first row of a subsequence leaves a subsequence. */
  lemma {:induction false} SubsequenceDropFirst(a: Table, b: Table)
    requires |a| > 0 && IsSubsequence(a, b)
    ensures IsSubsequence(a[1..], b)
    decreases |b|, |a| + 1
  {
    if a[0] == b[0] {
      SubsequenceOfTail(a[1..], b);
    } else {
      SubsequenceDropFirst(a, b[1..]);
      SubsequenceOfTail(a[1..], b);
    }
  }

  /** A subsequence of a table's tail is a subsequence of the table. */
  lemma {:induction false} SubsequenceOfTail(a: Table, b: Table)
    requires |b| > 0 && IsSubsequence(a, b[1..])
    ensures IsSubsequence(a, b)
    decreases |b|, |a|
  {
    if |a| > 0 && a[0] == b[0] {
      SubsequenceDropFirst(a, b[1..]);
    }
  }

  /** Every row of a subsequence is a row of the table it was taken from. */
  lemma {:induction false} SubsequenceRows(a: Table, b: Table)
    requires IsSubsequence(a, b)
    ensures forall x :: x in a ==> x in b
    decreases |b|
  {
    if |a| > 0 {
      assert |b| > 0;
      if a[0] == b[0] {
        SubsequenceRows(a[1..], b[1..]);
        forall x | x in a ensures x in b {
          if x != a[0] {
            assert x in a[1..];
          }
        }
      } else {
        SubsequenceRows(a, b[1..]);
      }
    }
  }

  /** The index of the first row holding `id`, if any: the row a query
      filtered on `id` and limited to one result loads. */
  function IndexOf(t: Table, id: int): (r: Option<nat>)
    ensures r.None? <==> id !in Ids(t)
    ensures r.Some? ==> r.value < |t| && t[r.value].id == id
    ensures r.Some? ==> forall j :: 0 <= j < r.value ==> t[j].id != id
  {
    if |t| == 0 then None
    else if t[0].id == id then Some(0)
    else
      IdsCons(t);
      match IndexOf(t[1..], id)
      case None => None
      case Some(k) => Some(k + 1)
  }

  /** In a table with unique ids, the row holding `id` is the only one. */
  lemma IndexOfUnique(t: Table, id: int, i: int)
    requires UniqueIds(t)
    requires 0 <= i < |t| && t[i].id == id
    ensures IndexOf(t, id) == Some(i)
  {
  }

  /** The largest id in the table, or 0 when there is none. */
  function MaxId(t: Table): (m: int)
    ensures m >= 0
    ensures forall i :: 0 <= i < |t| ==> t[i].id <= m
  {
    if |t| == 0 then 0
    else
      var rest := MaxId(t[1..]);
      assert forall i :: 1 <= i < |t| ==> t[i] == t[1..][i - 1];
      if t[0].id > rest then t[0].id else rest
  }

  /** An id greater than every id in use, and at least 1. Such an id is
      always fresh, so an insert can always be given an id that no row
      holds. */
  function NextRowId(t: Table): (id: int)
    ensures id > 0
    ensures id !in Ids(t)
  {
    MaxId(t) + 1
  }
}
