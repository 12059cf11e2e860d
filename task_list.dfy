/**
 * The task records of the to-do list and the pure list transformations its
 * handlers are built from: the `map` that flips a status, the `map` that
 * writes back an edited copy, the `filter` that deletes by id, and the
 * `filter(...).length` that counts completed tasks.
 */
module TaskList {

  /** A task record `{id, name, status}`; `status` is true once completed.
      The id is a millisecond timestamp in the component. */
  datatype Task = Task(id: int, name: string, status: bool)

  /** A slot that holds a task or `null`. */
  datatype Option<T> = None | Some(value: T)

  /** Some entry of the list carries `id`. */
  predicate HasId(todo: seq<Task>, id: int)
  {
    exists i | 0 <= i < |todo| :: todo[i].id == id
  }

  /** No two entries share an id (the list renders them as React keys). */
  ghost predicate DistinctIds(todo: seq<Task>)
  {
    forall i, j | 0 <= i < j < |todo| :: todo[i].id != todo[j].id
  }

  /** The list with the completion flag inverted on every entry that
      carries `id`, each other entry kept as it is, in the same order
      (src/todolist.jsx:36-38). */
  function Toggle(todo: seq<Task>, id: int): (r: seq<Task>)
    ensures |r| == |todo|
    ensures forall i | 0 <= i < |todo| ::
      r[i].id == todo[i].id && r[i].name == todo[i].name &&
      r[i].status == (if todo[i].id == id then !todo[i].status else todo[i].status)
  {
    if todo == [] then []
    else
      var head := if todo[0].id == id then todo[0].(status := !todo[0].status) else todo[0];
      [head] + Toggle(todo[1..], id)
  }

  /** The list with every entry that carries the copy's id replaced by the
      whole copy and every other entry kept, in the same order
      (src/todolist.jsx:62-64). */
  function Replace(todo: seq<Task>, current: Task): (r: seq<Task>)
    ensures |r| == |todo|
    ensures forall i | 0 <= i < |todo| ::
      r[i].id == todo[i].id &&
      (todo[i].id == current.id ==> r[i] == current) &&
      (todo[i].id != current.id ==> r[i] == todo[i])
  {
    if todo == [] then []
    else
      var head := if todo[0].id == current.id then current else todo[0];
      [head] + Replace(todo[1..], current)
  }

  /** Keeps, in order, the entries whose id differs from `id`
      (src/todolist.jsx:81). */
  function RemoveId(todo: seq<Task>, id: int): (r: seq<Task>)
    ensures |r| <= |todo|
    ensures forall i | 0 <= i < |r| :: r[i].id != id
  {
    if todo == [] then []
    else if todo[0].id != id then [todo[0]] + RemoveId(todo[1..], id)
    else RemoveId(todo[1..], id)
  }

  /** How many entries are marked completed (src/todolist.jsx:17). */
  function CountCompleted(todo: seq<Task>): (n: nat)
    ensures n <= |todo|
  {
    if todo == [] then 0
    else (if todo[0].status then 1 else 0) + CountCompleted(todo[1..])
  }

  /** The line shown under the list. */
  datatype Summary = Hidden | AllCompleted | CompletedCount(count: nat)

  /** The summary block: hidden for an empty list, otherwise the "all
      completed" message when the count equals the length, else the count. */
  function SummaryOf(length: nat, completed: nat): (s: Summary)
    ensures s == Hidden <==> length == 0
    ensures s == AllCompleted <==> length > 0 && completed == length
    ensures s.CompletedCount? ==> s.count == completed && completed != length
  {
    if length > 0 then
      if completed == length && length > 0 then AllCompleted else CompletedCount(completed)
    else Hidden
  }

  // ---------------------------------------------------------------------
  // Toggle

  /** Flipping the same id twice restores the list. */
  lemma {:induction false} ToggleTwice(todo: seq<Task>, id: int)
    ensures Toggle(Toggle(todo, id), id) == todo
  {
    if todo != [] {
      ToggleTwice(todo[1..], id);
      assert Toggle(todo, id)[1..] == Toggle(todo[1..], id);
    }
  }

  /** Flipping an id that no entry carries changes nothing. */
  lemma ToggleAbsent(todo: seq<Task>, id: int)
    ensures !HasId(todo, id) ==> Toggle(todo, id) == todo
  {
    if !HasId(todo, id) {
      var r := Toggle(todo, id);
      forall i | 0 <= i < |todo| ensures r[i] == todo[i] {
        assert todo[i].id != id;
      }
    }
  }

  /** With distinct ids, flipping the id of entry `k` moves the completed
      count by one: down if it was completed, up otherwise. */
  lemma {:induction false} ToggleCount(todo: seq<Task>, k: nat)
    requires DistinctIds(todo) && k < |todo|
    ensures CountCompleted(Toggle(todo, todo[k].id)) ==
      CountCompleted(todo) + (if todo[k].status then -1 else 1)
  {
    var id := todo[k].id;
    var tail := todo[1..];
    assert Toggle(todo, id)[1..] == Toggle(tail, id);
    assert DistinctIds(tail) by {
      forall i, j | 0 <= i < j < |tail| ensures tail[i].id != tail[j].id {
        assert tail[i] == todo[i + 1] && tail[j] == todo[j + 1];
      }
    }
    if k == 0 {
      assert !HasId(tail, id) by {
        forall i | 0 <= i < |tail| ensures tail[i].id != id {
          assert tail[i] == todo[i + 1];
        }
      }
      ToggleAbsent(tail, id);
    } else {
      assert tail[k - 1] == todo[k];
      ToggleCount(tail, k - 1);
    }
  }

  // ---------------------------------------------------------------------
  // Replace

  /** Writing back a copy whose id no entry carries changes nothing. */
  lemma ReplaceAbsent(todo: seq<Task>, current: Task)
    requires !HasId(todo, current.id)
    ensures Replace(todo, current) == todo
  {
    var r := Replace(todo, current);
    forall i | 0 <= i < |todo| ensures r[i] == todo[i] {
      assert todo[i].id != current.id;
    }
  }

  /** With distinct ids, writing back the copy of entry `k` changes entry
      `k` alone, to the copy (name and status both). */
  lemma ReplaceUnique(todo: seq<Task>, k: nat, current: Task)
    requires DistinctIds(todo) && k < |todo| && current.id == todo[k].id
    ensures Replace(todo, current) == todo[k := current]
  {
    var r := Replace(todo, current);
    forall i | 0 <= i < |todo| ensures r[i] == todo[k := current][i] {
      if i != k { assert todo[i].id != current.id; }
    }
  }

  /** Writing back a copy keeps the sequence of ids, hence their
      distinctness. */
  lemma ReplaceKeepsIds(todo: seq<Task>, current: Task)
    ensures DistinctIds(todo) ==> DistinctIds(Replace(todo, current))
  {
    var r := Replace(todo, current);
    if DistinctIds(todo) {
      forall i, j | 0 <= i < j < |r| ensures r[i].id != r[j].id {
        assert r[i].id == todo[i].id && r[j].id == todo[j].id;
      }
    }
  }

  // ---------------------------------------------------------------------
  // RemoveId

  /** The filter distributes over concatenation, so the surviving entries
      keep their relative order. */
  lemma {:induction false} RemoveIdConcat(a: seq<Task>, b: seq<Task>, id: int)
    ensures RemoveId(a + b, id) == RemoveId(a, id) + RemoveId(b, id)
  {
    if a == [] {
      assert a + b == b;
    } else {
      assert (a + b)[0] == a[0];
      assert (a + b)[1..] == a[1..] + b;
      RemoveIdConcat(a[1..], b, id);
    }
  }

  /** A task survives deletion exactly when it was in the list and does
      not carry the deleted id. */
  lemma {:induction false} RemoveIdMembers(todo: seq<Task>, id: int, t: Task)
    ensures t in RemoveId(todo, id) <==> t in todo && t.id != id
  {
    if todo != [] {
      RemoveIdMembers(todo[1..], id, t);
      assert todo == [todo[0]] + todo[1..];
    }
  }

  /** Removing an id that no entry carries changes nothing. */
  lemma {:induction false} RemoveIdAbsent(todo: seq<Task>, id: int)
    requires !HasId(todo, id)
    ensures RemoveId(todo, id) == todo
  {
    if todo != [] {
      assert todo[0].id != id;
      assert !HasId(todo[1..], id) by {
        forall i | 0 <= i < |todo[1..]| ensures todo[1..][i].id != id {
          assert todo[1..][i] == todo[i + 1];
        }
      }
      RemoveIdAbsent(todo[1..], id);
    }
  }

  /** With distinct ids, deleting the id of entry `k` removes entry `k`
      and nothing else. */
  lemma {:induction false} RemoveIdUnique(todo: seq<Task>, k: nat)
    requires DistinctIds(todo) && k < |todo|
    ensures RemoveId(todo, todo[k].id) == todo[..k] + todo[k + 1..]
  {
    var id := todo[k].id;
    var tail := todo[1..];
    assert DistinctIds(tail) by {
      forall i, j | 0 <= i < j < |tail| ensures tail[i].id != tail[j].id {
        assert tail[i] == todo[i + 1] && tail[j] == todo[j + 1];
      }
    }
    if k == 0 {
      assert !HasId(tail, id) by {
        forall i | 0 <= i < |tail| ensures tail[i].id != id {
          assert tail[i] == todo[i + 1];
        }
      }
      RemoveIdAbsent(tail, id);
    } else {
      assert tail[k - 1] == todo[k];
      assert todo[0].id != id;
      assert RemoveId(todo, id) == [todo[0]] + RemoveId(tail, id);
      RemoveIdUnique(tail, k - 1);
      assert tail[..k - 1] == todo[1..k] && tail[k..] == todo[k + 1..];
      assert todo[..k] == [todo[0]] + todo[1..k];
    }
  }

  /** Deleting keeps ids distinct: what survives is a subsequence. */
  lemma {:induction false} RemoveIdKeepsDistinct(todo: seq<Task>, id: int)
    requires DistinctIds(todo)
    ensures DistinctIds(RemoveId(todo, id))
  {
    if todo != [] {
      assert DistinctIds(todo[1..]) by {
        forall i, j | 0 <= i < j < |todo| - 1 ensures todo[1..][i].id != todo[1..][j].id {
          assert todo[1..][i] == todo[i + 1] && todo[1..][j] == todo[j + 1];
        }
      }
      RemoveIdKeepsDistinct(todo[1..], id);
      var rest := RemoveId(todo[1..], id);
      if todo[0].id != id {
        forall j | 0 <= j < |rest| ensures rest[j].id != todo[0].id {
          RemoveIdMembers(todo[1..], id, rest[j]);
          assert rest[j] in todo[1..];
        }
      }
    }
  }

  /** Deleting the same id twice is deleting it once. */
  lemma {:induction false} RemoveIdIdempotent(todo: seq<Task>, id: int)
    ensures RemoveId(RemoveId(todo, id), id) == RemoveId(todo, id)
  {
    if todo != [] {
      RemoveIdIdempotent(todo[1..], id);
    }
  }

  // ---------------------------------------------------------------------
  // CountCompleted and the summary line

  /** The count reaches the length exactly when every task is completed,
      and is 0 exactly when none is. */
  lemma {:induction false} CountAllOrNone(todo: seq<Task>)
    ensures CountCompleted(todo) == |todo| <==> forall i | 0 <= i < |todo| :: todo[i].status
    ensures CountCompleted(todo) == 0 <==> forall i | 0 <= i < |todo| :: !todo[i].status
  {
    if todo != [] {
      var tail := todo[1..];
      CountAllOrNone(tail);
      assert forall i | 1 <= i < |todo| :: tail[i - 1] == todo[i];
    }
  }

  /** The completed count adds up over concatenation. */
  lemma {:induction false} CountConcat(a: seq<Task>, b: seq<Task>)
    ensures CountCompleted(a + b) == CountCompleted(a) + CountCompleted(b)
  {
    if a == [] {
      assert a + b == b;
    } else {
      assert (a + b)[1..] == a[1..] + b;
      CountConcat(a[1..], b);
    }
  }

  /** Appending an open task leaves the completed count as it was. */
  lemma AppendOpenCount(todo: seq<Task>, t: Task)
    requires !t.status
    ensures CountCompleted(todo + [t]) == CountCompleted(todo)
  {
    CountConcat(todo, [t]);
  }

  /** Which summary the list shows, given the recomputed count: nothing
      for an empty list, "all completed" exactly when the list is
      non-empty and every task is completed, otherwise the count, which is
      then below the length. */
  lemma SummaryOfList(todo: seq<Task>)
    ensures SummaryOf(|todo|, CountCompleted(todo)) == Hidden <==> todo == []
    ensures SummaryOf(|todo|, CountCompleted(todo)) == AllCompleted <==>
      todo != [] && forall i | 0 <= i < |todo| :: todo[i].status
    ensures SummaryOf(|todo|, CountCompleted(todo)).CompletedCount? ==>
      SummaryOf(|todo|, CountCompleted(todo)).count == CountCompleted(todo) < |todo|
  {
    CountAllOrNone(todo);
  }
}
