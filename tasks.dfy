/**
 Task records and the immutable list computations the task list component
 applies to them: the per-index `map` of a completion toggle, the `map` that
 substitutes the server's copy of a record by `id`, and the `filter` that
 drops a deleted `id`.
 */
module Tasks {

  datatype Option<T> = None | Some(value: T)

  /** One row of the list, as the API's JSON record carries it. The priority and
      deadline are never inspected by the component; they are carried along as
      the server sent them. */
  datatype Task = Task(
    id: int,
    title: string,
    completed: bool,
    priority: Option<string>,
    deadline: Option<string>)

  /** The store assigns every record its own `id`. */
  predicate UniqueIds(tasks: seq<Task>) {
    forall i, j :: 0 <= i < j < |tasks| ==> tasks[i].id != tasks[j].id
  }

  /** `a` and `b` agree on every field except possibly `completed`. */
  predicate SameButCompleted(a: Task, b: Task) {
    a.id == b.id && a.title == b.title && a.priority == b.priority && a.deadline == b.deadline
  }

  /** `tasks.map((task, i) => i === index ? { ...task, completed: !task.completed } : task)` */
  function ToggleAt(tasks: seq<Task>, index: int): (r: seq<Task>)
    ensures |r| == |tasks|
    ensures forall j :: 0 <= j < |tasks| && j != index ==> r[j] == tasks[j]
    ensures 0 <= index < |tasks| ==>
              r[index].completed == !tasks[index].completed && SameButCompleted(r[index], tasks[index])
    ensures !(0 <= index < |tasks|) ==> r == tasks
  {
    seq(|tasks|, j requires 0 <= j < |tasks| =>
      if j == index then tasks[j].(completed := !tasks[j].completed) else tasks[j])
  }

  /** Toggling the same row twice gives back the list it started from. */
  lemma ToggleTwiceRestores(tasks: seq<Task>, index: int)
    ensures ToggleAt(ToggleAt(tasks, index), index) == tasks
  {
  }

  /** `tasks.map((t) => (t.id === id ? updated : t))` */
  function ReplaceById(tasks: seq<Task>, id: int, updated: Task): (r: seq<Task>)
    ensures |r| == |tasks|
    ensures forall j :: 0 <= j < |tasks| && tasks[j].id == id ==> r[j] == updated
    ensures forall j :: 0 <= j < |tasks| && tasks[j].id != id ==> r[j] == tasks[j]
  {
    seq(|tasks|, j requires 0 <= j < |tasks| => if tasks[j].id == id then updated else tasks[j])
  }

  /** When ids are unique, replacing by the id of row `k` rewrites row `k` alone. */
  lemma ReplaceByIdAtUnique(tasks: seq<Task>, k: nat, updated: Task)
    requires UniqueIds(tasks) && k < |tasks|
    ensures ReplaceById(tasks, tasks[k].id, updated) == tasks[k := updated]
  {
    var r := ReplaceById(tasks, tasks[k].id, updated);
    forall j | 0 <= j < |tasks|
      ensures r[j] == tasks[k := updated][j]
    {
      if j != k {
        assert tasks[j].id != tasks[k].id;
      }
    }
  }

  /** A server copy that keeps the id keeps the ids of the list unique. */
  lemma ReplaceByIdKeepsUniqueIds(tasks: seq<Task>, k: nat, updated: Task)
    requires UniqueIds(tasks) && k < |tasks| && updated.id == tasks[k].id
    ensures UniqueIds(ReplaceById(tasks, tasks[k].id, updated))
  {
    ReplaceByIdAtUnique(tasks, k, updated);
  }

  /** `tasks.filter((task) => task.id !== id)` */
  function RemoveById(tasks: seq<Task>, id: int): (r: seq<Task>)
    ensures |r| <= |tasks|
    ensures forall j :: 0 <= j < |r| ==> r[j].id != id
    decreases |tasks|
  {
    if tasks == [] then []
    else if tasks[0].id != id then [tasks[0]] + RemoveById(tasks[1..], id)
      else RemoveById(tasks[1..], id)
  }

  /** Deleting removes every copy of a record with that id and keeps every
      other record as many times as it occurred. */
  lemma {:induction false} RemoveByIdCounts(tasks: seq<Task>, id: int, t: Task)
    ensures multiset(RemoveById(tasks, id))[t] == if t.id == id then 0 else multiset(tasks)[t]
    decreases |tasks|
  {
    if tasks != [] {
      RemoveByIdCounts(tasks[1..], id, t);
      assert tasks == [tasks[0]] + tasks[1..];
    }
  }

  /** `a` is obtained from `b` by deleting some elements: it keeps the relative
      order of what remains. */
  ghost predicate SubsequenceOf(a: seq<Task>, b: seq<Task>)
    decreases |b|
  {
    a == [] || (b != [] && ((a[0] == b[0] && SubsequenceOf(a[1..], b[1..])) || SubsequenceOf(a, b[1..])))
  }

  /** Deleting keeps the survivors in their old relative order. */
  lemma {:induction false} RemoveByIdIsSubsequence(tasks: seq<Task>, id: int)
    ensures SubsequenceOf(RemoveById(tasks, id), tasks)
    decreases |tasks|
  {
    if tasks != [] {
      RemoveByIdIsSubsequence(tasks[1..], id);
      var rest := RemoveById(tasks[1..], id);
      if tasks[0].id != id {
        assert RemoveById(tasks, id) == [tasks[0]] + rest;
        assert ([tasks[0]] + rest)[1..] == rest;
      }
    }
  }

  /** Deleting an id that no row carries leaves the list as it was. */
  lemma {:induction false} RemoveAbsentIdUnchanged(tasks: seq<Task>, id: int)
    requires forall j :: 0 <= j < |tasks| ==> tasks[j].id != id
    ensures RemoveById(tasks, id) == tasks
    decreases |tasks|
  {
    if tasks != [] {
      RemoveAbsentIdUnchanged(tasks[1..], id);
      assert tasks == [tasks[0]] + tasks[1..];
    }
  }

  /** Deleting twice is deleting once. */
  lemma RemoveByIdIdempotent(tasks: seq<Task>, id: int)
    ensures RemoveById(RemoveById(tasks, id), id) == RemoveById(tasks, id)
  {
    RemoveAbsentIdUnchanged(RemoveById(tasks, id), id);
  }

  /** When ids are unique, deleting the id of row `j` cuts out row `j` alone. */
  lemma {:induction false} RemoveByIdAtUnique(tasks: seq<Task>, j: nat)
    requires UniqueIds(tasks) && j < |tasks|
    ensures RemoveById(tasks, tasks[j].id) == tasks[..j] + tasks[j + 1..]
    decreases j
  {
    var id := tasks[j].id;
    var rest := tasks[1..];
    if j == 0 {
      assert forall i :: 0 <= i < |rest| ==> rest[i].id != id by {
        forall i | 0 <= i < |rest| ensures rest[i].id != id {
          assert rest[i] == tasks[i + 1];
        }
      }
      RemoveAbsentIdUnchanged(rest, id);
    } else {
      assert rest[j - 1] == tasks[j];
      assert UniqueIds(rest) by {
        forall a, b | 0 <= a < b < |rest| ensures rest[a].id != rest[b].id {
          assert rest[a] == tasks[a + 1] && rest[b] == tasks[b + 1];
        }
      }
      RemoveByIdAtUnique(rest, j - 1);
      assert tasks[0].id != id;
      assert RemoveById(tasks, id) == [tasks[0]] + RemoveById(rest, id);
      assert tasks[..j] == [tasks[0]] + rest[..j - 1];
      assert tasks[j + 1..] == rest[j..];
    }
  }

  /** The edited row is remembered by position, not by id: once a row in front
      of it is deleted, the same position names the next task (or lies past the
      end of the list). */
  lemma DeleteShiftsEditedRow(tasks: seq<Task>, j: nat, k: nat)
    requires UniqueIds(tasks) && j < k < |tasks|
    ensures |RemoveById(tasks, tasks[j].id)| == |tasks| - 1
    ensures k < |tasks| - 1 ==>
              RemoveById(tasks, tasks[j].id)[k] == tasks[k + 1]
              && RemoveById(tasks, tasks[j].id)[k].id != tasks[k].id
  {
    RemoveByIdAtUnique(tasks, j);
  }
}
