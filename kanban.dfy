/**
 * The kanban board of src/App.jsx: a board is an ordered sequence of columns,
 * each column an ordered sequence of tasks. Every edit the app offers is a
 * whole-value transform of that sequence, built from `map`, `filter` and
 * spread; here each one is a function on `Board`, and the lemmas say what it
 * changes and what it leaves alone.
 */
module Kanban {
  import opened Options

  datatype Task = Task(id: string, name: string)
  datatype Column = Column(id: string, name: string, tasks: seq<Task>)
  type Board = seq<Column>

  /** The name `addColumn` gives a new column. */
  const NewColumnName: string := "New Category"
  /** The name `addTask` gives a new task. */
  const NewTaskName: string := "New Task"

  // ---------------------------------------------------------------------
  // Array.prototype.filter, defined from the end so that a left-to-right
  // loop extends it one element at a time.
  // ---------------------------------------------------------------------

  function Filter<T(!new)>(s: seq<T>, keep: T -> bool): (r: seq<T>)
    ensures |r| <= |s|
    ensures forall x :: x in r <==> x in s && keep(x)
  {
    if s == [] then []
    else
      var r := Filter(s[..|s| - 1], keep) + (if keep(s[|s| - 1]) then [s[|s| - 1]] else []);
      assert s == s[..|s| - 1] + [s[|s| - 1]];
      r
  }

  lemma {:induction false} FilterKeepsAll<T(!new)>(s: seq<T>, keep: T -> bool)
    requires forall x :: x in s ==> keep(x)
    ensures Filter(s, keep) == s
    decreases |s|
  {
    if s != [] {
      assert s == s[..|s| - 1] + [s[|s| - 1]];
      FilterKeepsAll(s[..|s| - 1], keep);
    }
  }

  // ---------------------------------------------------------------------
  // Counting tasks
  // ---------------------------------------------------------------------

  /** How many tasks of `ts` carry the id `tid`. */
  function CountIn(ts: seq<Task>, tid: string): nat
  {
    if ts == [] then 0
    else CountIn(ts[..|ts| - 1], tid) + (if ts[|ts| - 1].id == tid then 1 else 0)
  }

  /** How many tasks of the whole board carry the id `tid`. */
  function Occurrences(b: Board, tid: string): nat
  {
    if b == [] then 0 else Occurrences(b[..|b| - 1], tid) + CountIn(b[|b| - 1].tasks, tid)
  }

  /** How many tasks the board holds. */
  function TaskCount(b: Board): nat
  {
    if b == [] then 0 else TaskCount(b[..|b| - 1]) + |b[|b| - 1].tasks|
  }

  predicate HasColumn(b: Board, id: string)
  {
    exists i :: 0 <= i < |b| && b[i].id == id
  }

  /** No two columns share an id. */
  predicate UniqueColumnIds(b: Board)
  {
    forall i, j :: 0 <= i < |b| && 0 <= j < |b| && b[i].id == b[j].id ==> i == j
  }

  /** No task id occurs twice anywhere on the board. */
  ghost predicate UniqueTaskIds(b: Board)
  {
    forall tid :: Occurrences(b, tid) <= 1
  }

  /** The board invariants: column ids and task ids are unique. */
  ghost predicate WellFormed(b: Board)
  {
    UniqueColumnIds(b) && UniqueTaskIds(b)
  }

  lemma {:induction false} CountInAppend(a: seq<Task>, c: seq<Task>, tid: string)
    ensures CountIn(a + c, tid) == CountIn(a, tid) + CountIn(c, tid)
    decreases |c|
  {
    if c == [] {
      assert a + c == a;
    } else {
      assert (a + c)[..|a + c| - 1] == a + c[..|c| - 1];
      CountInAppend(a, c[..|c| - 1], tid);
    }
  }

  lemma {:induction false} CountInZero(ts: seq<Task>, tid: string)
    ensures CountIn(ts, tid) == 0 <==> forall t :: t in ts ==> t.id != tid
    decreases |ts|
  {
    if ts != [] {
      assert ts == ts[..|ts| - 1] + [ts[|ts| - 1]];
      CountInZero(ts[..|ts| - 1], tid);
    }
  }

  lemma {:induction false} CountInSameIds(a: seq<Task>, c: seq<Task>, tid: string)
    requires |a| == |c|
    requires forall j :: 0 <= j < |a| ==> a[j].id == c[j].id
    ensures CountIn(a, tid) == CountIn(c, tid)
    decreases |a|
  {
    if a != [] {
      CountInSameIds(a[..|a| - 1], c[..|c| - 1], tid);
    }
  }

  lemma {:induction false} OccurrencesAppend(a: Board, c: Board, tid: string)
    ensures Occurrences(a + c, tid) == Occurrences(a, tid) + Occurrences(c, tid)
    decreases |c|
  {
    if c == [] {
      assert a + c == a;
    } else {
      assert (a + c)[..|a + c| - 1] == a + c[..|c| - 1];
      OccurrencesAppend(a, c[..|c| - 1], tid);
    }
  }

  lemma {:induction false} TaskCountAppend(a: Board, c: Board)
    ensures TaskCount(a + c) == TaskCount(a) + TaskCount(c)
    decreases |c|
  {
    if c == [] {
      assert a + c == a;
    } else {
      assert (a + c)[..|a + c| - 1] == a + c[..|c| - 1];
      TaskCountAppend(a, c[..|c| - 1]);
    }
  }

  /** Boards whose columns hold the same task lists hold the same tasks. */
  lemma {:induction false} SameTaskLists(b: Board, r: Board)
    requires |b| == |r|
    requires forall i :: 0 <= i < |b| ==> r[i].tasks == b[i].tasks
    ensures TaskCount(r) == TaskCount(b)
    ensures forall tid :: Occurrences(r, tid) == Occurrences(b, tid)
    decreases |b|
  {
    if b != [] {
      SameTaskLists(b[..|b| - 1], r[..|r| - 1]);
    }
  }

  /** Column-by-column bounds on a task id's count bound the board's count. */
  lemma {:induction false} OccurrencesBelow(b: Board, r: Board, tid: string)
    requires |b| == |r|
    requires forall i :: 0 <= i < |b| ==> CountIn(r[i].tasks, tid) <= CountIn(b[i].tasks, tid)
    ensures Occurrences(r, tid) <= Occurrences(b, tid)
    decreases |b|
  {
    if b != [] {
      OccurrencesBelow(b[..|b| - 1], r[..|r| - 1], tid);
    }
  }

  lemma {:induction false} OccurrencesSame(b: Board, r: Board, tid: string)
    requires |b| == |r|
    requires forall i :: 0 <= i < |b| ==> CountIn(r[i].tasks, tid) == CountIn(b[i].tasks, tid)
    ensures Occurrences(r, tid) == Occurrences(b, tid)
  {
    OccurrencesBelow(b, r, tid);
    OccurrencesBelow(r, b, tid);
  }

  /** When only column `k` changes its count of `tid`, the board's count changes by as much. */
  lemma {:induction false} OccurrencesAt(b: Board, r: Board, tid: string, k: nat)
    requires |b| == |r| && k < |b|
    requires forall i :: 0 <= i < |b| && i != k ==> CountIn(r[i].tasks, tid) == CountIn(b[i].tasks, tid)
    ensures Occurrences(r, tid) + CountIn(b[k].tasks, tid) == Occurrences(b, tid) + CountIn(r[k].tasks, tid)
    decreases |b|
  {
    if k == |b| - 1 {
      OccurrencesSame(b[..k], r[..k], tid);
    } else {
      OccurrencesAt(b[..|b| - 1], r[..|r| - 1], tid, k);
    }
  }

  /** When only column `k` changes its length, the board's task count changes by as much. */
  lemma {:induction false} TaskCountAt(b: Board, r: Board, k: nat)
    requires |b| == |r| && k < |b|
    requires forall i :: 0 <= i < |b| && i != k ==> |r[i].tasks| == |b[i].tasks|
    ensures TaskCount(r) + |b[k].tasks| == TaskCount(b) + |r[k].tasks|
    decreases |b|
  {
    if k == |b| - 1 {
      TaskCountSame(b[..k], r[..k]);
    } else {
      TaskCountAt(b[..|b| - 1], r[..|r| - 1], k);
    }
  }

  lemma {:induction false} TaskCountSame(b: Board, r: Board)
    requires |b| == |r|
    requires forall i :: 0 <= i < |b| ==> |r[i].tasks| == |b[i].tasks|
    ensures TaskCount(r) == TaskCount(b)
    decreases |b|
  {
    if b != [] {
      TaskCountSame(b[..|b| - 1], r[..|r| - 1]);
    }
  }

  /** A task counts toward its id's occurrences, and two columns count separately. */
  lemma {:induction false} OccurrencesCoverColumns(b: Board, i: nat, k: nat, tid: string)
    requires i < |b| && k < |b|
    ensures CountIn(b[k].tasks, tid) <= Occurrences(b, tid)
    ensures i != k ==> CountIn(b[i].tasks, tid) + CountIn(b[k].tasks, tid) <= Occurrences(b, tid)
    decreases |b|
  {
    var n := |b| - 1;
    if i < n && k < n {
      OccurrencesCoverColumns(b[..n], i, k, tid);
    } else if i < n {
      OccurrencesCoverColumns(b[..n], i, i, tid);
    } else if k < n {
      OccurrencesCoverColumns(b[..n], k, k, tid);
    }
  }

  lemma CountInSingle(t: Task, tid: string)
    ensures CountIn([t], tid) == if t.id == tid then 1 else 0
  {
    assert [t][..0] == [];
  }

  lemma CountInMember(ts: seq<Task>, t: Task)
    requires t in ts
    ensures CountIn(ts, t.id) >= 1
  {
    CountInZero(ts, t.id);
  }

  // ---------------------------------------------------------------------
  // Column edits (src/App.jsx:17-27)
  // ---------------------------------------------------------------------

  /** `addColumn`: spread the board and append a column with a fresh id. */
  function AddColumn(b: Board, freshId: string): Board
  {
    b + [Column(freshId, NewColumnName, [])]
  }

  /** `updateColumnName`: map, renaming every column whose id matches. */
  function UpdateColumnName(b: Board, id: string, newName: string): Board
  {
    seq(|b|, i requires 0 <= i < |b| => if b[i].id == id then b[i].(name := newName) else b[i])
  }

  /** `deleteColumn`: filter out every column whose id matches, tasks and all. */
  function DeleteColumn(b: Board, id: string): Board
  {
    Filter(b, (c: Column) => c.id != id)
  }

  lemma AddColumnSpec(b: Board, freshId: string)
    ensures var r := AddColumn(b, freshId);
      && |r| == |b| + 1 && r[..|b|] == b
      && r[|b|] == Column(freshId, NewColumnName, [])
      && TaskCount(r) == TaskCount(b)
      && (forall tid :: Occurrences(r, tid) == Occurrences(b, tid))
      && (WellFormed(b) && !HasColumn(b, freshId) ==> WellFormed(r))
  {
    var r := AddColumn(b, freshId);
    assert r[..|r| - 1] == b;
  }

  lemma UpdateColumnNameSpec(b: Board, id: string, newName: string)
    ensures var r := UpdateColumnName(b, id, newName);
      && |r| == |b|
      && (forall i :: 0 <= i < |b| ==>
            && r[i].id == b[i].id && r[i].tasks == b[i].tasks
            && r[i].name == (if b[i].id == id then newName else b[i].name))
      && (!HasColumn(b, id) ==> r == b)
      && TaskCount(r) == TaskCount(b)
      && (forall tid :: Occurrences(r, tid) == Occurrences(b, tid))
      && (WellFormed(b) ==> WellFormed(r))
  {
    SameTaskLists(b, UpdateColumnName(b, id, newName));
  }

  lemma UniqueColumnIdsSnoc(s: Board, c: Column)
    requires UniqueColumnIds(s)
    requires forall x :: x in s ==> x.id != c.id
    ensures UniqueColumnIds(s + [c])
  {
  }

  /** Deleting never adds a column, a task, or a duplicate column id. */
  lemma {:induction false} DeleteColumnShrinks(b: Board, id: string)
    ensures var r := DeleteColumn(b, id);
      && TaskCount(r) <= TaskCount(b)
      && (forall tid :: Occurrences(r, tid) <= Occurrences(b, tid))
      && (UniqueColumnIds(b) ==> UniqueColumnIds(r))
    decreases |b|
  {
    if b != [] {
      var n := |b| - 1;
      var keep := (c: Column) => c.id != id;
      var front := DeleteColumn(b[..n], id);
      DeleteColumnShrinks(b[..n], id);
      var r := DeleteColumn(b, id);
      assert r == front + (if keep(b[n]) then [b[n]] else []);
      if keep(b[n]) {
        assert r[..|r| - 1] == front;
        if UniqueColumnIds(b) {
          assert UniqueColumnIds(b[..n]);
          forall c | c in front ensures c.id != b[n].id {
            var i :| 0 <= i < n && b[..n][i] == c;
            assert b[i] == c;
          }
          UniqueColumnIdsSnoc(front, b[n]);
        }
        forall tid ensures Occurrences(r, tid) <= Occurrences(b, tid) {
          assert Occurrences(front, tid) <= Occurrences(b[..n], tid);
        }
      } else {
        assert r == front;
      }
    }
  }

  lemma DeleteColumnSpec(b: Board, id: string)
    ensures var r := DeleteColumn(b, id);
      && !HasColumn(r, id)
      && (forall c :: c in r <==> c in b && c.id != id)
      && (!HasColumn(b, id) ==> r == b)
      && (WellFormed(b) ==> WellFormed(r))
  {
    var r := DeleteColumn(b, id);
    forall i | 0 <= i < |r| ensures r[i].id != id {
      assert r[i] in r;
    }
    if !HasColumn(b, id) {
      forall c | c in b ensures c.id != id {
        var i :| 0 <= i < |b| && b[i] == c;
      }
      FilterKeepsAll(b, (c: Column) => c.id != id);
    }
    DeleteColumnShrinks(b, id);
  }

  /** With unique column ids, deleting column `k` leaves exactly the other columns, in order. */
  lemma {:induction false} DeleteColumnAt(b: Board, k: nat)
    requires UniqueColumnIds(b) && k < |b|
    ensures DeleteColumn(b, b[k].id) == b[..k] + b[k + 1..]
    decreases |b|
  {
    var n := |b| - 1;
    var keep := (c: Column) => c.id != b[k].id;
    assert UniqueColumnIds(b[..n]);
    if k == n {
      forall c | c in b[..n] ensures keep(c) {
        var i :| 0 <= i < n && b[..n][i] == c;
        assert b[i] == c;
      }
      FilterKeepsAll(b[..n], keep);
    } else {
      DeleteColumnAt(b[..n], k);
      assert b[..n][k] == b[k];
      assert b[..k] + b[k + 1..] == b[..n][..k] + b[..n][k + 1..] + [b[n]];
    }
  }

  /**
   * Cascade delete: with unique column ids, deleting column `k` removes
   * exactly its tasks, and on a well-formed board none of their ids is left.
   */
  lemma DeleteColumnCascade(b: Board, k: nat)
    requires UniqueColumnIds(b) && k < |b|
    ensures var r := DeleteColumn(b, b[k].id);
      && TaskCount(r) == TaskCount(b) - |b[k].tasks|
      && (WellFormed(b) ==> forall t :: t in b[k].tasks ==> Occurrences(r, t.id) == 0)
  {
    var front, back := b[..k], b[k + 1..];
    var r := DeleteColumn(b, b[k].id);
    DeleteColumnAt(b, k);
    assert b == (front + [b[k]]) + back;
    assert [b[k]][..0] == [];
    TaskCountAppend(front + [b[k]], back);
    TaskCountAppend(front, [b[k]]);
    TaskCountAppend(front, back);
    if WellFormed(b) {
      forall t | t in b[k].tasks ensures Occurrences(r, t.id) == 0 {
        OccurrencesAppend(front + [b[k]], back, t.id);
        OccurrencesAppend(front, [b[k]], t.id);
        OccurrencesAppend(front, back, t.id);
        CountInMember(b[k].tasks, t);
        assert Occurrences(b, t.id) <= 1;
      }
    }
  }

  // ---------------------------------------------------------------------
  // Task edits (src/App.jsx:30-55)
  // ---------------------------------------------------------------------

  /** Map over the board, appending `t` to every column whose id is `target`. */
  function AppendTo(b: Board, target: string, t: Task): (r: Board)
    ensures |r| == |b|
    ensures forall i :: 0 <= i < |b| ==> r[i].id == b[i].id && r[i].name == b[i].name
    ensures !HasColumn(b, target) ==> r == b
  {
    seq(|b|, i requires 0 <= i < |b| => if b[i].id == target then b[i].(tasks := b[i].tasks + [t]) else b[i])
  }

  /** `addTask`: a task named "New Task" with a fresh id, at the end of the matching column. */
  function AddTask(b: Board, columnId: string, freshId: string): Board
  {
    AppendTo(b, columnId, Task(freshId, NewTaskName))
  }

  /** The filter `deleteTask` applies to a column's tasks. */
  function WithoutTask(ts: seq<Task>, tid: string): seq<Task>
  {
    Filter(ts, (t: Task) => t.id != tid)
  }

  /** `deleteTask`: map, filtering the tasks of the matching column. */
  function DeleteTask(b: Board, columnId: string, tid: string): Board
  {
    seq(|b|, i requires 0 <= i < |b| =>
      if b[i].id == columnId then b[i].(tasks := WithoutTask(b[i].tasks, tid)) else b[i])
  }

  /** The inner map of `renameTask`. */
  function RenameIn(ts: seq<Task>, tid: string, newName: string): seq<Task>
  {
    seq(|ts|, j requires 0 <= j < |ts| => if ts[j].id == tid then ts[j].(name := newName) else ts[j])
  }

  /** `renameTask`: map over columns, and inside the matching one map over its tasks. */
  function RenameTask(b: Board, columnId: string, tid: string, newName: string): Board
  {
    seq(|b|, i requires 0 <= i < |b| =>
      if b[i].id == columnId then b[i].(tasks := RenameIn(b[i].tasks, tid, newName)) else b[i])
  }

  /**
   * Appending to a column: with unique column ids exactly one column (the
   * target, when it exists) grows by exactly `t`, and nothing else changes.
   */
  lemma AppendToSpec(b: Board, target: string, t: Task)
    requires UniqueColumnIds(b)
    ensures var r := AppendTo(b, target, t);
      && UniqueColumnIds(r)
      && (forall i :: 0 <= i < |b| ==>
            r[i].tasks == if b[i].id == target then b[i].tasks + [t] else b[i].tasks)
      && TaskCount(r) == TaskCount(b) + (if HasColumn(b, target) then 1 else 0)
      && (forall tid :: Occurrences(r, tid) ==
            Occurrences(b, tid) + (if HasColumn(b, target) && tid == t.id then 1 else 0))
  {
    var r := AppendTo(b, target, t);
    if HasColumn(b, target) {
      var k :| 0 <= k < |b| && b[k].id == target;
      AppendToCounts(b, target, t, k);
    }
  }

  lemma AppendToCounts(b: Board, target: string, t: Task, k: nat)
    requires UniqueColumnIds(b) && k < |b| && b[k].id == target
    ensures var r := AppendTo(b, target, t);
      && TaskCount(r) == TaskCount(b) + 1
      && (forall tid :: Occurrences(r, tid) == Occurrences(b, tid) + (if tid == t.id then 1 else 0))
  {
    var r := AppendTo(b, target, t);
    assert r[k].tasks == b[k].tasks + [t];
    forall i | 0 <= i < |b| && i != k ensures r[i] == b[i] {
      assert b[i].id != target;
    }
    TaskCountAt(b, r, k);
    forall tid ensures Occurrences(r, tid) == Occurrences(b, tid) + (if tid == t.id then 1 else 0) {
      OccurrencesAt(b, r, tid, k);
      CountInAppend(b[k].tasks, [t], tid);
      CountInSingle(t, tid);
    }
  }

  /**
   * `addTask` with a fresh task id, on any board: every column with the
   * given id gains exactly one "New Task" at its end, every other column is
   * unchanged and an unknown column id changes nothing. With unique column
   * ids the board gains one task when the column exists, and a well-formed
   * board stays well-formed.
   */
  lemma AddTaskSpec(b: Board, columnId: string, freshId: string)
    requires Occurrences(b, freshId) == 0
    ensures var r := AddTask(b, columnId, freshId);
      && |r| == |b|
      && (forall i :: 0 <= i < |b| ==>
            && r[i].id == b[i].id && r[i].name == b[i].name
            && r[i].tasks == if b[i].id == columnId then b[i].tasks + [Task(freshId, NewTaskName)] else b[i].tasks)
      && (!HasColumn(b, columnId) ==> r == b)
      && (UniqueColumnIds(b) ==>
            && TaskCount(r) == TaskCount(b) + (if HasColumn(b, columnId) then 1 else 0)
            && Occurrences(r, freshId) == (if HasColumn(b, columnId) then 1 else 0))
      && (WellFormed(b) ==> WellFormed(r))
  {
    if UniqueColumnIds(b) {
      AppendToSpec(b, columnId, Task(freshId, NewTaskName));
    }
  }

  lemma {:induction false} WithoutTaskCounts(ts: seq<Task>, tid: string)
    ensures forall x :: CountIn(WithoutTask(ts, tid), x) == if x == tid then 0 else CountIn(ts, x)
    ensures |WithoutTask(ts, tid)| == |ts| - CountIn(ts, tid)
    decreases |ts|
  {
    if ts != [] {
      var n := |ts| - 1;
      WithoutTaskCounts(ts[..n], tid);
      var front := WithoutTask(ts[..n], tid);
      var r := WithoutTask(ts, tid);
      if ts[n].id != tid {
        assert r == front + [ts[n]];
        assert r[..|r| - 1] == front;
      } else {
        assert r == front;
      }
    }
  }

  lemma WithoutAbsentTask(ts: seq<Task>, tid: string)
    requires CountIn(ts, tid) == 0
    ensures WithoutTask(ts, tid) == ts
  {
    CountInZero(ts, tid);
    FilterKeepsAll(ts, (t: Task) => t.id != tid);
  }

  /** Removing a task whose id is unique keeps every other task, in order. */
  lemma {:induction false} WithoutTaskAt(ts: seq<Task>, j: nat)
    requires j < |ts| && CountIn(ts, ts[j].id) == 1
    ensures WithoutTask(ts, ts[j].id) == ts[..j] + ts[j + 1..]
    decreases |ts|
  {
    var n := |ts| - 1;
    var tid := ts[j].id;
    if j == n {
      WithoutAbsentTask(ts[..n], tid);
    } else {
      assert ts[..n][j] == ts[j];
      CountInMember(ts[..n], ts[j]);
      WithoutTaskAt(ts[..n], j);
      assert ts[..j] + ts[j + 1..] == ts[..n][..j] + ts[..n][j + 1..] + [ts[n]];
    }
  }

  /**
   * Column by column, `deleteTask` empties the matching columns of the id and
   * keeps their other tasks, and a column holding no task with the id is
   * left as it was.
   */
  lemma DeleteTaskColumns(b: Board, columnId: string, tid: string)
    ensures var r := DeleteTask(b, columnId, tid);
      && (forall i :: 0 <= i < |b| && b[i].id == columnId ==> CountIn(r[i].tasks, tid) == 0)
      && (forall i, t :: 0 <= i < |b| && b[i].id == columnId ==>
            (t in r[i].tasks <==> t in b[i].tasks && t.id != tid))
      && (forall i :: 0 <= i < |b| && CountIn(b[i].tasks, tid) == 0 ==> r[i] == b[i])
  {
    var r := DeleteTask(b, columnId, tid);
    forall i | 0 <= i < |b| && b[i].id == columnId ensures CountIn(r[i].tasks, tid) == 0 {
      WithoutTaskCounts(b[i].tasks, tid);
    }
    forall i | 0 <= i < |b| && CountIn(b[i].tasks, tid) == 0 ensures r[i] == b[i] {
      WithoutAbsentTask(b[i].tasks, tid);
    }
  }

  /**
   * `deleteTask` removes from the matching column every task with the given
   * id and no other task, leaves unchanged every other column and every
   * column that holds no such task, keeps every other task id's count, and
   * keeps the board well-formed.
   * When task `j` of column `k` is the only one with its id in that column,
   * deleting it leaves that column's other tasks in order; when besides the
   * column ids are unique or the task id occurs nowhere else, every other
   * column is untouched and the board has one task fewer.
   */
  lemma DeleteTaskSpec(b: Board, columnId: string, tid: string)
    ensures var r := DeleteTask(b, columnId, tid);
      && |r| == |b|
      && (forall i :: 0 <= i < |b| ==>
            && r[i].id == b[i].id && r[i].name == b[i].name
            && (b[i].id != columnId ==> r[i] == b[i]))
      && (!HasColumn(b, columnId) ==> r == b)
      && (forall i :: 0 <= i < |b| && b[i].id == columnId ==> CountIn(r[i].tasks, tid) == 0)
      && (forall i, t :: 0 <= i < |b| && b[i].id == columnId ==>
            (t in r[i].tasks <==> t in b[i].tasks && t.id != tid))
      && (forall i :: 0 <= i < |b| && CountIn(b[i].tasks, tid) == 0 ==> r[i] == b[i])
      && (forall x :: x != tid ==> Occurrences(r, x) == Occurrences(b, x))
      && Occurrences(r, tid) <= Occurrences(b, tid)
      && (WellFormed(b) ==> WellFormed(r))
  {
    var r := DeleteTask(b, columnId, tid);
    DeleteTaskColumns(b, columnId, tid);
    forall i | 0 <= i < |b| {
      WithoutTaskCounts(b[i].tasks, tid);
    }
    forall x | x != tid ensures Occurrences(r, x) == Occurrences(b, x) {
      OccurrencesSame(b, r, x);
    }
    OccurrencesBelow(b, r, tid);
  }

  lemma DeleteTaskAt(b: Board, k: nat, j: nat)
    requires k < |b| && j < |b[k].tasks| && CountIn(b[k].tasks, b[k].tasks[j].id) == 1
    ensures var tid := b[k].tasks[j].id;
      var r := DeleteTask(b, b[k].id, tid);
      && r[k].tasks == b[k].tasks[..j] + b[k].tasks[j + 1..]
      && (UniqueColumnIds(b) || Occurrences(b, tid) == 1 ==>
            && (forall i :: 0 <= i < |b| && i != k ==> r[i] == b[i])
            && Occurrences(r, tid) == Occurrences(b, tid) - 1
            && TaskCount(r) == TaskCount(b) - 1)
      && (Occurrences(b, tid) == 1 ==> Occurrences(r, tid) == 0)
  {
    var tid := b[k].tasks[j].id;
    var r := DeleteTask(b, b[k].id, tid);
    WithoutTaskAt(b[k].tasks, j);
    WithoutTaskCounts(b[k].tasks, tid);
    if UniqueColumnIds(b) || Occurrences(b, tid) == 1 {
      forall i | 0 <= i < |b| && i != k ensures r[i] == b[i] {
        if b[i].id == b[k].id {
          OccurrencesCoverColumns(b, i, k, tid);
          WithoutAbsentTask(b[i].tasks, tid);
        }
      }
      OccurrencesAt(b, r, tid, k);
      TaskCountAt(b, r, k);
    }
  }

  lemma {:induction false} RenameInKeepsIds(ts: seq<Task>, tid: string, newName: string)
    ensures forall x :: CountIn(RenameIn(ts, tid, newName), x) == CountIn(ts, x)
  {
    forall x {
      CountInSameIds(RenameIn(ts, tid, newName), ts, x);
    }
  }

  /**
   * `renameTask` keeps the shape of the board and every id; exactly the tasks
   * with the given id inside the matching column get the new name.
   */
  lemma RenameTaskSpec(b: Board, columnId: string, tid: string, newName: string)
    ensures var r := RenameTask(b, columnId, tid, newName);
      && |r| == |b|
      && (forall i :: 0 <= i < |b| ==>
            && r[i].id == b[i].id && r[i].name == b[i].name
            && |r[i].tasks| == |b[i].tasks|
            && (forall j :: 0 <= j < |b[i].tasks| ==>
                  && r[i].tasks[j].id == b[i].tasks[j].id
                  && r[i].tasks[j].name ==
                       if b[i].id == columnId && b[i].tasks[j].id == tid then newName else b[i].tasks[j].name))
      && TaskCount(r) == TaskCount(b)
      && (forall x :: Occurrences(r, x) == Occurrences(b, x))
      && (WellFormed(b) ==> WellFormed(r))
  {
    var r := RenameTask(b, columnId, tid, newName);
    forall i | 0 <= i < |b| {
      RenameInKeepsIds(b[i].tasks, tid, newName);
    }
    TaskCountSame(b, r);
    forall x ensures Occurrences(r, x) == Occurrences(b, x) {
      OccurrencesSame(b, r, x);
    }
  }

  // ---------------------------------------------------------------------
  // Drag-and-drop move (src/App.jsx:57-75)
  // ---------------------------------------------------------------------

  /** The first `map` of `onDropTask`: every column loses every task with id `tid`. */
  function Strip(b: Board, tid: string): Board
  {
    seq(|b|, i requires 0 <= i < |b| => b[i].(tasks := WithoutTask(b[i].tasks, tid)))
  }

  /**
   * What `movedTask` holds after the filter callback has run over `ts`,
   * starting from `prev`: the last task of `ts` with id `tid`, if any.
   */
  function LastIn(ts: seq<Task>, tid: string, prev: Option<Task>): Option<Task>
  {
    if ts == [] then prev
    else if ts[|ts| - 1].id == tid then Some(ts[|ts| - 1])
    else LastIn(ts[..|ts| - 1], tid, prev)
  }

  /** `movedTask` after the first `map` over the whole board. */
  function LastMatch(b: Board, tid: string): Option<Task>
  {
    if b == [] then None else LastIn(b[|b| - 1].tasks, tid, LastMatch(b[..|b| - 1], tid))
  }

  /** The second `map`: append `moved`, when there is one, to the target column. */
  function Place(s: Board, target: string, moved: Option<Task>): Board
  {
    match moved
    case None => s
    case Some(t) => AppendTo(s, target, t)
  }

  /** The board `onDropTask(tid, target)` produces. */
  function Dropped(b: Board, tid: string, target: string): Board
  {
    Place(Strip(b, tid), target, LastMatch(b, tid))
  }

  lemma {:induction false} LastInFacts(ts: seq<Task>, tid: string, prev: Option<Task>)
    ensures CountIn(ts, tid) == 0 ==> LastIn(ts, tid, prev) == prev
    ensures CountIn(ts, tid) > 0 ==> LastIn(ts, tid, prev).Some? && LastIn(ts, tid, prev).value.id == tid
    ensures forall t :: t in ts && t.id == tid && CountIn(ts, tid) == 1 ==> LastIn(ts, tid, prev) == Some(t)
    decreases |ts|
  {
    if ts != [] {
      var n := |ts| - 1;
      LastInFacts(ts[..n], tid, prev);
      assert ts == ts[..n] + [ts[n]];
      forall t | t in ts && t.id == tid && CountIn(ts, tid) == 1 ensures LastIn(ts, tid, prev) == Some(t) {
        if t != ts[n] {
          assert t in ts[..n];
          CountInMember(ts[..n], t);
        }
      }
    }
  }

  /** A move finds a task exactly when the id occurs; on a unique id it finds that very task. */
  lemma {:induction false} LastMatchFacts(b: Board, tid: string)
    ensures LastMatch(b, tid).None? <==> Occurrences(b, tid) == 0
    ensures LastMatch(b, tid).Some? ==> LastMatch(b, tid).value.id == tid
    ensures Occurrences(b, tid) == 1 ==>
      forall k, t :: 0 <= k < |b| && t in b[k].tasks && t.id == tid ==> LastMatch(b, tid) == Some(t)
    decreases |b|
  {
    if b != [] {
      var n := |b| - 1;
      LastMatchFacts(b[..n], tid);
      LastInFacts(b[n].tasks, tid, LastMatch(b[..n], tid));
      if Occurrences(b, tid) == 1 {
        forall k, t | 0 <= k < |b| && t in b[k].tasks && t.id == tid ensures LastMatch(b, tid) == Some(t) {
          CountInMember(b[k].tasks, t);
          if k < n {
            assert b[..n][k] == b[k];
            CountInMember(b[..n][k].tasks, t);
            OccurrencesCoverColumns(b[..n], k, k, tid);
          }
        }
      }
    }
  }

  /** Stripping keeps the columns and removes exactly the tasks with id `tid`. */
  lemma StripSpec(b: Board, tid: string)
    ensures var r := Strip(b, tid);
      && |r| == |b|
      && (forall i :: 0 <= i < |b| ==> r[i].id == b[i].id && r[i].name == b[i].name)
      && (forall x :: Occurrences(r, x) == if x == tid then 0 else Occurrences(b, x))
      && TaskCount(r) + Occurrences(b, tid) == TaskCount(b)
      && (Occurrences(b, tid) == 0 ==> r == b)
  {
    var r := Strip(b, tid);
    forall i | 0 <= i < |b| {
      WithoutTaskCounts(b[i].tasks, tid);
    }
    forall x ensures Occurrences(r, x) == if x == tid then 0 else Occurrences(b, x) {
      if x == tid {
        StripRemovesAll(b, tid);
      } else {
        OccurrencesSame(b, r, x);
      }
    }
    StripTaskCount(b, tid);
    if Occurrences(b, tid) == 0 {
      forall i | 0 <= i < |b| ensures r[i] == b[i] {
        OccurrencesCoverColumns(b, i, i, tid);
        WithoutAbsentTask(b[i].tasks, tid);
      }
    }
  }

  lemma {:induction false} StripRemovesAll(b: Board, tid: string)
    ensures Occurrences(Strip(b, tid), tid) == 0
    decreases |b|
  {
    if b != [] {
      var n := |b| - 1;
      StripRemovesAll(b[..n], tid);
      assert Strip(b, tid)[..n] == Strip(b[..n], tid);
      WithoutTaskCounts(b[n].tasks, tid);
    }
  }

  lemma {:induction false} StripTaskCount(b: Board, tid: string)
    ensures TaskCount(Strip(b, tid)) + Occurrences(b, tid) == TaskCount(b)
    decreases |b|
  {
    if b != [] {
      var n := |b| - 1;
      StripTaskCount(b[..n], tid);
      assert Strip(b, tid)[..n] == Strip(b[..n], tid);
      WithoutTaskCounts(b[n].tasks, tid);
    }
  }

  /** A column id exists after stripping exactly when it existed before. */
  lemma StripKeepsColumns(b: Board, tid: string)
    ensures forall id :: HasColumn(Strip(b, tid), id) <==> HasColumn(b, id)
    ensures UniqueColumnIds(b) ==> UniqueColumnIds(Strip(b, tid))
  {
    StripSpec(b, tid);
    var r := Strip(b, tid);
    forall id ensures HasColumn(r, id) <==> HasColumn(b, id) {
      if HasColumn(b, id) {
        var i :| 0 <= i < |b| && b[i].id == id;
        assert r[i].id == id;
      }
    }
  }

  /** Dropping a task id that occurs nowhere leaves the board as it was. */
  lemma DropUnknownTask(b: Board, tid: string, target: string)
    requires Occurrences(b, tid) == 0
    ensures Dropped(b, tid, target) == b
  {
    LastMatchFacts(b, tid);
    StripSpec(b, tid);
  }

  /**
   * Dropping onto a column id that does not exist removes the task and never
   * re-adds it: the board loses every task with that id.
   */
  lemma DropOnMissingColumn(b: Board, tid: string, target: string)
    requires !HasColumn(b, target)
    ensures var r := Dropped(b, tid, target);
      && r == Strip(b, tid)
      && Occurrences(r, tid) == 0
      && TaskCount(r) == TaskCount(b) - Occurrences(b, tid)
  {
    StripSpec(b, tid);
    StripKeepsColumns(b, tid);
  }

  /**
   * With unique column ids a move never duplicates a task id: afterwards the
   * id occurs once when it occurred at all and the target exists, and not at
   * all otherwise (extra copies of a duplicated id are dropped). Every other
   * task id keeps its count, and a well-formed board stays well-formed.
   */
  lemma DropCounts(b: Board, tid: string, target: string)
    requires UniqueColumnIds(b)
    ensures var r := Dropped(b, tid, target);
      && UniqueColumnIds(r)
      && Occurrences(r, tid) == (if Occurrences(b, tid) > 0 && HasColumn(b, target) then 1 else 0)
      && (forall x :: x != tid ==> Occurrences(r, x) == Occurrences(b, x))
      && TaskCount(r) == TaskCount(b) - Occurrences(b, tid) + (if Occurrences(b, tid) > 0 && HasColumn(b, target) then 1 else 0)
      && (WellFormed(b) ==> WellFormed(r))
  {
    var s := Strip(b, tid);
    StripSpec(b, tid);
    StripKeepsColumns(b, tid);
    LastMatchFacts(b, tid);
    match LastMatch(b, tid)
    case None =>
    case Some(t) =>
      AppendToSpec(s, target, t);
  }

  /**
   * When task `j` of column `k` holds the only copy of its id on the board
   * (other ids may be duplicated), the first pass of its move finds that
   * very task, takes it out of column `k` (the other tasks keeping their
   * order) and leaves every other column as it was.
   */
  lemma StripOneTask(b: Board, k: nat, j: nat)
    requires k < |b| && j < |b[k].tasks| && Occurrences(b, b[k].tasks[j].id) == 1
    ensures var t := b[k].tasks[j];
      var s := Strip(b, t.id);
      && LastMatch(b, t.id) == Some(t)
      && s[k].tasks == b[k].tasks[..j] + b[k].tasks[j + 1..]
      && (forall i :: 0 <= i < |b| && i != k ==> s[i] == b[i])
  {
    var t := b[k].tasks[j];
    var tid := t.id;
    CountInMember(b[k].tasks, t);
    OccurrencesCoverColumns(b, k, k, tid);
    LastMatchFacts(b, tid);
    WithoutTaskAt(b[k].tasks, j);
    forall i | 0 <= i < |b| && i != k ensures Strip(b, tid)[i] == b[i] {
      OccurrencesCoverColumns(b, i, k, tid);
      WithoutAbsentTask(b[i].tasks, tid);
    }
  }

  /**
   * The move proper: with unique column ids, dropping task `j` of column `k`,
   * whose id occurs once on the board, onto column `m` takes it out of column
   * `k` (the other tasks keeping their order) and appends the very same task
   * at the end of column `m`; every column keeps its id and name, every other
   * column is untouched and the task count is conserved.
   */
  lemma DropMovesTask(b: Board, k: nat, j: nat, m: nat)
    requires UniqueColumnIds(b) && k < |b| && j < |b[k].tasks| && m < |b|
    requires Occurrences(b, b[k].tasks[j].id) == 1
    ensures var t := b[k].tasks[j];
      var r := Dropped(b, t.id, b[m].id);
      && |r| == |b|
      && (forall i :: 0 <= i < |b| ==> r[i].id == b[i].id && r[i].name == b[i].name)
      && r[m].tasks == WithoutTask(b[m].tasks, t.id) + [t]
      && (k != m ==> r[k].tasks == b[k].tasks[..j] + b[k].tasks[j + 1..] && r[m].tasks == b[m].tasks + [t])
      && (k == m ==> r[k].tasks == b[k].tasks[..j] + b[k].tasks[j + 1..] + [t])
      && (forall i :: 0 <= i < |b| && i != k && i != m ==> r[i] == b[i])
      && TaskCount(r) == TaskCount(b)
      && Occurrences(r, t.id) == 1
      && (WellFormed(b) ==> WellFormed(r))
  {
    var t := b[k].tasks[j];
    var s := Strip(b, t.id);
    StripOneTask(b, k, j);
    StripSpec(b, t.id);
    StripKeepsColumns(b, t.id);
    assert HasColumn(b, b[m].id);
    AppendToSpec(s, b[m].id, t);
    DropCounts(b, t.id, b[m].id);
  }

  /**
   * The `filter` over one column's tasks inside `onDropTask`: keeps the tasks
   * with other ids, and leaves in `moved` the last one with id `taskId`
   * (or `prev`, the value it had before, when there is none).
   */
  method FilterMoved(tasks: seq<Task>, taskId: string, prev: Option<Task>)
    returns (remaining: seq<Task>, moved: Option<Task>)
    ensures remaining == WithoutTask(tasks, taskId)
    ensures moved == LastIn(tasks, taskId, prev)
  {
    remaining, moved := [], prev;
    var j := 0;
    while j < |tasks|
      invariant 0 <= j <= |tasks|
      invariant remaining == WithoutTask(tasks[..j], taskId)
      invariant moved == LastIn(tasks[..j], taskId, prev)
    {
      var task := tasks[j];
      assert tasks[..j + 1][..j] == tasks[..j];
      if task.id == taskId {
        moved := Some(task);
      } else {
        remaining := remaining + [task];
      }
      j := j + 1;
    }
    assert tasks[..j] == tasks;
  }

  /** The second `map` of `onDropTask`: append `moved`, if set, to every column with id `target`. */
  method PlaceMoved(stripped: Board, target: string, moved: Option<Task>) returns (r: Board)
    ensures r == Place(stripped, target, moved)
  {
    r := [];
    var k := 0;
    while k < |stripped|
      invariant 0 <= k <= |stripped|
      invariant r == Place(stripped[..k], target, moved)
    {
      var col := stripped[k];
      if col.id == target && moved.Some? {
        r := r + [col.(tasks := col.tasks + [moved.value])];
      } else {
        r := r + [col];
      }
      k := k + 1;
    }
    assert stripped[..k] == stripped;
  }

  /**
   * `onDropTask` as the source writes it: one pass that strips the task from
   * every column while remembering it in `moved`, then one pass that appends
   * it to the target column.
   */
  method OnDropTask(b: Board, taskId: string, targetColumnId: string) returns (r: Board)
    ensures r == Dropped(b, taskId, targetColumnId)
  {
    var moved: Option<Task> := None;
    var stripped: Board := [];
    var i := 0;
    while i < |b|
      invariant 0 <= i <= |b|
      invariant stripped == Strip(b[..i], taskId)
      invariant moved == LastMatch(b[..i], taskId)
    {
      var remaining;
      assert b[..i + 1][..i] == b[..i];
      remaining, moved := FilterMoved(b[i].tasks, taskId, moved);
      stripped := stripped + [b[i].(tasks := remaining)];
      i := i + 1;
    }
    assert b[..i] == b;
    r := PlaceMoved(stripped, targetColumnId, moved);
  }
}
