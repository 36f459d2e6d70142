/** The task record and the three list mutations of the task board: append,
    flip the completion flag by identifier, and remove by identifier. Each
    returns a new list; the board replaces its list with it wholesale. */
module Tasks {
  import opened Calendar
  import opened Seqs

  /** A to-do item. `dueDate` drives the period filters; `createdAt` is
      informational only. */
  datatype Task = Task(id: string, title: string, completed: bool, dueDate: Date, createdAt: Date)

  /** Identifiers are pairwise distinct. The board keeps this only as long
      as every added task carries a fresh identifier. */
  predicate UniqueIds(s: seq<Task>)
  {
    forall i, j :: 0 <= i < j < |s| ==> s[i].id != s[j].id
  }

  /** Some task in `s` carries identifier `id`. */
  predicate HasId(s: seq<Task>, id: string)
  {
    exists i :: 0 <= i < |s| && s[i].id == id
  }

  /** `[...tasks, task]`: the new task goes last. */
  function Append(s: seq<Task>, task: Task): (r: seq<Task>)
    ensures |r| == |s| + 1
    ensures r[..|s|] == s && r[|s|] == task
  {
    s + [task]
  }

  /** The task with its completion flag inverted. */
  function Flip(t: Task): Task
  {
    t.(completed := !t.completed)
  }

  /** The update applied by a toggle to each task: flip when the identifier
      matches, keep otherwise. */
  function FlipIfId(id: string): Task -> Task
  {
    (t: Task) => if t.id == id then Flip(t) else t
  }

  /** `tasks.map(t => t.id === id ? {...t, completed: !t.completed} : t)`. */
  function Toggle(s: seq<Task>, id: string): (r: seq<Task>)
    ensures |r| == |s|
    ensures forall i :: 0 <= i < |s| ==>
      && r[i].id == s[i].id
      && r[i].title == s[i].title
      && r[i].dueDate == s[i].dueDate
      && r[i].createdAt == s[i].createdAt
      && (r[i].completed <==> (s[i].completed != (s[i].id == id)))
  {
    Map(s, FlipIfId(id))
  }

  /** The selection made by a delete: every task whose identifier differs. */
  function OtherId(id: string): Task -> bool
  {
    (t: Task) => t.id != id
  }

  /** `tasks.filter(t => t.id !== id)`. */
  function Delete(s: seq<Task>, id: string): (r: seq<Task>)
    ensures forall t: Task :: t in r <==> t in s && t.id != id
    ensures forall t: Task :: t.id != id ==> multiset(r)[t] == multiset(s)[t]
    ensures SubseqOf(r, s)
  {
    FilterMultiset(s, OtherId(id));
    FilterSubseq(s, OtherId(id));
    Filter(s, OtherId(id))
  }

  /** Deleting from a non-empty list decides on the first task and then
      deletes from the rest. */
  lemma DeleteUnfold(s: seq<Task>, id: string)
    requires |s| > 0
    ensures Delete(s, id) == (if s[0].id != id then [s[0]] else []) + Delete(s[1..], id)
  {
  }

  /** Deleting an identifier that no task carries leaves the list unchanged. */
  lemma DeleteAbsent(s: seq<Task>, id: string)
    requires !HasId(s, id)
    ensures Delete(s, id) == s
  {
    FilterAllKept(s, OtherId(id));
  }

  /** Toggling the same identifier twice restores the list. */
  lemma ToggleTwice(s: seq<Task>, id: string)
    ensures Toggle(Toggle(s, id), id) == s
  {
    var r := Toggle(Toggle(s, id), id);
    assert forall i :: 0 <= i < |s| ==> r[i] == s[i];
  }

  /** Deleting twice by the same identifier removes nothing more. */
  lemma DeleteIdempotent(s: seq<Task>, id: string)
    ensures Delete(Delete(s, id), id) == Delete(s, id)
  {
    FilterIdempotent(s, OtherId(id));
  }

  /** Deleting a freshly added task by its identifier undoes the addition. */
  lemma DeleteUndoesAppend(s: seq<Task>, task: Task)
    requires !HasId(s, task.id)
    ensures Delete(Append(s, task), task.id) == s
  {
    var f := OtherId(task.id);
    FilterAppend(s, [task], f);
    assert Filter([task], f) == [];
    DeleteAbsent(s, task.id);
    assert Filter(s, f) == s;
  }

  /** Toggling keeps identifiers, hence keeps them distinct. */
  lemma ToggleKeepsUniqueIds(s: seq<Task>, id: string)
    requires UniqueIds(s)
    ensures UniqueIds(Toggle(s, id))
  {
  }

  /** Appending keeps identifiers distinct exactly when the new one is fresh. */
  lemma AppendUniqueIds(s: seq<Task>, task: Task)
    requires UniqueIds(s)
    ensures UniqueIds(Append(s, task)) <==> !HasId(s, task.id)
  {
    var r := Append(s, task);
    if HasId(s, task.id) {
      var i :| 0 <= i < |s| && s[i].id == task.id;
      assert r[i].id == r[|s|].id;
    }
  }

  /** The tail of a list with distinct identifiers has distinct identifiers. */
  lemma TailUniqueIds(s: seq<Task>)
    requires |s| > 0 && UniqueIds(s)
    ensures UniqueIds(s[1..])
    ensures !HasId(s[1..], s[0].id)
  {
    forall i, j | 0 <= i < j < |s| - 1 ensures s[1..][i].id != s[1..][j].id {
      assert s[1..][i] == s[i + 1] && s[1..][j] == s[j + 1];
    }
    forall k | 0 <= k < |s| - 1 ensures s[1..][k].id != s[0].id {
      assert s[1..][k] == s[k + 1];
    }
  }

  /** A task put in front of a list with distinct identifiers, none equal to
      its own, keeps them distinct. */
  lemma ConsUniqueIds(t: Task, s: seq<Task>)
    requires UniqueIds(s) && !HasId(s, t.id)
    ensures UniqueIds([t] + s)
  {
    var r := [t] + s;
    forall i, j | 0 <= i < j < |r| ensures r[i].id != r[j].id {
      assert r[j] == s[j - 1];
      if i > 0 {
        assert r[i] == s[i - 1];
      }
    }
  }

  /** Removing tasks keeps the remaining identifiers distinct. */
  lemma {:induction false} DeleteKeepsUniqueIds(s: seq<Task>, id: string)
    requires UniqueIds(s)
    ensures UniqueIds(Delete(s, id))
  {
    if |s| > 0 {
      TailUniqueIds(s);
      DeleteKeepsUniqueIds(s[1..], id);
      DeleteUnfold(s, id);
      var rest := Delete(s[1..], id);
      if s[0].id != id {
        DeleteNoNewIds(s[1..], id, s[0].id);
        ConsUniqueIds(s[0], rest);
      }
    }
  }

  /** Deleting brings in no identifier the list did not carry. */
  lemma DeleteNoNewIds(s: seq<Task>, id: string, other: string)
    requires !HasId(s, other)
    ensures !HasId(Delete(s, id), other)
  {
    var r := Delete(s, id);
    forall k | 0 <= k < |r| ensures r[k].id != other {
      assert r[k] in s;
      var m :| 0 <= m < |s| && s[m] == r[k];
    }
  }

  /** With distinct identifiers, a delete of a present identifier removes
      exactly one task. */
  lemma {:induction false} DeletePresentRemovesOne(s: seq<Task>, id: string)
    requires UniqueIds(s) && HasId(s, id)
    ensures |Delete(s, id)| == |s| - 1
  {
    TailUniqueIds(s);
    DeleteUnfold(s, id);
    if s[0].id == id {
      DeleteAbsent(s[1..], id);
    } else {
      var i :| 0 <= i < |s| && s[i].id == id;
      assert s[1..][i - 1].id == id;
      DeletePresentRemovesOne(s[1..], id);
    }
  }
}
