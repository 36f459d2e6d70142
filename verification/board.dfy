/** The task-board component as a state record and the transitions its
    handlers perform. Every handler replaces the full list wholesale, writes
    it to session storage, and recomputes the view under the unchanged
    current period. */
module TaskBoard {
  import opened Wrappers
  import opened Calendar
  import opened Seqs
  import opened Tasks
  import opened Periods

  /** The component's state: the full list, the filtered view, the current
      period and the title, together with the session-storage slot that
      holds the list between page loads (`None` when it is missing or does
      not parse as a task array). */
  datatype Board = Board(all: seq<Task>, view: seq<Task>, period: string, title: string, stored: Option<seq<Task>>)

  /** The view and title are what `filterTasks` computes for the current
      list and period at `now`. */
  predicate Derived(b: Board, now: Moment)
  {
    FilterTasks(b.all, b.period, now) == Filtered(b.view, b.title)
  }

  /** Storage holds what the board would load from it. */
  predicate Persisted(b: Board)
  {
    b.stored.GetOr([]) == b.all
  }

  /** What holds of the board at every point after initialisation,
      whatever moments the views were computed at. */
  predicate Consistent(b: Board)
  {
    && SubseqOf(b.view, b.all)
    && b.title == Title(Classify(b.period))
    && Persisted(b)
  }

  /** The field initialisers, before `ngOnInit` runs. */
  function Construct(stored: Option<seq<Task>>): Board
  {
    Board([], [], "", "My Tasks", stored)
  }

  /** `loadTasksFromStorage`: the stored list, or the empty list when storage
      holds nothing usable. The view is not recomputed here. */
  function LoadTasksFromStorage(b: Board): (r: Board)
    ensures Persisted(r)
    ensures r.stored == b.stored && r.view == b.view && r.period == b.period && r.title == b.title
  {
    b.(all := b.stored.GetOr([]))
  }

  /** `saveTasksToStorage`: the full list overwrites the stored one. */
  function SaveTasksToStorage(b: Board): (r: Board)
    ensures Persisted(r) && r.stored.Some?
    ensures r.all == b.all && r.view == b.view && r.period == b.period && r.title == b.title
  {
    b.(stored := Some(b.all))
  }

  /** `filterTasks(period)`: recomputes the view and title; the current
      period is left as it is. */
  function Refilter(b: Board, period: string, now: Moment): (r: Board)
    ensures r.all == b.all && r.period == b.period && r.stored == b.stored
    ensures FilterTasks(b.all, period, now) == Filtered(r.view, r.title)
  {
    var f := FilterTasks(b.all, period, now);
    b.(view := f.tasks, title := f.title)
  }

  /** The route subscription: a missing or empty `period` parameter is the
      empty period, which becomes current before the view is recomputed. */
  function OnRouteParams(b: Board, param: Option<string>, now: Moment): (r: Board)
    ensures r.period == (if param.Some? then param.value else "")
    ensures r.all == b.all && r.stored == b.stored
    ensures Derived(r, now)
  {
    var period := param.GetOr("");
    Refilter(b.(period := period), period, now)
  }

  /** `ngOnInit`: load, then take the period from the route, which emits
      its current parameters at once. */
  function Init(stored: Option<seq<Task>>, param: Option<string>, now: Moment): (r: Board)
    ensures r.all == (if stored.Some? then stored.value else [])
    ensures r.stored == stored
    ensures Derived(r, now) && Consistent(r)
  {
    OnRouteParams(LoadTasksFromStorage(Construct(stored)), param, now)
  }

  /** `onTaskAdded`: the task goes at the end of the full list, unchecked. */
  function OnTaskAdded(b: Board, task: Task, now: Moment): (r: Board)
    ensures |r.all| == |b.all| + 1
    ensures r.all[..|b.all|] == b.all && r.all[|b.all|] == task
    ensures r.period == b.period && r.stored == Some(r.all)
    ensures Derived(r, now) && Consistent(r)
  {
    var saved := SaveTasksToStorage(b.(all := Append(b.all, task)));
    Refilter(saved, saved.period, now)
  }

  /** `onToggleTask`: flips the completion flag of every task carrying the
      given task's identifier. */
  function OnToggleTask(b: Board, task: Task, now: Moment): (r: Board)
    ensures |r.all| == |b.all|
    ensures forall i :: 0 <= i < |b.all| ==>
      && r.all[i].id == b.all[i].id
      && r.all[i].title == b.all[i].title
      && r.all[i].dueDate == b.all[i].dueDate
      && r.all[i].createdAt == b.all[i].createdAt
      && (r.all[i].completed <==> (b.all[i].completed != (b.all[i].id == task.id)))
    ensures r.period == b.period && r.stored == Some(r.all)
    ensures Derived(r, now) && Consistent(r)
  {
    var saved := SaveTasksToStorage(b.(all := Toggle(b.all, task.id)));
    Refilter(saved, saved.period, now)
  }

  /** `onDeleteTask`: removes every task carrying the given task's
      identifier, without asking for confirmation. */
  function OnDeleteTask(b: Board, task: Task, now: Moment): (r: Board)
    ensures forall t: Task :: t in r.all <==> t in b.all && t.id != task.id
    ensures forall t: Task :: t.id != task.id ==> multiset(r.all)[t] == multiset(b.all)[t]
    ensures SubseqOf(r.all, b.all)
    ensures r.period == b.period && r.stored == Some(r.all)
    ensures Derived(r, now) && Consistent(r)
  {
    var saved := SaveTasksToStorage(b.(all := Delete(b.all, task.id)));
    Refilter(saved, saved.period, now)
  }

  /** `clearAllTasks`: behind the yes/no confirmation, empties the list,
      storage and view; a refusal changes nothing. */
  function ClearAllTasks(b: Board, confirmed: bool, now: Moment): (r: Board)
    ensures confirmed ==> r.all == [] && r.view == [] && r.stored == Some([])
    ensures confirmed ==> r.period == b.period && Derived(r, now) && Consistent(r)
    ensures !confirmed ==> r == b
  {
    if confirmed then
      var saved := SaveTasksToStorage(b.(all := []));
      Refilter(saved, saved.period, now)
    else b
  }

  /** `getCompletedCount`: completed tasks in the view. */
  function CompletedCount(b: Board): nat
  {
    |Filter(b.view, (t: Task) => t.completed)|
  }

  /** `getPendingCount`: tasks in the view not yet completed. */
  function PendingCount(b: Board): nat
  {
    |Filter(b.view, (t: Task) => !t.completed)|
  }

  /** `getTotalCount`: tasks in the view. */
  function TotalCount(b: Board): nat
  {
    |b.view|
  }

  /** `getAllTasksCount`: tasks in the full list, whatever the period. */
  function AllTasksCount(b: Board): nat
  {
    |b.all|
  }

  /** `getCurrentTasks`: the view. */
  function CurrentTasks(b: Board): seq<Task>
  {
    b.view
  }

  /** Every task in the view is either completed or pending, never both. */
  lemma CountsAddUp(b: Board)
    ensures CompletedCount(b) + PendingCount(b) == TotalCount(b)
  {
    FilterComplement(b.view, (t: Task) => t.completed, (t: Task) => !t.completed);
  }

  /** The view never holds more tasks than the full list. */
  lemma TotalAtMostAll(b: Board)
    requires Consistent(b)
    ensures TotalCount(b) <= AllTasksCount(b)
  {
    SubseqLength(b.view, b.all);
  }

  /** Re-applying the same route parameters at the same moment changes
      nothing. */
  lemma RouteIdempotent(b: Board, param: Option<string>, now: Moment)
    ensures OnRouteParams(OnRouteParams(b, param, now), param, now) == OnRouteParams(b, param, now)
  {
  }

  /** Reloading the page in the same session restores the full list. */
  lemma ReloadRestoresList(b: Board, param: Option<string>, now: Moment)
    requires Persisted(b)
    ensures Init(b.stored, param, now).all == b.all
  {
  }

  /** Computed at the same moment, adding a task extends the view by that
      task exactly when the current period shows it. */
  lemma AddedTaskView(b: Board, task: Task, now: Moment)
    requires Derived(b, now)
    ensures OnTaskAdded(b, task, now).view == b.view + (if Keep(Classify(b.period), now, task) then [task] else [])
  {
    ViewAfterAppend(b.all, b.period, now, task);
  }

  /** Computed at the same moment, toggling changes the view only by the
      same toggle. */
  lemma ToggledTaskView(b: Board, task: Task, now: Moment)
    requires Derived(b, now)
    ensures OnToggleTask(b, task, now).view == Toggle(b.view, task.id)
  {
    ViewAfterToggle(b.all, b.period, now, task.id);
  }

  /** Computed at the same moment, deleting changes the view only by the
      same delete. */
  lemma DeletedTaskView(b: Board, task: Task, now: Moment)
    requires Derived(b, now)
    ensures OnDeleteTask(b, task, now).view == Delete(b.view, task.id)
  {
    ViewAfterDelete(b.all, b.period, now, task.id);
  }

  /** Once cleared, the board shows nothing under any period until a task
      is added. */
  lemma ClearedViewEmpty(b: Board, now: Moment, param: Option<string>, later: Moment)
    ensures OnRouteParams(ClearAllTasks(b, true, now), param, later).view == []
  {
    ViewOfEmpty(param.GetOr(""), later);
  }

  /** With distinct identifiers, a delete of a present identifier shrinks
      the list by exactly one and keeps the identifiers distinct. */
  lemma DeleteCountsDown(b: Board, task: Task, now: Moment)
    requires UniqueIds(b.all) && HasId(b.all, task.id)
    ensures AllTasksCount(OnDeleteTask(b, task, now)) == AllTasksCount(b) - 1
    ensures UniqueIds(OnDeleteTask(b, task, now).all)
  {
    DeletePresentRemovesOne(b.all, task.id);
    DeleteKeepsUniqueIds(b.all, task.id);
  }

  /** With distinct identifiers, an addition grows the list by one, and
      keeps the identifiers distinct exactly when the new one is fresh. */
  lemma AddCountsUp(b: Board, task: Task, now: Moment)
    requires UniqueIds(b.all)
    ensures AllTasksCount(OnTaskAdded(b, task, now)) == AllTasksCount(b) + 1
    ensures UniqueIds(OnTaskAdded(b, task, now).all) <==> !HasId(b.all, task.id)
  {
    AppendUniqueIds(b.all, task);
  }

  /** A toggle keeps the number of tasks and their distinct identifiers. */
  lemma ToggleKeepsCount(b: Board, task: Task, now: Moment)
    requires UniqueIds(b.all)
    ensures AllTasksCount(OnToggleTask(b, task, now)) == AllTasksCount(b)
    ensures UniqueIds(OnToggleTask(b, task, now).all)
  {
    ToggleKeepsUniqueIds(b.all, task.id);
  }

  /** The handlers as events, each arriving with the moment it is handled at. */
  datatype Event =
    | RouteParams(param: Option<string>)
    | TaskAdded(task: Task)
    | ToggleTask(toggled: Task)
    | DeleteTask(deleted: Task)
    | ClearAll(confirmed: bool)

  /** The board after handling one event. */
  function Step(b: Board, e: Event, now: Moment): Board
  {
    match e
    case RouteParams(param) => OnRouteParams(b, param, now)
    case TaskAdded(task) => OnTaskAdded(b, task, now)
    case ToggleTask(task) => OnToggleTask(b, task, now)
    case DeleteTask(task) => OnDeleteTask(b, task, now)
    case ClearAll(confirmed) => ClearAllTasks(b, confirmed, now)
  }

  /** The board after handling the events in order. */
  function Run(b: Board, events: seq<(Event, Moment)>): Board
    decreases |events|
  {
    if |events| == 0 then b else Run(Step(b, events[0].0, events[0].1), events[1..])
  }

  /** Every handler keeps the board consistent. */
  lemma StepKeepsConsistent(b: Board, e: Event, now: Moment)
    requires Consistent(b)
    ensures Consistent(Step(b, e, now))
  {
    if e.RouteParams? {
      var r := OnRouteParams(b, e.param, now);
      assert Persisted(r);
    }
  }

  /** From initialisation on, any sequence of handled events keeps the view
      a subsequence of the full list, the title in step with the period,
      and storage in step with the list. */
  lemma {:induction false} RunKeepsConsistent(b: Board, events: seq<(Event, Moment)>)
    requires Consistent(b)
    ensures Consistent(Run(b, events))
    decreases |events|
  {
    if |events| > 0 {
      StepKeepsConsistent(b, events[0].0, events[0].1);
      RunKeepsConsistent(Step(b, events[0].0, events[0].1), events[1..]);
    }
  }

  /** An event that changes the number of tasks by exactly its own count:
      an added identifier is fresh, a deleted one is present, and a clear
      is refused. */
  predicate Counted(all: seq<Task>, e: Event)
  {
    match e
    case TaskAdded(task) => !HasId(all, task.id)
    case DeleteTask(task) => HasId(all, task.id)
    case ClearAll(confirmed) => !confirmed
    case _ => true
  }

  /** Every event of a run is counted on the list it meets. */
  predicate CountedRun(b: Board, events: seq<(Event, Moment)>)
    decreases |events|
  {
    |events| == 0 ||
    (Counted(b.all, events[0].0) && CountedRun(Step(b, events[0].0, events[0].1), events[1..]))
  }

  /** The number of additions in a run. */
  function Adds(events: seq<(Event, Moment)>): nat
    decreases |events|
  {
    if |events| == 0 then 0 else (if events[0].0.TaskAdded? then 1 else 0) + Adds(events[1..])
  }

  /** The number of deletions in a run. */
  function Deletes(events: seq<(Event, Moment)>): nat
    decreases |events|
  {
    if |events| == 0 then 0 else (if events[0].0.DeleteTask? then 1 else 0) + Deletes(events[1..])
  }

  /** One counted event keeps identifiers distinct and moves the count by
      its additions less its deletions. */
  lemma StepCounts(b: Board, e: Event, now: Moment)
    requires UniqueIds(b.all) && Counted(b.all, e)
    ensures UniqueIds(Step(b, e, now).all)
    ensures AllTasksCount(Step(b, e, now)) ==
      AllTasksCount(b) + (if e.TaskAdded? then 1 else 0) - (if e.DeleteTask? then 1 else 0)
  {
    match e
    case TaskAdded(task) => AddCountsUp(b, task, now);
    case DeleteTask(task) => DeleteCountsDown(b, task, now);
    case ToggleTask(task) => ToggleKeepsCount(b, task, now);
    case _ =>
  }

  /** Over a run of counted events from distinct identifiers, the
      identifiers stay distinct and the full count is the initial count
      plus the additions less the deletions. */
  lemma {:induction false} RunCounts(b: Board, events: seq<(Event, Moment)>)
    requires UniqueIds(b.all) && CountedRun(b, events)
    ensures UniqueIds(Run(b, events).all)
    ensures AllTasksCount(Run(b, events)) == AllTasksCount(b) + Adds(events) - Deletes(events)
    decreases |events|
  {
    if |events| > 0 {
      var (e, now) := events[0];
      StepCounts(b, e, now);
      RunCounts(Step(b, e, now), events[1..]);
    }
  }
}
