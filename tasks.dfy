/** The dashboard (app/routes/tasks.tsx): the loader's ownership query, the
    status/search filter and the per-status counts. */
module Tasks {
  import opened Wrappers
  import opened Seqs
  import opened Strings
  import opened Store
  import opened Auth

  /** A task row as the dashboard sees it. `status` is the stored string; the
      dashboard casts it to `'ALL' | 'TODO' | 'IN_PROGRESS' | 'DONE'` unchecked. */
  datatype Task = Task(id: Id, title: string, description: Option<string>, status: string,
                       assignedToId: Option<Id>, createdById: Id)

  /** The loader's `where`: assigned to the user or created by the user. */
  predicate Owned(task: Task, userId: Id) {
    task.assignedToId == Some(userId) || task.createdById == userId
  }

  /** `prisma.task.findMany({ where: { OR: [...] } })` over the table of tasks. */
  function OwnedTasks(tasks: seq<Task>, userId: Id): (r: seq<Task>)
    ensures |r| <= |tasks|
    ensures forall t :: t in r <==> t in tasks && Owned(t, userId)
  {
    Filter(tasks, (t: Task) => Owned(t, userId))
  }

  /** `loader`: the signed-in user's tasks, or the redirect `requireUserId` throws. */
  function Loader(session: Session, pathname: string, tasks: seq<Task>): (r: Result<seq<Task>, AuthRedirect>)
    ensures r.Failure? <==> GetUserFromSession(session).None?
    ensures r.Failure? ==> r.error == AuthRedirect(pathname)
    ensures r.Success? ==> r.value == OwnedTasks(tasks, GetUserFromSession(session).value)
  {
    match RequireUserId(session, pathname, None)
    case Failure(redirect) => Failure(redirect)
    case Success(userId) => Success(OwnedTasks(tasks, userId))
  }

  /** The loader returns exactly the user's tasks, in table order. */
  lemma OwnedTasksExactly(tasks: seq<Task>, userId: Id, t: Task)
    ensures t in OwnedTasks(tasks, userId) <==> t in tasks && Owned(t, userId)
    ensures IsSubsequence(OwnedTasks(tasks, userId), tasks)
  {
    FilterIsSubsequence(tasks, (t: Task) => Owned(t, userId));
  }

  /** `statusFilter === 'ALL' || task.status === statusFilter`, and the lower-cased
      query occurs in the lower-cased title or in the lower-cased description. */
  function Matches(task: Task, statusFilter: string, searchQuery: string): (r: bool)
    ensures r <==>
      && (statusFilter == "ALL" || task.status == statusFilter)
      && ((exists i :: OccursAt(Lower(task.title), Lower(searchQuery), i))
          || (task.description.Some? && exists i :: OccursAt(Lower(task.description.value), Lower(searchQuery), i)))
  {
    var matchesStatus := statusFilter == "ALL" || task.status == statusFilter;
    var q := Lower(searchQuery);
    IncludesAt(Lower(task.title), q);
    var inDescription :=
      task.description.Some? && (IncludesAt(Lower(task.description.value), q); Includes(Lower(task.description.value), q));
    matchesStatus && (Includes(Lower(task.title), q) || inDescription)
  }

  /** The search ignores the case of the query: lower-casing it first changes nothing. */
  lemma MatchesIgnoresQueryCase(task: Task, statusFilter: string, searchQuery: string)
    ensures Matches(task, statusFilter, searchQuery) <==> Matches(task, statusFilter, Lower(searchQuery))
  {
    LowerIdempotent(searchQuery);
  }

  /** `filteredTasks`: the tasks that match, and only those. */
  function FilteredTasks(tasks: seq<Task>, statusFilter: string, searchQuery: string): (r: seq<Task>)
    ensures |r| <= |tasks|
    ensures forall t :: t in r <==> t in tasks && Matches(t, statusFilter, searchQuery)
  {
    Filter(tasks, (t: Task) => Matches(t, statusFilter, searchQuery))
  }

  /** A task is shown iff its status passes and the query occurs, ignoring ASCII case,
      in its title or its description; shown tasks keep their order. */
  lemma FilteredTasksExactly(tasks: seq<Task>, statusFilter: string, searchQuery: string, t: Task)
    ensures t in FilteredTasks(tasks, statusFilter, searchQuery) <==>
      && t in tasks
      && (statusFilter == "ALL" || t.status == statusFilter)
      && ((exists i :: OccursAt(Lower(t.title), Lower(searchQuery), i))
          || (t.description.Some? && exists i :: OccursAt(Lower(t.description.value), Lower(searchQuery), i)))
    ensures IsSubsequence(FilteredTasks(tasks, statusFilter, searchQuery), tasks)
  {
    FilterIsSubsequence(tasks, (t: Task) => Matches(t, statusFilter, searchQuery));
  }

  /** The initial view, status 'ALL' and an empty query, shows every task. */
  lemma UnfilteredShowsAll(tasks: seq<Task>)
    ensures FilteredTasks(tasks, "ALL", "") == tasks
  {
    forall i | 0 <= i < |tasks| ensures Matches(tasks[i], "ALL", "") {
      IncludesEmpty(Lower(tasks[i].title));
    }
    FilterAll(tasks, (t: Task) => Matches(t, "ALL", ""));
  }

  /** The number of tasks whose status is `status`. */
  function CountStatus(tasks: seq<Task>, status: string): nat {
    if tasks == [] then 0
    else CountStatus(tasks[..|tasks| - 1], status) + (if tasks[|tasks| - 1].status == status then 1 else 0)
  }

  function StatusesOf(tasks: seq<Task>): set<string> {
    set t | t in tasks :: t.status
  }

  const InitialStatuses: set<string> := {"ALL", "TODO", "IN_PROGRESS", "DONE"}

  lemma {:induction false} CountAbsentStatus(tasks: seq<Task>, status: string)
    requires status !in StatusesOf(tasks)
    ensures CountStatus(tasks, status) == 0
  {
    if tasks != [] {
      var init := tasks[..|tasks| - 1];
      assert StatusesOf(init) <= StatusesOf(tasks) by {
        forall t | t in init ensures t in tasks { }
      }
      CountAbsentStatus(init, status);
    }
  }

  /** One step of the reduce: the counts of `tasks[..i + 1]` from those of `tasks[..i]`. */
  lemma CountStep(tasks: seq<Task>, i: nat)
    requires i < |tasks|
    ensures StatusesOf(tasks[..i + 1]) == StatusesOf(tasks[..i]) + {tasks[i].status}
    ensures forall s :: CountStatus(tasks[..i + 1], s)
                        == CountStatus(tasks[..i], s) + (if tasks[i].status == s then 1 else 0)
  {
    assert tasks[..i + 1][..i] == tasks[..i];
    assert tasks[..i + 1] == tasks[..i] + [tasks[i]];
  }

  /** What `StatusCounts` has tallied after the tasks `done`. */
  ghost predicate Tallied(acc: map<string, nat>, done: seq<Task>) {
    && acc.Keys == InitialStatuses + StatusesOf(done)
    && acc["ALL"] == |done| + CountStatus(done, "ALL")
    && forall s :: s in acc && s != "ALL" ==> acc[s] == CountStatus(done, s)
  }

  /** The reduce's initial value: every status of the filter menu at 0. */
  const InitialCounts: map<string, nat> := map["ALL" := 0, "TODO" := 0, "IN_PROGRESS" := 0, "DONE" := 0]

  /** Before any task, the initial value is the tally. */
  lemma InitialTally(tasks: seq<Task>)
    ensures Tallied(InitialCounts, tasks[..0])
  {
    assert tasks[..0] == [];
    assert InitialCounts.Keys == InitialStatuses;
    assert StatusesOf([]) == {};
  }

  /** The tally of all the tasks is what `StatusCounts` promises. */
  lemma FinalTally(acc: map<string, nat>, tasks: seq<Task>)
    requires Tallied(acc, tasks[..|tasks|])
    ensures acc.Keys == InitialStatuses + StatusesOf(tasks)
    ensures acc["ALL"] == |tasks| + CountStatus(tasks, "ALL")
    ensures forall s :: s in acc && s != "ALL" ==> acc[s] == CountStatus(tasks, s)
  {
    assert tasks[..|tasks|] == tasks;
  }

  /** The reduce's callback: one more for the task's own status (starting from 0 when
      the key is new), then one more for 'ALL'. */
  function Tally(acc: map<string, nat>, status: string): map<string, nat> {
    var counted := acc[status := (if status in acc then acc[status] else 0) + 1];
    counted["ALL" := (if "ALL" in counted then counted["ALL"] else 0) + 1]
  }

  /** Counting one more task keeps the tally. */
  lemma TallyStep(acc: map<string, nat>, tasks: seq<Task>, i: nat)
    requires i < |tasks| && Tallied(acc, tasks[..i])
    ensures Tallied(Tally(acc, tasks[i].status), tasks[..i + 1])
  {
    var status := tasks[i].status;
    CountStep(tasks, i);
    if status !in acc {
      CountAbsentStatus(tasks[..i], status);
    }
    var count := if status in acc then acc[status] else 0;
    assert count == CountStatus(tasks[..i], status) + (if status == "ALL" then i else 0);
  }

  /** `statusCounts`: the `reduce` that starts every status at 0 and, per task, adds one
      to each row's own status and one to 'ALL'. A status outside the four gains its
      own key; a task whose status is 'ALL' adds two to 'ALL'. */
  method StatusCounts(tasks: seq<Task>) returns (acc: map<string, nat>)
    ensures acc.Keys == InitialStatuses + StatusesOf(tasks)
    ensures acc["ALL"] == |tasks| + CountStatus(tasks, "ALL")
    ensures forall s :: s in acc && s != "ALL" ==> acc[s] == CountStatus(tasks, s)
  {
    acc := InitialCounts;
    InitialTally(tasks);
    for i := 0 to |tasks|
      invariant Tallied(acc, tasks[..i])
    {
      TallyStep(acc, tasks, i);
      acc := Tally(acc, tasks[i].status);
    }
    FinalTally(acc, tasks);
  }

  /** When every status is one of the three, the three counts add up to the total
      and no task has status 'ALL'. */
  lemma {:induction false} CountsPartitionTasks(tasks: seq<Task>)
    requires forall i :: 0 <= i < |tasks| ==> tasks[i].status in {"TODO", "IN_PROGRESS", "DONE"}
    ensures CountStatus(tasks, "TODO") + CountStatus(tasks, "IN_PROGRESS") + CountStatus(tasks, "DONE") == |tasks|
    ensures CountStatus(tasks, "ALL") == 0
  {
    if tasks != [] {
      CountsPartitionTasks(tasks[..|tasks| - 1]);
    }
  }

  /** A corollary of `StatusCounts`, not an operation of the dashboard: with the three
      statuses only, 'ALL' counts the tasks and equals TODO + IN_PROGRESS + DONE. */
  method StatusCountsAddUp(tasks: seq<Task>) returns (acc: map<string, nat>)
    requires forall i :: 0 <= i < |tasks| ==> tasks[i].status in {"TODO", "IN_PROGRESS", "DONE"}
    ensures InitialStatuses <= acc.Keys
    ensures acc["ALL"] == |tasks| == acc["TODO"] + acc["IN_PROGRESS"] + acc["DONE"]
  {
    acc := StatusCounts(tasks);
    CountsPartitionTasks(tasks);
  }
}
