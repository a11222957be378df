/**
 * The decision logic of `process_course` (course.py:112-191) as functions of
 * the course's task list: which task an assignment is matched to, whether it
 * is rewritten or a new task is added, and what a whole course run does.
 * The class `Store.TaskStore` carries out these decisions step by step.
 */
module Reconcile {
  import opened Wrappers
  import opened PyText
  import opened Marker
  import opened Tags
  import opened Due

  /** A course of the dashboard; its name is the TaskWarrior project of its tasks. */
  datatype Course = Course(id: nat, name: string)

  /** An assignment as the assignment-groups endpoint lists it. */
  datatype Assignment = Assignment(id: nat, name: string, dueAt: Option<string>)

  /** A TaskWarrior task with the fields the script reads and writes; `due` holds its ISO-8601 text. */
  datatype Task = Task(
    description: string,
    project: string,
    due: Option<string>,
    wait: Option<int>,
    tags: set<string>,
    priority: string)

  /** The task list after a course run, and whether the run got through every assignment. */
  datatype Run = Run(tasks: seq<Task>, completed: bool)

  /** The test at course.py:142-145 on a task of the course's project. */
  predicate Matches(t: Task, project: string, assId: string) {
    t.project == project && ExtractAssId(Strip(t.description)) == Some(assId)
  }

  /** The task the loop of course.py:137-170 stops at: the first one of the project that carries the id. */
  function FirstMatch(ts: seq<Task>, project: string, assId: string): (k: Option<nat>)
    ensures k != None ==> k.value < |ts| && Matches(ts[k.value], project, assId)
    ensures k != None ==> forall j :: 0 <= j < k.value ==> !Matches(ts[j], project, assId)
    ensures k == None ==> forall j :: 0 <= j < |ts| ==> !Matches(ts[j], project, assId)
  {
    if ts == [] then None
    else if Matches(ts[0], project, assId) then Some(0)
    else match FirstMatch(ts[1..], project, assId)
      case None => None
      case Some(k) => Some(k + 1)
  }

  /** The condition of course.py:149-153 for rewriting a matched task. */
  predicate NeedsUpdate(t: Task, description: string, due: Option<string>, tags: set<string>) {
    Strip(t.description) != description || !CompDue(t.due, due) || !(tags <= t.tags)
  }

  /** Python truthiness of the converted due date, the test at course.py:181. */
  predicate Truthy(due: Option<string>) {
    due != None && due.value != ""
  }

  /**
   * One pass of the assignment loop body (course.py:126-191) on the task
   * list: `None` when `strptime` raises, which ends the course's run before
   * the task is saved.
   */
  function Reconciled(ts: seq<Task>, project: string, a: Assignment, cal: Calendar): (r: Option<seq<Task>>)
    // the only exception is `strptime` failing on a due date that is present
    ensures r == None ==> a.dueAt != None && cal.fortnightBefore(a.dueAt.value) == None
  {
    var due := ConvertDueDate(a.dueAt, cal.localize);
    var description := Describe(a.name, a.id);
    var tags := DetermineTags(a.name);
    match FirstMatch(ts, project, NatToString(a.id))
    case Some(k) =>
      var t := ts[k];
      if !NeedsUpdate(t, description, due, tags) then Some(ts)
      else
        var edited := t.(description := description, due := due, tags := t.tags + tags);
        if due == None then Some(ts[k := edited])
        else
          (match cal.fortnightBefore(a.dueAt.value)
           case None => None
           case Some(w) => Some(ts[k := edited.(wait := Some(w))]))
    case None =>
      var created := Task(description, project, None, None, tags, "M");
      if !Truthy(due) then Some(ts + [created])
      else
        (match cal.fortnightBefore(a.dueAt.value)
         case None => None
         case Some(w) => Some(ts + [created.(due := due, wait := Some(w))]))
  }

  /** The assignments in loop order: group by group (course.py:124-125). */
  function Flatten(groups: seq<seq<Assignment>>): seq<Assignment> {
    if groups == [] then [] else Flatten(groups[..|groups| - 1]) + groups[|groups| - 1]
  }

  /** `any(group.get("assignments") for group in assignments_data)` (course.py:120). */
  predicate HasAssignments(groups: seq<seq<Assignment>>) {
    exists i :: 0 <= i < |groups| && groups[i] != []
  }

  /** What handling one assignment does to the task list; `None` when it raises. */
  type Step = (seq<Task>, Assignment) -> Option<seq<Task>>

  /** The loop body of course.py:126-191 for the tasks of `project`. */
  function StepOf(project: string, cal: Calendar): Step {
    (ts: seq<Task>, a: Assignment) => Reconciled(ts, project, a, cal)
  }

  /** The assignments handled one after the other by `step`, stopping at the first that raises. */
  function RunAll(ts: seq<Task>, queue: seq<Assignment>, step: Step): Run
    decreases |queue|
  {
    if queue == [] then Run(ts, true)
    else
      var before := RunAll(ts, queue[..|queue| - 1], step);
      if !before.completed then before
      else match step(before.tasks, queue[|queue| - 1])
        case None => Run(before.tasks, false)
        case Some(after) => Run(after, true)
  }

  /** The assignment loops of `process_course` over a queue of assignments. */
  function ReconciledAll(ts: seq<Task>, project: string, queue: seq<Assignment>, cal: Calendar): Run {
    RunAll(ts, queue, StepOf(project, cal))
  }

  /** `process_course` on a task list (course.py:112-191). */
  function CourseOutcome(ts: seq<Task>, course: Course, groups: seq<seq<Assignment>>, cal: Calendar): Run {
    if !HasAssignments(groups) then Run(ts, true)
    else ReconciledAll(ts, course.name, Flatten(groups), cal)
  }

  // ---------------------------------------------------------------------------
  // One assignment

  /** At most one existing task changes: the first match; with no match exactly one task is appended. */
  lemma ReconciledFrame(ts: seq<Task>, project: string, a: Assignment, cal: Calendar)
    requires Reconciled(ts, project, a, cal) != None
    ensures var after := Reconciled(ts, project, a, cal).value;
      var m := FirstMatch(ts, project, NatToString(a.id));
      |after| == |ts| + (if m == None then 1 else 0)
      && forall j :: 0 <= j < |ts| && m != Some(j) ==> after[j] == ts[j]
  {
  }

  /** The task added for an unmatched assignment (course.py:173-188), which later runs match to it. */
  lemma ReconciledCreates(ts: seq<Task>, project: string, a: Assignment, cal: Calendar)
    requires FirstMatch(ts, project, NatToString(a.id)) == None
    requires Reconciled(ts, project, a, cal) != None
    ensures var after := Reconciled(ts, project, a, cal).value;
      var due := ConvertDueDate(a.dueAt, cal.localize);
      |after| == |ts| + 1 && after[..|ts|] == ts
      && after[|ts|].description == Describe(a.name, a.id)
      && after[|ts|].project == project
      && after[|ts|].priority == "M"
      && after[|ts|].tags == DetermineTags(a.name)
      && after[|ts|].due == (if Truthy(due) then due else None)
      && (after[|ts|].wait != None <==> Truthy(due))
      && (Truthy(due) ==> after[|ts|].wait == cal.fortnightBefore(a.dueAt.value))
      && Matches(after[|ts|], project, NatToString(a.id))
  {
    StrippedRoundTrip(a.name, a.id);
    var after := Reconciled(ts, project, a, cal).value;
    assert after[..|ts|] == ts;
  }

  /** A name that is non-empty and does not start with whitespace: its description is left alone by `strip()`. */
  predicate Tidy(name: string) {
    name != [] && !IsSpace(name[0])
  }

  /** `strip()` leaves a description unchanged exactly when the name is tidy. */
  lemma StripDescribe(name: string, id: nat)
    ensures Strip(Describe(name, id)) == Describe(name, id) <==> Tidy(name)
  {
    var s := Describe(name, id);
    var d := NatToString(id);
    assert s[|s| - 1] == d[|d| - 1];
    StripFixed(s);
    if name == [] {
      assert s[0] == ' ';
    } else {
      assert s[0] == name[0];
    }
  }

  /**
   * The update of a matched task (course.py:149-166): tags only grow, the
   * due date becomes the converted one, the wait only moves when there is a
   * due date, and the task still carries the assignment's id. For a tidy
   * name the updated task no longer meets the update condition.
   */
  lemma ReconciledUpdates(ts: seq<Task>, project: string, a: Assignment, cal: Calendar, k: nat)
    requires FirstMatch(ts, project, NatToString(a.id)) == Some(k)
    requires Reconciled(ts, project, a, cal) != None
    ensures var after := Reconciled(ts, project, a, cal).value;
      var due := ConvertDueDate(a.dueAt, cal.localize);
      var tags := DetermineTags(a.name);
      k < |ts| == |after|
      && ts[k].tags <= after[k].tags && tags <= after[k].tags
      && after[k].tags <= ts[k].tags + tags
      && after[k].project == ts[k].project && after[k].priority == ts[k].priority
      && after[k].due == due
      && (due == None ==> after[k].wait == ts[k].wait)
      && Matches(after[k], project, NatToString(a.id))
      && (!NeedsUpdate(ts[k], Describe(a.name, a.id), due, tags) ==> after == ts)
      && (Tidy(a.name) ==> !NeedsUpdate(after[k], Describe(a.name, a.id), due, tags))
  {
    StrippedRoundTrip(a.name, a.id);
    StripDescribe(a.name, a.id);
  }

  /** An update writes the assignment's description, adds its tags, and with a due date recomputes the wait. */
  lemma ReconciledRewrites(ts: seq<Task>, project: string, a: Assignment, cal: Calendar, k: nat)
    requires FirstMatch(ts, project, NatToString(a.id)) == Some(k)
    requires Reconciled(ts, project, a, cal) != None
    requires NeedsUpdate(ts[k], Describe(a.name, a.id), ConvertDueDate(a.dueAt, cal.localize), DetermineTags(a.name))
    ensures var after := Reconciled(ts, project, a, cal).value;
      k < |after|
      && after[k].description == Describe(a.name, a.id)
      && after[k].tags == ts[k].tags + DetermineTags(a.name)
      && (ConvertDueDate(a.dueAt, cal.localize) != None ==> after[k].wait == cal.fortnightBefore(a.dueAt.value))
  {
  }

  /** A name that starts with whitespace is rewritten on every run: the text it is saved with never passes the test at course.py:150. */
  lemma UntidyNameAlwaysUpdates(t: Task, a: Assignment, due: Option<string>, tags: set<string>)
    requires !Tidy(a.name)
    requires t.description == Describe(a.name, a.id)
    ensures NeedsUpdate(t, Describe(a.name, a.id), due, tags)
  {
    StripDescribe(a.name, a.id);
  }

  // ---------------------------------------------------------------------------
  // A whole course

  /** `r` grew from `ts`: no task removed, no tag lost, other projects untouched, every added task belongs to `project` with priority M. */
  predicate Grown(ts: seq<Task>, r: seq<Task>, project: string) {
    |ts| <= |r|
    && (forall j :: 0 <= j < |ts| ==>
          ts[j].tags <= r[j].tags && r[j].project == ts[j].project && r[j].priority == ts[j].priority)
    && (forall j :: 0 <= j < |ts| && ts[j].project != project ==> r[j] == ts[j])
    && (forall j :: |ts| <= j < |r| ==> r[j].project == project && r[j].priority == "M")
  }

  /** Growing twice is growing. */
  lemma GrownTrans(ts: seq<Task>, mid: seq<Task>, r: seq<Task>, project: string)
    requires Grown(ts, mid, project) && Grown(mid, r, project)
    ensures Grown(ts, r, project)
  {
  }

  /** Handling one assignment grows the task list. */
  lemma ReconciledGrows(ts: seq<Task>, project: string, a: Assignment, cal: Calendar)
    requires Reconciled(ts, project, a, cal) != None
    ensures Grown(ts, Reconciled(ts, project, a, cal).value, project)
  {
    var m := FirstMatch(ts, project, NatToString(a.id));
    ReconciledFrame(ts, project, a, cal);
    if m == None {
      ReconciledCreates(ts, project, a, cal);
    } else {
      ReconciledUpdates(ts, project, a, cal, m.value);
    }
  }

  /** The last assignment of a run either left the task list as it was or was handled on it. */
  lemma RunAllStep(ts: seq<Task>, queue: seq<Assignment>, step: Step)
    requires queue != []
    ensures var before := RunAll(ts, queue[..|queue| - 1], step);
      var r := RunAll(ts, queue, step).tasks;
      r == before.tasks || (before.completed && step(before.tasks, queue[|queue| - 1]) == Some(r))
  {
  }

  /** Over a course run, no task is removed, no tag is lost, other projects are untouched and every added task belongs to the course. */
  lemma {:induction false} ReconciledAllGrows(ts: seq<Task>, project: string, queue: seq<Assignment>, cal: Calendar)
    ensures Grown(ts, ReconciledAll(ts, project, queue, cal).tasks, project)
    decreases |queue|
  {
    if queue != [] {
      var init := queue[..|queue| - 1];
      RunAllStep(ts, queue, StepOf(project, cal));
      ReconciledAllGrows(ts, project, init, cal);
      var mid := ReconciledAll(ts, project, init, cal).tasks;
      var r := ReconciledAll(ts, project, queue, cal).tasks;
      if r != mid {
        ReconciledGrows(mid, project, queue[|queue| - 1], cal);
        GrownTrans(ts, mid, r, project);
      }
    }
  }

  /** The assignments of consecutive runs of groups follow each other. */
  lemma {:induction false} FlattenAppend(x: seq<seq<Assignment>>, y: seq<seq<Assignment>>)
    ensures Flatten(x + y) == Flatten(x) + Flatten(y)
    decreases |y|
  {
    if y == [] {
      assert x + y == x;
    } else {
      assert (x + y)[..|x + y| - 1] == x + y[..|y| - 1];
      FlattenAppend(x, y[..|y| - 1]);
    }
  }

  /** Once a run has stopped, later assignments are never reached. */
  lemma {:induction false} StoppedRunStaysStopped(ts: seq<Task>, done: seq<Assignment>, rest: seq<Assignment>, step: Step)
    requires !RunAll(ts, done, step).completed
    ensures RunAll(ts, done + rest, step) == RunAll(ts, done, step)
    decreases |rest|
  {
    if rest == [] {
      assert done + rest == done;
    } else {
      assert (done + rest)[..|done + rest| - 1] == done + rest[..|rest| - 1];
      StoppedRunStaysStopped(ts, done, rest[..|rest| - 1], step);
    }
  }

  /** A completed run completed its first steps, and its last step led to its result. */
  lemma RunAllLast(ts: seq<Task>, queue: seq<Assignment>, step: Step)
    requires queue != [] && RunAll(ts, queue, step).completed
    ensures var before := RunAll(ts, queue[..|queue| - 1], step);
      before.completed && step(before.tasks, queue[|queue| - 1]) == Some(RunAll(ts, queue, step).tasks)
  {
  }

  /** One more assignment of a group extends a completed run by one step. */
  lemma RunAllExtend(ts: seq<Task>, done: seq<Assignment>, group: seq<Assignment>, i: nat, step: Step, current: seq<Task>)
    requires i < |group|
    requires RunAll(ts, done + group[..i], step) == Run(current, true)
    ensures step(current, group[i]) == None ==> RunAll(ts, done + group[..i + 1], step) == Run(current, false)
    ensures step(current, group[i]) != None
        ==> RunAll(ts, done + group[..i + 1], step) == Run(step(current, group[i]).value, true)
  {
    var upTo := done + group[..i + 1];
    assert upTo[..|upTo| - 1] == done + group[..i];
  }

  /** A run that stops inside a group is not resumed by the rest of the group. */
  lemma StoppedInGroup(ts: seq<Task>, done: seq<Assignment>, group: seq<Assignment>, i: nat, step: Step)
    requires i < |group|
    requires !RunAll(ts, done + group[..i + 1], step).completed
    ensures RunAll(ts, done + group, step) == RunAll(ts, done + group[..i + 1], step)
  {
    SplitAfter(done, group, i + 1);
    StoppedRunStaysStopped(ts, done + group[..i + 1], group[i + 1..], step);
  }

  /** Cutting a group after its first `i` assignments. */
  lemma SplitAfter(done: seq<Assignment>, group: seq<Assignment>, i: nat)
    requires i <= |group|
    ensures (done + group[..i]) + group[i..] == done + group
  {
    assert group[..i] + group[i..] == group;
  }

  /** A group's loop starts with the assignments done so far and ends with the whole group appended. */
  lemma GroupEnds(done: seq<Assignment>, group: seq<Assignment>)
    ensures done + group[..0] == done
    ensures done + group[..|group|] == done + group
  {
    assert group[..0] == [];
    assert group[..|group|] == group;
  }

  /** The groups up to and including `g` contribute their assignments in order. */
  lemma FlattenPrefix(groups: seq<seq<Assignment>>, g: nat)
    requires g < |groups|
    ensures Flatten(groups[..g + 1]) == Flatten(groups[..g]) + groups[g]
  {
    assert groups[..g + 1][..g] == groups[..g];
  }

  /** A run that stops within group `g` is the run of the whole course. */
  lemma StoppedAtGroup(ts: seq<Task>, groups: seq<seq<Assignment>>, g: nat, step: Step)
    requires g < |groups|
    requires !RunAll(ts, Flatten(groups[..g + 1]), step).completed
    ensures RunAll(ts, Flatten(groups), step) == RunAll(ts, Flatten(groups[..g + 1]), step)
  {
    FlattenAppend(groups[..g + 1], groups[g + 1..]);
    assert groups == groups[..g + 1] + groups[g + 1..];
    StoppedRunStaysStopped(ts, Flatten(groups[..g + 1]), Flatten(groups[g + 1..]), step);
  }

  /** The loops visit nothing when no group has an assignment. */
  lemma {:induction false} FlattenEmpty(groups: seq<seq<Assignment>>)
    ensures Flatten(groups) == [] <==> !HasAssignments(groups)
  {
    if groups != [] {
      var init := groups[..|groups| - 1];
      FlattenEmpty(init);
      if HasAssignments(init) {
        var i :| 0 <= i < |init| && init[i] != [];
        assert groups[i] != [];
      }
      if HasAssignments(groups) && groups[|groups| - 1] == [] {
        var i :| 0 <= i < |groups| && groups[i] != [];
        assert init[i] != [];
      }
    }
  }

  /** A course without assignments leaves the task list as it is; the early return at course.py:119-121 agrees with running the loops. */
  lemma NoAssignmentsNoChange(ts: seq<Task>, course: Course, groups: seq<seq<Assignment>>, cal: Calendar)
    requires !HasAssignments(groups)
    ensures CourseOutcome(ts, course, groups, cal) == Run(ts, true)
    ensures ReconciledAll(ts, course.name, Flatten(groups), cal) == Run(ts, true)
  {
    FlattenEmpty(groups);
  }

  // ---------------------------------------------------------------------------
  // Idempotence

  /** An assignment is settled when its first matching task passes the update test. */
  predicate Settled(ts: seq<Task>, project: string, a: Assignment, cal: Calendar) {
    var m := FirstMatch(ts, project, NatToString(a.id));
    m != None
    && !NeedsUpdate(ts[m.value], Describe(a.name, a.id), ConvertDueDate(a.dueAt, cal.localize), DetermineTags(a.name))
  }

  /** Assignments whose handling does not depend on the order of runs: tidy names, non-empty due texts, distinct ids. */
  predicate WellFormed(queue: seq<Assignment>, cal: Calendar) {
    (forall i :: 0 <= i < |queue| ==> Tidy(queue[i].name) && ConvertDueDate(queue[i].dueAt, cal.localize) != Some(""))
    && (forall i, j :: 0 <= i < j < |queue| ==> queue[i].id != queue[j].id)
  }

  /** The first match is determined by where the id first occurs. */
  lemma FirstMatchAt(ts: seq<Task>, project: string, assId: string, k: nat)
    requires k < |ts| && Matches(ts[k], project, assId)
    requires forall j :: 0 <= j < k ==> !Matches(ts[j], project, assId)
    ensures FirstMatch(ts, project, assId) == Some(k)
  {
  }

  /** A settled assignment changes nothing. */
  lemma SettledIsFixpoint(ts: seq<Task>, project: string, a: Assignment, cal: Calendar)
    requires Settled(ts, project, a, cal)
    ensures Reconciled(ts, project, a, cal) == Some(ts)
  {
  }

  /** Handling a well-formed assignment settles it. */
  lemma ReconciledSettles(ts: seq<Task>, project: string, a: Assignment, cal: Calendar)
    requires Tidy(a.name) && ConvertDueDate(a.dueAt, cal.localize) != Some("")
    requires Reconciled(ts, project, a, cal) != None
    ensures Settled(Reconciled(ts, project, a, cal).value, project, a, cal)
  {
    var after := Reconciled(ts, project, a, cal).value;
    var id := NatToString(a.id);
    var m := FirstMatch(ts, project, id);
    ReconciledFrame(ts, project, a, cal);
    if m == None {
      ReconciledCreates(ts, project, a, cal);
      StripDescribe(a.name, a.id);
      FirstMatchAt(after, project, id, |ts|);
    } else {
      ReconciledUpdates(ts, project, a, cal, m.value);
      FirstMatchAt(after, project, id, m.value);
    }
  }

  /** Handling one assignment does not unsettle another with a different id. */
  lemma ReconciledKeepsSettled(ts: seq<Task>, project: string, a: Assignment, b: Assignment, cal: Calendar)
    requires a.id != b.id
    requires Settled(ts, project, b, cal)
    requires Reconciled(ts, project, a, cal) != None
    ensures Settled(Reconciled(ts, project, a, cal).value, project, b, cal)
  {
    var after := Reconciled(ts, project, a, cal).value;
    var idA, idB := NatToString(a.id), NatToString(b.id);
    NatToStringInjective(a.id, b.id);
    var kb := FirstMatch(ts, project, idB).value;
    var m := FirstMatch(ts, project, idA);
    ReconciledFrame(ts, project, a, cal);
    if m == None {
      FirstMatchAt(after, project, idB, kb);
    } else {
      var ka := m.value;
      ReconciledUpdates(ts, project, a, cal, ka);
      assert ka != kb;
      assert !Matches(after[ka], project, idB);
      FirstMatchAt(after, project, idB, kb);
    }
  }

  /** One more well-formed assignment keeps the earlier ones settled and settles itself. */
  lemma StepSettles(mid: seq<Task>, project: string, init: seq<Assignment>, queue: seq<Assignment>, cal: Calendar, after: seq<Task>)
    requires queue != [] && init == queue[..|queue| - 1] && WellFormed(queue, cal)
    requires forall i :: 0 <= i < |init| ==> Settled(mid, project, init[i], cal)
    requires Reconciled(mid, project, queue[|queue| - 1], cal) == Some(after)
    ensures forall i :: 0 <= i < |queue| ==> Settled(after, project, queue[i], cal)
  {
    var a := queue[|queue| - 1];
    ReconciledSettles(mid, project, a, cal);
    forall i | 0 <= i < |queue| - 1
      ensures Settled(after, project, queue[i], cal)
    {
      assert init[i] == queue[i];
      ReconciledKeepsSettled(mid, project, a, queue[i], cal);
    }
  }

  /** A prefix of well-formed assignments is well formed. */
  lemma WellFormedPrefix(queue: seq<Assignment>, cal: Calendar)
    requires queue != [] && WellFormed(queue, cal)
    ensures WellFormed(queue[..|queue| - 1], cal)
  {
  }

  /** After a completed run every assignment of the run is settled. */
  lemma {:induction false} ReconciledAllSettles(ts: seq<Task>, project: string, queue: seq<Assignment>, cal: Calendar)
    requires WellFormed(queue, cal)
    requires ReconciledAll(ts, project, queue, cal).completed
    ensures forall i :: 0 <= i < |queue| ==> Settled(ReconciledAll(ts, project, queue, cal).tasks, project, queue[i], cal)
    decreases |queue|
  {
    if queue != [] {
      var init := queue[..|queue| - 1];
      WellFormedPrefix(queue, cal);
      RunAllLast(ts, queue, StepOf(project, cal));
      ReconciledAllSettles(ts, project, init, cal);
      StepSettles(ReconciledAll(ts, project, init, cal).tasks, project, init, queue, cal, ReconciledAll(ts, project, queue, cal).tasks);
    }
  }

  /** A run over settled assignments changes nothing and completes. */
  lemma {:induction false} SettledRunIsNoop(ts: seq<Task>, project: string, queue: seq<Assignment>, cal: Calendar)
    requires forall i :: 0 <= i < |queue| ==> Settled(ts, project, queue[i], cal)
    ensures ReconciledAll(ts, project, queue, cal) == Run(ts, true)
    decreases |queue|
  {
    if queue != [] {
      SettledRunIsNoop(ts, project, queue[..|queue| - 1], cal);
      SettledIsFixpoint(ts, project, queue[|queue| - 1], cal);
    }
  }

  /** A run that stopped stopped either inside its prefix or at its last step. */
  lemma RunAllStopped(ts: seq<Task>, queue: seq<Assignment>, step: Step)
    requires queue != [] && !RunAll(ts, queue, step).completed
    ensures var before := RunAll(ts, queue[..|queue| - 1], step);
      (!before.completed && RunAll(ts, queue, step) == before)
      || (before.completed && step(before.tasks, queue[|queue| - 1]) == None
          && RunAll(ts, queue, step) == Run(before.tasks, false))
  {
  }

  /** Two runs over the same queue whose prefixes end alike end alike. */
  lemma RunAllSamePrefix(ts: seq<Task>, us: seq<Task>, queue: seq<Assignment>, step: Step)
    requires queue != []
    requires RunAll(ts, queue[..|queue| - 1], step) == RunAll(us, queue[..|queue| - 1], step)
    ensures RunAll(ts, queue, step) == RunAll(us, queue, step)
  {
  }

  /**
   * Running the same queue a second time, on the tasks the first run left,
   * gives the same outcome: a completed run writes nothing more, and a run
   * that stopped stops again at the same assignment with the same tasks.
   */
  lemma {:induction false} ReconciledAllIdempotent(ts: seq<Task>, project: string, queue: seq<Assignment>, cal: Calendar)
    requires WellFormed(queue, cal)
    ensures var r := ReconciledAll(ts, project, queue, cal);
      ReconciledAll(r.tasks, project, queue, cal) == r
    decreases |queue|
  {
    var r := ReconciledAll(ts, project, queue, cal);
    if r.completed {
      ReconciledAllSettles(ts, project, queue, cal);
      SettledRunIsNoop(r.tasks, project, queue, cal);
    } else {
      var init := queue[..|queue| - 1];
      var before := ReconciledAll(ts, project, init, cal);
      WellFormedPrefix(queue, cal);
      RunAllStopped(ts, queue, StepOf(project, cal));
      if !before.completed {
        ReconciledAllIdempotent(ts, project, init, cal);
        RunAllSamePrefix(r.tasks, ts, queue, StepOf(project, cal));
      } else {
        ReconciledAllSettles(ts, project, init, cal);
        SettledRunIsNoop(before.tasks, project, init, cal);
        RunAllSamePrefix(r.tasks, ts, queue, StepOf(project, cal));
      }
    }
  }

  /** Idempotence: running the course again on the tasks a run left, with the same assignments, gives the same outcome. */
  lemma CourseIdempotent(ts: seq<Task>, course: Course, groups: seq<seq<Assignment>>, cal: Calendar)
    requires WellFormed(Flatten(groups), cal)
    ensures var o := CourseOutcome(ts, course, groups, cal);
      CourseOutcome(o.tasks, course, groups, cal) == o
  {
    if HasAssignments(groups) {
      ReconciledAllIdempotent(ts, course.name, Flatten(groups), cal);
    }
  }
}
