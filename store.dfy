/**
 * The TaskWarrior database as `process_course` uses it (course.py:112-191):
 * the task list is read afresh for every assignment, a matched task is
 * edited and saved in place, and a new task is saved at the end.
 */
module Store {
  import opened Wrappers
  import opened PyText
  import opened Marker
  import opened Tags
  import opened Due
  import opened Reconcile

  class TaskStore {
    /** Every task, in the order `tw.tasks.filter` returns them. */
    var tasks: seq<Task>

    constructor (initial: seq<Task>)
      ensures tasks == initial
    {
      tasks := initial;
    }

    /**
     * The scan of course.py:137-170 up to its `break`: the position of the
     * first task of the project whose stripped description carries the id.
     */
    method FindTask(project: string, assId: string) returns (found: Option<nat>)
      ensures found == FirstMatch(tasks, project, assId)
    {
      found := None;
      var i := 0;
      while i < |tasks|
        invariant 0 <= i <= |tasks|
        invariant forall j :: 0 <= j < i ==> !Matches(tasks[j], project, assId)
      {
        var tkDescription := Strip(tasks[i].description);
        var existingAssId := ExtractAssId(tkDescription);
        if tasks[i].project == project && existingAssId == Some(assId) {
          found := Some(i);
          FirstMatchAt(tasks, project, assId, i);
          return;
        }
        i := i + 1;
      }
    }

    /**
     * The body of the assignment loop (course.py:126-191). It returns false,
     * with nothing saved, when `strptime` raises on the raw due date.
     */
    method ReconcileAssignment(project: string, a: Assignment, cal: Calendar) returns (ok: bool)
      modifies this
      ensures ok ==> Reconciled(old(tasks), project, a, cal) == Some(tasks)
      ensures !ok ==> Reconciled(old(tasks), project, a, cal) == None && tasks == old(tasks)
    {
      var assDueDt := ConvertDueDate(a.dueAt, cal.localize);
      var found := FindTask(project, NatToString(a.id));
      var description := Describe(a.name, a.id);
      var tags := DetermineTags(a.name);
      match found {
        case Some(k) =>
          var existing := tasks[k];
          if Strip(existing.description) != description
             || !CompDue(existing.due, assDueDt)
             || !(tags <= existing.tags)
          {
            var edited := existing.(description := description, due := assDueDt, tags := existing.tags + tags);
            if assDueDt != None {
              var wait := cal.fortnightBefore(a.dueAt.value);
              if wait == None {
                return false;
              }
              edited := edited.(wait := wait);
            }
            tasks := tasks[k := edited];
          }
        case None =>
          var created := Task(description, project, None, None, tags, "M");
          if assDueDt != None && assDueDt.value != "" {
            var wait := cal.fortnightBefore(a.dueAt.value);
            if wait == None {
              return false;
            }
            created := created.(due := assDueDt, wait := wait);
          }
          tasks := tasks + [created];
      }
      return true;
    }

    /**
     * The inner loop of course.py:125-191 over one group's assignments,
     * continuing the run that has handled `done` so far.
     */
    method ReconcileGroup(project: string, group: seq<Assignment>, cal: Calendar,
                          ghost start: seq<Task>, ghost done: seq<Assignment>) returns (ok: bool)
      requires ReconciledAll(start, project, done, cal) == Run(tasks, true)
      modifies this
      ensures ReconciledAll(start, project, done + group, cal) == Run(tasks, ok)
    {
      var i := 0;
      GroupEnds(done, group);
      while i < |group|
        invariant 0 <= i <= |group|
        invariant ReconciledAll(start, project, done + group[..i], cal) == Run(tasks, true)
      {
        ghost var current := tasks;
        ok := ReconcileAssignment(project, group[i], cal);
        RunAllExtend(start, done, group, i, StepOf(project, cal), current);
        if !ok {
          StoppedInGroup(start, done, group, i, StepOf(project, cal));
          return;
        }
        i := i + 1;
      }
      ok := true;
    }

    /**
     * `process_course`: every assignment of every group in order, until one
     * raises; returns whether the run got through them all.
     */
    method ProcessCourse(course: Course, groups: seq<seq<Assignment>>, cal: Calendar) returns (completed: bool)
      modifies this
      ensures Run(tasks, completed) == CourseOutcome(old(tasks), course, groups, cal)
    {
      if !HasAssignments(groups) {
        return true;
      }
      ghost var start := tasks;
      var g := 0;
      while g < |groups|
        invariant 0 <= g <= |groups|
        invariant ReconciledAll(start, course.name, Flatten(groups[..g]), cal) == Run(tasks, true)
      {
        var ok := ReconcileGroup(course.name, groups[g], cal, start, Flatten(groups[..g]));
        FlattenPrefix(groups, g);
        if !ok {
          StoppedAtGroup(start, groups, g, StepOf(course.name, cal));
          return false;
        }
        g := g + 1;
      }
      assert groups[..|groups|] == groups;
      return true;
    }
  }
}
