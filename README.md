# TwCanvas course sync: a Dafny model

`course.py` reads the assignments of each course on the course site and keeps
one TaskWarrior task per assignment. Each assignment task belongs to the
course's project. Its description ends in ` #<assignment id>`. Its tags say
what kind of work it is (quiz, lab, hw, exam, pre). Its due date and wait date
follow the assignment's due date.

This project models the decision logic of that script:

- `extract_ass_id`: the id marker read back from a task description.
- `determine_tags`: the keyword classifier.
- `comp_due`, and the `None`/`"null"` short-circuit of `convert_due_date`.
- The match / update / create loop of `process_course`: on a task list
  (functions in `Reconcile`) and as a mutable store (`Store.TaskStore`).

The parts of Python the script relies on are modelled in `PyText`:

- `str.strip`, `str.split` and `str.isspace` (Python's whitespace set).
- `str.lower`, for ASCII and the Kelvin sign.
- `str(int)`.

Files:

- `wrappers.dfy`: `Option`.
- `pytext.dfy`: the Python string operations above.
- `marker.dfy`: `re.findall(r"#(\d+)", …)` and `extract_ass_id`, the
  description format, and the round trip between them.
- `tags.dfy`: `determine_tags`.
- `due.dfy`: `convert_due_date`'s null branch and `comp_due`. Calendar
  arithmetic enters as a `Calendar` value holding two functions.
- `reconcile.dfy`: one assignment (`Reconciled`), a whole course run
  (`RunAll`, `ReconciledAll`, `CourseOutcome`), and their properties.
  Properties include the frame, the created task and the updated task, no task
  or tag ever lost, and idempotence.
- `store.dfy`: class `TaskStore`. Its methods run the loops of
  `process_course` on a `seq<Task>` field. Each method's postcondition ties
  the new state to the functions of `reconcile.dfy`.

### The keyword table

The keyword table (course.py:80-92) has eleven entries, including
`"finalexam" → "exam"`; the model keeps all eleven.

### Behaviour the model makes explicit

- **One failure ends the course.** `convert_due_date` swallows parse errors.
  The wait computation does not: `datetime.strptime(ass_due, "%Y-%m-%dT%H:%M:%SZ")`
  raises for any due text that is not in that exact format. The exception
  leaves `process_course` before that assignment's task is saved. The model
  returns `None` from `Reconciled` in that case. A course run stops there with
  `completed == false`, keeping every save made before it.
- **Idempotence has conditions.** Running a course a second time on the task
  list the first run left gives the same outcome (`Reconcile.CourseIdempotent`):
  after a completed run nothing more is written, and a run that stopped at a
  raising assignment stops there again with the same tasks. This holds when
  the assignments are *well formed*:
  - every assignment name is *tidy* (it is non-empty and does not start with whitespace);
  - no converted due date is the empty text;
  - assignment ids are distinct.

  Without the first, the task is re-saved on every run
  (`Reconcile.UntidyNameAlwaysUpdates`). The stored description is compared
  after `strip()` with the unstripped `f"{name} #{id}"`.
- **The match uses the stripped description; the created task does not.** A
  created task whose name has leading whitespace is still found again,
  because extraction happens after `strip()` (`Marker.StrippedRoundTrip`).

## Model

| member | source | states |
|---|---|---|
| PyText.Strip | course.py:138 | `str.strip()`: whitespace cut from both ends; its contract is stated by the three lemmas below |
| PyText.TrimLeftSpec | course.py:138 | the left half of `strip()`: the result is a suffix of the text, everything cut off is whitespace, and the result does not start with whitespace |
| PyText.TrimRightSpec | course.py:138 | the right half of `strip()`: the result is a prefix of the text, everything cut off is whitespace, and the result does not end with whitespace |
| PyText.StripFixed | course.py:138 | `strip()` leaves a text unchanged exactly when it is empty or neither starts nor ends with whitespace |
| PyText.Lower | course.py:96 | `lower()` keeps the length and leaves no capital `A`-`Z`: each capital becomes its small letter, the Kelvin sign becomes `k`, every other character is kept; whitespace stays whitespace |
| PyText.LowerIdempotent | course.py:96 | lower-casing a lower-cased text changes nothing |
| PyText.Split | course.py:96 | `str.split()` with no argument: the whitespace-separated words in order; its contract is `PyText.SplitWords` |
| PyText.SplitWords | course.py:96 | `split()` yields exactly the whole words of the text: non-empty, free of whitespace, bounded by whitespace or the ends |
| PyText.NatToString | course.py:145 | `str(id)` is a non-empty run of decimal digits without a leading zero, unless the id is 0 |
| PyText.NatToStringRoundTrip | course.py:145 | reading the digits of `str(id)` as a number gives back `id` |
| PyText.NatToStringInjective | course.py:145 | two different ids never have the same `str` text, so the id test at course.py:145 compares ids |
| Marker.DigitsAfter | course.py:39 | the text captured by `#(\d+)` at a marker is non-empty, all digits, and greedy (the next character is not a digit) |
| Marker.DigitRunEnd | course.py:39 | `\d+` is greedy: the run it takes holds only digits and stops at the end of the text or at a non-digit |
| Marker.FindFrom | course.py:39 | the `re.findall(r"#(\d+)", …)` scan from a position: every element it returns is a non-empty run of digits |
| Marker.FindAll | course.py:39 | `re.findall(r"#(\d+)", description)`: every element is a non-empty run of digits |
| Marker.ExtractAssId | course.py:38-40 | `extract_ass_id`: an id it returns is a non-empty run of digits; when and which one are the lemmas below |
| Marker.Describe | course.py:157 | the description `f"{name} #{id}"` written for an assignment, on update and on creation (course.py:176); `Marker.DescribeRoundTrip` reads its id back |
| Marker.FindFromEmpty | course.py:39 | the `re.findall` scan from a position finds nothing exactly when no `#` at or after it is followed by a digit |
| Marker.FindFromLast | course.py:39-40 | the last element `re.findall` returns is the capture at the last marker |
| Marker.FindFromShift | course.py:39 | scanning `x + y` from the start of `y` finds what scanning `y` alone finds |
| Marker.FindAllAppend | course.py:39 | matches do not straddle a boundary followed by a non-digit: the matches of `x + y` are those of `x` followed by those of `y` |
| Marker.ExtractNone | course.py:38-40 | `extract_ass_id` returns `None` exactly when the description has no `#<digit>` |
| Marker.ExtractLast | course.py:38-40 | otherwise it returns the full digit run after the last `#` that is followed by a digit |
| Marker.ExtractTrailing | course.py:38-40 | whatever precedes it, a trailing `#<digits>` is what `extract_ass_id` returns |
| Marker.DescribeRoundTrip | course.py:157 | the id written into `f"{name} #{id}"` is the id read back, even when the name contains `#<digits>` itself |
| Marker.StrippedRoundTrip | course.py:176 | the round trip also holds after the `strip()` applied before extraction (course.py:138), for every name |
| Tags.DetermineTags | course.py:79-109 | the result is a non-empty subset of `{quiz, lab, hw, exam, pre}`, and if it holds `exam` it is exactly `{exam}` |
| Tags.KeywordTags | course.py:98-102 | the tags whose keywords occur among the words, before the exam rule; its contract is `Tags.KeywordTagsSpec` |
| Tags.DetermineTagsIgnoresCase | course.py:96 | the classifier gives the same tags for a name and its lower-cased form, so the case of the name never matters |
| Tags.KeywordTagsSpec | course.py:80-102 | before the exam rule: each tag is present exactly when one of its keywords is a word of the name |
| Tags.DetermineTagsSpec | course.py:98-109 | tag by tag, if and only if: `exam` only when an exam keyword is the only kind present; `hw` for the homework keywords or when no keyword occurs; `quiz`, `lab`, `pre` for their keywords |
| Tags.DefaultTag | course.py:108-109 | a name with no keyword among its words is tagged `{hw}` |
| Tags.WholeWordOnly | course.py:96-101 | a keyword counts exactly when it is a whole word of the lower-cased name, never part of a longer word |
| Due.ConvertDueDate | course.py:43-46 | a missing due date or `"null"` converts to `None`; any other text converts to what the calendar conversion gives |
| Due.CompDue | course.py:70-76 | `comp_due` is true exactly when both are absent or both are the same text: two `None`s agree, exactly one `None` disagrees, and it is reflexive |
| Reconcile.Matches | course.py:137-145 | a task matches an assignment when its project is the course's and its stripped description carries the id |
| Reconcile.NeedsUpdate | course.py:149-153 | the update test: description, due date or tags differ from what the assignment gives |
| Reconcile.Reconciled | course.py:126-191 | one pass of the assignment loop; it raises only when a due date is present and `strptime` fails on it |
| Reconcile.Flatten | course.py:124-125 | the assignments in the order the two loops visit them |
| Reconcile.HasAssignments | course.py:120 | the early-return test: some group has assignments |
| Reconcile.RunAll | course.py:124-125 | the loops as a fold that stops at the first step that raises; its properties are the `RunAll…` and `Stopped…` lemmas |
| Reconcile.ReconciledAll | course.py:124-191 | the loops over a queue of assignments for one project |
| Reconcile.CourseOutcome | course.py:112-191 | `process_course` on a task list: unchanged when there are no assignments, the loops otherwise |
| Reconcile.FirstMatch | course.py:137-146 | the task the scan stops at matches (same project, stripped description carries the id) and no earlier task matches; `None` means no task matches |
| Reconcile.FirstMatchAt | course.py:137-170 | the first position that matches is the one the scan returns |
| Reconcile.ReconciledFrame | course.py:137-188 | one assignment changes at most the first matching task; with no match exactly one task is appended; every other task is unchanged |
| Reconcile.ReconciledCreates | course.py:173-188 | the appended task has description `f"{name} #{id}"`, the course's project, priority M, the classifier's tags, due and wait only when the converted due is truthy, the wait being fourteen days before the raw due date, and is matched by the assignment afterwards |
| Reconcile.ReconciledUpdates | course.py:149-166 | the updated task keeps its old tags and gains the classifier's and no others; keeps project and priority; takes the converted due; keeps its wait when there is no due; still matches; is untouched when the update test fails; passes the update test afterwards for a tidy name |
| Reconcile.ReconciledRewrites | course.py:149-166 | when the update test holds, the task takes the description `f"{name} #{id}"`, gains exactly the classifier's tags, and with a due date takes the wait fourteen days before the raw due date |
| Reconcile.StripDescribe | course.py:150 | the written description survives `strip()` exactly when the name is tidy |
| Reconcile.UntidyNameAlwaysUpdates | course.py:149-157 | for a name that is empty or starts with whitespace, a task saved with `f"{name} #{id}"` always meets the update condition again |
| Reconcile.ReconciledGrows | course.py:126-191 | handling one assignment removes no task, loses no tag, keeps every task's project and priority, leaves other projects' tasks alone, and adds only tasks of the course with priority M |
| Reconcile.ReconciledAllGrows | course.py:124-191 | the same holds over a whole course run |
| Reconcile.GrownTrans | course.py:124-125 | those guarantees compose across consecutive assignments |
| Reconcile.RunAllStep | course.py:124-125 | the last assignment of a run either left the list as it was or was handled on the list the earlier ones produced |
| Reconcile.RunAllLast | course.py:124-125 | a completed run completed its earlier steps and its last step produced its result |
| Reconcile.RunAllExtend | course.py:124-125 | handling the next assignment extends a completed run by exactly that step, or ends it unchanged when it raises |
| Reconcile.StoppedRunStaysStopped | course.py:124-125 | after an exception no later assignment is handled |
| Reconcile.StoppedInGroup | course.py:125 | a run that stops inside a group ends the whole group there |
| Reconcile.StoppedAtGroup | course.py:124 | a run that stops inside a group ends the whole course there |
| Reconcile.FlattenAppend | course.py:124-125 | the assignments of consecutive runs of groups come in order |
| Reconcile.FlattenPrefix | course.py:124-125 | the groups up to `g` contribute the first `g` groups' assignments and then group `g`'s |
| Reconcile.FlattenEmpty | course.py:119-125 | the loops visit no assignment exactly when no group has one |
| Reconcile.NoAssignmentsNoChange | course.py:119-121 | a course without assignments leaves the task list unchanged, and the early return agrees with running the loops |
| Reconcile.SettledIsFixpoint | course.py:149-153 | an assignment whose matched task fails the update test changes nothing |
| Reconcile.ReconciledSettles | course.py:149-188 | after handling a well-formed assignment its task fails the update test |
| Reconcile.ReconciledKeepsSettled | course.py:137-170 | handling one assignment does not unsettle another with a different id |
| Reconcile.StepSettles | course.py:124-191 | after one more well-formed assignment, it and every earlier one are settled |
| Reconcile.WellFormedPrefix | course.py:124-125 | the assignments before the last of a well-formed queue are well formed |
| Reconcile.ReconciledAllSettles | course.py:124-191 | after a completed run every assignment of the run is settled |
| Reconcile.SettledRunIsNoop | course.py:124-191 | a run over settled assignments completes and changes nothing |
| Reconcile.RunAllStopped | course.py:124-125 | a run that stopped stopped inside its earlier assignments or at its last one, keeping the list it had |
| Reconcile.RunAllSamePrefix | course.py:124-125 | two runs whose earlier assignments end alike end alike |
| Reconcile.ReconciledAllIdempotent | course.py:124-191 | for well-formed assignments, running the loops again on the tasks a run left gives the same outcome, whether the run completed or stopped |
| Reconcile.CourseIdempotent | course.py:112-191 | for well-formed assignments, running the course again on the tasks it left gives the same outcome: a completed run writes nothing more, a stopped run stops again with the same tasks |
| Store.TaskStore.FindTask | course.py:137-146 | the scan returns the first matching position, or none, as `FirstMatch` characterises it |
| Store.TaskStore.ReconcileAssignment | course.py:126-191 | the store becomes what `Reconciled` gives for the assignment; when `strptime` raises, the method reports failure and nothing is saved |
| Store.TaskStore.ReconcileGroup | course.py:125-191 | the inner loop extends the run by the group's assignments, stopping at the first that raises |
| Store.TaskStore.ProcessCourse | course.py:112-191 | the store and the completion flag are those of `CourseOutcome`, to which the lemmas above apply |

## Left out

- `fetch_courses` and `fetch_assignments` (course.py:16-35) are HTTP requests. The model takes a course and its assignment groups as inputs.
- The thread pool that runs courses in parallel, and its per-course exception handling (course.py:194-204), are not modelled. A course run is sequential here; an exception only ends that course's run.
- The timezone conversion inside `convert_due_date` (course.py:48-67) is not modelled. It covers `pytz` and `datetime.fromisoformat`, and the `None` it returns on a parse error. It is the function `Calendar.localize`, about which nothing is assumed.
- The fourteen-day wait (course.py:163-165, course.py:183-187) is not modelled. It is `Calendar.fortnightBefore`, which gives `None` where `strptime` raises. The wait value is an opaque integer.
- `tasklib` persistence is not modelled: `TaskWarrior`, `tw.tasks.filter`, `Task.save` (course.py:10, course.py:134, course.py:166, course.py:188).
  - The store is an in-memory sequence. Appending models `save()` of a new task; replacing an element models `save()` of an edited one.
  - A due date is kept as its ISO-8601 text. So `tk_due.isoformat()` is that text, and the datetime round trip through TaskWarrior is assumed to reproduce it.
  - Tags are a set, and the `list(...)` conversion at course.py:159 is not modelled.
- `tw.tasks.filter(project=course_name)` is modelled as a scan over all tasks that skips tasks whose project is not exactly the course name. TaskWarrior's prefix matching of projects is not modelled, and neither is status filtering (completed or deleted tasks).
- An assignment `name` or `id` that is absent or `None` is not modelled: names and ids are always present. An absent or `None` `due_at` is modelled, as `dueAt == None`, and so is a group without an `"assignments"` key, as the empty group (course.py:125). A group whose `"assignments"` is `null` is not modelled: `for assignment in None` at course.py:125 raises `TypeError`.
- `print` logging throughout is not modelled.
- Assignment ids are natural numbers (`Reconcile.Assignment.id` is a `nat`). Python's `str(ass_id)` accepts a negative id too; its description would carry `#-5`, which the marker scan never matches, so such an assignment would get a new task on every run. Negative ids are not modelled.
- Marker.DigitsAfter: `\d` in Python 3 also matches non-ASCII decimal digits; the model's digits are `0`-`9` only.
- PyText.Lower: lower-cases ASCII letters and the Kelvin sign only. Python's full Unicode case mapping is not modelled, including mappings that change the length of the text.
