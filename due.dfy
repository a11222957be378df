/**
 * Due dates: the `None`/`"null"` short-circuit of `convert_due_date`
 * (course.py:43-46) and the comparison `comp_due` (course.py:70-76). The
 * time-zone conversion and the fourteen-day wait arithmetic are calendar
 * library calls; they enter the model as the two functions of a `Calendar`.
 */
module Due {
  import opened Wrappers

  /**
   * The calendar arithmetic the script delegates to `datetime` and `pytz`:
   * `localize` turns a raw due string into the ISO-8601 text of the local
   * due instant, or `None` when it does not parse (course.py:49-67);
   * `fortnightBefore` is `strptime(raw, "%Y-%m-%dT%H:%M:%SZ") - 14 days`,
   * or `None` when `strptime` raises (course.py:163-165, course.py:183-187).
   */
  datatype Calendar = Calendar(localize: string -> Option<string>, fortnightBefore: string -> Option<int>)

  /** `convert_due_date`: a missing due date or the text `"null"` has no local due date. */
  function ConvertDueDate(raw: Option<string>, localize: string -> Option<string>): (due: Option<string>)
    ensures raw == None || raw == Some("null") ==> due == None
    ensures due != None ==> raw != None && raw.value != "null"
    ensures raw != None && raw.value != "null" ==> due == localize(raw.value)
  {
    if raw == None || raw.value == "null" then None else localize(raw.value)
  }

  /** `comp_due`: two due dates agree when both are absent or both are present with the same text. */
  function CompDue(taskDue: Option<string>, assignmentDue: Option<string>): (same: bool)
    ensures same <==> taskDue == assignmentDue
  {
    if taskDue == None && assignmentDue == None then true
    else if taskDue == None || assignmentDue == None then false
    else taskDue.value == assignmentDue.value
  }
}
