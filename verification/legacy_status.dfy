/** The legacy status channel of a reporter, for clients that predate the
    structured progress protocol. Nothing in the manager calls it, so it is
    modelled as the pure choice it makes: whether a status goes out at all,
    which task label and which message it carries. The percentage inside the
    message is formatted from a floating-point quotient; the model keeps the
    operands and the surrounding text, not the formatted digits. */
module LegacyStatus {
  import opened Wrappers
  import opened JavaInt
  import opened ProgressReporting

  const Separator: string := " - "
  const BackgroundTask: string := "Background task"

  /** The task name that the Maven importer reports under, taken to be the
      same text as the reporter's own constant. */
  const MavenImportTask: string := ImportingMavenProjects

  /** Java's `Character.isWhitespace`: the Unicode space, line and paragraph
      separators other than the no-break spaces, and the ASCII controls
      tab through carriage return and the four information separators. */
  predicate IsWhitespace(c: char) {
    || '\t' <= c <= '\r'
    || '\U{1C}' <= c <= ' '
    || c == '\U{1680}'
    || '\U{2000}' <= c <= '\U{2006}'
    || '\U{2008}' <= c <= '\U{200A}'
    || c == '\U{2028}' || c == '\U{2029}' || c == '\U{205F}' || c == '\U{3000}'
  }

  /** `StringUtils.isBlank`: null, empty, or whitespace only. */
  predicate IsBlank(s: Option<string>) {
    s.None? || forall i :: 0 <= i < |s.value| ==> IsWhitespace(s.value[i])
  }

  /** The task label: the task name unless it is blank, else the job's name
      unless there is no job or its name is blank, else a fixed label. */
  function TaskLabel(r: Reporter): (text: string)
    ensures !IsBlank(Some(text))
    ensures !IsBlank(r.taskName) ==> text == r.taskName.value
    ensures IsBlank(r.taskName) && r.job.Some? && !IsBlank(r.job.value.name) ==> text == r.job.value.name.value
    ensures IsBlank(r.taskName) && (r.job.None? || IsBlank(r.job.value.name)) ==> text == BackgroundTask
  {
    assert !IsWhitespace(BackgroundTask[0]);
    if !IsBlank(r.taskName) then r.taskName.value
    else if r.job.Some? && !IsBlank(r.job.value.name) then r.job.value.name.value
    else BackgroundTask
  }

  /** The status text, before any floating-point formatting. */
  datatype Message =
    | Joined(text: string)                                    // task - subtask
    | WithPercent(workDone: int, totalWork: int, text: string) // "<percent>% text"
    | Bare(text: string)
    | Starting(workDone: int, totalWork: int, suffix: string)  // "<percent>% Starting Java Language Server" + suffix

  datatype StatusReport =
    | ProgressReport(token: ProgressToken, task: string, subTask: Option<string>, totalWork: Int32,
                     workDone: Int32, complete: bool, status: Message)
    | StartingReport(status: Message)

  /** The sub-task text, with null read as empty. */
  function SubTaskText(r: Reporter): (s: string)
    ensures r.subTaskName.Some? ==> s == r.subTaskName.value
    ensures r.subTaskName.None? ==> s == ""
  {
    if r.subTaskName.None? || r.subTaskName.value == "" then "" else r.subTaskName.value
  }

  /** The message a reporter formats, by kind. */
  function StatusMessage(r: Reporter, task: string): (m: Message)
    ensures m.Joined? <==> r.kind == Plain && r.subTaskName.Some? && r.subTaskName.value != "" && task == MavenImportTask
    ensures m.Joined? ==> m.text == task + Separator + r.subTaskName.value
    ensures m.WithPercent? <==> r.kind == Plain && !m.Joined? && r.totalWork > 0
    ensures m.Starting? <==> r.kind == ServerStatus
    ensures m.Starting? && r.totalWork > 0 && SubTaskText(r) != "" ==> m.suffix == Separator + SubTaskText(r)
    ensures m.Starting? && (r.totalWork <= 0 || SubTaskText(r) == "") ==> m.suffix == SubTaskText(r)
    ensures m.WithPercent? ==> m == WithPercent(r.progress, r.totalWork, SubTaskText(r))
    ensures m.Bare? ==> m.text == SubTaskText(r)
    ensures m.Starting? ==> m.workDone == r.progress && m.totalWork == r.totalWork
  {
    var message := SubTaskText(r);
    match r.kind
    case Plain =>
      if r.subTaskName.Some? && r.subTaskName.value != "" && task == MavenImportTask then
        Joined(task + Separator + r.subTaskName.value)
      else if r.totalWork > 0 then WithPercent(r.progress, r.totalWork, message)
      else Bare(message)
    case ServerStatus =>
      Starting(r.progress, r.totalWork, if r.totalWork > 0 && message != "" then Separator + message else message)
  }

  /** Statuses that are never sent: those of system jobs, and the one for a
      user operation waiting on background work (`blocked`). */
  predicate Suppressed(r: Reporter, blocked: string) {
    (r.job.Some? && r.job.value.system) || r.taskName == Some(blocked)
  }

  /** `sendStatus`: a plain reporter sends only to a client that supports
      progress reports (`supported`); the server-status reporter always sends
      a starting status. */
  function SendStatus(r: Reporter, supported: bool): (s: Option<StatusReport>)
    ensures s.None? <==> r.kind == Plain && !supported
    ensures s.Some? && r.kind == Plain ==>
              var task := TaskLabel(r);
              s.value == ProgressReport(r.token, task, r.subTaskName, r.totalWork, r.progress, IsDone(r),
                                        StatusMessage(r, task))
    ensures s.Some? && r.kind == ServerStatus ==> s.value.StartingReport? && s.value.status.Starting?
    ensures s.Some? && r.kind == ServerStatus ==> s.value == StartingReport(StatusMessage(r, TaskLabel(r)))
  {
    if r.kind == Plain then
      if supported then
        var task := TaskLabel(r);
        Some(ProgressReport(r.token, task, r.subTaskName, r.totalWork, r.progress, IsDone(r), StatusMessage(r, task)))
      else None
    else Some(StartingReport(StatusMessage(r, TaskLabel(r))))
  }

  /** `sendProgress`: suppression first, then the same throttle as the
      structured channel (but no readiness gate). The throttle clock advances
      whenever the throttle lets the status through, even if `sendStatus`
      then declines to send it. */
  function SendProgress(r: Reporter, now: int, delay: int, blocked: string, supported: bool): (res: (Reporter, Option<StatusReport>))
    ensures Suppressed(r, blocked) || !MayEmit(r, now, delay) ==> res == (r, None)
    ensures !Suppressed(r, blocked) && MayEmit(r, now, delay) ==>
              res.0 == r.(lastReport := now) && (res.1.Some? <==> r.kind == ServerStatus || supported)
    ensures res.1.Some? && res.1.value.ProgressReport? ==>
              && !IsBlank(Some(res.1.value.task))
              && res.1.value.complete == IsDone(r)
              && res.1.value.workDone == r.progress
              && res.1.value.token == r.token
    ensures !Suppressed(r, blocked) && MayEmit(r, now, delay) ==> res.1 == SendStatus(r.(lastReport := now), supported)
  {
    if Suppressed(r, blocked) then (r, None)
    else if MayEmit(r, now, delay) then
      var r' := r.(lastReport := now);
      (r', SendStatus(r', supported))
    else (r, None)
  }

  /** The legacy channel keeps the throttle's spacing: after a status goes
      out at `now` (a non-zero time), an unfinished reporter sends nothing
      more until `delay` has passed. */
  lemma LegacyStatusIsThrottled(r: Reporter, now: int, later: int, delay: int, blocked: string, supported: bool)
    requires !Suppressed(r, blocked) && MayEmit(r, now, delay)
    requires now != 0 && !IsDone(r) && later - now < delay
    ensures var first := SendProgress(r, now, delay, blocked, supported);
            SendProgress(first.0, later, delay, blocked, supported) == (first.0, None)
  {
  }

  /** A Maven import status with a sub-task reads "task - subtask", and the
      sub-task can be recovered from it. */
  lemma JoinedStatusSplits(r: Reporter, now: int, delay: int, blocked: string)
    requires r.kind == Plain && r.taskName == Some(MavenImportTask)
    requires r.subTaskName.Some? && r.subTaskName.value != ""
    requires !Suppressed(r, blocked) && MayEmit(r, now, delay)
    ensures var s := SendProgress(r, now, delay, blocked, true).1;
            && s.Some? && s.value.status.Joined?
            && s.value.status.text[..|MavenImportTask| + |Separator|] == MavenImportTask + Separator
            && s.value.status.text[|MavenImportTask| + |Separator|..] == r.subTaskName.value
  {
    assert !IsWhitespace(MavenImportTask[0]);
    var text := MavenImportTask + Separator + r.subTaskName.value;
    assert text[..|MavenImportTask| + |Separator|] == MavenImportTask + Separator;
    assert text[|MavenImportTask| + |Separator|..] == r.subTaskName.value;
  }
}
