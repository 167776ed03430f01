/** The per-task progress reporter of ProgressReporterManager: an immutable
    record of the reporter's fields and one pure step function per handler
    call. Each step returns the next record and the "Work Done Progress"
    notifications (section "Work Done Progress" of the Language Server Protocol
    3.15: `$/progress` carrying a begin, report or end value) that the call
    sends. The asynchronous `window/workDoneProgress/create` handshake is the
    explicit event `HandshakeCompleted`; the clock is the `now` argument. */
module ProgressReporting {
  import opened Wrappers
  import opened JavaInt

  /** The one task name under which an empty sub-task is not reported. */
  const ImportingMavenProjects: string := "Importing Maven project(s)"

  /** The throttle interval the manager starts with. */
  const DefaultDelay: int := 200

  /** The opaque identity of one progress stream (a random UUID in the source). */
  datatype ProgressToken = ProgressToken(uuid: string)

  /** What the reporter can see of the job it monitors. */
  datatype Job = Job(name: Option<string>, system: bool, initialization: bool)

  /** A plain reporter, or the server-status variant, which differs only in
      how the unused legacy status channel formats its message. */
  datatype Kind = Plain | ServerStatus

  /** The reporter's fields. `settled` records that the create request's
      completion callback has run (a future completes once, so the callback
      runs at most once); `finished` and `canceled` are the flags of the
      cancellable-monitor superclass. */
  datatype Reporter = Reporter(
    kind: Kind,
    token: ProgressToken,
    job: Option<Job>,
    taskName: Option<string>,
    subTaskName: Option<string>,
    totalWork: Int32,
    progress: Int32,
    lastReport: int,
    settled: bool,
    clientReady: bool,
    finished: bool,
    canceled: bool)

  datatype Notification =
    | Begin(token: ProgressToken, title: Option<string>, message: Option<string>, percentage: Option<Int32>)
    | Report(token: ProgressToken, message: Option<string>, percentage: Option<Int32>)
    | End(token: ProgressToken)

  /** The calls a reporter receives: the monitor interface, plus the
      completion of the create handshake. */
  datatype Event =
    | BeginTask(name: Option<string>, totalWork: Int32)
    | SetTaskName(name: Option<string>)
    | SubTask(name: Option<string>)
    | Worked(work: Int32)
    | Done
    | SetCanceled(canceled: bool)
    | HandshakeCompleted

  datatype Outcome = Outcome(next: Reporter, emitted: seq<Notification>)

  /** A freshly constructed reporter: its create request is outstanding. */
  function NewReporter(kind: Kind, token: ProgressToken, job: Option<Job>): (r: Reporter)
    ensures r.kind == kind && r.token == token && r.job == job
    ensures !r.settled && !r.clientReady && !r.canceled && !IsDone(r)
    ensures r.lastReport == 0 && PercentDone(r).None?
  {
    Reporter(kind, token, job, None, None, 0, 0, 0, false, false, false, false)
  }

  predicate IsDone(r: Reporter) {
    r.finished || (r.totalWork > 0 && r.progress >= r.totalWork)
  }

  /** The percentage a notification carries: none when the total is unknown
      or below two, otherwise Java's `progress / totalWork * 100`, where the
      quotient truncates before it is scaled, so only whole multiples of the
      total are ever reported. */
  function PercentDone(r: Reporter): (p: Option<Int32>)
    ensures p.None? <==> r.totalWork < 2
    ensures p.Some? && 0 <= r.progress < r.totalWork ==> p.value == 0
    ensures p.Some? && 0 <= r.progress && r.progress / r.totalWork * 100 <= MaxInt ==>
              p.value == r.progress / r.totalWork * 100 && p.value % 100 == 0
    ensures p.Some? && r.totalWork <= r.progress < 2 * r.totalWork ==> p.value == 100
    ensures p.Some? && InRange(Quot(r.progress, r.totalWork) * 100) ==> p.value == Quot(r.progress, r.totalWork) * 100
    ensures p.Some? ==> (p.value - Quot(r.progress, r.totalWork) * 100) % Modulus == 0
  {
    if r.totalWork < 2 then None
    else
      var q := Div(r.progress, r.totalWork);
      PercentFacts(r.progress, r.totalWork, q);
      PercentTruncates(r.progress, r.totalWork);
      PercentWraps(r.progress, r.totalWork);
      Some(Mul(q, 100))
  }

  lemma PercentFacts(progress: Int32, totalWork: Int32, q: Int32)
    requires totalWork >= 2 && q == Div(progress, totalWork)
    ensures 0 <= progress < totalWork ==> Mul(q, 100) == 0
    ensures 0 <= progress && progress / totalWork * 100 <= MaxInt ==>
              Mul(q, 100) == progress / totalWork * 100 && Mul(q, 100) % 100 == 0
    ensures totalWork <= progress < 2 * totalWork ==> Mul(q, 100) == 100
  {
    if 0 <= progress {
      var q0 := progress / totalWork;
      assert q == q0;
      assert 0 <= q0 by { MulNonNegative(totalWork, q0 + 1); }
      DivModUnique(q0 * 100, 100, q0, 0);
      if progress < totalWork {
        DivModUnique(progress, totalWork, 0, progress);
      } else if progress < 2 * totalWork {
        DivModUnique(progress, totalWork, 1, progress - totalWork);
      }
    }
  }

  /** A scaled quotient that fits was computed without wrapping. */
  lemma PercentTruncates(progress: Int32, totalWork: Int32)
    requires totalWork >= 2
    ensures InRange(Quot(progress, totalWork) * 100) ==>
              Mul(Div(progress, totalWork), 100) == Quot(progress, totalWork) * 100
  {
    var exact := Quot(progress, totalWork);
    if InRange(exact * 100) {
      assert InRange(exact) by {
        if exact > MaxInt { MulPositive(100, exact); }
        if exact < MinInt { MulPositive(100, -exact); }
      }
    }
  }

  /** With a total of at least two the quotient always fits, so the
      percentage is the scaled quotient wrapped to an `int`. */
  lemma PercentWraps(progress: Int32, totalWork: Int32)
    requires totalWork >= 2
    ensures (Mul(Div(progress, totalWork), 100) - Quot(progress, totalWork) * 100) % Modulus == 0
  {
    var exact := Quot(progress, totalWork);
    assert InRange(exact) by {
      if exact > MaxInt { MulPositive(totalWork, exact); }
      if exact < MinInt { MulPositive(totalWork, -exact); }
    }
  }

  /** The throttle: an update may go out when none has been sent yet, when
      the task is done, or when `delay` has passed since the last one. */
  predicate MayEmit(r: Reporter, now: int, delay: int) {
    r.lastReport == 0 || IsDone(r) || now - r.lastReport >= delay
  }

  /** A sub-task update that the reporter drops: an empty or null name while
      Maven projects are being imported marks a finished transfer. */
  predicate SubTaskSuppressed(r: Reporter, name: Option<string>) {
    r.taskName == Some(ImportingMavenProjects) && (name.None? || name.value == "")
  }

  /** The handler calls that end by attempting a throttled report. */
  predicate AttemptsReport(r: Reporter, e: Event) {
    e.BeginTask? || e.Worked? || (e.SubTask? && !SubTaskSuppressed(r, e.name))
  }

  /** The field update a handler performs before deciding what to send. */
  function Record(r: Reporter, e: Event): Reporter {
    match e
    case BeginTask(name, totalWork) => r.(taskName := name, totalWork := totalWork)
    case SetTaskName(name) => r.(taskName := name)
    case SubTask(name) => r.(subTaskName := name)
    case Worked(work) => r.(progress := Add(r.progress, work))
    case Done => r.(finished := true)
    case SetCanceled(canceled) => r.(canceled := canceled)
    case HandshakeCompleted => r
  }

  function ThrottledProgress(r: Reporter, now: int, delay: int): Outcome {
    if !r.clientReady then Outcome(r, [])
    else if MayEmit(r, now, delay) then
      Outcome(r.(lastReport := now), [Report(r.token, r.subTaskName, PercentDone(r))])
    else Outcome(r, [])
  }

  /** One handler call. */
  function Step(r: Reporter, e: Event, now: int, delay: int): (o: Outcome)
    // the readiness gate: nothing but the handshake speaks before the client is ready
    ensures !r.clientReady && !e.HandshakeCompleted? ==> o.emitted == []
    ensures o.next.clientReady <==> r.clientReady || (e.HandshakeCompleted? && !r.settled && !IsDone(r))
    ensures o.next.settled <==> r.settled || e.HandshakeCompleted?
    // at most one notification per call, always on the reporter's own stream
    ensures |o.emitted| <= 1
    ensures forall n <- o.emitted :: n.token == r.token
    // which notification
    ensures (o.emitted != [] && o.emitted[0].Begin?) <==> e.HandshakeCompleted? && !r.settled && !IsDone(r)
    ensures (o.emitted != [] && o.emitted[0].End?) <==>
              (e.Done? && r.clientReady) || (e.HandshakeCompleted? && !r.settled && IsDone(r))
    ensures (o.emitted != [] && o.emitted[0].Report?) <==>
              r.clientReady && AttemptsReport(r, e) && MayEmit(Record(r, e), now, delay)
    // what it carries
    ensures o.emitted != [] && o.emitted[0].Begin? ==>
              o.emitted[0] == Begin(r.token, r.taskName, r.subTaskName, PercentDone(r))
    ensures o.emitted != [] && o.emitted[0].Report? ==>
              o.emitted[0] == Report(r.token, o.next.subTaskName, PercentDone(o.next)) && o.next.lastReport == now
    // nothing else changes: the handler's own field update, and the throttle
    // clock only when a report goes out
    ensures o.next.(lastReport := r.lastReport, settled := r.settled, clientReady := r.clientReady) == Record(r, e)
    ensures o.next.lastReport != r.lastReport ==> o.emitted != [] && o.emitted[0].Report?
  {
    match e
    case HandshakeCompleted =>
      if r.settled then Outcome(r, [])
      else if IsDone(r) then Outcome(r.(settled := true), [End(r.token)])
      else Outcome(r.(settled := true, clientReady := true),
                   [Begin(r.token, r.taskName, r.subTaskName, PercentDone(r))])
    case Done =>
      Outcome(r.(finished := true), if r.clientReady then [End(r.token)] else [])
    case _ =>
      if AttemptsReport(r, e) then ThrottledProgress(Record(r, e), now, delay)
      else Outcome(Record(r, e), [])
  }

  /** Once done, a reporter stays done under every call except a `beginTask`
      that changes the total, a negative `worked`, or a `worked` that
      overflows the `int` counter. */
  lemma IsDonePersists(r: Reporter, e: Event, now: int, delay: int)
    requires IsDone(r)
    requires e.BeginTask? ==> e.totalWork == r.totalWork
    requires e.Worked? ==> 0 <= e.work && r.progress + e.work <= MaxInt
    ensures IsDone(Step(r, e, now, delay).next)
  {
  }

  /** `beginTask` leaves the accumulated work as it is. */
  lemma BeginTaskKeepsProgress(r: Reporter, name: Option<string>, total: Int32, now: int, delay: int)
    ensures Step(r, BeginTask(name, total), now, delay).next.progress == r.progress
  {
  }

  /** `done` on a ready reporter always sends an end notification, throttle or
      not, and a second `done` sends a second one. */
  lemma DoneTwiceSendsTwoEnds(r: Reporter, now: int, delay: int)
    requires r.clientReady
    ensures var o1 := Step(r, Done, now, delay);
            var o2 := Step(o1.next, Done, now, delay);
            o1.emitted == [End(r.token)] && o2.emitted == [End(r.token)]
  {
  }

  /** A ready reporter that has ended still reports further work: being done
      lifts the throttle. */
  lemma WorkAfterEndIsReported(r: Reporter, work: Int32, now: int, delay: int)
    requires r.clientReady
    ensures var o1 := Step(r, Done, now, delay);
            Step(o1.next, Worked(work), now, delay).emitted
              == [Report(r.token, r.subTaskName, PercentDone(o1.next.(progress := Add(r.progress, work))))]
  {
  }

  /** The one call that stays silent after `done` on a ready reporter: an
      empty or null sub-task under the Maven import task, which ends before
      the throttle. A non-empty sub-task there is still reported. */
  lemma SubTaskAfterDoneSilent(r: Reporter, name: Option<string>, now: int, delay: int)
    requires r.clientReady && r.taskName == Some(ImportingMavenProjects)
    ensures var o1 := Step(r, Done, now, delay);
            var o2 := Step(o1.next, SubTask(name), now, delay);
            (o2.emitted == []) <==> (name.None? || name.value == "")
  {
  }

  /** One unit out of four reports 0%, not 25%: the quotient truncates first. */
  lemma OneOfFourIsZeroPercent(r: Reporter)
    requires r.totalWork == 4 && r.progress == 1
    ensures PercentDone(r) == Some(0)
  {
  }

  /** Negative work short of minus the total truncates to 0 %, where a
      division rounding down would give -100 %. */
  lemma NegativeWorkIsZeroPercent(r: Reporter)
    requires r.totalWork >= 2 && -r.totalWork < r.progress <= 0
    ensures PercentDone(r) == Some(0)
  {
    SmallQuotientIsZero(r.progress, r.totalWork);
    assert InRange(Quot(r.progress, r.totalWork) * 100);
  }

  lemma SmallQuotientIsZero(a: Int32, b: Int32)
    requires b >= 2 && -b < a <= 0
    ensures Quot(a, b) == 0
  {
    var q := Quot(a, b);
    assert -b < a - b * q <= 0;
    if q > 0 {
      MulPositive(b, q);
    } else if q < 0 {
      MulPositive(b, -q);
    }
  }

  /** A progress far beyond the total makes `quotient * 100` wrap around, and
      the percentage is then not a multiple of 100. */
  lemma PercentOverflows(r: Reporter)
    requires r.totalWork == 2 && r.progress == 42949674
    ensures PercentDone(r) == Some(21474837 * 100 - Modulus)
    ensures PercentDone(r).value % 100 != 0
  {
  }
}
