/** Runs of one reporter over a sequence of timed calls, and the laws every
    run obeys: no begin or report before the client is ready, a single end
    and nothing else when the task finished before the handshake, throttle
    spacing between reports, and the work counter as a wrapped running sum. */
module ProgressTraces {
  import opened Wrappers
  import opened JavaInt
  import opened ProgressReporting

  /** A handler call and the clock reading it sees. */
  datatype Timed = Timed(event: Event, now: int)

  /** A notification and the time it was sent. */
  datatype Stamped = Stamped(note: Notification, at: int)

  datatype Trace = Trace(final: Reporter, log: seq<Stamped>)

  function Stamp(notes: seq<Notification>, at: int): (s: seq<Stamped>)
    ensures |s| == |notes|
    ensures forall i :: 0 <= i < |s| ==> s[i] == Stamped(notes[i], at)
  {
    if notes == [] then [] else [Stamped(notes[0], at)] + Stamp(notes[1..], at)
  }

  /** One more call on a run. */
  function Extend(t: Trace, call: Timed, delay: int): (t': Trace)
  {
    var o := Step(t.final, call.event, call.now, delay);
    Trace(o.next, t.log + Stamp(o.emitted, call.now))
  }

  /** The calls applied in order, collecting what they send. */
  function Run(r: Reporter, calls: seq<Timed>, delay: int): (t: Trace)
    decreases |calls|
  {
    if calls == [] then Trace(r, [])
    else Extend(Run(r, calls[..|calls| - 1], delay), calls[|calls| - 1], delay)
  }

  /** What a call adds depends only on the reporter it finds. */
  lemma ExtendAppends(t: Trace, call: Timed, delay: int)
    ensures Extend(t, call, delay).final == Extend(Trace(t.final, []), call, delay).final
    ensures Extend(t, call, delay).log == t.log + Extend(Trace(t.final, []), call, delay).log
  {
  }

  /** A run over `a + b` is the run over `b` continued from where `a` left off. */
  lemma {:induction false} RunSplits(r: Reporter, a: seq<Timed>, b: seq<Timed>, delay: int)
    ensures Run(r, a + b, delay).final == Run(Run(r, a, delay).final, b, delay).final
    ensures Run(r, a + b, delay).log == Run(r, a, delay).log + Run(Run(r, a, delay).final, b, delay).log
    decreases |b|
  {
    var s := Run(r, a, delay).final;
    if b == [] {
      assert a + b == a;
    } else {
      var b' := b[..|b| - 1];
      var last := b[|b| - 1];
      assert (a + b)[..|a + b| - 1] == a + b';
      assert (a + b)[|a + b| - 1] == last;
      RunSplits(r, a, b', delay);
      var u := Run(r, a + b', delay);
      var v := Run(s, b', delay);
      assert u.final == v.final;
      assert Run(r, a + b, delay) == Extend(u, last, delay);
      assert Run(s, b, delay) == Extend(v, last, delay);
      ExtendAppends(u, last, delay);
      ExtendAppends(v, last, delay);
      var w := Extend(Trace(v.final, []), last, delay);
      assert u.log + w.log == Run(r, a, delay).log + (v.log + w.log);
    }
  }

  /** The time of the latest report in a log, or 0 when there is none: the
      value the reporter's `lastReport` field holds. */
  function LastReportAt(log: seq<Stamped>): (t: int)
    ensures t != 0 ==> exists i :: 0 <= i < |log| && log[i].note.Report? && log[i].at == t &&
                         forall j :: i < j < |log| ==> !log[j].note.Report?
  {
    if log == [] then 0
    else if log[|log| - 1].note.Report? then log[|log| - 1].at
    else LastReportAt(log[..|log| - 1])
  }

  /** What a run from a fresh reporter always looks like. */
  ghost predicate Consistent(t: Trace) {
    && (!t.final.settled ==> !t.final.clientReady && t.log == [])
    && (t.final.settled && !t.final.clientReady ==> |t.log| == 1 && t.log[0].note == End(t.final.token))
    && (t.final.clientReady ==> t.final.settled && |t.log| >= 1 && t.log[0].note.Begin?)
    && (forall i :: 0 < i < |t.log| ==> !t.log[i].note.Begin?)
    && (forall i :: 0 <= i < |t.log| ==> t.log[i].note.token == t.final.token)
    && t.final.lastReport == LastReportAt(t.log)
  }

  lemma LastReportAtAppend(log: seq<Stamped>, s: Stamped)
    ensures LastReportAt(log + [s]) == if s.note.Report? then s.at else LastReportAt(log)
  {
    assert (log + [s])[..|log|] == log;
  }

  /** A call keeps the reporter's stream identity. */
  lemma StepKeepsToken(r: Reporter, e: Event, now: int, delay: int)
    ensures Step(r, e, now, delay).next.token == r.token
  {
    var o := Step(r, e, now, delay);
    assert o.next.(lastReport := r.lastReport, settled := r.settled, clientReady := r.clientReady) == Record(r, e);
  }

  /** A call that sends nothing keeps a run consistent. */
  lemma SilentCallConsistent(t: Trace, call: Timed, delay: int)
    requires Consistent(t)
    requires Step(t.final, call.event, call.now, delay).emitted == []
    ensures Consistent(Extend(t, call, delay))
  {
    var r := t.final;
    var o := Step(r, call.event, call.now, delay);
    StepKeepsToken(r, call.event, call.now, delay);
    assert t.log + Stamp(o.emitted, call.now) == t.log;
    assert o.next.lastReport == r.lastReport;
  }

  /** Appending one notification keeps a run consistent when the reporter
      moves as a begin, an end or a report demands. */
  lemma AppendConsistent(t: Trace, r': Reporter, s: Stamped)
    requires Consistent(t)
    requires r'.token == t.final.token && s.note.token == r'.token
    requires s.note.Begin? ==>
               !t.final.settled && r'.settled && r'.clientReady && r'.lastReport == t.final.lastReport
    requires s.note.End? ==>
               && r'.settled && r'.lastReport == t.final.lastReport
               && ((t.final.clientReady && r'.clientReady) || (!t.final.settled && !r'.clientReady))
    requires s.note.Report? ==> t.final.clientReady && r'.clientReady && r'.settled && r'.lastReport == s.at
    ensures Consistent(Trace(r', t.log + [s]))
  {
    LastReportAtAppend(t.log, s);
  }

  /** A call that sends one notification keeps a run consistent. */
  lemma SendingCallConsistent(t: Trace, call: Timed, delay: int)
    requires Consistent(t)
    requires Step(t.final, call.event, call.now, delay).emitted != []
    ensures Consistent(Extend(t, call, delay))
  {
    var r := t.final;
    var o := Step(r, call.event, call.now, delay);
    StepKeepsToken(r, call.event, call.now, delay);
    var n := o.emitted[0];
    assert Stamp(o.emitted, call.now) == [Stamped(n, call.now)];
    AppendConsistent(t, o.next, Stamped(n, call.now));
  }

  /** Every call keeps a run consistent. */
  lemma ExtendConsistent(t: Trace, call: Timed, delay: int)
    requires Consistent(t)
    ensures Consistent(Extend(t, call, delay))
    ensures Extend(t, call, delay).final.token == t.final.token
  {
    StepKeepsToken(t.final, call.event, call.now, delay);
    if Step(t.final, call.event, call.now, delay).emitted == [] {
      SilentCallConsistent(t, call, delay);
    } else {
      SendingCallConsistent(t, call, delay);
    }
  }

  lemma {:induction false} RunConsistent(kind: Kind, token: ProgressToken, job: Option<Job>, calls: seq<Timed>, delay: int)
    ensures Consistent(Run(NewReporter(kind, token, job), calls, delay))
    ensures Run(NewReporter(kind, token, job), calls, delay).final.token == token
    decreases |calls|
  {
    if calls != [] {
      RunConsistent(kind, token, job, calls[..|calls| - 1], delay);
      ExtendConsistent(Run(NewReporter(kind, token, job), calls[..|calls| - 1], delay), calls[|calls| - 1], delay);
    }
  }

  /** Readiness law: a report is never the first thing a client hears, the
      begin notification comes at most once and first, and a run that does not
      open with a begin consists of nothing but one end. */
  lemma ReadinessLaw(kind: Kind, token: ProgressToken, job: Option<Job>, calls: seq<Timed>, delay: int)
    ensures var log := Run(NewReporter(kind, token, job), calls, delay).log;
            && (forall i :: 0 <= i < |log| && log[i].note.Report? ==> 0 < i && log[0].note.Begin?)
            && (forall i :: 0 < i < |log| ==> !log[i].note.Begin?)
            && (log != [] && !log[0].note.Begin? ==> |log| == 1 && log[0].note == End(token))
  {
    RunConsistent(kind, token, job, calls, delay);
    var t := Run(NewReporter(kind, token, job), calls, delay);
    var log := t.log;
    if log != [] {
      assert t.final.settled;
      if !log[0].note.Begin? {
        assert !t.final.clientReady;
      }
    }
  }

  /** Calls before the handshake send nothing and leave it outstanding. */
  lemma {:induction false} PendingIsSilent(r: Reporter, calls: seq<Timed>, delay: int)
    requires !r.settled && !r.clientReady
    requires forall i :: 0 <= i < |calls| ==> !calls[i].event.HandshakeCompleted?
    ensures var t := Run(r, calls, delay); t.log == [] && !t.final.settled && !t.final.clientReady
    ensures Run(r, calls, delay).final.token == r.token
    decreases |calls|
  {
    if calls != [] {
      PendingIsSilent(r, calls[..|calls| - 1], delay);
    }
  }

  /** After a handshake that found the task done, nothing is ever sent again. */
  lemma {:induction false} TerminatedIsSilent(r: Reporter, calls: seq<Timed>, delay: int)
    requires r.settled && !r.clientReady
    ensures var t := Run(r, calls, delay); t.log == [] && t.final.settled && !t.final.clientReady
    decreases |calls|
  {
    if calls != [] {
      TerminatedIsSilent(r, calls[..|calls| - 1], delay);
    }
  }

  /** A task that is done before the client acknowledges the stream produces
      exactly one end notification, at the handshake, and no begin or report;
      the reporter never becomes ready. */
  lemma DoneBeforeHandshake(kind: Kind, token: ProgressToken, job: Option<Job>,
                            before: seq<Timed>, at: int, after: seq<Timed>, delay: int)
    requires forall i :: 0 <= i < |before| ==> !before[i].event.HandshakeCompleted?
    requires IsDone(Run(NewReporter(kind, token, job), before, delay).final)
    ensures var t := Run(NewReporter(kind, token, job), before + [Timed(HandshakeCompleted, at)] + after, delay);
            t.log == [Stamped(End(token), at)] && !t.final.clientReady
  {
    var r0 := NewReporter(kind, token, job);
    var hs := [Timed(HandshakeCompleted, at)];
    PendingIsSilent(r0, before, delay);
    var t1 := Run(r0, before, delay);
    RunSplits(r0, before, hs, delay);
    assert Run(t1.final, hs, delay).log == [Stamped(End(token), at)] by {
      assert hs[..0] == [];
    }
    var t2 := Run(r0, before + hs, delay);
    TerminatedIsSilent(t2.final, after, delay);
    RunSplits(r0, before + hs, after, delay);
  }

  /** Throttle law: a report that follows an earlier report sent at a nonzero
      time, on a task that is not done, comes at least `delay` later. */
  lemma ThrottleSpacing(kind: Kind, token: ProgressToken, job: Option<Job>,
                        calls: seq<Timed>, call: Timed, delay: int)
    requires var before := Run(NewReporter(kind, token, job), calls, delay);
             var after := Run(NewReporter(kind, token, job), calls + [call], delay);
             && |after.log| > |before.log| && after.log[|after.log| - 1].note.Report?
             && LastReportAt(before.log) != 0
             && !IsDone(after.final)
    ensures call.now - LastReportAt(Run(NewReporter(kind, token, job), calls, delay).log) >= delay
  {
    var r0 := NewReporter(kind, token, job);
    RunConsistent(kind, token, job, calls, delay);
    assert (calls + [call])[..|calls|] == calls;
  }

  /** The total of the `worked` deltas of a sequence of calls. */
  function WorkSum(calls: seq<Timed>): int {
    if calls == [] then 0
    else WorkSum(calls[..|calls| - 1]) + (if calls[|calls| - 1].event.Worked? then calls[|calls| - 1].event.work else 0)
  }

  /** One call moves the work counter by its `worked` delta, wrapped. */
  lemma StepProgress(r: Reporter, e: Event, now: int, delay: int)
    ensures Step(r, e, now, delay).next.progress == if e.Worked? then Wrap(r.progress + e.work) else r.progress
  {
    var o := Step(r, e, now, delay);
    assert o.next.(lastReport := r.lastReport, settled := r.settled, clientReady := r.clientReady) == Record(r, e);
  }

  /** The work counter is the running sum of every `worked` delta, negative
      ones included and no `beginTask` resetting it, wrapped to 32 bits. */
  lemma {:induction false} ProgressIsWrappedSum(r: Reporter, calls: seq<Timed>, delay: int)
    ensures Run(r, calls, delay).final.progress == Wrap(r.progress + WorkSum(calls))
    decreases |calls|
  {
    if calls != [] {
      var prefix := calls[..|calls| - 1];
      ProgressIsWrappedSum(r, prefix, delay);
      var last := calls[|calls| - 1];
      var before := Run(r, prefix, delay);
      assert Run(r, calls, delay) == Extend(before, last, delay);
      StepProgress(before.final, last.event, last.now, delay);
      var e := last.event;
      if e.Worked? {
        WrapAddAbsorbs(r.progress + WorkSum(prefix), e.work);
      }
    }
  }
}
