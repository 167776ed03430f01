/** The manager's choice of monitor for a job. Jobs of the language server's
    initialization family get a multicast of a server-status reporter (kept
    for older clients) and a reporter bound to the job; every other job, and
    work with no job, gets one reporter. Each reporter has its own progress
    stream, whose fresh identity is an argument here. */
module ReporterFactory {
  import opened Wrappers
  import opened ProgressReporting
  import Multicast

  datatype Monitor = Single(reporter: Reporter) | Composite(members: seq<Reporter>)

  /** `createMonitor(job)`. Every reporter creates its own stream, so the
      two identities differ. */
  function CreateMonitor(job: Job, statusToken: ProgressToken, jobToken: ProgressToken): (m: Monitor)
    requires statusToken != jobToken
    ensures m.Composite? <==> job.initialization
    ensures m.Composite? ==>
              m.members == [NewReporter(ServerStatus, statusToken, None), NewReporter(Plain, jobToken, Some(job))]
    ensures m.Single? ==> m.reporter == NewReporter(Plain, jobToken, Some(job))
  {
    if job.initialization then
      Composite([NewReporter(ServerStatus, statusToken, None), NewReporter(Plain, jobToken, Some(job))])
    else
      Single(NewReporter(Plain, jobToken, Some(job)))
  }

  /** `getDefaultMonitor()`: a reporter bound to no job. */
  function DefaultMonitor(token: ProgressToken): (m: Monitor)
    ensures m.Single? && m.reporter.kind == Plain && m.reporter.job == None && m.reporter.token == token
    ensures !m.reporter.settled && !m.reporter.clientReady && !IsDone(m.reporter)
  {
    Single(NewReporter(Plain, token, None))
  }

  /** `createProgressGroup()`: a progress group is just a default monitor. */
  function ProgressGroup(token: ProgressToken): (m: Monitor)
    ensures m == DefaultMonitor(token)
  {
    DefaultMonitor(token)
  }

  /** What reaches a monitor: a call of the progress-monitor interface,
      which a multicast forwards to every member, or the completion of the
      creation handshake of one member's own stream (a single reporter is
      member 0). */
  datatype Input = Call(e: Event) | Handshake(member: nat)

  function MemberCount(m: Monitor): nat {
    match m
    case Single(_) => 1
    case Composite(members) => |members|
  }

  /** An input on whatever monitor was handed out. */
  function Handle(m: Monitor, input: Input, now: int, delay: int): (r: (Monitor, seq<Notification>))
    requires input.Call? ==> !input.e.HandshakeCompleted?
    requires input.Handshake? ==> input.member < MemberCount(m)
    ensures r.0.Single? <==> m.Single?
    ensures MemberCount(r.0) == MemberCount(m)
    ensures m.Single? && input.Call? ==>
              r == (Single(Step(m.reporter, input.e, now, delay).next), Step(m.reporter, input.e, now, delay).emitted)
    ensures m.Single? && input.Handshake? ==>
              r == (Single(Step(m.reporter, HandshakeCompleted, now, delay).next),
                    Step(m.reporter, HandshakeCompleted, now, delay).emitted)
    ensures m.Composite? && input.Call? ==>
              forall i :: 0 <= i < |m.members| ==> r.0.members[i] == Step(m.members[i], input.e, now, delay).next
    ensures m.Composite? && input.Handshake? ==>
              var o := Step(m.members[input.member], HandshakeCompleted, now, delay);
              r == (Composite(m.members[input.member := o.next]), o.emitted)
  {
    match input
    case Call(e) =>
      (match m
       case Single(reporter) =>
         var o := Step(reporter, e, now, delay);
         (Single(o.next), o.emitted)
       case Composite(members) =>
         var f := Multicast.Broadcast(members, e, now, delay);
         (Composite(f.members), f.emitted))
    case Handshake(i) =>
      match m
      case Single(reporter) =>
        var o := Step(reporter, HandshakeCompleted, now, delay);
        (Single(o.next), o.emitted)
      case Composite(members) =>
        var o := Step(members[i], HandshakeCompleted, now, delay);
        (Composite(members[i := o.next]), o.emitted)
  }

  function IsCanceled(m: Monitor): bool {
    match m
    case Single(reporter) => reporter.canceled
    case Composite(members) => Multicast.AllCanceled(members)
  }

  /** Every monitor the factory hands out is silent until its streams'
      handshakes complete, and starts neither canceled nor done. */
  lemma CreatedMonitorsStartPending(job: Job, statusToken: ProgressToken, jobToken: ProgressToken,
                                    e: Event, now: int, delay: int)
    requires statusToken != jobToken && !e.HandshakeCompleted?
    ensures var m := CreateMonitor(job, statusToken, jobToken);
            Handle(m, Call(e), now, delay).1 == [] && !IsCanceled(m)
  {
    var m := CreateMonitor(job, statusToken, jobToken);
    if m.Composite? {
      Multicast.BroadcastInOrder([m.members[0]], [m.members[1]], e, now, delay);
      Multicast.BroadcastSingle(m.members[0], e, now, delay);
      Multicast.BroadcastSingle(m.members[1], e, now, delay);
      assert [m.members[0]] + [m.members[1]] == m.members;
    }
  }

  /** An initialization job's monitor opens two progress streams, each on
      its own handshake: whichever completes first, the client sees one
      begin on that stream, then one on the other when it completes. */
  lemma InitializationOpensTwoStreams(job: Job, statusToken: ProgressToken, jobToken: ProgressToken,
                                      now: int, later: int, delay: int)
    requires job.initialization && statusToken != jobToken
    ensures var m := CreateMonitor(job, statusToken, jobToken);
            var first := Handle(m, Handshake(0), now, delay);
            && first.1 == [Begin(statusToken, None, None, None)]
            && Handle(first.0, Handshake(1), later, delay).1 == [Begin(jobToken, None, None, None)]
    ensures var m := CreateMonitor(job, statusToken, jobToken);
            var first := Handle(m, Handshake(1), now, delay);
            && first.1 == [Begin(jobToken, None, None, None)]
            && Handle(first.0, Handshake(0), later, delay).1 == [Begin(statusToken, None, None, None)]
  {
  }

  /** While only the job stream's handshake has completed, the multicast
      sends nothing on the status stream. */
  lemma StatusStreamWaitsForItsHandshake(job: Job, statusToken: ProgressToken, jobToken: ProgressToken,
                                         e: Event, now: int, later: int, delay: int)
    requires job.initialization && statusToken != jobToken && !e.HandshakeCompleted?
    ensures var m := Handle(CreateMonitor(job, statusToken, jobToken), Handshake(1), now, delay).0;
            forall n <- Handle(m, Call(e), later, delay).1 :: n.token == jobToken
  {
    var m := Handle(CreateMonitor(job, statusToken, jobToken), Handshake(1), now, delay).0;
    Multicast.BroadcastInOrder([m.members[0]], [m.members[1]], e, later, delay);
    Multicast.BroadcastSingle(m.members[0], e, later, delay);
    Multicast.BroadcastSingle(m.members[1], e, later, delay);
    assert [m.members[0]] + [m.members[1]] == m.members;
  }
}
