/** The multicast monitor: a list of reporters that every call is forwarded
    to, one after another in list order, and that counts as canceled only
    when all of its members are. */
module Multicast {
  import opened ProgressReporting

  datatype Fanout = Fanout(members: seq<Reporter>, emitted: seq<Notification>)

  /** A call forwarded to each member in turn; what the members send is
      collected in member order. The handshake is not a call: each member's
      stream completes its own, so it never goes through the multicast. */
  function Broadcast(members: seq<Reporter>, e: Event, now: int, delay: int): (f: Fanout)
    requires !e.HandshakeCompleted?
    ensures |f.members| == |members|
    ensures forall i :: 0 <= i < |members| ==> f.members[i] == Step(members[i], e, now, delay).next
    ensures |f.emitted| <= |members|
  {
    if members == [] then Fanout([], [])
    else
      var o := Step(members[0], e, now, delay);
      var rest := Broadcast(members[1..], e, now, delay);
      Fanout([o.next] + rest.members, o.emitted + rest.emitted)
  }

  /** Everything the multicast sends is on one of its members' streams. */
  lemma {:induction false} EmittedOnMemberStreams(members: seq<Reporter>, e: Event, now: int, delay: int)
    requires !e.HandshakeCompleted?
    ensures forall n <- Broadcast(members, e, now, delay).emitted ::
              exists i :: 0 <= i < |members| && n.token == members[i].token
    decreases |members|
  {
    if members != [] {
      EmittedOnMemberStreams(members[1..], e, now, delay);
      var rest := Broadcast(members[1..], e, now, delay);
      forall n <- rest.emitted
        ensures exists i :: 0 <= i < |members| && n.token == members[i].token
      {
        var k :| 0 <= k < |members[1..]| && n.token == members[1..][k].token;
        assert n.token == members[k + 1].token;
      }
      var o := Step(members[0], e, now, delay);
      forall n <- o.emitted
        ensures exists i :: 0 <= i < |members| && n.token == members[i].token
      {
        assert n.token == members[0].token;
      }
    }
  }

  /** Forwarding to a concatenation of lists is forwarding to the first list,
      then to the second: members are served in list order. */
  lemma {:induction false} BroadcastInOrder(a: seq<Reporter>, b: seq<Reporter>, e: Event, now: int, delay: int)
    requires !e.HandshakeCompleted?
    ensures Broadcast(a + b, e, now, delay).emitted
         == Broadcast(a, e, now, delay).emitted + Broadcast(b, e, now, delay).emitted
    decreases |a|
  {
    if a != [] {
      assert (a + b)[0] == a[0];
      assert (a + b)[1..] == a[1..] + b;
      BroadcastInOrder(a[1..], b, e, now, delay);
      var o := Step(a[0], e, now, delay);
      assert Broadcast(a + b, e, now, delay).emitted == o.emitted + Broadcast(a[1..] + b, e, now, delay).emitted;
      assert Broadcast(a, e, now, delay).emitted == o.emitted + Broadcast(a[1..], e, now, delay).emitted;
    } else {
      assert a + b == b;
    }
  }

  /** A single member sends exactly what it would have sent on its own. */
  lemma BroadcastSingle(m: Reporter, e: Event, now: int, delay: int)
    requires !e.HandshakeCompleted?
    ensures Broadcast([m], e, now, delay).emitted == Step(m, e, now, delay).emitted
  {
    assert [m][1..] == [];
  }

  /** `isCanceled`: the first member that is not canceled answers false; a
      list with no such member, the empty list included, answers true. */
  function AllCanceled(members: seq<Reporter>): (c: bool)
    ensures c <==> forall i :: 0 <= i < |members| ==> members[i].canceled
  {
    if members == [] then true
    else if !members[0].canceled then false
    else
      var rest := AllCanceled(members[1..]);
      assert rest <==> forall i :: 1 <= i < |members| ==> members[i].canceled by {
        assert forall i :: 1 <= i < |members| ==> members[i] == members[1..][i - 1];
      }
      rest
  }

  /** After `setCanceled(b)` is forwarded, the multicast reports `b`, except
      that an empty multicast is always canceled. */
  lemma SetCanceledAgrees(members: seq<Reporter>, b: bool, now: int, delay: int)
    ensures AllCanceled(Broadcast(members, SetCanceled(b), now, delay).members) <==> b || members == []
  {
    var f := Broadcast(members, SetCanceled(b), now, delay);
    forall i | 0 <= i < |members|
      ensures f.members[i].canceled == b
    {
      assert f.members[i].(lastReport := members[i].lastReport, settled := members[i].settled,
                           clientReady := members[i].clientReady) == Record(members[i], SetCanceled(b));
    }
    if members != [] {
      assert f.members[0].canceled == b;
    }
  }

  /** After `done` is forwarded, every member is done, and each ready member
      has sent its end notification. */
  lemma DoneReachesEveryMember(members: seq<Reporter>, now: int, delay: int)
    ensures var f := Broadcast(members, Done, now, delay);
            && (forall i :: 0 <= i < |members| ==> IsDone(f.members[i]))
            && (forall i :: 0 <= i < |members| && members[i].clientReady ==> End(members[i].token) in f.emitted)
  {
    var f := Broadcast(members, Done, now, delay);
    forall i | 0 <= i < |members|
      ensures IsDone(f.members[i])
      ensures members[i].clientReady ==> End(members[i].token) in f.emitted
    {
      assert f.members[i].(lastReport := members[i].lastReport, settled := members[i].settled,
                           clientReady := members[i].clientReady) == Record(members[i], Done);
      if members[i].clientReady {
        EmittedByMember(members, i, Done, now, delay);
      }
    }
  }

  /** What member `i` sends is part of what the multicast sends. */
  lemma {:induction false} EmittedByMember(members: seq<Reporter>, i: nat, e: Event, now: int, delay: int)
    requires i < |members| && !e.HandshakeCompleted?
    ensures forall n <- Step(members[i], e, now, delay).emitted :: n in Broadcast(members, e, now, delay).emitted
    decreases i
  {
    if i > 0 {
      EmittedByMember(members[1..], i - 1, e, now, delay);
      assert members[1..][i - 1] == members[i];
    }
  }
}
