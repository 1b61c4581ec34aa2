/** Every step of the mirror keeps its invariant. */
module MirrorProof {
  import opened Queues
  import opened RequestTables
  import opened Mirror

  // ---------- what a step does to one disk ----------

  lemma AppendedBacklog(d: DiskState, e: DiskState, m: Message, k: nat)
    requires e.backlog == d.backlog + [m] && e.replies == d.replies
    ensures InBacklog(e, k) <==> InBacklog(d, k) || k == m.seqno
    ensures InReplies(e, k) <==> InReplies(d, k)
  {
    assert e.backlog[|d.backlog|] == m;
    forall i | 0 <= i < |d.backlog|
      ensures e.backlog[i] == d.backlog[i]
    {
    }
  }

  lemma RemovedNumber(b: seq<Message>, p: nat, k: nat)
    requires p < |b| && forall i, j :: 0 <= i < j < |b| ==> b[i].seqno < b[j].seqno
    ensures (exists i :: 0 <= i < |RemoveAt(b, p)| && RemoveAt(b, p)[i].seqno == k)
        <==> (exists i :: 0 <= i < |b| && b[i].seqno == k) && k != b[p].seqno
  {
    var rest := RemoveAt(b, p);
    if i :| 0 <= i < |b| && b[i].seqno == k && k != b[p].seqno {
      assert rest[if i < p then i else i - 1] == b[i];
    }
    if i :| 0 <= i < |rest| && rest[i].seqno == k {
      assert rest[i] == b[if i < p then i else i + 1];
    }
  }

  lemma ServedReplies(d: DiskState, p: nat, k: nat)
    requires p < |d.backlog| && d.backlog[p].sector in d.store
    ensures InReplies(ServedDisk(d, p), k) <==> InReplies(d, k) || k == d.backlog[p].seqno
  {
    var e := ServedDisk(d, p);
    assert |e.replies| == |d.replies| + 1 && e.replies[|d.replies|].message == d.backlog[p];
    if i :| 0 <= i < |d.replies| && d.replies[i].message.seqno == k {
      assert e.replies[i] == d.replies[i];
    }
  }

  lemma ServedBacklog(d: DiskState, p: nat, k: nat)
    requires p < |d.backlog| && d.backlog[p].sector in d.store
    requires forall i, j :: 0 <= i < j < |d.backlog| ==> d.backlog[i].seqno < d.backlog[j].seqno
    ensures InBacklog(ServedDisk(d, p), k) <==> InBacklog(d, k) && k != d.backlog[p].seqno
    ensures InReplies(ServedDisk(d, p), k) <==> InReplies(d, k) || k == d.backlog[p].seqno
  {
    hide RemoveAt, InReplies;
    RemovedNumber(d.backlog, p, k);
    ServedReplies(d, p, k);
  }

  lemma HandledReplies(d: DiskState, e: DiskState, k: nat)
    requires d.replies != [] && e == d.(replies := d.replies[1..])
    requires forall i, j :: 0 <= i < j < |d.replies| ==> d.replies[i].message.seqno != d.replies[j].message.seqno
    ensures InBacklog(e, k) <==> InBacklog(d, k)
    ensures InReplies(e, k) <==> InReplies(d, k) && k != d.replies[0].message.seqno
  {
    assert forall i :: 0 <= i < |e.replies| ==> e.replies[i] == d.replies[i + 1];
    assert forall i :: 0 < i < |d.replies| ==> d.replies[i] == e.replies[i - 1];
  }

  // ---------- what a step does to who waits for whom ----------

  lemma ArriveWriteWaits(s: State, a: Action, d: nat, k: nat)
    requires a.ArriveWrite? && Enabled(s, a) && d < |s.disks|
    ensures WaitingOn(Apply(s, a), d, k) <==> WaitingOn(s, d, k) || k == |s.arrivals|
  {
  }

  function ReadTarget(s: State): (d: nat)
    requires s.disks != []
    ensures d < |s.disks|
  {
    SelectedDisk(InfosOf(s.disks))
  }

  lemma ArriveReadDisk(s: State, a: Action, d: nat)
    requires a.ArriveRead? && Enabled(s, a) && d < |s.disks|
    ensures var t := Apply(s, a);
            var m := Message(false, a.id, a.sector, [], a.client, |s.arrivals|);
            && |t.disks| == |s.disks| && t.dispatch == s.dispatch && t.disks[d].store == s.disks[d].store
            && t.disks[d].replies == s.disks[d].replies
            && t.disks[d].backlog == if d == ReadTarget(s) then s.disks[d].backlog + [m] else s.disks[d].backlog
  {
  }

  lemma ArriveReadWaits(s: State, a: Action, d: nat, k: nat)
    requires a.ArriveRead? && Enabled(s, a) && d < |s.disks|
    ensures WaitingOn(Apply(s, a), d, k) <==> WaitingOn(s, d, k) || (k == |s.arrivals| && d == ReadTarget(s))
  {
    ArriveReadDisk(s, a, d);
    if d == ReadTarget(s) {
      AppendedBacklog(s.disks[d], Apply(s, a).disks[d], Message(false, a.id, a.sector, [], a.client, |s.arrivals|), k);
    }
  }

  lemma ForwardWaits(s: State, d: nat, k: nat)
    requires Enabled(s, Forward) && d < |s.disks|
    ensures WaitingOn(Apply(s, Forward), d, k) <==> WaitingOn(s, d, k)
  {
    var t := Apply(s, Forward);
    if d == s.dispatch.next {
      AppendedBacklog(s.disks[d], t.disks[d], s.dispatch.message, k);
    }
  }

  lemma ServeWaits(s: State, a: Action, d: nat, k: nat)
    requires a.Serve? && Enabled(s, a) && d < |s.disks| && Placed(s, a.disk)
    ensures WaitingOn(Apply(s, a), d, k) <==> WaitingOn(s, d, k)
  {
    if d == a.disk {
      ServedBacklog(s.disks[d], a.position, k);
      assert InBacklog(s.disks[d], s.disks[d].backlog[a.position].seqno);
    }
  }

  lemma HandleReplyWaits(s: State, a: Action, d: nat, k: nat)
    requires a.HandleReply? && Enabled(s, a) && d < |s.disks| && Placed(s, a.disk)
    ensures var m := s.disks[a.disk].replies[0].message;
            WaitingOn(Apply(s, a), d, k) <==> WaitingOn(s, d, k) && !(d == a.disk && k == m.seqno)
  {
    if d == a.disk {
      var disk := s.disks[d];
      HandledReplies(disk, Apply(s, a).disks[d], k);
      assert InReplies(disk, disk.replies[0].message.seqno);
    }
  }

  // ---------- messages in flight stay genuine, each in one place ----------

  lemma GenuineAfterWrite(s: State, a: Action)
    requires a.ArriveWrite? && Enabled(s, a) && Genuine(s)
    ensures Genuine(Apply(s, a))
  {
    var t := Apply(s, a);
    assert forall k :: 0 <= k < |s.arrivals| ==> t.arrivals[k] == s.arrivals[k];
  }

  lemma ArriveReadRest(s: State, a: Action)
    requires a.ArriveRead? && Enabled(s, a)
    ensures var t := Apply(s, a);
            && t.dispatch == s.dispatch && t.answers == s.answers && t.initial == s.initial && |t.disks| == |s.disks|
            && var m := Message(false, a.id, a.sector, [], a.client, |s.arrivals|);
               t.arrivals == s.arrivals + [Arrival(m, Answered(s.answers))]
  {
  }

  lemma KnownAfterRead(s: State, a: Action, d: nat)
    requires a.ArriveRead? && Enabled(s, a) && Genuine(s) && d < |s.disks| == |Apply(s, a).disks|
    ensures var t := Apply(s, a);
            && t.disks[d].store == s.disks[d].store
            && (forall i :: 0 <= i < |t.disks[d].backlog| ==> Known(t, t.disks[d].backlog[i]))
            && (forall i :: 0 <= i < |t.disks[d].replies| ==> Known(t, t.disks[d].replies[i].message))
  {
    hide Apply, Enabled, Answered;
    ArriveReadRest(s, a);
    ArriveReadDisk(s, a, d);
    var t := Apply(s, a);
    assert Known(t, Message(false, a.id, a.sector, [], a.client, |s.arrivals|));
    forall m: Message | Known(s, m)
      ensures Known(t, m)
    {
    }
  }

  lemma GenuineAfterRead(s: State, a: Action)
    requires a.ArriveRead? && Enabled(s, a) && Genuine(s)
    ensures Genuine(Apply(s, a))
  {
    assert a.sector in s.initial;
    hide Apply, Enabled, Answered;
    ArriveReadRest(s, a);
    assert s.dispatch.Quiet? by { QuietOnArrival(s, a); }
    var t := Apply(s, a);
    hide Known;
    forall d | 0 <= d < |s.disks| {
      KnownAfterRead(s, a, d);
    }
  }

  lemma QuietOnArrival(s: State, a: Action)
    requires (a.ArriveWrite? || a.ArriveRead?) && Enabled(s, a)
    ensures s.dispatch.Quiet?
  {
  }

  lemma GenuineAfterForward(s: State)
    requires Enabled(s, Forward) && Genuine(s)
    ensures Genuine(Apply(s, Forward))
  {
  }

  lemma GenuineAfterServe(s: State, a: Action)
    requires a.Serve? && Enabled(s, a) && Genuine(s)
    ensures Genuine(Apply(s, a))
  {
    var t := Apply(s, a);
    var d, e := s.disks[a.disk], t.disks[a.disk];
    assert forall i :: 0 <= i < |e.backlog| ==> e.backlog[i] == d.backlog[if i < a.position then i else i + 1];
    assert forall i :: 0 <= i < |d.replies| ==> e.replies[i] == d.replies[i];
  }

  lemma GenuineAfterReply(s: State, a: Action)
    requires a.HandleReply? && Enabled(s, a) && Genuine(s)
    ensures Genuine(Apply(s, a))
  {
    var t := Apply(s, a);
    assert forall i :: 0 <= i < |s.answers| ==> t.answers[i] == s.answers[i];
    assert Answered(s.answers) <= Answered(t.answers) by {
      forall k | k in Answered(s.answers)
        ensures k in Answered(t.answers)
      {
        var i :| 0 <= i < |s.answers| && s.answers[i].seqno == k;
        assert t.answers[i].seqno == k;
      }
    }
  }

  lemma PlacedAfterWrite(s: State, a: Action, d: nat)
    requires a.ArriveWrite? && Enabled(s, a) && Genuine(s) && d < |s.disks| && Placed(s, d)
    ensures Placed(Apply(s, a), d)
  {
  }

  lemma PlacedAfterRead(s: State, a: Action, d: nat)
    requires a.ArriveRead? && Enabled(s, a) && Genuine(s) && d < |s.disks| && Placed(s, d)
    ensures |Apply(s, a).disks| == |s.disks| && Placed(Apply(s, a), d)
  {
    hide Apply, Enabled, ReadTarget, Answered;
    ArriveReadDisk(s, a, d);
    var t := Apply(s, a);
    if d == ReadTarget(s) {
      PlacedAfterAppend(s, t, d, Message(false, a.id, a.sector, [], a.client, |s.arrivals|));
    } else {
      hide Genuine;
      PlacedLasts(s, t, d);
    }
  }

  lemma PlacedLasts(s: State, t: State, d: nat)
    requires d < |s.disks| == |t.disks| && Placed(s, d) && t.dispatch == s.dispatch
    requires t.disks[d].backlog == s.disks[d].backlog && t.disks[d].replies == s.disks[d].replies
    ensures Placed(t, d)
  {
    var a, b := s.disks[d], t.disks[d];
    assert forall k: nat :: (InBacklog(a, k) <==> InBacklog(b, k)) && (InReplies(a, k) <==> InReplies(b, k));
  }

  /** A message newer than all others may be appended to a backlog. */
  lemma PlacedAfterAppend(s: State, t: State, d: nat, m: Message)
    requires Genuine(s) && d < |s.disks| == |t.disks| && Placed(s, d)
    requires t.disks[d].backlog == s.disks[d].backlog + [m] && t.disks[d].replies == s.disks[d].replies
    requires t.dispatch == s.dispatch && m.seqno == |s.arrivals|
    ensures Placed(t, d)
  {
    forall k: nat {
      AppendedBacklog(s.disks[d], t.disks[d], m, k);
    }
    forall i | 0 <= i < |s.disks[d].backlog|
      ensures s.disks[d].backlog[i].seqno < m.seqno
    {
      assert Known(s, s.disks[d].backlog[i]);
    }
    forall i | 0 <= i < |s.disks[d].replies|
      ensures s.disks[d].replies[i].message.seqno < m.seqno
    {
      assert Known(s, s.disks[d].replies[i].message);
    }
  }

  lemma PlacedAfterForward(s: State, d: nat)
    requires Enabled(s, Forward) && Genuine(s) && d < |s.disks| && Placed(s, d)
    ensures Placed(Apply(s, Forward), d)
  {
    if d == s.dispatch.next {
      assert Unsent(s, d, s.dispatch.message.seqno);
      forall k: nat {
        AppendedBacklog(s.disks[d], Apply(s, Forward).disks[d], s.dispatch.message, k);
      }
      forall i | 0 <= i < |s.disks[d].backlog|
        ensures s.disks[d].backlog[i].seqno < s.dispatch.message.seqno
      {
        assert Known(s, s.disks[d].backlog[i]) && InBacklog(s.disks[d], s.disks[d].backlog[i].seqno);
      }
    }
  }

  lemma OrderAfterRemoval(b: seq<Message>, p: nat)
    requires p < |b| && forall i, j :: 0 <= i < j < |b| ==> b[i].seqno < b[j].seqno
    ensures var rest := RemoveAt(b, p);
            forall i, j :: 0 <= i < j < |rest| ==> rest[i].seqno < rest[j].seqno
  {
    var rest := RemoveAt(b, p);
    assert forall i :: 0 <= i < |rest| ==> rest[i] == b[if i < p then i else i + 1];
  }

  lemma PlacedAfterServe(s: State, a: Action, d: nat)
    requires a.Serve? && Enabled(s, a) && d < |s.disks| && Placed(s, d)
    ensures Placed(Apply(s, a), d)
  {
    if d == a.disk {
      var disk, p := s.disks[d], a.position;
      var e := ServedDisk(disk, p);
      assert Apply(s, a) == s.(disks := s.disks[d := e]);
      assert e.replies[..|disk.replies|] == disk.replies && e.replies[|disk.replies|].message == disk.backlog[p];
      hide Apply, Enabled, RemoveAt, InBacklog, InReplies;
      OrderAfterRemoval(disk.backlog, p);
      AtHand(disk, p);
      forall k: nat {
        ServedBacklog(disk, p, k);
      }
    }
  }

  lemma AtHand(d: DiskState, p: nat)
    requires p < |d.backlog|
    ensures InBacklog(d, d.backlog[p].seqno)
    ensures forall i :: 0 <= i < |d.replies| ==> InReplies(d, d.replies[i].message.seqno)
  {
  }

  lemma PlacedAfterReply(s: State, a: Action, d: nat)
    requires a.HandleReply? && Enabled(s, a) && d < |s.disks| && Placed(s, d)
    ensures Placed(Apply(s, a), d)
  {
    if d == a.disk {
      var disk, e := s.disks[d], Apply(s, a).disks[d];
      assert forall i :: 0 <= i < |e.replies| ==> e.replies[i] == disk.replies[i + 1];
      forall k: nat {
        HandledReplies(disk, e, k);
      }
    }
  }

  lemma ShapeKept(s: State, a: Action)
    requires Enabled(s, a) && Genuine(s) && forall d :: 0 <= d < |s.disks| ==> Placed(s, d)
    ensures Genuine(Apply(s, a)) && |Apply(s, a).disks| == |s.disks|
    ensures forall d :: 0 <= d < |s.disks| ==> Placed(Apply(s, a), d)
  {
    match a
    case ArriveWrite(_, _, _, _) => GenuineAfterWrite(s, a); forall d | 0 <= d < |s.disks| { PlacedAfterWrite(s, a, d); }
    case ArriveRead(_, _, _) => GenuineAfterRead(s, a); forall d | 0 <= d < |s.disks| { PlacedAfterRead(s, a, d); }
    case Forward => GenuineAfterForward(s); forall d | 0 <= d < |s.disks| { PlacedAfterForward(s, d); }
    case Serve(_, _) => GenuineAfterServe(s, a); forall d | 0 <= d < |s.disks| { PlacedAfterServe(s, a, d); }
    case HandleReply(_) => GenuineAfterReply(s, a); forall d | 0 <= d < |s.disks| { PlacedAfterReply(s, a, d); }
  }

  // ---------- stored values ----------

  /** Arrivals only grow, so what a value was numbered after stays put. */
  lemma TrueValueLasts(s: State, t: State, x: nat, v: Stored)
    requires s.arrivals <= t.arrivals && s.initial == t.initial && x in s.initial && TrueValue(s, x, v)
    ensures TrueValue(t, x, v)
  {
  }

  lemma AppliedAfterArrival(s: State, a: Action, d: nat, k: nat)
    requires (a.ArriveWrite? || a.ArriveRead?) && Enabled(s, a) && Genuine(s) && Genuine(Apply(s, a)) && StoresTrue(s)
    requires d < |s.disks| == |Apply(s, a).disks| && k <= |s.arrivals|
    ensures Apply(s, a).disks[d].store == s.disks[d].store && AppliedExactly(Apply(s, a), d, k)
  {
    if a.ArriveRead? {
      ArriveReadDisk(s, a, d);
      if d == ReadTarget(s) {
        AppendedBacklog(s.disks[d], Apply(s, a).disks[d], Message(false, a.id, a.sector, [], a.client, |s.arrivals|), k);
      }
    }
    if k < |s.arrivals| {
      assert AppliedExactly(s, d, k);
    } else {
      assert TrueValue(s, a.sector, s.disks[d].store[a.sector]);
    }
  }

  lemma AppliedAfterForward(s: State, d: nat, k: nat)
    requires Enabled(s, Forward) && Genuine(s) && Genuine(Apply(s, Forward)) && StoresTrue(s)
    requires d < |s.disks| == |Apply(s, Forward).disks| && k < |s.arrivals|
    ensures AppliedExactly(Apply(s, Forward), d, k)
  {
    assert AppliedExactly(s, d, k);
    if d == s.dispatch.next {
      AppendedBacklog(s.disks[d], Apply(s, Forward).disks[d], s.dispatch.message, k);
    }
  }

  /** Among the writes to one sector, a served write is the oldest the disk had not applied. */
  lemma OlderWritesAreApplied(s: State, a: Action, k: nat)
    requires a.Serve? && Enabled(s, a) && Genuine(s) && Placed(s, a.disk) && StoresTrue(s) && k < |s.arrivals|
    requires var m := s.disks[a.disk].backlog[a.position];
             WritesTo(s, k, m.sector) && k < m.seqno
    ensures !Unsent(s, a.disk, k) && !InBacklog(s.disks[a.disk], k)
  {
    var disk, p := s.disks[a.disk], a.position;
    var m := disk.backlog[p];
    assert Known(s, m);
    forall i | 0 <= i < |disk.backlog|
      ensures disk.backlog[i].seqno != k
    {
      assert Known(s, disk.backlog[i]);
      assert p < i ==> m.seqno < disk.backlog[i].seqno;
    }
  }

  lemma AppliedAfterServe(s: State, a: Action, k: nat)
    requires a.Serve? && Enabled(s, a) && Genuine(s) && Placed(s, a.disk) && StoresTrue(s)
    requires Genuine(Apply(s, a)) && k < |s.arrivals|
    ensures AppliedExactly(Apply(s, a), a.disk, k)
  {
    var d, disk := a.disk, s.disks[a.disk];
    var m := disk.backlog[a.position];
    assert AppliedExactly(s, d, k) && Known(s, m);
    ServedBacklog(disk, a.position, k);
    assert InBacklog(disk, m.seqno);
    if m.write && WritesTo(s, k, m.sector) {
      assert AppliedExactly(s, d, m.seqno);
      if k < m.seqno {
        OlderWritesAreApplied(s, a, k);
      }
    }
  }

  lemma StoreAfterStep(s: State, a: Action, d: nat, x: nat)
    requires Enabled(s, a) && d < |s.disks| == |Apply(s, a).disks| && x in s.disks[d].store
    ensures x in Apply(s, a).disks[d].store
    ensures Apply(s, a).disks[d].store[x] ==
            if a.Serve? && d == a.disk && s.disks[d].backlog[a.position].write && s.disks[d].backlog[a.position].sector == x
            then Stored(s.disks[d].backlog[a.position].data, s.disks[d].backlog[a.position].seqno + 1)
            else s.disks[d].store[x]
  {
    if a.ArriveRead? {
      ArriveReadDisk(s, a, d);
    }
  }

  lemma ValueAfterStep(s: State, a: Action, d: nat, x: nat)
    requires Enabled(s, a) && Genuine(s) && StoresTrue(s) && Genuine(Apply(s, a))
    requires d < |s.disks| == |Apply(s, a).disks| && x in s.initial
    ensures TrueValue(Apply(s, a), x, Apply(s, a).disks[d].store[x])
  {
    hide Apply, AppliedExactly;
    StoreAfterStep(s, a, d, x);
    ArrivalsGrow(s, a);
    assert TrueValue(s, x, s.disks[d].store[x]);
    if a.Serve? && d == a.disk {
      assert Known(s, s.disks[d].backlog[a.position]);
    }
  }

  lemma AppliedAfterStep(s: State, a: Action, d: nat, k: nat)
    requires Enabled(s, a) && Genuine(s) && StoresTrue(s) && Genuine(Apply(s, a))
    requires forall e :: 0 <= e < |s.disks| ==> Placed(s, e)
    requires d < |s.disks| == |Apply(s, a).disks| && k < |Apply(s, a).arrivals|
    ensures AppliedExactly(Apply(s, a), d, k)
  {
    match a
    case ArriveWrite(_, _, _, _) => AppliedAfterArrival(s, a, d, k);
    case ArriveRead(_, _, _) => AppliedAfterArrival(s, a, d, k);
    case Forward => AppliedAfterForward(s, d, k);
    case Serve(_, _) =>
      if d == a.disk {
        AppliedAfterServe(s, a, k);
      } else {
        assert AppliedExactly(s, d, k);
      }
    case HandleReply(_) => assert AppliedExactly(s, d, k);
  }

  lemma StoresKept(s: State, a: Action)
    requires Enabled(s, a) && Genuine(s) && (forall d :: 0 <= d < |s.disks| ==> Placed(s, d)) && StoresTrue(s)
    requires Genuine(Apply(s, a)) && |Apply(s, a).disks| == |s.disks|
    ensures StoresTrue(Apply(s, a))
  {
    forall d, k | 0 <= d < |s.disks| && 0 <= k < |Apply(s, a).arrivals| {
      AppliedAfterStep(s, a, d, k);
    }
    forall d, x | 0 <= d < |s.disks| && x in s.initial {
      ValueAfterStep(s, a, d, x);
    }
  }

  // ---------- the request table ----------

  lemma {:induction false} RangeSize(range: set<nat>, n: nat)
    requires forall d: nat :: d in range <==> d < n
    ensures |range| == n
  {
    if 0 < n {
      RangeSize(range - {n - 1}, n - 1);
    } else {
      assert range == {};
    }
  }

  /** Nobody waits for a request that has not arrived. */
  lemma NobodyWaitsForTheFuture(s: State, d: nat)
    requires Genuine(s) && d < |s.disks|
    ensures !WaitingOn(s, d, |s.arrivals|)
  {
  }

  lemma WaitingAfterStep(s: State, a: Action, k: nat)
    requires Enabled(s, a) && Genuine(s) && |Apply(s, a).disks| == |s.disks|
    requires forall d :: 0 <= d < |s.disks| ==> Placed(s, d)
    requires k < |s.arrivals|
    ensures WaitingDisks(Apply(s, a), k) ==
            if a.HandleReply? && k == s.disks[a.disk].replies[0].message.seqno
            then WaitingDisks(s, k) - {a.disk} else WaitingDisks(s, k)
    ensures a.HandleReply? ==> a.disk in WaitingDisks(s, s.disks[a.disk].replies[0].message.seqno)
  {
    if a.HandleReply? {
      assert InReplies(s.disks[a.disk], s.disks[a.disk].replies[0].message.seqno);
    }
    forall d | 0 <= d < |s.disks|
      ensures WaitingOn(Apply(s, a), d, k) <==>
                WaitingOn(s, d, k) && !(a.HandleReply? && k == s.disks[a.disk].replies[0].message.seqno && d == a.disk)
    {
      match a
      case ArriveWrite(_, _, _, _) => ArriveWriteWaits(s, a, d, k);
      case ArriveRead(_, _, _) => ArriveReadWaits(s, a, d, k);
      case Forward => ForwardWaits(s, d, k);
      case Serve(_, _) => ServeWaits(s, a, d, k);
      case HandleReply(_) => HandleReplyWaits(s, a, d, k);
    }
  }

  /** A new write waits for every disk, a new read for the one chosen. */
  lemma WaitingForTheNewcomer(s: State, a: Action)
    requires (a.ArriveWrite? || a.ArriveRead?) && Enabled(s, a) && Genuine(s) && |Apply(s, a).disks| == |s.disks|
    ensures |WaitingDisks(Apply(s, a), |s.arrivals|)| == if a.ArriveWrite? then |s.disks| else 1
  {
    var t, k := Apply(s, a), |s.arrivals|;
    forall d | 0 <= d < |s.disks|
      ensures WaitingOn(t, d, k) <==> a.ArriveWrite? || d == ReadTarget(s)
    {
      NobodyWaitsForTheFuture(s, d);
      if a.ArriveWrite? {
        ArriveWriteWaits(s, a, d, k);
      } else {
        ArriveReadWaits(s, a, d, k);
      }
    }
    if a.ArriveWrite? {
      RangeSize(WaitingDisks(t, k), |s.disks|);
    } else {
      assert WaitingDisks(t, k) == {ReadTarget(s)};
    }
  }

  lemma PendingAfterArrival(s: State, a: Action)
    requires (a.ArriveWrite? || a.ArriveRead?) && Enabled(s, a)
    ensures var t := Apply(s, a);
            && |t.pending| == |s.pending| + 1 && t.pending[..|s.pending|] == s.pending
            && |t.arrivals| == |s.arrivals| + 1 && t.arrivals[..|s.arrivals|] == s.arrivals
    ensures var e := Apply(s, a).pending[|s.pending|];
            e == Entry(a.id, a.sector, e.disk, a.client, |s.disks|, |s.arrivals|)
    ensures var m := Apply(s, a).arrivals[|s.arrivals|].message;
            m.write == a.ArriveWrite? && m.id == a.id && m.sector == a.sector && m.client == a.client
  {
  }

  lemma KeysAfterArrival(s: State, a: Action)
    requires (a.ArriveWrite? || a.ArriveRead?) && Enabled(s, a) && DistinctKeys(s.pending)
    ensures DistinctKeys(Apply(s, a).pending)
  {
  }

  lemma TableAfterArrival(s: State, a: Action)
    requires (a.ArriveWrite? || a.ArriveRead?) && Enabled(s, a) && Genuine(s) && TableTrue(s)
    requires |Apply(s, a).disks| == |s.disks| && forall d :: 0 <= d < |s.disks| ==> Placed(s, d)
    ensures TableTrue(Apply(s, a))
  {
    hide Apply, Enabled, Placed, WaitingDisks, DistinctKeys;
    var t := Apply(s, a);
    WaitingForTheNewcomer(s, a);
    PendingAfterArrival(s, a);
    KeysAfterArrival(s, a);
    assert |s.disks| > 0;
    forall i | 0 <= i < |t.pending|
      ensures EntryTrue(t, t.pending[i])
    {
      if i < |s.pending| {
        assert t.pending[i] == s.pending[i];
        assert EntryTrue(s, s.pending[i]);
        WaitingAfterStep(s, a, s.pending[i].seqno);
      }
    }
    forall k | 0 <= k < |t.arrivals| && !Pending(t, k)
      ensures WaitingDisks(t, k) == {}
    {
      assert t.pending[|s.pending|].seqno == |s.arrivals|;
      assert forall i :: 0 <= i < |s.pending| ==> t.pending[i] == s.pending[i];
      WaitingAfterStep(s, a, k);
    }
  }

  lemma TableAfterQuietStep(s: State, a: Action)
    requires (a.Forward? || a.Serve?) && Enabled(s, a) && Genuine(s) && TableTrue(s)
    requires |Apply(s, a).disks| == |s.disks| && forall d :: 0 <= d < |s.disks| ==> Placed(s, d)
    ensures TableTrue(Apply(s, a))
  {
    var t := Apply(s, a);
    forall i | 0 <= i < |t.pending|
      ensures EntryTrue(t, t.pending[i])
    {
      assert EntryTrue(s, s.pending[i]);
      WaitingAfterStep(s, a, s.pending[i].seqno);
    }
    forall k | 0 <= k < |t.arrivals| && !Pending(t, k)
      ensures WaitingDisks(t, k) == {}
    {
      assert Pending(s, k) ==> Pending(t, k);
      WaitingAfterStep(s, a, k);
    }
  }

  /** Entries of distinct keys describe distinct requests. */
  lemma DistinctRequests(s: State, i: nat, j: nat)
    requires TableTrue(s) && i < |s.pending| && j < |s.pending| && s.pending[i].seqno == s.pending[j].seqno
    ensures i == j
  {
    assert EntryTrue(s, s.pending[i]) && EntryTrue(s, s.pending[j]);
  }

  /** The key in a reply finds the entry of the very request the reply answers. */
  lemma ReplyFindsItsRequest(s: State, d: nat)
    requires Genuine(s) && TableTrue(s) && d < |s.disks| && s.disks[d].replies != []
    ensures var m := s.disks[d].replies[0].message;
            var p := FirstMatch(s.pending, m.id, m.sector);
            p < |s.pending| && s.pending[p].seqno == m.seqno && EntryTrue(s, s.pending[p])
  {
    var m := s.disks[d].replies[0].message;
    var p := FirstMatch(s.pending, m.id, m.sector);
    assert Known(s, m) && InReplies(s.disks[d], m.seqno);
    assert d in WaitingDisks(s, m.seqno);
    var i :| 0 <= i < |s.pending| && s.pending[i].seqno == m.seqno;
    assert EntryTrue(s, s.pending[i]);
    MatchIs(s.pending, m.id, m.sector, i);
  }

  lemma TableAfterCount(s: State, a: Action)
    requires a.HandleReply? && Enabled(s, a) && Genuine(s) && TableTrue(s)
    requires |Apply(s, a).disks| == |s.disks| && forall d :: 0 <= d < |s.disks| ==> Placed(s, d)
    requires |Apply(s, a).pending| == |s.pending|
    ensures TableTrue(Apply(s, a))
  {
    var t := Apply(s, a);
    var m := s.disks[a.disk].replies[0].message;
    var p := FirstMatch(s.pending, m.id, m.sector);
    ReplyFindsItsRequest(s, a.disk);
    assert Known(s, m);
    forall i | 0 <= i < |t.pending|
      ensures EntryTrue(t, t.pending[i])
    {
      assert EntryTrue(s, s.pending[i]);
      WaitingAfterStep(s, a, s.pending[i].seqno);
      if s.pending[i].seqno == m.seqno {
        DistinctRequests(s, i, p);
      }
    }
    forall k | 0 <= k < |t.arrivals| && !Pending(t, k)
      ensures WaitingDisks(t, k) == {}
    {
      assert forall i :: 0 <= i < |s.pending| ==> t.pending[i].seqno == s.pending[i].seqno;
      WaitingAfterStep(s, a, k);
    }
  }

  lemma RemoveOneEntry(es: seq<Entry>, p: nat)
    requires p < |es| && DistinctKeys(es)
    requires forall i, j :: 0 <= i < |es| && 0 <= j < |es| && es[i].seqno == es[j].seqno ==> i == j
    ensures var rest := RemoveAt(es, p);
            && (forall i :: 0 <= i < |rest| ==> rest[i] in es && rest[i].seqno != es[p].seqno)
            && (forall i :: 0 <= i < |es| && es[i].seqno != es[p].seqno ==> es[i] in rest)
            && DistinctKeys(rest)
  {
    var rest := RemoveAt(es, p);
    assert forall i :: 0 <= i < |rest| ==> rest[i] == es[if i < p then i else i + 1];
    forall j | 0 <= j < |es| && j != p
      ensures es[j] in rest
    {
      assert rest[if j < p then j else j - 1] == es[j];
    }
  }

  /** The step that answers a request removes its entry and no other. */
  lemma AnsweredEntryGone(s: State, a: Action)
    requires a.HandleReply? && Enabled(s, a) && Genuine(s) && TableTrue(s)
    requires |Apply(s, a).pending| != |s.pending|
    ensures var t, seqno := Apply(s, a), s.disks[a.disk].replies[0].message.seqno;
            && (forall i :: 0 <= i < |t.pending| ==> t.pending[i] in s.pending && t.pending[i].seqno != seqno)
            && (forall i :: 0 <= i < |s.pending| && s.pending[i].seqno != seqno ==> s.pending[i] in t.pending)
            && DistinctKeys(t.pending)
  {
    var m := s.disks[a.disk].replies[0].message;
    var p := FirstMatch(s.pending, m.id, m.sector);
    ReplyFindsItsRequest(s, a.disk);
    forall i, j | 0 <= i < |s.pending| && 0 <= j < |s.pending| && s.pending[i].seqno == s.pending[j].seqno
      ensures i == j
    {
      DistinctRequests(s, i, j);
    }
    RemoveOneEntry(s.pending, p);
    assert Apply(s, a).pending == RemoveAt(s.pending, p);
  }

  lemma PendingAfterAnswer(s: State, a: Action, k: nat)
    requires a.HandleReply? && Enabled(s, a) && Genuine(s) && TableTrue(s)
    requires |Apply(s, a).pending| != |s.pending|
    ensures Pending(Apply(s, a), k) <==> Pending(s, k) && k != s.disks[a.disk].replies[0].message.seqno
  {
    var t, seqno := Apply(s, a), s.disks[a.disk].replies[0].message.seqno;
    AnsweredEntryGone(s, a);
    if Pending(s, k) && k != seqno {
      var i :| 0 <= i < |s.pending| && s.pending[i].seqno == k;
      assert s.pending[i] in t.pending;
    }
  }

  lemma OtherEntryAfterAnswer(s: State, a: Action, e: Entry)
    requires a.HandleReply? && Enabled(s, a) && Genuine(s) && |Apply(s, a).disks| == |s.disks|
    requires forall d :: 0 <= d < |s.disks| ==> Placed(s, d)
    requires EntryTrue(s, e) && e.seqno != s.disks[a.disk].replies[0].message.seqno
    ensures EntryTrue(Apply(s, a), e)
  {
    WaitingAfterStep(s, a, e.seqno);
  }

  lemma NobodyWaitsAfterAnswer(s: State, a: Action)
    requires a.HandleReply? && Enabled(s, a) && Genuine(s) && TableTrue(s) && |Apply(s, a).disks| == |s.disks|
    requires forall d :: 0 <= d < |s.disks| ==> Placed(s, d)
    requires |Apply(s, a).pending| != |s.pending|
    ensures WaitingDisks(Apply(s, a), s.disks[a.disk].replies[0].message.seqno) == {}
  {
    var m := s.disks[a.disk].replies[0].message;
    ReplyFindsItsRequest(s, a.disk);
    WaitingAfterStep(s, a, m.seqno);
    var waiting := WaitingDisks(s, m.seqno);
    assert |waiting| == 1 && a.disk in waiting;
    assert |waiting - {a.disk}| == 0;
  }

  lemma TableAfterAnswer(s: State, a: Action)
    requires a.HandleReply? && Enabled(s, a) && Genuine(s) && TableTrue(s)
    requires |Apply(s, a).disks| == |s.disks| && forall d :: 0 <= d < |s.disks| ==> Placed(s, d)
    requires |Apply(s, a).pending| != |s.pending|
    ensures TableTrue(Apply(s, a))
  {
    var t, seqno := Apply(s, a), s.disks[a.disk].replies[0].message.seqno;
    AnsweredEntryGone(s, a);
    forall i | 0 <= i < |t.pending|
      ensures EntryTrue(t, t.pending[i])
    {
      assert t.pending[i] in s.pending;
      OtherEntryAfterAnswer(s, a, t.pending[i]);
    }
    forall k | 0 <= k < |t.arrivals| && !Pending(t, k)
      ensures WaitingDisks(t, k) == {}
    {
      if k == seqno {
        NobodyWaitsAfterAnswer(s, a);
      } else {
        PendingAfterAnswer(s, a, k);
        WaitingAfterStep(s, a, k);
      }
    }
  }

  lemma TableKept(s: State, a: Action)
    requires Enabled(s, a) && Genuine(s) && TableTrue(s)
    requires |Apply(s, a).disks| == |s.disks| && forall d :: 0 <= d < |s.disks| ==> Placed(s, d)
    ensures TableTrue(Apply(s, a))
  {
    match a
    case ArriveWrite(_, _, _, _) => TableAfterArrival(s, a);
    case ArriveRead(_, _, _) => TableAfterArrival(s, a);
    case Forward => TableAfterQuietStep(s, a);
    case Serve(_, _) => TableAfterQuietStep(s, a);
    case HandleReply(_) =>
      if |Apply(s, a).pending| == |s.pending| {
        TableAfterCount(s, a);
      } else {
        TableAfterAnswer(s, a);
      }
  }

  // ---------- replies and answers ----------

  /** The answered writes have reached every disk. */
  lemma AnsweredIsApplied(s: State, d: nat, w: nat)
    requires Inv(s) && d < |s.disks| && w < |s.arrivals| && w in Answered(s.answers) && s.arrivals[w].message.write
    ensures w < s.disks[d].store[s.arrivals[w].message.sector].version
  {
    var i :| 0 <= i < |s.answers| && s.answers[i].seqno == w;
    assert WaitingDisks(s, w) == {};
    assert AppliedExactly(s, d, w);
    assert WaitingOn(s, d, w) ==> d in WaitingDisks(s, w);
  }

  lemma GoodReadLasts(s: State, t: State, k: nat, v: Stored)
    requires Genuine(s) && Genuine(t) && s.arrivals <= t.arrivals && s.initial == t.initial
    requires forall w :: w in Answered(s.answers) ==> w < |s.arrivals|
    requires k < |s.arrivals| && GoodRead(s, k, v)
    ensures GoodRead(t, k, v)
  {
    if !s.arrivals[k].message.write {
      TrueValueLasts(s, t, s.arrivals[k].message.sector, v);
      forall w | 0 <= w < |t.arrivals| && w in t.arrivals[k].answered && WritesTo(t, w, t.arrivals[k].message.sector)
        ensures w < v.version
      {
        assert w in Answered(s.answers);
        assert WritesTo(s, w, s.arrivals[k].message.sector);
      }
    }
  }

  lemma ArrivalsGrow(s: State, a: Action)
    requires Enabled(s, a)
    ensures s.arrivals <= Apply(s, a).arrivals && s.initial == Apply(s, a).initial
  {
  }

  lemma AnsweredHaveArrived(s: State)
    requires Genuine(s) && AnswersGood(s)
    ensures forall w :: w in Answered(s.answers) ==> w < |s.arrivals|
  {
  }

  /** A read is served with a value at least as new as every write answered before it arrived. */
  lemma ServedReadIsGood(s: State, a: Action)
    requires a.Serve? && Enabled(s, a) && Inv(s)
    ensures var m := s.disks[a.disk].backlog[a.position];
            Known(s, m) && GoodRead(s, m.seqno, Apply(s, a).disks[a.disk].replies[|s.disks[a.disk].replies|].value)
  {
    var m := s.disks[a.disk].backlog[a.position];
    assert Known(s, m);
    forall w | 0 <= w < |s.arrivals| && w in s.arrivals[m.seqno].answered && WritesTo(s, w, m.sector)
      ensures w < s.disks[a.disk].store[m.sector].version
    {
      AnsweredIsApplied(s, a.disk, w);
    }
    assert TrueValue(s, m.sector, s.disks[a.disk].store[m.sector]);
  }

  /** A disk's reply is an old one, or the reply to the message it just served. */
  lemma ReplySource(s: State, a: Action, d: nat, i: nat)
    requires Enabled(s, a) && d < |s.disks| == |Apply(s, a).disks| && i < |Apply(s, a).disks[d].replies|
    ensures var r := Apply(s, a).disks[d].replies[i];
            if a.Serve? && d == a.disk && i == |s.disks[d].replies| then
              && var m := s.disks[d].backlog[a.position];
                 r.message == m && (!m.write ==> r.value == s.disks[d].store[m.sector])
            else
              && var j := if a.HandleReply? && d == a.disk then i + 1 else i;
                 j < |s.disks[d].replies| && r == s.disks[d].replies[j]
  {
    if a.ArriveRead? {
      ArriveReadDisk(s, a, d);
    }
  }

  lemma ReplyAfterStep(s: State, a: Action, d: nat, i: nat)
    requires Enabled(s, a) && Inv(s) && Genuine(Apply(s, a)) && d < |s.disks| == |Apply(s, a).disks|
    requires i < |Apply(s, a).disks[d].replies|
    ensures var r := Apply(s, a).disks[d].replies[i];
            GoodRead(Apply(s, a), r.message.seqno, r.value)
  {
    hide Apply, Enabled, StoresTrue, TableTrue, TrueValue, Fresh, GoodRead;
    var t := Apply(s, a);
    ArrivalsGrow(s, a);
    AnsweredHaveArrived(s);
    ReplySource(s, a, d, i);
    var r := t.disks[d].replies[i];
    if a.Serve? && d == a.disk && i == |s.disks[d].replies| {
      ServedReadIsGood(s, a);
    } else {
      var j := if a.HandleReply? && d == a.disk then i + 1 else i;
      assert GoodRead(s, s.disks[d].replies[j].message.seqno, s.disks[d].replies[j].value);
    }
    assert Known(t, r.message);
    assert GoodRead(s, r.message.seqno, r.value);
    GoodReadLasts(s, t, r.message.seqno, r.value);
  }

  lemma AnsweredMember(answers: seq<Answer>, more: seq<Answer>, k: nat)
    requires k in Answered(answers)
    ensures k in Answered(answers + more)
  {
    var i :| 0 <= i < |answers| && answers[i].seqno == k;
    assert (answers + more)[i].seqno == k;
  }

  /** Steps that answer nobody: old answers stay good, and a newcomer is pending. */
  lemma AnswersAfterOtherStep(s: State, a: Action)
    requires Enabled(s, a) && Inv(s) && Genuine(Apply(s, a)) && Apply(s, a).answers == s.answers
    requires forall k: nat :: Pending(Apply(s, a), k) <==> Pending(s, k) || (k == |s.arrivals| < |Apply(s, a).arrivals|)
    ensures AnswersGood(Apply(s, a))
  {
    assert |Apply(s, a).arrivals| <= |s.arrivals| + 1;
    hide Apply, Enabled, Placed, StoresTrue, GoodRead, Pending, TableTrue, RepliesGood;
    var t := Apply(s, a);
    ArrivalsGrow(s, a);
    AnsweredHaveArrived(s);
    forall i | 0 <= i < |s.answers|
      ensures GoodRead(t, s.answers[i].seqno, s.answers[i].value) && !Pending(t, s.answers[i].seqno)
    {
      assert !Pending(s, s.answers[i].seqno);
      GoodReadLasts(s, t, s.answers[i].seqno, s.answers[i].value);
    }
  }

  lemma PendingAfterOtherStep(s: State, a: Action, k: nat)
    requires Enabled(s, a) && Genuine(s) && TableTrue(s) && Apply(s, a).answers == s.answers
    ensures Pending(Apply(s, a), k) <==> Pending(s, k) || (k == |s.arrivals| < |Apply(s, a).arrivals|)
  {
    var t := Apply(s, a);
    if a.ArriveWrite? || a.ArriveRead? {
      assert t.pending[|s.pending|].seqno == |s.arrivals|;
      assert forall i :: 0 <= i < |s.pending| ==> t.pending[i] == s.pending[i];
    } else {
      assert |t.pending| == |s.pending|;
      assert forall i :: 0 <= i < |s.pending| ==> t.pending[i].seqno == s.pending[i].seqno;
    }
  }

  /** What the answering step appends: an answer to the request's own client, with the reply's value. */
  lemma AnswerAdded(s: State, a: Action)
    requires Enabled(s, a) && Inv(s) && Apply(s, a).answers != s.answers
    ensures a.HandleReply? && |Apply(s, a).pending| != |s.pending| && Apply(s, a).arrivals == s.arrivals
    ensures a.disk < |s.disks| && s.disks[a.disk].replies != []
    ensures var r := s.disks[a.disk].replies[0];
            && r.message.seqno < |s.arrivals| && GoodRead(s, r.message.seqno, r.value) && Pending(s, r.message.seqno)
            && Apply(s, a).answers
               == s.answers + [Answer(r.message.seqno, s.arrivals[r.message.seqno].message.client, r.value)]
  {
    hide FirstMatch, AnswersGood, Placed, StoresTrue, GoodRead;
    var m := s.disks[a.disk].replies[0].message;
    ReplyFindsItsRequest(s, a.disk);
    assert Known(s, m);
    assert Pending(s, m.seqno);
  }

  lemma OldAnswerAfterAnswer(s: State, a: Action, i: nat)
    requires Enabled(s, a) && Inv(s) && Genuine(Apply(s, a)) && Apply(s, a).answers != s.answers && i < |s.answers|
    ensures a.HandleReply? && s.answers[i].seqno != s.disks[a.disk].replies[0].message.seqno
    ensures s.answers[i].seqno < |s.arrivals| && GoodRead(Apply(s, a), s.answers[i].seqno, s.answers[i].value)
    ensures !Pending(Apply(s, a), s.answers[i].seqno)
  {
    hide Apply, Enabled, Placed, StoresTrue, GoodRead, Pending, TableTrue;
    AnswerAdded(s, a);
    ArrivalsGrow(s, a);
    AnsweredHaveArrived(s);
    assert !Pending(s, s.answers[i].seqno);
    PendingAfterAnswer(s, a, s.answers[i].seqno);
    GoodReadLasts(s, Apply(s, a), s.answers[i].seqno, s.answers[i].value);
  }

  lemma AnswersAfterAnswer(s: State, a: Action)
    requires Enabled(s, a) && Inv(s) && Genuine(Apply(s, a)) && Apply(s, a).answers != s.answers
    ensures AnswersGood(Apply(s, a))
  {
    hide Apply, Enabled, Placed, StoresTrue, GoodRead, Pending, TableTrue, RepliesGood;
    AnswerAdded(s, a);
    ArrivalsGrow(s, a);
    AnsweredHaveArrived(s);
    var t, r := Apply(s, a), s.disks[a.disk].replies[0];
    var seqno := r.message.seqno;
    GoodReadLasts(s, t, seqno, r.value);
    PendingAfterAnswer(s, a, seqno);
    forall i | 0 <= i < |s.answers| {
      OldAnswerAfterAnswer(s, a, i);
    }
    forall k | 0 <= k < |t.arrivals| && !Pending(t, k)
      ensures k in Answered(t.answers)
    {
      PendingAfterAnswer(s, a, k);
      if k == seqno {
        assert t.answers[|s.answers|].seqno == k;
      } else {
        AnsweredMember(s.answers, t.answers[|s.answers|..], k);
      }
    }
  }

  lemma StepKeepsInv(s: State, a: Action)
    requires Enabled(s, a) && Inv(s)
    ensures Inv(Apply(s, a))
  {
    var t := Apply(s, a);
    ShapeKept(s, a);
    StoresKept(s, a);
    TableKept(s, a);
    forall d, i | 0 <= d < |t.disks| && 0 <= i < |t.disks[d].replies| {
      ReplyAfterStep(s, a, d, i);
    }
    if t.answers == s.answers {
      forall k: nat {
        PendingAfterOtherStep(s, a, k);
      }
      AnswersAfterOtherStep(s, a);
    } else {
      AnswersAfterAnswer(s, a);
    }
  }

  lemma {:induction false} EveryStateOfEveryRun(run: seq<State>, acts: seq<Action>, i: nat)
    requires IsRun(run, acts) && i < |run|
    ensures Inv(run[i])
  {
    if 0 < i {
      hide Inv, Apply, Enabled, Init;
      EveryStateOfEveryRun(run, acts, i - 1);
      assert Enabled(run[i - 1], acts[i - 1]) && run[i] == Apply(run[i - 1], acts[i - 1]);
      StepKeepsInv(run[i - 1], acts[i - 1]);
    }
  }
}
