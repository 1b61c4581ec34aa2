/** What clients of the mirror may rely on in every interleaving. */
module MirrorTheorems {
  import opened Geometry
  import opened Queues
  import opened RequestTables
  import opened Mirror
  import opened MirrorProof
  import Taker
  import Hazards

  // ---------- reads after acknowledged writes ----------

  lemma AnsweredGrows(answers: seq<Answer>, more: seq<Answer>)
    requires answers <= more
    ensures Answered(answers) <= Answered(more)
  {
    forall k | k in Answered(answers)
      ensures k in Answered(more)
    {
      AnsweredMember(answers, more[|answers|..], k);
      assert more == answers + more[|answers|..];
    }
  }

  /** A step keeps all answers, and a request that arrives in it knows them. */
  lemma StepKeepsAnswers(s: State, a: Action)
    requires Enabled(s, a)
    ensures var t := Apply(s, a);
            && s.answers <= t.answers && s.arrivals <= t.arrivals && s.initial == t.initial
            && forall k :: |s.arrivals| <= k < |t.arrivals| ==> t.arrivals[k].answered == Answered(s.answers)
  {
    hide Answered, FreshKey, SelectedDisk, AfterSelection, WithInfos, FirstMatch, Confirmed, RemoveAt, ServedDisk;
  }

  /** Requests that arrive at or after step `i` know every answer given by then. */
  lemma {:induction false} LaterArrivalsKnowAnswers(run: seq<State>, acts: seq<Action>, i: nat, j: nat)
    requires IsRun(run, acts) && i <= j < |run|
    ensures run[i].arrivals <= run[j].arrivals && run[i].answers <= run[j].answers && run[i].initial == run[j].initial
    ensures forall k :: |run[i].arrivals| <= k < |run[j].arrivals| ==>
              Answered(run[i].answers) <= run[j].arrivals[k].answered
    decreases j - i
  {
    hide Apply, Enabled, Answered, Init;
    if i < j {
      LaterArrivalsKnowAnswers(run, acts, i, j - 1);
      var s, a := run[j - 1], acts[j - 1];
      assert Enabled(s, a) && run[j] == Apply(s, a);
      StepKeepsAnswers(s, a);
      AnsweredGrows(run[i].answers, s.answers);
    }
  }

  /**
   * A read that arrives after a write to its sector was acknowledged returns the data of that write or of a later
   * one, whichever disk serves it.
   */
  lemma ReadReturnsAcknowledgedWrite(run: seq<State>, acts: seq<Action>, i: nat, j: nat, w: nat, n: nat) returns (source: nat)
    requires IsRun(run, acts) && i <= j < |run|
    requires w in Answered(run[i].answers) && n < |run[j].answers|
    requires w < |run[i].arrivals| && run[i].arrivals[w].message.write
    requires var k := run[j].answers[n].seqno;
             && |run[i].arrivals| <= k < |run[j].arrivals| && !run[j].arrivals[k].message.write
             && run[j].arrivals[k].message.sector == run[i].arrivals[w].message.sector
    ensures w <= source < |run[j].arrivals|
    ensures WritesTo(run[j], source, run[i].arrivals[w].message.sector)
    ensures run[j].answers[n].value.data == run[j].arrivals[source].message.data
  {
    EveryStateOfEveryRun(run, acts, j);
    LaterArrivalsKnowAnswers(run, acts, i, j);
    var s := run[j];
    var k, value := s.answers[n].seqno, s.answers[n].value;
    assert GoodRead(s, k, value);
    assert WritesTo(s, w, s.arrivals[k].message.sector);
    assert w in s.arrivals[k].answered;
    source := value.version - 1;
  }

  // ---------- agreement ----------

  predicate NoWriteOutstanding(s: State) {
    forall i :: 0 <= i < |s.pending| ==>
      s.pending[i].seqno < |s.arrivals| && !s.arrivals[s.pending[i].seqno].message.write
  }

  lemma SettledWriteIsEverywhere(s: State, d: nat, w: nat)
    requires Inv(s) && NoWriteOutstanding(s) && d < |s.disks| && w < |s.arrivals| && s.arrivals[w].message.write
    ensures w < s.disks[d].store[s.arrivals[w].message.sector].version
  {
    assert WaitingDisks(s, w) == {};
    assert AppliedExactly(s, d, w);
    assert WaitingOn(s, d, w) ==> d in WaitingDisks(s, w);
  }

  /** With no write outstanding every disk holds, in every sector, the last write that arrived for it. */
  lemma MirrorsAgree(s: State, d: nat, e: nat)
    requires Inv(s) && NoWriteOutstanding(s) && d < |s.disks| && e < |s.disks|
    ensures s.disks[d].store == s.disks[e].store
    ensures forall x :: x in s.initial ==> TrueValue(s, x, s.disks[d].store[x])
    ensures forall x, w :: x in s.initial && 0 <= w < |s.arrivals| && WritesTo(s, w, x) ==> w < s.disks[d].store[x].version
  {
    forall x, w | x in s.initial && 0 <= w < |s.arrivals| && WritesTo(s, w, x)
      ensures w < s.disks[d].store[x].version && w < s.disks[e].store[x].version
    {
      SettledWriteIsEverywhere(s, d, w);
      SettledWriteIsEverywhere(s, e, w);
    }
    forall x | x in s.initial
      ensures s.disks[d].store[x] == s.disks[e].store[x]
    {
      var a, b := s.disks[d].store[x], s.disks[e].store[x];
      assert TrueValue(s, x, a) && TrueValue(s, x, b);
      assert 0 < a.version ==> WritesTo(s, a.version - 1, x);
      assert 0 < b.version ==> WritesTo(s, b.version - 1, x);
    }
  }

  // ---------- counting ----------

  /**
   * A pending write's count is the number of disks yet to reply; a request is answered at most once, to its own
   * client, and only when no disk still owes a reply for it.
   */
  lemma AnsweredOnceAfterTheLastReply(run: seq<State>, acts: seq<Action>, i: nat, k: nat)
    requires IsRun(run, acts) && i < |run| && k < |run[i].arrivals|
    ensures Pending(run[i], k) <==> k !in Answered(run[i].answers)
    ensures Pending(run[i], k) <==> WaitingDisks(run[i], k) != {}
    ensures forall p :: 0 <= p < |run[i].pending| && run[i].pending[p].seqno == k && run[i].arrivals[k].message.write
              ==> run[i].pending[p].count == |WaitingDisks(run[i], k)|
    ensures forall m, n :: 0 <= m < n < |run[i].answers| ==> run[i].answers[m].seqno != run[i].answers[n].seqno
    ensures forall n :: 0 <= n < |run[i].answers| && run[i].answers[n].seqno == k
              ==> run[i].answers[n].client == run[i].arrivals[k].message.client
  {
    EveryStateOfEveryRun(run, acts, i);
    var s := run[i];
    if Pending(s, k) {
      var p :| 0 <= p < |s.pending| && s.pending[p].seqno == k;
      assert EntryTrue(s, s.pending[p]);
      assert |WaitingDisks(s, k)| != 0;
    }
    forall p | 0 <= p < |s.pending| && s.pending[p].seqno == k
      ensures EntryTrue(s, s.pending[p])
    {
    }
  }

  // ---------- progress ----------

  function WorkOf(disks: seq<DiskState>): nat {
    if disks == [] then 0 else 2 * |disks[0].backlog| + |disks[0].replies| + WorkOf(disks[1..])
  }

  /** Steps left before every request that has arrived is answered. */
  function Work(s: State): int {
    WorkOf(s.disks) + if s.dispatch.Forwarding? then 3 * (|s.disks| - s.dispatch.next) else 0
  }

  lemma {:induction false} WorkOfUpdate(disks: seq<DiskState>, d: nat, e: DiskState)
    requires d < |disks|
    ensures WorkOf(disks[d := e]) ==
            WorkOf(disks) - 2 * |disks[d].backlog| - |disks[d].replies| + 2 * |e.backlog| + |e.replies|
  {
    if d == 0 {
      assert disks[d := e][1..] == disks[1..];
    } else {
      assert disks[d := e][1..] == disks[1..][d - 1 := e];
      WorkOfUpdate(disks[1..], d - 1, e);
    }
  }

  predicate IsArrival(a: Action) {
    a.ArriveWrite? || a.ArriveRead?
  }

  lemma ForwardFinishesWork(s: State)
    requires Enabled(s, Forward)
    ensures Work(Apply(s, Forward)) == Work(s) - 1
  {
    hide WorkOf;
    WorkOfUpdate(s.disks, s.dispatch.next, Apply(s, Forward).disks[s.dispatch.next]);
  }

  lemma ServeFinishesWork(s: State, a: Action)
    requires a.Serve? && Enabled(s, a)
    ensures Work(Apply(s, a)) == Work(s) - 1
  {
    hide WorkOf;
    WorkOfUpdate(s.disks, a.disk, ServedDisk(s.disks[a.disk], a.position));
  }

  lemma ReplyFinishesWork(s: State, a: Action)
    requires a.HandleReply? && Enabled(s, a)
    ensures Work(Apply(s, a)) == Work(s) - 1
  {
    hide WorkOf, FirstMatch, Confirmed, RemoveAt;
    var d := s.disks[a.disk];
    WorkOfUpdate(s.disks, a.disk, d.(replies := d.replies[1..]));
  }

  /** Every step that is not an arrival finishes one unit of work. */
  lemma StepsFinishWork(s: State, a: Action)
    requires Enabled(s, a) && !IsArrival(a)
    ensures Work(Apply(s, a)) == Work(s) - 1
  {
    match a
    case Forward => ForwardFinishesWork(s);
    case Serve(_, _) => ServeFinishesWork(s, a);
    case HandleReply(_) => ReplyFinishesWork(s, a);
  }

  /** While a request is pending some broker thread or disk can move, so the requests at hand get answered. */
  lemma NeverStuck(s: State, k: nat) returns (a: Action)
    requires Inv(s) && k < |s.arrivals| && Pending(s, k)
    ensures Enabled(s, a) && !IsArrival(a)
  {
    var p :| 0 <= p < |s.pending| && s.pending[p].seqno == k;
    assert EntryTrue(s, s.pending[p]);
    assert |WaitingDisks(s, k)| != 0;
    var d :| d in WaitingDisks(s, k);
    if Unsent(s, d, k) {
      a := Forward;
    } else if s.disks[d].replies != [] {
      ReplyFindsItsRequest(s, d);
      a := HandleReply(d);
    } else {
      assert Known(s, s.disks[d].backlog[0]);
      a := Serve(d, 0);
    }
  }

  // ---------- a disk of the mirror is a scheduler ----------

  function AsRequest(g: Drive, m: Message): Taker.Request
    requires g.Valid()
  {
    Taker.Request(if m.write then Taker.WriteSectors else Taker.ReadSectors, m.id, g.ToChs(m.sector), 0, m.seqno)
  }

  function AsRequests(g: Drive, backlog: seq<Message>): (q: seq<Taker.Request>)
    requires g.Valid()
    ensures |q| == |backlog|
  {
    seq(|backlog|, i requires 0 <= i < |backlog| => AsRequest(g, backlog[i]))
  }

  lemma SameChsSameSector(g: Drive, a: nat, b: nat)
    requires g.OneHead() && g.ToChs(a) == g.ToChs(b)
    ensures a == b
  {
    NumberingInvertsConversion(g, a);
    NumberingInvertsConversion(g, b);
  }

  /** A position a disk scheduler may pick is exactly one the mirror lets the disk serve. */
  lemma SchedulerChoiceIsAllowed(g: Drive, backlog: seq<Message>, k: nat)
    requires g.OneHead() && k < |backlog|
    ensures Hazards.HazardFree(AsRequests(g, backlog), k) <==> MayServe(backlog, k)
  {
    forall j | 0 <= j < k
      ensures Hazards.Conflicts(AsRequests(g, backlog)[j], AsRequests(g, backlog)[k])
          <==> backlog[j].write && backlog[j].sector == backlog[k].sector
    {
      if g.ToChs(backlog[j].sector) == g.ToChs(backlog[k].sector) {
        SameChsSameSector(g, backlog[j].sector, backlog[k].sector);
      }
    }
  }
}
