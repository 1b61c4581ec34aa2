/** Which disk of the mirror a read goes to, in every run. */
module MirrorDispatch {
  import opened Queues
  import opened RequestTables
  import opened Mirror
  import opened MirrorProof

  // ---------- turns ----------

  /** Reads that arrived in a row just before arrival `k`: since the last write, or since the start. */
  function ReadsSince(arrivals: seq<Arrival>, k: nat): nat
    requires k <= |arrivals|
  {
    if k == 0 || arrivals[k - 1].message.write then 0 else 1 + ReadsSince(arrivals, k - 1)
  }

  ghost predicate WriteBefore(arrivals: seq<Arrival>, k: nat)
    requires k <= |arrivals|
  {
    exists w :: 0 <= w < k && arrivals[w].message.write
  }

  ghost predicate Unmarked(s: State) {
    forall d :: 0 <= d < |s.disks| ==> !s.disks[d].info.requested
  }

  lemma {:induction false} EarlierTurns(a: seq<Arrival>, b: seq<Arrival>, k: nat)
    requires a <= b && k <= |a|
    ensures ReadsSince(b, k) == ReadsSince(a, k) && (WriteBefore(b, k) <==> WriteBefore(a, k))
  {
    if 0 < k {
      EarlierTurns(a, b, k - 1);
    }
    assert forall w :: 0 <= w < k ==> a[w] == b[w];
  }

  // ---------- marks ----------

  /** How many disks, counted from the first, are marked once all that arrived has been forwarded. */
  function Marked(n: nat, arrivals: seq<Arrival>): nat
    requires 0 < n
  {
    var r := ReadsSince(arrivals, |arrivals|);
    if r == 0 then (if arrivals == [] then 0 else n) else (r - 1) % n + 1
  }

  ghost predicate MarksTrue(s: State, blank: bool) {
    && s.disks != [] && (forall d :: 0 <= d < |s.disks| ==> s.disks[d].info.ready)
    && (s.dispatch.Quiet? && (blank || WriteBefore(s.arrivals, |s.arrivals|)) ==>
          InfosOf(s.disks) == AllReady(|s.disks|, Marked(|s.disks|, s.arrivals)))
    && (s.dispatch.Forwarding? ==>
          && s.arrivals != [] && s.arrivals[|s.arrivals| - 1].message.write
          && forall d :: 0 <= d < |s.disks| && d < s.dispatch.next ==> s.disks[d].info.requested)
  }

  lemma MarksAtStart(s: State)
    requires Init(s)
    ensures MarksTrue(s, Unmarked(s))
  {
  }

  lemma WriteKeepsMarks(s: State, a: Action, blank: bool)
    requires a.ArriveWrite? && Enabled(s, a) && MarksTrue(s, blank)
    ensures MarksTrue(Apply(s, a), blank)
  {
  }

  lemma TurnAfterRead(s: State, m: Arrival)
    requires !m.message.write
    ensures var more := s.arrivals + [m];
            && ReadsSince(more, |more|) == ReadsSince(s.arrivals, |s.arrivals|) + 1
            && (WriteBefore(more, |more|) <==> WriteBefore(s.arrivals, |s.arrivals|))
  {
    var more := s.arrivals + [m];
    EarlierTurns(s.arrivals, more, |s.arrivals|);
    assert more[|s.arrivals|] == m;
  }

  lemma MarkedByTurns(n: nat, arrivals: seq<Arrival>, m: Arrival)
    requires 0 < n && !m.message.write
    ensures var r := ReadsSince(arrivals, |arrivals|);
            && Marked(n, arrivals) == (if r == 0 then (if arrivals == [] then 0 else n) else (r - 1) % n + 1)
            && Marked(n, arrivals + [m]) == r % n + 1
  {
    var more := arrivals + [m];
    EarlierTurns(arrivals, more, |arrivals|);
    assert more[|arrivals|] == m;
    assert ReadsSince(more, |more|) == ReadsSince(arrivals, |arrivals|) + 1;
  }

  lemma TurnMarks(n: nat, r: nat, asked: nat)
    requires 0 < n && (if r == 0 then asked == 0 || asked == n else asked == (r - 1) % n + 1)
    ensures asked <= n && r % n == (if asked < n then asked else 0)
  {
    if 0 < r {
      NextInTurn(r, n);
    }
  }

  /** The disk whose turn it is, and the marks afterwards. */
  lemma TurnIsNext(n: nat, arrivals: seq<Arrival>, m: Arrival)
    requires 0 < n && !m.message.write
    ensures SelectedDisk(AllReady(n, Marked(n, arrivals))) == ReadsSince(arrivals, |arrivals|) % n
    ensures AfterSelection(AllReady(n, Marked(n, arrivals))) == AllReady(n, Marked(n, arrivals + [m]))
  {
    hide SelectedDisk, AfterSelection, AllReady, Marked, ReadsSince;
    MarkedByTurns(n, arrivals, m);
    TurnMarks(n, ReadsSince(arrivals, |arrivals|), Marked(n, arrivals));
    NextOfMarked(n, Marked(n, arrivals));
  }

  lemma ReadMarks(s: State, a: Action, d: nat)
    requires a.ArriveRead? && Enabled(s, a) && d < |s.disks|
    ensures |Apply(s, a).disks| == |s.disks| && Apply(s, a).disks[d].info == AfterSelection(InfosOf(s.disks))[d]
  {
  }

  lemma ReadKeepsMarks(s: State, a: Action, blank: bool)
    requires a.ArriveRead? && Enabled(s, a) && MarksTrue(s, blank)
    ensures MarksTrue(Apply(s, a), blank)
  {
    var t, n := Apply(s, a), |s.disks|;
    var m := Message(false, a.id, a.sector, [], a.client, |s.arrivals|);
    QuietOnArrival(s, a);
    ArriveReadRest(s, a);
    TurnAfterRead(s, Arrival(m, Answered(s.answers)));
    hide Apply, Enabled, Answered, Marked, AllReady, ReadsSince, WriteBefore;
    forall d | 0 <= d < n
      ensures t.disks[d].info == AfterSelection(InfosOf(s.disks))[d] && t.disks[d].info.ready
    {
      ReadMarks(s, a, d);
      SelectionKeepsReady(InfosOf(s.disks), d);
    }
    assert InfosOf(t.disks) == AfterSelection(InfosOf(s.disks));
    TurnIsNext(n, s.arrivals, Arrival(m, Answered(s.answers)));
  }

  lemma SelectionKeepsReady(ds: seq<DiskInfo>, d: nat)
    requires d < |ds|
    ensures AfterSelection(ds)[d].ready == ds[d].ready
  {
  }

  lemma ForwardKeepsMarks(s: State, blank: bool)
    requires Enabled(s, Forward) && MarksTrue(s, blank)
    ensures MarksTrue(Apply(s, Forward), blank)
  {
    var t := Apply(s, Forward);
    assert t.dispatch.Quiet? ==> forall d :: 0 <= d < |t.disks| ==> t.disks[d].info == DiskInfo(true, true);
  }

  lemma InfosKept(s: State, a: Action)
    requires (a.Serve? || a.HandleReply?) && Enabled(s, a)
    ensures var t := Apply(s, a);
            && |t.disks| == |s.disks| && InfosOf(t.disks) == InfosOf(s.disks)
            && t.dispatch == s.dispatch && t.arrivals == s.arrivals
            && forall d :: 0 <= d < |s.disks| ==> t.disks[d].info == s.disks[d].info
  {
  }

  lemma StepKeepsMarks(s: State, a: Action, blank: bool)
    requires Enabled(s, a) && MarksTrue(s, blank)
    ensures MarksTrue(Apply(s, a), blank) && |Apply(s, a).disks| == |s.disks|
  {
    hide Apply, Enabled, MarksTrue;
    match a
    case ArriveWrite(_, _, _, _) => WriteKeepsMarks(s, a, blank); DisksKept(s, a);
    case ArriveRead(_, _, _) => ReadKeepsMarks(s, a, blank); DisksKept(s, a);
    case Forward => ForwardKeepsMarks(s, blank); DisksKept(s, a);
    case Serve(_, _) => OtherStepsKeepMarks(s, a, blank);
    case HandleReply(_) => OtherStepsKeepMarks(s, a, blank);
  }

  lemma DisksKept(s: State, a: Action)
    requires (a.ArriveWrite? || a.ArriveRead? || a.Forward?) && Enabled(s, a)
    ensures |Apply(s, a).disks| == |s.disks|
  {
  }

  lemma OtherStepsKeepMarks(s: State, a: Action, blank: bool)
    requires (a.Serve? || a.HandleReply?) && Enabled(s, a) && MarksTrue(s, blank)
    ensures MarksTrue(Apply(s, a), blank) && |Apply(s, a).disks| == |s.disks|
  {
    hide Apply, Enabled, AllReady, Marked, WriteBefore;
    InfosKept(s, a);
  }

  lemma {:induction false} MarksInEveryState(run: seq<State>, acts: seq<Action>, i: nat)
    requires IsRun(run, acts) && i < |run|
    ensures MarksTrue(run[i], Unmarked(run[0])) && |run[i].disks| == |run[0].disks|
  {
    hide MarksTrue, Apply, Enabled, Unmarked, Init;
    if i == 0 {
      MarksAtStart(run[0]);
    } else {
      MarksInEveryState(run, acts, i - 1);
      assert Enabled(run[i - 1], acts[i - 1]) && run[i] == Apply(run[i - 1], acts[i - 1]);
      StepKeepsMarks(run[i - 1], acts[i - 1], Unmarked(run[0]));
    }
  }

  // ---------- reads ----------

  lemma NewReadWaits(s: State, a: Action)
    requires a.ArriveRead? && Enabled(s, a) && Genuine(s) && |Apply(s, a).disks| == |s.disks|
    ensures ReadTarget(s) == SelectedDisk(InfosOf(s.disks))
    ensures WaitingDisks(Apply(s, a), |s.arrivals|) == {ReadTarget(s)}
  {
    forall d | 0 <= d < |s.disks|
      ensures WaitingOn(Apply(s, a), d, |s.arrivals|) <==> d == ReadTarget(s)
    {
      NobodyWaitsForTheFuture(s, d);
      ArriveReadWaits(s, a, d, |s.arrivals|);
    }
  }

  /** A read goes to the disk whose turn it is. */
  lemma ReadGoesWhereItsTurnIs(run: seq<State>, acts: seq<Action>, i: nat)
    requires IsRun(run, acts) && i < |acts| && acts[i].ArriveRead?
    requires Unmarked(run[0]) || WriteBefore(run[i].arrivals, |run[i].arrivals|)
    ensures run[i].disks != [] && |run[i + 1].disks| == |run[i].disks|
    ensures WaitingDisks(run[i + 1], |run[i].arrivals|)
         == {ReadsSince(run[i].arrivals, |run[i].arrivals|) % |run[i].disks|}
  {
    var s, a := run[i], acts[i];
    assert Enabled(s, a) && run[i + 1] == Apply(s, a);
    MarksInEveryState(run, acts, i);
    MarksInEveryState(run, acts, i + 1);
    EveryStateOfEveryRun(run, acts, i);
    NewReadWaits(s, a);
    QuietOnArrival(s, a);
    TurnIsNext(|s.disks|, s.arrivals, Arrival(Message(false, a.id, a.sector, [], a.client, 0), {}));
  }

  lemma StepKeepsOrFreesWaiting(s: State, a: Action, k: nat)
    requires Enabled(s, a) && Inv(s) && k < |s.arrivals|
    ensures WaitingDisks(Apply(s, a), k) <= WaitingDisks(s, k) && s.arrivals <= Apply(s, a).arrivals
  {
    ShapeKept(s, a);
    WaitingAfterStep(s, a, k);
    ArrivalsGrow(s, a);
  }

  lemma NewcomerIsRead(s: State, a: Action, k: nat)
    requires Enabled(s, a) && |s.arrivals| <= k < |Apply(s, a).arrivals| && !Apply(s, a).arrivals[k].message.write
    ensures a.ArriveRead? && k == |s.arrivals| && s.arrivals <= Apply(s, a).arrivals
  {
  }

  /**
   * In every run a read waits on no disk other than the one whose turn it was: reads in a row take the disks in turn,
   * from the first one at the start if nobody is marked, and from the first one after every write.
   */
  lemma {:induction false} ReadsTakeTurns(run: seq<State>, acts: seq<Action>, i: nat, k: nat)
    requires IsRun(run, acts) && i < |run| && k < |run[i].arrivals| && !run[i].arrivals[k].message.write
    requires Unmarked(run[0]) || WriteBefore(run[i].arrivals, k)
    ensures run[i].disks != [] && WaitingDisks(run[i], k) <= {ReadsSince(run[i].arrivals, k) % |run[i].disks|}
  {
    hide Apply, Enabled, Init, Inv, WaitingDisks, WriteBefore, Unmarked;
    if i == 0 {
      NothingAtStart(run[0]);
      assert false;
    } else {
      var s, a := run[i - 1], acts[i - 1];
      assert Enabled(s, a) && run[i] == Apply(s, a);
      EveryStateOfEveryRun(run, acts, i - 1);
      MarksInEveryState(run, acts, i - 1);
      MarksInEveryState(run, acts, i);
      if k < |s.arrivals| {
        StepKeepsOrFreesWaiting(s, a, k);
        EarlierTurns(s.arrivals, run[i].arrivals, k);
        ReadsTakeTurns(run, acts, i - 1, k);
      } else {
        NewcomerIsRead(s, a, k);
        EarlierTurns(s.arrivals, run[i].arrivals, k);
        ReadGoesWhereItsTurnIs(run, acts, i - 1);
      }
    }
  }

  lemma NothingAtStart(s: State)
    requires Init(s)
    ensures s.arrivals == []
  {
  }

  lemma {:induction false} ReadsOnly(arrivals: seq<Arrival>, k: nat)
    requires k <= |arrivals| && forall j :: 0 <= j < k ==> !arrivals[j].message.write
    ensures ReadsSince(arrivals, k) == k
  {
    if 0 < k {
      ReadsOnly(arrivals, k - 1);
    }
  }

  /** From unmarked disks, when only reads arrive, the `k`-th waits on no disk other than disk `k` modulo their number. */
  lemma ReadsAloneGoRound(run: seq<State>, acts: seq<Action>, i: nat, k: nat)
    requires IsRun(run, acts) && i < |run| && k < |run[i].arrivals| && Unmarked(run[0])
    requires forall j :: 0 <= j <= k ==> !run[i].arrivals[j].message.write
    ensures run[i].disks != [] && WaitingDisks(run[i], k) <= {k % |run[i].disks|}
  {
    ReadsOnly(run[i].arrivals, k);
    ReadsTakeTurns(run, acts, i, k);
  }

  lemma LastIsWrite(arrivals: seq<Arrival>)
    requires arrivals != [] && arrivals[|arrivals| - 1].message.write
    ensures WriteBefore(arrivals, |arrivals|) && ReadsSince(arrivals, |arrivals|) == 0
  {
  }

  /** Whatever the marks before, the read that arrives after a write waits on the first disk alone. */
  lemma ReadAfterWriteGoesToTheFirst(run: seq<State>, acts: seq<Action>, i: nat)
    requires IsRun(run, acts) && i < |acts| && acts[i].ArriveRead?
    requires run[i].arrivals != [] && run[i].arrivals[|run[i].arrivals| - 1].message.write
    ensures WaitingDisks(run[i + 1], |run[i].arrivals|) == {0}
  {
    hide Apply, Enabled, Init, WaitingDisks;
    LastIsWrite(run[i].arrivals);
    ReadGoesWhereItsTurnIs(run, acts, i);
  }

  // ---------- the disk an entry names ----------

  /** A write's entry names no disk, a read's the one disk that may still owe its reply. */
  ghost predicate NamesItsDisk(s: State, e: Entry) {
    e.seqno < |s.arrivals|
    && if s.arrivals[e.seqno].message.write then e.disk == 0
       else 0 < e.disk && WaitingDisks(s, e.seqno) <= {e.disk - 1}
  }

  lemma OldEntryNamesItsDisk(s: State, a: Action, e: Entry)
    requires Enabled(s, a) && Inv(s) && NamesItsDisk(s, e)
    ensures NamesItsDisk(Apply(s, a), e)
  {
    hide Inv, Apply, Enabled, WaitingDisks;
    StepKeepsOrFreesWaiting(s, a, e.seqno);
  }

  lemma NewEntryNamesItsDisk(s: State, a: Action)
    requires (a.ArriveWrite? || a.ArriveRead?) && Enabled(s, a) && Inv(s)
    ensures |Apply(s, a).pending| == |s.pending| + 1 && NamesItsDisk(Apply(s, a), Apply(s, a).pending[|s.pending|])
  {
    ShapeKept(s, a);
    if a.ArriveRead? {
      NewReadWaits(s, a);
      NewReadEntry(s, a);
    }
    hide Inv, WaitingDisks;
  }

  lemma NewReadEntry(s: State, a: Action)
    requires a.ArriveRead? && Enabled(s, a)
    ensures Apply(s, a).pending[|s.pending|].disk == ReadTarget(s) + 1
  {
  }

  /** Entries after a step are old ones, counted down or not, and a newcomer's. */
  lemma EntrySource(s: State, a: Action, i: nat)
    requires Enabled(s, a) && i < |Apply(s, a).pending|
    ensures var e := Apply(s, a).pending[i];
            || ((a.ArriveWrite? || a.ArriveRead?) && i == |s.pending|)
            || exists j :: 0 <= j < |s.pending| && s.pending[j].disk == e.disk && s.pending[j].seqno == e.seqno
  {
    hide SelectedDisk, AfterSelection, ServedDisk, FreshKey, MayServe;
    if a.HandleReply? {
      var m := s.disks[a.disk].replies[0].message;
      var p := FirstMatch(s.pending, m.id, m.sector);
      var j := if |Apply(s, a).pending| == |s.pending| || i < p then i else i + 1;
      assert s.pending[j].disk == Apply(s, a).pending[i].disk && s.pending[j].seqno == Apply(s, a).pending[i].seqno;
    } else if i < |s.pending| {
      assert Apply(s, a).pending[i] == s.pending[i];
    }
  }

  /** In every run each entry of the table names the disk its reply is to come from. */
  lemma {:induction false} EntriesNameTheirDisks(run: seq<State>, acts: seq<Action>, n: nat, i: nat)
    requires IsRun(run, acts) && n < |run|
    ensures i < |run[n].pending| ==> NamesItsDisk(run[n], run[n].pending[i])
  {
    hide Apply, Enabled, Inv, NamesItsDisk;
    if n == 0 {
      NothingPending(run[0]);
    } else if i < |run[n].pending| {
      var s, a := run[n - 1], acts[n - 1];
      assert Enabled(s, a) && run[n] == Apply(s, a);
      EveryStateOfEveryRun(run, acts, n - 1);
      EntrySource(s, a, i);
      var e := run[n].pending[i];
      if (a.ArriveWrite? || a.ArriveRead?) && i == |s.pending| {
        NewEntryNamesItsDisk(s, a);
      } else {
        var j :| 0 <= j < |s.pending| && s.pending[j].disk == e.disk && s.pending[j].seqno == e.seqno;
        EntriesNameTheirDisks(run, acts, n - 1, j);
        OldEntryNamesItsDisk(s, a, s.pending[j]);
        SameDiskNamed(run[n], s.pending[j], e);
      }
    }
  }

  lemma SameDiskNamed(s: State, e: Entry, f: Entry)
    requires NamesItsDisk(s, e) && f.disk == e.disk && f.seqno == e.seqno
    ensures NamesItsDisk(s, f)
  {
  }

  lemma NothingPending(s: State)
    requires Init(s)
    ensures s.pending == []
  {
  }
}
