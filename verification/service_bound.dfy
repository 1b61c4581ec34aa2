/** How long a request can wait under FSCAN while more keep arriving. */
module ServiceBound {
  import opened Geometry
  import opened Queues
  import opened Taker
  import opened SchedulerRuns

  /** The batch being served, the queue that fills meanwhile, and every request unlinked so far. */
  datatype Batch = Batch(active: seq<Request>, passive: seq<Request>, taken: seq<Request>)

  function Frozen(b: Batch): Batch {
    Batch(b.passive, [], b.taken)
  }

  predicate Swaps(b: Batch, c: Batch) {
    b.active == [] && c == Frozen(b)
  }

  ghost predicate Arrives(b: Batch, c: Batch) {
    exists r: Request :: c == b.(passive := b.passive + [r])
  }

  function ServedAt(b: Batch, k: nat): Batch
    requires k < |b.active|
  {
    Batch(RemoveAt(b.active, k), b.passive, b.taken + [b.active[k]])
  }

  ghost predicate Serves(b: Batch, c: Batch) {
    exists k: nat :: k < |b.active| && c == ServedAt(b, k)
  }

  ghost predicate BatchNext(b: Batch, c: Batch) {
    c == b || Swaps(b, c) || Arrives(b, c) || Serves(b, c)
  }

  ghost predicate IsHistory(bs: seq<Batch>) {
    forall i :: 0 <= i < |bs| - 1 ==> BatchNext(bs[i], bs[i + 1])
  }

  function View(s: State): Batch {
    Batch(s.Queue(s.flag), s.Queue(Other(s.flag)), s.taken)
  }

  /** Each action of the two FSCAN threads is one batch step or none. */
  lemma ActionIsBatchStep(d: Drive, s: State, a: Action)
    requires d.Valid() && Enabled(s, a) && Inv(d, s) && !s.sstf
    ensures BatchNext(View(s), View(Apply(d, s, a)))
  {
    hide OrderSafe, NothingLost, MutualExclusion, SlotsConserved, ElemsCounted, SetOff, FscanPick, Pick;
    var t := Apply(d, s, a);
    if a.Append? {
      assert View(t) == View(s).(passive := View(s).passive + [s.receiver.request.(arrival := |s.arrived|)]);
    } else if a.Take? {
      assert View(t) == ServedAt(View(s), s.consumer.index);
    } else if a.ToggleFlag? {
      assert Swaps(View(s), View(t));
    }
  }

  lemma {:induction false} ModeIsFixed(d: Drive, run: seq<State>, acts: seq<Action>, i: nat)
    requires d.Valid() && IsRun(d, run, acts) && i < |run|
    ensures run[i].sstf == run[0].sstf
  {
    if 0 < i {
      ModeIsFixed(d, run, acts, i - 1);
      assert run[i] == Apply(d, run[i - 1], acts[i - 1]);
    }
  }

  /** Every FSCAN run of the two threads is a batch history. */
  lemma RunIsHistory(d: Drive, run: seq<State>, acts: seq<Action>)
    requires d.Valid() && IsRun(d, run, acts) && !run[0].sstf
    ensures IsHistory(seq(|run|, i requires 0 <= i < |run| => View(run[i])))
  {
    forall i | 0 <= i < |run| - 1
      ensures BatchNext(View(run[i]), View(run[i + 1]))
    {
      assert Enabled(run[i], acts[i]) && run[i + 1] == Apply(d, run[i], acts[i]);
      EveryStateOfEveryRun(d, run, acts, i);
      ModeIsFixed(d, run, acts, i);
      ActionIsBatchStep(d, run[i], acts[i]);
    }
  }

  /** `r` has been served since `b`, or is still in the batch, which has shrunk by one for each request served. */
  predicate Draining(b: Batch, c: Batch, r: Request) {
    && b.taken <= c.taken
    && (r in c.taken[|b.taken|..] || (r in c.active && |c.taken| + |c.active| == |b.taken| + |b.active|))
  }

  lemma DrainingStep(b: Batch, c: Batch, e: Batch, r: Request)
    requires Draining(b, c, r) && BatchNext(c, e)
    ensures Draining(b, e, r)
  {
    if Serves(c, e) {
      var k: nat :| k < |c.active| && e == ServedAt(c, k);
      assert e.taken[|b.taken|..] == c.taken[|b.taken|..] + [c.active[k]];
      if r in c.active {
        var i :| 0 <= i < |c.active| && c.active[i] == r;
        assert i < k ==> RemoveAt(c.active, k)[i] == r;
        assert k < i ==> RemoveAt(c.active, k)[i - 1] == r;
      }
    }
  }

  lemma {:induction false} ActiveDrains(bs: seq<Batch>, i: nat, j: nat, r: Request)
    requires IsHistory(bs) && i <= j < |bs| && r in bs[i].active
    ensures Draining(bs[i], bs[j], r)
  {
    if i < j {
      ActiveDrains(bs, i, j - 1, r);
      assert BatchNext(bs[j - 1], bs[j - 1 + 1]);
      DrainingStep(bs[i], bs[j - 1], bs[j], r);
    }
  }

  /** A request of the batch being served is served within as many picks as the batch still holds. */
  lemma ActiveBound(bs: seq<Batch>, i: nat, j: nat, r: Request)
    requires IsHistory(bs) && i <= j < |bs| && r in bs[i].active
    requires |bs[i].taken| + |bs[i].active| <= |bs[j].taken|
    ensures r in bs[j].taken[|bs[i].taken|..]
  {
    ActiveDrains(bs, i, j, r);
  }

  /** Until its queue is frozen, a waiting request sees only the batch in front of it being served. */
  predicate StillPassive(b: Batch, c: Batch, r: Request) {
    && b.taken <= c.taken
    && r in c.passive && |c.taken| + |c.active| == |b.taken| + |b.active|
  }

  /** At step `m` the batch in front is finished and `r` joins the batch `bs[m + 1].active`. */
  predicate FrozenAt(bs: seq<Batch>, i: nat, m: nat, r: Request)
    requires i < |bs| && m + 1 < |bs|
  {
    && StillPassive(bs[i], bs[m], r) && bs[m].active == [] && bs[m + 1] == Frozen(bs[m])
  }

  lemma {:induction false} PassiveWaits(bs: seq<Batch>, i: nat, j: nat, r: Request)
    requires IsHistory(bs) && i <= j < |bs| && r in bs[i].passive
    ensures StillPassive(bs[i], bs[j], r) || exists m: nat :: i <= m < j && FrozenAt(bs, i, m, r)
  {
    if i < j {
      PassiveWaits(bs, i, j - 1, r);
      assert BatchNext(bs[j - 1], bs[j - 1 + 1]);
      if StillPassive(bs[i], bs[j - 1], r) && !StillPassive(bs[i], bs[j], r) {
        assert FrozenAt(bs, i, j - 1, r);
      }
    }
  }

  /**
   * A request queued behind a batch is served after at most the requests left in that batch plus the size of its own
   * batch when it was frozen, no matter what arrives later.
   */
  lemma PassiveBound(bs: seq<Batch>, i: nat, j: nat, r: Request) returns (m: nat)
    requires IsHistory(bs) && i <= j < |bs| && r in bs[i].passive
    requires |bs[i].taken| + |bs[i].active| < |bs[j].taken|
    ensures i <= m < j && FrozenAt(bs, i, m, r)
    ensures |bs[i].taken| + |bs[i].active| + |bs[m].passive| <= |bs[j].taken| ==> r in bs[j].taken[|bs[i].taken|..]
  {
    PassiveWaits(bs, i, j, r);
    m :| i <= m < j && FrozenAt(bs, i, m, r);
    ActiveDrains(bs, m + 1, j, r);
    if r in bs[j].taken[|bs[m].taken|..] {
      assert bs[j].taken[|bs[i].taken|..][|bs[m].taken| - |bs[i].taken|..] == bs[j].taken[|bs[m].taken|..];
    }
  }
}
