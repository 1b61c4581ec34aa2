/**
 * Counting replies the way the broker's threads really do it: each decrements the count under the lock and tests it
 * for zero after letting the lock go. Threads that find it zero go on to answer; what becomes of the second of them,
 * which looks for an entry the first took away, is not part of this model.
 */
module SplitReply {

  datatype Event = Decrement(thread: nat) | Test(thread: nat)

  /** Threads that have decremented, that have tested, and that found the count at zero and went on to answer. */
  datatype Count = Count(count: int, decremented: set<nat>, tested: set<nat>, answering: set<nat>)

  ghost function Threads(n: nat): (all: set<nat>)
    ensures forall t: nat :: t in all <==> t < n
  {
    if n == 0 then {} else Threads(n - 1) + {n - 1}
  }

  predicate Possible(c: Count, n: nat, e: Event) {
    match e
    case Decrement(t) => t < n && t !in c.decremented
    case Test(t) => t in c.decremented && t !in c.tested
  }

  function After(c: Count, e: Event): Count {
    match e
    case Decrement(t) => c.(count := c.count - 1, decremented := c.decremented + {t})
    case Test(t) => c.(tested := c.tested + {t}, answering := if c.count == 0 then c.answering + {t} else c.answering)
  }

  function Run(c: Count, es: seq<Event>): Count
    decreases |es|
  {
    if es == [] then c else Run(After(c, es[0]), es[1..])
  }

  predicate Feasible(c: Count, n: nat, es: seq<Event>)
    decreases |es|
  {
    es == [] || (Possible(c, n, es[0]) && Feasible(After(c, es[0]), n, es[1..]))
  }

  function Start(n: nat): Count {
    Count(n, {}, {}, {})
  }

  ghost predicate Consistent(c: Count, n: nat) {
    && c.tested <= c.decremented <= Threads(n) && c.count == |Threads(n)| - |c.decremented|
    && (0 < c.count ==> c.answering == {})
  }

  lemma {:induction false} ThreadCount(n: nat)
    ensures |Threads(n)| == n
  {
    if 0 < n {
      ThreadCount(n - 1);
      var fewer := Threads(n - 1);
      assert Threads(n) == fewer + {n - 1} && n - 1 !in fewer;
    }
  }

  lemma SubsetSize(a: set<nat>, b: set<nat>)
    requires a <= b
    ensures |a| <= |b| && (|a| == |b| ==> a == b)
  {
    assert b == a + (b - a);
  }

  lemma SingletonIff(a: set<nat>, t: nat)
    requires t in a
    ensures |a| == 1 <==> a == {t}
  {
    assert a == (a - {t}) + {t};
  }

  lemma StepConsistent(c: Count, n: nat, e: Event)
    requires Consistent(c, n) && Possible(c, n, e)
    ensures Consistent(After(c, e), n)
  {
    SubsetSize(After(c, e).decremented, Threads(n));
  }

  /** Once every thread has decremented, each thread still to test will answer. */
  lemma {:induction false} LateTestersAnswer(c: Count, n: nat, es: seq<Event>)
    requires Consistent(c, n) && c.count == 0 && Feasible(c, n, es)
    ensures Run(c, es).answering == c.answering + (Run(c, es).tested - c.tested) && c.tested <= Run(c, es).tested
    decreases |es|
  {
    if es != [] {
      SubsetSize(c.decremented, Threads(n));
      StepConsistent(c, n, es[0]);
      LateTestersAnswer(After(c, es[0]), n, es[1..]);
    }
  }

  lemma {:induction false} RunConsistent(c: Count, n: nat, es: seq<Event>)
    requires Consistent(c, n) && Feasible(c, n, es)
    ensures Consistent(Run(c, es), n)
    decreases |es|
  {
    if es != [] {
      StepConsistent(c, n, es[0]);
      RunConsistent(After(c, es[0]), n, es[1..]);
    }
  }

  /** Nobody goes on to answer before the last thread decrements, and then everyone who has not tested will. */
  lemma WhoAnswers(n: nat, c: Count, last: nat, rest: seq<Event>)
    requires Consistent(c, n) && c.count == 1 && Possible(c, n, Decrement(last))
    requires Feasible(After(c, Decrement(last)), n, rest)
    ensures Run(After(c, Decrement(last)), rest).answering == Run(After(c, Decrement(last)), rest).tested - c.tested
  {
    hide Run, Feasible;
    var zero := After(c, Decrement(last));
    StepConsistent(c, n, Decrement(last));
    LateTestersAnswer(zero, n, rest);
    assert zero.answering == {} && zero.tested == c.tested;
  }

  lemma AllButTheseIs(all: set<nat>, done: set<nat>, last: nat)
    requires done <= all && last in all && last !in done
    ensures |all - done| == 1 <==> done == all - {last}
  {
    SingletonIff(all - done, last);
    assert done == all - (all - done);
  }

  /**
   * In any run in which all `n` threads decrement and test, exactly one goes on to answer if and only if every
   * other had already tested when the last one decremented.
   */
  lemma AnsweredOnceIffOthersHadTested(n: nat, before: seq<Event>, last: nat, rest: seq<Event>)
    requires Feasible(Start(n), n, before)
    requires var c := Run(Start(n), before);
             && c.count == 1 && Possible(c, n, Decrement(last)) && Feasible(After(c, Decrement(last)), n, rest)
             && Run(After(c, Decrement(last)), rest).tested == Threads(n)
    ensures var c := Run(Start(n), before);
            var answering := Run(After(c, Decrement(last)), rest).answering;
            && last in answering
            && (|answering| == 1 <==> c.tested == Threads(n) - {last})
  {
    hide Run, Feasible;
    ThreadCount(n);
    RunConsistent(Start(n), n, before);
    var c := Run(Start(n), before);
    WhoAnswers(n, c, last, rest);
    AllButTheseIs(Threads(n), c.tested, last);
  }

  // ---------- every run ----------

  /** A run in which all `n` threads decrement and test. */
  ghost predicate Complete(n: nat, es: seq<Event>) {
    Feasible(Start(n), n, es) && Run(Start(n), es).tested == Threads(n)
  }

  /** Once the count is zero, somebody still has to test or has gone on to answer. */
  ghost predicate SomeoneWill(c: Count) {
    c.count == 0 ==> c.answering != {} || exists t :: t in c.decremented && t !in c.tested
  }

  lemma StepSomeoneWill(c: Count, n: nat, e: Event)
    requires Consistent(c, n) && Possible(c, n, e) && SomeoneWill(c)
    ensures SomeoneWill(After(c, e))
  {
    var r := After(c, e);
    if e.Decrement? {
      assert e.thread in r.decremented && e.thread !in r.tested;
    } else if r.count == 0 {
      assert e.thread in r.answering;
    }
  }

  lemma {:induction false} SomeoneAnswers(c: Count, n: nat, es: seq<Event>)
    requires Consistent(c, n) && Feasible(c, n, es) && SomeoneWill(c) && Run(c, es).tested == Threads(n)
    requires c.answering <= c.tested
    ensures Run(c, es).answering != {} && Run(c, es).answering <= Threads(n)
    decreases |es|
  {
    if es == [] {
      assert c.tested == c.decremented == Threads(n) && c.count == 0;
    } else {
      StepConsistent(c, n, es[0]);
      StepSomeoneWill(c, n, es[0]);
      SomeoneAnswers(After(c, es[0]), n, es[1..]);
    }
  }

  /** Whatever the interleaving, at least one thread goes on to answer. */
  lemma NobodyIsForgotten(n: nat, es: seq<Event>)
    requires 0 < n && Complete(n, es)
    ensures 1 <= |Run(Start(n), es).answering| <= n
  {
    ThreadCount(n);
    SomeoneAnswers(Start(n), n, es);
    SubsetSize(Run(Start(n), es).answering, Threads(n));
    SubsetSize({}, Run(Start(n), es).answering);
  }

  /** All threads decrement, then all test: threads `from` to `n` of each kind. */
  function Decrements(from: nat, n: nat): seq<Event>
    decreases n - from
  {
    if from >= n then [] else [Decrement(from)] + Decrements(from + 1, n)
  }

  function Tests(from: nat, n: nat): seq<Event>
    decreases n - from
  {
    if from >= n then [] else [Test(from)] + Tests(from + 1, n)
  }

  /** The state after threads below `d` have decremented and those below `t` tested. */
  ghost function Stage(n: nat, d: nat, t: nat): Count {
    Count(n - d, Threads(d), Threads(t), if d < n then {} else Threads(t))
  }

  lemma {:induction false} RunTests(n: nat, t: nat)
    requires t <= n
    ensures Feasible(Stage(n, n, t), n, Tests(t, n)) && Run(Stage(n, n, t), Tests(t, n)) == Stage(n, n, n)
    decreases n - t
  {
    if t < n {
      var es := Tests(t, n);
      assert es[0] == Test(t) && es[1..] == Tests(t + 1, n);
      assert Threads(t + 1) == Threads(t) + {t};
      assert After(Stage(n, n, t), Test(t)) == Stage(n, n, t + 1);
      RunTests(n, t + 1);
    }
  }

  lemma {:induction false} RunDecrements(n: nat, d: nat)
    requires 0 < n && d <= n
    ensures var es := Decrements(d, n) + Tests(0, n);
            Feasible(Stage(n, d, 0), n, es) && Run(Stage(n, d, 0), es) == Stage(n, n, n)
    decreases n - d
  {
    var es := Decrements(d, n) + Tests(0, n);
    if d == n {
      assert es == Tests(0, n);
      RunTests(n, 0);
    } else {
      assert es[0] == Decrement(d) && es[1..] == Decrements(d + 1, n) + Tests(0, n);
      assert Threads(d + 1) == Threads(d) + {d};
      assert Threads(0) == {};
      assert After(Stage(n, d, 0), Decrement(d)) == Stage(n, d + 1, 0);
      RunDecrements(n, d + 1);
    }
  }

  /** Of any number of threads all may go on to answer. */
  lemma AllMayAnswer(n: nat) returns (es: seq<Event>)
    requires 0 < n
    ensures Complete(n, es) && |Run(Start(n), es).answering| == n
  {
    es := Decrements(0, n) + Tests(0, n);
    assert Stage(n, 0, 0) == Start(n);
    RunDecrements(n, 0);
    ThreadCount(n);
  }

  /** Exactly one thread goes on to answer in every complete run if and only if the mirror has a single disk. */
  lemma AlwaysAnsweredOnceIffOneDisk(n: nat)
    requires 0 < n
    ensures (forall es :: Complete(n, es) ==> |Run(Start(n), es).answering| == 1) <==> n == 1
  {
    hide Complete, Run;
    var all := AllMayAnswer(n);
    if n == 1 {
      forall es | Complete(n, es)
        ensures |Run(Start(n), es).answering| == 1
      {
        NobodyIsForgotten(n, es);
      }
    }
  }

  /** Two threads that both decrement before either tests both answer: the second finds the entry gone. */
  lemma BothAnswer()
    ensures var run := [Decrement(0), Decrement(1), Test(0), Test(1)];
            Feasible(Start(2), 2, run) && Run(Start(2), run).answering == {0, 1}
  {
    var c1 := After(Start(2), Decrement(0));
    var c2 := After(c1, Decrement(1));
    var c3 := After(c2, Test(0));
    var run := [Decrement(0), Decrement(1), Test(0), Test(1)];
    assert run[1..] == [Decrement(1), Test(0), Test(1)];
    assert run[1..][1..] == [Test(0), Test(1)];
    assert [Test(0), Test(1)][1..] == [Test(1)];
    assert [Test(1)][1..] == [];
    assert Feasible(c3, 2, [Test(1)]) && Run(c3, [Test(1)]) == After(c3, Test(1));
    assert Feasible(c2, 2, [Test(0), Test(1)]) && Run(c2, [Test(0), Test(1)]) == After(c3, Test(1));
    assert Feasible(c1, 2, run[1..]) && Run(c1, run[1..]) == After(c3, Test(1));
  }
}
