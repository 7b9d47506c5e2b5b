/** What every run of the log channel keeps: the file is the records in lock order, and what the counter is worth. */
module LogSafety {
  import opened LogChannel

  /** The senders that took the mutex during a run, in that order. */
  function LockOrder(acts: seq<Action>): seq<nat> {
    if acts == [] then []
    else (if acts[0].Lock? then [acts[0].i] else []) + LockOrder(acts[1..])
  }

  /** How many records the logger appended during a run. */
  function Appends(acts: seq<Action>): nat {
    if acts == [] then 0 else (if acts[0].Append? then 1 else 0) + Appends(acts[1..])
  }

  lemma StepHistory(sys: System, s: State, a: Action)
    requires Enabled(sys, s, a)
    ensures var t := Apply(sys, s, a);
            && t.order == s.order + (if a.Lock? then [a.i] else [])
            && t.logged == s.logged + (if a.Append? then 1 else 0)
  {
  }

  lemma {:induction false} HistoryMatchesRun(sys: System, s: State, acts: seq<Action>, t: State)
    requires Runs(sys, s, acts, t)
    ensures t.order == s.order + LockOrder(acts) && t.logged == s.logged + Appends(acts)
    decreases |acts|
  {
    if acts != [] {
      var a := acts[0];
      var u := Apply(sys, s, a);
      StepHistory(sys, s, a);
      HistoryMatchesRun(sys, u, acts[1..], t);
      assert s.order + LockOrder(acts) == s.order + (if a.Lock? then [a.i] else []) + LockOrder(acts[1..]);
    }
  }

  /** In every run of any number of senders, the file holds the first records of the lock order, each exactly once and
      unbroken; and whenever the mutex is free the pipe holds the frames of the others and `cont` counts them. */
  lemma LogFollowsLockOrder(sys: System, acts: seq<Action>, s: State)
    requires ValidSystem(sys) && Runs(sys, Init(sys), acts, s)
    ensures s.order == LockOrder(acts) && s.logged == Appends(acts)
    ensures Distinct(s.order) && s.logged <= |s.order|
    ensures s.file == Lines(sys, s.order[..s.logged])
    ensures s.owner.Free? ==> s.pipe == Frames(sys, s.order[s.logged..]) && s.cont == |s.order| - s.logged
    ensures forall i :: 0 <= i < |s.senders| && s.senders[i].Finished? ==> i in s.order
  {
    assert Reachable(sys, s);
    ReachableInv(sys, s);
    HistoryMatchesRun(sys, Init(sys), acts, s);
    assert [] + LockOrder(acts) == LockOrder(acts);
  }

  /** No later step changes what has been logged. */
  lemma {:induction false} FileOnlyGrows(sys: System, s: State, acts: seq<Action>, t: State)
    requires Runs(sys, s, acts, t)
    ensures s.file <= t.file
    decreases |acts|
  {
    if acts != [] {
      FileOnlyGrows(sys, Apply(sys, s, acts[0]), acts[1..], t);
    }
  }

  ghost predicate LoggedFor(s: State, i: nat)
    requires s.logged <= |s.order|
  {
    i in s.order[..s.logged]
  }

  /** A sender that is done although its record is not in the file. */
  ghost predicate Stranded(s: State, i: nat)
    requires s.logged <= |s.order|
  {
    i < |s.senders| && s.senders[i].Finished? && !LoggedFor(s, i)
  }

  lemma EarlierSendersFinished(sys: System, s: State, j: nat)
    requires Bookkeeping(sys, s) && j < |s.order|
    requires s.owner.Sender? ==> j < |s.order| - 1 && s.order[|s.order| - 1] == s.owner.id
    ensures s.order[j] < |s.senders| && s.senders[s.order[j]].Finished?
  {
    var i := s.order[j];
    assert !s.senders[i].Outside?;
    assert s.owner != Sender(i);
    assert !HoldsMutex(s.senders[i]);
  }

  lemma NothingUnheard(s: State)
    requires SignalCount(s) && s.logger.Asleep? && s.awoken
    ensures Signals(s) == s.logged
  {
  }

  /** A finished sender has its place in the lock order among the signalled commits. */
  lemma FinishedHasSignalled(sys: System, s: State, i: nat) returns (j: nat)
    requires Inv(sys, s) && i < |s.senders| && s.senders[i].Finished?
    ensures j < |s.order| && s.order[j] == i && j < Signals(s)
  {
    assert i in s.order;
    j :| 0 <= j < |s.order| && s.order[j] == i;
    assert !HoldsMutex(s.senders[i]);
  }

  /** Once the logger has been woken, it never goes back to sleep on an unlogged record: whenever it sleeps, the record
      of every sender that is done is in the file. Signals lost while it was awake do not matter. */
  lemma NothingStrandedAfterFirstWakeup(sys: System, s: State, i: nat)
    requires ValidSystem(sys) && Reachable(sys, s) && s.logger.Asleep? && s.awoken
    requires i < |s.senders| && s.senders[i].Finished?
    ensures s.logged <= |s.order| && LoggedFor(s, i)
  {
    ReachableInv(sys, s);
    NothingUnheard(s);
    var j := FinishedHasSignalled(sys, s, i);
    assert s.order[..s.logged][j] == i;
  }

  /** Before the first wake-up, a finished sender has signalled, and nobody has heard it. */
  lemma FinishedWasLost(sys: System, s: State, i: nat)
    requires Inv(sys, s) && s.logger.Asleep? && !s.awoken
    requires i < |s.senders| && s.senders[i].Finished?
    ensures s.lost > 0
  {
    var j := FinishedHasSignalled(sys, s, i);
    assert Signals(s) == s.lost;
  }

  lemma StrandedInState(sys: System, s: State)
    requires ValidSystem(sys) && Reachable(sys, s) && s.logger.Asleep?
    ensures s.logged <= |s.order|
    ensures (exists i :: Stranded(s, i)) <==> (!s.awoken && s.lost > 0)
  {
    ReachableInv(sys, s);
    if s.awoken {
      forall i: nat ensures !Stranded(s, i) {
        if i < |s.senders| && s.senders[i].Finished? {
          NothingStrandedAfterFirstWakeup(sys, s, i);
        }
      }
    } else {
      forall i: nat | Stranded(s, i) ensures s.lost > 0 {
        FinishedWasLost(sys, s, i);
      }
      if s.lost > 0 {
        EarlierSendersFinished(sys, s, 0);
        assert Stranded(s, s.order[0]);
      }
    }
  }

  /** How many commits are signalled in a run before the logger enters its first wait. */
  function EarlySignals(acts: seq<Action>): nat {
    if acts == [] || acts[0].LogWait? then 0
    else (if acts[0].Signal? then 1 else 0) + EarlySignals(acts[1..])
  }

  lemma {:induction false} AwokenIff(sys: System, s: State, acts: seq<Action>, t: State)
    requires Runs(sys, s, acts, t)
    ensures t.awoken <==> s.awoken || Reacquire in acts
    decreases |acts|
  {
    if acts != [] {
      AwokenIff(sys, Apply(sys, s, acts[0]), acts[1..], t);
      assert Reacquire in acts <==> acts[0] == Reacquire || Reacquire in acts[1..];
    }
  }

  /** Without getting the mutex back, a woken logger stays where it is, and a sleeping one has missed nothing. */
  lemma {:induction false} NothingLostAsleep(sys: System, s: State, acts: seq<Action>, t: State)
    requires Runs(sys, s, acts, t) && Reacquire !in acts && (s.logger.Asleep? || s.logger.Woken?)
    ensures t.logger.Asleep? ==> s.logger.Asleep? && t.lost == s.lost
    ensures t.logger.Asleep? || t.logger.Woken?
    decreases |acts|
  {
    if acts != [] {
      assert acts[0] != Reacquire && Reacquire !in acts[1..];
      NothingLostAsleep(sys, Apply(sys, s, acts[0]), acts[1..], t);
    }
  }

  lemma {:induction false} EarlySignalsAreLost(sys: System, s: State, acts: seq<Action>, t: State)
    requires Runs(sys, s, acts, t) && Reacquire !in acts && (s.logger.Starting? || s.logger.Entering?)
    ensures t.logger.Asleep? ==> t.lost == s.lost + EarlySignals(acts)
    decreases |acts|
  {
    if acts != [] {
      var u := Apply(sys, s, acts[0]);
      assert Reacquire !in acts[1..];
      if acts[0].LogWait? {
        NothingLostAsleep(sys, u, acts[1..], t);
      } else {
        EarlySignalsAreLost(sys, u, acts[1..], t);
      }
    }
  }

  /** In any run that leaves the logger asleep, a record is stranded beside it exactly when the logger has never got the
      mutex back and some commit was signalled before its first wait: `pthread_cond_wait` is entered without looking at
      `cont`. */
  lemma StrandedIff(sys: System, acts: seq<Action>, s: State)
    requires ValidSystem(sys) && Runs(sys, Init(sys), acts, s) && s.logger.Asleep?
    ensures s.logged <= |s.order|
    ensures (exists i :: Stranded(s, i)) <==> Reacquire !in acts && EarlySignals(acts) > 0
  {
    assert Reachable(sys, s);
    StrandedInState(sys, s);
    AwokenIff(sys, Init(sys), acts, s);
    if Reacquire !in acts {
      EarlySignalsAreLost(sys, Init(sys), acts, s);
    }
  }

  lemma RunsStep(sys: System, s: State, acts: seq<Action>, t: State, a: Action)
    requires Runs(sys, s, acts, t) && Enabled(sys, t, a)
    ensures Runs(sys, s, acts + [a], Apply(sys, t, a))
  {
    RunsOne(sys, t, a);
    RunsCompose(sys, s, acts, t, [a], Apply(sys, t, a));
  }

  lemma ReachableStep(sys: System, s: State, a: Action)
    requires Reachable(sys, s) && Enabled(sys, s, a)
    ensures Reachable(sys, Apply(sys, s, a))
  {
    var acts :| Runs(sys, Init(sys), acts, s);
    RunsStep(sys, Init(sys), acts, s, a);
  }

  lemma ReachableRuns(sys: System, s: State, acts: seq<Action>, t: State)
    requires Reachable(sys, s) && Runs(sys, s, acts, t)
    ensures Reachable(sys, t)
  {
    var before :| Runs(sys, Init(sys), before, s);
    RunsCompose(sys, Init(sys), before, s, acts, t);
  }

  /** What the counter is for: when the logger gets the mutex back, `cont` is the record it was called for plus one for
      every signal that found nobody waiting, and that is how many frames the pipe holds. */
  lemma CounterCoversLostSignals(sys: System, s: State)
    requires ValidSystem(sys) && Reachable(sys, s) && s.logger.Woken? && s.owner.Free?
    ensures s.logged <= |s.order|
    ensures s.cont == s.lost + (if s.called then 1 else 0)
    ensures s.pipe == Frames(sys, Pending(s)) && |Pending(s)| == s.cont
  {
    ReachableInv(sys, s);
  }

  /** While the logger holds the mutex it never waits for bytes: a length, then the rest of a payload, is always there
      when it is needed, whatever the sizes of the reads. */
  lemma DrainNeverBlocks(sys: System, s: State)
    requires ValidSystem(sys) && Reachable(sys, s)
    ensures s.logger.Draining? && s.cont > 0 ==> Enabled(sys, s, ReadLength)
    ensures s.logger.Reading? && |s.logger.got| < s.logger.len ==>
              forall k :: 0 < k <= s.logger.len - |s.logger.got| ==> Enabled(sys, s, ReadBytes(k))
  {
    ReachableInv(sys, s);
    if s.logger.Draining? && s.cont > 0 {
      assert s.pipe == Frame(Rec(sys, Pending(s)[0])) + Frames(sys, Pending(s)[1..]);
    }
  }
}
