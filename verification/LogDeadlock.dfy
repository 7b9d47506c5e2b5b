/** Exactly when the log channel can deadlock, and where its runs end. */
module LogDeadlock {
  import opened LogChannel
  import opened LogSafety
  import opened LogProgress

  /** The first `n` senders. */
  function Ids(n: nat): (ids: seq<nat>)
    ensures |ids| == n && forall j :: 0 <= j < n ==> ids[j] == j
  {
    if n == 0 then [] else Ids(n - 1) + [n - 1]
  }

  // Any set of pending frames is at most all frames

  lemma {:induction false} FramesConcat(sys: System, a: seq<nat>, b: seq<nat>)
    ensures Frames(sys, a + b) == Frames(sys, a) + Frames(sys, b)
  {
    if a == [] {
      assert a + b == b;
    } else {
      assert (a + b)[1..] == a[1..] + b;
      FramesConcat(sys, a[1..], b);
    }
  }

  function Without(ids: seq<nat>, j: nat): seq<nat>
    requires j < |ids|
  {
    ids[..j] + ids[j + 1..]
  }

  lemma WithoutBelow(ids: seq<nat>, j: nat, n: nat)
    requires Distinct(ids) && j < |ids| && ids[j] == n && forall m :: 0 <= m < |ids| ==> ids[m] <= n
    ensures var rest := Without(ids, j);
            && |rest| == |ids| - 1 && Distinct(rest)
            && (forall m :: 0 <= m < |rest| ==> rest[m] < n)
            && (forall i :: i in ids && i != n ==> i in rest)
  {
    var rest := Without(ids, j);
    assert forall m :: 0 <= m < |rest| ==> rest[m] == ids[if m < j then m else m + 1];
    forall i | i in ids && i != n ensures i in rest {
      var m :| 0 <= m < |ids| && ids[m] == i;
      assert rest[if m < j then m else m - 1] == i;
    }
  }

  lemma FramesWithout(sys: System, ids: seq<nat>, j: nat)
    requires j < |ids|
    ensures |Frames(sys, ids)| == |Frames(sys, Without(ids, j))| + |Frame(Rec(sys, ids[j]))|
  {
    var before, after := ids[..j], ids[j + 1..];
    assert ids == before + [ids[j]] + after;
    FramesConcat(sys, before + [ids[j]], after);
    FramesAppend(sys, before, ids[j]);
    FramesConcat(sys, before, after);
  }

  lemma NoneBelowZero(ids: seq<nat>, n: nat)
    requires forall j :: 0 <= j < |ids| ==> ids[j] < n
    ensures n == 0 ==> ids == []
  {
    if ids != [] {
      assert ids[0] < n;
    }
  }

  lemma {:induction false} DistinctFramesBound(sys: System, ids: seq<nat>, n: nat)
    requires Distinct(ids) && forall j :: 0 <= j < |ids| ==> ids[j] < n
    ensures |Frames(sys, ids)| <= |Frames(sys, Ids(n))|
    decreases n
  {
    if n == 0 {
      NoneBelowZero(ids, n);
    } else {
      FramesAppend(sys, Ids(n - 1), n - 1);
      if n - 1 in ids {
        var j :| 0 <= j < |ids| && ids[j] == n - 1;
        WithoutBelow(ids, j, n - 1);
        FramesWithout(sys, ids, j);
        DistinctFramesBound(sys, Without(ids, j), n - 1);
      } else {
        DistinctFramesBound(sys, ids, n - 1);
      }
    }
  }

  lemma BlockedIsDoomed(sys: System, s: State, i: nat)
    requires s.logged <= |s.order| && s.owner == Sender(i) && i < |s.senders| && Committing(sys, s, i)
    requires Blocked(sys, s)
    ensures Doomed(sys, s, i) && |Frames(sys, Pending(s))| > sys.capacity
  {
    PendingLength(sys, s);
    WrittenLength(sys, i, s.senders[i]);
  }

  lemma PendingLength(sys: System, s: State)
    requires s.logged < |s.order|
    ensures var last := |s.order| - 1;
            |Frames(sys, Pending(s))| == |Frames(sys, s.order[s.logged..last])| + |Frame(Rec(sys, s.order[last]))|
  {
    var before, last := s.order[s.logged..|s.order| - 1], s.order[|s.order| - 1];
    FramesAppend(sys, before, last);
    assert Pending(s) == before + [last];
  }

  lemma WrittenLength(sys: System, i: nat, pc: SenderPc)
    ensures pc.Sending? && pc.sent <= |Rec(sys, i)| ==> |Written(sys, i, pc)| == 4 + pc.sent
    ensures pc.Counted? ==> Written(sys, i, pc) == ""
  {
  }

  lemma PendingAreSenders(sys: System, s: State)
    requires Bookkeeping(sys, s)
    ensures Distinct(Pending(s)) && forall j :: 0 <= j < |Pending(s)| ==> Pending(s)[j] < |sys.records|
  {
    var pending := Pending(s);
    assert forall j :: 0 <= j < |pending| ==> pending[j] == s.order[s.logged + j];
  }

  lemma BlockedNeedsFullPipe(sys: System, s: State)
    requires ValidSystem(sys) && Inv(sys, s) && Blocked(sys, s)
    ensures |Frames(sys, Ids(|sys.records|))| > sys.capacity
  {
    BlockedIsDoomed(sys, s, s.owner.id);
    PendingAreSenders(sys, s);
    DistinctFramesBound(sys, Pending(s), |sys.records|);
  }

  // Senders 0, 1, 2, ... commit one after the other before the logger starts

  function Early(sys: System, k: nat): State
    requires k <= |sys.records|
  {
    State(Free, k, Frames(sys, Ids(k)), "", seq(|sys.records|, i => if i < k then Finished else Outside),
          Starting, Ids(k), 0, k, false, false)
  }

  lemma {:induction false} EarlyReachable(sys: System, k: nat)
    requires k <= |sys.records| && |Frames(sys, Ids(k))| <= sys.capacity
    ensures Reachable(sys, Early(sys, k))
  {
    if k == 0 {
      assert Early(sys, 0) == Init(sys);
      assert Runs(sys, Init(sys), [], Init(sys));
    } else {
      FramesAppend(sys, Ids(k - 1), k - 1);
      EarlyReachable(sys, k - 1);
      var acts := CommitRuns(sys, Early(sys, k - 1), k - 1);
      ReachableRuns(sys, Early(sys, k - 1), acts, Committed(sys, Early(sys, k - 1), k - 1));
      assert Committed(sys, Early(sys, k - 1), k - 1) == Early(sys, k);
    }
  }

  lemma OverfullBlocks(sys: System, k: nat)
    requires k < |sys.records| && |Frames(sys, Ids(k))| <= sys.capacity < |Frames(sys, Ids(k + 1))|
    ensures exists s :: Reachable(sys, s) && Blocked(sys, s)
  {
    EarlyReachable(sys, k);
    var s := Early(sys, k);
    FramesAppend(sys, Ids(k), k);
    var room := sys.capacity - |s.pipe|;
    if room < 4 {
      var acts := CountRuns(sys, s, k);
      ReachableRuns(sys, s, acts, Underway(s, k, Counted, ""));
      assert Blocked(sys, Underway(s, k, Counted, ""));
    } else {
      var acts := PayloadRuns(sys, s, k, room - 4);
      ReachableRuns(sys, s, acts, Underway(s, k, Sending(room - 4), Frame(Rec(sys, k))[..4 + (room - 4)]));
      assert Blocked(sys, Underway(s, k, Sending(room - 4), Frame(Rec(sys, k))[..4 + (room - 4)]));
    }
  }

  /** The first sender whose frame no longer fits. */
  lemma {:induction false} FindOverfull(sys: System, n: nat) returns (k: nat)
    requires |Frames(sys, Ids(n))| > sys.capacity
    ensures k < n && |Frames(sys, Ids(k))| <= sys.capacity < |Frames(sys, Ids(k + 1))|
  {
    if |Frames(sys, Ids(n - 1))| <= sys.capacity {
      k := n - 1;
    } else {
      k := FindOverfull(sys, n - 1);
    }
  }

  /** Some interleaving deadlocks the channel if and only if the frames of all senders together exceed the pipe. */
  lemma DeadlockIff(sys: System)
    requires ValidSystem(sys)
    ensures (exists s :: Reachable(sys, s) && Blocked(sys, s)) <==> |Frames(sys, Ids(|sys.records|))| > sys.capacity
  {
    if |Frames(sys, Ids(|sys.records|))| > sys.capacity {
      var k := FindOverfull(sys, |sys.records|);
      OverfullBlocks(sys, k);
    } else {
      forall s | Reachable(sys, s) ensures !Blocked(sys, s) {
        ReachableInv(sys, s);
        if Blocked(sys, s) { BlockedNeedsFullPipe(sys, s); }
      }
    }
  }

  // Where runs end

  /** Nothing can move any more, except that an idle wait may return spuriously. */
  ghost predicate Terminal(sys: System, s: State) {
    forall a :: Enabled(sys, s, a) ==> a.Spurious?
  }

  ghost predicate AllDone(s: State) {
    s.logger.Asleep? && forall i :: 0 <= i < |s.senders| ==> s.senders[i].Finished?
  }

  lemma SenderMoves(sys: System, s: State, i: nat)
    requires Inv(sys, s) && s.owner == Sender(i) && !Blocked(sys, s)
    ensures exists a :: Enabled(sys, s, a) && !a.Spurious?
  {
    assert i < |s.senders| && HoldsMutex(s.senders[i]);
    var pc := s.senders[i];
    var a := if pc.Locked? then Count(i)
             else if pc.Counted? then WriteLength(i)
             else if pc.Signalled? then Unlock(i)
             else if pc.sent < |Rec(sys, i)| then WriteBytes(i, 1)
             else Signal(i);
    assert Enabled(sys, s, a);
  }

  lemma LoggerMoves(sys: System, s: State)
    requires ValidSystem(sys) && Reachable(sys, s) && LoggerHolds(s.logger)
    ensures exists a :: Enabled(sys, s, a) && !a.Spurious?
  {
    ReachableInv(sys, s);
    DrainNeverBlocks(sys, s);
    var a := if s.logger.Entering? then LogWait
             else if s.logger.Draining? then (if s.cont > 0 then ReadLength else Sleep)
             else if |s.logger.got| < s.logger.len then ReadBytes(1)
             else Append;
    assert Enabled(sys, s, a);
  }

  lemma FreeMoves(sys: System, s: State)
    requires Inv(sys, s) && s.owner.Free? && !AllDone(s)
    ensures exists a :: Enabled(sys, s, a) && !a.Spurious?
  {
    if s.logger.Starting? {
      assert Enabled(sys, s, LogLock);
    } else if s.logger.Woken? {
      assert Enabled(sys, s, Reacquire);
    } else {
      var i :| 0 <= i < |s.senders| && !s.senders[i].Finished?;
      assert !HoldsMutex(s.senders[i]);
      assert Enabled(sys, s, Lock(i));
    }
  }

  lemma SomebodyMoves(sys: System, s: State)
    requires ValidSystem(sys) && Reachable(sys, s) && !AllDone(s) && !Blocked(sys, s)
    ensures exists a :: Enabled(sys, s, a) && !a.Spurious?
  {
    ReachableInv(sys, s);
    if s.owner.Sender? {
      SenderMoves(sys, s, s.owner.id);
    } else if s.owner.Logger? {
      LoggerMoves(sys, s);
    } else {
      FreeMoves(sys, s);
    }
  }

  lemma BlockedIsTerminal(sys: System, s: State)
    requires Bookkeeping(sys, s) && Blocked(sys, s)
    ensures Terminal(sys, s)
  {
    assert forall j :: 0 <= j < |s.senders| && j != s.owner.id ==> !HoldsMutex(s.senders[j]);
  }

  lemma DoneIsTerminal(sys: System, s: State)
    requires Bookkeeping(sys, s) && AllDone(s)
    ensures Terminal(sys, s)
  {
  }

  /** A run can only end in two ways: every sender done and the logger asleep, or a writer out of room. */
  lemma TerminalIff(sys: System, s: State)
    requires ValidSystem(sys) && Reachable(sys, s)
    ensures Terminal(sys, s) <==> AllDone(s) || Blocked(sys, s)
  {
    ReachableInv(sys, s);
    if Blocked(sys, s) {
      BlockedIsTerminal(sys, s);
    } else if AllDone(s) {
      DoneIsTerminal(sys, s);
    } else {
      SomebodyMoves(sys, s);
    }
  }

  /** A run that ends with everybody done has logged everything, unless the logger was never woken at all. */
  lemma DoneMeansDelivered(sys: System, s: State)
    requires ValidSystem(sys) && Reachable(sys, s) && AllDone(s)
    ensures |s.order| == |sys.records| && Distinct(s.order)
    ensures s.awoken ==> s.file == Lines(sys, s.order) && s.pipe == "" && s.cont == 0
    ensures !s.awoken ==> s.file == "" && s.cont == |sys.records|
  {
    ReachableInv(sys, s);
    AllIdsCounted(s.order, |sys.records|);
    assert s.owner.Free?;
    assert s.order[..|s.order|] == s.order;
  }

  lemma {:induction false} AllIdsCounted(ids: seq<nat>, n: nat)
    requires Distinct(ids) && (forall j :: 0 <= j < |ids| ==> ids[j] < n) && (forall i :: 0 <= i < n ==> i in ids)
    ensures |ids| == n
    decreases n
  {
    if n == 0 {
      NoneBelowZero(ids, n);
    } else {
      assert n - 1 in ids;
      var j :| 0 <= j < |ids| && ids[j] == n - 1;
      WithoutBelow(ids, j, n - 1);
      AllIdsCounted(Without(ids, j), n - 1);
    }
  }
}
