/** When the log channel moves on: how single commits end, when the channel can deadlock, and where runs end. */
module LogProgress {
  import opened Text
  import opened LogChannel
  import opened LogSafety

  // One sender on its own

  /** The state after sender `i` has done its whole commit, nobody else moving. */
  function Committed(sys: System, s: State, i: nat): State
    requires i < |s.senders|
  {
    var t := s.(senders := s.senders[i := Finished], pipe := s.pipe + Frame(Rec(sys, i)), cont := s.cont + 1,
                order := s.order + [i]);
    if s.logger.Asleep? then t.(logger := Woken, called := true) else t.(lost := s.lost + 1)
  }

  /** The state in which sender `i` holds the mutex, has counted its record and written `piece`. */
  function Underway(s: State, i: nat, pc: SenderPc, piece: string): State
    requires i < |s.senders|
  {
    s.(owner := Sender(i), senders := s.senders[i := pc], pipe := s.pipe + piece, cont := s.cont + 1,
       order := s.order + [i])
  }

  /** Only sender `i` moves, and it starts by taking the mutex. */
  ghost predicate Alone(acts: seq<Action>, i: nat) {
    && acts != [] && acts[0] == Lock(i)
    && forall k :: 0 <= k < |acts| ==> OfSender(acts[k]) && acts[k].i == i
  }

  lemma AloneStep(acts: seq<Action>, i: nat, a: Action)
    requires Alone(acts, i) && OfSender(a) && a.i == i
    ensures Alone(acts + [a], i)
  {
  }

  lemma CountRuns(sys: System, s: State, i: nat) returns (acts: seq<Action>)
    requires At(s, i, Outside) && s.owner.Free?
    ensures Runs(sys, s, acts, Underway(s, i, Counted, "")) && Alone(acts, i)
  {
    var s1 := Apply(sys, s, Lock(i));
    RunsOne(sys, s, Lock(i));
    RunsStep(sys, s, [Lock(i)], s1, Count(i));
    assert s1.senders[i := Counted] == s.senders[i := Counted];
    assert Apply(sys, s1, Count(i)) == Underway(s, i, Counted, "");
    acts := [Lock(i)] + [Count(i)];
  }

  lemma LengthRuns(sys: System, s: State, i: nat) returns (acts: seq<Action>)
    requires At(s, i, Outside) && s.owner.Free? && |s.pipe| + 4 <= sys.capacity
    ensures Runs(sys, s, acts, Underway(s, i, Sending(0), Frame(Rec(sys, i))[..4])) && Alone(acts, i)
  {
    acts := CountRuns(sys, s, i);
    var s2 := Underway(s, i, Counted, "");
    RunsStep(sys, s, acts, s2, WriteLength(i));
    LengthUnderway(sys, s, i);
    AloneStep(acts, i, WriteLength(i));
    acts := acts + [WriteLength(i)];
  }

  lemma LengthUnderway(sys: System, s: State, i: nat)
    requires At(s, i, Outside) && |s.pipe| + 4 <= sys.capacity
    ensures Apply(sys, Underway(s, i, Counted, ""), WriteLength(i)) ==
            Underway(s, i, Sending(0), Frame(Rec(sys, i))[..4])
  {
    var s2 := Underway(s, i, Counted, "");
    assert s2.senders[i := Sending(0)] == s.senders[i := Sending(0)];
    assert Frame(Rec(sys, i))[..4] == Int32(|Rec(sys, i)|);
    assert s2.pipe == s.pipe;
  }

  lemma PayloadRuns(sys: System, s: State, i: nat, k: nat) returns (acts: seq<Action>)
    requires At(s, i, Outside) && s.owner.Free?
    requires k <= |Rec(sys, i)| && |s.pipe| + 4 + k <= sys.capacity
    ensures Runs(sys, s, acts, Underway(s, i, Sending(k), Frame(Rec(sys, i))[..4 + k])) && Alone(acts, i)
  {
    acts := LengthRuns(sys, s, i);
    if k > 0 {
      RunsStep(sys, s, acts, Underway(s, i, Sending(0), Frame(Rec(sys, i))[..4]), WriteBytes(i, k));
      PayloadUnderway(sys, s, i, k);
      AloneStep(acts, i, WriteBytes(i, k));
      acts := acts + [WriteBytes(i, k)];
    }
  }

  lemma PayloadUnderway(sys: System, s: State, i: nat, k: nat)
    requires At(s, i, Outside) && 0 < k <= |Rec(sys, i)| && |s.pipe| + 4 + k <= sys.capacity
    ensures Apply(sys, Underway(s, i, Sending(0), Frame(Rec(sys, i))[..4]), WriteBytes(i, k)) ==
            Underway(s, i, Sending(k), Frame(Rec(sys, i))[..4 + k])
  {
    var s3 := Underway(s, i, Sending(0), Frame(Rec(sys, i))[..4]);
    assert s3.senders[i := Sending(k)] == s.senders[i := Sending(k)];
    WriteMore(s.pipe, Rec(sys, i), 0, k);
  }

  /** A sender that finds the mutex free, and whose frame fits, can make its whole commit without anybody else moving.
      */
  lemma CommitRuns(sys: System, s: State, i: nat) returns (acts: seq<Action>)
    requires At(s, i, Outside) && s.owner.Free? && |s.pipe| + |Frame(Rec(sys, i))| <= sys.capacity
    ensures Runs(sys, s, acts, Committed(sys, s, i)) && Alone(acts, i)
  {
    var r := Rec(sys, i);
    acts := PayloadRuns(sys, s, i, |r|);
    assert Frame(r)[..4 + |r|] == Frame(r);
    var s4 := Underway(s, i, Sending(|r|), Frame(r));
    RunsStep(sys, s, acts, s4, Signal(i));
    AloneStep(acts, i, Signal(i));
    acts := acts + [Signal(i)];
    RunsStep(sys, s, acts, Apply(sys, s4, Signal(i)), Unlock(i));
    AloneStep(acts, i, Unlock(i));
    acts := acts + [Unlock(i)];
    UnlockCommits(sys, s, i);
  }

  lemma UnlockCommits(sys: System, s: State, i: nat)
    requires At(s, i, Outside) && s.owner.Free?
    ensures var s4 := Underway(s, i, Sending(|Rec(sys, i)|), Frame(Rec(sys, i)));
            Apply(sys, Apply(sys, s4, Signal(i)), Unlock(i)) == Committed(sys, s, i)
  {
    var s4 := Underway(s, i, Sending(|Rec(sys, i)|), Frame(Rec(sys, i)));
    var s5 := Apply(sys, s4, Signal(i));
    assert Apply(sys, s5, Unlock(i)).senders == s.senders[i := Finished];
  }

  /** A reachable state of rest, mutex free and logger asleep, with the record still on the pipe. */
  ghost predicate Deserted(sys: System, s: State, record: string) {
    Reachable(sys, s) && s.logger.Asleep? && s.owner.Free? && s.cont == 1 && s.file == "" && s.pipe == Frame(record)
  }

  /** A record can be stranded: one sender commits before the logger reaches its first wait. */
  lemma StrandingHappens(record: string, capacity: nat)
    requires |record| < 0x8000_0000 && NUL !in record && 4 + |record| <= capacity
    ensures ValidSystem(System([record], capacity)) && exists s :: Deserted(System([record], capacity), s, record)
  {
    var sys := System([record], capacity);
    var s0 := Init(sys);
    assert Runs(sys, s0, [], s0);
    var acts := CommitRuns(sys, s0, 0);
    var s6 := Committed(sys, s0, 0);
    ReachableRuns(sys, s0, acts, s6);
    ReachableStep(sys, s6, LogLock);
    var s7 := Apply(sys, s6, LogLock);
    ReachableStep(sys, s7, LogWait);
    assert Deserted(sys, Apply(sys, s7, LogWait), record);
  }

  // Writers that wait for room

  /** The holder of the mutex cannot write: the pipe has no room, and only the logger, which needs the mutex, makes
      any. */
  ghost predicate Blocked(sys: System, s: State) {
    s.owner.Sender? && s.owner.id < |s.senders| &&
    match s.senders[s.owner.id]
    case Counted => |s.pipe| + 4 > sys.capacity
    case Sending(sent) => sent < |Rec(sys, s.owner.id)| && |s.pipe| >= sys.capacity
    case _ => false
  }

  /** Sender `i` holds the mutex and its frame does not fit behind the frames already pending. */
  ghost predicate Doomed(sys: System, s: State, i: nat) {
    && s.owner == Sender(i) && s.logged < |s.order|
    && |Frames(sys, s.order[s.logged..|s.order| - 1])| + |Frame(Rec(sys, i))| > sys.capacity
  }

  lemma DoomedStep(sys: System, s: State, i: nat, a: Action)
    requires Bookkeeping(sys, s) && i < |s.senders| && Committing(sys, s, i)
    requires Doomed(sys, s, i) && Enabled(sys, s, a)
    ensures Doomed(sys, Apply(sys, s, a), i) && Apply(sys, s, a).file == s.file
  {
    if a.Lock? || a.Count? || a.WriteLength? || a.WriteBytes? || a.Signal? || a.Unlock? {
      assert a.i == i;
      assert !s.senders[i].Signalled?;
    }
  }

  /** Such a sender never finishes, and the log never grows again: nobody else can take the mutex it waits with. */
  lemma {:induction false} DoomedForever(sys: System, s: State, i: nat, acts: seq<Action>, t: State)
    requires ValidSystem(sys) && Inv(sys, s) && Doomed(sys, s, i) && Runs(sys, s, acts, t)
    ensures Doomed(sys, t, i) && t.file == s.file
    decreases |acts|
  {
    if acts != [] {
      DoomedStep(sys, s, i, acts[0]);
      StepInv(sys, s, acts[0]);
      DoomedForever(sys, Apply(sys, s, acts[0]), i, acts[1..], t);
    }
  }

  ghost predicate CanFinish(sys: System, s: State, i: nat) {
    exists acts, t :: Runs(sys, s, acts, t) && At(t, i, Finished)
  }

  lemma LockDooms(sys: System, s: State, i: nat)
    requires ValidSystem(sys) && Inv(sys, s) && Enabled(sys, s, Lock(i))
    requires |s.pipe| + |Frame(Rec(sys, i))| > sys.capacity
    ensures Doomed(sys, Apply(sys, s, Lock(i)), i) && Inv(sys, Apply(sys, s, Lock(i)))
  {
    StepInv(sys, s, Lock(i));
    var t := Apply(sys, s, Lock(i));
    assert t.order == s.order + [i] && t.logged == s.logged;
    assert t.order[t.logged..|t.order| - 1] == Pending(s);
  }

  /** A sender that takes the mutex can finish its commit if and only if its frame fits in the room left at that
      moment. */
  lemma LockedSenderFinishesIff(sys: System, s: State, i: nat)
    requires ValidSystem(sys) && Reachable(sys, s) && At(s, i, Outside) && s.owner.Free?
    ensures CanFinish(sys, Apply(sys, s, Lock(i)), i) <==> |s.pipe| + |Frame(Rec(sys, i))| <= sys.capacity
  {
    if |s.pipe| + |Frame(Rec(sys, i))| > sys.capacity {
      ReachableInv(sys, s);
      LockDooms(sys, s, i);
      DoomedNeverFinishes(sys, Apply(sys, s, Lock(i)), i);
    } else {
      FinishFromLock(sys, s, i);
    }
  }

  lemma DoomedNeverFinishes(sys: System, s: State, i: nat)
    requires ValidSystem(sys) && Inv(sys, s) && Doomed(sys, s, i)
    ensures !CanFinish(sys, s, i)
  {
    forall acts, t | Runs(sys, s, acts, t) ensures !At(t, i, Finished) {
      DoomedForever(sys, s, i, acts, t);
      RunsInv(sys, s, acts, t);
      assert t.owner == Sender(i);
    }
  }

  lemma FinishFromLock(sys: System, s: State, i: nat)
    requires At(s, i, Outside) && s.owner.Free? && |s.pipe| + |Frame(Rec(sys, i))| <= sys.capacity
    ensures CanFinish(sys, Apply(sys, s, Lock(i)), i)
  {
    var acts := CommitRuns(sys, s, i);
    assert Runs(sys, Apply(sys, s, Lock(i)), acts[1..], Committed(sys, s, i));
    assert At(Committed(sys, s, i), i, Finished);
  }
}
