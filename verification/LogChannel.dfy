/** The channel between the sender threads and the logger process, as a step system: a shared mutex, a condition
    variable, the counter `cont` and a byte pipe. Every numbered C statement that touches shared memory is one step,
    and steps of different threads interleave freely. */
module LogChannel {
  import opened Text

  /** `records[i]` is what sender thread `i` wants to log; `capacity` is how many bytes the pipe holds. */
  datatype System = System(records: seq<string>, capacity: nat)

  /** Records are C strings whose length fits the 4-byte `int` that is written in front of them. */
  ghost predicate ValidSystem(sys: System) {
    forall i :: 0 <= i < |sys.records| ==> |sys.records[i]| < 0x8000_0000 && NUL !in sys.records[i]
  }

  function Rec(sys: System, i: nat): string {
    if i < |sys.records| then sys.records[i] else ""
  }

  // Frames: a little-endian 4-byte length, then the payload

  /** The bytes of an integer as they lie in memory on a little-endian machine. */
  function LittleEndian(n: nat, width: nat): (r: string)
    ensures |r| == width
    decreases n, width
  {
    if width == 0 then "" else [(n % 256) as char] + LittleEndian(n / 256, width - 1)
  }

  function ReadInteger(s: string): nat {
    if s == "" then 0 else s[0] as int + 256 * ReadInteger(s[1..])
  }

  function Pow256(width: nat): nat { if width == 0 then 1 else 256 * Pow256(width - 1) }

  lemma {:induction false} ReadBackInteger(n: nat, width: nat)
    requires n < Pow256(width)
    ensures ReadInteger(LittleEndian(n, width)) == n
    decreases width
  {
    if width > 0 {
      ReadBackInteger(n / 256, width - 1);
      var r := LittleEndian(n, width);
      assert r[1..] == LittleEndian(n / 256, width - 1);
    }
  }

  /** `sizeof(int)` bytes. */
  function Int32(n: nat): (r: string)
    ensures |r| == 4
  {
    LittleEndian(n, 4)
  }

  lemma ReadBackInt32(n: nat)
    requires n < 0x8000_0000
    ensures ReadInteger(Int32(n)) == n
  {
    assert Pow256(4) == 0x1_0000_0000;
    ReadBackInteger(n, 4);
  }

  function Frame(r: string): (f: string)
    ensures |f| == 4 + |r|
  {
    Int32(|r|) + r
  }

  /** Writing the next `k` payload bytes lengthens the part of the frame that is on the pipe. */
  lemma WriteMore(base: string, r: string, m: nat, k: nat)
    requires m + k <= |r|
    ensures base + Frame(r)[..4 + m] + r[m..m + k] == base + Frame(r)[..4 + m + k]
  {
    assert Frame(r)[4 + m..4 + m + k] == r[m..m + k];
    ExtendPrefix(base, Frame(r), 4 + m, k);
  }

  /** The first four bytes of a pipe that starts with a frame are the length of its payload. */
  lemma FrameParts(r: string, rest: string)
    requires |r| < 0x8000_0000
    ensures ReadInteger((Frame(r) + rest)[..4]) == |r| && (Frame(r) + rest)[4..] == r + rest
  {
    ReadBackInt32(|r|);
    assert Frame(r) + rest == Int32(|r|) + (r + rest);
    SplitAfter(Int32(|r|), r + rest);
  }

  function Frames(sys: System, ids: seq<nat>): string {
    if ids == [] then "" else Frame(Rec(sys, ids[0])) + Frames(sys, ids[1..])
  }

  function Lines(sys: System, ids: seq<nat>): string {
    if ids == [] then "" else Rec(sys, ids[0]) + Lines(sys, ids[1..])
  }

  lemma {:induction false} FramesAppend(sys: System, ids: seq<nat>, i: nat)
    ensures Frames(sys, ids + [i]) == Frames(sys, ids) + Frame(Rec(sys, i))
  {
    if ids == [] {
      assert [i][1..] == [];
    } else {
      assert (ids + [i])[1..] == ids[1..] + [i];
      FramesAppend(sys, ids[1..], i);
    }
  }

  lemma {:induction false} LinesAppend(sys: System, ids: seq<nat>, i: nat)
    ensures Lines(sys, ids + [i]) == Lines(sys, ids) + Rec(sys, i)
  {
    if ids == [] {
      assert [i][1..] == [];
    } else {
      assert (ids + [i])[1..] == ids[1..] + [i];
      LinesAppend(sys, ids[1..], i);
    }
  }

  // States

  /** Where a sender is in the locked section at the end of `thread_sender`. */
  datatype SenderPc =
    | Outside            // before pthread_mutex_lock
    | Locked             // holds the mutex, cont not yet incremented
    | Counted            // cont incremented, nothing written
    | Sending(sent: nat) // length written, `sent` payload bytes written
    | Signalled          // pthread_cond_signal done, mutex still held
    | Finished           // mutex released

  /** Where the logger is in `log_management`. */
  datatype LoggerPc =
    | Starting                       // before pthread_mutex_lock
    | Entering                       // holds the mutex, before the first pthread_cond_wait
    | Asleep                         // inside pthread_cond_wait, mutex released
    | Woken                          // inside pthread_cond_wait, waiting for the mutex
    | Draining                       // at the test of the for loop, mutex held
    | Reading(len: nat, got: string) // inside one pass of the for loop

  datatype Owner = Free | Sender(id: nat) | Logger

  /** `order` (senders in the order they took the mutex), `logged` (how many of them are in the file), `lost` (signals
      since the last drain that found nobody waiting), `called` (the current wake-up is due to a signal) and `awoken`
      (some pthread_cond_wait has returned) are history: no step's guard reads them. */
  datatype State = State(
    owner: Owner, cont: int, pipe: string, file: string,
    senders: seq<SenderPc>, logger: LoggerPc,
    order: seq<nat>, logged: nat, lost: nat, called: bool, awoken: bool)

  function Init(sys: System): State {
    State(Free, 0, "", "", seq(|sys.records|, _ => Outside), Starting, [], 0, 0, false, false)
  }

  datatype Action =
    | Lock(i: nat) | Count(i: nat) | WriteLength(i: nat) | WriteBytes(i: nat, k: nat) | Signal(i: nat) | Unlock(i: nat)
    | LogLock | LogWait | Spurious | Reacquire | ReadLength | ReadBytes(k: nat) | Append | Sleep

  predicate OfSender(a: Action) {
    a.Lock? || a.Count? || a.WriteLength? || a.WriteBytes? || a.Signal? || a.Unlock?
  }

  predicate At(s: State, i: nat, pc: SenderPc) {
    i < |s.senders| && s.senders[i] == pc
  }

  /** A pipe write blocks until there is room; a pipe read blocks until there are bytes. The 4-byte length is below
      PIPE_BUF, so it is written, and therefore read, in one piece; a payload may travel in pieces of any size. */
  predicate Enabled(sys: System, s: State, a: Action) {
    match a
    case Lock(i) => At(s, i, Outside) && s.owner.Free?
    case Count(i) => At(s, i, Locked)
    case WriteLength(i) => At(s, i, Counted) && |s.pipe| + 4 <= sys.capacity
    case WriteBytes(i, k) =>
      i < |s.senders| && s.senders[i].Sending? && 0 < k &&
      s.senders[i].sent + k <= |Rec(sys, i)| && |s.pipe| + k <= sys.capacity
    case Signal(i) => At(s, i, Sending(|Rec(sys, i)|))
    case Unlock(i) => At(s, i, Signalled)
    case LogLock => s.logger.Starting? && s.owner.Free?
    case LogWait => s.logger.Entering?
    case Spurious => s.logger.Asleep?
    case Reacquire => s.logger.Woken? && s.owner.Free?
    case ReadLength => s.logger.Draining? && s.cont > 0 && |s.pipe| >= 4
    case ReadBytes(k) => s.logger.Reading? && 0 < k <= |s.pipe| && |s.logger.got| + k <= s.logger.len
    case Append => s.logger.Reading? && |s.logger.got| == s.logger.len
    case Sleep => s.logger.Draining? && s.cont <= 0
  }

  /** The effect of an enabled action; an action that is not enabled blocks and changes nothing. */
  function Apply(sys: System, s: State, a: Action): State {
    if !Enabled(sys, s, a) then s
    else if a.Lock? || a.Count? || a.WriteLength? || a.WriteBytes? || a.Signal? || a.Unlock? then
      ApplySender(sys, s, a)
    else
      ApplyLogger(sys, s, a)
  }

  function ApplySender(sys: System, s: State, a: Action): State
    requires Enabled(sys, s, a)
  {
    match a
    case Lock(i) => s.(owner := Sender(i), senders := s.senders[i := Locked], order := s.order + [i])
    case Count(i) => s.(cont := s.cont + 1, senders := s.senders[i := Counted])
    case WriteLength(i) => s.(pipe := s.pipe + Int32(|Rec(sys, i)|), senders := s.senders[i := Sending(0)])
    case WriteBytes(i, k) =>
      var sent := s.senders[i].sent;
      s.(pipe := s.pipe + Rec(sys, i)[sent..sent + k], senders := s.senders[i := Sending(sent + k)])
    case Signal(i) =>
      var t := s.(senders := s.senders[i := Signalled]);
      if s.logger.Asleep? then t.(logger := Woken, called := true) else t.(lost := s.lost + 1)
    case Unlock(i) => s.(owner := Free, senders := s.senders[i := Finished])
    case _ => s
  }

  function ApplyLogger(sys: System, s: State, a: Action): State
    requires Enabled(sys, s, a)
  {
    match a
    case LogLock => s.(owner := Logger, logger := Entering)
    case LogWait => s.(owner := Free, logger := Asleep)
    case Spurious => s.(logger := Woken)
    case Reacquire => s.(owner := Logger, logger := Draining, awoken := true)
    case ReadLength => s.(pipe := s.pipe[4..], logger := Reading(ReadInteger(s.pipe[..4]), ""))
    case ReadBytes(k) => s.(pipe := s.pipe[k..], logger := Reading(s.logger.len, s.logger.got + s.pipe[..k]))
    case Append =>
      s.(file := s.file + CString(s.logger.got), cont := s.cont - 1, logged := s.logged + 1, logger := Draining)
    case Sleep => s.(owner := Free, logger := Asleep, lost := 0, called := false)
    case _ => s
  }

  /** Running `acts` from `s` is possible and ends in `t`. */
  ghost predicate Runs(sys: System, s: State, acts: seq<Action>, t: State)
    decreases |acts|
  {
    if acts == [] then s == t
    else Enabled(sys, s, acts[0]) && Runs(sys, Apply(sys, s, acts[0]), acts[1..], t)
  }

  ghost predicate Reachable(sys: System, s: State) {
    exists acts :: Runs(sys, Init(sys), acts, s)
  }

  lemma {:induction false} RunsCompose(sys: System, s: State, acts: seq<Action>, t: State, more: seq<Action>, u: State)
    requires Runs(sys, s, acts, t) && Runs(sys, t, more, u)
    ensures Runs(sys, s, acts + more, u)
    decreases |acts|
  {
    if acts == [] {
      assert acts + more == more;
    } else {
      assert (acts + more)[1..] == acts[1..] + more;
      RunsCompose(sys, Apply(sys, s, acts[0]), acts[1..], t, more, u);
    }
  }

  lemma RunsOne(sys: System, s: State, a: Action)
    requires Enabled(sys, s, a)
    ensures Runs(sys, s, [a], Apply(sys, s, a))
  {
    assert [a][1..] == [];
  }

  // The invariant

  predicate HoldsMutex(pc: SenderPc) { !pc.Outside? && !pc.Finished? }

  predicate LoggerHolds(pc: LoggerPc) { pc.Entering? || pc.Draining? || pc.Reading? }

  /** The records committed but not yet logged, oldest first. */
  function Pending(s: State): seq<nat>
    requires s.logged <= |s.order|
  {
    s.order[s.logged..]
  }

  /** The bytes a sender has put on the pipe so far. */
  function Written(sys: System, i: nat, pc: SenderPc): string {
    match pc
    case Sending(sent) => if 4 + sent <= |Frame(Rec(sys, i))| then Frame(Rec(sys, i))[..4 + sent] else ""
    case Signalled => Frame(Rec(sys, i))
    case _ => ""
  }

  ghost predicate Distinct(ids: seq<nat>) {
    forall j, k :: 0 <= j < k < |ids| ==> ids[j] != ids[k]
  }

  /** `order` lists only senders that have taken the mutex ... */
  ghost predicate OnlyEntered(order: seq<nat>, senders: seq<SenderPc>) {
    forall j :: 0 <= j < |order| ==> order[j] < |senders| && !senders[order[j]].Outside?
  }

  /** ... and all of them. */
  ghost predicate AllEntered(order: seq<nat>, senders: seq<SenderPc>) {
    forall i :: 0 <= i < |senders| && !senders[i].Outside? ==> i in order
  }

  ghost predicate OwnerMatches(owner: Owner, senders: seq<SenderPc>, logger: LoggerPc) {
    && (forall i :: 0 <= i < |senders| ==> (HoldsMutex(senders[i]) <==> owner == Sender(i)))
    && (LoggerHolds(logger) <==> owner.Logger?)
  }

  ghost predicate Bookkeeping(sys: System, s: State) {
    && |s.senders| == |sys.records|
    && s.logged <= |s.order|
    && |s.pipe| <= sys.capacity
    && Distinct(s.order)
    && OnlyEntered(s.order, s.senders)
    && OwnerMatches(s.owner, s.senders, s.logger)
  }

  /** Nobody is in the middle of a frame: the pipe holds the pending frames and nothing else. */
  ghost predicate Settled(sys: System, s: State)
    requires s.logged <= |s.order|
  {
    s.pipe == Frames(sys, Pending(s)) && s.cont == |Pending(s)|
  }

  /** Sender `i`, the last to take the mutex, is in the middle of its commit. */
  ghost predicate Committing(sys: System, s: State, i: nat)
    requires s.logged <= |s.order| && i < |s.senders|
  {
    s.logged < |s.order| && CommittingOn(sys, s, i, Frames(sys, s.order[s.logged..|s.order| - 1]))
  }

  /** It does so behind the frames `base`. */
  ghost predicate CommittingOn(sys: System, s: State, i: nat, base: string)
    requires s.logged < |s.order| && i < |s.senders|
  {
    && s.order[|s.order| - 1] == i
    && (s.senders[i].Sending? ==> s.senders[i].sent <= |Rec(sys, i)|)
    && s.pipe == base + Written(sys, i, s.senders[i])
    && s.cont == |Pending(s)| - (if s.senders[i].Locked? then 1 else 0)
  }

  /** The logger has taken `got` of the first pending record off the pipe. */
  ghost predicate Receiving(sys: System, s: State, len: nat, got: string)
    requires s.logged <= |s.order|
  {
    && s.logged < |s.order| && len == |Rec(sys, s.order[s.logged])| && |got| <= len
    && got + s.pipe == Rec(sys, s.order[s.logged]) + Frames(sys, s.order[s.logged + 1..])
    && s.cont == |Pending(s)|
  }

  ghost predicate Contents(sys: System, s: State)
    requires s.logged <= |s.order|
  {
    && s.file == Lines(sys, s.order[..s.logged])
    && match s.owner
       case Free => Settled(sys, s)
       case Sender(i) => i < |s.senders| && Committing(sys, s, i)
       case Logger =>
         if s.logger.Reading? then Receiving(sys, s, s.logger.len, s.logger.got) else Settled(sys, s)
  }

  /** How many commits have been signalled. */
  function Signals(s: State): int {
    match s.owner
    case Sender(i) => if At(s, i, Signalled) then |s.order| else |s.order| - 1
    case _ => |s.order|
  }

  /** Outside a drain, each commit not yet logged was announced by the wake-up under way or by a lost signal. */
  ghost predicate SignalCount(s: State) {
    && (!s.logger.Draining? && !s.logger.Reading? ==>
          Signals(s) - s.logged == s.lost + (if s.called then 1 else 0))
    && (s.called ==> s.logger.Woken? || s.logger.Draining? || s.logger.Reading?)
    && (s.logger.Starting? || s.logger.Entering? ==> !s.awoken)
    && (s.logger.Draining? || s.logger.Reading? ==> s.awoken)
    && (s.logger.Asleep? && s.awoken ==> s.lost == 0)
    && (!s.awoken ==> s.logged == 0)
    && (s.logger.Asleep? && s.owner.Sender? ==> !At(s, s.owner.id, Signalled))
  }

  ghost predicate Inv(sys: System, s: State) {
    Bookkeeping(sys, s) && Contents(sys, s) && SignalCount(s) && AllEntered(s.order, s.senders)
  }

  lemma InitInv(sys: System)
    ensures Inv(sys, Init(sys))
  {
  }

  /** A sender that keeps the mutex only moves its own program counter. */
  lemma KeepsMutex(sys: System, s: State, t: State, i: nat, pc: SenderPc)
    requires Bookkeeping(sys, s) && AllEntered(s.order, s.senders)
    requires i < |s.senders| && HoldsMutex(s.senders[i]) && HoldsMutex(pc)
    requires t.senders == s.senders[i := pc] && t.owner == s.owner && t.order == s.order && t.logged == s.logged
    requires LoggerHolds(t.logger) == LoggerHolds(s.logger) && |t.pipe| <= sys.capacity
    ensures Bookkeeping(sys, t) && AllEntered(t.order, t.senders) && s.owner == Sender(i)
  {
  }

  lemma LockInv(sys: System, s: State, i: nat)
    requires Inv(sys, s) && Enabled(sys, s, Lock(i))
    ensures Inv(sys, Apply(sys, s, Lock(i)))
  {
    var t := Apply(sys, s, Lock(i));
    LockBookkeeping(sys, s, i);
    LockContents(sys, s, i);
    LockSignalCount(sys, s, i);
    forall j | 0 <= j < |t.senders| && !t.senders[j].Outside? ensures j in t.order {
      if j == i { assert t.order[|s.order|] == i; }
    }
  }

  lemma LockBookkeeping(sys: System, s: State, i: nat)
    requires Bookkeeping(sys, s) && Enabled(sys, s, Lock(i))
    ensures Bookkeeping(sys, Apply(sys, s, Lock(i)))
  {
  }

  lemma LockContents(sys: System, s: State, i: nat)
    requires Bookkeeping(sys, s) && Contents(sys, s) && Enabled(sys, s, Lock(i))
    ensures Contents(sys, Apply(sys, s, Lock(i)))
  {
    var t := Apply(sys, s, Lock(i));
    assert t.order[t.logged..|t.order| - 1] == Pending(s);
    assert t.order[..t.logged] == s.order[..s.logged];
  }

  lemma LockSignalCount(sys: System, s: State, i: nat)
    requires Bookkeeping(sys, s) && SignalCount(s) && Enabled(sys, s, Lock(i))
    ensures SignalCount(Apply(sys, s, Lock(i)))
  {
  }

  lemma CountInv(sys: System, s: State, i: nat)
    requires Inv(sys, s) && Enabled(sys, s, Count(i))
    ensures Inv(sys, Apply(sys, s, Count(i)))
  {
    KeepsMutex(sys, s, Apply(sys, s, Count(i)), i, Counted);
    CountContents(sys, s, i);
  }

  lemma CountContents(sys: System, s: State, i: nat)
    requires s.logged <= |s.order| && s.owner == Sender(i) && Contents(sys, s) && Enabled(sys, s, Count(i))
    ensures Contents(sys, Apply(sys, s, Count(i)))
  {
    CommittingCounted(sys, s, Apply(sys, s, Count(i)), i, Frames(sys, s.order[s.logged..|s.order| - 1]));
  }

  lemma CommittingCounted(sys: System, s: State, t: State, i: nat, base: string)
    requires s.logged < |s.order| && i < |s.senders| && CommittingOn(sys, s, i, base) && s.senders[i] == Locked
    requires t == s.(cont := s.cont + 1, senders := s.senders[i := Counted])
    ensures CommittingOn(sys, t, i, base)
  {
    assert Written(sys, i, Locked) == Written(sys, i, Counted);
  }

  lemma WriteLengthInv(sys: System, s: State, i: nat)
    requires Inv(sys, s) && Enabled(sys, s, WriteLength(i))
    ensures Inv(sys, Apply(sys, s, WriteLength(i)))
  {
    KeepsMutex(sys, s, Apply(sys, s, WriteLength(i)), i, Sending(0));
    WriteLengthContents(sys, s, i);
  }

  lemma WriteLengthContents(sys: System, s: State, i: nat)
    requires s.logged <= |s.order| && s.owner == Sender(i) && Contents(sys, s) && Enabled(sys, s, WriteLength(i))
    ensures Contents(sys, Apply(sys, s, WriteLength(i)))
  {
    CommittingLength(sys, s, Apply(sys, s, WriteLength(i)), i, Frames(sys, s.order[s.logged..|s.order| - 1]));
  }

  lemma CommittingLength(sys: System, s: State, t: State, i: nat, base: string)
    requires s.logged < |s.order| && i < |s.senders| && CommittingOn(sys, s, i, base) && s.senders[i] == Counted
    requires t == s.(pipe := s.pipe + Int32(|Rec(sys, i)|), senders := s.senders[i := Sending(0)])
    ensures CommittingOn(sys, t, i, base)
  {
    LengthWritten(sys, i, base, s.pipe);
  }

  lemma LengthWritten(sys: System, i: nat, base: string, pipe: string)
    requires pipe == base + Written(sys, i, Counted)
    ensures pipe + Int32(|Rec(sys, i)|) == base + Written(sys, i, Sending(0))
  {
    assert Frame(Rec(sys, i))[..4] == Int32(|Rec(sys, i)|);
  }

  lemma WriteBytesInv(sys: System, s: State, i: nat, k: nat)
    requires ValidSystem(sys) && Inv(sys, s) && Enabled(sys, s, WriteBytes(i, k))
    ensures Inv(sys, Apply(sys, s, WriteBytes(i, k)))
  {
    WriteBytesEffect(sys, s, i, k);
    BytesInv(sys, s, Apply(sys, s, WriteBytes(i, k)), i, s.senders[i].sent, k);
  }

  lemma BytesInv(sys: System, s: State, t: State, i: nat, sent: nat, k: nat)
    requires Inv(sys, s) && i < |s.senders| && s.senders[i] == Sending(sent) && sent + k <= |Rec(sys, i)|
    requires t == s.(pipe := s.pipe + Rec(sys, i)[sent..sent + k], senders := s.senders[i := Sending(sent + k)])
    requires |t.pipe| <= sys.capacity
    ensures Inv(sys, t)
  {
    KeepsMutex(sys, s, t, i, Sending(sent + k));
    KeepsSignals(s, t, i, Sending(sent + k));
    BytesContents(sys, s, t, i, sent, k);
  }

  /** A sender that neither has signalled nor does so keeps the signal accounting. */
  lemma KeepsSignals(s: State, t: State, i: nat, pc: SenderPc)
    requires SignalCount(s) && i < |s.senders| && s.owner == Sender(i) && !s.senders[i].Signalled? && !pc.Signalled?
    requires t == s.(pipe := t.pipe, senders := s.senders[i := pc])
    ensures SignalCount(t)
  {
  }

  lemma BytesContents(sys: System, s: State, t: State, i: nat, sent: nat, k: nat)
    requires s.logged <= |s.order| && s.owner == Sender(i) && Contents(sys, s)
    requires s.senders[i] == Sending(sent) && sent + k <= |Rec(sys, i)|
    requires t == s.(pipe := s.pipe + Rec(sys, i)[sent..sent + k], senders := s.senders[i := Sending(sent + k)])
    ensures Contents(sys, t)
  {
    CommittingMore(sys, s, t, i, Frames(sys, s.order[s.logged..|s.order| - 1]), sent, k);
  }

  lemma WriteBytesEffect(sys: System, s: State, i: nat, k: nat)
    requires Enabled(sys, s, WriteBytes(i, k))
    ensures var sent := s.senders[i].sent;
            Apply(sys, s, WriteBytes(i, k)) ==
            s.(pipe := s.pipe + Rec(sys, i)[sent..sent + k], senders := s.senders[i := Sending(sent + k)])
  {
  }

  lemma CommittingMore(sys: System, s: State, t: State, i: nat, base: string, sent: nat, k: nat)
    requires s.logged < |s.order| && i < |s.senders| && CommittingOn(sys, s, i, base)
    requires s.senders[i] == Sending(sent) && sent + k <= |Rec(sys, i)|
    requires t == s.(pipe := s.pipe + Rec(sys, i)[sent..sent + k], senders := s.senders[i := Sending(sent + k)])
    ensures CommittingOn(sys, t, i, base)
  {
    MoreWritten(sys, i, base, s.pipe, sent, k);
  }

  lemma MoreWritten(sys: System, i: nat, base: string, pipe: string, sent: nat, k: nat)
    requires sent + k <= |Rec(sys, i)| && pipe == base + Written(sys, i, Sending(sent))
    ensures pipe + Rec(sys, i)[sent..sent + k] == base + Written(sys, i, Sending(sent + k))
  {
    WriteMore(base, Rec(sys, i), sent, k);
  }

  lemma SignalInv(sys: System, s: State, i: nat)
    requires ValidSystem(sys) && Inv(sys, s) && Enabled(sys, s, Signal(i))
    ensures Inv(sys, Apply(sys, s, Signal(i)))
  {
    KeepsMutex(sys, s, Apply(sys, s, Signal(i)), i, Signalled);
    SignalContents(sys, s, i);
    SignalCounted(sys, s, i);
  }

  lemma SignalCounted(sys: System, s: State, i: nat)
    requires s.logged <= |s.order| && s.owner == Sender(i) && SignalCount(s) && Enabled(sys, s, Signal(i))
    requires !LoggerHolds(s.logger)
    ensures SignalCount(Apply(sys, s, Signal(i)))
  {
    var t := Apply(sys, s, Signal(i));
    assert t.owner == s.owner && t.senders[i] == Signalled && t.order == s.order;
  }

  lemma SignalContents(sys: System, s: State, i: nat)
    requires ValidSystem(sys) && s.logged <= |s.order| && s.owner == Sender(i)
    requires Contents(sys, s) && Enabled(sys, s, Signal(i))
    ensures Contents(sys, Apply(sys, s, Signal(i)))
  {
    var frame := Frame(Rec(sys, i));
    assert frame[..4 + |Rec(sys, i)|] == frame;
    assert Written(sys, i, s.senders[i]) == Written(sys, i, Signalled);
    assert Committing(sys, Apply(sys, s, Signal(i)), i);
  }

  lemma UnlockInv(sys: System, s: State, i: nat)
    requires Inv(sys, s) && Enabled(sys, s, Unlock(i))
    ensures Inv(sys, Apply(sys, s, Unlock(i)))
  {
    UnlockBookkeeping(sys, s, i);
    UnlockContents(sys, s, i);
  }

  lemma UnlockBookkeeping(sys: System, s: State, i: nat)
    requires Bookkeeping(sys, s) && Enabled(sys, s, Unlock(i))
    ensures Bookkeeping(sys, Apply(sys, s, Unlock(i))) && s.owner == Sender(i)
  {
  }

  lemma UnlockContents(sys: System, s: State, i: nat)
    requires s.logged <= |s.order| && s.owner == Sender(i) && Contents(sys, s) && Enabled(sys, s, Unlock(i))
    ensures Contents(sys, Apply(sys, s, Unlock(i)))
  {
    var before := s.order[s.logged..|s.order| - 1];
    FramesAppend(sys, before, i);
    assert Pending(s) == before + [i];
    assert Settled(sys, Apply(sys, s, Unlock(i)));
  }

  lemma FirstWaitInv(sys: System, s: State, a: Action)
    requires Inv(sys, s) && Enabled(sys, s, a)
    requires a.LogLock? || a.LogWait?
    ensures Inv(sys, Apply(sys, s, a))
  {
    var t := Apply(sys, s, a);
    assert t.senders == s.senders && t.order == s.order && t.pipe == s.pipe && t.file == s.file && t.cont == s.cont;
    assert Pending(t) == Pending(s);
  }

  lemma SpuriousInv(sys: System, s: State)
    requires Inv(sys, s) && Enabled(sys, s, Spurious)
    ensures Inv(sys, Apply(sys, s, Spurious))
  {
    WakingKeeps(sys, s, Apply(sys, s, Spurious));
    WakingSignals(s, Apply(sys, s, Spurious));
  }

  lemma WakingKeeps(sys: System, s: State, t: State)
    requires Bookkeeping(sys, s) && Contents(sys, s) && s.logger.Asleep? && t == s.(logger := Woken)
    ensures Bookkeeping(sys, t) && Contents(sys, t)
  {
    assert Pending(t) == Pending(s);
  }

  lemma WakingSignals(s: State, t: State)
    requires SignalCount(s) && s.logger.Asleep? && t == s.(logger := Woken)
    ensures SignalCount(t)
  {
    assert Signals(t) == Signals(s);
  }

  lemma ReacquireInv(sys: System, s: State)
    requires Inv(sys, s) && Enabled(sys, s, Reacquire)
    ensures Inv(sys, Apply(sys, s, Reacquire))
  {
    var t := Apply(sys, s, Reacquire);
    assert t == s.(owner := Logger, logger := Draining, awoken := true);
    assert Pending(t) == Pending(s);
  }

  lemma SleepInv(sys: System, s: State)
    requires Inv(sys, s) && Enabled(sys, s, Sleep)
    ensures Inv(sys, Apply(sys, s, Sleep))
  {
    var t := Apply(sys, s, Sleep);
    assert t == s.(owner := Free, logger := Asleep, lost := 0, called := false);
    assert Pending(t) == Pending(s);
  }

  lemma ReadLengthInv(sys: System, s: State)
    requires ValidSystem(sys) && Inv(sys, s) && Enabled(sys, s, ReadLength)
    ensures Inv(sys, Apply(sys, s, ReadLength))
  {
    ReadLengthContents(sys, s, Apply(sys, s, ReadLength));
  }

  lemma ReadLengthContents(sys: System, s: State, t: State)
    requires ValidSystem(sys) && s.logged < |s.order| && Settled(sys, s) && |s.pipe| >= 4
    requires t == s.(pipe := s.pipe[4..], logger := Reading(ReadInteger(s.pipe[..4]), ""))
    ensures Receiving(sys, t, t.logger.len, t.logger.got)
  {
    FirstFrame(sys, s);
    assert "" + t.pipe == t.pipe;
  }

  /** With frames pending, the pipe starts with the length of the oldest, and its payload follows. */
  lemma FirstFrame(sys: System, s: State)
    requires ValidSystem(sys) && s.logged < |s.order| && Settled(sys, s) && |s.pipe| >= 4
    ensures var first, rest := s.order[s.logged], s.order[s.logged + 1..];
            && ReadInteger(s.pipe[..4]) == |Rec(sys, first)|
            && s.pipe[4..] == Rec(sys, first) + Frames(sys, rest)
  {
    var first, rest := s.order[s.logged], s.order[s.logged + 1..];
    assert Pending(s)[0] == first && Pending(s)[1..] == rest;
    FrameParts(Rec(sys, first), Frames(sys, rest));
  }

  lemma ReadBytesInv(sys: System, s: State, k: nat)
    requires Inv(sys, s) && Enabled(sys, s, ReadBytes(k))
    ensures Inv(sys, Apply(sys, s, ReadBytes(k)))
  {
    MoveOver(s.logger.got, s.pipe, k);
  }

  lemma AppendInv(sys: System, s: State)
    requires ValidSystem(sys) && Inv(sys, s) && Enabled(sys, s, Append)
    ensures Inv(sys, Apply(sys, s, Append))
  {
    var first := s.order[s.logged];
    assert s.logger.got == (s.logger.got + s.pipe)[..s.logger.len] == Rec(sys, first);
    assert s.pipe == (s.logger.got + s.pipe)[s.logger.len..];
    assert s.order[..s.logged + 1] == s.order[..s.logged] + [first];
    LinesAppend(sys, s.order[..s.logged], first);
  }

  lemma StepInv(sys: System, s: State, a: Action)
    requires ValidSystem(sys) && Inv(sys, s) && Enabled(sys, s, a)
    ensures Inv(sys, Apply(sys, s, a))
  {
    match a
    case Lock(i) => LockInv(sys, s, i);
    case Count(i) => CountInv(sys, s, i);
    case WriteLength(i) => WriteLengthInv(sys, s, i);
    case WriteBytes(i, k) => WriteBytesInv(sys, s, i, k);
    case Signal(i) => SignalInv(sys, s, i);
    case Unlock(i) => UnlockInv(sys, s, i);
    case ReadLength => ReadLengthInv(sys, s);
    case ReadBytes(k) => ReadBytesInv(sys, s, k);
    case Append => AppendInv(sys, s);
    case LogLock => FirstWaitInv(sys, s, a);
    case LogWait => FirstWaitInv(sys, s, a);
    case Spurious => SpuriousInv(sys, s);
    case Reacquire => ReacquireInv(sys, s);
    case Sleep => SleepInv(sys, s);
  }

  lemma {:induction false} RunsInv(sys: System, s: State, acts: seq<Action>, t: State)
    requires ValidSystem(sys) && Inv(sys, s) && Runs(sys, s, acts, t)
    ensures Inv(sys, t)
    decreases |acts|
  {
    if acts != [] {
      StepInv(sys, s, acts[0]);
      RunsInv(sys, Apply(sys, s, acts[0]), acts[1..], t);
    }
  }

  lemma ReachableInv(sys: System, s: State)
    requires ValidSystem(sys) && Reachable(sys, s)
    ensures Inv(sys, s)
  {
    var acts :| Runs(sys, Init(sys), acts, s);
    InitInv(sys);
    RunsInv(sys, Init(sys), acts, s);
  }
}
