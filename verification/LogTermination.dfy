/** Every run of the log channel is bounded by the records and its spurious wake-ups, and when everything fits it ends
    with a complete log. */
module LogTermination {
  import opened LogChannel
  import opened LogSafety
  import opened LogProgress
  import opened LogDeadlock

  function SenderWork(sys: System, i: nat, pc: SenderPc): nat {
    var n := |Rec(sys, i)|;
    match pc
    case Outside => n + 6
    case Locked => n + 5
    case Counted => n + 4
    case Sending(sent) => if sent <= n then n - sent + 3 else 3
    case Signalled => 1
    case Finished => 0
  }

  function Work(sys: System, senders: seq<SenderPc>): nat {
    if senders == [] then 0
    else Work(sys, senders[..|senders| - 1]) + SenderWork(sys, |senders| - 1, senders[|senders| - 1])
  }

  function Phase(pc: LoggerPc): nat {
    match pc
    case Starting => 4
    case Entering => 3
    case Woken => 2
    case Draining => 1
    case Reading(_, _) => 1
    case Asleep => 0
  }

  /** `longest` bounds the records of the system. */
  ghost predicate NoLonger(sys: System, longest: nat) {
    forall i :: 0 <= i < |sys.records| ==> |sys.records[i]| <= longest
  }

  /** What is left to do: the senders' steps, each of which may give the logger a whole drain to do; the logger's
      `turns`, one for each phase before its next drain and one for each counted record; then, inside the drain,
      whether a record is yet to be started, and the bytes missing from the record being read. */
  datatype Rest = Rest(work: nat, turns: int, between: bool, missing: int)

  function RestOf(sys: System, s: State): Rest {
    Rest(Work(sys, s.senders), Phase(s.logger) + s.cont, s.logger.Draining?,
         if s.logger.Reading? then s.logger.len - |s.logger.got| else 0)
  }

  function FuelFor(longest: nat, r: Rest): int {
    (3 * longest + 20) * r.work + (longest + 5) * r.turns + (if r.between then longest + 2 else 0) + r.missing
  }

  function Fuel(sys: System, longest: nat, s: State): int { FuelFor(longest, RestOf(sys, s)) }

  /** What a spurious wake-up adds: the logger comes round once more. */
  function SpuriousFuel(longest: nat): nat { 2 * longest + 10 }

  lemma {:induction false} WorkUpdate(sys: System, senders: seq<SenderPc>, i: nat, pc: SenderPc)
    requires i < |senders|
    ensures Work(sys, senders[i := pc]) ==
            Work(sys, senders) - SenderWork(sys, i, senders[i]) + SenderWork(sys, i, pc)
    decreases |senders|
  {
    var n := |senders| - 1;
    if i < n {
      assert senders[i := pc][..n] == senders[..n][i := pc];
      WorkUpdate(sys, senders[..n], i, pc);
    } else {
      assert senders[i := pc][..n] == senders[..n];
    }
  }

  lemma SenderMovesOn(sys: System, s: State, a: Action)
    requires Enabled(sys, s, a) && OfSender(a)
    ensures var senders := Apply(sys, s, a).senders;
            && a.i < |s.senders| == |senders| && senders == s.senders[a.i := senders[a.i]]
            && SenderWork(sys, a.i, senders[a.i]) < SenderWork(sys, a.i, s.senders[a.i])
  {
  }

  lemma SenderStepsDescend(sys: System, s: State, a: Action)
    requires Enabled(sys, s, a) && OfSender(a)
    ensures Work(sys, Apply(sys, s, a).senders) < Work(sys, s.senders)
  {
    SenderMovesOn(sys, s, a);
    WorkUpdate(sys, s.senders, a.i, Apply(sys, s, a).senders[a.i]);
  }

  /** A sender's step gives the logger at most one more record and one more wake-up to deal with. */
  ghost predicate SenderStep(r: Rest, r': Rest) {
    r'.work < r.work && r'.turns <= r.turns + 2 && r'.between == r.between && r'.missing == r.missing
  }

  /** A step of the logger takes it one turn further, or further inside a record of at most `longest` bytes. */
  ghost predicate LoggerStep(longest: nat, r: Rest, r': Rest) {
    && r'.work == r.work && r'.turns <= r.turns
    && (r'.turns < r.turns ==> r'.missing == r.missing)
    && (r'.turns == r.turns && r.between ==> !r'.between && r'.missing <= r.missing + longest)
    && (r'.turns == r.turns && !r.between ==> !r'.between && r'.missing < r.missing)
  }

  lemma SenderStepRest(sys: System, s: State, a: Action)
    requires Enabled(sys, s, a) && OfSender(a)
    ensures SenderStep(RestOf(sys, s), RestOf(sys, Apply(sys, s, a)))
  {
    SenderStepsDescend(sys, s, a);
  }

  lemma ReadLengthRest(sys: System, longest: nat, s: State)
    requires ValidSystem(sys) && Inv(sys, s) && NoLonger(sys, longest) && Enabled(sys, s, ReadLength)
    ensures LoggerStep(longest, RestOf(sys, s), RestOf(sys, Apply(sys, s, ReadLength)))
  {
    var t := Apply(sys, s, ReadLength);
    ReadLengthInv(sys, s);
    assert t.senders == s.senders && t.cont == s.cont && t.logger.got == "";
    assert t.logger.len == |Rec(sys, t.order[t.logged])| <= longest;
  }

  lemma LoggerStepRest(sys: System, longest: nat, s: State, a: Action)
    requires Enabled(sys, s, a) && !OfSender(a) && !a.Spurious? && !a.ReadLength?
    ensures LoggerStep(longest, RestOf(sys, s), RestOf(sys, Apply(sys, s, a)))
  {
    assert Apply(sys, s, a).senders == s.senders;
  }

  lemma Fewer(c: nat, x: int, y: int, d: int)
    requires x <= y + d
    ensures c * x <= c * y + c * d
  {
    assert c * x <= c * (y + d) == c * y + c * d;
  }

  lemma SenderStepBurns(longest: nat, r: Rest, r': Rest)
    requires SenderStep(r, r')
    ensures FuelFor(longest, r') < FuelFor(longest, r)
  {
    Fewer(3 * longest + 20, r'.work, r.work, -1);
    Fewer(longest + 5, r'.turns, r.turns, 2);
  }

  lemma LoggerStepBurns(longest: nat, r: Rest, r': Rest)
    requires LoggerStep(longest, r, r')
    ensures FuelFor(longest, r') < FuelFor(longest, r)
  {
    if r'.turns < r.turns {
      Fewer(longest + 5, r'.turns, r.turns, -1);
    }
  }

  lemma SpuriousRefuels(sys: System, longest: nat, s: State)
    requires Enabled(sys, s, Action.Spurious)
    ensures Fuel(sys, longest, Apply(sys, s, Action.Spurious)) == Fuel(sys, longest, s) + SpuriousFuel(longest)
  {
    var r, r' := RestOf(sys, s), RestOf(sys, Apply(sys, s, Action.Spurious));
    assert r' == r.(turns := r.turns + 2);
    assert (longest + 5) * r'.turns == (longest + 5) * r.turns + 2 * (longest + 5);
  }

  /** Every step but a spurious wake-up brings the run closer to its end, by a measure on integers. */
  lemma StepsDescend(sys: System, longest: nat, s: State, a: Action)
    requires ValidSystem(sys) && Inv(sys, s) && NoLonger(sys, longest) && Enabled(sys, s, a) && !a.Spurious?
    ensures 0 <= Fuel(sys, longest, Apply(sys, s, a)) < Fuel(sys, longest, s)
  {
    var t := Apply(sys, s, a);
    StepInv(sys, s, a);
    FuelIsNatural(sys, longest, t);
    if OfSender(a) {
      SenderStepRest(sys, s, a);
      SenderStepBurns(longest, RestOf(sys, s), RestOf(sys, t));
    } else {
      if a.ReadLength? { ReadLengthRest(sys, longest, s); } else { LoggerStepRest(sys, longest, s, a); }
      LoggerStepBurns(longest, RestOf(sys, s), RestOf(sys, t));
    }
  }

  lemma FuelIsNatural(sys: System, longest: nat, s: State)
    requires Inv(sys, s)
    ensures Fuel(sys, longest, s) >= 0
  {
    CountsUp(sys, s);
    NoNegativeFuel(longest, RestOf(sys, s));
  }

  lemma CountsUp(sys: System, s: State)
    requires Inv(sys, s)
    ensures RestOf(sys, s).turns >= 0 && RestOf(sys, s).missing >= 0
  {
  }

  lemma NoNegativeFuel(longest: nat, r: Rest)
    requires r.turns >= 0 && r.missing >= 0
    ensures FuelFor(longest, r) >= 0
  {
    assert (longest + 5) * r.turns >= 0 && (3 * longest + 20) * r.work >= 0;
  }

  /** How many wake-ups of a run are spurious. */
  function SpuriousIn(acts: seq<Action>): nat {
    if acts == [] then 0 else (if acts[0].Spurious? then 1 else 0) + SpuriousIn(acts[1..])
  }

  /** What the spurious wake-ups of a run add to its length. */
  function Extra(longest: nat, acts: seq<Action>): nat { (SpuriousFuel(longest) + 1) * SpuriousIn(acts) }

  lemma ExtraStep(longest: nat, acts: seq<Action>)
    requires acts != []
    ensures Extra(longest, acts) ==
            (if acts[0].Spurious? then SpuriousFuel(longest) + 1 else 0) + Extra(longest, acts[1..])
  {
    var c, n := SpuriousFuel(longest) + 1, SpuriousIn(acts[1..]);
    assert c * (1 + n) == c + c * n;
  }

  /** The fuel pays for every step of a run, except for a fixed number of steps for each spurious wake-up. */
  lemma {:induction false} RunsUseFuel(sys: System, longest: nat, s: State, acts: seq<Action>, t: State)
    requires ValidSystem(sys) && Inv(sys, s) && NoLonger(sys, longest) && Runs(sys, s, acts, t)
    ensures |acts| + Fuel(sys, longest, t) <= Fuel(sys, longest, s) + Extra(longest, acts)
    decreases |acts|
  {
    if acts != [] {
      if acts[0].Spurious? {
        SpuriousRefuels(sys, longest, s);
      } else {
        StepsDescend(sys, longest, s, acts[0]);
      }
      ExtraStep(longest, acts);
      StepInv(sys, s, acts[0]);
      RunsUseFuel(sys, longest, Apply(sys, s, acts[0]), acts[1..], t);
    }
  }

  // How much fuel there is at the start

  lemma {:induction false} WorkAtStart(sys: System, n: nat)
    requires n <= |sys.records|
    ensures Work(sys, seq(n, _ => Outside)) == |Lines(sys, Ids(n))| + 6 * n
  {
    if n > 0 {
      assert seq(n, _ => Outside)[..n - 1] == seq(n - 1, _ => Outside);
      WorkAtStart(sys, n - 1);
      LinesAppend(sys, Ids(n - 1), n - 1);
    }
  }

  /** The most steps that a run can have when no wake-up is spurious. */
  function MostSteps(sys: System, longest: nat): nat {
    (3 * longest + 20) * (|Lines(sys, Ids(|sys.records|))| + 6 * |sys.records|) + 4 * (longest + 5)
  }

  lemma FuelAtStart(sys: System, longest: nat)
    ensures Fuel(sys, longest, Init(sys)) == MostSteps(sys, longest)
  {
    WorkAtStart(sys, |sys.records|);
    var r := RestOf(sys, Init(sys));
    assert r == Rest(|Lines(sys, Ids(|sys.records|))| + 6 * |sys.records|, 4, false, 0);
  }

  /** No run is longer than the records allow, however its threads are scheduled and however its reads and writes are
      cut up, except for a fixed number of steps for each spurious wake-up. */
  lemma RunsAreBounded(sys: System, longest: nat, acts: seq<Action>, t: State)
    requires ValidSystem(sys) && NoLonger(sys, longest) && Runs(sys, Init(sys), acts, t)
    ensures |acts| <= MostSteps(sys, longest) + (2 * longest + 11) * SpuriousIn(acts)
  {
    InitInv(sys);
    FuelAtStart(sys, longest);
    RunsUseFuel(sys, longest, Init(sys), acts, t);
    RunsInv(sys, Init(sys), acts, t);
    FuelIsNatural(sys, longest, t);
  }

  function Longest(records: seq<string>): (n: nat)
    ensures forall i :: 0 <= i < |records| ==> |records[i]| <= n
  {
    if records == [] then 0
    else
      var n := Longest(records[1..]);
      assert forall i :: 1 <= i < |records| ==> records[i] == records[1..][i - 1];
      if |records[0]| > n then |records[0]| else n
  }

  ghost predicate NoSpurious(acts: seq<Action>) {
    forall k :: 0 <= k < |acts| ==> !acts[k].Spurious?
  }

  /** From every reachable state some run without spurious wake-ups reaches an end. */
  lemma {:induction false} ReachesAnEnd(sys: System, s: State) returns (acts: seq<Action>, t: State)
    requires ValidSystem(sys) && Reachable(sys, s)
    ensures Runs(sys, s, acts, t) && NoSpurious(acts) && Reachable(sys, t) && Terminal(sys, t)
    decreases Fuel(sys, Longest(sys.records), s)
  {
    ReachableInv(sys, s);
    if AllDone(s) || Blocked(sys, s) {
      TerminalIff(sys, s);
      return [], s;
    }
    SomebodyMoves(sys, s);
    var a :| Enabled(sys, s, a) && !a.Spurious?;
    StepsDescend(sys, Longest(sys.records), s, a);
    ReachableStep(sys, s, a);
    var rest;
    rest, t := ReachesAnEnd(sys, Apply(sys, s, a));
    acts := [a] + rest;
    assert acts[1..] == rest;
  }

  /** When the pipe has room for every frame at once, no run can end before every sender is done; and if the logger has
      been woken by then, the file is every record in lock order. */
  lemma EndsComplete(sys: System, s: State)
    requires ValidSystem(sys) && |Frames(sys, Ids(|sys.records|))| <= sys.capacity
    requires Reachable(sys, s) && Terminal(sys, s)
    ensures AllDone(s) && |s.order| == |sys.records| && Distinct(s.order)
    ensures s.awoken ==> s.file == Lines(sys, s.order)
    ensures !s.awoken ==> s.file == "" && s.lost == |sys.records|
  {
    ReachableInv(sys, s);
    TerminalIff(sys, s);
    if Blocked(sys, s) { DeadlockIff(sys); }
    DoneMeansDelivered(sys, s);
  }
}
