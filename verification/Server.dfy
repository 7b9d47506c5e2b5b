/** The server process: reloading on SIGHUP, rebinding the listening socket, and the copy of the settings that every
    client gets. */
module Server {
  import opened Text
  import opened Config

  /** The listening sockets of the server process, by descriptor, with the port each is bound to, and the ports that
      other processes listen on: a forked child keeps a copy of the socket that was open when it was forked. */
  class Kernel {
    var open: map<int, int>
    var elsewhere: set<int>

    constructor ()
      ensures open == map[] && elsewhere == {}
    {
      open, elsewhere := map[], {};
    }

    /** `open_socket`, as far as it binds and listens on the port of the settings. A port that some process still
        listens on is busy, and the process exits. `fd` is the free descriptor that the kernel picks, possibly one
        that has just been closed. */
    method OpenSocket(settings: Settings, fd: int) returns (exits: bool, r: int)
      requires fd !in open
      modifies this`open
      ensures exits <==> settings.port in old(open).Values || settings.port in elsewhere
      ensures !exits ==> r == fd && open == old(open)[fd := settings.port]
    {
      if settings.port in open.Values || settings.port in elsewhere {
        return true, -1;
      }
      open := open[fd := settings.port];
      return false, fd;
    }

    method Close(fd: int)
      modifies this`open
      ensures open == old(open) - {fd}
    {
      open := open - {fd};
    }
  }

  /** One listening socket of the process is open, and it is bound to the port of the settings. */
  ghost predicate Listening(settings: Settings, kernel: Kernel)
    reads settings, kernel
  {
    kernel.open == map[settings.socket := settings.port]
  }

  /** The reload ends the process: a line names port zero, or the socket has to be replaced and another process
      listens on the port named last. */
  predicate ReloadExits(lines: seq<string>, port: int, elsewhere: set<int>) {
    NamesZero(lines) || (Differs(NamedPorts(lines), port) && LastOr(NamedPorts(lines), port) in elsewhere)
  }

  /** `universal_handler`: the socket is replaced if and only if some port line differed, and is bound to the settings'
      port again when the handler returns. */
  method UniversalHandler(settings: Settings, fp: File, kernel: Kernel, fd: int) returns (exits: bool)
    requires Listening(settings, kernel) && NUL !in fp.content
    modifies settings`port, settings`socket, fp, kernel`open
    ensures exits <==> ReloadExits(Pieces(old(fp.content)), old(settings.port), kernel.elsewhere)
    ensures !exits ==>
              var ports := NamedPorts(Pieces(old(fp.content)));
              && Listening(settings, kernel)
              && settings.port == LastOr(ports, old(settings.port))
              && settings.socket == if Differs(ports, old(settings.port)) then fd else old(settings.socket)
  {
    var portChange;
    exits, portChange := ReadAndCheckConf(settings, fp);
    if exits {
      return true;
    }
    if portChange {
      kernel.Close(settings.socket);
      assert kernel.open == map[];
      var socket;
      exits, socket := kernel.OpenSocket(settings, fd);
      if !exits { settings.socket := socket; }
    } else {
      ReloadKeepsPortsValid(Pieces(old(fp.content)), old(settings.port));
    }
  }

  // Runs of the server: reloads may interrupt the main thread anywhere

  datatype Snapshot = Snapshot(port: int, socket: int)

  /** A client with its copy of the settings and, for the record, the port of the socket it was accepted on. */
  datatype ClientInfo = ClientInfo(settings: Snapshot, acceptedOn: int)

  /** Where the main thread is in `listen_descriptor` and `accept_wrapper`. */
  datatype Pc =
    | Waiting                // in select
    | Looping                // at the top of the accept loop
    | Copied(copy: Snapshot) // settings copied into client_info, accept not yet called
    | Exited                 // the process has ended

  /** `ignoring`: SIGHUP is ignored by the process, which a thread of it brings about with `signal(SIGHUP, SIG_IGN)`.
      `children`: for each client whose child process lives, the port of the listening socket that this process
      inherited and never closes. */
  datatype State = State(port: int, socket: int, mode: char, open: map<int, int>, pc: Pc, clients: seq<ClientInfo>,
                         ignoring: bool, children: map<nat, int>)

  datatype Action =
    | Reload(lines: seq<string>, fd: int)
    | SelectReturns
    | Copy
    | Accept
    | AcceptNothing
    | ThreadStarts
    | ChildExits(client: nat)

  predicate Enabled(s: State, a: Action) {
    match a
    case Reload(lines, fd) => !s.pc.Exited? && !s.ignoring && fd !in s.open - {s.socket}
    case SelectReturns => s.pc.Waiting?
    case Copy => s.pc.Looping?
    case Accept => s.pc.Copied? && s.socket in s.open
    case AcceptNothing => s.pc.Copied?
    case ThreadStarts => !s.pc.Exited? && s.mode == 't' && s.clients != []
    case ChildExits(client) => client in s.children
  }

  function Apply(s: State, a: Action): State
    requires Enabled(s, a)
  {
    match a
    case Reload(lines, fd) =>
      var ports := NamedPorts(lines);
      var port := LastOr(ports, s.port);
      if ReloadExits(lines, s.port, s.children.Values) then s.(pc := Exited, open := map[])
      else if Differs(ports, s.port) then s.(port := port, socket := fd, open := (s.open - {s.socket})[fd := port])
      else s.(port := port)
    case SelectReturns => s.(pc := Looping)
    case Copy => s.(pc := Copied(Snapshot(s.port, s.socket)))
    case Accept =>
      s.(pc := Looping, clients := s.clients + [ClientInfo(s.pc.copy, s.open[s.socket])],
         children := if s.mode == 'p' then s.children[|s.clients| := s.open[s.socket]] else s.children)
    case AcceptNothing => s.(pc := Waiting)
    case ThreadStarts => s.(ignoring := true)
    case ChildExits(client) => s.(children := s.children - {client})
  }

  ghost predicate Start(s: State) {
    && IsValidPort(s.port) && s.open == map[s.socket := s.port]
    && s.pc.Waiting? && s.clients == [] && !s.ignoring && s.children == map[]
  }

  ghost predicate Runs(s: State, acts: seq<Action>, t: State)
    decreases |acts|
  {
    if acts == [] then s == t else Enabled(s, acts[0]) && Runs(Apply(s, acts[0]), acts[1..], t)
  }

  lemma {:induction false} RunsSplit(s: State, acts: seq<Action>, more: seq<Action>, t: State) returns (u: State)
    requires Runs(s, acts + more, t)
    ensures Runs(s, acts, u) && Runs(u, more, t)
    decreases |acts|
  {
    if acts == [] {
      assert acts + more == more;
      u := s;
    } else {
      assert (acts + more)[1..] == acts[1..] + more;
      u := RunsSplit(Apply(s, acts[0]), acts[1..], more, t);
    }
  }

  lemma RunsFirst(s: State, a: Action, rest: seq<Action>, t: State)
    ensures Runs(s, [a] + rest, t) <==> Enabled(s, a) && Runs(Apply(s, a), rest, t)
  {
    assert ([a] + rest)[1..] == rest;
  }

  /** Every reload of the run happens while the main thread waits in select. */
  ghost predicate ReloadsOnlyWaiting(s: State, acts: seq<Action>)
    decreases |acts|
  {
    acts == [] ||
    (Enabled(s, acts[0]) && (acts[0].Reload? ==> s.pc.Waiting?) && ReloadsOnlyWaiting(Apply(s, acts[0]), acts[1..]))
  }

  ghost predicate Bound(s: State) {
    IsValidPort(s.port) && s.open == map[s.socket := s.port]
  }

  /** The copy about to be handed out is current, and every client's copy names the port it was accepted on. */
  ghost predicate CopiesMatch(s: State) {
    && (s.pc.Copied? ==> s.pc.copy == Snapshot(s.port, s.socket))
    && forall k :: 0 <= k < |s.clients| ==> s.clients[k].settings.port == s.clients[k].acceptedOn
  }

  lemma BoundStep(s: State, a: Action)
    requires (s.pc.Exited? || Bound(s)) && Enabled(s, a)
    ensures var t := Apply(s, a); t.pc.Exited? || Bound(t)
  {
    if a.Reload? {
      ReloadKeepsPortsValid(a.lines, s.port);
    }
  }

  /** In every run, wherever reloads strike: as long as the process lives, exactly one listening socket of it is open
      after each step, bound to the port of the settings, which is a valid port. */
  lemma {:induction false} AlwaysBound(s: State, acts: seq<Action>, t: State)
    requires (s.pc.Exited? || Bound(s)) && Runs(s, acts, t)
    ensures t.pc.Exited? || Bound(t)
    decreases |acts|
  {
    if acts != [] {
      BoundStep(s, acts[0]);
      AlwaysBound(Apply(s, acts[0]), acts[1..], t);
    }
  }

  // What the files of a run say

  function NamedIn(a: Action): seq<int> {
    if a.Reload? then NamedPorts(a.lines) else []
  }

  /** The ports in 1..65535 that the files of all reloads name, in order. */
  function NamedBy(acts: seq<Action>): seq<int> {
    if acts == [] then []
    else NamedIn(acts[0]) + NamedBy(acts[1..])
  }

  function Accepts(acts: seq<Action>): nat {
    if acts == [] then 0 else (if acts[0].Accept? then 1 else 0) + Accepts(acts[1..])
  }

  lemma LastOrConcat(a: seq<int>, b: seq<int>, port: int)
    ensures LastOr(a + b, port) == LastOr(b, LastOr(a, port))
  {
    if b == [] { assert a + b == a; }
  }

  lemma PortAfter(s: State, a: Action)
    requires Enabled(s, a) && !Apply(s, a).pc.Exited?
    ensures !s.pc.Exited? && Apply(s, a).port == LastOr(NamedIn(a), s.port)
  {
    if a.Reload? && !Differs(NamedPorts(a.lines), s.port) {
      ReloadKeepsPortsValid(a.lines, s.port);
    }
  }

  /** The port of the settings is always the one named last in the files read so far. */
  lemma {:induction false} PortIsLastNamed(s: State, acts: seq<Action>, t: State)
    requires Runs(s, acts, t) && !t.pc.Exited?
    ensures !s.pc.Exited? && t.port == LastOr(NamedBy(acts), s.port)
    decreases |acts|
  {
    if acts != [] {
      var a := acts[0];
      PortIsLastNamed(Apply(s, a), acts[1..], t);
      PortAfter(s, a);
      LastOrConcat(NamedIn(a), NamedBy(acts[1..]), s.port);
    }
  }

  /** Each accept adds one client, and what a client was given never changes, whatever is reloaded later. */
  lemma {:induction false} SnapshotsArePermanent(s: State, acts: seq<Action>, t: State)
    requires Runs(s, acts, t)
    ensures s.clients <= t.clients && |t.clients| == |s.clients| + Accepts(acts)
    decreases |acts|
  {
    if acts != [] {
      SnapshotsArePermanent(Apply(s, acts[0]), acts[1..], t);
    }
  }

  /** If reloads happen only while the server waits in select, every client's copy of the settings names the port of the
      socket on which that client was accepted. */
  lemma {:induction false} SnapshotsMatch(s: State, acts: seq<Action>, t: State)
    requires (s.pc.Exited? || Bound(s)) && CopiesMatch(s) && Runs(s, acts, t) && ReloadsOnlyWaiting(s, acts)
    ensures CopiesMatch(t)
    decreases |acts|
  {
    if acts != [] {
      BoundStep(s, acts[0]);
      SnapshotsMatch(Apply(s, acts[0]), acts[1..], t);
    }
  }

  /** Between making the copy and the return of accept. */
  ghost predicate WhileAccepting(acts: seq<Action>) {
    forall k :: 0 <= k < |acts| ==> !acts[k].Accept? && !acts[k].AcceptNothing?
  }

  lemma {:induction false} CopyIsKept(s: State, acts: seq<Action>, t: State)
    requires s.pc.Copied? && WhileAccepting(acts) && Runs(s, acts, t) && !t.pc.Exited?
    ensures t.pc == s.pc
    decreases |acts|
  {
    if acts != [] {
      var u := Apply(s, acts[0]);
      PortIsLastNamed(u, acts[1..], t);
      assert WhileAccepting(acts[1..]);
      CopyIsKept(u, acts[1..], t);
    }
  }

  // The main thread

  predicate OfMainThread(a: Action) { a.SelectReturns? || a.Copy? || a.Accept? || a.AcceptNothing? }

  /** The order of the statements in `listen_descriptor` and in the loop of `accept_wrapper`, which goes round again
      after each client and ends when there is none. */
  predicate Follows(a: Action, b: Action) {
    match a
    case SelectReturns => b.Copy?
    case Copy => b.Accept? || b.AcceptNothing?
    case Accept => b.Copy?
    case AcceptNothing => b.SelectReturns?
    case _ => false
  }

  lemma {:induction false} OthersKeepPc(s: State, acts: seq<Action>, t: State)
    requires Runs(s, acts, t) && !t.pc.Exited? && forall k :: 0 <= k < |acts| ==> !OfMainThread(acts[k])
    ensures t.pc == s.pc
    decreases |acts|
  {
    if acts != [] {
      PortIsLastNamed(Apply(s, acts[0]), acts[1..], t);
      OthersKeepPc(Apply(s, acts[0]), acts[1..], t);
    }
  }

  /** After a step of the main thread, whatever signals, threads and children do meanwhile, its next step is the one
      that follows in the code. */
  lemma MainThreadFollows(s: State, a: Action, during: seq<Action>, t: State, b: Action)
    requires Bound(s) && OfMainThread(a) && OfMainThread(b) && Runs(s, [a] + during, t) && !t.pc.Exited?
    requires forall k :: 0 <= k < |during| ==> !OfMainThread(during[k])
    ensures Enabled(t, b) <==> Follows(a, b)
  {
    RunsFirst(s, a, during, t);
    AlwaysBound(s, [a] + during, t);
    OthersKeepPc(Apply(s, a), during, t);
  }

  /** A copy, whatever happens until the accept, the accept, and the rest of a run. */
  function Around(during: seq<Action>, after: seq<Action>): seq<Action> {
    [Copy] + (during + ([Accept] + after))
  }

  lemma AcceptedFromCopy(u: State, during: seq<Action>, after: seq<Action>, t: State)
    requires (u.pc.Exited? || Bound(u)) && WhileAccepting(during) && Runs(u, Around(during, after), t)
    ensures !u.pc.Exited?
    ensures |u.clients| < |t.clients|
    ensures t.clients[|u.clients|].settings == Snapshot(u.port, u.socket)
    ensures t.clients[|u.clients|].acceptedOn == LastOr(NamedBy(during), u.port)
  {
    RunsFirst(u, Copy, during + ([Accept] + after), t);
    var v := Apply(u, Copy);
    var w := RunsSplit(v, during, [Accept] + after, t);
    RunsFirst(w, Accept, after, t);
    PortIsLastNamed(v, during, w);
    CopyIsKept(v, during, w);
    AlwaysBound(v, during, w);
    SnapshotsArePermanent(v, during, w);
    assert Accepts(during) == 0 by { NoAccepts(during); }
    SnapshotsArePermanent(Apply(w, Accept), after, t);
  }

  lemma {:induction false} NoAccepts(acts: seq<Action>)
    requires WhileAccepting(acts)
    ensures Accepts(acts) == 0
  {
    if acts != [] {
      assert WhileAccepting(acts[1..]);
      NoAccepts(acts[1..]);
    }
  }

  lemma CopiedBefore(s: State, before: seq<Action>, u: State)
    requires Runs(s, before, u) && !u.pc.Exited?
    ensures |u.clients| == |s.clients| + Accepts(before) && u.port == LastOr(NamedBy(before), s.port)
  {
    PortIsLastNamed(s, before, u);
    SnapshotsArePermanent(s, before, u);
  }

  /** The copy that client `k` got names `port`; it names the port that the client was accepted on if and only if what
      is `named` in between leads back to `port`. */
  ghost predicate MatchesIffBack(t: State, k: nat, port: int, named: seq<int>) {
    && k < |t.clients|
    && t.clients[k].settings.port == port
    && (t.clients[k].settings.port == t.clients[k].acceptedOn <==> LastOr(named, port) == port)
  }

  lemma CopiedThenAccepted(s: State, before: seq<Action>, u: State, during: seq<Action>, after: seq<Action>, t: State)
    requires Bound(s) && WhileAccepting(during) && Runs(s, before, u) && Runs(u, Around(during, after), t)
    ensures MatchesIffBack(t, |s.clients| + Accepts(before), LastOr(NamedBy(before), s.port), NamedBy(during))
  {
    AlwaysBound(s, before, u);
    AcceptedFromCopy(u, during, after, t);
    CopiedBefore(s, before, u);
  }

  /** In any run, a client's copy of the settings names the port that was named last before the copy was made; the
      client was accepted on the port that is named last, if any is, by the files read between the copy and the
      accept. So the two agree if and only if those files together lead back to the port of the copy. */
  lemma AcceptedCopyMatchesIff(s: State, before: seq<Action>, during: seq<Action>, after: seq<Action>, t: State)
    requires Bound(s) && WhileAccepting(during) && Runs(s, before + Around(during, after), t)
    ensures MatchesIffBack(t, |s.clients| + Accepts(before), LastOr(NamedBy(before), s.port), NamedBy(during))
  {
    var u := RunsSplit(s, before, Around(during, after), t);
    CopiedThenAccepted(s, before, u, during, after, t);
  }

  lemma MovedTo(s: State, lines: seq<string>, port: int)
    requires Bound(s) && !s.ignoring && s.children == map[] && !s.pc.Exited?
    requires NamedPorts(lines) == [port] && !NamesZero(lines) && port != s.port
    ensures Enabled(s, Reload(lines, s.socket))
    ensures Apply(s, Reload(lines, s.socket)) == s.(port := port, open := map[s.socket := port])
  {
    assert s.open - {s.socket} == map[];
    assert NamedPorts(lines)[0] != s.port;
  }

  /** The last client got this copy, and the only socket that listens is bound to `port`. */
  ghost predicate LeftWith(t: State, copy: Snapshot, port: int) {
    t.clients == [ClientInfo(copy, port)] && t.port == port && t.open == map[t.socket := port]
  }

  lemma AcceptsAfterMove(s: State, lines: seq<string>, port: int) returns (t: State)
    requires Bound(s) && !s.ignoring && s.children == map[] && s.clients == [] && s.pc.Copied?
    requires NamedPorts(lines) == [port] && !NamesZero(lines) && port != s.port
    ensures Runs(s, [Reload(lines, s.socket)] + ([Accept] + []), t) && LeftWith(t, s.pc.copy, port)
  {
    MovedTo(s, lines, port);
    var u := Apply(s, Reload(lines, s.socket));
    t := Apply(u, Accept);
    RunsFirst(u, Accept, [], t);
    RunsFirst(s, Reload(lines, s.socket), [Accept] + [], t);
  }

  lemma MisledClient(s: State, line: string, port: int) returns (acts: seq<Action>, t: State)
    requires Start(s) && NamedPorts([line]) == [port] && !NamesZero([line]) && port != s.port
    ensures Runs(s, acts, t) && LeftWith(t, Snapshot(s.port, s.socket), port)
  {
    var s1 := Apply(s, SelectReturns);
    var s2 := Apply(s1, Copy);
    t := AcceptsAfterMove(s2, [line], port);
    var rest := [Reload([line], s2.socket)] + ([Accept] + []);
    RunsFirst(s1, Copy, rest, t);
    RunsFirst(s, SelectReturns, [Copy] + rest, t);
    acts := [SelectReturns] + ([Copy] + rest);
  }

  /** The restriction to select is needed: a reload between copying the settings and accepting leaves a client with a
      port that the server does not listen on any more. */
  lemma ReloadDuringAcceptMisleads(s: State, port: int)
    requires Start(s) && IsValidPort(port) && port != s.port
    ensures exists acts, t :: Runs(s, acts, t) && LeftWith(t, Snapshot(s.port, s.socket), port)
  {
    var line := S_PORT + " " + Decimal(port);
    PortLineNamesIt(line, port);
    var acts, t := MisledClient(s, line, port);
  }

  // When a reload ends the process

  /** Each live child belongs to a client, and what it inherited is the socket that this client was accepted on. */
  ghost predicate ChildrenAreOfClients(s: State) {
    forall c :: c in s.children ==> c < |s.clients| && s.children[c] == s.clients[c].acceptedOn
  }

  lemma ChildrenStep(s: State, a: Action)
    requires ChildrenAreOfClients(s) && Enabled(s, a)
    ensures ChildrenAreOfClients(Apply(s, a)) && Apply(s, a).mode == s.mode
  {
  }

  lemma {:induction false} ChildrenOfRun(s: State, acts: seq<Action>, t: State)
    requires ChildrenAreOfClients(s) && Runs(s, acts, t)
    ensures ChildrenAreOfClients(t)
    decreases |acts|
  {
    if acts != [] {
      ChildrenStep(s, acts[0]);
      ChildrenOfRun(Apply(s, acts[0]), acts[1..], t);
    }
  }

  lemma LivesStep(s: State, a: Action, c: nat)
    requires Enabled(s, a)
    ensures var u := Apply(s, a);
            && u.mode == s.mode && |u.clients| == |s.clients| + (if a.Accept? then 1 else 0)
            && (c in u.children <==>
                  a != ChildExits(c) && (c in s.children || (a.Accept? && s.mode == 'p' && c == |s.clients|)))
  {
  }

  /** A client's child lives if it lived before the run or was forked in it, and has not ended in it. */
  lemma {:induction false} LivesIff(s: State, acts: seq<Action>, t: State, c: nat)
    requires ChildrenAreOfClients(s) && Runs(s, acts, t)
    ensures c in t.children <==>
            ChildExits(c) !in acts &&
            (c in s.children || (s.mode == 'p' && |s.clients| <= c < |s.clients| + Accepts(acts)))
    decreases |acts|
  {
    if acts != [] {
      ChildrenStep(s, acts[0]);
      LivesStep(s, acts[0], c);
      LivesIff(Apply(s, acts[0]), acts[1..], t, c);
      assert ChildExits(c) in acts <==> acts[0] == ChildExits(c) || ChildExits(c) in acts[1..];
    }
  }

  lemma RunsLast(s: State, acts: seq<Action>, a: Action, t: State) returns (u: State)
    requires Runs(s, acts + [a], t)
    ensures Runs(s, acts, u) && Enabled(u, a) && t == Apply(u, a)
  {
    u := RunsSplit(s, acts, [a], t);
    assert [a][1..] == [];
  }

  /** A client accepted on `port` whose child process has not ended. */
  ghost predicate LiveChildOn(mode: char, clients: seq<ClientInfo>, acts: seq<Action>, port: int) {
    mode == 'p' && exists c :: 0 <= c < |clients| && ChildExits(c) !in acts && clients[c].acceptedOn == port
  }

  lemma InheritedIff(s: State, acts: seq<Action>, u: State, port: int)
    requires Start(s) && Runs(s, acts, u)
    ensures port in u.children.Values <==> LiveChildOn(s.mode, u.clients, acts, port)
  {
    ChildrenOfRun(s, acts, u);
    SnapshotsArePermanent(s, acts, u);
    if port in u.children.Values {
      var c :| c in u.children && u.children[c] == port;
      LivesIff(s, acts, u, c);
    }
    if LiveChildOn(s.mode, u.clients, acts, port) {
      var c :| 0 <= c < |u.clients| && ChildExits(c) !in acts && u.clients[c].acceptedOn == port;
      LivesIff(s, acts, u, c);
    }
  }

  /** In any run, a reload ends the server if and only if its file names port zero, or, in process mode, a port other
      than the current one and, last, a port that a client was accepted on whose child still lives. The current port
      is the one named last so far. */
  lemma ReloadEndsIff(s: State, acts: seq<Action>, a: Action, t: State)
    requires Start(s) && a.Reload? && Runs(s, acts + [a], t)
    ensures var port := LastOr(NamedBy(acts), s.port);
            t.pc.Exited? <==>
            NamesZero(a.lines) ||
            (Differs(NamedPorts(a.lines), port) &&
             LiveChildOn(s.mode, t.clients, acts, LastOr(NamedPorts(a.lines), port)))
  {
    var u := RunsLast(s, acts, a, t);
    PortIsLastNamed(s, acts, u);
    InheritedIff(s, acts, u, LastOr(NamedPorts(a.lines), u.port));
    assert t.clients == u.clients;
  }

  /** Reloads are all that ends the server: an ended run has a last action of the server process, a reload in its living
      state that ended it, for the reasons that `ReloadEndsIff` gives. */
  lemma {:induction false} ExitHasACause(s: State, acts: seq<Action>, t: State) returns (k: nat, u: State)
    requires !s.pc.Exited? && Runs(s, acts, t) && t.pc.Exited?
    ensures k < |acts| && Runs(s, acts[..k], u) && !u.pc.Exited? && Enabled(u, acts[k])
    ensures acts[k].Reload? && Apply(u, acts[k]).pc.Exited?
    ensures ReloadExits(acts[k].lines, u.port, u.children.Values)
    ensures forall j :: k < j < |acts| ==> acts[j].ChildExits?
    decreases |acts|
  {
    var next := Apply(s, acts[0]);
    if next.pc.Exited? {
      k, u := 0, s;
      OnlyChildrenExit(next, acts[1..], t);
      assert forall j :: 0 < j < |acts| ==> acts[j] == acts[1..][j - 1];
    } else {
      k, u := ExitHasACause(next, acts[1..], t);
      assert acts[..k + 1] == [acts[0]] + acts[1..][..k];
      RunsFirst(s, acts[0], acts[1..][..k], u);
      assert forall j :: 0 < j < |acts| ==> acts[j] == acts[1..][j - 1];
      k := k + 1;
    }
  }

  lemma {:induction false} OnlyChildrenExit(s: State, acts: seq<Action>, t: State)
    requires s.pc.Exited? && Runs(s, acts, t)
    ensures forall j :: 0 <= j < |acts| ==> acts[j].ChildExits?
    decreases |acts|
  {
    if acts != [] {
      OnlyChildrenExit(Apply(s, acts[0]), acts[1..], t);
      assert forall j :: 0 < j < |acts| ==> acts[j] == acts[1..][j - 1];
    }
  }

  lemma {:induction false} ChildStays(s: State, acts: seq<Action>, t: State, c: nat)
    requires c in s.children && c < |s.clients| && ChildExits(c) !in acts && Runs(s, acts, t)
    ensures c in t.children && t.children[c] == s.children[c]
    decreases |acts|
  {
    if acts != [] {
      ChildStays(Apply(s, acts[0]), acts[1..], t, c);
    }
  }

  lemma ReturnEnds(u: State, acts: seq<Action>, a: Action, t: State, c: nat)
    requires c in u.children && c < |u.clients| && ChildExits(c) !in acts && Runs(u, acts + [a], t)
    requires a.Reload? && !NamesZero(a.lines) && NamedPorts(a.lines) != []
    requires LastOr(NamedPorts(a.lines), 0) == u.children[c]
    ensures t.pc.Exited? <==> Differs(NamedPorts(a.lines), LastOr(NamedBy(acts), u.port))
  {
    var v := RunsLast(u, acts, a, t);
    ChildStays(u, acts, v, c);
    PortIsLastNamed(u, acts, v);
  }

  /** In process mode, as long as the child of a client lives, whatever becomes of the others, a reload whose last
      port is the one that this client was accepted on ends the server, unless that is the current port and the file
      names no other. */
  lemma LiveChildBlocksReturn(s: State, acts: seq<Action>, a: Action, t: State)
    requires Bound(s) && s.mode == 'p' && Enabled(s, Accept) && Runs(Apply(s, Accept), acts + [a], t)
    requires ChildExits(|s.clients|) !in acts && a.Reload? && !NamesZero(a.lines)
    requires NamedPorts(a.lines) != [] && LastOr(NamedPorts(a.lines), 0) == s.port
    ensures t.pc.Exited? <==> Differs(NamedPorts(a.lines), LastOr(NamedBy(acts), s.port))
  {
    ReturnEnds(Apply(s, Accept), acts, a, t, |s.clients|);
  }

  // Reloading and threads

  lemma {:induction false} IgnoredForGood(s: State, acts: seq<Action>, t: State)
    requires s.ignoring && Runs(s, acts, t)
    ensures NamedBy(acts) == [] && forall k :: 0 <= k < |acts| ==> !acts[k].Reload?
    decreases |acts|
  {
    if acts != [] {
      IgnoredForGood(Apply(s, acts[0]), acts[1..], t);
      assert forall k :: 1 <= k < |acts| ==> acts[k] == acts[1..][k - 1];
    }
  }

  /** In threaded mode the first client thread ends reloading for good: in no run is there a reload after a thread has
      started, and the port stays the one named last before. */
  lemma NoReloadAfterFirstThread(s: State, before: seq<Action>, after: seq<Action>, t: State)
    requires Runs(s, before + ([ThreadStarts] + after), t)
    ensures forall k :: 0 <= k < |after| ==> !after[k].Reload?
    ensures !t.pc.Exited? ==> t.port == LastOr(NamedBy(before), s.port)
  {
    var u := RunsSplit(s, before, [ThreadStarts] + after, t);
    RunsFirst(u, ThreadStarts, after, t);
    IgnoredForGood(Apply(u, ThreadStarts), after, t);
    PortIsLastNamed(s, before, u);
    if !t.pc.Exited? { PortIsLastNamed(Apply(u, ThreadStarts), after, t); }
  }

  /** In every other mode a reload is possible in every state of the process. */
  lemma {:induction false} ReloadStaysPossible(s: State, acts: seq<Action>, t: State, lines: seq<string>)
    requires s.mode != 't' && !s.ignoring && Runs(s, acts, t) && !t.pc.Exited?
    ensures Enabled(t, Reload(lines, t.socket))
    decreases |acts|
  {
    if acts != [] {
      ReloadStaysPossible(Apply(s, acts[0]), acts[1..], t, lines);
    }
  }
}
