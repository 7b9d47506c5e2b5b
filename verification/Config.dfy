/** Re-reading the configuration file: `fgets` in pieces of at most 511 bytes, one port check for each piece. */
module Config {
  import opened Text
  import opened CBuffer

  const S_PORT := "port"
  const MAX_LINE_SIZE := 512

  // The pattern ^port[[:space:]]+([[:digit:]]{1,5})

  predicate IsSpace(c: char) {
    c == ' ' || c == TAB || c == LF || c == CR || c == '\U{000B}' || c == '\U{000C}'
  }

  predicate AllSpaces(s: string) { forall k :: 0 <= k < |s| ==> IsSpace(s[k]) }

  /** `line` matches, and `digits` is what the group captures: as many digits as possible, five at most. */
  ghost predicate MatchesWith(line: string, spaces: string, digits: string, tail: string) {
    && line == S_PORT + spaces + digits + tail
    && spaces != "" && AllSpaces(spaces)
    && 1 <= |digits| <= 5 && AllDigits(digits)
    && (|digits| == 5 || tail == "" || !IsDigit(tail[0]))
  }

  ghost predicate Captures(line: string, digits: string) {
    exists spaces, tail :: MatchesWith(line, spaces, digits, tail)
  }

  function SpacesAt(s: string): (n: nat)
    ensures n <= |s| && AllSpaces(s[..n]) && (n < |s| ==> !IsSpace(s[n]))
  {
    if s == "" || !IsSpace(s[0]) then 0
    else
      var n := SpacesAt(s[1..]);
      assert s[..n + 1] == [s[0]] + s[1..][..n];
      n + 1
  }

  function DigitsAt(s: string, most: nat): (n: nat)
    ensures n <= |s| && n <= most && AllDigits(s[..n]) && (n < |s| && n < most ==> !IsDigit(s[n]))
  {
    if s == "" || most == 0 || !IsDigit(s[0]) then 0
    else
      var n := DigitsAt(s[1..], most - 1);
      assert s[..n + 1] == [s[0]] + s[1..][..n];
      n + 1
  }

  /** `do_regex` for the port pattern: the captured digits, or nothing. */
  function PortCapture(line: string): (r: string)
    ensures AllDigits(r) && |r| <= 5
  {
    if !(S_PORT <= line) then "" else RestCapture(line[|S_PORT|..])
  }

  function RestCapture(rest: string): (r: string)
    ensures AllDigits(r) && |r| <= 5
  {
    var n := SpacesAt(rest);
    if n == 0 then "" else rest[n..][..DigitsAt(rest[n..], 5)]
  }

  lemma SpacesAtUnique(spaces: string, rest: string)
    requires AllSpaces(spaces) && (rest == "" || !IsSpace(rest[0]))
    ensures SpacesAt(spaces + rest) == |spaces|
  {
    var s, n := spaces + rest, SpacesAt(spaces + rest);
    assert forall k :: 0 <= k < |spaces| ==> s[k] == spaces[k];
    assert forall k :: 0 <= k < n ==> s[k] == s[..n][k];
    if rest != "" { assert s[|spaces|] == rest[0]; }
  }

  lemma DigitsAtUnique(digits: string, tail: string)
    requires AllDigits(digits) && |digits| <= 5 && (|digits| == 5 || tail == "" || !IsDigit(tail[0]))
    ensures DigitsAt(digits + tail, 5) == |digits|
  {
    var s, n := digits + tail, DigitsAt(digits + tail, 5);
    assert forall k :: 0 <= k < |digits| ==> s[k] == digits[k];
    assert forall k :: 0 <= k < n ==> s[k] == s[..n][k];
    if tail != "" { assert s[|digits|] == tail[0]; }
  }

  lemma CaptureParts(spaces: string, digits: string, tail: string)
    requires spaces != "" && SpacesAt(spaces + (digits + tail)) == |spaces|
    requires DigitsAt(digits + tail, 5) == |digits|
    ensures PortCapture(S_PORT + (spaces + (digits + tail))) == digits
  {
    SplitAfter(S_PORT, spaces + (digits + tail));
    SplitAfter(spaces, digits + tail);
    SplitAfter(digits, tail);
  }

  lemma MatchIsCaptured(line: string, spaces: string, digits: string, tail: string)
    requires MatchesWith(line, spaces, digits, tail)
    ensures PortCapture(line) == digits
  {
    assert line == S_PORT + (spaces + (digits + tail));
    assert (digits + tail)[0] == digits[0];
    SpacesAtUnique(spaces, digits + tail);
    DigitsAtUnique(digits, tail);
    CaptureParts(spaces, digits, tail);
  }

  /** The recogniser captures exactly what the pattern does. */
  lemma CaptureIff(line: string, digits: string)
    requires digits != ""
    ensures PortCapture(line) == digits <==> Captures(line, digits)
  {
    if PortCapture(line) == digits {
      var rest := line[4..];
      var n := SpacesAt(rest);
      var m := DigitsAt(rest[n..], 5);
      assert line == S_PORT + rest[..n] + rest[n..][..m] + rest[n..][m..];
      assert MatchesWith(line, rest[..n], digits, rest[n..][m..]);
    }
    if Captures(line, digits) {
      var spaces, tail :| MatchesWith(line, spaces, digits, tail);
      MatchIsCaptured(line, spaces, digits, tail);
    }
  }

  /** A printed port line sets the port it shows; a longer run of digits counts with its first five. */
  lemma PortLineReadsBack(spaces: string, digits: string, tail: string)
    requires spaces != "" && AllSpaces(spaces) && digits != "" && AllDigits(digits)
    requires tail == "" || !IsDigit(tail[0])
    ensures PortCapture(S_PORT + spaces + digits + tail) == if |digits| <= 5 then digits else digits[..5]
  {
    var line := S_PORT + spaces + digits + tail;
    if |digits| <= 5 {
      assert MatchesWith(line, spaces, digits, tail);
      MatchIsCaptured(line, spaces, digits, tail);
    } else {
      assert line == S_PORT + spaces + digits[..5] + (digits[5..] + tail);
      assert MatchesWith(line, spaces, digits[..5], digits[5..] + tail);
      MatchIsCaptured(line, spaces, digits[..5], digits[5..] + tail);
    }
  }

  lemma PrintedPortReadsBack(port: nat, spaces: string, tail: string)
    requires port < 100000 && spaces != "" && AllSpaces(spaces) && (tail == "" || !IsDigit(tail[0]))
    ensures Value(PortCapture(S_PORT + spaces + Decimal(port) + tail)) == port
  {
    DecimalLength(port, 5);
    PortLineReadsBack(spaces, Decimal(port), tail);
    ValueOfDecimal(port);
  }

  // Pieces of the file

  /** A piece without its line break. */
  function Stripped(piece: string): string {
    if piece != "" && piece[|piece| - 1] == LF then piece[..|piece| - 1] else piece
  }

  /** What the loop hands to the checks, one after the other. */
  function Pieces(content: string): seq<string>
    decreases |content|
  {
    if content == "" then []
    else
      var n := PieceLength(content, MAX_LINE_SIZE - 1);
      [Stripped(content[..n])] + Pieces(content[n..])
  }

  function Joined(lines: seq<string>): string {
    if lines == [] then "" else lines[0] + [LF] + Joined(lines[1..])
  }

  lemma PieceLengthUnique(line: string, rest: string, most: nat)
    requires LF !in line && |line| < most
    ensures PieceLength(line + [LF] + rest, most) == |line| + 1
  {
    var s := line + [LF] + rest;
    var n := PieceLength(s, most);
    assert s[|line|] == LF && forall k :: 0 <= k < |line| ==> s[k] == line[k];
  }

  /** A line of at most 510 characters, with its line break, is one piece. */
  lemma ShortLineIsAPiece(line: string, rest: string)
    requires LF !in line && |line| < MAX_LINE_SIZE - 1
    ensures Pieces(line + [LF] + rest) == [line] + Pieces(rest)
  {
    var content := line + [LF] + rest;
    PieceLengthUnique(line, rest, MAX_LINE_SIZE - 1);
    assert content[..|line| + 1] == line + [LF];
    assert content[|line| + 1..] == rest;
    assert Stripped(line + [LF]) == line;
  }

  /** What follows the first 511 characters of a longer line is checked as if it were a line of its own. */
  lemma LongLineIsSplit(start: string, rest: string)
    requires |start| == MAX_LINE_SIZE - 1 && LF !in start
    ensures Pieces(start + rest) == [start] + Pieces(rest)
  {
    var content := start + rest;
    var n := PieceLength(content, MAX_LINE_SIZE - 1);
    assert forall k :: 0 <= k < |start| ==> content[k] == start[k];
    assert n == |start|;
    SplitAfter(start, rest);
  }

  /** A last line without a line break that fits the buffer is one piece. */
  lemma ShortRestIsAPiece(last: string)
    requires LF !in last && 0 < |last| < MAX_LINE_SIZE
    ensures Pieces(last) == [last]
  {
    var n := PieceLength(last, MAX_LINE_SIZE - 1);
    assert n == |last| && last[..n] == last && last[n..] == "" && Pieces("") == [];
  }

  lemma {:induction false} LineGivesPieces(line: string, rest: string)
    requires LF !in line
    ensures |Pieces(line + [LF] + rest)| >= (if |line| < MAX_LINE_SIZE - 1 then 1 else 2) + |Pieces(rest)|
    decreases |line|
  {
    if |line| < MAX_LINE_SIZE - 1 {
      ShortLineIsAPiece(line, rest);
    } else {
      var start, tail := line[..MAX_LINE_SIZE - 1], line[MAX_LINE_SIZE - 1..];
      assert line + [LF] + rest == start + (tail + [LF] + rest);
      LongLineIsSplit(start, tail + [LF] + rest);
      LineGivesPieces(tail, rest);
    }
  }

  /** What the file looks like to its author: lines, each ended by a line break, except perhaps the last. */
  function AllLines(lines: seq<string>, last: string): seq<string> {
    lines + (if last == "" then [] else [last])
  }

  ghost predicate NoBreaks(lines: seq<string>, last: string) {
    LF !in last && forall k :: 0 <= k < |lines| ==> LF !in lines[k]
  }

  /** Every line fits the buffer with its line break, and a last line without one fits it too. */
  predicate LinesFit(lines: seq<string>, last: string) {
    |last| <= 511 && forall k :: 0 <= k < |lines| ==> |lines[k]| <= 510
  }

  lemma {:induction false} NoFewerPieces(lines: seq<string>, last: string)
    requires NoBreaks(lines, last)
    ensures |Pieces(Joined(lines) + last)| >= |AllLines(lines, last)|
  {
    if lines == [] {
      assert "" + last == last;
    } else {
      FirstLine(lines, last);
      LineGivesPieces(lines[0], Joined(lines[1..]) + last);
      NoFewerPieces(lines[1..], last);
    }
  }

  lemma SomePieces(content: string)
    requires content != ""
    ensures |Pieces(content)| > 0
  {
  }

  lemma LongRestIsSplit(last: string, start: string, tail: string)
    requires last == start + tail && |start| == MAX_LINE_SIZE - 1 && tail != "" && LF !in start
    ensures |Pieces(last)| > 1
  {
    LongLineIsSplit(start, tail);
    SomePieces(tail);
  }

  lemma CutLine(line: string) returns (start: string, tail: string)
    requires LF !in line && |line| >= MAX_LINE_SIZE
    ensures line == start + tail && |start| == MAX_LINE_SIZE - 1 && tail != "" && LF !in start
  {
    start, tail := line[..MAX_LINE_SIZE - 1], line[MAX_LINE_SIZE - 1..];
  }

  lemma LastLineIsAPieceIff(last: string)
    requires LF !in last
    ensures Pieces(last) == AllLines([], last) <==> |last| <= MAX_LINE_SIZE - 1
  {
    LastAlone(last);
    if |last| >= MAX_LINE_SIZE {
      var start, tail := CutLine(last);
      LongRestIsSplit(last, start, tail);
    } else if last != "" {
      ShortRestIsAPiece(last);
    }
  }

  lemma LastAlone(last: string)
    ensures AllLines([], last) == if last == "" then [] else [last]
  {
  }

  lemma SameStart(line: string, a: seq<string>, b: seq<string>)
    ensures [line] + a == [line] + b <==> a == b
  {
    if [line] + a == [line] + b { assert a == ([line] + a)[1..] == b; }
  }

  lemma FirstLine(lines: seq<string>, last: string)
    requires lines != []
    ensures Joined(lines) + last == lines[0] + [LF] + (Joined(lines[1..]) + last)
    ensures AllLines(lines, last) == [lines[0]] + AllLines(lines[1..], last)
  {
  }

  lemma FirstLineFits(lines: seq<string>, last: string)
    requires lines != []
    ensures LinesFit(lines, last) <==> |lines[0]| < MAX_LINE_SIZE - 1 && LinesFit(lines[1..], last)
  {
    assert forall k :: 1 <= k < |lines| ==> lines[k] == lines[1..][k - 1];
  }

  /** What is checked is the lines of the file, if and only if all of them fit the buffer. */
  lemma {:induction false} PiecesAreLinesIff(lines: seq<string>, last: string)
    requires NoBreaks(lines, last)
    ensures Pieces(Joined(lines) + last) == AllLines(lines, last) <==> LinesFit(lines, last)
  {
    if lines == [] {
      assert "" + last == last;
      LastLineIsAPieceIff(last);
    } else {
      var line, rest := lines[0], Joined(lines[1..]) + last;
      FirstLine(lines, last);
      FirstLineFits(lines, last);
      if |line| < MAX_LINE_SIZE - 1 {
        ShortLineIsAPiece(line, rest);
        SameStart(line, Pieces(rest), AllLines(lines[1..], last));
        PiecesAreLinesIff(lines[1..], last);
      } else {
        LineGivesPieces(line, rest);
        NoFewerPieces(lines[1..], last);
      }
    }
  }

  /** Every file has lines in that sense. */
  lemma {:induction false} EveryFileHasLines(content: string) returns (lines: seq<string>, last: string)
    ensures NoBreaks(lines, last) && content == Joined(lines) + last
  {
    if content == "" {
      lines, last := [], "";
    } else {
      lines, last := EveryFileHasLines(content[1..]);
      if content[0] == LF {
        lines := [""] + lines;
        assert Joined(lines) == [LF] + Joined(lines[1..]);
      } else if lines == [] {
        last := [content[0]] + last;
      } else {
        assert Joined(lines) == lines[0] + [LF] + Joined(lines[1..]);
        lines := [[content[0]] + lines[0]] + lines[1..];
      }
    }
  }

  // The fold over the pieces

  /** The captured port of a line, if it has one. */
  function PortOf(line: string): int {
    if PortCapture(line) == "" then -1 else Value(PortCapture(line))
  }

  predicate IsValidPort(p: int) { 1 <= p < 65536 }

  function NamedOn(line: string): seq<int> {
    if IsValidPort(PortOf(line)) then [PortOf(line)] else []
  }

  /** The ports in 1..65535 that the lines name, in order. */
  function NamedPorts(lines: seq<string>): seq<int> {
    if lines == [] then []
    else NamedOn(lines[0]) + NamedPorts(lines[1..])
  }

  predicate NamesZero(lines: seq<string>) {
    lines != [] && (PortOf(lines[0]) == 0 || NamesZero(lines[1..]))
  }

  function LastOr(ports: seq<int>, port: int): int {
    if ports == [] then port else ports[|ports| - 1]
  }

  predicate Differs(ports: seq<int>, port: int) {
    exists k :: 0 <= k < |ports| && ports[k] != port
  }

  /** The settings block; a reload may change nothing of it but the port. */
  class Settings {
    var port: int
    var socket: int
    var mode: char
    var homedir: string
    var hostname: string

    constructor (port: int, mode: char, homedir: string, hostname: string)
      ensures this.port == port && this.mode == mode && this.homedir == homedir && this.hostname == hostname
    {
      this.port, this.mode, this.homedir, this.hostname := port, mode, homedir, hostname;
      this.socket := 0;
    }
  }

  class File {
    var content: string

    constructor (content: string)
      ensures this.content == content
    {
      this.content := content;
    }

    /** `fgets(line, size, fp) != NULL` */
    method Fgets(line: array<char>) returns (got: bool)
      requires 1 < line.Length && NUL !in content
      modifies this, line
      ensures got <==> old(content) != ""
      ensures got ==>
                var n := PieceLength(old(content), line.Length - 1);
                Holds(line, old(content)[..n]) && content == old(content)[n..]
    {
      if content == "" {
        return false;
      }
      var n := PieceLength(content, line.Length - 1);
      Strcpy(line, content[..n]);
      content := content[n..];
      return true;
    }
  }

  /** `check_if_port_change`; `exits` stands for the process exit on a port of zero. */
  method CheckIfPortChange(line: string, settings: Settings) returns (exits: bool, change: bool)
    modifies settings`port
    ensures exits <==> PortOf(line) == 0
    ensures settings.port == if IsValidPort(PortOf(line)) then PortOf(line) else old(settings.port)
    ensures change <==> settings.port != old(settings.port)
  {
    exits, change := false, false;
    var captured := PortCapture(line);
    if |captured| != 0 {
      var val := Value(captured);
      if val == 0 {
        return true, false;
      }
      if val != 0 && val != settings.port && val < 65536 {
        settings.port := val;
        change := true;
      }
    }
  }

  /** The body of the loop for one piece: the line break is replaced by a NUL, then the line is checked. */
  method CheckPiece(line: array<char>, ghost piece: string, settings: Settings) returns (exits: bool, change: bool)
    requires Holds(line, piece) && piece != ""
    modifies line, settings`port
    ensures exits <==> PortOf(Stripped(piece)) == 0
    ensures var p := PortOf(Stripped(piece)); settings.port == if IsValidPort(p) then p else old(settings.port)
    ensures change <==> settings.port != old(settings.port)
  {
    var lineLen := Strlen(line, piece);
    assert line[lineLen - 1] == piece[lineLen - 1];
    if line[lineLen - 1] == LF {
      line[lineLen - 1] := NUL;
      assert line[..lineLen - 1] == piece[..lineLen - 1];
    }
    HoldsMeansPrints(line, Stripped(piece));
    exits, change := CheckIfPortChange(CString(line[..]), settings);
  }

  /** `read_and_check_conf(settings, true)`: the last valid port wins, and the result tells whether any valid port
      differed from the one the reload started with. */
  method ReadAndCheckConf(settings: Settings, fp: File) returns (exits: bool, portChange: bool)
    requires NUL !in fp.content
    modifies settings`port, fp
    ensures exits <==> NamesZero(Pieces(old(fp.content)))
    ensures !exits ==>
              var ports := NamedPorts(Pieces(old(fp.content)));
              && settings.port == LastOr(ports, old(settings.port))
              && (portChange <==> Differs(ports, old(settings.port)))
  {
    ghost var lines := Pieces(fp.content);
    portChange := false;
    var line := new char[MAX_LINE_SIZE];
    while true
      invariant NUL !in fp.content && NamesZero(lines) == NamesZero(Pieces(fp.content))
      invariant portChange ==> Differs(NamedPorts(lines), old(settings.port))
      invariant !portChange ==> settings.port == old(settings.port)
      invariant !portChange ==>
                  (Differs(NamedPorts(lines), settings.port) <==>
                   Differs(NamedPorts(Pieces(fp.content)), settings.port))
      invariant LastOr(NamedPorts(lines), old(settings.port)) == LastOr(NamedPorts(Pieces(fp.content)), settings.port)
      decreases |fp.content|
    {
      ghost var content := fp.content;
      var got := fp.Fgets(line);
      if !got {
        break;
      }
      ghost var piece := content[..PieceLength(content, MAX_LINE_SIZE - 1)];
      assert Pieces(content) == [Stripped(piece)] + Pieces(fp.content);
      FoldStep(Stripped(piece), Pieces(fp.content), settings.port);
      var change;
      exits, change := CheckPiece(line, piece, settings);
      if exits {
        return true, false;
      }
      portChange := portChange || change;
    }
    return false, portChange;
  }

  lemma NamedPortsCons(line: string, rest: seq<string>)
    ensures NamedPorts([line] + rest) == NamedOn(line) + NamedPorts(rest)
    ensures NamesZero([line] + rest) == (PortOf(line) == 0 || NamesZero(rest))
  {
    assert ([line] + rest)[1..] == rest;
  }

  lemma OneLineNames(line: string)
    ensures NamedPorts([line]) == NamedOn(line)
  {
    assert [line][1..] == [];
  }

  lemma PortLineNamesIt(line: string, port: int)
    requires IsValidPort(port) && line == S_PORT + " " + Decimal(port)
    ensures NamedPorts([line]) == [port] && !NamesZero([line])
  {
    assert line + "" == line;
    PrintedPortReadsBack(port, " ", "");
    OneLineNames(line);
    assert [line][1..] == [];
  }

  ghost predicate IsWhiteSpace(s: string) {
    forall k :: 0 <= k < |s| ==> s[k] in [' ', '\t', '\n', '\r', '\U{000B}', '\U{000C}']
  }

  /** A port line sets the port to the number it shows if that is in 1..65535; zero ends the process; what is larger is
      ignored. */
  lemma PortLineSets(p: nat, spaces: string, tail: string)
    requires p < 100000 && spaces != "" && IsWhiteSpace(spaces) && (tail == "" || tail[0] < '0' || tail[0] > '9')
    ensures var line := "port" + spaces + Decimal(p) + tail;
            && (1 <= p < 65536 ==> NamedPorts([line]) == [p])
            && (p == 0 || p >= 65536 ==> NamedPorts([line]) == [])
            && (NamesZero([line]) <==> p == 0)
  {
    var line := S_PORT + spaces + Decimal(p) + tail;
    PrintedPortReadsBack(p, spaces, tail);
    DecimalLength(p, 5);
    PortLineReadsBack(spaces, Decimal(p), tail);
    OneLineNames(line);
    NamedPortsCons(line, []);
    assert [line] + [] == [line];
  }

  /** What checking the lines one by one comes to: the process ends, or goes on with a port and a mark of change. */
  datatype Outcome = Ends | GoesOn(port: int, change: bool)

  /** One check after the other, as the loop makes them. */
  function CheckLines(lines: seq<string>, port: int, change: bool): Outcome {
    if lines == [] then GoesOn(port, change)
    else if PortCapture(lines[0]) == "" then CheckLines(lines[1..], port, change)
    else
      var val := Value(PortCapture(lines[0]));
      if val == 0 then Ends
      else if val != port && val < 65536 then CheckLines(lines[1..], val, true)
      else CheckLines(lines[1..], port, change)
  }

  /** That is: the last valid port wins, a change is any valid port that differs from the first one, and a zero anywhere
      ends the process. */
  lemma {:induction false} ReloadIsAFold(lines: seq<string>, port: int, change: bool)
    requires 1 <= port < 65536
    ensures CheckLines(lines, port, change) ==
            if NamesZero(lines) then Ends
            else GoesOn(LastOr(NamedPorts(lines), port), change || Differs(NamedPorts(lines), port))
  {
    if lines != [] {
      var line, rest := lines[0], lines[1..];
      assert lines == [line] + rest;
      FoldStep(line, rest, port);
      var next := if IsValidPort(PortOf(line)) then PortOf(line) else port;
      ReloadIsAFold(rest, next, change || next != port);
    }
  }

  /** A line that is no port line can still change the port: whatever its first 511 characters are, `#` for example, a
      port line may start behind them. */
  lemma LongLineNamesAPort(start: string, port: nat)
    requires |start| == MAX_LINE_SIZE - 1 && LF !in start && !(S_PORT <= start) && IsValidPort(port)
    ensures var line := start + (S_PORT + " " + Decimal(port));
            LF !in line && NamedPorts([line]) == [] && NamedPorts(Pieces(line)) == [port]
  {
    var tail := S_PORT + " " + Decimal(port);
    PortLineNamesIt(tail, port);
    PortTailIsAPiece(tail, port);
    LongLineIsSplit(start, tail);
    NoPortLine(start, "");
    NoPortLine(start, tail);
    assert start + "" == start;
    NamedPortsCons(start, [tail]);
    OneLineNames(start + tail);
    assert [] + [port] == [port];
  }

  lemma NoPortLine(start: string, tail: string)
    requires |start| >= |S_PORT| && !(S_PORT <= start)
    ensures NamedOn(start + tail) == []
  {
    assert S_PORT <= start + tail ==> S_PORT <= start;
  }

  lemma PortTailIsAPiece(tail: string, port: nat)
    requires tail == S_PORT + " " + Decimal(port) && IsValidPort(port)
    ensures LF !in tail && Pieces(tail) == [tail]
  {
    DecimalLength(port, 5);
    ShortRestIsAPiece(tail);
  }

  lemma PortsCons(p: int, ports: seq<int>, port: int)
    ensures LastOr([p] + ports, port) == LastOr(ports, p)
    ensures Differs([p] + ports, port) <==> p != port || Differs(ports, port)
  {
    var all := [p] + ports;
    assert all[0] == p && forall k :: 0 <= k < |ports| ==> all[k + 1] == ports[k];
  }

  lemma FoldStep(line: string, rest: seq<string>, port: int)
    ensures var p := PortOf(line);
            var ports, all := NamedPorts(rest), NamedPorts([line] + rest);
            && NamesZero([line] + rest) == (p == 0 || NamesZero(rest))
            && LastOr(all, port) == LastOr(ports, if IsValidPort(p) then p else port)
            && (Differs(all, port) <==> (IsValidPort(p) && p != port) || Differs(ports, port))
  {
    NamedPortsCons(line, rest);
    PortsCons(PortOf(line), NamedPorts(rest), port);
    assert [] + NamedPorts(rest) == NamedPorts(rest);
  }

  // The ports that long lines name

  /** The pieces of one line, but for an empty one behind a line that its pieces fill exactly. */
  function Chunks(line: string): (r: seq<string>)
    ensures r != []
    decreases |line|
  {
    if |line| < MAX_LINE_SIZE then [line]
    else [line[..MAX_LINE_SIZE - 1]] + Chunks(line[MAX_LINE_SIZE - 1..])
  }

  lemma EmptyLineNamesNothing()
    ensures NamedPorts([""]) == []
  {
    OneLineNames("");
  }

  lemma {:induction false} NamedPortsConcat(a: seq<string>, b: seq<string>)
    ensures NamedPorts(a + b) == NamedPorts(a) + NamedPorts(b)
  {
    if a == [] {
      assert a + b == b;
    } else {
      assert (a + b)[1..] == a[1..] + b;
      NamedPortsConcat(a[1..], b);
    }
  }

  lemma SplitLine(line: string, rest: string)
    requires LF !in line && |line| >= MAX_LINE_SIZE - 1
    ensures var start, tail := line[..MAX_LINE_SIZE - 1], line[MAX_LINE_SIZE - 1..];
            && Pieces(line + [LF] + rest) == [start] + Pieces(tail + [LF] + rest)
            && Pieces(line) == [start] + Pieces(tail)
  {
    var start, tail := line[..MAX_LINE_SIZE - 1], line[MAX_LINE_SIZE - 1..];
    assert line + [LF] + rest == start + (tail + [LF] + rest) && line == start + tail;
    LongLineIsSplit(start, tail + [LF] + rest);
    LongLineIsSplit(start, tail);
  }

  lemma ChunksOfLong(line: string)
    requires |line| >= MAX_LINE_SIZE - 1
    ensures NamedPorts(Chunks(line)) ==
            NamedOn(line[..MAX_LINE_SIZE - 1]) + NamedPorts(Chunks(line[MAX_LINE_SIZE - 1..]))
  {
    var start, tail := line[..MAX_LINE_SIZE - 1], line[MAX_LINE_SIZE - 1..];
    if tail == "" {
      assert start == line;
      OneLineNames(line);
      EmptyLineNamesNothing();
    } else {
      NamedPortsCons(start, Chunks(tail));
    }
  }

  lemma ShortLineNames(line: string, rest: string)
    requires LF !in line && |line| < MAX_LINE_SIZE - 1
    ensures NamedPorts(Pieces(line + [LF] + rest)) == NamedOn(line) + NamedPorts(Pieces(rest))
    ensures NamedPorts(Chunks(line)) == NamedOn(line)
  {
    ShortLineIsAPiece(line, rest);
    NamedPortsCons(line, Pieces(rest));
    OneLineNames(line);
  }

  lemma LongLineNames(line: string, rest: string)
    requires LF !in line && |line| >= MAX_LINE_SIZE - 1
    ensures NamedPorts(Pieces(line + [LF] + rest)) ==
            NamedOn(line[..MAX_LINE_SIZE - 1]) + NamedPorts(Pieces(line[MAX_LINE_SIZE - 1..] + [LF] + rest))
  {
    SplitLine(line, rest);
    NamedPortsCons(line[..MAX_LINE_SIZE - 1], Pieces(line[MAX_LINE_SIZE - 1..] + [LF] + rest));
  }

  lemma Regroup(a: seq<int>, b: seq<int>, c: seq<int>)
    ensures a + (b + c) == a + b + c
  {
  }

  lemma {:induction false} LineNamesByChunks(line: string, rest: string)
    requires LF !in line
    ensures NamedPorts(Pieces(line + [LF] + rest)) == NamedPorts(Chunks(line)) + NamedPorts(Pieces(rest))
    decreases |line|
  {
    if |line| < MAX_LINE_SIZE - 1 {
      ShortLineNames(line, rest);
    } else {
      var start, tail := line[..MAX_LINE_SIZE - 1], line[MAX_LINE_SIZE - 1..];
      LineNamesByChunks(tail, rest);
      LongLineNames(line, rest);
      ChunksOfLong(line);
      Regroup(NamedOn(start), NamedPorts(Chunks(tail)), NamedPorts(Pieces(rest)));
    }
  }

  lemma {:induction false} LastNamesByChunks(last: string)
    requires LF !in last
    ensures NamedPorts(Pieces(last)) == NamedPorts(Chunks(last))
    decreases |last|
  {
    if last == "" {
      EmptyLineNamesNothing();
    } else if |last| < MAX_LINE_SIZE {
      ShortRestIsAPiece(last);
    } else {
      var start, tail := last[..MAX_LINE_SIZE - 1], last[MAX_LINE_SIZE - 1..];
      SplitLine(last, "");
      LastNamesByChunks(tail);
      NamedPortsCons(start, Pieces(tail));
      ChunksOfLong(last);
    }
  }

  function ChunkNames(lines: seq<string>): seq<int> {
    if lines == [] then [] else NamedPorts(Chunks(lines[0])) + ChunkNames(lines[1..])
  }

  /** The ports that are obeyed are those that the chunks of the lines name. */
  lemma {:induction false} PortsAreNamedByChunks(lines: seq<string>, last: string)
    requires NoBreaks(lines, last)
    ensures NamedPorts(Pieces(Joined(lines) + last)) == ChunkNames(AllLines(lines, last))
  {
    if lines == [] {
      assert "" + last == last;
      LastNamesByChunks(last);
      if last != "" { assert AllLines(lines, last)[1..] == []; }
    } else {
      FirstLine(lines, last);
      var rest := AllLines(lines[1..], last);
      assert ([lines[0]] + rest)[1..] == rest;
      LineNamesByChunks(lines[0], Joined(lines[1..]) + last);
      PortsAreNamedByChunks(lines[1..], last);
    }
  }

  /** Where the match of the port pattern ends in a line. */
  function CaptureEnd(line: string): nat {
    if PortCapture(line) == "" then 0 else |S_PORT| + SpacesAt(line[|S_PORT|..]) + |PortCapture(line)|
  }

  lemma {:induction false} SpacesAtPrefix(s: string, k: nat)
    requires k <= |s|
    ensures SpacesAt(s[..k]) == if SpacesAt(s) <= k then SpacesAt(s) else k
    decreases k
  {
    if k > 0 {
      assert s[..k][1..] == s[1..][..k - 1];
      SpacesAtPrefix(s[1..], k - 1);
    }
  }

  lemma {:induction false} DigitsAtPrefix(s: string, most: nat, k: nat)
    requires k <= |s|
    ensures DigitsAt(s[..k], most) == if DigitsAt(s, most) <= k then DigitsAt(s, most) else k
    decreases k
  {
    if k > 0 && most > 0 {
      assert s[..k][1..] == s[1..][..k - 1];
      DigitsAtPrefix(s[1..], most - 1, k - 1);
    }
  }

  /** What is cut off behind the first `k` characters changes the capture exactly if the match reaches into it. */
  lemma CaptureIsWholeIff(line: string, k: nat)
    requires |S_PORT| < k <= |line|
    ensures PortCapture(line[..k]) == PortCapture(line) <==> CaptureEnd(line) <= k
  {
    assert S_PORT <= line[..k] <==> S_PORT <= line;
    if S_PORT <= line {
      CaptureOfPrefix(line[..k], line, line[|S_PORT|..], k - |S_PORT|);
    }
  }

  lemma CaptureOfPrefix(head: string, line: string, rest: string, m: nat)
    requires line == S_PORT + rest && 0 < m <= |rest| && head == S_PORT + rest[..m]
    ensures PortCapture(head) == PortCapture(line) <==> CaptureEnd(line) <= |S_PORT| + m
  {
    SplitAfter(S_PORT, rest);
    SplitAfter(S_PORT, rest[..m]);
    RestOfPrefix(rest, m);
  }

  lemma RestOfPrefix(rest: string, m: nat)
    requires 0 < m <= |rest|
    ensures RestCapture(rest[..m]) == RestCapture(rest) <==>
            RestCapture(rest) == "" || SpacesAt(rest) + |RestCapture(rest)| <= m
  {
    var n := SpacesAt(rest);
    SpacesAtPrefix(rest, m);
    if n > m {
      OnlySpaces(rest[..m]);
    } else if n > 0 {
      SliceOfPrefix(rest, m, n);
      DigitsOfPrefix(rest, rest[..m], n, rest[n..], rest[..m][n..], m - n);
    }
  }

  lemma OnlySpaces(s: string)
    requires SpacesAt(s) == |s|
    ensures RestCapture(s) == ""
  {
    assert s[|s|..] == "";
  }

  lemma RestCaptureIs(s: string, n: nat, tail: string)
    requires 0 < n <= |s| && SpacesAt(s) == n && tail == s[n..]
    ensures RestCapture(s) == tail[..DigitsAt(tail, 5)]
  {
  }

  lemma SliceOfPrefix(s: string, m: nat, n: nat)
    requires n <= m <= |s|
    ensures s[..m][n..] == s[n..][..m - n]
  {
  }

  lemma DigitsOfPrefix(rest: string, head: string, n: nat, tail: string, headTail: string, k: nat)
    requires 0 < n <= |rest| && n <= |head| && SpacesAt(rest) == SpacesAt(head) == n
    requires tail == rest[n..] && headTail == head[n..] && k <= |tail| && headTail == tail[..k]
    ensures RestCapture(head) == RestCapture(rest) <==> |RestCapture(rest)| <= k
  {
    RestCaptureIs(rest, n, tail);
    RestCaptureIs(head, n, headTail);
    DigitsAtPrefix(tail, 5, k);
    CutDigits(tail, DigitsAt(tail, 5), k);
  }

  lemma CutDigits(s: string, d: nat, k: nat)
    requires d <= |s| && k <= |s|
    ensures s[..k][..if d <= k then d else k] == s[..d] <==> d <= k
  {
  }

  /** The buffer does not cut off what the port pattern matches on this line. */
  predicate CaptureIsWhole(line: string) { CaptureEnd(line) < MAX_LINE_SIZE }

  /** No piece of this line behind the first one names a port. */
  predicate NamesNothingBehind(line: string) { NamedPorts(Chunks(line)[1..]) == [] }

  ghost predicate CapturesWhole(lines: seq<string>) {
    forall k :: 0 <= k < |lines| ==> CaptureIsWhole(lines[k])
  }

  ghost predicate NothingNamedBehind(lines: seq<string>) {
    forall k :: 0 <= k < |lines| ==> NamesNothingBehind(lines[k])
  }

  lemma LineThenBehind(line: string)
    requires CaptureIsWhole(line)
    ensures NamedPorts(Chunks(line)) == NamedPorts([line]) + NamedPorts(Chunks(line)[1..])
  {
    var chunks := Chunks(line);
    assert chunks == [chunks[0]] + chunks[1..];
    NamedPortsConcat([chunks[0]], chunks[1..]);
    if |line| >= MAX_LINE_SIZE {
      CaptureIsWholeIff(line, MAX_LINE_SIZE - 1);
      OneLineNames(line);
      OneLineNames(chunks[0]);
    }
  }

  lemma SameSplit(a: seq<int>, extra: seq<int>, more: seq<int>, b: seq<int>)
    requires |more| >= |b|
    ensures a + extra + more == a + b <==> extra == [] && more == b
  {
    if a + extra + more == a + b {
      assert |extra| == 0;
      assert more == (a + extra + more)[|a|..] == b;
    }
  }

  lemma NothingBehindCons(lines: seq<string>)
    requires lines != []
    ensures NothingNamedBehind(lines) <==> NamesNothingBehind(lines[0]) && NothingNamedBehind(lines[1..])
  {
    assert forall k :: 1 <= k < |lines| ==> lines[k] == lines[1..][k - 1];
  }

  lemma {:induction false} ChunkNamesIff(lines: seq<string>)
    requires CapturesWhole(lines)
    ensures |ChunkNames(lines)| >= |NamedPorts(lines)|
    ensures ChunkNames(lines) == NamedPorts(lines) <==> NothingNamedBehind(lines)
  {
    if lines != [] {
      var line, rest := lines[0], lines[1..];
      assert forall k :: 0 <= k < |rest| ==> rest[k] == lines[k + 1];
      NothingBehindCons(lines);
      ChunkNamesIff(rest);
      LineThenBehind(line);
      OneLineNames(line);
      SameSplit(NamedOn(line), NamedPorts(Chunks(line)[1..]), ChunkNames(rest), NamedPorts(rest));
    }
  }

  /** If no match is cut off by the buffer, the ports that are obeyed are those of the lines if and only if no piece
      of a line behind the first one names a port. */
  lemma SamePortsIff(lines: seq<string>, last: string)
    requires NoBreaks(lines, last) && CapturesWhole(AllLines(lines, last))
    ensures NamedPorts(Pieces(Joined(lines) + last)) == NamedPorts(AllLines(lines, last)) <==>
            NothingNamedBehind(AllLines(lines, last))
  {
    PortsAreNamedByChunks(lines, last);
    ChunkNamesIff(AllLines(lines, last));
  }

  lemma {:induction false} NamedPortsAreValid(lines: seq<string>)
    ensures forall k :: 0 <= k < |NamedPorts(lines)| ==> IsValidPort(NamedPorts(lines)[k])
  {
    if lines != [] { NamedPortsAreValid(lines[1..]); }
  }

  /** Without a change reported the port is what it was; with one it may still be; and a valid port stays valid. */
  lemma ReloadKeepsPortsValid(lines: seq<string>, port: int)
    ensures var ports := NamedPorts(lines);
            && (LastOr(ports, port) != port ==> Differs(ports, port))
            && (IsValidPort(port) ==> IsValidPort(LastOr(ports, port)))
            && (Differs(ports, port) ==> IsValidPort(LastOr(ports, port)))
  {
    NamedPortsAreValid(lines);
  }
}
