/** The Gopher item type of a path, from the MIME type that the `file` command reports for it. */
module ItemTypes {
  import opened Text
  import opened CBuffer
  import Shell

  const DIR := "inode/directory"
  const GOPHER := "application/gopher"
  const MULTIPART := "multipart/mixed"
  const APPLICATION := "application/"
  const AUDIO := "audio/"
  const HTML := "text/html"
  const TEXT := "text/"
  const EMPTY := "inode/x-empty"
  const GIF := "image/gif"
  const IMAGE := "image/"
  const MAC := "application/mac"

  /** The prefix chain at the end of `type_path`, in the order in which the code tries the prefixes. */
  function TypeOf(mime: string): char {
    if DIR <= mime then '1'
    else if GOPHER <= mime then '7'
    else if MULTIPART <= mime then 'M'
    else if APPLICATION <= mime then '9'
    else if AUDIO <= mime then 's'
    else if HTML <= mime then 'h'
    else if TEXT <= mime || EMPTY <= mime then '0'
    else if GIF <= mime then 'g'
    else if IMAGE <= mime then 'I'
    else if MAC <= mime then '4'
    else '3'
  }

  const CANNOT := "cannot"
  const POPEN_ROOM := 63

  /** The piece of `output` that `fgets` reads last, when it reads on to the end. */
  function LastPiece(output: string): string
    decreases |output|
  {
    if output == "" then ""
    else
      var n := PieceLength(output, POPEN_ROOM);
      if n == |output| then output else LastPiece(output[n..])
  }

  /** What running a command prints, and what the buffer that it is read into happens to hold before. */
  datatype Report = Report(output: string, stale: string)

  /** What the type is chosen by: what `file` prints; its last piece, if it starts with an error message; and what was
      in the buffer, if it prints nothing. */
  function Examined(report: Report): string {
    if report.output == "" then report.stale
    else if CANNOT <= report.output then LastPiece(report.output)
    else report.output
  }

  /** The type for a report: that of what `file` prints, unless this is nothing or an error message. */
  ghost predicate TypedBy(kind: char, report: Report) {
    && (report.output != "" && !("cannot" <= report.output) ==> kind == TypeOf(report.output))
    && ("cannot" <= report.output ==> kind == TypeOf(LastPiece(report.output)))
    && (report.output == "" ==> kind == TypeOf(report.stale))
  }

  lemma MimeIsTyped(run: seq<string> -> Report, path: string)
    ensures TypedBy(TypeOf(Mime(run, path)), run(["file", "-bi", path]))
  {
  }

  /** The last piece is the last line, if that fits the buffer: nothing of an earlier line is in it. */
  lemma {:induction false} LastPieceIsLastLine(front: string, last: string)
    requires front == "" || front[|front| - 1] == LF
    requires 0 < |last| <= 63 && forall k :: 0 <= k < |last| - 1 ==> last[k] != LF
    ensures LastPiece(front + last) == last
    decreases |front|
  {
    var s := front + last;
    var n := PieceLength(s, POPEN_ROOM);
    if front == "" {
      assert s == last && n == |last|;
    } else {
      assert s[|front| - 1] == LF && n <= |front|;
      assert s[n..] == front[n..] + last;
      assert front[n..] == "" || front[n..][|front| - n - 1] == LF;
      LastPieceIsLastLine(front[n..], last);
    }
  }

  /** Of a longer last line, what is left after pieces of 63 bytes. */
  lemma LongLineInPieces(line: string)
    requires |line| > 63 && LF !in line
    ensures LastPiece(line) == LastPiece(line[63..])
  {
    var n := PieceLength(line, POPEN_ROOM);
  }

  /** What the `file` command reports about a path; `run` gives the report for a list of words. */
  function Mime(run: seq<string> -> Report, path: string): string {
    Examined(run(["file", "-bi", path]))
  }

  /** `type_path`: build the command, let the shell split and run it, read a piece of at most 63 bytes of what it
      prints; after an error message read on, each piece over the one before. */
  method TypePath(path: string, run: seq<string> -> Report) returns (kind: char)
    requires NUL !in path
    ensures kind == TypeOf(Mime(run, path))
    ensures TypedBy(kind, run(["file", "-bi", path]))
  {
    var command := Shell.BuildCommand(path);
    HoldsMeansPrints(command, Shell.Command(path));
    Shell.CommandHasThreeWords(path);
    var words := Shell.Words(CString(command[..]));
    var popenOutput := ReadReport(run(words.value));
    kind := TypeOf(popenOutput);
  }

  /** The reading loop of `type_path`. */
  method ReadReport(report: Report) returns (popenOutput: string)
    ensures TypeOf(popenOutput) == TypeOf(Examined(report))
  {
    popenOutput := report.stale;
    var output, rest := report.output, report.output;
    if rest != "" {
      var n := PieceLength(rest, POPEN_ROOM);
      popenOutput, rest := rest[..n], rest[n..];
      PieceStartsAlike(CANNOT, output);
      PrefixDecides(output);
    }
    if CANNOT <= popenOutput {
      while rest != ""
        invariant output == "" ==> rest == "" && popenOutput == report.stale
        invariant output != "" && rest == "" ==> popenOutput == LastPiece(output)
        invariant rest != "" ==> output != "" && LastPiece(rest) == LastPiece(output)
        decreases |rest|
      {
        var n := PieceLength(rest, POPEN_ROOM);
        popenOutput, rest := rest[..n], rest[n..];
      }
    }
  }

  /** The same table without an order. */
  const TABLE: seq<(string, char)> :=
    [(DIR, '1'), (GOPHER, '7'), (MULTIPART, 'M'), (APPLICATION, '9'), (AUDIO, 's'), (HTML, 'h'), (TEXT, '0'),
     (EMPTY, '0'), (GIF, 'g'), (IMAGE, 'I'), (MAC, '4')]

  predicate Matches(i: nat, mime: string)
    requires i < |TABLE|
  {
    TABLE[i].0 <= mime
  }

  /** Entry `i` is the most specific one that matches. */
  ghost predicate MostSpecific(i: nat, mime: string) {
    i < |TABLE| && Matches(i, mime) &&
    forall j :: 0 <= j < |TABLE| && Matches(j, mime) ==> |TABLE[j].0| <= |TABLE[i].0|
  }

  /** `c` is the type of the most specific matching entry, or '3' when nothing matches. */
  ghost predicate IsLongestMatch(mime: string, c: char) {
    if exists i :: 0 <= i < |TABLE| && Matches(i, mime) then
      exists i :: 0 <= i < |TABLE| && MostSpecific(i, mime) && TABLE[i].1 == c
    else
      c == '3'
  }

  /** Which prefixes of the table can hold together. */
  lemma Overlaps(mime: string)
    ensures GOPHER <= mime || MAC <= mime ==> APPLICATION <= mime
    ensures HTML <= mime ==> TEXT <= mime
    ensures GIF <= mime ==> IMAGE <= mime
    ensures !(GOPHER <= mime && MAC <= mime)
  {
    assert APPLICATION == GOPHER[..12] == MAC[..12];
    assert TEXT == HTML[..5];
    assert IMAGE == GIF[..6];
    if GOPHER <= mime { assert mime[12] == 'g'; }
    if MAC <= mime { assert mime[12] == 'm'; }
  }

  lemma FirstLetters(mime: string)
    ensures DIR <= mime || EMPTY <= mime ==> |mime| > 7 && mime[0] == 'i' && mime[1] == 'n'
    ensures DIR <= mime ==> mime[6] == 'd'
    ensures EMPTY <= mime ==> mime[6] == 'x'
    ensures APPLICATION <= mime ==> |mime| > 1 && mime[0] == 'a' && mime[1] == 'p'
    ensures AUDIO <= mime ==> |mime| > 1 && mime[0] == 'a' && mime[1] == 'u'
    ensures MULTIPART <= mime ==> |mime| > 1 && mime[0] == 'm'
    ensures TEXT <= mime ==> |mime| > 1 && mime[0] == 't'
    ensures IMAGE <= mime ==> |mime| > 1 && mime[0] == 'i' && mime[1] == 'm'
  {
  }

  /** Of two entries that both match, the later one is the less specific. */
  lemma LaterIsShorter(i: nat, j: nat, mime: string)
    requires i < j < |TABLE| - 1 && Matches(i, mime) && Matches(j, mime)
    ensures |TABLE[j].0| <= |TABLE[i].0|
  {
    FirstLetters(mime);
  }

  lemma FirstIsMostSpecific(i: nat, mime: string)
    requires i < |TABLE| - 1 && Matches(i, mime) && (forall j :: 0 <= j < i ==> !Matches(j, mime)) && !(MAC <= mime)
    ensures MostSpecific(i, mime)
  {
    assert TABLE[10].0 == MAC;
    forall j | 0 <= j < |TABLE| && Matches(j, mime) ensures |TABLE[j].0| <= |TABLE[i].0| {
      if i < j { LaterIsShorter(i, j, mime); }
    }
  }

  /** The place in the table of the first entry that matches. */
  function FirstMatch(mime: string): (i: nat)
    ensures i <= |TABLE| && forall j :: 0 <= j < i ==> !Matches(j, mime)
    ensures i < |TABLE| ==> Matches(i, mime)
  {
    if DIR <= mime then 0 else if GOPHER <= mime then 1 else if MULTIPART <= mime then 2
    else if APPLICATION <= mime then 3 else if AUDIO <= mime then 4 else if HTML <= mime then 5
    else if TEXT <= mime then 6 else if EMPTY <= mime then 7 else if GIF <= mime then 8
    else if IMAGE <= mime then 9 else if MAC <= mime then 10 else 11
  }

  lemma ChainIsFirstMatch(mime: string)
    ensures TypeOf(mime) == if FirstMatch(mime) < |TABLE| then TABLE[FirstMatch(mime)].1 else '3'
  {
  }

  lemma MacMatch(mime: string)
    requires MAC <= mime
    ensures TypeOf(mime) == '9' && Matches(10, mime) && TABLE[10].0 == MAC && TABLE[10].1 == '4'
    ensures forall i :: 0 <= i < |TABLE| && TABLE[i].1 == '9' ==> TABLE[i].0 == APPLICATION
  {
    Overlaps(mime);
    FirstLetters(mime);
  }

  lemma LaterLetters(mime: string)
    ensures GOPHER <= mime ==> mime[12] == 'g'
    ensures MAC <= mime ==> mime[12] == 'm'
    ensures MULTIPART <= mime ==> mime[10] == 'm'
    ensures HTML <= mime ==> mime[5] == 'h'
    ensures GIF <= mime ==> mime[6] == 'g'
  {
  }

  /** The types for MIME types written out, whatever follows the prefixes. */
  lemma InodeTypes(rest: string)
    ensures TypeOf("inode/directory" + rest) == '1' && TypeOf("inode/x-empty" + rest) == '0'
  {
    FirstLetters("inode/x-empty" + rest);
  }

  lemma ApplicationTypes(rest: string)
    ensures TypeOf("application/gopher" + rest) == '7' && TypeOf("application/macbinary" + rest) == '9'
    ensures TypeOf("application/pdf" + rest) == '9'
  {
    var mac, pdf := "application/macbinary" + rest, "application/pdf" + rest;
    FirstLetters("application/gopher" + rest);
    FirstLetters(mac);
    FirstLetters(pdf);
    LaterLetters(mac);
    LaterLetters(pdf);
  }

  lemma TextTypes(rest: string)
    ensures TypeOf("text/html" + rest) == 'h' && TypeOf("text/plain" + rest) == '0'
  {
    FirstLetters("text/html" + rest);
    FirstLetters("text/plain" + rest);
    LaterLetters("text/plain" + rest);
  }

  lemma MediaTypes(rest: string)
    ensures TypeOf("audio/" + rest) == 's' && TypeOf("video/" + rest) == '3'
  {
    FirstLetters("audio/" + rest);
    FirstLetters("video/" + rest);
  }

  lemma ImageTypes(rest: string)
    ensures TypeOf("image/gif" + rest) == 'g' && TypeOf("image/png" + rest) == 'I'
  {
    FirstLetters("image/gif" + rest);
    FirstLetters("image/png" + rest);
    LaterLetters("image/png" + rest);
  }

  lemma MultipartTypes(rest: string)
    ensures TypeOf("multipart/mixed" + rest) == 'M' && TypeOf("multipart/digest" + rest) == '3'
  {
    FirstLetters("multipart/mixed" + rest);
    FirstLetters("multipart/digest" + rest);
    LaterLetters("multipart/digest" + rest);
  }

  /** The report starts with a MIME type that has an item type of its own. */
  ghost predicate IsKnown(mime: string) {
    || "inode/directory" <= mime || "inode/x-empty" <= mime || "multipart/mixed" <= mime
    || "application/" <= mime || "audio/" <= mime || "text/" <= mime || "image/" <= mime
  }

  lemma KnownTypes(mime: string)
    ensures TypeOf(mime) == '1' <==> "inode/directory" <= mime
    ensures TypeOf(mime) == '3' <==> !IsKnown(mime)
  {
    Overlaps(mime);
  }

  /** The ordered chain picks the most specific entry exactly when the type is not a Macintosh one: there the earlier,
      more general `application/` wins. */
  lemma ChainIsLongestMatchIff(mime: string)
    ensures IsLongestMatch(mime, TypeOf(mime)) <==> !(MAC <= mime)
  {
    var i := FirstMatch(mime);
    if MAC <= mime {
      MacMatch(mime);
      assert forall k :: 0 <= k < |TABLE| && MostSpecific(k, mime) ==> |TABLE[k].0| >= |MAC| > |APPLICATION|;
    } else {
      ChainIsFirstMatch(mime);
      if i < |TABLE| {
        assert TABLE[10].0 == MAC;
        FirstIsMostSpecific(i, mime);
      }
    }
  }

  /** No path is ever given type '4', although the table has an entry for it. */
  lemma MacIsNeverReported(mime: string)
    ensures TypeOf(mime) != '4'
  {
    Overlaps(mime);
  }

  /** The first piece of a report, which is all that is read of it, decides. */
  lemma PrefixDecides(mime: string)
    ensures TypeOf(mime[..PieceLength(mime, POPEN_ROOM)]) == TypeOf(mime)
  {
    var piece := mime[..PieceLength(mime, POPEN_ROOM)];
    forall j | 0 <= j < |TABLE| ensures Matches(j, piece) <==> Matches(j, mime) {
      EntryFits(j);
      PieceStartsAlike(TABLE[j].0, mime);
    }
    ChainIsFirstMatch(piece);
    ChainIsFirstMatch(mime);
  }

  lemma EntryFits(j: nat)
    requires j < |TABLE|
    ensures |TABLE[j].0| <= POPEN_ROOM && LF !in TABLE[j].0
  {
  }

  lemma PieceStartsAlike(prefix: string, s: string)
    requires |prefix| <= POPEN_ROOM && LF !in prefix
    ensures prefix <= s[..PieceLength(s, POPEN_ROOM)] <==> prefix <= s
  {
    var n := PieceLength(s, POPEN_ROOM);
    if prefix <= s {
      assert s[..n][..|prefix|] == s[..|prefix|];
    }
    if prefix <= s[..n] { assert s[..|prefix|] == s[..n][..|prefix|]; }
  }
}
