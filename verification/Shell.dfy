/** Quoting a path for the `file` command, and what a shell makes of the result. */
module Shell {
  import opened Text
  import opened CBuffer

  const QUOTE := '\''
  const BACKSLASH := '\\'

  /** The effect of `sanitize_path`: every single quote becomes quote, backslash, quote, quote. */
  function Sanitized(s: string): string {
    if s == "" then ""
    else (if s[0] == QUOTE then [QUOTE, BACKSLASH, QUOTE, QUOTE] else [s[0]]) + Sanitized(s[1..])
  }

  function Quotes(s: string): nat {
    if s == "" then 0 else (if s[0] == QUOTE then 1 else 0) + Quotes(s[1..])
  }

  lemma {:induction false} SanitizedLength(s: string)
    ensures |Sanitized(s)| == |s| + 3 * Quotes(s)
  {
    if s != "" { SanitizedLength(s[1..]); }
  }

  lemma {:induction false} QuotesAppend(s: string, c: char)
    ensures Quotes(s + [c]) == Quotes(s) + (if c == QUOTE then 1 else 0)
  {
    if s == "" {
      assert (s + [c])[1..] == "";
    } else {
      assert (s + [c])[1..] == s[1..] + [c];
      QuotesAppend(s[1..], c);
    }
  }

  lemma {:induction false} SanitizedAppend(s: string, c: char)
    ensures Sanitized(s + [c]) ==
            Sanitized(s) + (if c == QUOTE then [QUOTE, BACKSLASH, QUOTE, QUOTE] else [c])
  {
    if s == "" {
      assert (s + [c])[1..] == "";
    } else {
      assert (s + [c])[1..] == s[1..] + [c];
      SanitizedAppend(s[1..], c);
    }
  }

  lemma {:induction false} QuotesMonotone(s: string, i: nat)
    requires i <= |s|
    ensures Quotes(s[..i]) <= Quotes(s)
    decreases |s| - i
  {
    if i == |s| {
      assert s[..i] == s;
    } else {
      assert s[..i + 1] == s[..i] + [s[i]];
      QuotesAppend(s[..i], s[i]);
      QuotesMonotone(s, i + 1);
    }
  }

  method CountQuotes(input: string) returns (count: nat)
    ensures count == Quotes(input)
  {
    count := 0;
    for p := 0 to |input|
      invariant count == Quotes(input[..p])
    {
      assert input[..p + 1] == input[..p] + [input[p]];
      QuotesAppend(input[..p], input[p]);
      if input[p] == QUOTE { count := count + 1; }
    }
    assert input[..|input|] == input;
  }

  /** `sanitize_path`: count the quotes, allocate a zeroed buffer of exactly the size needed, fill it in a second
      pass. */
  method SanitizePath(input: string) returns (ret: array<char>)
    requires NUL !in input
    ensures fresh(ret) && ret[..] == Sanitized(input) + [NUL]
  {
    var count := CountQuotes(input);
    assert input[..|input|] == input;
    var pathlen := |input|;
    ret := new char[pathlen + count * 3 + 1](_ => NUL);
    var retIndex := 0;
    for i := 0 to pathlen
      invariant retIndex == i + 3 * Quotes(input[..i])
      invariant retIndex < ret.Length && ret[..retIndex] == Sanitized(input[..i])
      invariant ret[ret.Length - 1] == NUL
    {
      assert input[..i + 1] == input[..i] + [input[i]];
      QuotesAppend(input[..i], input[i]);
      SanitizedAppend(input[..i], input[i]);
      QuotesMonotone(input, i + 1);
      retIndex := PutQuoted(ret, retIndex, input[i]);
    }
    assert ret[..] == ret[..retIndex] + [NUL];
  }

  /** The body of the copying loop. */
  method PutQuoted(ret: array<char>, at: nat, c: char) returns (next: nat)
    requires at + (if c == QUOTE then 4 else 1) < ret.Length
    modifies ret
    ensures next == at + if c == QUOTE then 4 else 1
    ensures ret[..next] == old(ret[..at]) + if c == QUOTE then [QUOTE, BACKSLASH, QUOTE, QUOTE] else [c]
    ensures ret[ret.Length - 1] == old(ret[ret.Length - 1])
  {
    if c == QUOTE {
      ret[at + 0] := QUOTE;
      ret[at + 1] := BACKSLASH;
      ret[at + 2] := QUOTE;
      ret[at + 3] := QUOTE;
      next := at + 4;
    } else {
      ret[at] := c;
      next := at + 1;
    }
  }

  /** The command line that `type_path` builds around the sanitized path. */
  function Command(path: string): string {
    "file -bi '" + Sanitized(path) + "'"
  }

  // The shell's view: token recognition with the quoting of sections 2.2.1 and 2.2.2 of the POSIX.1-2017 Shell Command
  // Language. Any other character that is special to a shell outside quotes makes the result None.

  /** A word is under construction only after a character or a quote has started it. */
  datatype Word = NoWord | Word(text: string)

  function Extend(w: Word, c: char): Word {
    if w.NoWord? then Word([c]) else Word(w.text + [c])
  }

  function Finish(words: seq<string>, w: Word): seq<string> {
    if w.NoWord? then words else words + [w.text]
  }

  predicate IsBlank(c: char) { c == ' ' || c == TAB }

  predicate IsSpecial(c: char) {
    c in "|&;<>()$`\"*?[#~=%!{}" || c == LF || c == NUL
  }

  /** Outside quotes: blanks end words, a quote opens a quoted string, a backslash makes the next character literal. */
  function Unquoted(s: string, words: seq<string>, w: Word): Option<seq<string>>
    decreases |s|
  {
    if s == "" then Some(Finish(words, w))
    else if s[0] == QUOTE then Quoted(s[1..], words, if w.NoWord? then Word("") else w)
    else if s[0] == BACKSLASH then
      if |s| == 1 || s[1] == LF then None else Unquoted(s[2..], words, Extend(w, s[1]))
    else if IsBlank(s[0]) then Unquoted(s[1..], Finish(words, w), NoWord)
    else if IsSpecial(s[0]) then None
    else Unquoted(s[1..], words, Extend(w, s[0]))
  }

  /** Inside single quotes every character but the closing quote is literal. */
  function Quoted(s: string, words: seq<string>, w: Word): Option<seq<string>>
    decreases |s|
  {
    if s == "" then None
    else if s[0] == QUOTE then Unquoted(s[1..], words, w)
    else Quoted(s[1..], words, Extend(w, s[0]))
  }

  function Words(command: string): Option<seq<string>> {
    Unquoted(command, [], NoWord)
  }

  /** Inside the quotes of the command, a sanitized string is read as the string it came from. */
  lemma {:induction false} QuotedSanitized(p: string, rest: string, words: seq<string>, text: string)
    ensures Quoted(Sanitized(p) + [QUOTE] + rest, words, Word(text)) == Unquoted(rest, words, Word(text + p))
    decreases |p|
  {
    var s := Sanitized(p) + [QUOTE] + rest;
    if p == "" {
      assert s == [QUOTE] + rest && s[1..] == rest;
      assert text + p == text;
    } else {
      var tail := Sanitized(p[1..]) + [QUOTE] + rest;
      assert text + p == (text + [p[0]]) + p[1..];
      QuotedSanitized(p[1..], rest, words, text + [p[0]]);
      if p[0] == QUOTE {
        assert s == [QUOTE, BACKSLASH, QUOTE, QUOTE] + tail;
        EscapedQuote(tail, words, text);
      } else {
        assert s == [p[0]] + tail && s[1..] == tail;
      }
    }
  }

  /** Close the quotes, a literal quote, open them again. */
  lemma EscapedQuote(tail: string, words: seq<string>, text: string)
    ensures Quoted([QUOTE, BACKSLASH, QUOTE, QUOTE] + tail, words, Word(text)) ==
            Quoted(tail, words, Word(text + [QUOTE]))
  {
    var s0 := [QUOTE, BACKSLASH, QUOTE, QUOTE] + tail;
    var s1 := [BACKSLASH, QUOTE, QUOTE] + tail;
    var s2 := [QUOTE] + tail;
    assert s0[1..] == s1 && s1[2..] == s2 && s2[1..] == tail;
    assert Quoted(s0, words, Word(text)) == Unquoted(s1, words, Word(text));
    assert Unquoted(s1, words, Word(text)) == Unquoted(s2, words, Word(text + [QUOTE]));
  }

  predicate IsPlain(c: char) { c != QUOTE && c != BACKSLASH && !IsBlank(c) && !IsSpecial(c) }

  lemma {:induction false} PlainText(plain: string, rest: string, words: seq<string>, text: string)
    requires forall k :: 0 <= k < |plain| ==> IsPlain(plain[k])
    ensures Unquoted(plain + rest, words, Word(text)) == Unquoted(rest, words, Word(text + plain))
    decreases |plain|
  {
    if plain == "" {
      assert plain + rest == rest && text + plain == text;
    } else {
      assert (plain + rest)[1..] == plain[1..] + rest;
      assert text + plain == (text + [plain[0]]) + plain[1..];
      PlainText(plain[1..], rest, words, text + [plain[0]]);
    }
  }

  /** A plain word, then a blank, is one word. */
  lemma PlainWord(plain: string, rest: string, words: seq<string>)
    requires plain != "" && forall k :: 0 <= k < |plain| ==> IsPlain(plain[k])
    ensures Unquoted(plain + " " + rest, words, NoWord) == Unquoted(rest, words + [plain], NoWord)
  {
    var s := plain + " " + rest;
    assert s[1..] == plain[1..] + (" " + rest);
    PlainText(plain[1..], " " + rest, words, [plain[0]]);
    assert [plain[0]] + plain[1..] == plain;
    assert (" " + rest)[1..] == rest;
  }

  lemma TwoWords(rest: string)
    ensures "file -bi " + rest == "file" + " " + ("-bi" + " " + rest)
    ensures [] + ["file"] == ["file"] && ["file"] + ["-bi"] == ["file", "-bi"]
  {
    assert "file -bi " == "file" + " " + "-bi" + " ";
  }

  lemma CommandStart(rest: string)
    ensures Words("file -bi " + rest) == Unquoted(rest, ["file", "-bi"], NoWord)
  {
    TwoWords(rest);
    FileIsPlain();
    PlainWord("file", "-bi" + " " + rest, []);
    PlainWord("-bi", rest, ["file"]);
  }

  lemma FileIsPlain()
    ensures forall k :: 0 <= k < |"file"| ==> IsPlain("file"[k])
    ensures forall k :: 0 <= k < |"-bi"| ==> IsPlain("-bi"[k])
  {
  }

  /** The shell reads the command as exactly three words, the last of which is the path, whatever the path contains. */
  lemma CommandHasThreeWords(path: string)
    ensures Words(Command(path)) == Some(["file", "-bi", path])
  {
    var words := ["file", "-bi"];
    var quoted := Sanitized(path) + [QUOTE] + "";
    CommandStart([QUOTE] + quoted);
    assert Command(path) == "file -bi " + ([QUOTE] + quoted);
    assert ([QUOTE] + quoted)[1..] == quoted;
    assert Unquoted([QUOTE] + quoted, words, NoWord) == Quoted(quoted, words, Word(""));
    QuotedSanitized(path, "", words, "");
    assert "" + path == path;
    assert words + [path] == ["file", "-bi", path];
  }

  /** The first half of `type_path`: sanitize, then build the command in a buffer sized for it. */
  method BuildCommand(path: string) returns (command: array<char>)
    requires NUL !in path
    ensures fresh(command) && command.Length == |Command(path)| + 1
    ensures Holds(command, Command(path))
  {
    var sanitized := SanitizePath(path);
    SanitizedKeepsNulOut(path);
    assert Holds(sanitized, Sanitized(path));
    var n := Strlen(sanitized, Sanitized(path));
    command := new char[n + 12];
    Strcpy(command, "file -bi '");
    Strcat(command, "file -bi '", sanitized[..n]);
    Strcat(command, "file -bi '" + Sanitized(path), "'");
  }

  lemma {:induction false} SanitizedKeepsNulOut(s: string)
    requires NUL !in s
    ensures NUL !in Sanitized(s)
  {
    if s != "" { SanitizedKeepsNulOut(s[1..]); }
  }
}
