/** Setting the home directory from the configuration: a fixed-length copy into a buffer that already holds a path. */
module Homedir {
  import opened Text
  import opened CBuffer
  import opened PathSecurity

  const COPY_LIMIT := 259

  /** The buffer of the settings: a name in the part that a copy overwrites, and the bytes behind that part. */
  datatype Home = Home(name: string, tail: string)

  /** Every string in these bytes, wherever it starts, is empty or ends in a slash. */
  ghost predicate SlashesBeforeNuls(tail: string) {
    forall k :: 0 <= k < |tail| && tail[k] != NUL ==> k + 1 < |tail| && (tail[k + 1] != NUL || tail[k] == '/')
  }

  ghost predicate ValidTail(tail: string) {
    && |tail| == PATH_MAX - COPY_LIMIT
    && SlashesBeforeNuls(tail) && tail[|tail| - 2] == NUL && tail[|tail| - 1] == NUL
  }

  ghost predicate ValidHome(h: Home) {
    |h.name| <= COPY_LIMIT && NUL !in h.name && ValidTail(h.tail)
  }

  function Zeros(n: nat): (r: string)
    ensures |r| == n && forall k :: 0 <= k < n ==> r[k] == NUL
  {
    seq(n, _ => NUL)
  }

  function Padded(name: string): (r: string)
    requires |name| <= COPY_LIMIT
    ensures |r| == COPY_LIMIT
  {
    name + Zeros(COPY_LIMIT - |name|)
  }

  function Bytes(h: Home): (r: string)
    requires |h.name| <= COPY_LIMIT
    ensures |r| == COPY_LIMIT + |h.tail|
  {
    Padded(h.name) + h.tail
  }

  /** The path in the buffer. */
  function Path(h: Home): string {
    if |h.name| < COPY_LIMIT then h.name else h.name + CString(h.tail)
  }

  /** A NUL is written one byte behind the end of the string. */
  function CutAfter(tail: string): (r: string)
    ensures |r| == |tail|
  {
    var q := |CString(tail)| + 1;
    if q < |tail| then tail[q := NUL] else tail
  }

  /** The buffer after a `home-directory` line that names `dir`. */
  function SetTo(dir: string, h: Home): Home
    requires ValidHome(h) && 1 <= |dir| <= COPY_LIMIT
  {
    if EndsInSlash(Path(Home(dir, h.tail))) then Home(dir, h.tail) else Slashed(dir, h.tail)
  }

  /** A slash is put behind the name, then a NUL behind the string that this gives. */
  function Slashed(dir: string, tail: string): Home
    requires 1 <= |dir| <= COPY_LIMIT && tail != ""
  {
    if |dir| == COPY_LIMIT then Home(dir, CutAfter(tail[0 := '/']))
    else if |dir| == COPY_LIMIT - 1 then Home(dir + "/", CutAfter(tail))
    else if |dir| == COPY_LIMIT - 2 then Home(dir + "/", tail[0 := NUL])
    else Home(dir + "/", tail)
  }

  lemma {:induction false} CStringConcat(a: string, b: string)
    requires NUL !in a
    ensures CString(a + b) == a + CString(b)
  {
    if a == "" {
      assert a + b == b;
    } else {
      assert (a + b)[1..] == a[1..] + b;
      CStringConcat(a[1..], b);
    }
  }

  lemma PathIsPrinted(h: Home)
    requires |h.name| <= COPY_LIMIT && NUL !in h.name
    ensures CString(Bytes(h)) == Path(h)
  {
    var zeros := Zeros(COPY_LIMIT - |h.name|);
    assert Bytes(h) == h.name + (zeros + h.tail);
    CStringConcat(h.name, zeros + h.tail);
    if |h.name| == COPY_LIMIT { assert zeros + h.tail == h.tail; }
  }

  /** `strncpy(dst, s, n)` */
  method Strncpy(dst: array<char>, s: string, n: nat)
    requires |s| <= n <= dst.Length
    modifies dst
    ensures dst[..n] == s + Zeros(n - |s|) && dst[n..] == old(dst[n..])
  {
    for k := 0 to n
      invariant forall j :: 0 <= j < k ==> dst[j] == if j < |s| then s[j] else NUL
      invariant dst[n..] == old(dst[n..])
    {
      dst[k] := if k < |s| then s[k] else NUL;
    }
  }

  /** `strlen` of the buffer. */
  method PathLength(homedir: array<char>, ghost h: Home) returns (n: nat)
    requires |h.name| <= COPY_LIMIT && NUL !in h.name && homedir[..] == Bytes(h) && |Path(h)| < homedir.Length
    ensures n == |Path(h)| == |CString(homedir[..])| && homedir[n] == NUL
    ensures n > 0 ==> homedir[n - 1] == Path(h)[n - 1]
  {
    PathIsPrinted(h);
    BufferHoldsItsPrint(homedir, Path(h));
    n := Strlen(homedir, Path(h));
    assert homedir[..n] == Path(h);
  }

  /** The first slash of `dir` behind the copied name, and the NUL that the code puts behind the string. */
  method AddSlash(homedir: array<char>, n: nat, dir: string, ghost h: Home)
    requires homedir.Length == PATH_MAX && ValidHome(h) && 1 <= |dir| <= COPY_LIMIT && NUL !in dir
    requires homedir[..] == Bytes(Home(dir, h.tail)) && n == |dir|
    requires !EndsInSlash(Path(Home(dir, h.tail)))
    modifies homedir
    ensures homedir[..] == Bytes(SetTo(dir, h))
  {
    ghost var u := WithSlash(dir, h.tail);
    NothingBehind(dir, h);
    homedir[n] := '/';
    assert homedir[..] == Bytes(u);
    TailEnds(u.tail);
    var m := PathLength(homedir, u);
    homedir[m + 1] := NUL;
    assert homedir[..] == Bytes(u)[m + 1 := NUL];
    CutBytes(dir, h.tail);
  }

  /** The buffer once the slash is in it. */
  function WithSlash(dir: string, tail: string): Home
    requires 1 <= |dir| <= COPY_LIMIT && tail != ""
  {
    if |dir| < COPY_LIMIT then Home(dir + "/", tail) else Home(dir, tail[0 := '/'])
  }

  lemma UpdateTail(name: string, tail: string, q: nat)
    requires |name| <= COPY_LIMIT && q < |tail|
    ensures Bytes(Home(name, tail))[COPY_LIMIT + q := NUL] == Bytes(Home(name, tail[q := NUL]))
  {
    assert Padded(name) + tail[q := NUL] == (Padded(name) + tail)[COPY_LIMIT + q := NUL];
  }

  lemma UpdatePadding(name: string, tail: string, k: nat)
    requires |name| <= k < COPY_LIMIT
    ensures Bytes(Home(name, tail))[k := NUL] == Bytes(Home(name, tail))
  {
    assert (Padded(name) + tail)[k] == NUL;
  }

  lemma CutBytes(dir: string, tail: string)
    requires 1 <= |dir| <= COPY_LIMIT && tail != "" && |CString(WithSlash(dir, tail).tail)| + 1 < |tail|
    ensures var u := WithSlash(dir, tail);
            Bytes(u)[|Path(u)| + 1 := NUL] == Bytes(Slashed(dir, tail))
  {
    var u := WithSlash(dir, tail);
    if |dir| < COPY_LIMIT - 2 {
      UpdatePadding(u.name, u.tail, |u.name| + 1);
    } else if |dir| == COPY_LIMIT - 2 {
      UpdateTail(u.name, u.tail, 0);
    } else {
      UpdateTail(u.name, u.tail, |CString(u.tail)| + 1);
    }
  }

  /** What lies behind a name that fills the copy limit ends in a slash, or it is nothing. */
  lemma NothingBehind(dir: string, h: Home)
    requires ValidHome(h) && 1 <= |dir| <= COPY_LIMIT && !EndsInSlash(Path(Home(dir, h.tail)))
    ensures !EndsInSlash(dir) && (|dir| == COPY_LIMIT ==> h.tail[0] == NUL)
  {
    if |dir| == COPY_LIMIT { StringEnds(h.tail); }
  }

  lemma StringEnds(tail: string)
    requires SlashesBeforeNuls(tail)
    ensures CString(tail) == "" || EndsInSlash(CString(tail))
    ensures tail != "" ==> |CString(tail)| < |tail|
  {
    var s := CString(tail);
    if s != "" {
      assert tail[|s| - 1] == s[|s| - 1];
    }
  }

  lemma TailEnds(tail: string)
    requires |tail| > 2 && tail[|tail| - 2] == NUL
    ensures |CString(tail)| <= |tail| - 2
  {
    assert forall k :: 0 <= k < |CString(tail)| ==> tail[k] != NUL;
  }

  /** `strncpy(settings->homedir, match, 259)` */
  method CopyName(homedir: array<char>, dir: string, ghost h: Home)
    requires homedir.Length == PATH_MAX && |h.name| <= COPY_LIMIT && homedir[..] == Bytes(h) && |dir| <= COPY_LIMIT
    modifies homedir
    ensures homedir[..] == Bytes(Home(dir, h.tail))
  {
    assert homedir[COPY_LIMIT..] == homedir[..][COPY_LIMIT..] == h.tail;
    Strncpy(homedir, dir, COPY_LIMIT);
    assert homedir[..] == homedir[..COPY_LIMIT] + homedir[COPY_LIMIT..];
  }

  /** The home-directory branch of `read_conf_line`, for every such line of the file. */
  method SetHomedir(homedir: array<char>, dir: string, ghost h: Home)
    requires homedir.Length == PATH_MAX && ValidHome(h) && homedir[..] == Bytes(h)
    requires 1 <= |dir| <= COPY_LIMIT && NUL !in dir
    modifies homedir
    ensures homedir[..] == Bytes(SetTo(dir, h))
    ensures CString(homedir[..]) == Path(SetTo(dir, h))
  {
    ghost var u := Home(dir, h.tail);
    CopyName(homedir, dir, h);
    CopyFits(dir, h);
    var length := PathLength(homedir, u);
    if homedir[length - 1] != '/' {
      AddSlash(homedir, length, dir, h);
    }
    SetToIsPrinted(dir, h);
  }

  /** In terms of the bytes: the name and NULs up to the limit are copied in; if the string that is there now does not
      end in a slash, a slash goes behind it, and a NUL one byte behind the end of the string that this gives. */
  lemma SetToByBytes(dir: string, h: Home)
    requires ValidHome(h) && 1 <= |dir| <= COPY_LIMIT && NUL !in dir
    ensures var copied := dir + Zeros(259 - |dir|) + h.tail;
            var n := |CString(copied)|;
            && 0 < n < |copied|
            && if copied[n - 1] == '/' then Bytes(SetTo(dir, h)) == copied
               else IsCutBehind(copied[n := '/'], Bytes(SetTo(dir, h)))
  {
    var u := Home(dir, h.tail);
    assert dir + Zeros(259 - |dir|) + h.tail == Bytes(u);
    PathIsPrinted(u);
    CopyFits(dir, h);
    var n := |Path(u)|;
    assert Bytes(u)[n - 1] == Path(u)[n - 1];
    if Path(u)[n - 1] != '/' {
      NothingBehind(dir, h);
      SlashByBytes(dir, h.tail, n);
    }
  }

  /** `after` is `bytes` with a NUL one byte behind the end of its string. */
  ghost predicate IsCutBehind(bytes: string, after: string) {
    |CString(bytes)| + 1 < |bytes| && after == bytes[|CString(bytes)| + 1 := NUL]
  }

  lemma SlashByBytes(dir: string, tail: string, n: nat)
    requires 1 <= |dir| == n <= COPY_LIMIT && NUL !in dir && ValidTail(tail)
    ensures n < COPY_LIMIT + |tail| && IsCutBehind(Bytes(Home(dir, tail))[n := '/'], Bytes(Slashed(dir, tail)))
  {
    var u := WithSlash(dir, tail);
    assert Bytes(Home(dir, tail))[n := '/'] == Bytes(u);
    TailEnds(u.tail);
    PathIsPrinted(u);
    CutBytes(dir, tail);
  }

  lemma SetToIsPrinted(dir: string, h: Home)
    requires ValidHome(h) && 1 <= |dir| <= COPY_LIMIT && NUL !in dir
    ensures CString(Bytes(SetTo(dir, h))) == Path(SetTo(dir, h))
  {
    SetToIsValid(dir, h);
    PathIsPrinted(SetTo(dir, h));
  }

  lemma CopyFits(dir: string, h: Home)
    requires ValidHome(h) && 1 <= |dir| <= COPY_LIMIT
    ensures var path := Path(Home(dir, h.tail));
            && 0 < |path| < PATH_MAX
            && (path[|path| - 1] != '/' ==> |path| == |dir| && !EndsInSlash(path))
            && (path[|path| - 1] == '/' ==> SetTo(dir, h) == Home(dir, h.tail))
  {
    TailEnds(h.tail);
    if !EndsInSlash(Path(Home(dir, h.tail))) { NothingBehind(dir, h); }
  }

  lemma CutKeepsSlashes(tail: string)
    requires SlashesBeforeNuls(tail)
    ensures SlashesBeforeNuls(CutAfter(tail))
  {
    var q, cut := |CString(tail)| + 1, CutAfter(tail);
    if q < |tail| {
      assert tail[q - 1] == NUL;
      forall k | 0 <= k < |cut| && cut[k] != NUL
        ensures k + 1 < |cut| && (cut[k + 1] != NUL || cut[k] == '/')
      {
        assert k != q && k != q - 1 && cut[k] == tail[k];
      }
    }
  }

  lemma CutIsValid(tail: string)
    requires ValidTail(tail)
    ensures ValidTail(CutAfter(tail)) && CString(CutAfter(tail)) == CString(tail)
  {
    CutKeepsSlashes(tail);
    CutKeepsString(tail);
  }

  lemma SlashInFront(tail: string)
    requires ValidTail(tail)
    ensures ValidTail(tail[0 := '/']) && EndsInSlash(CString(tail[0 := '/']))
    ensures ValidTail(tail[0 := NUL])
  {
    StringEnds(tail[0 := '/']);
  }

  lemma SlashedIsValid(dir: string, tail: string)
    requires ValidTail(tail) && 1 <= |dir| <= COPY_LIMIT && NUL !in dir
    ensures var u := Slashed(dir, tail);
            |u.name| <= COPY_LIMIT && NUL !in u.name && ValidTail(u.tail) && EndsInSlash(Path(u))
  {
    SlashInFront(tail);
    if |dir| == COPY_LIMIT {
      CutIsValid(tail[0 := '/']);
      EndOfConcat(dir, CString(tail[0 := '/']));
    } else if |dir| == COPY_LIMIT - 1 {
      CutIsValid(tail);
      StringEnds(tail);
      EndOfConcat(dir + "/", CString(tail));
    }
  }

  lemma SetToIsValid(dir: string, h: Home)
    requires ValidHome(h) && 1 <= |dir| <= COPY_LIMIT && NUL !in dir
    ensures ValidHome(SetTo(dir, h)) && EndsInSlash(Path(SetTo(dir, h)))
  {
    if !EndsInSlash(Path(Home(dir, h.tail))) { SlashedIsValid(dir, h.tail); }
  }

  /** The buffer after all home-directory lines of a file. */
  function SetToAll(dirs: seq<string>, h: Home): Home
    requires ValidHome(h) && forall k :: 0 <= k < |dirs| ==> 1 <= |dirs[k]| <= COPY_LIMIT && NUL !in dirs[k]
    decreases |dirs|
  {
    if dirs == [] then h
    else
      SetToIsValid(dirs[0], h);
      SetToAll(dirs[1..], SetTo(dirs[0], h))
  }

  /** The buffer at the start, when it holds the working directory. */
  function StartHome(cwd: string): Home
    requires |cwd| < PATH_MAX - 1
  {
    var tail := if |cwd| > COPY_LIMIT then cwd[COPY_LIMIT..] else "";
    Home(if |cwd| > COPY_LIMIT then cwd[..COPY_LIMIT] else cwd,
         tail + Zeros(PATH_MAX - COPY_LIMIT - |tail|))
  }

  lemma StartIsValid(cwd: string)
    requires |cwd| < PATH_MAX - 1 && NUL !in cwd && EndsInSlash(cwd)
    ensures ValidHome(StartHome(cwd)) && Path(StartHome(cwd)) == cwd
    ensures Bytes(StartHome(cwd)) == cwd + Zeros(PATH_MAX - |cwd|)
  {
    if |cwd| < COPY_LIMIT {
      assert StartHome(cwd).tail == Zeros(PATH_MAX - COPY_LIMIT);
    } else {
      LongStart(cwd, cwd[COPY_LIMIT..], Zeros(PATH_MAX - |cwd|));
    }
  }

  lemma LongStart(cwd: string, end: string, zeros: string)
    requires COPY_LIMIT <= |cwd| < PATH_MAX - 1 && NUL !in cwd && EndsInSlash(cwd)
    requires end == cwd[COPY_LIMIT..] && zeros == Zeros(PATH_MAX - |cwd|)
    ensures ValidHome(StartHome(cwd)) && Path(StartHome(cwd)) == cwd && Bytes(StartHome(cwd)) == cwd + zeros
  {
    var name := cwd[..COPY_LIMIT];
    assert cwd == name + end;
    StartParts(cwd, name, end, zeros);
    assert end != "" ==> end[|end| - 1] == '/';
    TailThenZeros(end, zeros);
    assert Padded(name) == name;
  }

  lemma StartParts(cwd: string, name: string, end: string, zeros: string)
    requires |name| == COPY_LIMIT && cwd == name + end && |cwd| < PATH_MAX - 1 && zeros == Zeros(PATH_MAX - |cwd|)
    ensures StartHome(cwd) == Home(name, end + zeros)
  {
    assert cwd[..COPY_LIMIT] == name && cwd[COPY_LIMIT..] == end;
  }

  lemma TailThenZeros(end: string, zeros: string)
    requires (end == "" || EndsInSlash(end)) && NUL !in end
    requires zeros != "" && forall k :: 0 <= k < |zeros| ==> zeros[k] == NUL
    ensures CString(end + zeros) == end && SlashesBeforeNuls(end + zeros)
  {
    CStringConcat(end, zeros);
    assert CString(zeros) == "" && end + "" == end;
  }

  /** Whatever the lines name, the home directory always ends in a slash. */
  lemma {:induction false} HomeEndsInSlash(dirs: seq<string>, h: Home)
    requires forall k :: 0 <= k < |dirs| ==> 1 <= |dirs[k]| <= COPY_LIMIT && NUL !in dirs[k]
    requires ValidHome(h) && EndsInSlash(Path(h))
    ensures ValidHome(SetToAll(dirs, h)) && EndsInSlash(Path(SetToAll(dirs, h)))
    decreases |dirs|
  {
    if dirs != [] {
      SetToIsValid(dirs[0], h);
      HomeEndsInSlash(dirs[1..], SetTo(dirs[0], h));
    }
  }

  /** The name, or the name with its slash, fills the copy limit, and there are bytes of an older path behind it. */
  predicate KeepsOldEnd(dir: string, tail: string)
    requires |tail| > 1
  {
    if |dir| == COPY_LIMIT && !EndsInSlash(dir) then tail[1] != NUL
    else |dir| >= (if EndsInSlash(dir) then COPY_LIMIT else COPY_LIMIT - 1) && tail[0] != NUL
  }

  lemma FirstBytes(tail: string)
    requires |tail| > 1 && SlashesBeforeNuls(tail)
    ensures CString(tail) == "" <==> tail[0] == NUL
    ensures CString(tail) == "/" <==> tail[0] != NUL && tail[1] == NUL
    ensures CString(tail[0 := '/']) == "/" <==> tail[1] == NUL
  {
    assert CString(tail) == if tail[0] == NUL then "" else [tail[0]] + CString(tail[1..]);
    assert tail[0 := '/'][1..] == tail[1..];
    assert CString(tail[1..]) == "" <==> tail[1] == NUL;
  }

  lemma CutKeepsString(tail: string)
    ensures CString(CutAfter(tail)) == CString(tail)
  {
    var s, q := CString(tail), |CString(tail)| + 1;
    if q < |tail| {
      NulThenAnything(s, tail);
      NulThenAnything(s, tail[q := NUL]);
    }
  }

  lemma NulThenAnything(s: string, bytes: string)
    requires NUL !in s && |s| < |bytes| && s == bytes[..|s|] && bytes[|s|] == NUL
    ensures CString(bytes) == s
  {
    assert bytes == s + [NUL] + bytes[|s| + 1..];
    CStringOfBuffer(s, bytes[|s| + 1..]);
  }

  lemma EndOfConcat(a: string, b: string)
    ensures EndsInSlash(a + b) <==> if b == "" then EndsInSlash(a) else EndsInSlash(b)
  {
    if b == "" { assert a + b == a; }
  }

  /** What follows a name that fills the copy limit. */
  lemma FullPathAfter(dir: string, h: Home)
    requires ValidHome(h) && |dir| == COPY_LIMIT
    ensures Path(SetTo(dir, h)) ==
            dir + CString(if h.tail[0] == NUL && !EndsInSlash(dir) then h.tail[0 := '/'] else h.tail)
  {
    StringEnds(h.tail);
    EndOfConcat(dir, CString(h.tail));
    CutKeepsString(h.tail[0 := '/']);
    assert CString(h.tail) == "" <==> h.tail[0] == NUL;
  }

  /** What follows a shorter name. */
  lemma ShortPathAfter(dir: string, h: Home)
    requires ValidHome(h) && 1 <= |dir| < COPY_LIMIT
    ensures Path(SetTo(dir, h)) ==
            if EndsInSlash(dir) then dir
            else if |dir| == COPY_LIMIT - 1 then dir + "/" + CString(h.tail)
            else dir + "/"
  {
    CutKeepsString(h.tail);
  }

  lemma SameBehind(a: string, b: string, c: string)
    ensures a + b == a + c <==> b == c
  {
    if a + b == a + c { assert b == (a + b)[|a|..] == c; }
  }

  /** It is the directory that the line names, unless the end of a longer old path stays behind it. */
  lemma HomeIsAsNamedIff(dir: string, h: Home)
    requires ValidHome(h) && 1 <= |dir| <= COPY_LIMIT && NUL !in dir
    ensures Path(SetTo(dir, h)) == (if EndsInSlash(dir) then dir else dir + "/") <==> !KeepsOldEnd(dir, h.tail)
  {
    FirstBytes(h.tail);
    assert dir + "" == dir && dir + "/" + "" == dir + "/";
    if |dir| == COPY_LIMIT {
      FullPathAfter(dir, h);
      SameBehind(dir, CString(h.tail), "");
      SameBehind(dir, CString(h.tail), "/");
      SameBehind(dir, CString(h.tail[0 := '/']), "/");
    } else {
      ShortPathAfter(dir, h);
      SameBehind(dir + "/", CString(h.tail), "");
    }
  }

  /** A case in which it does: a name of 259 characters over an older path of 300 gets the last 41 of these as its
      end. */
  lemma OldEndStays(dir: string, cwd: string)
    requires |dir| == COPY_LIMIT && NUL !in dir && !EndsInSlash(dir)
    requires |cwd| == 300 && NUL !in cwd && EndsInSlash(cwd)
    ensures ValidHome(StartHome(cwd)) && Path(SetTo(dir, StartHome(cwd))) == dir + cwd[COPY_LIMIT..] != dir + "/"
  {
    StartIsValid(cwd);
  }
}
