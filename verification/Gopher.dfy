/** A whole request, from the bytes on the socket to the answer, and what a client meets that follows menus. */
module Gopher {
  import opened Text
  import opened CBuffer
  import opened Request
  import opened PathSecurity
  import opened ItemTypes
  import opened Menu

  const MAX_REQUEST_LEN := 4096

  /** How a request ends: closed without an answer, refused by the path filter, or one of three answers. */
  datatype Reply =
    | Closed
    | Dropped(path: string)
    | Directory(path: string, selector: string)
    | NotFound(text: string)
    | File(path: string)

  /** The answer to a selector, once it has been read. */
  function AnswerTo(home: string, input: string, run: seq<string> -> Report): Reply {
    var path := home + input;
    if |path| >= PATH_MAX then Closed
    else if Refused(path) then Dropped(path)
    else
      var kind := TypeOf(Mime(run, path));
      if kind == '1' then Directory(path, input)
      else if kind == '3' then NotFound("3\t" + input + "\r\n.\r\n")
      else File(path)
  }

  /** The answer to a stream of bytes. */
  function Answer(home: string, stream: string, run: seq<string> -> Report): Reply
    requires |home| < PATH_MAX
  {
    var k := Find(stream, MAX_REQUEST_LEN - |home|);
    if k == -1 then Closed else AnswerTo(home, CString(stream[..k - 1]), run)
  }

  /** `management_function` after the request line has been read into `input`. */
  method ServeInput(home: string, input: array<char>, ghost text: string, run: seq<string> -> Report)
      returns (reply: Reply)
    requires NUL !in home && |home| < PATH_MAX && Holds(input, text)
    ensures reply == AnswerTo(home, text, run)
  {
    var pathFile := new char[PATH_MAX](_ => NUL);
    Strcpy(pathFile, home);
    var inputLength := Strlen(input, text);
    var homeLength := Strlen(pathFile, home);
    var lenCheck := homeLength + inputLength;
    if lenCheck >= PATH_MAX {
      return Closed;
    }
    Strcat(pathFile, home, input[..inputLength]);
    HoldsMeansPrints(pathFile, home + text);
    var path := CString(pathFile[..]);
    if Refused(path) {
      return Dropped(path);
    }
    var kind := TypePath(path, run);
    if kind == '1' {
      return Directory(path, input[..inputLength]);
    } else if kind == '3' {
      var temp := new char[inputLength + 8];
      Strcpy(temp, "3\t");
      Strcat(temp, "3\t", input[..inputLength]);
      Strcat(temp, "3\t" + text, "\r\n.\r\n");
      HoldsMeansPrints(temp, "3\t" + text + "\r\n.\r\n");
      return NotFound(CString(temp[..]));
    } else {
      return File(path);
    }
  }

  /** The request line, read into a zeroed buffer as long as the home directory leaves room for. */
  method ReadInput(home: string, sd: Socket) returns (ok: bool, input: array<char>)
    requires |home| < PATH_MAX
    modifies sd
    ensures var k := Find(Stream(old(sd.events)), MAX_REQUEST_LEN - |home|);
            (ok <==> k != -1) && (ok ==> Holds(input, CString(Stream(old(sd.events))[..k - 1])))
  {
    ghost var stream := Stream(sd.events);
    input := new char[MAX_REQUEST_LEN - |home|](_ => NUL);
    var check := ReadRequest(sd, input);
    AnswerUnique(stream, input.Length, check, Find(stream, input.Length));
    ok := check != -1;
    if ok {
      BufferHoldsItsPrint(input, CString(stream[..check - 1]));
    }
  }

  /** `management_function`: the answer depends on the bytes received and on nothing else about their arrival. */
  method ManagementFunction(home: string, sd: Socket, run: seq<string> -> Report) returns (reply: Reply)
    requires NUL !in home && |home| < PATH_MAX
    modifies sd
    ensures reply == Answer(home, Stream(old(sd.events)), run)
  {
    ghost var stream := Stream(sd.events);
    ghost var k := Find(stream, MAX_REQUEST_LEN - |home|);
    var ok, input := ReadInput(home, sd);
    if !ok {
      return Closed;
    }
    reply := ServeInput(home, input, CString(stream[..k - 1]), run);
  }

  /** Every request that is read successfully leaves room for the joined path: the explicit length check never fires. */
  lemma LengthCheckNeverFires(home: string, stream: string)
    requires |home| < PATH_MAX
    ensures var k := Find(stream, MAX_REQUEST_LEN - |home|);
            k != -1 ==> |home + CString(stream[..k - 1])| <= 4094 < PATH_MAX
  {
  }

  /** A properly terminated selector reaches the path unchanged exactly when it fits the request limit and holds neither
      a NUL nor a CRLF. */
  lemma SelectorArrivesIff(home: string, selector: string, extra: string)
    requires |home| < PATH_MAX
    ensures var stream := selector + CRLF + extra;
            var k := Find(stream, MAX_REQUEST_LEN - |home|);
            (k == |selector| + 1 && CString(stream[..k - 1]) == selector) <==>
            |home| + |selector| <= 4094 && NUL !in selector && forall j :: !CrlfAt(selector, j)
  {
    var stream := selector + CRLF + extra;
    LineReadBackIff(selector, extra, MAX_REQUEST_LEN - |home|);
    assert stream[..|selector|] == selector;
  }

  // Menu walks

  /** A server at rest: its settings, the directories and files behind it, and the byte that happens to lie before an
      empty selector. */
  datatype Site = Site(home: string, hostname: string, port: nat, before: char,
                       dirs: string -> seq<string>, run: seq<string> -> Report)

  ghost predicate ValidSite(site: Site) {
    && EndsInSlash(site.home) && |site.home| < PATH_MAX && NUL !in site.home
    && IsField(site.hostname) && site.port < 65536
  }

  /** The home directory joined with the advertised selector is the path that was typed when the menu was built, for
      every selector but an empty one with no slash in front of it. */
  lemma AdvertisedPathIff(home: string, selector: string, before: char, name: string)
    requires EndsInSlash(home)
    ensures home + SubSelector(selector, before, name) == SubPath(home + selector, name) <==>
            selector != "" || before == '/'
  {
    if selector != "" {
      assert (home + selector)[|home + selector| - 1] == selector[|selector| - 1];
      assert home + (selector + "/" + name) == home + selector + "/" + name;
      assert home + (selector + name) == home + selector + name;
    } else {
      assert home + selector == home;
      assert |home + ("/" + name)| != |home + name|;
      assert selector + name == name && selector + "/" + name == "/" + name;
    }
  }

  /** Even in the remaining case the two paths name the same file. */
  lemma EmptySelectorStillResolves(home: string, name: string)
    requires EndsInSlash(home)
    ensures ResolvePath(home + ("/" + name)) == ResolvePath(home + name)
  {
    SelectorResolvesFromHome(home, "/" + name);
    SelectorResolvesFromHome(home, name);
    assert ("/" + name)[1..] == name;
    var rest := Components(name);
    assert ([""] + rest)[1..] == rest;
  }

  lemma OccursByBytes(s: string, w: string, i: nat)
    requires i + |w| <= |s|
    ensures OccursAt(s, w, i) <==> forall m :: i <= m < i + |w| ==> s[m] == w[m - i]
  {
    assert forall m :: i <= m < i + |w| ==> s[m] == s[i..i + |w|][m - i];
  }

  lemma OccursWithin(a: string, s: string, b: string, w: string, i: nat)
    requires i + |w| <= |s|
    ensures OccursAt(a + s + b, w, |a| + i) <==> OccursAt(s, w, i)
  {
    var t := a + s + b;
    assert t[|a| + i..|a| + i + |w|] == s[i..i + |w|];
  }

  lemma OccursLeft(a: string, b: string, w: string)
    requires Contains(a, w)
    ensures Contains(a + "/" + b, w)
  {
    var i :| 0 <= i <= |a| && OccursAt(a, w, i);
    OccursWithin("", a, "/" + b, w, i);
    assert a + "/" + b == "" + a + ("/" + b);
    assert OccursAt(a + "/" + b, w, i);
  }

  lemma OccursRight(a: string, b: string, w: string)
    requires Contains(b, w)
    ensures Contains(a + "/" + b, w)
  {
    var j :| 0 <= j <= |b| && OccursAt(b, w, j);
    OccursWithin(a + "/", b, "", w, j);
    assert a + "/" + b == (a + "/") + b + "";
    assert OccursAt(a + "/" + b, w, |a| + 1 + j);
  }

  /** A word without a slash cannot lie across one. */
  lemma OccursOnOneSide(a: string, b: string, w: string)
    requires w != "" && '/' !in w && Contains(a + "/" + b, w)
    ensures Contains(a, w) || Contains(b, w)
  {
    var s := a + "/" + b;
    var i :| 0 <= i <= |s| && OccursAt(s, w, i);
    OccursByBytes(s, w, i);
    assert s[|a|] == '/' && !(i <= |a| < i + |w|);
    if i <= |a| {
      assert s == "" + a + ("/" + b);
      OccursWithin("", a, "/" + b, w, i);
    } else {
      assert s == (a + "/") + b + "";
      OccursWithin(a + "/", b, "", w, i - |a| - 1);
    }
  }

  lemma OccursInEither(a: string, b: string, w: string)
    requires w != "" && '/' !in w
    ensures Contains(a + "/" + b, w) <==> Contains(a, w) || Contains(b, w)
  {
    if Contains(a + "/" + b, w) { OccursOnOneSide(a, b, w); }
    if Contains(a, w) { OccursLeft(a, b, w); }
    if Contains(b, w) { OccursRight(a, b, w); }
  }

  lemma {:induction false} OneComponent(name: string)
    requires '/' !in name
    ensures Components(name) == [name]
  {
    if name != "" {
      OneComponent(name[1..]);
      assert [name[0]] + name[1..] == name;
    }
  }

  lemma JoinedRefusedIff(a: string, name: string)
    requires '/' !in name
    ensures Refused(a + "/" + name) <==>
            DotDotInside(Components(a)) || EndsInDotDot(Last(Components(a))) ||
            Contains(a, "..\\") || Contains(name, "..\\")
    ensures Components(a + "/" + name) == Components(a) + [name]
  {
    ComponentsJoin(a, name);
    OneComponent(name);
    DotDotInsideAppend(Components(a), name);
    OccursInEither(a, name, "..\\");
    RefusedIff(a + "/" + name);
  }

  /** Which entries of an accepted directory the filter refuses: all of them if the last component of the directory's
      path ends in two dots, and those whose name has two dots before a backslash. */
  lemma ChildRefusedIff(path: string, name: string)
    requires path != "" && !Refused(path) && '/' !in name
    ensures Refused(SubPath(path, name)) <==> EndsInDotDot(Last(Components(path))) || Contains(name, "..\\")
  {
    if EndsInSlash(path) {
      var a := path[..|path| - 1];
      assert path == a + "/" + "" && SubPath(path, name) == a + "/" + name;
      JoinedRefusedIff(a, name);
      JoinedRefusedIff(a, "");
      assert !EndsInDotDot(Last(Components(path)));
    } else {
      JoinedRefusedIff(path, name);
      RefusedIff(path);
    }
  }

  lemma DotDotInsideAppend(comps: seq<string>, last: string)
    requires comps != []
    ensures DotDotInside(comps + [last]) <==> DotDotInside(comps) || EndsInDotDot(Last(comps))
  {
    var all := comps + [last];
    assert forall k :: 0 <= k < |comps| ==> comps[k] == all[k];
  }

  /** What the client receives for a request: the menu, when a directory with something in it is served. */
  function MenuFor(site: Site, stream: string): Option<string>
    requires |site.home| < PATH_MAX
  {
    var reply := Answer(site.home, stream, site.run);
    if reply.Directory? && reply.path != "" && Listed(site.dirs(reply.path)) != [] then
      Some(MenuText(Items(Client(reply.path, site.hostname, site.port), reply.selector, site.before, site.run,
                          Listed(site.dirs(reply.path)))))
    else None
  }

  /** The strings of the file system are C strings. */
  ghost predicate NulFreeSite(site: Site) {
    NUL !in site.hostname &&
    forall path, k :: 0 <= k < |site.dirs(path)| ==> NUL !in site.dirs(path)[k]
  }

  /** Reading, joining, filtering, typing and listing put together: what a connection gets sent as a menu is `MenuFor`
      of the bytes it sent. (For an empty directory the code goes on with a null pointer; here nothing is sent.) */
  method ServeMenu(site: Site, sd: Socket) returns (menu: Option<string>)
    requires ValidSite(site) && NulFreeSite(site)
    modifies sd
    ensures menu == MenuFor(site, Stream(old(sd.events)))
  {
    var reply := ManagementFunction(site.home, sd, site.run);
    if !reply.Directory? {
      return None;
    }
    var entries := site.dirs(reply.path);
    if Listed(entries) == [] {
      return None;
    }
    var c := Client(reply.path, site.hostname, site.port);
    var response := SendContentOfDir(c, reply.selector, site.before, entries, site.run);
    ghost var text := MenuText(Items(c, reply.selector, site.before, site.run, Listed(entries)));
    HoldsMeansPrints(response, text);
    return Some(CString(response[..]));
  }

  /** A client that requests `selector`, picks line `choices[0]` of the menu it parses, requests that line's selector,
      and so on; the result is the selector it holds in the end. */
  function Follow(site: Site, selector: string, choices: seq<nat>): Option<string>
    requires |site.home| < PATH_MAX
    decreases |choices|
  {
    if choices == [] then Some(selector)
    else
      var menu := MenuFor(site, selector + CRLF);
      if menu.None? then None
      else
        var parsed := ParseMenu(menu.value);
        if parsed.None? || choices[0] >= |parsed.value.0| then None
        else Follow(site, parsed.value.0[choices[0]].selector, choices[1..])
  }

  /** The server opens `path` as a directory: it is short enough, passes the filter, and is a directory with something
      in it. */
  predicate Opens(site: Site, path: string) {
    && |path| <= 4094 && !Refused(path)
    && TypeOf(Mime(site.run, path)) == '1' && Listed(site.dirs(path)) != []
  }

  /** The same walk on the paths of the server: `choices[0]` picks an entry of the directory `path`, and so on. */
  function Descend(site: Site, path: string, choices: seq<nat>): Option<string>
    decreases |choices|
  {
    if choices == [] then Some(path)
    else
      var names := Listed(site.dirs(path));
      if path == "" || !Opens(site, path) || choices[0] >= |names| then None
      else Descend(site, SubPath(path, names[choices[0]]), choices[1..])
  }

  ghost predicate CleanNames(site: Site, path: string) {
    forall k :: 0 <= k < |Listed(site.dirs(path))| ==> IsField(Listed(site.dirs(path))[k])
  }

  /** The names in every directory that the walk opens can be put on a menu line. */
  ghost predicate CleanWalk(site: Site, path: string, choices: seq<nat>)
    decreases |choices|
  {
    var names := Listed(site.dirs(path));
    choices != [] && path != "" && Opens(site, path) ==>
      CleanNames(site, path) &&
      (choices[0] < |names| ==> CleanWalk(site, SubPath(path, names[choices[0]]), choices[1..]))
  }

  /** The selector is clean, its path is a directory that the server opens, and its entries have clean names. */
  ghost predicate Servable(site: Site, selector: string) {
    IsField(selector) && Opens(site, site.home + selector) && CleanNames(site, site.home + selector)
  }

  /** The items of the menu for a servable selector. */
  function MenuItems(site: Site, selector: string): seq<Item>
    requires site.home + selector != ""
  {
    var path := site.home + selector;
    Items(Client(path, site.hostname, site.port), selector, site.before, site.run, Listed(site.dirs(path)))
  }

  lemma FieldsArrive(selector: string)
    requires IsField(selector)
    ensures NUL !in selector && forall j :: !CrlfAt(selector, j)
  {
  }

  lemma FieldsConcat(a: string, b: string)
    requires IsField(a) && IsField(b)
    ensures IsField(a + b)
  {
  }

  lemma ServableIsAnswered(site: Site, selector: string)
    requires 0 < |site.home| < PATH_MAX && Servable(site, selector)
    ensures MenuFor(site, selector + CRLF) == Some(MenuText(MenuItems(site, selector)))
  {
    FieldsArrive(selector);
    SelectorArrivesIff(site.home, selector, "");
    assert selector + CRLF + "" == selector + CRLF;
    assert Answer(site.home, selector + CRLF, site.run) == Directory(site.home + selector, selector);
  }

  lemma SubSelectorIsField(selector: string, before: char, name: string)
    requires IsField(selector) && IsField(name)
    ensures IsField(SubSelector(selector, before, name))
  {
    FieldsConcat(selector, "/");
    FieldsConcat(selector + "/", name);
    FieldsConcat(selector, name);
  }

  lemma ServableItemsAreClean(site: Site, selector: string)
    requires site.home != "" && IsField(site.hostname) && Servable(site, selector)
    ensures AllClean(MenuItems(site, selector))
  {
    var items := MenuItems(site, selector);
    forall k | 0 <= k < |items| ensures IsClean(items[k]) {
      var name := Listed(site.dirs(site.home + selector))[k];
      TypesAreFieldChars(Mime(site.run, SubPath(site.home + selector, name)));
      SubSelectorIsField(selector, site.before, name);
    }
  }

  lemma ServableMenu(site: Site, selector: string)
    requires ValidSite(site) && Servable(site, selector)
    ensures MenuFor(site, selector + CRLF) == Some(MenuText(MenuItems(site, selector)))
    ensures ParseMenu(MenuText(MenuItems(site, selector))) == Some((MenuItems(site, selector), ""))
  {
    ServableIsAnswered(site, selector);
    ServableItemsAreClean(site, selector);
    MenuRoundTripIff(MenuItems(site, selector));
  }

  /** A selector whose path the server does not open gets no menu. */
  lemma NoMenu(site: Site, selector: string)
    requires ValidSite(site) && IsField(selector) && !Opens(site, site.home + selector)
    ensures MenuFor(site, selector + CRLF) == None
  {
    var stream := selector + CRLF;
    FieldsArrive(selector);
    SelectorArrivesIff(site.home, selector, "");
    assert selector + CRLF + "" == stream;
    if |site.home + selector| > 4094 {
      assert forall j :: j <= |selector| ==> !CrlfAt(stream, j);
    } else {
      assert Answer(site.home, stream, site.run) == AnswerTo(site.home, selector, site.run);
    }
  }

  /** One step of a client that follows menu lines. */
  lemma FollowStep(site: Site, selector: string, choices: seq<nat>)
    requires ValidSite(site) && IsField(selector) && choices != []
    requires Opens(site, site.home + selector) ==> CleanNames(site, site.home + selector)
    ensures var names := Listed(site.dirs(site.home + selector));
            if Opens(site, site.home + selector) && choices[0] < |names| then
              var next := SubSelector(selector, site.before, names[choices[0]]);
              IsField(next) && Follow(site, selector, choices) == Follow(site, next, choices[1..])
            else
              Follow(site, selector, choices) == None
  {
    var names := Listed(site.dirs(site.home + selector));
    if Opens(site, site.home + selector) {
      ServableMenu(site, selector);
      if choices[0] < |names| {
        SubSelectorIsField(selector, site.before, names[choices[0]]);
        assert MenuItems(site, selector)[choices[0]].selector ==
               SubSelector(selector, site.before, names[choices[0]]);
      }
    } else {
      NoMenu(site, selector);
    }
  }

  /** Closure of menu walks: from any selector but an empty one with no slash before it, a client that follows menu
      lines arrives exactly where the same choices lead on the server's paths, after any number of steps; it gets
      stuck exactly where the server would not open a path or has no such entry. */
  lemma {:induction false} WalkClosure(site: Site, selector: string, choices: seq<nat>)
    requires ValidSite(site) && IsField(selector) && (selector != "" || site.before == '/')
    requires CleanWalk(site, site.home + selector, choices)
    ensures var sel := Follow(site, selector, choices);
            var path := Descend(site, site.home + selector, choices);
            (sel.Some? <==> path.Some?) && (sel.Some? ==> path.value == site.home + sel.value)
    decreases |choices|
  {
    if choices != [] {
      FollowStep(site, selector, choices);
      var names := Listed(site.dirs(site.home + selector));
      if Opens(site, site.home + selector) && choices[0] < |names| {
        AdvertisedPathIff(site.home, selector, site.before, names[choices[0]]);
        WalkClosure(site, SubSelector(selector, site.before, names[choices[0]]), choices[1..]);
      }
    }
  }

  /** The type that a menu line announces is the type that decides how a request for its selector is answered. */
  lemma AnnouncedTypeIsServed(site: Site, selector: string, k: nat, extra: string)
    requires ValidSite(site) && Servable(site, selector) && k < |MenuItems(site, selector)|
    requires selector != "" || site.before == '/'
    requires |site.home + MenuItems(site, selector)[k].selector| <= 4094
    requires !Refused(site.home + MenuItems(site, selector)[k].selector)
    ensures var item := MenuItems(site, selector)[k];
            var path := site.home + item.selector;
            Answer(site.home, item.selector + CRLF + extra, site.run) ==
            (if item.kind == '1' then Directory(path, item.selector)
             else if item.kind == '3' then NotFound("3\t" + item.selector + "\r\n.\r\n")
             else File(path))
  {
    var name := Listed(site.dirs(site.home + selector))[k];
    var item := MenuItems(site, selector)[k];
    AdvertisedPathIff(site.home, selector, site.before, name);
    SubSelectorIsField(selector, site.before, name);
    FieldsArrive(item.selector);
    SelectorArrivesIff(site.home, item.selector, extra);
  }
}
