/** What clients get: the answers to requests and the menus, in terms of the bytes sent and of what `file` reports. */
module Answers {
  import opened Text
  import opened Request
  import opened PathSecurity
  import opened ItemTypes
  import opened Menu
  import opened Gopher

  /** The first CRLF of the stream lies in the request limit, with its LF at `k`. */
  ghost predicate LineEndsAt(home: string, stream: string, k: int) {
    0 <= k < 4096 - |home| && CrlfAt(stream, k) && forall j :: j < k ==> !CrlfAt(stream, j)
  }

  function SelectorIn(stream: string, k: int): string {
    if 1 <= k <= |stream| then CString(stream[..k - 1]) else ""
  }

  /** The connection is closed without an answer exactly when no line end comes within the limit: after too much data,
      an early end of the stream, or a failed receive. */
  lemma ClosedIff(home: string, stream: string, run: seq<string> -> Report)
    requires |home| < 4096
    ensures Answer(home, stream, run).Closed? <==> forall j :: j < 4096 - |home| ==> !CrlfAt(stream, j)
  {
    LengthCheckNeverFires(home, stream);
  }

  lemma FailedReceiveCloses(home: string, before: seq<Event>, after: seq<Event>, run: seq<string> -> Report)
    requires |home| < 4096 && forall k :: 0 <= k < |before| ==> !before[k].Failure?
    requires forall j :: !CrlfAt(Concat(Pieces(before)), j)
    ensures Answer(home, Stream(before + ([Failure] + after)), run) == Closed
  {
    StreamUpToFailure(before, after);
    ClosedIff(home, Concat(Pieces(before)), run);
  }

  lemma AnswerToLine(home: string, stream: string, k: int, run: seq<string> -> Report)
    requires |home| < 4096 && LineEndsAt(home, stream, k)
    ensures Answer(home, stream, run) == AnswerTo(home, SelectorIn(stream, k), run)
    ensures |home + SelectorIn(stream, k)| < 4096
  {
    AnswerUnique(stream, 4096 - |home|, k, Find(stream, 4096 - |home|));
  }

  /** The components of a path are of the kind that the filter lets through. */
  ghost predicate CleanPath(path: string) {
    !DotDotInside(Components(path)) && !Contains(path, "..\\")
  }

  /** A request is refused, and the connection closed, exactly when a component other than the last ends in two dots
      or two dots stand before a backslash. */
  lemma DroppedIff(home: string, stream: string, k: int, run: seq<string> -> Report)
    requires |home| < 4096 && LineEndsAt(home, stream, k)
    ensures var path := home + SelectorIn(stream, k);
            Answer(home, stream, run) == Dropped(path) <==> !CleanPath(path)
    ensures Answer(home, stream, run).Dropped? ==> Answer(home, stream, run).path == home + SelectorIn(stream, k)
  {
    AnswerToLine(home, stream, k, run);
    RefusedIff(home + SelectorIn(stream, k));
  }

  /** A file or a directory is served only at the path that the request names, only if that path is clean, and then the
      path stays inside the home directory at every step, unless the request names its parent. */
  lemma ServedIsConfinedIff(home: string, stream: string, k: int, run: seq<string> -> Report)
    requires |home| < 4096 && EndsInSlash(home) && LineEndsAt(home, stream, k)
    ensures var reply, sel := Answer(home, stream, run), SelectorIn(stream, k);
            reply.File? || reply.Directory? ==>
              && reply.path == home + sel && CleanPath(home + sel)
              && (reply.Directory? ==> reply.selector == sel)
              && (Confined(IsAbsolute(home), ResolvePath(home), Components(sel)) <==>
                    !NamesTheParent(IsAbsolute(home), ResolvePath(home), Components(sel)))
  {
    AnswerToLine(home, stream, k, run);
    var sel := SelectorIn(stream, k);
    RefusedIff(home + sel);
    if !Refused(home + sel) { AcceptedIsConfinedIff(home, sel); }
  }

  /** What a clean request gets, by what `file` prints about its path: a directory is listed, a file of a known type is
      sent, and anything else gets an error item that shows the selector. */
  lemma CleanRequestGets(home: string, stream: string, k: int, run: seq<string> -> Report)
    requires |home| < 4096 && LineEndsAt(home, stream, k) && CleanPath(home + SelectorIn(stream, k))
    requires var out := run(["file", "-bi", home + SelectorIn(stream, k)]).output; out != "" && !("cannot" <= out)
    ensures var reply, sel := Answer(home, stream, run), SelectorIn(stream, k);
            var out := run(["file", "-bi", home + sel]).output;
            && (reply == Directory(home + sel, sel) <==> "inode/directory" <= out)
            && (reply == NotFound("3\t" + sel + "\r\n.\r\n") <==> !IsKnown(out))
            && (reply == File(home + sel) <==> IsKnown(out) && !("inode/directory" <= out))
  {
    AnswerToLine(home, stream, k, run);
    var path := home + SelectorIn(stream, k);
    RefusedIff(path);
    MimeIsTyped(run, path);
    KnownTypes(run(["file", "-bi", path]).output);
  }

  // Menus

  /** The item that tells a client about the entry `name` of the directory `path`. */
  ghost predicate TellsAbout(item: Item, site: Site, path: string, name: string)
    requires path != ""
  {
    && item.name == name && item.host == site.hostname && item.port == site.port
    && TypedBy(item.kind, site.run(["file", "-bi", SubPath(path, name)]))
  }

  /** The menu that a client gets for a directory, read by the grammar of RFC 1436, has one item for each listed
      entry, in the same order: its name, the server's host and port, the type of what `file` reports about it, and a
      selector that leads to its path. */
  lemma MenuTellsTheDirectory(site: Site, selector: string)
    requires ValidSite(site) && Servable(site, selector)
    ensures var path := site.home + selector;
            var names := Listed(site.dirs(path));
            var menu := MenuFor(site, selector + "\r\n");
            menu.Some? && var parsed := ParseMenu(menu.value);
            && parsed.Some? && parsed.value.1 == "" && |parsed.value.0| == |names|
            && forall k :: 0 <= k < |names| ==>
                 && TellsAbout(parsed.value.0[k], site, path, names[k])
                 && (selector != "" ==> site.home + parsed.value.0[k].selector == SubPath(path, names[k]))
  {
    var path := site.home + selector;
    var names, items := Listed(site.dirs(path)), MenuItems(site, selector);
    ServableMenu(site, selector);
    forall k | 0 <= k < |names|
      ensures TellsAbout(items[k], site, path, names[k])
      ensures selector != "" ==> site.home + items[k].selector == SubPath(path, names[k])
    {
      MimeIsTyped(site.run, SubPath(path, names[k]));
      AdvertisedPathIff(site.home, selector, site.before, names[k]);
    }
  }

  /** Whatever the names are, each line of a response starts with what belongs to one entry. */
  lemma ItemsTell(c: Client, selector: string, before: char, run: seq<string> -> Report, entries: seq<string>, k: nat)
    requires c.path != "" && k < |Listed(entries)|
    ensures var item := Items(c, selector, before, run, Listed(entries))[k];
            && item.name == Listed(entries)[k] && item.host == c.hostname && item.port == c.port
            && TypedBy(item.kind, run(["file", "-bi", SubPath(c.path, item.name)]))
  {
    MimeIsTyped(run, SubPath(c.path, Listed(entries)[k]));
  }
}
