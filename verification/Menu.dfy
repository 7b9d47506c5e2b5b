/** Directory menus: how the server builds one, and how a client reads it back by the grammar of RFC 1436. */
module Menu {
  import opened Text
  import opened CBuffer
  import opened ItemTypes

  /** One line of a menu. */
  datatype Item = Item(kind: char, name: string, selector: string, host: string, port: nat)

  /** What building a menu reads of its client: the path of the directory, and the client's copy of the settings. */
  datatype Client = Client(path: string, hostname: string, port: nat)

  /** The directory entries that are listed, in readdir order. */
  function Listed(entries: seq<string>): seq<string> {
    if entries == [] then []
    else (if entries[0] == ".." || entries[0] == "." then [] else [entries[0]]) + Listed(entries[1..])
  }

  lemma {:induction false} ListedAppend(entries: seq<string>, name: string)
    ensures Listed(entries + [name]) == Listed(entries) + (if name == ".." || name == "." then [] else [name])
  {
    if entries == [] {
      assert [name][1..] == [];
    } else {
      assert (entries + [name])[1..] == entries[1..] + [name];
      ListedAppend(entries[1..], name);
    }
  }

  /** What is listed is what the directory holds, in its order, each entry once, but for `.` and `..`. */
  lemma {:induction false} ListedIsFilter(entries: seq<string>) returns (at: seq<nat>)
    ensures |at| == |Listed(entries)| && forall j, k :: 0 <= j < k < |at| ==> at[j] < at[k]
    ensures forall k :: 0 <= k < |at| ==> at[k] < |entries| && Listed(entries)[k] == entries[at[k]]
    ensures forall j :: 0 <= j < |entries| ==> (j in at <==> entries[j] != "." && entries[j] != "..")
  {
    if entries == [] {
      at := [];
    } else {
      var n, last := |entries| - 1, entries[|entries| - 1];
      assert entries == entries[..n] + [last];
      ListedAppend(entries[..n], last);
      at := ListedIsFilter(entries[..n]);
      if last != ".." && last != "." { at := at + [n]; }
    }
  }

  /** `path_of_subfile` */
  function SubPath(path: string, name: string): string
    requires path != ""
  {
    if path[|path| - 1] == '/' then path + name else path + "/" + name
  }

  /** `client_selector[strlen(client_selector) - 1]`: for an empty selector this is whatever byte lies `before` it. */
  function LastChar(selector: string, before: char): char {
    if selector == "" then before else selector[|selector| - 1]
  }

  /** The selector that the menu advertises for an entry. */
  function SubSelector(selector: string, before: char, name: string): string {
    if LastChar(selector, before) != '/' then selector + "/" + name else selector + name
  }

  function ItemOf(c: Client, selector: string, before: char, run: seq<string> -> Report, name: string): Item
    requires c.path != ""
  {
    Item(TypeOf(Mime(run, SubPath(c.path, name))), name, SubSelector(selector, before, name), c.hostname, c.port)
  }

  function Items(c: Client, selector: string, before: char, run: seq<string> -> Report, names: seq<string>)
      : (r: seq<Item>)
    requires c.path != ""
    ensures |r| == |names|
    ensures forall k :: 0 <= k < |names| ==> r[k] == ItemOf(c, selector, before, run, names[k])
  {
    if names == [] then []
    else Items(c, selector, before, run, names[..|names| - 1]) +
         [ItemOf(c, selector, before, run, names[|names| - 1])]
  }

  function Line(i: Item): string {
    [i.kind] + i.name + [TAB] + i.selector + [TAB] + i.host + [TAB] + Decimal(i.port) + CRLF
  }

  function Lines(items: seq<Item>): string {
    if items == [] then "" else Line(items[0]) + Lines(items[1..])
  }

  const LASTLINE := ".\r\n"

  function MenuText(items: seq<Item>): string { Lines(items) + LASTLINE }

  lemma {:induction false} LinesAppend(items: seq<Item>, i: Item)
    ensures Lines(items + [i]) == Lines(items) + Line(i)
  {
    if items == [] {
      assert [i][1..] == [];
    } else {
      assert (items + [i])[1..] == items[1..] + [i];
      LinesAppend(items[1..], i);
    }
  }

  /** The strings that reach the menu are C strings. */
  ghost predicate NulFree(c: Client, selector: string, entries: seq<string>) {
    && NUL !in c.path && NUL !in c.hostname && NUL !in selector
    && forall k :: 0 <= k < |entries| ==> NUL !in entries[k]
  }

  /** The length that `send_content_of_dir` computes for a line, term by term. */
  function LineLength(c: Client, selector: string, name: string, portLength: nat): nat {
    2 + (|name| + 1) + (|selector| + |name| + 2) + (|c.hostname| + 1) + portLength + 3
  }

  /** The path of one entry, printed into a buffer of the computed size. */
  method PathOfSubfile(path: string, name: string) returns (subfile: array<char>)
    requires path != "" && NUL !in path && NUL !in name
    ensures fresh(subfile) && Holds(subfile, SubPath(path, name))
  {
    subfile := new char[|path| + |name| + 2];
    if path[|path| - 1] == '/' {
      SnprintfInto(subfile, |path| + |name| + 1, path + name);
    } else {
      SnprintfInto(subfile, |path| + |name| + 2, path + "/" + name);
    }
  }

  /** One menu line, printed into a buffer of the computed size: nothing is cut off. */
  method ResponseLine(c: Client, selector: string, before: char, name: string, kind: char) returns (line: array<char>)
    requires NUL !in c.hostname && NUL !in selector && NUL !in name && kind != NUL && c.port < 65536
    ensures fresh(line) &&
            Holds(line, Line(Item(kind, name, SubSelector(selector, before, name), c.hostname, c.port)))
  {
    var portStr := new char[6];
    DecimalLength(c.port, 5);
    SnprintfInto(portStr, 6, Decimal(c.port));
    var portLength := Strlen(portStr, Decimal(c.port));
    var length := LineLength(c, selector, name, portLength);
    line := new char[length];
    if LastChar(selector, before) != '/' {
      SnprintfInto(line, length, [kind] + name + [TAB] + (selector + "/" + name) + [TAB] + c.hostname + [TAB] +
                                 Decimal(c.port) + CRLF);
    } else {
      SnprintfInto(line, length, [kind] + name + [TAB] + (selector + name) + [TAB] + c.hostname + [TAB] +
                                 Decimal(c.port) + CRLF);
    }
  }

  /** The lines of a listing. */
  function Listing(c: Client, selector: string, before: char, run: seq<string> -> Report, entries: seq<string>): string
    requires c.path != ""
  {
    Lines(Items(c, selector, before, run, Listed(entries)))
  }

  lemma ListingAppend(c: Client, selector: string, before: char, run: seq<string> -> Report, entries: seq<string>,
                      name: string)
    requires c.path != ""
    ensures Listing(c, selector, before, run, entries + [name]) ==
            Listing(c, selector, before, run, entries) +
            (if name == ".." || name == "." then "" else Line(ItemOf(c, selector, before, run, name)))
    ensures Listed(entries + [name]) == [] <==> Listed(entries) == [] && (name == ".." || name == ".")
  {
    var names := Listed(entries);
    ListedAppend(entries, name);
    if name == ".." || name == "." {
      assert names + [] == names;
    } else {
      assert (names + [name])[..|names|] == names;
      LinesAppend(Items(c, selector, before, run, names), ItemOf(c, selector, before, run, name));
    }
  }

  /** `realloc` to the exact new size, then `strcpy` or `strcat`. */
  method AppendLine(buffer: array?<char>, ghost text: string, line: array<char>, ghost lineText: string)
      returns (b: array<char>)
    requires buffer == null ==> text == ""
    requires buffer != null ==> Holds(buffer, text) && buffer.Length == |text| + 1
    requires Holds(line, lineText)
    ensures fresh(b) && Holds(b, text + lineText) && b.Length == |text + lineText| + 1
  {
    var lineLength := Strlen(line, lineText);
    if buffer == null {
      b := new char[lineLength + 1];
      Strcpy(b, line[..lineLength]);
      assert text + lineText == lineText;
    } else {
      var length := Strlen(buffer, text);
      b := Grow(buffer, length + lineLength + 1, text);
      Strcat(b, text, line[..lineLength]);
    }
  }

  /** The body of the readdir loop for an entry that is listed. */
  method EntryLine(c: Client, selector: string, before: char, run: seq<string> -> Report, name: string)
      returns (line: array<char>)
    requires c.path != "" && c.port < 65536
    requires NUL !in c.path && NUL !in c.hostname && NUL !in selector && NUL !in name
    ensures fresh(line) && Holds(line, Line(ItemOf(c, selector, before, run, name)))
  {
    var subfile := PathOfSubfile(c.path, name);
    HoldsMeansPrints(subfile, SubPath(c.path, name));
    var kind := TypePath(CString(subfile[..]), run);
    line := ResponseLine(c, selector, before, name, kind);
  }

  /** The readdir loop: the response is reallocated and extended line by line. */
  method ListEntries(c: Client, selector: string, before: char, entries: seq<string>, run: seq<string> -> Report)
      returns (buffer: array?<char>)
    requires c.path != "" && c.port < 65536 && NulFree(c, selector, entries)
    ensures buffer == null <==> Listed(entries) == []
    ensures buffer != null ==>
              var text := Listing(c, selector, before, run, entries);
              Holds(buffer, text) && buffer.Length == |text| + 1
  {
    buffer := null;
    ghost var text := "";
    for n := 0 to |entries|
      invariant text == Listing(c, selector, before, run, entries[..n])
      invariant buffer == null <==> Listed(entries[..n]) == []
      invariant buffer != null ==> Holds(buffer, text) && buffer.Length == |text| + 1
    {
      var name := entries[n];
      assert entries[..n + 1] == entries[..n] + [name];
      ListingAppend(c, selector, before, run, entries[..n], name);
      if name != ".." && name != "." {
        var line := EntryLine(c, selector, before, run, name);
        ghost var lineText := Line(ItemOf(c, selector, before, run, name));
        buffer := AppendLine(buffer, text, line, lineText);
        text := text + lineText;
      }
    }
    assert entries[..|entries|] == entries;
  }

  /** `send_content_of_dir`: the response ends up holding the whole menu. A directory with nothing to list is not
      handled by the code. */
  method SendContentOfDir(c: Client, selector: string, before: char, entries: seq<string>, run: seq<string> -> Report)
      returns (response: array<char>)
    requires c.path != "" && c.port < 65536 && NulFree(c, selector, entries)
    requires Listed(entries) != []
    ensures Holds(response, MenuText(Items(c, selector, before, run, Listed(entries))))
    ensures response.Length == |MenuText(Items(c, selector, before, run, Listed(entries)))| + 1
  {
    var buffer := ListEntries(c, selector, before, entries, run);
    response := Terminate(buffer, Listing(c, selector, before, run, entries));
  }

  /** Room for the last line and a NUL, then the last line. */
  method Terminate(buffer: array<char>, ghost text: string) returns (response: array<char>)
    requires Holds(buffer, text) && buffer.Length == |text| + 1
    ensures fresh(response) && Holds(response, text + LASTLINE) && response.Length == |text + LASTLINE| + 1
  {
    var length := Strlen(buffer, text);
    response := Grow(buffer, length + 4, text);
    Strcat(response, text, LASTLINE);
  }

  // The client's side: the grammar in the Appendix of RFC 1436

  /** UNASCII */
  predicate IsFieldChar(c: char) { c != TAB && c != CR && c != LF && c != NUL }

  predicate IsField(s: string) { forall k :: 0 <= k < |s| ==> IsFieldChar(s[k]) }

  predicate IsClean(i: Item) {
    IsFieldChar(i.kind) && IsField(i.name) && IsField(i.selector) && IsField(i.host)
  }

  /** The length of the longest field at the start of `s`. */
  function FieldLength(s: string): (n: nat)
    ensures n <= |s| && IsField(s[..n])
    ensures n < |s| ==> !IsFieldChar(s[n])
  {
    if s == "" || !IsFieldChar(s[0]) then 0
    else
      var n := FieldLength(s[1..]);
      assert s[..n + 1] == [s[0]] + s[1..][..n];
      n + 1
  }

  /** A field and the delimiter behind it. */
  function TakeField(s: string, stop: string): (r: Option<(string, string)>)
    ensures r.Some? ==> IsField(r.value.0) && s == r.value.0 + stop + r.value.1
  {
    var n := FieldLength(s);
    if stop <= s[n..] then Some((s[..n], s[n + |stop|..])) else None
  }

  /** Fields with their delimiters, one after the other. */
  function TakeFields(s: string, stops: seq<string>): (r: Option<(seq<string>, string)>)
    ensures r.Some? ==> |r.value.0| == |stops| && |r.value.1| <= |s|
    ensures r.Some? ==> forall k :: 0 <= k < |stops| ==> IsField(r.value.0[k])
    decreases s, stops
  {
    if stops == [] then Some(([], s))
    else
      var field := TakeField(s, stops[0]);
      if field.None? || |field.value.1| >= |s| then None
      else
        var others := TakeFields(field.value.1, stops[1..]);
        if others.None? then None else Some(([field.value.0] + others.value.0, others.value.1))
  }

  /** The delimiters behind the four fields of a line. */
  const STOPS: seq<string> := ["\t", "\t", "\t", "\r\n"]

  /** DirEntity ::= Type User_Name Tab Selector Tab Host Tab Port CR-LF */
  function ParseEntity(s: string): (r: Option<(Item, string)>)
    ensures r.Some? ==> |r.value.1| < |s| && IsClean(r.value.0)
  {
    if s == "" || !IsFieldChar(s[0]) then None
    else
      var fields := TakeFields(s[1..], STOPS);
      if fields.None? || fields.value.0[3] == "" || !AllDigits(fields.value.0[3]) then None
      else
        Some((Item(s[0], fields.value.0[0], fields.value.0[1], fields.value.0[2], Value(fields.value.0[3])),
              fields.value.1))
  }

  /** Menu ::= {DirEntity} Lastline; the second component is what follows the menu. */
  function ParseMenu(s: string): Option<(seq<Item>, string)>
    decreases |s|
  {
    if ".\r\n" <= s then Some(([], s[3..]))
    else
      var entity := ParseEntity(s);
      if entity.None? then None
      else
        var menu := ParseMenu(entity.value.1);
        if menu.None? then None else Some(([entity.value.0] + menu.value.0, menu.value.1))
  }

  predicate AllClean(items: seq<Item>) {
    forall k :: 0 <= k < |items| ==> IsClean(items[k])
  }

  lemma FieldLengthUnique(s: string, n: nat)
    requires n < |s| && IsField(s[..n]) && !IsFieldChar(s[n])
    ensures FieldLength(s) == n
  {
    var m := FieldLength(s);
    assert forall k :: 0 <= k < n ==> s[k] == s[..n][k];
    assert forall k :: 0 <= k < m ==> s[k] == s[..m][k];
  }

  lemma TakeFieldReadsBack(field: string, stop: string, rest: string)
    requires IsField(field) && stop != "" && !IsFieldChar(stop[0])
    ensures TakeField(field + stop + rest, stop) == Some((field, rest))
  {
    var s := field + stop + rest;
    assert s[..|field|] == field && s[|field|] == stop[0];
    FieldLengthUnique(s, |field|);
    assert s[|field|..] == stop + rest;
    assert s[|field| + |stop|..] == rest;
  }

  function WithStops(fields: seq<string>, stops: seq<string>): string
    requires |fields| == |stops|
  {
    if fields == [] then "" else fields[0] + stops[0] + WithStops(fields[1..], stops[1..])
  }

  lemma {:induction false} TakeFieldsReadsBack(fields: seq<string>, stops: seq<string>, rest: string)
    requires |fields| == |stops| && forall k :: 0 <= k < |fields| ==> IsField(fields[k])
    requires forall k :: 0 <= k < |stops| ==> stops[k] != "" && !IsFieldChar(stops[k][0])
    ensures TakeFields(WithStops(fields, stops) + rest, stops) == Some((fields, rest))
    decreases |fields|
  {
    var s := WithStops(fields, stops) + rest;
    if fields == [] {
      assert s == rest;
    } else {
      var tail := WithStops(fields[1..], stops[1..]) + rest;
      assert s == fields[0] + stops[0] + tail;
      TakeFieldReadsBack(fields[0], stops[0], tail);
      TakeFieldsReadsBack(fields[1..], stops[1..], rest);
      assert [fields[0]] + fields[1..] == fields;
    }
  }

  function FieldsOf(i: Item): seq<string> {
    [i.name, i.selector, i.host, Decimal(i.port)]
  }

  lemma LineStart(i: Item)
    ensures Line(i) == [i.kind] + WithStops(FieldsOf(i), STOPS)
  {
    var f := FieldsOf(i);
    assert f[1..] == [i.selector, i.host, Decimal(i.port)] && STOPS[1..] == [[TAB], [TAB], CRLF];
    assert f[1..][1..] == [i.host, Decimal(i.port)] && STOPS[1..][1..] == [[TAB], CRLF];
    assert f[1..][1..][1..] == [Decimal(i.port)] && STOPS[1..][1..][1..] == [CRLF];
    assert WithStops([Decimal(i.port)], [CRLF]) == Decimal(i.port) + CRLF;
    assert WithStops([i.host, Decimal(i.port)], [[TAB], CRLF]) == i.host + [TAB] + (Decimal(i.port) + CRLF);
  }

  lemma EntityReadsBack(i: Item, rest: string)
    requires IsClean(i)
    ensures ParseEntity(Line(i) + rest) == Some((i, rest))
  {
    var fields := FieldsOf(i);
    var s := Line(i) + rest;
    LineStart(i);
    assert s[0] == i.kind && s[1..] == WithStops(fields, STOPS) + rest;
    assert IsField(Decimal(i.port));
    TakeFieldsReadsBack(fields, STOPS, rest);
    ValueOfDecimal(i.port);
  }

  /** A clean line is never mistaken for the terminator. */
  lemma LineIsNotLastLine(i: Item, rest: string)
    requires IsClean(i)
    ensures !(LASTLINE <= Line(i) + rest)
  {
    var s := Line(i) + rest;
    assert s[1] == if i.name == "" then TAB else i.name[0];
  }

  lemma ParseMenuStep(s: string, i: Item, tail: string, items: seq<Item>, rest: string)
    requires !(LASTLINE <= s) && ParseEntity(s) == Some((i, tail)) && ParseMenu(tail) == Some((items, rest))
    ensures ParseMenu(s) == Some(([i] + items, rest))
  {
  }

  lemma MenuTextStep(items: seq<Item>, rest: string)
    requires items != []
    ensures MenuText(items) + rest == Line(items[0]) + (MenuText(items[1..]) + rest)
  {
    assert Lines(items) == Line(items[0]) + Lines(items[1..]);
  }

  lemma LineThenMenu(s: string, i: Item, tail: string, items: seq<Item>, rest: string)
    requires IsClean(i) && s == Line(i) + tail && ParseMenu(tail) == Some((items, rest))
    ensures ParseMenu(s) == Some(([i] + items, rest))
  {
    EntityReadsBack(i, tail);
    LineIsNotLastLine(i, tail);
    ParseMenuStep(s, i, tail, items, rest);
  }

  lemma EmptyMenu(rest: string)
    ensures MenuText([]) + rest == LASTLINE + rest
    ensures ParseMenu(LASTLINE + rest) == Some(([], rest))
  {
    SplitAfter(LASTLINE, rest);
  }

  lemma {:induction false} MenuReadsBack(items: seq<Item>, rest: string) returns (s: string)
    requires AllClean(items)
    ensures s == MenuText(items) + rest && ParseMenu(s) == Some((items, rest))
    decreases |items|
  {
    if items == [] {
      s := LASTLINE + rest;
      EmptyMenu(rest);
    } else {
      var tail := MenuReadsBack(items[1..], rest);
      s := Line(items[0]) + tail;
      OneMoreLine(items, items[0], items[1..], s, tail, rest);
      MenuTextStep(items, rest);
    }
  }

  lemma OneMoreLine(items: seq<Item>, i: Item, others: seq<Item>, s: string, tail: string, rest: string)
    requires items != [] && i == items[0] && others == items[1..]
    requires IsClean(i) && s == Line(i) + tail && ParseMenu(tail) == Some((others, rest))
    ensures ParseMenu(s) == Some((items, rest))
  {
    LineThenMenu(s, i, tail, others, rest);
    assert [i] + others == items;
  }

  lemma {:induction false} ParsedMenusAreClean(s: string)
    requires ParseMenu(s).Some?
    ensures AllClean(ParseMenu(s).value.0)
    decreases |s|
  {
    if !(LASTLINE <= s) {
      var entity := ParseEntity(s).value;
      ParsedMenusAreClean(entity.1);
      var rest := ParseMenu(entity.1).value.0;
      assert ParseMenu(s).value.0 == [entity.0] + rest;
    }
  }

  /** A client gets exactly the server's tuples back, in order and with the terminator in its place, if and only if no
      field holds a TAB, CR, LF or NUL. */
  lemma MenuRoundTripIff(items: seq<Item>)
    ensures ParseMenu(MenuText(items)) == Some((items, "")) <==> AllClean(items)
  {
    assert MenuText(items) + "" == MenuText(items);
    if AllClean(items) {
      var s := MenuReadsBack(items, "");
    } else if ParseMenu(MenuText(items)).Some? {
      ParsedMenusAreClean(MenuText(items));
    }
  }

  /** The type characters that `type_path` can give never spoil a line. */
  lemma TypesAreFieldChars(mime: string)
    ensures IsFieldChar(TypeOf(mime)) && TypeOf(mime) != '.'
  {
  }
}
