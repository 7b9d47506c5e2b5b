/** Sending a file to its client and logging the transfer: the partial-send loop, the printed record, and the way back
    from the log file to the transfers. */
module Delivery {
  import opened Text
  import opened CBuffer

  // The date field

  /** What `localtime` and `asctime` give; the month is its three-letter name. */
  datatype Moment = Moment(month: string, day: nat, year: nat, hour: nat, minute: nat, second: nat)

  ghost predicate ValidMoment(m: Moment) {
    && |m.month| == 3 && NUL !in m.month && LF !in m.month
    && 1 <= m.day <= 31 && m.hour < 24 && m.minute < 60 && m.second <= 60
  }

  /** `%0<width>d` */
  function Padded(n: nat, width: nat): (r: string)
    ensures AllDigits(r)
    ensures |r| == if |Decimal(n)| < width then width else |Decimal(n)|
  {
    Zeros(if |Decimal(n)| < width then width - |Decimal(n)| else 0) + Decimal(n)
  }

  function Zeros(n: nat): (r: string)
    ensures |r| == n && AllDigits(r)
  {
    if n == 0 then "" else "0" + Zeros(n - 1)
  }

  function DateFormat(m: Moment): string {
    "[" + m.month + " " + Padded(m.day, 2) + " " + Padded(m.year, 4) + " " +
    Padded(m.hour, 2) + ":" + Padded(m.minute, 2) + ":" + Padded(m.second, 2) + "]"
  }

  /** What `date_string` returns. */
  function DateString(m: Moment): string { Snprintf(23, DateFormat(m)) }

  lemma TwoDigits(n: nat)
    requires n < 100
    ensures |Padded(n, 2)| == 2
  {
    DecimalLength(n, 2);
  }

  lemma FormatIsPlain(m: Moment)
    requires ValidMoment(m)
    ensures NUL !in DateFormat(m) && LF !in DateFormat(m)
  {
  }

  /** The date field always has 22 characters: exactly so up to the year 9999, cut to it from then on. */
  lemma DateHas22Characters(m: Moment)
    requires ValidMoment(m)
    ensures |DateString(m)| == 22 && NUL !in DateString(m) && LF !in DateString(m)
    ensures m.year <= 9999 ==> DateString(m) == DateFormat(m)
  {
    TwoDigits(m.day);
    TwoDigits(m.hour);
    TwoDigits(m.minute);
    TwoDigits(m.second);
    if m.year <= 9999 { DecimalLength(m.year, 4); }
    assert |DateFormat(m)| == 18 + |Padded(m.year, 4)|;
    FormatIsPlain(m);
  }

  lemma OneMoreZero(k: nat, s: string, t: string)
    requires k > 0 && t == Zeros(k - 1) + s
    ensures Zeros(k) + s == "0" + t
  {
  }

  lemma {:induction false} ZerosInFront(k: nat, s: string)
    requires AllDigits(s)
    ensures AllDigits(Zeros(k) + s) && Value(Zeros(k) + s) == Value(s)
  {
    if k == 0 {
      assert "" + s == s;
    } else {
      ZerosInFront(k - 1, s);
      var t := Zeros(k - 1) + s;
      OneMoreZero(k, s, t);
      LeadingZero(t);
    }
  }

  lemma PaddedReadsBack(n: nat, width: nat)
    ensures Value(Padded(n, width)) == n
  {
    ValueOfDecimal(n);
    ZerosInFront(if |Decimal(n)| < width then width - |Decimal(n)| else 0, Decimal(n));
  }

  /** What a reader finds between the positions `i` and `j` of a date field. */
  function NumberAt(s: string, i: nat, j: nat): int {
    if i <= j <= |s| && AllDigits(s[i..j]) then Value(s[i..j]) else -1
  }

  /** Up to the year 9999 the date field reads `[MMM DD YYYY hh:mm:ss]`: each part is found in its columns. */
  lemma DateReadsBack(m: Moment)
    requires ValidMoment(m) && m.year <= 9999
    ensures var s := DateString(m);
            && |s| == 22 && s[0] == '[' && s[1..4] == m.month && s[4] == ' ' && s[21] == ']'
            && NumberAt(s, 5, 7) == m.day && s[7] == ' ' && NumberAt(s, 8, 12) == m.year && s[12] == ' '
            && NumberAt(s, 13, 15) == m.hour && s[15] == ':' && NumberAt(s, 16, 18) == m.minute && s[18] == ':'
            && NumberAt(s, 19, 21) == m.second
  {
    DateHas22Characters(m);
    TwoDigits(m.day);
    TwoDigits(m.hour);
    TwoDigits(m.minute);
    TwoDigits(m.second);
    DecimalLength(m.year, 4);
    DateParts(m.month, Padded(m.day, 2), Padded(m.year, 4), Padded(m.hour, 2), Padded(m.minute, 2),
              Padded(m.second, 2), DateFormat(m));
    PaddedReadsBack(m.day, 2);
    PaddedReadsBack(m.year, 4);
    PaddedReadsBack(m.hour, 2);
    PaddedReadsBack(m.minute, 2);
    PaddedReadsBack(m.second, 2);
  }

  /** One more field and one more mark behind `a`. */
  lemma NextField(a: string, field: string, mark: char, s: string)
    requires s == a + field + [mark]
    ensures |s| == |a| + |field| + 1 && s[|a|..|a| + |field|] == field && s[|a| + |field|] == mark
    ensures forall i, j :: 0 <= i <= j <= |a| ==> s[i..j] == a[i..j]
    ensures forall i :: 0 <= i < |a| ==> s[i] == a[i]
  {
  }

  lemma DateParts(month: string, day: string, year: string, hour: string, minute: string, second: string, s: string)
    requires |month| == 3 && |day| == |hour| == |minute| == |second| == 2 && |year| == 4
    requires s == "[" + month + " " + day + " " + year + " " + hour + ":" + minute + ":" + second + "]"
    ensures |s| == 22 && s[0] == '[' && s[1..4] == month && s[4] == ' ' && s[21] == ']'
    ensures s[5..7] == day && s[7] == ' ' && s[8..12] == year && s[12] == ' '
    ensures s[13..15] == hour && s[15] == ':' && s[16..18] == minute && s[18] == ':' && s[19..21] == second
  {
    var a := "[" + month + " ";
    var b := a + day + " ";
    var c := b + year + " ";
    var d := c + hour + ":";
    var e := d + minute + ":";
    NextField("[", month, ' ', a);
    NextField(a, day, ' ', b);
    NextField(b, year, ' ', c);
    NextField(c, hour, ':', d);
    NextField(d, minute, ':', e);
    NextField(e, second, ']', s);
  }

  // The address field

  datatype Address = Address(a: nat, b: nat, c: nat, d: nat, port: nat)

  ghost predicate ValidAddress(x: Address) {
    x.a < 256 && x.b < 256 && x.c < 256 && x.d < 256 && x.port < 65536
  }

  function AddressFormat(x: Address): string {
    Decimal(x.a) + "." + Decimal(x.b) + "." + Decimal(x.c) + "." + Decimal(x.d) + ":" + Decimal(x.port)
  }

  lemma DigitsAndMark(s: string, digits: string, mark: char, c: char)
    requires AllDigits(digits) && !IsDigit(c) && c != mark && c !in s
    ensures c !in s + digits + [mark]
  {
  }

  lemma AddressIsPlain(x: Address, c: char)
    requires !IsDigit(c) && c != '.' && c != ':'
    ensures c !in AddressFormat(x)
  {
    var a := "" + Decimal(x.a) + ".";
    var b := a + Decimal(x.b) + ".";
    DigitsAndMark("", Decimal(x.a), '.', c);
    DigitsAndMark(a, Decimal(x.b), '.', c);
    DigitsAndMark(b, Decimal(x.c), '.', c);
    DigitsAndMark(b + Decimal(x.c) + ".", Decimal(x.d), ':', c);
    assert "" + Decimal(x.a) == Decimal(x.a);
  }

  /** The address text always fits the field that `accept_wrapper` prints it into, and holds no blank or line break. */
  lemma AddressFits(x: Address)
    requires ValidAddress(x)
    ensures Snprintf(22, AddressFormat(x)) == AddressFormat(x)
    ensures ' ' !in AddressFormat(x) && LF !in AddressFormat(x) && NUL !in AddressFormat(x)
  {
    DecimalLength(x.a, 3);
    DecimalLength(x.b, 3);
    DecimalLength(x.c, 3);
    DecimalLength(x.d, 3);
    DecimalLength(x.port, 5);
    AddressIsPlain(x, ' ');
    AddressIsPlain(x, LF);
    AddressIsPlain(x, NUL);
  }

  // The record

  /** One completed transfer, as its record shows it. */
  datatype Entry = Entry(date: string, path: string, size: nat, addr: string)

  ghost predicate ValidEntry(e: Entry) {
    && |e.date| == 22 && ' ' !in e.addr
    && LF !in e.date && LF !in e.addr
    && NUL !in e.date && NUL !in e.path && NUL !in e.addr
  }

  function RecordText(e: Entry): string {
    e.date + " " + e.path + " " + Decimal(e.size) + " B " + e.addr + "\n"
  }

  /** Every size that a `size_t` can hold has at most 20 digits. */
  lemma SizeDigits(n: nat)
    requires n < 0x1_0000_0000_0000_0000
    ensures |Decimal(n)| <= 20
  {
    assert Pow10(5) == 100000;
    assert Pow10(10) == 10000000000;
    assert Pow10(15) == 1000000000000000;
    assert Pow10(20) == 100000000000000000000;
    DecimalLength(n, 20);
  }

  /** The record printed into the buffer whose length the code adds up: nothing is cut off. */
  method PrintRecord(e: Entry) returns (logs: array<char>)
    requires ValidEntry(e) && e.size < 0x1_0000_0000_0000_0000
    ensures fresh(logs) && Holds(logs, RecordText(e))
  {
    var length := 0;
    length := length + |e.date| + 1;
    length := length + |e.path| + 1;
    length := length + 24;
    length := length + |e.addr| + 2;
    logs := new char[length];
    SizeDigits(e.size);
    SnprintfInto(logs, length, RecordText(e));
  }

  // Reading records back

  /** Splits at the last occurrence of `c`. */
  function SplitLast(s: string, c: char): (r: Option<(string, string)>)
    ensures r.Some? ==> s == r.value.0 + [c] + r.value.1 && c !in r.value.1
    ensures r.None? ==> c !in s
  {
    if s == "" then None
    else if s[|s| - 1] == c then Some((s[..|s| - 1], ""))
    else
      var r := SplitLast(s[..|s| - 1], c);
      if r.None? then None else Some((r.value.0, r.value.1 + [s[|s| - 1]]))
  }

  lemma SplitLastReadsBack(a: string, c: char, b: string)
    requires c !in b
    ensures SplitLast(a + [c] + b, c) == Some((a, b))
  {
    var s := a + [c] + b;
    assert s[|a|] == c;
    var r := SplitLast(s, c);
    SplitAtLast(a, b, r.value.0, r.value.1, c);
  }

  /** The number behind the last `c`, and what is before it. */
  function LastNumber(s: string, c: char): Option<(string, nat)> {
    var r := SplitLast(s, c);
    if r.None? || !AllDigits(r.value.1) then None else Some((r.value.0, Value(r.value.1)))
  }

  lemma LastNumberReadsBack(a: string, c: char, n: nat)
    requires !IsDigit(c)
    ensures LastNumber(a + [c] + Decimal(n), c) == Some((a, n))
  {
    SplitLastReadsBack(a, c, Decimal(n));
    ValueOfDecimal(n);
  }

  /** An address as four numbers with dots between them, a colon and a port. */
  function ParseAddress(s: string): Option<Address> {
    var port := LastNumber(s, ':');
    if port.None? then None
    else
      var d := LastNumber(port.value.0, '.');
      if d.None? then None
      else
        var c := LastNumber(d.value.0, '.');
        if c.None? then None
        else
          var b := LastNumber(c.value.0, '.');
          if b.None? || !AllDigits(b.value.0) then None
          else Some(Address(Value(b.value.0), b.value.1, c.value.1, d.value.1, port.value.1))
  }

  /** The octets and the port are found in the address text, in their order. */
  lemma AddressReadsBack(x: Address)
    ensures ParseAddress(AddressFormat(x)) == Some(x)
  {
    var a := Decimal(x.a);
    var b := a + ['.'] + Decimal(x.b);
    var c := b + ['.'] + Decimal(x.c);
    var d := c + ['.'] + Decimal(x.d);
    assert AddressFormat(x) == d + [':'] + Decimal(x.port);
    LastNumberReadsBack(d, ':', x.port);
    LastNumberReadsBack(c, '.', x.d);
    LastNumberReadsBack(b, '.', x.c);
    LastNumberReadsBack(a, '.', x.b);
    ValueOfDecimal(x.a);
  }

  /** A record without its line break: 22 characters of date, a path with blanks in it perhaps, a size, ` B `, an
      address without blanks. */
  function ParseRecord(line: string): Option<Entry> {
    var tail := SplitLast(line, ' ');
    if tail.None? || |tail.value.0| < 2 || tail.value.0[|tail.value.0| - 2..] != " B" then None
    else
      var head := tail.value.0[..|tail.value.0| - 2];
      var size := SplitLast(head, ' ');
      if size.None? || !AllDigits(size.value.1) || |size.value.0| < 23 then None
      else Some(Entry(size.value.0[..22], size.value.0[23..], Value(size.value.1), tail.value.1))
  }

  /** Date, path, size and address can be recovered from a record, whatever the path looks like. */
  lemma RecordReadsBack(e: Entry)
    requires ValidEntry(e)
    ensures ParseRecord(RecordText(e)[..|RecordText(e)| - 1]) == Some(e)
  {
    var line := RecordText(e)[..|RecordText(e)| - 1];
    var front := e.date + " " + e.path;
    var head := front + [' '] + Decimal(e.size);
    assert line == (head + " B") + [' '] + e.addr;
    SplitLastReadsBack(head + " B", ' ', e.addr);
    assert (head + " B")[|head|..] == " B" && (head + " B")[..|head|] == head;
    SplitLastReadsBack(front, ' ', Decimal(e.size));
    ValueOfDecimal(e.size);
    assert front[..22] == e.date && front[23..] == e.path;
  }

  lemma RecordsAreUnique(e: Entry, e': Entry)
    requires ValidEntry(e) && ValidEntry(e') && RecordText(e) == RecordText(e')
    ensures e == e'
  {
    RecordReadsBack(e);
    RecordReadsBack(e');
  }

  function Log(entries: seq<Entry>): string {
    if entries == [] then "" else RecordText(entries[0]) + Log(entries[1..])
  }

  /** The first line of a log, without its line break, and the rest. */
  function FirstLine(s: string): (r: Option<(string, string)>)
    ensures r.Some? ==> s == r.value.0 + [LF] + r.value.1 && LF !in r.value.0 && |r.value.1| < |s|
  {
    if s == "" then None
    else if s[0] == LF then Some(("", s[1..]))
    else
      var r := FirstLine(s[1..]);
      if r.None? then None else Some(([s[0]] + r.value.0, r.value.1))
  }

  lemma {:induction false} FirstLineReadsBack(line: string, rest: string)
    requires LF !in line
    ensures FirstLine(line + [LF] + rest) == Some((line, rest))
  {
    var s := line + [LF] + rest;
    if line == "" {
      assert s[1..] == rest;
    } else {
      assert s[1..] == line[1..] + [LF] + rest;
      FirstLineReadsBack(line[1..], rest);
      assert [line[0]] + line[1..] == line;
    }
  }

  /** Reads a whole log file line by line. */
  function ParseLog(s: string): Option<seq<Entry>>
    decreases |s|
  {
    if s == "" then Some([])
    else
      var line := FirstLine(s);
      if line.None? then None
      else
        var entry := ParseRecord(line.value.0);
        var rest := ParseLog(line.value.1);
        if entry.None? || rest.None? then None else Some([entry.value] + rest.value)
  }

  lemma {:induction false} LogReadsBack(entries: seq<Entry>)
    requires forall k :: 0 <= k < |entries| ==> ValidEntry(entries[k]) && LF !in entries[k].path
    ensures ParseLog(Log(entries)) == Some(entries)
  {
    if entries != [] {
      var e, rest := entries[0], Log(entries[1..]);
      var line := RecordText(e)[..|RecordText(e)| - 1];
      assert RecordText(e) == line + [LF];
      assert LF !in line by { DecimalHasNoBreak(e.size); }
      FirstLineReadsBack(line, rest);
      assert Log(entries) == line + [LF] + rest;
      RecordReadsBack(e);
      LogReadsBack(entries[1..]);
      assert [e] + entries[1..] == entries;
    }
  }

  lemma DecimalHasNoBreak(n: nat)
    ensures LF !in Decimal(n)
  {
  }

  lemma {:induction false} ParsedPathsHaveNoBreak(s: string)
    requires ParseLog(s).Some?
    ensures forall k :: 0 <= k < |ParseLog(s).value| ==> LF !in ParseLog(s).value[k].path
    decreases |s|
  {
    if s != "" {
      var line := FirstLine(s).value;
      ParsedPathsHaveNoBreak(line.1);
      ParsedPathIsPartOfLine(line.0);
    }
  }

  lemma ParsedPathIsPartOfLine(line: string)
    requires ParseRecord(line).Some? && LF !in line
    ensures LF !in ParseRecord(line).value.path
  {
    var tail := SplitLast(line, ' ').value;
    var head := tail.0[..|tail.0| - 2];
    var size := SplitLast(head, ' ').value;
    assert forall c :: c in size.0[23..] ==> c in size.0;
    assert forall c :: c in size.0 ==> c in head;
    assert forall c :: c in head ==> c in tail.0;
    assert forall c :: c in tail.0 ==> c in line;
  }

  /** The log file determines the transfers, line by line, if and only if no path contains a line break. */
  lemma LogReadsBackIff(entries: seq<Entry>)
    requires forall k :: 0 <= k < |entries| ==> ValidEntry(entries[k])
    ensures ParseLog(Log(entries)) == Some(entries) <==> forall k :: 0 <= k < |entries| ==> LF !in entries[k].path
  {
    if forall k :: 0 <= k < |entries| ==> LF !in entries[k].path {
      LogReadsBack(entries);
    } else if ParseLog(Log(entries)).Some? {
      ParsedPathsHaveNoBreak(Log(entries));
    }
  }
}
