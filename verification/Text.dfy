/** Strings as the server handles them: a byte is a `char`, a C string is a sequence without NUL. */
module Text {

  datatype Option<T> = None | Some(value: T)

  const NUL := '\0'
  const TAB := '\t'
  const CR := '\r'
  const LF := '\n'
  const CRLF := "\r\n"

  /** What `%s` prints for a buffer: everything before the first NUL. */
  function CString(s: string): (r: string)
    ensures NUL !in r && r <= s
    ensures NUL !in s ==> r == s
    ensures |r| < |s| ==> s[|r|] == NUL
  {
    if s == "" || s[0] == NUL then "" else [s[0]] + CString(s[1..])
  }

  /** What follows a NUL in a buffer does not matter. */
  lemma {:induction false} CStringOfBuffer(s: string, tail: string)
    ensures CString(s + [NUL] + tail) == CString(s)
  {
    if s != "" {
      assert (s + [NUL] + tail)[1..] == s[1..] + [NUL] + tail;
      CStringOfBuffer(s[1..], tail);
    }
  }

  /** What `snprintf` leaves in a buffer of `size` bytes: at most `size - 1` characters. */
  function Snprintf(size: nat, text: string): (r: string)
    requires 0 < size
    ensures |text| < size ==> r == text
    ensures r <= text && |r| < size
  {
    if |text| < size then text else text[..size - 1]
  }

  function Concat(parts: seq<string>): string {
    if parts == [] then "" else parts[0] + Concat(parts[1..])
  }

  predicate OccursAt(s: string, w: string, i: nat) {
    i + |w| <= |s| && s[i..i + |w|] == w
  }

  /** `strstr(s, w) != NULL` */
  predicate Contains(s: string, w: string) {
    exists i :: 0 <= i <= |s| && OccursAt(s, w, i)
  }

  predicate IsDigit(c: char) { '0' <= c <= '9' }

  predicate AllDigits(s: string) { forall i :: 0 <= i < |s| ==> IsDigit(s[i]) }

  function DigitOf(n: nat): (c: char)
    requires n < 10
    ensures IsDigit(c) && c as int - '0' as int == n
  {
    ('0' as int + n) as char
  }

  /** `%d` or `%zu` of a non-negative number. */
  function Decimal(n: nat): (r: string)
    ensures r != "" && AllDigits(r)
  {
    if n < 10 then [DigitOf(n)] else Decimal(n / 10) + [DigitOf(n % 10)]
  }

  /** `strtol(s, NULL, 10)` of a string of digits. */
  function Value(s: string): nat
    requires AllDigits(s)
  {
    if s == "" then 0 else 10 * Value(s[..|s| - 1]) + (s[|s| - 1] as int - '0' as int)
  }

  lemma {:induction false} ValueOfDecimal(n: nat)
    ensures Value(Decimal(n)) == n
  {
    var d := Decimal(n);
    if n < 10 {
      assert d[..0] == "";
    } else {
      assert d[..|d| - 1] == Decimal(n / 10);
      ValueOfDecimal(n / 10);
    }
  }

  /** Zeros in front do not count. */
  lemma {:induction false} LeadingZero(s: string)
    requires AllDigits(s)
    ensures AllDigits("0" + s) && Value("0" + s) == Value(s)
  {
    var t := "0" + s;
    if s == "" {
      assert t[..0] == "" && Value(t[..0]) == 0;
    } else {
      assert t[..|t| - 1] == "0" + s[..|s| - 1];
      LeadingZero(s[..|s| - 1]);
    }
  }

  /** The digits stand in their decimal places, counted from the right, with no zero in front. */
  lemma {:induction false} DecimalPlaces(n: nat, k: nat)
    requires k < |Decimal(n)|
    ensures Pow10(k) > 0 && Decimal(n)[|Decimal(n)| - 1 - k] as int - '0' as int == n / Pow10(k) % 10
    ensures n > 0 ==> Decimal(n)[0] != '0'
  {
    if n >= 10 {
      DecimalPlaces(n / 10, if k > 0 then k - 1 else 0);
      if k > 0 { DivideTwice(n, Pow10(k - 1)); }
    }
  }

  lemma DivideTwice(n: nat, d: nat)
    requires d > 0
    ensures n / 10 / d == n / (10 * d)
  {
    var q, r := n / 10 / d, n / 10 % d;
    assert n == 10 * (q * d + r) + n % 10;
    assert n == (10 * d) * q + (10 * r + n % 10) by {
      assert 10 * (q * d + r) == (10 * d) * q + 10 * r;
    }
    QuotientIs(n, 10 * d, q, 10 * r + n % 10);
  }

  lemma Multiples(x: int, d: nat)
    ensures x >= 1 ==> x * d >= d
    ensures x <= -1 ==> x * d + d <= 0
  {
  }

  lemma QuotientIs(n: nat, d: nat, q: nat, r: nat)
    requires n == d * q + r && r < d
    ensures n / d == q
  {
    Multiples(n / d - q, d);
    assert (n / d - q) * d == r - n % d;
  }

  function Pow10(k: nat): nat { if k == 0 then 1 else 10 * Pow10(k - 1) }

  lemma {:induction false} DecimalLength(n: nat, k: nat)
    requires 0 < k && n < Pow10(k)
    ensures |Decimal(n)| <= k
  {
    if n >= 10 {
      assert k > 1;
      DecimalLength(n / 10, k - 1);
    }
  }

  lemma MoveOver(a: string, b: string, k: nat)
    requires k <= |b|
    ensures (a + b[..k]) + b[k..] == a + b
  {
  }

  lemma ExtendPrefix(a: string, b: string, m: nat, k: nat)
    requires m + k <= |b|
    ensures (a + b[..m]) + b[m..m + k] == a + b[..m + k]
  {
  }

  lemma SplitAfter(a: string, b: string)
    ensures (a + b)[..|a|] == a && (a + b)[|a|..] == b
  {
  }

  /** Two strings with a common separator outside their tails split in one way only. */
  lemma SplitAtLast(a: string, b: string, a': string, b': string, c: char)
    requires c !in b && c !in b'
    requires a + [c] + b == a' + [c] + b'
    ensures a == a' && b == b'
  {
    var s, t := a + [c] + b, a' + [c] + b';
    assert s[|a|] == c && t[|a'|] == c;
    assert forall i :: |a| < i < |s| ==> s[i] == b[i - |a| - 1];
    assert forall i :: |a'| < i < |t| ==> t[i] == b'[i - |a'| - 1];
    assert a == s[..|a|] && a' == t[..|a|];
    assert b == s[|a| + 1..] && b' == t[|a| + 1..];
  }
}
