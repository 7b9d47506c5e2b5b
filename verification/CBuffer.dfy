/** Character buffers that hold NUL-terminated strings, and the C library calls that fill them. Array bounds are
    checked, so a verified caller never writes outside an allocation. */
module CBuffer {
  import opened Text

  /** The buffer holds the C string `s`. */
  ghost predicate Holds(a: array<char>, s: string)
    reads a
  {
    NUL !in s && |s| < a.Length && a[..|s|] == s && a[|s|] == NUL
  }

  /** What a buffer holds is what `%s` prints from it. */
  lemma HoldsMeansPrints(a: array<char>, s: string)
    requires Holds(a, s)
    ensures CString(a[..]) == s
  {
    assert a[..] == s + [NUL] + a[|s| + 1..];
    CStringOfBuffer(s, a[|s| + 1..]);
  }

  lemma BufferHoldsItsPrint(a: array<char>, s: string)
    requires CString(a[..]) == s && |s| < a.Length
    ensures Holds(a, s)
  {
    assert a[..][|s|] == NUL;
    assert a[..][..|s|] == a[..|s|];
  }

  method Strlen(a: array<char>, ghost s: string) returns (n: nat)
    requires Holds(a, s)
    ensures n == |s|
  {
    assert forall k :: 0 <= k < |s| ==> a[k] == a[..|s|][k] == s[k] != NUL;
    n := 0;
    while a[n] != NUL
      invariant n <= |s|
      decreases |s| - n
    {
      n := n + 1;
    }
  }

  method Strcpy(dst: array<char>, s: string)
    requires NUL !in s && |s| < dst.Length
    modifies dst
    ensures Holds(dst, s)
  {
    Put(dst, 0, s);
  }

  method Strcat(dst: array<char>, ghost t: string, s: string)
    requires Holds(dst, t) && NUL !in s && |t| + |s| < dst.Length
    modifies dst
    ensures Holds(dst, t + s)
  {
    var at := Strlen(dst, t);
    Put(dst, at, s);
    assert dst[..at + |s|] == t + s;
  }

  /** Writes `s` and a NUL from `at` on. */
  method Put(dst: array<char>, at: nat, s: string)
    requires at + |s| < dst.Length
    modifies dst
    ensures dst[..at + |s|] == old(dst[..at]) + s && dst[at + |s|] == NUL
    ensures dst[at + |s| + 1..] == old(dst[at + |s| + 1..])
  {
    for k := 0 to |s|
      invariant dst[..at + k] == old(dst[..at]) + s[..k]
      invariant dst[at + |s| + 1..] == old(dst[at + |s| + 1..])
    {
      dst[at + k] := s[k];
    }
    dst[at + |s|] := NUL;
    assert s[..|s|] == s;
  }

  /** `snprintf(dst, size, "%s", text)` */
  method SnprintfInto(dst: array<char>, size: nat, text: string)
    requires 0 < size <= dst.Length && NUL !in text
    modifies dst
    ensures Holds(dst, Snprintf(size, text))
  {
    Put(dst, 0, Snprintf(size, text));
  }

  /** `realloc(old, size)` for a larger size: a new block with the same string in it. */
  method Grow(a: array<char>, size: nat, ghost s: string) returns (b: array<char>)
    requires Holds(a, s) && a.Length <= size
    ensures fresh(b) && b.Length == size && Holds(b, s)
  {
    b := new char[size];
    for k := 0 to a.Length
      invariant b[..k] == a[..k]
    {
      b[k] := a[k];
    }
    assert b[|s|] == b[..a.Length][|s|];
    assert b[..|s|] == b[..a.Length][..|s|];
  }

  /** How far `fgets` with room for `size - 1` characters reads: through a line break, or until the room is used up. */
  function PieceLength(s: string, most: nat): (n: nat)
    ensures n <= |s| && n <= most && (s != "" && most > 0 ==> n > 0)
    ensures forall k :: 0 <= k < n - 1 ==> s[k] != LF
    ensures n < |s| && n < most ==> n > 0 && s[n - 1] == LF
  {
    if s == "" || most == 0 then 0
    else if s[0] == LF then 1
    else 1 + PieceLength(s[1..], most - 1)
  }
}
