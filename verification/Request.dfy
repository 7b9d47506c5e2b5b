/** Reading one request line from a client socket, however the network cuts it up. */
module Request {
  import opened Text

  /** What successive `recv` calls meet: bytes that have arrived, nothing yet, or an error. After the last event the
      client has closed the connection. */
  datatype Event = Chunk(data: string) | WouldBlock | Failure

  /** The bytes that can still be received. */
  function Stream(events: seq<Event>): string {
    if events == [] then ""
    else match events[0]
         case Chunk(data) => data + Stream(events[1..])
         case WouldBlock => Stream(events[1..])
         case Failure => ""
  }

  /** The bytes that the client sent, if it sends them in pieces with pauses in between. */
  function Pieces(events: seq<Event>): seq<string> {
    if events == [] then []
    else (if events[0].Chunk? then [events[0].data] else []) + Pieces(events[1..])
  }

  lemma {:induction false} StreamIsConcatOfPieces(events: seq<Event>)
    requires forall k :: 0 <= k < |events| ==> !events[k].Failure?
    ensures Stream(events) == Concat(Pieces(events))
  {
    if events != [] {
      StreamIsConcatOfPieces(events[1..]);
      if events[0].Chunk? {
        assert Pieces(events)[1..] == Pieces(events[1..]);
      } else {
        assert Pieces(events) == Pieces(events[1..]);
      }
    }
  }

  /** A failed call ends the stream: what was sent before it counts, what comes after it does not. */
  lemma {:induction false} StreamUpToFailure(before: seq<Event>, after: seq<Event>)
    requires forall k :: 0 <= k < |before| ==> !before[k].Failure?
    ensures Stream(before + ([Failure] + after)) == Concat(Pieces(before))
  {
    var events := before + ([Failure] + after);
    if before == [] {
      assert events[0] == Failure;
    } else {
      assert events[1..] == before[1..] + ([Failure] + after);
      StreamUpToFailure(before[1..], after);
      if before[0].Chunk? {
        assert Pieces(before)[1..] == Pieces(before[1..]);
      } else {
        assert Pieces(before) == Pieces(before[1..]);
      }
    }
  }

  class Socket {
    var events: seq<Event>

    constructor (events: seq<Event>)
      ensures this.events == events
    {
      this.events := events;
    }

    /** `recv(sd, &buf[at], space, MSG_DONTWAIT)`; `again` stands for `errno == EWOULDBLOCK`. */
    method Recv(buf: array<char>, at: nat, space: nat) returns (check: int, again: bool)
      requires 0 < space && at + space <= buf.Length
      modifies this, buf
      ensures check > 0 ==>
                && check <= space && check <= |Stream(old(events))|
                && buf[..at + check] == old(buf[..at]) + Stream(old(events))[..check]
                && Stream(events) == Stream(old(events))[check..]
      ensures check <= 0 ==> buf[..] == old(buf[..])
      ensures check < 0 && again ==> Stream(events) == Stream(old(events)) && |events| < |old(events)|
      ensures check == 0 || (check < 0 && !again) ==> Stream(old(events)) == ""
    {
      again := false;
      if events == [] {
        return 0, false;
      }
      var event, rest := events[0], events[1..];
      match event
      case Failure =>
        events := rest;
        return -1, false;
      case WouldBlock =>
        events := rest;
        return -1, true;
      case Chunk(data) =>
        if data == "" {
          events := rest;
          assert "" + Stream(rest) == Stream(rest);
          return -1, true;
        }
        check := if |data| <= space then |data| else space;
        for k := 0 to check
          invariant buf[..at + k] == old(buf[..at]) + data[..k]
          invariant events == old(events)
        {
          buf[at + k] := data[k];
        }
        assert Stream(events)[..check] == data[..check];
        if check < |data| {
          events := [Chunk(data[check..])] + rest;
          assert events[1..] == rest;
        } else {
          events := rest;
        }
        assert Stream(events) == Stream(old(events))[check..];
    }
  }

  predicate CrlfAt(s: string, k: int) {
    0 < k < |s| && s[k - 1] == CR && s[k] == LF
  }

  /** `r` is what reading the line out of `stream` into `limit` bytes has to return: the place of the LF of the first
      CRLF, or -1 if there is none within the limit. */
  ghost predicate IsAnswer(stream: string, limit: nat, r: int) {
    if r >= 0 then r < limit && CrlfAt(stream, r) && forall j :: j < r ==> !CrlfAt(stream, j)
    else r == -1 && forall j :: j < limit ==> !CrlfAt(stream, j)
  }

  lemma TakeMore(s: string, n: nat, more: nat)
    requires n + more <= |s|
    ensures s[..n] + s[n..][..more] == s[..n + more] && s[n..][more..] == s[n + more..]
  {
  }

  lemma PrintsUpTo(s: string, n: nat)
    requires n < |s| && s[n] == NUL
    ensures CString(s) == CString(s[..n])
  {
    assert s == s[..n] + [NUL] + s[n + 1..];
    CStringOfBuffer(s[..n], s[n + 1..]);
  }

  lemma SameAt(a: string, s: string, i: nat)
    requires i < |a| <= |s| && a == s[..|a|]
    ensures a[i] == s[i]
  {
  }

  /** `read_request`: what it returns and leaves in the buffer depends on the bytes of the stream alone. */
  method ReadRequest(sd: Socket, buf: array<char>) returns (r: int)
    modifies sd, buf
    ensures IsAnswer(Stream(old(sd.events)), buf.Length, r)
    ensures r >= 0 ==> buf[..r - 1] == Stream(old(sd.events))[..r - 1] && buf[r - 1] == NUL
    ensures r >= 0 ==> CString(buf[..]) == CString(Stream(old(sd.events))[..r - 1])
  {
    ghost var stream := Stream(sd.events);
    var totalRecv, readBytes, keepGoing := 0, 0, true;
    while keepGoing
      invariant 0 <= readBytes <= buf.Length && readBytes <= |stream|
      invariant forall j :: j < readBytes ==> !CrlfAt(stream, j)
      invariant keepGoing ==>
          totalRecv == readBytes && buf[..readBytes] == stream[..readBytes] && Stream(sd.events) == stream[readBytes..]
      invariant !keepGoing ==>
          && CrlfAt(stream, readBytes) && readBytes < buf.Length
          && buf[..readBytes - 1] == stream[..readBytes - 1] && buf[readBytes - 1] == NUL
      decreases keepGoing, buf.Length - readBytes, |sd.events|
    {
      if readBytes >= buf.Length {
        return -1;
      }
      var check, again := sd.Recv(buf, readBytes, buf.Length - readBytes);
      if check > 0 {
        totalRecv := totalRecv + check;
        TakeMore(stream, readBytes, check);
        while readBytes < totalRecv
          invariant readBytes <= totalRecv <= buf.Length && totalRecv <= |stream|
          invariant buf[..totalRecv] == stream[..totalRecv]
          invariant Stream(sd.events) == stream[totalRecv..]
          invariant keepGoing && forall j :: j < readBytes ==> !CrlfAt(stream, j)
        {
          SameAt(buf[..totalRecv], stream, readBytes);
          if readBytes > 0 { SameAt(buf[..totalRecv], stream, readBytes - 1); }
          if readBytes > 0 && buf[readBytes - 1] == CR && buf[readBytes] == LF {
            keepGoing := false;
            buf[readBytes - 1] := NUL;
            assert buf[..readBytes - 1] == stream[..totalRecv][..readBytes - 1];
            break;
          }
          readBytes := readBytes + 1;
        }
      } else if check == 0 {
        return -1;
      } else if !again {
        return -1;
      }
    }
    PrintsUpTo(buf[..], readBytes - 1);
    assert buf[..][..readBytes - 1] == buf[..readBytes - 1];
    return readBytes;
  }

  /** Chunking invariance: the answer is determined by the bytes, so two ways of cutting up and delaying the same bytes
      give the same answer. */
  lemma ChunkingInvariance(events: seq<Event>, events': seq<Event>, limit: nat, r: int, r': int)
    requires forall k :: 0 <= k < |events| ==> !events[k].Failure?
    requires forall k :: 0 <= k < |events'| ==> !events'[k].Failure?
    requires Concat(Pieces(events)) == Concat(Pieces(events'))
    requires IsAnswer(Stream(events), limit, r) && IsAnswer(Stream(events'), limit, r')
    ensures r == r'
  {
    StreamIsConcatOfPieces(events);
    StreamIsConcatOfPieces(events');
    AnswerUnique(Stream(events), limit, r, r');
  }

  lemma AnswerUnique(stream: string, limit: nat, r: int, r': int)
    requires IsAnswer(stream, limit, r) && IsAnswer(stream, limit, r')
    ensures r == r'
  {
  }

  /** The same search as a function. */
  function Find(stream: string, limit: nat): (r: int)
    ensures IsAnswer(stream, limit, r)
  {
    FindFrom(stream, limit, 0)
  }

  function FindFrom(stream: string, limit: nat, k: nat): (r: int)
    requires k <= limit && forall j :: j < k ==> !CrlfAt(stream, j)
    ensures IsAnswer(stream, limit, r)
    decreases limit - k
  {
    if k == limit then -1
    else if CrlfAt(stream, k) then k
    else FindFrom(stream, limit, k + 1)
  }

  /** A line that a client terminates properly is read back whole exactly when it has no CRLF inside and its LF is still
      within the buffer. */
  lemma LineReadBackIff(line: string, extra: string, limit: nat)
    ensures Find(line + CRLF + extra, limit) == |line| + 1 <==> |line| + 1 < limit && forall j :: !CrlfAt(line, j)
  {
    var s := line + CRLF + extra;
    assert s[|line|] == CR && s[|line| + 1] == LF;
    assert CrlfAt(s, |line| + 1);
    assert forall j :: 0 <= j < |line| ==> s[j] == line[j];
    assert forall j :: j < |line| ==> CrlfAt(s, j) == CrlfAt(line, j);
    assert !CrlfAt(s, |line|);
    assert forall j :: j <= |line| ==> CrlfAt(s, j) == CrlfAt(line, j);
  }
}
