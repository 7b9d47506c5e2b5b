/** The thread that sends one file and logs it, and the path of its record to the log file. */
module Sender {
  import opened Text
  import opened CBuffer
  import opened LogChannel
  import opened LogPump
  import opened Delivery

  /** What a `send` call does: take up to `n` of the bytes offered (0 for a closed connection), or fail. */
  datatype SendResult = Sent(n: nat) | SendFailed

  /** The client's end of the connection. When `results` runs out, sends fail; `replies` are the results of the `recv`
      calls after shutdown, with 0, the end of the stream, after the last. */
  class Peer {
    var received: string
    var results: seq<SendResult>
    var shutdownFails: bool
    var replies: seq<int>

    constructor (results: seq<SendResult>, shutdownFails: bool, replies: seq<int>)
      ensures received == "" && this.results == results
      ensures this.shutdownFails == shutdownFails && this.replies == replies
    {
      received := "";
      this.results, this.shutdownFails, this.replies := results, shutdownFails, replies;
    }

    method Send(data: string) returns (temp: int)
      requires data != ""
      modifies this`received, this`results
      ensures temp <= |data|
      ensures temp > 0 ==> received == old(received) + data[..temp]
      ensures temp <= 0 ==> received == old(received)
      ensures results == if old(results) == [] then [] else old(results)[1..]
      ensures temp == if old(results) == [] || old(results)[0].SendFailed? then -1
                      else Accepted(old(results)[0].n, |data|)
    {
      if results == [] {
        return -1;
      }
      var result := results[0];
      results := results[1..];
      if result.SendFailed? {
        return -1;
      }
      temp := Accepted(result.n, |data|);
      received := received + data[..temp];
    }

    method Recv() returns (ret: int)
      modifies this`replies
      ensures ret == if old(replies) == [] then 0 else old(replies)[0]
      ensures replies == if old(replies) == [] then [] else old(replies)[1..]
    {
      if replies == [] {
        return 0;
      }
      ret := replies[0];
      replies := replies[1..];
    }
  }

  function Accepted(n: nat, offered: nat): nat { if n <= offered then n else offered }

  /** How many of `n` bytes go out before the first send that fails or takes nothing. */
  function BytesOut(results: seq<SendResult>, n: nat): (out: nat)
    ensures out <= n
  {
    if n == 0 || results == [] || results[0].SendFailed? || results[0].n == 0 then 0
    else
      var k := Accepted(results[0].n, n);
      k + BytesOut(results[1..], n - k)
  }

  /** The client ends the stream before anything fails. */
  predicate ClosesCleanly(replies: seq<int>) {
    replies == [] || replies[0] == 0 || (replies[0] > 0 && ClosesCleanly(replies[1..]))
  }

  ghost predicate EndsBefore(replies: seq<int>, k: int) {
    exists j :: 0 <= j < k && j < |replies| && replies[j] == 0
  }

  lemma EndsBeforeTail(replies: seq<int>, k: int)
    requires replies != [] && replies[0] != 0
    ensures EndsBefore(replies, k + 1) <==> EndsBefore(replies[1..], k)
  {
    if EndsBefore(replies, k + 1) {
      var j :| 0 <= j < k + 1 && j < |replies| && replies[j] == 0;
      assert replies[1..][j - 1] == 0;
    }
    if EndsBefore(replies[1..], k) {
      var j :| 0 <= j < k && j < |replies[1..]| && replies[1..][j] == 0;
      assert replies[j + 1] == 0;
    }
  }

  /** The connection ends cleanly exactly when no receive fails before one reports the end of the stream. */
  lemma {:induction false} ClosesCleanlyIff(replies: seq<int>)
    ensures ClosesCleanly(replies) <==> forall k :: 0 <= k < |replies| && replies[k] < 0 ==> EndsBefore(replies, k)
  {
    if replies == [] {
    } else if replies[0] == 0 {
      forall k | 0 < k < |replies| ensures EndsBefore(replies, k) {
        assert replies[0] == 0;
      }
    } else if replies[0] > 0 {
      var rest := replies[1..];
      ClosesCleanlyIff(rest);
      forall k | 0 <= k < |rest| ensures EndsBefore(replies, k + 1) <==> EndsBefore(rest, k) {
        EndsBeforeTail(replies, k);
      }
      assert forall k :: 0 <= k < |rest| ==> rest[k] == replies[k + 1];
      assert forall k :: 1 <= k < |replies| ==> replies[k] == rest[k - 1];
    } else {
      assert !EndsBefore(replies, 0);
    }
  }

  predicate AllPositive(results: seq<SendResult>) {
    forall k :: 0 <= k < |results| ==> results[k].Sent? && results[k].n > 0
  }

  function Total(results: seq<SendResult>): nat
    requires AllPositive(results)
  {
    if results == [] then 0 else results[0].n + Total(results[1..])
  }

  ghost predicate CoveredBy(results: seq<SendResult>, n: nat, m: nat) {
    m <= |results| && AllPositive(results[..m]) && Total(results[..m]) >= n
  }

  /** Before the first send that fails or takes nothing, every byte that the sends take goes out, up to the end. */
  lemma {:induction false} OutIsWhatSendsTake(results: seq<SendResult>, n: nat, m: nat)
    requires m <= |results| && AllPositive(results[..m])
    requires m < |results| ==> results[m].SendFailed? || results[m].n == 0
    ensures BytesOut(results, n) == if Total(results[..m]) < n then Total(results[..m]) else n
    decreases m
  {
    if m > 0 && n > 0 {
      assert results[..m][0] == results[0] && results[..m][1..] == results[1..][..m - 1];
      OutIsWhatSendsTake(results[1..], n - Accepted(results[0].n, n), m - 1);
    }
  }

  /** A file is delivered whole exactly when enough sends take something before one does not, however they cut it up. */
  lemma {:induction false} DeliveredIff(results: seq<SendResult>, n: nat)
    ensures BytesOut(results, n) == n <==> exists m: nat :: CoveredBy(results, n, m)
    decreases |results|
  {
    if n == 0 {
      assert results[..0] == [];
      assert CoveredBy(results, 0, 0);
    } else if results == [] || results[0].SendFailed? || results[0].n == 0 {
      forall m: nat ensures !CoveredBy(results, n, m) {
        if 0 < m <= |results| { assert results[..m][0] == results[0]; }
      }
    } else {
      var left, rest := n - Accepted(results[0].n, n), results[1..];
      DeliveredIff(rest, left);
      if m: nat :| CoveredBy(rest, left, m) {
        CoverStep(results, n, m);
      }
      if m: nat :| CoveredBy(results, n, m) {
        assert results[..0] == [];
        CoverStep(results, n, m - 1);
      }
    }
  }

  lemma CoverStep(results: seq<SendResult>, n: nat, m: nat)
    requires n > 0 && results != [] && results[0].Sent? && results[0].n > 0
    ensures CoveredBy(results, n, m + 1) <==> CoveredBy(results[1..], n - Accepted(results[0].n, n), m)
  {
    var rest := results[1..];
    if m <= |rest| {
      assert results[..m + 1] == [results[0]] + rest[..m];
      assert results[..m + 1][1..] == rest[..m];
    }
  }

  /** The record for a transfer. */
  function RecordFor(m: Moment, path: string, file: string, addr: string): string {
    RecordText(Entry(DateString(m), path, |file|, addr))
  }

  ghost predicate ReadsAs(record: string, e: Entry) {
    record != "" && ParseRecord(record[..|record| - 1]) == Some(e)
  }

  /** What the record says when it is read back: when, what, how many bytes, to whom. */
  lemma RecordTellsTheTransfer(m: Moment, path: string, file: string, addr: string)
    requires ValidMoment(m) && NUL !in path && ' ' !in addr && LF !in addr && NUL !in addr
    ensures var record := RecordFor(m, path, file, addr);
            ReadsAs(record, Entry(DateString(m), path, |file|, addr)) && record[|record| - 1] == '\n'
  {
    DateHas22Characters(m);
    RecordReadsBack(Entry(DateString(m), path, |file|, addr));
  }

  /** The send loop of `thread_sender`. */
  method SendAll(file: string, peer: Peer) returns (bytesSent: nat)
    modifies peer`received, peer`results
    ensures bytesSent == BytesOut(old(peer.results), |file|)
    ensures peer.received == old(peer.received) + file[..bytesSent]
  {
    bytesSent := 0;
    while bytesSent < |file|
      invariant bytesSent <= |file|
      invariant peer.received == old(peer.received) + file[..bytesSent]
      invariant bytesSent + BytesOut(peer.results, |file| - bytesSent) == BytesOut(old(peer.results), |file|)
      decreases |file| - bytesSent
    {
      var temp := peer.Send(file[bytesSent..]);
      if temp < 0 {
        return;
      } else if temp == 0 {
        return;
      }
      assert file[..bytesSent] + file[bytesSent..][..temp] == file[..bytesSent + temp];
      bytesSent := bytesSent + temp;
    }
  }

  /** The receive loop of `thread_sender`, which waits for the client to close. */
  method AwaitClose(peer: Peer) returns (clean: bool)
    modifies peer`replies
    ensures clean <==> ClosesCleanly(old(peer.replies))
  {
    var ret := peer.Recv();
    while ret != 0
      invariant ret >= 0 ==> (ClosesCleanly(old(peer.replies)) <==> ret == 0 || ClosesCleanly(peer.replies))
      invariant ret < 0 ==> !ClosesCleanly(old(peer.replies))
      decreases if ret == 0 then 0 else |peer.replies| + 1
    {
      if ret < 0 {
        return false;
      }
      ret := peer.Recv();
    }
    return true;
  }

  /** `thread_sender` up to the end of the connection. */
  method Deliver(file: string, peer: Peer) returns (delivered: bool)
    modifies peer
    ensures var out := BytesOut(old(peer.results), |file|);
            && peer.received == old(peer.received) + file[..out]
            && (delivered <==> out == |file| && !old(peer.shutdownFails) && ClosesCleanly(old(peer.replies)))
    ensures delivered ==> peer.received == old(peer.received) + file
  {
    var bytesSent := SendAll(file, peer);
    if bytesSent < |file| {
      return false;
    }
    assert file[..|file|] == file;
    if peer.shutdownFails {
      return false;
    }
    delivered := AwaitClose(peer);
  }

  /** The end of `thread_sender`: the record is printed and handed to the channel. */
  method LogTransfer(file: string, path: string, addr: string, m: Moment, channel: Channel,
                     ghost sys: System, ghost ids: seq<nat>, ghost i: nat)
    requires ValidMoment(m) && NUL !in path && ' ' !in addr && LF !in addr && NUL !in addr
    requires |file| < 0x1_0000_0000_0000_0000
    requires channel.Holds(sys, ids) && Rec(sys, i) == RecordFor(m, path, file, addr)
    modifies channel
    ensures channel.Holds(sys, ids + [i]) && channel.file == old(channel.file)
  {
    DateHas22Characters(m);
    var e := Entry(DateString(m), path, |file|, addr);
    var logsString := PrintRecord(e);
    HoldsMeansPrints(logsString, RecordText(e));
    channel.Commit(CString(logsString[..]), sys, ids, i);
  }

  /** `thread_sender`: whatever the sizes of the partial sends, the client gets a prefix of the file, each byte once;
      the channel gets the transfer's record if the whole file went out and the connection ended cleanly, else
      nothing. */
  method ThreadSender(file: string, path: string, addr: string, m: Moment, peer: Peer, channel: Channel,
                      ghost sys: System, ghost ids: seq<nat>, ghost i: nat)
      returns (logged: bool)
    requires ValidMoment(m) && NUL !in path && ' ' !in addr && LF !in addr && NUL !in addr
    requires |file| < 0x1_0000_0000_0000_0000
    requires channel.Holds(sys, ids) && Rec(sys, i) == RecordFor(m, path, file, addr)
    modifies peer, channel
    ensures var out := BytesOut(old(peer.results), |file|);
            && peer.received == old(peer.received) + file[..out]
            && (logged <==> out == |file| && !old(peer.shutdownFails) && ClosesCleanly(old(peer.replies)))
    ensures logged ==> peer.received == old(peer.received) + file
    ensures logged ==> ReadsAs(Rec(sys, i), Entry(DateString(m), path, |peer.received| - |old(peer.received)|, addr))
    ensures channel.Holds(sys, if logged then ids + [i] else ids) && channel.file == old(channel.file)
  {
    var delivered := Deliver(file, peer);
    if !delivered {
      return false;
    }
    RecordTellsTheTransfer(m, path, file, addr);
    LogTransfer(file, path, addr, m, channel, sys, ids, i);
    return true;
  }

  // From transfers to the log file and back

  /** The entries of the senders `ids`. */
  function Pick(entries: seq<Entry>, ids: seq<nat>): (r: seq<Entry>)
    requires forall k :: 0 <= k < |ids| ==> ids[k] < |entries|
    ensures |r| == |ids| && forall k :: 0 <= k < |ids| ==> r[k] == entries[ids[k]]
  {
    if ids == [] then [] else [entries[ids[0]]] + Pick(entries, ids[1..])
  }

  lemma {:induction false} LinesAreLog(sys: System, entries: seq<Entry>, ids: seq<nat>)
    requires |sys.records| == |entries|
    requires forall k :: 0 <= k < |entries| ==> sys.records[k] == RecordText(entries[k])
    requires forall k :: 0 <= k < |ids| ==> ids[k] < |entries|
    ensures Lines(sys, ids) == Log(Pick(entries, ids))
  {
    if ids != [] {
      LinesAreLog(sys, entries, ids[1..]);
      assert Pick(entries, ids)[1..] == Pick(entries, ids[1..]);
    }
  }

  /** Sender `k` logs the record of entry `k`. */
  ghost predicate LogsEntries(sys: System, entries: seq<Entry>) {
    |sys.records| == |entries| && forall k :: 0 <= k < |entries| ==> sys.records[k] == RecordText(entries[k])
  }

  ghost predicate Readable(entries: seq<Entry>) {
    forall k :: 0 <= k < |entries| ==> ValidEntry(entries[k]) && LF !in entries[k].path
  }

  lemma PickedReadBack(entries: seq<Entry>, ids: seq<nat>)
    requires Readable(entries) && forall k :: 0 <= k < |ids| ==> ids[k] < |entries|
    ensures ParseLog(Log(Pick(entries, ids))) == Some(Pick(entries, ids))
  {
    LogReadsBack(Pick(entries, ids));
  }

  lemma OrderAndFile(sys: System, s: State)
    requires ValidSystem(sys) && Reachable(sys, s)
    ensures s.logged <= |s.order| && s.file == Lines(sys, s.order[..s.logged])
    ensures forall k :: 0 <= k < |s.order| ==> s.order[k] < |sys.records|
  {
    ReachableInv(sys, s);
  }

  /** In every reachable state of the channel, reading the log file line by line gives back the transfers that have been
      logged: date, path, size and address of each, in the order in which the senders took the mutex. */
  lemma LogFileTellsTheTransfers(sys: System, entries: seq<Entry>, s: State)
    requires ValidSystem(sys) && Reachable(sys, s) && LogsEntries(sys, entries) && Readable(entries)
    ensures s.logged <= |s.order| && forall k :: 0 <= k < |s.order| ==> s.order[k] < |entries|
    ensures ParseLog(s.file) == Some(Pick(entries, s.order[..s.logged]))
  {
    OrderAndFile(sys, s);
    var ids := s.order[..s.logged];
    LinesAreLog(sys, entries, ids);
    PickedReadBack(entries, ids);
  }
}
