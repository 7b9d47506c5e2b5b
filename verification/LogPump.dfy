/** The code on both ends of the pipe: what a sender does with the mutex held, and the logger's counted drain. */
module LogPump {
  import opened Text
  import opened LogChannel

  /** The shared condition-variable block, the pipe and the log file. `shortReads` decides how many bytes the next reads
      return; when it runs out, a read returns all that was asked for. */
  class Channel {
    var cont: int
    var pipe: string
    var file: string
    var shortReads: seq<nat>

    constructor (shortReads: seq<nat>)
      ensures cont == 0 && pipe == "" && file == ""
    {
      this.cont := 0;
      this.pipe, this.file := "", "";
      this.shortReads := shortReads;
    }

    /** The pipe holds the frames of `ids`, and the counter counts them. */
    ghost predicate Holds(sys: System, ids: seq<nat>)
      reads this
    {
      pipe == Frames(sys, ids) && cont == |ids|
    }

    /** The locked section of a sender: count, write the length, write the payload. */
    method Commit(record: string, ghost sys: System, ghost ids: seq<nat>, ghost i: nat)
      requires Holds(sys, ids) && record == Rec(sys, i)
      modifies this`cont, this`pipe
      ensures Holds(sys, ids + [i])
    {
      cont := cont + 1;
      pipe := pipe + Int32(|record|);
      pipe := pipe + record;
      FramesAppend(sys, ids, i);
      assert pipe == old(pipe) + (Int32(|record|) + record);
    }

    /** `read` on a pipe that is not empty: between one byte and what was asked for, into `buf` from `at` on. */
    method Read(buf: array<char>, at: nat, want: nat) returns (n: nat)
      requires 0 < want && at + want <= buf.Length && pipe != ""
      modifies this`pipe, this`shortReads, buf
      ensures 0 < n <= want && n <= |old(pipe)|
      ensures pipe == old(pipe)[n..]
      ensures buf[..at + n] == old(buf[..at]) + old(pipe)[..n]
    {
      n := if |pipe| < want then |pipe| else want;
      if shortReads != [] {
        if 0 < shortReads[0] < n { n := shortReads[0]; }
        shortReads := shortReads[1..];
      }
      for k := 0 to n
        invariant buf[..at + k] == old(buf[..at]) + old(pipe)[..k]
        invariant pipe == old(pipe)
      {
        buf[at + k] := pipe[k];
      }
      pipe := pipe[n..];
    }

    /** One pass of the logger's loop body up to `fclose`: a length, that many bytes in reads of any size, one append.
        */
    method LogOne(ghost r: string, ghost rest: string)
      requires pipe == Frame(r) + rest && |r| < 0x8000_0000 && NUL !in r
      modifies this`pipe, this`file, this`shortReads
      ensures pipe == rest && file == old(file) + r
    {
      FrameParts(r, rest);
      var len := ReadInteger(pipe[..4]);
      pipe := pipe[4..];
      var line := new char[len + 1];
      var bytesRead := 0;
      while bytesRead < len
        invariant bytesRead <= len
        invariant line[..bytesRead] + pipe == r + rest
        invariant file == old(file)
        decreases len - bytesRead
      {
        ghost var before, bytes := line[..bytesRead], pipe;
        assert |bytes| >= len - bytesRead;
        var n := Read(line, bytesRead, len - bytesRead);
        MoveOver(before, bytes, n);
        bytesRead := bytesRead + n;
      }
      SplitAfter(line[..len], pipe);
      SplitAfter(r, rest);
      line[len] := NUL;
      assert line[..] == r + [NUL] + "";
      CStringOfBuffer(r, "");
      file := file + CString(line[..]);
    }

    /** The logger's counted drain: however the reads are cut, each pass takes one frame, and afterwards the pipe is
        empty, the counter is zero and the file has grown by the pending records in order. */
    method Drain(ghost sys: System, ghost ids: seq<nat>)
      requires ValidSystem(sys) && Holds(sys, ids)
      modifies this
      ensures Holds(sys, []) && file == old(file) + Lines(sys, ids)
    {
      ghost var left := ids;
      while cont > 0
        invariant Holds(sys, left)
        invariant file + Lines(sys, left) == old(file) + Lines(sys, ids)
        decreases cont
      {
        ghost var r := Rec(sys, left[0]);
        ghost var before := file;
        LogOne(r, Frames(sys, left[1..]));
        Regroup(before, r, Lines(sys, left[1..]));
        left := left[1..];
        cont := cont - 1;
      }
    }
  }

  lemma Regroup(a: string, b: string, c: string)
    ensures a + (b + c) == a + b + c
  {
  }

  /** In every reachable state in which the logger starts a drain, the precondition of `Channel.Drain` holds for the
      pending records, and what `Drain` then leaves in the file is every record committed so far. */
  lemma DrainFitsTheChannel(sys: System, s: State)
    requires ValidSystem(sys) && Reachable(sys, s) && s.logger.Draining?
    ensures s.logged <= |s.order|
    ensures s.pipe == Frames(sys, Pending(s)) && s.cont == |Pending(s)|
    ensures s.file + Lines(sys, Pending(s)) == Lines(sys, s.order)
  {
    ReachableInv(sys, s);
    LoggedThenPending(sys, s);
  }

  lemma LoggedThenPending(sys: System, s: State)
    requires s.logged <= |s.order|
    ensures Lines(sys, s.order[..s.logged]) + Lines(sys, Pending(s)) == Lines(sys, s.order)
  {
    LinesConcat(sys, s.order[..s.logged], Pending(s));
    assert s.order[..s.logged] + Pending(s) == s.order;
  }

  lemma {:induction false} LinesConcat(sys: System, a: seq<nat>, b: seq<nat>)
    ensures Lines(sys, a + b) == Lines(sys, a) + Lines(sys, b)
  {
    if a == [] {
      assert a + b == b;
    } else {
      assert (a + b)[1..] == a[1..] + b;
      LinesConcat(sys, a[1..], b);
    }
  }
}
