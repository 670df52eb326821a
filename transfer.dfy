/** read_n_bytes and write_n_bytes: loops that keep calling read(2) or
    write(2) until `n` bytes have moved, the stream has ended (reads only)
    or a call has failed.

    Each loop is specified by a function that runs the same loop on the
    values that decide its course (what the peer has sent and what each
    call reports) and records what each system call returned. The methods
    are proved to return what these functions compute and to leave the
    buffer and the descriptor holding exactly the bytes that moved; the
    lemmas state what the loops promise about those functions.
 */
module Transfer {
  import opened Streams

  function Last(s: seq<int>): int
    requires s != []
  {
    s[|s| - 1]
  }

  // ---------------------------------------------------------------- reading

  /** What a run of a read loop amounts to: the value it returns, how many
      bytes it placed in the buffer (and so took from the stream) and what
      is left of the read plan. */
  datatype ReadRun = ReadRun(ret: int, count: nat, plan: seq<ReadOutcome>)

  /** The read loop of read_n_bytes on the stream `input` from the point
      where its first `have` bytes are in the buffer. */
  function ReadLoop(input: seq<bv8>, plan: seq<ReadOutcome>, n: nat, have: nat): (t: ReadRun)
    requires have <= n && have <= |input|
    ensures have <= t.count <= n && t.count <= |input|
    ensures t.ret == -1 || t.ret == t.count
    decreases n - have
  {
    if have == n then ReadRun(have, have, plan)
    else
      var r := ReadResult(input[have..], plan, n - have);
      if r > 0 then ReadLoop(input, Rest(plan), n, have + r)
      else if r == 0 then ReadRun(have, have, Rest(plan))
      else ReadRun(-1, have, Rest(plan))
  }

  /** read_n_bytes(fd, buf, n) on a descriptor whose peer has sent `input`
      and whose reads report `plan`. */
  function ReadN(input: seq<bv8>, plan: seq<ReadOutcome>, n: nat): ReadRun
  {
    ReadLoop(input, plan, n, 0)
  }

  /** The values the successive read(2) calls of the same loop return. */
  function ReadTrace(input: seq<bv8>, plan: seq<ReadOutcome>, n: nat, have: nat): seq<int>
    requires have <= n && have <= |input|
    decreases n - have
  {
    if have == n then []
    else
      var r := ReadResult(input[have..], plan, n - have);
      [r] + if r > 0 then ReadTrace(input, Rest(plan), n, have + r) else []
  }

  /** read_n_bytes: reads into buf[0..n) until n bytes have arrived, the
      stream ends or a read fails. buf[0..count) then holds the first count
      bytes of the stream, the stream has lost exactly those, and no other
      element of buf has changed (none at or beyond n in particular); this
      holds also when a failing read ends the loop and -1 is returned. */
  method ReadNBytes(fd: Descriptor, buf: array<bv8>, n: nat) returns (r: int)
    requires n <= buf.Length
    modifies fd.rx, buf
    ensures var t := ReadN(old(fd.rx.pending), old(fd.rx.plan), n);
      && r == t.ret && fd.rx.plan == t.plan
      && fd.rx.pending == old(fd.rx.pending)[t.count..]
      && buf[..] == Overwrite(old(buf[..]), 0, old(fd.rx.pending)[..t.count])
  {
    ghost var input, buf0 := fd.rx.pending, buf[..];
    ghost var t := ReadN(input, fd.rx.plan, n);
    var have: nat := 0;
    // Set when the loop is left by a break. Only a loop that runs until
    // have == n needs the Done lemma to close the equation for the run.
    ghost var stopped := false;
    OverwriteNothing(buf0, 0);
    while have < n
      invariant have <= n && have <= |input|
      invariant fd.rx.pending == input[have..]
      invariant buf[..] == Overwrite(buf0, 0, input[..have])
      invariant ReadFrom(t, input, fd.rx.plan, n, have)
      decreases n - have
    {
      ReadAdvance(input, fd.rx.plan, n, have, t, ReadResult(input[have..], fd.rx.plan, n - have));
      var got := ReadNext(fd, buf, n, have, input, buf0);
      if got > 0 {
        have := have + got;
      } else if got == 0 {
        stopped := true;
        break;  // end of stream before n bytes
      } else {
        return -1;
      }
    }
    if !stopped {
      ReadDone(input, fd.rx.plan, n, have, t);
    }
    r := have;
  }

  /** One read(2) call for the rest of the buffer, at the point where
      buf[0..have) holds the first `have` bytes of the stream: it moves
      the next `got` bytes of the stream into the buffer right after them. */
  method ReadNext(fd: Descriptor, buf: array<bv8>, n: nat, have: nat, ghost input: seq<bv8>, ghost buf0: seq<bv8>) returns (got: int)
    requires have < n <= buf.Length && have <= |input| && |buf0| == buf.Length
    requires fd.rx.pending == input[have..] && buf[..] == Overwrite(buf0, 0, input[..have])
    modifies fd.rx, buf
    ensures got == ReadResult(input[have..], old(fd.rx.plan), n - have) && fd.rx.plan == Rest(old(fd.rx.plan))
    ensures got > 0 ==> fd.rx.pending == input[have + got..] && buf[..] == Overwrite(buf0, 0, input[..have + got])
    ensures got <= 0 ==> fd.rx.pending == input[have..] && buf[..] == Overwrite(buf0, 0, input[..have])
  {
    got := fd.rx.Read(buf, have, n - have);
    if got > 0 {
      PlaceNext(buf0, input, have, got);
      SuffixOfSuffix(input, have, got);
    }
  }

  /** `t` is the run of read_n_bytes' loop from the point where `have`
      bytes have arrived and `plan` is left. The equation is guarded by a
      pattern so that it is unfolded only where a proof asks for it: the
      plain equation lets the solver unfold the recursive function at every
      step of the loop proof, which runs past the resource limit. */
  ghost predicate ReadFrom(t: ReadRun, input: seq<bv8>, plan: seq<ReadOutcome>, n: nat, have: nat)
  {
    && have <= t.count <= n && t.count <= |input| && (t.ret == -1 || t.ret == t.count)
    && forall k: nat {:trigger ReadLoop(input, plan, n, k)} :: k == have && k <= n && k <= |input| ==> ReadLoop(input, plan, n, k) == t
  }

  /** One read of the loop of read_n_bytes: how it ends the run or where
      it leaves it. */
  lemma ReadAdvance(input: seq<bv8>, plan: seq<ReadOutcome>, n: nat, have: nat, t: ReadRun, got: int)
    requires have < n && have <= |input| && ReadFrom(t, input, plan, n, have)
    requires got == ReadResult(input[have..], plan, n - have)
    ensures got > 0 ==> ReadFrom(t, input, Rest(plan), n, have + got)
    ensures got == 0 ==> t == ReadRun(have, have, Rest(plan))
    ensures got < 0 ==> t == ReadRun(-1, have, Rest(plan))
  {
    assert ReadLoop(input, plan, n, have) == t;
    if got > 0 {
      assert ReadLoop(input, Rest(plan), n, have + got) == t;
    }
  }

  /** The loop ends with a full buffer when no read is left to make. */
  lemma ReadDone(input: seq<bv8>, plan: seq<ReadOutcome>, n: nat, have: nat, t: ReadRun)
    requires have == n && have <= |input| && ReadFrom(t, input, plan, n, have)
    ensures t == ReadRun(n, n, plan)
  {
    assert ReadLoop(input, plan, n, have) == t;
  }

  /** Each read(2) call the loop makes uses one entry of the plan, and
      every call but the last delivered bytes, so there are at most
      count + 1 of them. The run `t` and the trace `c` are the loop's. */
  lemma {:induction false} ReadLoopPlan(input: seq<bv8>, plan: seq<ReadOutcome>, n: nat, have: nat, t: ReadRun, c: seq<int>)
    requires have <= n && have <= |input|
    requires t == ReadLoop(input, plan, n, have) && c == ReadTrace(input, plan, n, have)
    ensures |c| <= t.count - have + 1 && t.plan == Drop(plan, |c|)
    decreases n - have
  {
    if have < n {
      var r := ReadResult(input[have..], plan, n - have);
      if r > 0 {
        var t', c' := ReadLoop(input, Rest(plan), n, have + r), ReadTrace(input, Rest(plan), n, have + r);
        assert c == [r] + c' && t == t';
        ReadLoopPlan(input, Rest(plan), n, have + r, t', c');
        DropRest(plan, |c'|);
      } else {
        assert c == [r] && t.plan == Rest(plan);
        DropRest(plan, 0);
      }
    }
  }

  /** Every read but the last delivered bytes. */
  lemma {:induction false} ReadTracePositive(input: seq<bv8>, plan: seq<ReadOutcome>, n: nat, have: nat, c: seq<int>)
    requires have <= n && have <= |input| && c == ReadTrace(input, plan, n, have)
    ensures forall i :: 0 <= i < |c| - 1 ==> c[i] > 0
    decreases n - have
  {
    if have < n {
      var r := ReadResult(input[have..], plan, n - have);
      if r > 0 {
        var c' := ReadTrace(input, Rest(plan), n, have + r);
        assert c == [r] + c';
        ReadTracePositive(input, Rest(plan), n, have + r, c');
        forall i | 0 <= i < |c| - 1
          ensures c[i] > 0
        {
          if i > 0 {
            assert c[i] == c'[i - 1];
          }
        }
      }
    }
  }

  /** The loop returns -1 exactly when its last read failed, whatever was
      read before, and it returns a count below n exactly when its last
      read reported the end of the stream. */
  lemma {:induction false} ReadLoopEnds(input: seq<bv8>, plan: seq<ReadOutcome>, n: nat, have: nat, t: ReadRun, c: seq<int>)
    requires have <= n && have <= |input|
    requires t == ReadLoop(input, plan, n, have) && c == ReadTrace(input, plan, n, have)
    ensures t.ret == -1 <==> |c| > 0 && Last(c) < 0
    ensures 0 <= t.ret < n <==> |c| > 0 && Last(c) == 0
    decreases n - have
  {
    if have < n {
      var r := ReadResult(input[have..], plan, n - have);
      if r > 0 {
        var t', c' := ReadLoop(input, Rest(plan), n, have + r), ReadTrace(input, Rest(plan), n, have + r);
        assert c == [r] + c' && t == t';
        ReadLoopEnds(input, Rest(plan), n, have + r, t', c');
        if |c'| > 0 {
          assert Last(c) == Last(c');
        } else {
          assert Last(c) == r;
        }
      } else {
        assert c == [r] && t.ret == if r == 0 then have else -1;
      }
    }
  }

  /** read_n_bytes returns -1 or a count in [0, n] that the stream could
      supply; -1 exactly when its last read(2) call failed, and a count
      below n exactly when its last call reported the end of the stream;
      every call but the last delivered bytes, so it makes at most
      count + 1 calls, and it uses one plan entry for each. */
  lemma ReadNState(input: seq<bv8>, plan: seq<ReadOutcome>, n: nat)
    ensures ReadN(input, plan, n).ret == -1 || 0 <= ReadN(input, plan, n).ret == ReadN(input, plan, n).count <= n
    ensures ReadN(input, plan, n).count <= |input|
    ensures |ReadTrace(input, plan, n, 0)| <= ReadN(input, plan, n).count + 1
    ensures ReadN(input, plan, n).plan == Drop(plan, |ReadTrace(input, plan, n, 0)|)
    ensures forall i :: 0 <= i < |ReadTrace(input, plan, n, 0)| - 1 ==> ReadTrace(input, plan, n, 0)[i] > 0
    ensures ReadN(input, plan, n).ret == -1 <==>
      |ReadTrace(input, plan, n, 0)| > 0 && Last(ReadTrace(input, plan, n, 0)) < 0
    ensures 0 <= ReadN(input, plan, n).ret < n <==>
      |ReadTrace(input, plan, n, 0)| > 0 && Last(ReadTrace(input, plan, n, 0)) == 0
  {
    var t, c := ReadN(input, plan, n), ReadTrace(input, plan, n, 0);
    ReadLoopPlan(input, plan, n, 0, t, c);
    ReadTracePositive(input, plan, n, 0, c);
    ReadLoopEnds(input, plan, n, 0, t, c);
  }

  /** With n == 0 read_n_bytes returns 0 and calls read(2) not at all. */
  lemma ReadNZero(input: seq<bv8>, plan: seq<ReadOutcome>)
    ensures ReadN(input, plan, 0) == ReadRun(0, 0, plan) && ReadTrace(input, plan, 0, 0) == []
  {
  }

  lemma {:induction false} ReadLoopReliable(input: seq<bv8>, plan: seq<ReadOutcome>, n: nat, have: nat)
    requires have <= n && have <= |input| && ReliableReads(plan)
    ensures ReadLoop(input, plan, n, have).ret == Min(n, |input|)
    decreases n - have
  {
    if have < n && have < |input| {
      var r := ReadResult(input[have..], plan, n - have);
      assert r > 0;
      ReadLoopReliable(input, Rest(plan), n, have + r);
    }
  }

  /** On a descriptor whose reads neither fail nor end early, read_n_bytes
      returns n when the peer sent at least n bytes, and otherwise
      everything the peer sent before it closed the stream. */
  lemma ReadNReliable(input: seq<bv8>, plan: seq<ReadOutcome>, n: nat)
    requires ReliableReads(plan)
    ensures ReadN(input, plan, n).ret == Min(n, |input|)
  {
    ReadLoopReliable(input, plan, n, 0);
  }

  // ---------------------------------------------------------------- writing

  /** What a run of the write loop amounts to: the value it returns, how
      many bytes were accepted and what is left of the write plan. */
  datatype WriteRun = WriteRun(ret: int, count: nat, plan: seq<WriteOutcome>)

  /** The write loop of write_n_bytes from the point where the first `off`
      of the n bytes have been accepted. */
  function WriteLoop(plan: seq<WriteOutcome>, n: nat, off: nat): (t: WriteRun)
    requires off <= n
    ensures off <= t.count <= n
    ensures t.ret == -1 || t.ret == t.count == n
    decreases n - off
  {
    if off == n then WriteRun(off, off, plan)
    else
      var w := WriteResult(plan, n - off);
      if w > 0 then WriteLoop(Rest(plan), n, off + w)
      else WriteRun(-1, off, Rest(plan))
  }

  /** write_n_bytes(fd, buf, n) on a descriptor whose writes report `plan`. */
  function WriteN(plan: seq<WriteOutcome>, n: nat): WriteRun
  {
    WriteLoop(plan, n, 0)
  }

  /** The values the successive write(2) calls of the same loop return. */
  function WriteTrace(plan: seq<WriteOutcome>, n: nat, off: nat): seq<int>
    requires off <= n
    decreases n - off
  {
    if off == n then []
    else
      var w := WriteResult(plan, n - off);
      [w] + if w > 0 then WriteTrace(Rest(plan), n, off + w) else []
  }

  /** write_n_bytes: writes buf[0..n) through as many partial writes as it
      takes, stopping at the first write that accepts nothing or fails. The
      output log gains buf[0..count) in order (all of buf[0..n) when n is
      returned) and buf is only read. */
  method WriteNBytes(fd: Descriptor, buf: array<bv8>, n: nat) returns (r: int)
    requires n <= buf.Length
    modifies fd.tx
    ensures var t := WriteN(old(fd.tx.plan), n);
      && r == t.ret && fd.tx.plan == t.plan
      && fd.tx.output == old(fd.tx.output) + buf[..t.count]
  {
    ghost var out0 := fd.tx.output;
    ghost var t := WriteN(fd.tx.plan, n);
    var off: nat := 0;
    while off < n
      invariant off <= n
      invariant fd.tx.output == out0 + buf[..off]
      invariant WriteLoop(fd.tx.plan, n, off) == t
      decreases n - off
    {
      var w := fd.tx.Write(buf, off, n - off);
      if w > 0 {
        AppendSlice(out0, buf[..], off, off + w);
        off := off + w;
      } else {
        return -1;  // an error, or a write that accepted nothing
      }
    }
    r := off;
  }

  /** Each write(2) call the loop makes uses one entry of the plan, and
      every call but the last accepted bytes, so there are at most
      count + 1 of them. The run `t` and the trace `c` are the loop's. */
  lemma {:induction false} WriteLoopPlan(plan: seq<WriteOutcome>, n: nat, off: nat, t: WriteRun, c: seq<int>)
    requires off <= n && t == WriteLoop(plan, n, off) && c == WriteTrace(plan, n, off)
    ensures |c| <= t.count - off + 1 && t.plan == Drop(plan, |c|)
    decreases n - off
  {
    if off < n {
      var w := WriteResult(plan, n - off);
      if w > 0 {
        var t', c' := WriteLoop(Rest(plan), n, off + w), WriteTrace(Rest(plan), n, off + w);
        assert c == [w] + c' && t == t';
        WriteLoopPlan(Rest(plan), n, off + w, t', c');
        DropRest(plan, |c'|);
      } else {
        assert c == [w] && t.plan == Rest(plan);
        DropRest(plan, 0);
      }
    }
  }

  /** Every write but the last accepted bytes. */
  lemma {:induction false} WriteTracePositive(plan: seq<WriteOutcome>, n: nat, off: nat, c: seq<int>)
    requires off <= n && c == WriteTrace(plan, n, off)
    ensures forall i :: 0 <= i < |c| - 1 ==> c[i] > 0
    decreases n - off
  {
    if off < n {
      var w := WriteResult(plan, n - off);
      if w > 0 {
        var c' := WriteTrace(Rest(plan), n, off + w);
        assert c == [w] + c';
        WriteTracePositive(Rest(plan), n, off + w, c');
        forall i | 0 <= i < |c| - 1
          ensures c[i] > 0
        {
          if i > 0 {
            assert c[i] == c'[i - 1];
          }
        }
      }
    }
  }

  /** The loop returns -1 exactly when its last write returned 0 or less,
      so a write that accepts nothing fails the call just as an error does. */
  lemma {:induction false} WriteLoopFails(plan: seq<WriteOutcome>, n: nat, off: nat, t: WriteRun, c: seq<int>)
    requires off <= n && t == WriteLoop(plan, n, off) && c == WriteTrace(plan, n, off)
    ensures t.ret == -1 <==> |c| > 0 && Last(c) <= 0
    decreases n - off
  {
    if off < n {
      var w := WriteResult(plan, n - off);
      if w > 0 {
        var t', c' := WriteLoop(Rest(plan), n, off + w), WriteTrace(Rest(plan), n, off + w);
        assert c == [w] + c' && t.ret == t'.ret;
        WriteLoopFails(Rest(plan), n, off + w, t', c');
        if |c'| > 0 {
          assert Last(c) == Last(c');
        } else {
          assert Last(c) == w;
        }
      } else {
        assert c == [w] && t.ret == -1;
      }
    }
  }

  /** write_n_bytes returns exactly n, after all n bytes were accepted, or
      -1, exactly when its last write(2) call returned 0 or less; every
      call but the last accepted bytes, so it makes at most count + 1
      calls, and it uses one plan entry for each. */
  lemma WriteNState(plan: seq<WriteOutcome>, n: nat)
    ensures WriteN(plan, n).ret == -1 || WriteN(plan, n).ret == WriteN(plan, n).count == n
    ensures |WriteTrace(plan, n, 0)| <= WriteN(plan, n).count + 1
    ensures WriteN(plan, n).plan == Drop(plan, |WriteTrace(plan, n, 0)|)
    ensures forall i :: 0 <= i < |WriteTrace(plan, n, 0)| - 1 ==> WriteTrace(plan, n, 0)[i] > 0
    ensures WriteN(plan, n).ret == -1 <==> |WriteTrace(plan, n, 0)| > 0 && Last(WriteTrace(plan, n, 0)) <= 0
  {
    var t, c := WriteN(plan, n), WriteTrace(plan, n, 0);
    WriteLoopPlan(plan, n, 0, t, c);
    WriteTracePositive(plan, n, 0, c);
    WriteLoopFails(plan, n, 0, t, c);
  }

  /** With n == 0 write_n_bytes returns 0 and calls write(2) not at all. */
  lemma WriteNZero(plan: seq<WriteOutcome>)
    ensures WriteN(plan, 0) == WriteRun(0, 0, plan) && WriteTrace(plan, 0, 0) == []
  {
  }

  lemma {:induction false} WriteLoopReliable(plan: seq<WriteOutcome>, n: nat, off: nat)
    requires off <= n && ReliableWrites(plan)
    ensures WriteLoop(plan, n, off).ret == n
    decreases n - off
  {
    if off < n {
      var w := WriteResult(plan, n - off);
      assert w > 0;
      WriteLoopReliable(Rest(plan), n, off + w);
    }
  }

  /** On a descriptor whose writes always accept something, write_n_bytes
      returns n. */
  lemma WriteNReliable(plan: seq<WriteOutcome>, n: nat)
    requires ReliableWrites(plan)
    ensures WriteN(plan, n).ret == n
  {
    WriteLoopReliable(plan, n, 0);
  }
}
