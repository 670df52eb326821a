/** pass_n_bytes: relays up to n bytes from one descriptor to another
    through a 4096-byte stack buffer, one chunk at a time: read_n_bytes
    fills the buffer with the next chunk, write_n_bytes passes on what it
    got, and the relay stops at the end of the source's stream, at the
    first failure of either side, or once n bytes have passed.

    The loop is specified by a function over what the source's peer sent
    and what the reads and writes report; the method is proved to return
    what it computes and to move exactly the bytes it says from the
    source's stream to the destination's output.
 */
module Relay {
  import opened Streams
  import opened Transfer

  /** sizeof(tmp): the size of the relay's buffer and so of its largest chunk. */
  const ChunkSize: nat := 4096

  /** The outcome of a relay: what it returns, how many bytes it took from
      the source's stream, how many of those it handed to the destination,
      and what is left of the two plans. */
  datatype PassRun = PassRun(ret: int, taken: nat, given: nat, readPlan: seq<ReadOutcome>, writePlan: seq<WriteOutcome>)

  /** One round of the relay as the trace records it: the chunk size asked
      of read_n_bytes, what it returned, and what write_n_bytes returned
      (0 when it was not called). */
  datatype Round = Round(asked: nat, got: int, wrote: int)

  /** The relay loop of pass_n_bytes from the point where `total` bytes of
      `input` have passed. */
  function PassLoop(input: seq<bv8>, rplan: seq<ReadOutcome>, wplan: seq<WriteOutcome>, n: nat, total: nat): (t: PassRun)
    requires total <= n && total <= |input|
    ensures total <= t.given <= t.taken <= n && t.taken <= |input|
    ensures t.ret == -1 || t.ret == t.given == t.taken
    decreases n - total
  {
    if total == n then PassRun(total, total, total, rplan, wplan)
    else
      var chunk := Min(n - total, ChunkSize);
      var rr := ReadN(input[total..], rplan, chunk);
      if rr.ret < 0 then PassRun(-1, total + rr.count, total, rr.plan, wplan)
      else if rr.ret == 0 then PassRun(total, total, total, rr.plan, wplan)
      else
        var wr := WriteN(wplan, rr.ret);
        if wr.ret < 0 then PassRun(-1, total + rr.ret, total + wr.count, rr.plan, wr.plan)
        else PassLoop(input, rr.plan, wr.plan, n, total + wr.ret)
  }

  /** pass_n_bytes(src, dst, n) when the source's peer has sent `input`,
      its reads report `rplan` and the destination's writes report `wplan`. */
  function PassN(input: seq<bv8>, rplan: seq<ReadOutcome>, wplan: seq<WriteOutcome>, n: nat): PassRun
  {
    PassLoop(input, rplan, wplan, n, 0)
  }

  /** The rounds of the same relay, one per call of read_n_bytes. */
  function PassTrace(input: seq<bv8>, rplan: seq<ReadOutcome>, wplan: seq<WriteOutcome>, n: nat, total: nat): seq<Round>
    requires total <= n && total <= |input|
    decreases n - total
  {
    if total == n then []
    else
      var chunk := Min(n - total, ChunkSize);
      var rr := ReadN(input[total..], rplan, chunk);
      if rr.ret <= 0 then [Round(chunk, rr.ret, 0)]
      else
        var wr := WriteN(wplan, rr.ret);
        [Round(chunk, rr.ret, wr.ret)] + if wr.ret < 0 then [] else PassTrace(input, rr.plan, wr.plan, n, total + wr.ret)
  }

  /** The bytes the rounds of a trace handed on, counting only rounds whose
      write succeeded. */
  function Passed(c: seq<Round>): int
  {
    if c == [] then 0 else (if c[0].wrote > 0 then c[0].wrote else 0) + Passed(c[1..])
  }

  /** pass_n_bytes: relays the source's stream to the destination in
      chunks of at most ChunkSize bytes. It returns what PassN computes;
      the source's stream loses exactly the bytes taken, and the
      destination's output gains the first `given` of them, in order. */
  method PassNBytes(src: Descriptor, dst: Descriptor, n: nat) returns (r: int)
    modifies src.rx, dst.tx
    ensures var t := PassN(old(src.rx.pending), old(src.rx.plan), old(dst.tx.plan), n);
      && r == t.ret && src.rx.plan == t.readPlan && dst.tx.plan == t.writePlan
      && src.rx.pending == old(src.rx.pending)[t.taken..]
      && dst.tx.output == old(dst.tx.output) + old(src.rx.pending)[..t.given]
  {
    var tmp := new bv8[ChunkSize](_ => 0);
    ghost var input, out0 := src.rx.pending, dst.tx.output;
    ghost var t := PassN(input, src.rx.plan, dst.tx.plan, n);
    var total: nat := 0;
    assert PassLoop(input, src.rx.plan, dst.tx.plan, n, 0) == t;
    while total < n
      invariant total <= n && total <= |input|
      invariant src.rx.pending == input[total..]
      invariant dst.tx.output == out0 + input[..total]
      invariant Leads(t, input, src.rx.plan, dst.tx.plan, n, total)
      decreases n - total
    {
      var got, w := PassRound(src, dst, tmp, n, total, input, out0, t);
      if got < 0 {
        return -1;  // read error
      }
      if got == 0 {
        break;  // end of stream
      }
      if w < 0 {
        return -1;  // write error
      }
      total := total + w;
    }
    assert total == n ==> PassLoop(input, src.rx.plan, dst.tx.plan, n, total) == t;
    r := total;
  }

  /** `t` is the run of the relay from the point where `total` bytes have
      passed and the two plans are left. The equation is guarded by a
      pattern so that it is unfolded only where a proof asks for it: the
      plain equation lets the solver unfold the recursive function at every
      step of the loop proof, which runs past the resource limit. */
  ghost predicate Leads(t: PassRun, input: seq<bv8>, rplan: seq<ReadOutcome>, wplan: seq<WriteOutcome>, n: nat, total: nat)
  {
    && total <= t.given <= t.taken <= n && t.taken <= |input|
    && forall k: nat {:trigger PassLoop(input, rplan, wplan, n, k)} :: k == total && k <= n && k <= |input| ==> PassLoop(input, rplan, wplan, n, k) == t
  }

  /** One round of pass_n_bytes with `total` bytes passed: read_n_bytes
      fills tmp with the next chunk of at most ChunkSize bytes, and when
      it got any, write_n_bytes passes them on (w is 0 when it was not
      called). The source's stream loses what was read; the destination's
      output gains what was written, which is the next bytes of the stream. */
  method PassRound(src: Descriptor, dst: Descriptor, tmp: array<bv8>, n: nat, total: nat,
                   ghost input: seq<bv8>, ghost out0: seq<bv8>, ghost t: PassRun) returns (got: int, w: int)
    requires total < n && total <= |input| && tmp.Length == ChunkSize
    requires src.rx.pending == input[total..] && dst.tx.output == out0 + input[..total]
    requires Leads(t, input, src.rx.plan, dst.tx.plan, n, total)
    modifies src.rx, dst.tx, tmp
    ensures got <= 0 || w < 0 ==>
      && t.ret == (if got == 0 then total else -1) && (got == 0 ==> t.given == t.taken == total)
      && src.rx.plan == t.readPlan && dst.tx.plan == t.writePlan
      && src.rx.pending == input[t.taken..] && dst.tx.output == out0 + input[..t.given]
    ensures got > 0 && w >= 0 ==>
      && w == got && total + w <= n && total + w <= |input|
      && src.rx.pending == input[total + w..] && dst.tx.output == out0 + input[..total + w]
      && Leads(t, input, src.rx.plan, dst.tx.plan, n, total + w)
  {
    ghost var rplan, wplan := src.rx.plan, dst.tx.plan;
    var chunk := Min(n - total, ChunkSize);
    got := ReadChunk(src, tmp, chunk, total, input);
    w := 0;
    if got > 0 {
      w := SendChunk(dst, tmp, got, total, input, out0);
    }
    ghost var rr := ReadN(input[total..], rplan, Min(n - total, ChunkSize));
    ghost var wc := if got > 0 then WriteN(wplan, got).count else 0;
    PassAdvance(input, rplan, wplan, n, total, t, got, w, rr.count, wc, src.rx.plan, dst.tx.plan);
  }

  /** One round of the relay as PassLoop sees it: how its outcome ends the
      run, or where it leaves the rest of the run. */
  lemma PassAdvance(input: seq<bv8>, rplan: seq<ReadOutcome>, wplan: seq<WriteOutcome>, n: nat, total: nat, t: PassRun,
                    got: int, w: int, rc: nat, wc: nat, rplan2: seq<ReadOutcome>, wplan2: seq<WriteOutcome>)
    requires total < n && total <= |input| && Leads(t, input, rplan, wplan, n, total)
    requires var rr := ReadN(input[total..], rplan, Min(n - total, ChunkSize)); got == rr.ret && rc == rr.count && rplan2 == rr.plan
    requires got > 0 ==> var wr := WriteN(wplan, got); w == wr.ret && wc == wr.count && wplan2 == wr.plan
    requires got <= 0 ==> w == 0 && wc == 0 && wplan2 == wplan
    ensures got < 0 ==> t == PassRun(-1, total + rc, total, rplan2, wplan2)
    ensures got == 0 ==> t == PassRun(total, total, total, rplan2, wplan2)
    ensures got > 0 && w < 0 ==> t == PassRun(-1, total + got, total + wc, rplan2, wplan2)
    ensures got > 0 && w >= 0 ==> w == got == wc && total + w <= n && total + w <= |input| && Leads(t, input, rplan2, wplan2, n, total + w)
  {
    assert PassLoop(input, rplan, wplan, n, total) == t;
    PassStep(input, rplan, wplan, n, total, t);
    RunTail(t, input, rplan, wplan, n, total);
  }

  /** After a round that passed on all it read, the run goes on from the
      new count with what is left of the two plans. */
  lemma RunTail(t: PassRun, input: seq<bv8>, rplan: seq<ReadOutcome>, wplan: seq<WriteOutcome>, n: nat, total: nat)
    requires total < n && Leads(t, input, rplan, wplan, n, total)
    ensures var rr := ReadN(input[total..], rplan, Min(n - total, ChunkSize));
      rr.ret > 0 ==> var wr := WriteN(wplan, rr.ret);
        wr.ret >= 0 ==>
          && wr.ret == rr.ret && total + wr.ret <= n && total + wr.ret <= |input|
          && Leads(t, input, rr.plan, wr.plan, n, total + wr.ret)
  {
    assert PassLoop(input, rplan, wplan, n, total) == t;
    var rr := ReadN(input[total..], rplan, Min(n - total, ChunkSize));
    if rr.ret > 0 {
      var wr := WriteN(wplan, rr.ret);
      if wr.ret >= 0 {
        assert PassLoop(input, rr.plan, wr.plan, n, total + wr.ret) == t;
      }
    }
  }

  /** PassLoop unfolded once. */
  lemma PassStep(input: seq<bv8>, rplan: seq<ReadOutcome>, wplan: seq<WriteOutcome>, n: nat, total: nat, t: PassRun)
    requires total < n && total <= |input| && PassLoop(input, rplan, wplan, n, total) == t
    ensures var rr := ReadN(input[total..], rplan, Min(n - total, ChunkSize));
      && (rr.ret < 0 ==> t == PassRun(-1, total + rr.count, total, rr.plan, wplan))
      && (rr.ret == 0 ==> t == PassRun(total, total, total, rr.plan, wplan))
      && (rr.ret > 0 ==> var wr := WriteN(wplan, rr.ret);
           && (wr.ret < 0 ==> t == PassRun(-1, total + rr.ret, total + wr.count, rr.plan, wr.plan))
           && (wr.ret >= 0 ==> wr.ret == rr.ret && PassLoop(input, rr.plan, wr.plan, n, total + wr.ret) == t))
  {
  }

  /** read_n_bytes into tmp for the next chunk: tmp then starts with the
      bytes of the stream that follow the first `total`. */
  method ReadChunk(src: Descriptor, tmp: array<bv8>, chunk: nat, total: nat, ghost input: seq<bv8>) returns (got: int)
    requires chunk <= tmp.Length && total <= |input| && src.rx.pending == input[total..]
    modifies src.rx, tmp
    ensures var rr := ReadN(input[total..], old(src.rx.plan), chunk);
      && got == rr.ret && src.rx.plan == rr.plan && total + rr.count <= |input|
      && src.rx.pending == input[total + rr.count..] && tmp[..rr.count] == input[total..total + rr.count]
  {
    ghost var tmp0 := tmp[..];
    ghost var rr := ReadN(input[total..], src.rx.plan, chunk);
    got := ReadNBytes(src, tmp, chunk);
    SuffixOfSuffix(input, total, rr.count);
    ChunkBytes(tmp0, input, total, rr.count, rr.count);
  }

  /** write_n_bytes from tmp, which holds the stream's bytes after the
      first `total`: the destination's output gains those it accepted. */
  method SendChunk(dst: Descriptor, tmp: array<bv8>, got: nat, total: nat, ghost input: seq<bv8>, ghost out0: seq<bv8>) returns (w: int)
    requires got <= tmp.Length && total + got <= |input| && tmp[..got] == input[total..total + got]
    requires dst.tx.output == out0 + input[..total]
    modifies dst.tx
    ensures var wr := WriteN(old(dst.tx.plan), got);
      && w == wr.ret && dst.tx.plan == wr.plan && dst.tx.output == out0 + input[..total + wr.count]
  {
    ghost var wr := WriteN(dst.tx.plan, got);
    w := WriteNBytes(dst, tmp, got);
    assert tmp[..wr.count] == tmp[..got][..wr.count];
    AppendSlice(out0, input, total, total + wr.count);
  }

  /** The first k bytes of a buffer that received the `got` bytes of the
      stream after its first `total` are the k bytes after `total`. */
  lemma ChunkBytes(buf: seq<bv8>, input: seq<bv8>, total: nat, got: nat, k: nat)
    requires total + got <= |input| && got <= |buf| && k <= got
    ensures Overwrite(buf, 0, input[total..][..got])[..k] == input[total..total + k]
  {
    OverwritePrefix(buf, input[total..][..got], k);
  }

  // ---------------------------------------------------------------- what the relay promises

  /** `c` is the trace of the relay from the point where `total` bytes
      have passed. The equation is guarded by a pattern so that it is
      unfolded only where a proof asks for it: the plain equation lets the
      solver unfold the recursive function at every step of the proofs about
      the relay, which runs past the resource limit. */
  ghost predicate TraceFrom(c: seq<Round>, input: seq<bv8>, rplan: seq<ReadOutcome>, wplan: seq<WriteOutcome>, n: nat, total: nat)
  {
    && total <= n && total <= |input|
    && forall k: nat {:trigger PassTrace(input, rplan, wplan, n, k)} :: k == total && k <= n && k <= |input| ==> PassTrace(input, rplan, wplan, n, k) == c
  }

  /** The first round of a trace and where the rest of it starts. */
  lemma TraceStep(c: seq<Round>, input: seq<bv8>, rplan: seq<ReadOutcome>, wplan: seq<WriteOutcome>, n: nat, total: nat)
    requires TraceFrom(c, input, rplan, wplan, n, total)
    ensures total == n <==> c == []
    ensures total < n ==>
      var rr := ReadN(input[total..], rplan, Min(n - total, ChunkSize));
      && c[0].asked == Min(n - total, ChunkSize) && c[0].got == rr.ret && -1 <= c[0].got <= c[0].asked
      && (c[0].got <= 0 ==> |c| == 1 && c[0].wrote == 0)
      && (c[0].got > 0 ==> var wr := WriteN(wplan, rr.ret);
           && c[0].wrote == wr.ret && (c[0].wrote == -1 || c[0].wrote == c[0].got)
           && (c[0].wrote < 0 ==> |c| == 1)
           && (c[0].wrote >= 0 ==>
                 (total + c[0].wrote <= n && total + c[0].wrote <= |input|
                  && TraceFrom(c[1..], input, rr.plan, wr.plan, n, total + c[0].wrote))))
  {
    TraceHead(c, input, rplan, wplan, n, total);
    if total < n {
      TraceTail(c, input, rplan, wplan, n, total);
    }
  }

  /** The first round of a trace, as PassTrace computes it. */
  lemma TraceHead(c: seq<Round>, input: seq<bv8>, rplan: seq<ReadOutcome>, wplan: seq<WriteOutcome>, n: nat, total: nat)
    requires TraceFrom(c, input, rplan, wplan, n, total)
    ensures total == n <==> c == []
    ensures total < n ==>
      var rr := ReadN(input[total..], rplan, Min(n - total, ChunkSize));
      && c[0].asked == Min(n - total, ChunkSize) && c[0].got == rr.ret && -1 <= c[0].got <= c[0].asked
      && (c[0].got <= 0 ==> |c| == 1 && c[0].wrote == 0)
      && (c[0].got > 0 ==> var wr := WriteN(wplan, rr.ret);
           && c[0].wrote == wr.ret && (c[0].wrote == -1 || c[0].wrote == c[0].got)
           && (c[0].wrote < 0 ==> |c| == 1))
  {
    assert PassTrace(input, rplan, wplan, n, total) == c;
  }

  /** The rest of a trace after a round that passed on all it read. */
  lemma TraceTail(c: seq<Round>, input: seq<bv8>, rplan: seq<ReadOutcome>, wplan: seq<WriteOutcome>, n: nat, total: nat)
    requires TraceFrom(c, input, rplan, wplan, n, total) && total < n
    ensures var rr := ReadN(input[total..], rplan, Min(n - total, ChunkSize));
      rr.ret > 0 ==> var wr := WriteN(wplan, rr.ret);
        wr.ret >= 0 ==>
          && total + wr.ret <= n && total + wr.ret <= |input| && c != []
          && TraceFrom(c[1..], input, rr.plan, wr.plan, n, total + wr.ret)
  {
    assert PassTrace(input, rplan, wplan, n, total) == c;
    var rr := ReadN(input[total..], rplan, Min(n - total, ChunkSize));
    if rr.ret > 0 {
      var wr := WriteN(wplan, rr.ret);
      if wr.ret >= 0 {
        var rest := PassTrace(input, rr.plan, wr.plan, n, total + wr.ret);
        assert c == [Round(Min(n - total, ChunkSize), rr.ret, wr.ret)] + rest;
        assert c[1..] == rest;
      }
    }
  }

  /** The first round of the relay decides how its run ends, or where
      the rest of the run starts. */
  lemma RunStep(t: PassRun, input: seq<bv8>, rplan: seq<ReadOutcome>, wplan: seq<WriteOutcome>, n: nat, total: nat)
    requires Leads(t, input, rplan, wplan, n, total)
    ensures t.ret == -1 || t.ret == t.given
    ensures total == n ==> t.ret == total
    ensures total < n ==>
      var rr := ReadN(input[total..], rplan, Min(n - total, ChunkSize));
      && (rr.ret < 0 ==> t.ret == -1)
      && (rr.ret == 0 ==> t.ret == total)
      && (rr.ret > 0 ==> var wr := WriteN(wplan, rr.ret);
           && (wr.ret < 0 ==> t.ret == -1)
           && (wr.ret >= 0 ==> total + wr.ret <= n && total + wr.ret <= |input| && Leads(t, input, rr.plan, wr.plan, n, total + wr.ret)))
  {
    assert PassLoop(input, rplan, wplan, n, total) == t;
    if total < n {
      PassStep(input, rplan, wplan, n, total, t);
      RunTail(t, input, rplan, wplan, n, total);
    }
  }

  /** What each round of the relay does: it reads at most the chunk it
      asked for, which is at most ChunkSize bytes; when it got bytes it
      writes all of them or fails, and when it got none it writes nothing;
      every round but the last got bytes and wrote all of them. */
  lemma {:induction false} PassTraceRounds(c: seq<Round>, input: seq<bv8>, rplan: seq<ReadOutcome>, wplan: seq<WriteOutcome>, n: nat, total: nat)
    requires TraceFrom(c, input, rplan, wplan, n, total)
    ensures forall i :: 0 <= i < |c| ==> 0 < c[i].asked <= ChunkSize && -1 <= c[i].got <= c[i].asked
    ensures forall i :: 0 <= i < |c| ==> if c[i].got > 0 then c[i].wrote == c[i].got || c[i].wrote == -1 else c[i].wrote == 0
    ensures forall i :: 0 <= i < |c| - 1 ==> c[i].got > 0 && c[i].wrote == c[i].got
    decreases n - total
  {
    TraceStep(c, input, rplan, wplan, n, total);
    if total < n && c[0].got > 0 && c[0].wrote >= 0 {
      var rr := ReadN(input[total..], rplan, Min(n - total, ChunkSize));
      var wr := WriteN(wplan, rr.ret);
      PassTraceRounds(c[1..], input, rr.plan, wr.plan, n, total + c[0].wrote);
      forall i | 0 < i < |c|
        ensures c[i] == c[1..][i - 1]
      {
      }
    }
  }

  /** The bytes passed by a trace are those of its first round and those
      of the rest. */
  lemma PassedPrefix(c: seq<Round>, i: nat)
    requires 0 < i <= |c|
    ensures Passed(c[..i]) == (if c[0].wrote > 0 then c[0].wrote else 0) + Passed(c[1..][..i - 1])
  {
    assert c[..i][1..] == c[1..][..i - 1];
  }

  /** The chunk each round asks for is what is left of n after the bytes
      the earlier rounds passed on, capped at ChunkSize. */
  lemma {:induction false} PassTraceChunks(c: seq<Round>, input: seq<bv8>, rplan: seq<ReadOutcome>, wplan: seq<WriteOutcome>, n: nat, total: nat)
    requires TraceFrom(c, input, rplan, wplan, n, total)
    ensures forall i :: 0 <= i < |c| ==> c[i].asked == Min(n - total - Passed(c[..i]), ChunkSize)
    decreases n - total
  {
    TraceStep(c, input, rplan, wplan, n, total);
    if total < n {
      assert c[..0] == [];
      if c[0].got > 0 && c[0].wrote >= 0 {
        var rr := ReadN(input[total..], rplan, Min(n - total, ChunkSize));
        var wr := WriteN(wplan, rr.ret);
        var c' := c[1..];
        PassTraceChunks(c', input, rr.plan, wr.plan, n, total + c[0].wrote);
        forall i | 0 < i < |c|
          ensures c[i].asked == Min(n - total - Passed(c[..i]), ChunkSize)
        {
          PassedPrefix(c, i);
          assert c[i] == c'[i - 1];
        }
      }
    }
  }

  /** How the relay ends. It returns -1 exactly when the last round's read
      or write failed, and a count below n exactly when the last round's
      read found the source's stream at its end; a count it returns is
      the sum of the bytes its rounds passed on. */
  lemma {:induction false} PassLoopEnds(t: PassRun, c: seq<Round>, input: seq<bv8>, rplan: seq<ReadOutcome>, wplan: seq<WriteOutcome>, n: nat, total: nat)
    requires Leads(t, input, rplan, wplan, n, total) && TraceFrom(c, input, rplan, wplan, n, total)
    ensures t.ret == -1 <==> c != [] && (c[|c| - 1].got < 0 || c[|c| - 1].wrote < 0)
    ensures total <= t.ret < n <==> c != [] && c[|c| - 1].got == 0
    ensures t.ret >= 0 ==> t.ret == total + Passed(c)
    decreases n - total
  {
    TraceStep(c, input, rplan, wplan, n, total);
    RunStep(t, input, rplan, wplan, n, total);
    if total < n && c[0].got > 0 && c[0].wrote >= 0 {
      var rr := ReadN(input[total..], rplan, Min(n - total, ChunkSize));
      var wr := WriteN(wplan, rr.ret);
      var c' := c[1..];
      PassLoopEnds(t, c', input, rr.plan, wr.plan, n, total + c[0].wrote);
      if c' != [] {
        assert c[|c| - 1] == c'[|c'| - 1];
      }
    }
  }

  /** pass_n_bytes returns -1 or the count it passed on, which is at most
      n and at most what the source's peer sent; it took exactly that
      many bytes from the source, and so the destination has received
      exactly the bytes it returns. */
  lemma PassNResult(input: seq<bv8>, rplan: seq<ReadOutcome>, wplan: seq<WriteOutcome>, n: nat)
    ensures var t := PassN(input, rplan, wplan, n);
      t.ret == -1 || (0 <= t.ret == t.given == t.taken <= n && t.ret <= |input|)
  {
  }

  /** pass_n_bytes returns -1 exactly when the last round's read or write
      failed, and a count below n exactly when the last round found the
      source's stream at its end; a count it returns is the sum of what
      its rounds passed on. */
  lemma PassNEnds(input: seq<bv8>, rplan: seq<ReadOutcome>, wplan: seq<WriteOutcome>, n: nat)
    ensures var t, c := PassN(input, rplan, wplan, n), PassTrace(input, rplan, wplan, n, 0);
      && (t.ret == -1 <==> c != [] && (c[|c| - 1].got < 0 || c[|c| - 1].wrote < 0))
      && (0 <= t.ret < n <==> c != [] && c[|c| - 1].got == 0)
      && (t.ret >= 0 ==> t.ret == Passed(c))
  {
    var t, c := PassN(input, rplan, wplan, n), PassTrace(input, rplan, wplan, n, 0);
    PassLoopEnds(t, c, input, rplan, wplan, n, 0);
  }

  /** Every round of pass_n_bytes asks read_n_bytes for the rest of n
      after what the earlier rounds passed on, capped at ChunkSize, and
      gets at most that; a round that got bytes writes all of them or
      fails, and every round but the last passed on all it read. */
  lemma PassNRounds(input: seq<bv8>, rplan: seq<ReadOutcome>, wplan: seq<WriteOutcome>, n: nat)
    ensures var c := PassTrace(input, rplan, wplan, n, 0);
      && (forall i :: 0 <= i < |c| ==> 0 < c[i].asked == Min(n - Passed(c[..i]), ChunkSize) && -1 <= c[i].got <= c[i].asked)
      && (forall i :: 0 <= i < |c| - 1 ==> c[i].got > 0 && c[i].wrote == c[i].got)
      && (forall i :: 0 <= i < |c| ==> c[i].got > 0 ==> c[i].wrote == c[i].got || c[i].wrote == -1)
  {
    var c := PassTrace(input, rplan, wplan, n, 0);
    PassTraceRounds(c, input, rplan, wplan, n, 0);
    PassTraceChunks(c, input, rplan, wplan, n, 0);
  }

  /** With n == 0 pass_n_bytes returns 0 and makes no call. */
  lemma PassNZero(input: seq<bv8>, rplan: seq<ReadOutcome>, wplan: seq<WriteOutcome>)
    ensures PassN(input, rplan, wplan, 0) == PassRun(0, 0, 0, rplan, wplan) && PassTrace(input, rplan, wplan, 0, 0) == []
  {
  }

  /** The relay from `total` on, when neither side fails or stalls. */
  lemma {:induction false} PassLoopReliable(input: seq<bv8>, rplan: seq<ReadOutcome>, wplan: seq<WriteOutcome>, n: nat, total: nat)
    requires total <= n && total <= |input| && ReliableReads(rplan) && ReliableWrites(wplan)
    ensures PassLoop(input, rplan, wplan, n, total).ret == Min(n, |input|)
    decreases n - total
  {
    if total < n {
      var chunk := Min(n - total, ChunkSize);
      var rr := ReadN(input[total..], rplan, chunk);
      ReadNReliable(input[total..], rplan, chunk);
      ReadNState(input[total..], rplan, chunk);
      if rr.ret > 0 {
        var wr := WriteN(wplan, rr.ret);
        WriteNReliable(wplan, rr.ret);
        WriteNState(wplan, rr.ret);
        ReliableDrop(rplan, wplan, |ReadTrace(input[total..], rplan, chunk, 0)|, |WriteTrace(wplan, rr.ret, 0)|);
        PassLoopReliable(input, rr.plan, wr.plan, n, total + wr.ret);
      }
    }
  }

  /** What is left of a reliable plan is reliable. */
  lemma ReliableDrop(rplan: seq<ReadOutcome>, wplan: seq<WriteOutcome>, i: nat, j: nat)
    requires ReliableReads(rplan) && ReliableWrites(wplan)
    ensures ReliableReads(Drop(rplan, i)) && ReliableWrites(Drop(wplan, j))
  {
    if i < |rplan| {
      assert forall k :: 0 <= k < |rplan| - i ==> Drop(rplan, i)[k] == rplan[i + k];
    }
    if j < |wplan| {
      assert forall k :: 0 <= k < |wplan| - j ==> Drop(wplan, j)[k] == wplan[j + k];
    }
  }

  /** When neither side fails or stalls, pass_n_bytes passes on n bytes
      when the source's peer sent at least n, and otherwise everything it
      sent before it closed the stream. */
  lemma PassNReliable(input: seq<bv8>, rplan: seq<ReadOutcome>, wplan: seq<WriteOutcome>, n: nat)
    requires ReliableReads(rplan) && ReliableWrites(wplan)
    ensures PassN(input, rplan, wplan, n).ret == Min(n, |input|)
  {
    PassLoopReliable(input, rplan, wplan, n, 0);
  }
}
