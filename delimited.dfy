/** read_until: reads into buf[0..n) like read_n_bytes, but after every
    read that delivers bytes it copies the accumulated bytes to a scratch
    buffer, terminates the copy with a zero byte and stops as soon as
    strstr finds the needle in it.

    The loop is specified by a function over what the peer sent, what each
    read reports and the prefix lengths at which the check succeeds; the
    method is proved to return what it computes and to leave buffer and
    stream holding exactly the bytes that moved.
 */
module Delimited {
  import opened Streams
  import opened CStrings
  import opened Transfer

  /** The lengths of the prefixes of `input` in which read_until's check
      finds `needle`: where the loop stops once that many bytes arrived. */
  function FoundAt(input: seq<bv8>, needle: seq<bv8>): set<nat>
  {
    set k: nat | k <= |input| && Found(input[..k], needle)
  }

  /** `hits` holds exactly the prefix lengths of `input` at which
      read_until's check finds `needle`. */
  ghost predicate Hits(hits: set<nat>, input: seq<bv8>, needle: seq<bv8>)
  {
    forall k: nat {:trigger Found(input[..k], needle)} :: k <= |input| ==> (k in hits <==> Found(input[..k], needle))
  }

  lemma FoundAtHits(input: seq<bv8>, needle: seq<bv8>)
    ensures Hits(FoundAt(input, needle), input, needle)
  {
  }

  /** The outcome of the read loop of read_until: what it returns, how many
      bytes it moved into the buffer, how many bytes the last failing check
      saw, and what is left of the read plan. */
  datatype UntilRun = UntilRun(ret: int, count: nat, checked: nat, plan: seq<ReadOutcome>)

  /** The read loop of read_until, from the point where the first `have`
      bytes of `input` are in the buffer; the check made after every read
      that delivered bytes succeeds when the count is in `hits`. */
  function UntilLoop(input: seq<bv8>, plan: seq<ReadOutcome>, n: nat, hits: set<nat>, have: nat): (t: UntilRun)
    requires have <= n && have <= |input|
    ensures have <= t.checked <= t.count <= n && t.count <= |input|
    ensures t.ret == -1 || t.ret == t.count
    decreases n - have
  {
    if have == n then UntilRun(have, have, have, plan)
    else
      var r := ReadResult(input[have..], plan, n - have);
      if r > 0 then
        if have + r in hits then UntilRun(have + r, have + r, have, Rest(plan))
        else UntilLoop(input, Rest(plan), n, hits, have + r)
      else if r == 0 then UntilRun(have, have, have, Rest(plan))
      else UntilRun(-1, have, have, Rest(plan))
  }

  /** The values the successive read(2) calls of the same loop return. */
  function UntilTrace(input: seq<bv8>, plan: seq<ReadOutcome>, n: nat, hits: set<nat>, have: nat): seq<int>
    requires have <= n && have <= |input|
    decreases n - have
  {
    if have == n then []
    else
      var r := ReadResult(input[have..], plan, n - have);
      [r] + if r > 0 && have + r !in hits then UntilTrace(input, Rest(plan), n, hits, have + r) else []
  }

  /** The check read_until makes after each read: copy the `have`
      accumulated bytes to a scratch buffer, terminate the copy with a zero
      byte and ask strstr for the needle. When the buffer starts with the
      first `have` bytes of the stream, it finds the needle exactly when
      `have` is one of the counts at which the needle is found. */
  method NeedleIn(buf: array<bv8>, have: nat, needle: seq<bv8>, ghost input: seq<bv8>) returns (found: bool)
    requires have <= buf.Length && have <= |input| && buf[..have] == input[..have]
    ensures found <==> Found(input[..have], needle)
  {
    var tmp := buf[..have] + [0];
    found := StrStr(CStr(tmp), CStr(needle)).Some?;
    CStrCut(buf[..have], []);
    assert buf[..have] + [0] + [] == tmp;
  }

  /** read_until(fd, buf, n, needle). A null buf or needle gives -1 with
      nothing read; otherwise the read loop runs. */
  method ReadUntil(fd: Descriptor, buf: array?<bv8>, n: nat, needle: Option<seq<bv8>>) returns (r: int)
    requires buf != null ==> n <= buf.Length
    modifies fd.rx, buf
    ensures buf == null || needle.None? ==>
      r == -1 && fd.rx.pending == old(fd.rx.pending) && fd.rx.plan == old(fd.rx.plan)
    ensures buf != null && needle.None? ==> buf[..] == old(buf[..])
    ensures buf != null && needle.Some? ==>
      var t := UntilLoop(old(fd.rx.pending), old(fd.rx.plan), n, FoundAt(old(fd.rx.pending), needle.value), 0);
      && r == t.ret && fd.rx.plan == t.plan
      && fd.rx.pending == old(fd.rx.pending)[t.count..]
      && buf[..] == Overwrite(old(buf[..]), 0, old(fd.rx.pending)[..t.count])
  {
    if buf == null || needle.None? {
      return -1;
    }
    ghost var hits := FoundAt(fd.rx.pending, needle.value);
    ghost var t := UntilLoop(fd.rx.pending, fd.rx.plan, n, hits, 0);
    FoundAtHits(fd.rx.pending, needle.value);
    r := ReadUntilLoop(fd, buf, n, needle.value, hits, t);
  }

  /** The loop of read_until with a buffer and a needle whose check
      succeeds at the counts in `hits`. It returns what UntilLoop computes;
      buf[0..count) then holds the first count bytes of the stream, the
      stream has lost exactly those, and no other element of buf has
      changed. */
  method ReadUntilLoop(fd: Descriptor, buf: array<bv8>, n: nat, needle: seq<bv8>, ghost hits: set<nat>, ghost t: UntilRun) returns (r: int)
    requires n <= buf.Length && Hits(hits, fd.rx.pending, needle)
    requires UntilFrom(t, fd.rx.pending, fd.rx.plan, n, hits, 0)
    modifies fd.rx, buf
    ensures r == t.ret && fd.rx.plan == t.plan
    ensures fd.rx.pending == old(fd.rx.pending)[t.count..]
    ensures Filled(buf, old(buf[..]), old(fd.rx.pending)[..t.count])
  {
    ghost var input, buf0 := fd.rx.pending, buf[..];
    var have: nat := 0;
    // Set when the loop is left by a break. Only a loop that runs until
    // have == n needs the Done lemma to close the equation for the run.
    ghost var stopped := false;
    OverwriteNothing(buf0, 0);
    assert input[..0] == [];
    while have < n
      invariant have <= n && have <= |input|
      invariant fd.rx.pending == input[have..]
      invariant Filled(buf, buf0, input[..have])
      invariant UntilFrom(t, input, fd.rx.plan, n, hits, have)
      decreases n - have
    {
      var got, found := ReadAndCheck(fd, buf, n, needle, have, input, buf0, hits, t);
      if got > 0 {
        have := have + got;
        if found {
          stopped := true;
          break;
        }
      } else if got == 0 {
        stopped := true;
        break;  // end of stream
      } else {
        return -1;
      }
    }
    if !stopped {
      UntilDone(input, fd.rx.plan, n, hits, have, t);
    }
    r := have;
  }

  /** buf holds `buf0` with its first |bytes| elements replaced by `bytes`.
      The equation is guarded by a pattern so that it is unfolded only where
      a proof asks for it: the plain `buf[..] == Overwrite(buf0, 0, bytes)`
      as a loop invariant makes the loop proof run past the resource limit. */
  ghost predicate Filled(buf: array<bv8>, buf0: seq<bv8>, bytes: seq<bv8>)
    reads buf
  {
    && |bytes| <= |buf0|
    && forall b: seq<bv8> {:trigger Overwrite(buf0, 0, b)} :: b == bytes ==> buf[..] == Overwrite(buf0, 0, b)
  }

  /** `t` is the run of read_until's loop from the point where `have`
      bytes have arrived and `plan` is left. The equation is guarded by a
      pattern so that it is unfolded only where a proof asks for it: the
      plain equation lets the solver unfold the recursive function at every
      step of the loop proof, which runs past the resource limit. */
  ghost predicate UntilFrom(t: UntilRun, input: seq<bv8>, plan: seq<ReadOutcome>, n: nat, hits: set<nat>, have: nat)
  {
    && have <= t.checked <= t.count <= n && t.count <= |input| && (t.ret == -1 || t.ret == t.count)
    && forall k: nat {:trigger UntilLoop(input, plan, n, hits, k)} :: k == have && k <= n && k <= |input| ==> UntilLoop(input, plan, n, hits, k) == t
  }

  /** One read of the loop of read_until: how it ends the run or where it
      leaves it. */
  lemma UntilAdvance(input: seq<bv8>, plan: seq<ReadOutcome>, n: nat, hits: set<nat>, have: nat, t: UntilRun, got: int)
    requires have < n && have <= |input| && UntilFrom(t, input, plan, n, hits, have)
    requires got == ReadResult(input[have..], plan, n - have)
    ensures got > 0 && have + got in hits ==> t == UntilRun(have + got, have + got, have, Rest(plan))
    ensures got > 0 && have + got !in hits ==> UntilFrom(t, input, Rest(plan), n, hits, have + got)
    ensures got == 0 ==> t == UntilRun(have, have, have, Rest(plan))
    ensures got < 0 ==> t == UntilRun(-1, have, have, Rest(plan))
  {
    assert UntilLoop(input, plan, n, hits, have) == t;
    if got > 0 && have + got !in hits {
      assert UntilLoop(input, Rest(plan), n, hits, have + got) == t;
    }
  }

  /** The loop ends with a full buffer when no read is left to make. */
  lemma UntilDone(input: seq<bv8>, plan: seq<ReadOutcome>, n: nat, hits: set<nat>, have: nat, t: UntilRun)
    requires have == n && have <= |input| && UntilFrom(t, input, plan, n, hits, have)
    ensures t == UntilRun(n, n, n, plan)
  {
    assert UntilLoop(input, plan, n, hits, have) == t;
  }

  /** One pass of the loop of read_until: a read(2) call for the rest of
      the buffer and, when it delivered bytes, the check on all the bytes
      so far. The read moves the next `got` bytes of the stream into the
      buffer right after the first `have`. */
  method ReadAndCheck(fd: Descriptor, buf: array<bv8>, n: nat, needle: seq<bv8>, have: nat,
                      ghost input: seq<bv8>, ghost buf0: seq<bv8>, ghost hits: set<nat>, ghost t: UntilRun) returns (got: int, found: bool)
    requires have < n <= buf.Length && have <= |input| && |buf0| == buf.Length && Hits(hits, input, needle)
    requires fd.rx.pending == input[have..] && Filled(buf, buf0, input[..have])
    requires UntilFrom(t, input, fd.rx.plan, n, hits, have)
    modifies fd.rx, buf
    ensures got > 0 && !found ==> UntilFrom(t, input, fd.rx.plan, n, hits, have + got)
    ensures got > 0 && found ==> t == UntilRun(have + got, have + got, have, fd.rx.plan)
    ensures got == 0 ==> t == UntilRun(have, have, have, fd.rx.plan)
    ensures got < 0 ==> t == UntilRun(-1, have, have, fd.rx.plan)
    ensures got == ReadResult(input[have..], old(fd.rx.plan), n - have) && fd.rx.plan == Rest(old(fd.rx.plan))
    ensures got > 0 ==> fd.rx.pending == input[have + got..] && Filled(buf, buf0, input[..have + got])
    ensures got > 0 ==> (found <==> have + got in hits)
    ensures got <= 0 ==> fd.rx.pending == input[have..] && Filled(buf, buf0, input[..have])
  {
    found := false;
    ghost var plan := fd.rx.plan;
    got := ReadNext(fd, buf, n, have, input, buf0);
    UntilAdvance(input, plan, n, hits, have, t, got);
    if got > 0 {
      OverwritePrefix(buf0, input[..have + got], have + got);
      assert input[..have + got][..have + got] == input[..have + got];
      assert buf[..have + got] == input[..have + got];
      found := NeedleIn(buf, have + got, needle, input);
    }
  }

  /** Once the needle is found in a prefix of the stream it is found in
      every longer prefix. */
  lemma FoundPrefix(input: seq<bv8>, j: nat, k: nat, needle: seq<bv8>)
    requires j <= k <= |input| && Found(input[..j], needle)
    ensures Found(input[..k], needle)
  {
    FoundMonotone(input[..j], input[j..k], needle);
    assert input[..j] + input[j..k] == input[..k];
  }

  /** The counts at which read_until's check succeeds are closed upwards
      within the stream: once the needle is found, it is found at every
      later count. */
  lemma FoundAtUpward(input: seq<bv8>, needle: seq<bv8>)
    ensures forall j, k :: j in FoundAt(input, needle) && j <= k <= |input| ==> k in FoundAt(input, needle)
  {
    forall j, k | j in FoundAt(input, needle) && j <= k <= |input|
      ensures k in FoundAt(input, needle)
    {
      FoundPrefix(input, j, k, needle);
    }
  }

  /** Each read(2) call the loop makes uses one entry of the plan, and
      every call but the last delivered bytes, so there are at most
      count + 1 of them. The run `t` and the trace `c` are the loop's. */
  lemma {:induction false} UntilLoopPlan(input: seq<bv8>, plan: seq<ReadOutcome>, n: nat, hits: set<nat>, have: nat, t: UntilRun, c: seq<int>)
    requires have <= n && have <= |input|
    requires t == UntilLoop(input, plan, n, hits, have) && c == UntilTrace(input, plan, n, hits, have)
    ensures |c| <= t.count - have + 1 && t.plan == Drop(plan, |c|)
    ensures forall i :: 0 <= i < |c| - 1 ==> c[i] > 0
    decreases n - have
  {
    if have < n {
      var r := ReadResult(input[have..], plan, n - have);
      if r > 0 && have + r !in hits {
        var t', c' := UntilLoop(input, Rest(plan), n, hits, have + r), UntilTrace(input, Rest(plan), n, hits, have + r);
        assert c == [r] + c' && t == t';
        UntilLoopPlan(input, Rest(plan), n, hits, have + r, t', c');
        DropRest(plan, |c'|);
        forall i | 0 <= i < |c| - 1
          ensures c[i] > 0
        {
          if i > 0 {
            assert c[i] == c'[i - 1];
          }
        }
      } else {
        assert c == [r] && t.plan == Rest(plan);
        DropRest(plan, 0);
      }
    }
  }

  /** How the loop ends. It returns -1 exactly when its last read failed.
      When its last read delivered bytes, the check succeeded on what has
      arrived or the buffer is full; a count below n therefore means the
      check succeeded or the stream ended. */
  lemma {:induction false} UntilLoopEnds(input: seq<bv8>, plan: seq<ReadOutcome>, n: nat, hits: set<nat>, have: nat, t: UntilRun, c: seq<int>)
    requires have <= n && have <= |input|
    requires t == UntilLoop(input, plan, n, hits, have) && c == UntilTrace(input, plan, n, hits, have)
    ensures t.ret == -1 <==> |c| > 0 && Last(c) < 0
    ensures |c| > 0 && Last(c) == 0 ==> t.ret == t.count
    ensures |c| > 0 && Last(c) > 0 ==> t.ret == t.count && (t.count == n || t.count in hits)
    ensures |c| == 0 ==> t.ret == t.count == have == n
    decreases n - have
  {
    if have < n {
      var r := ReadResult(input[have..], plan, n - have);
      if r > 0 && have + r !in hits {
        var t', c' := UntilLoop(input, Rest(plan), n, hits, have + r), UntilTrace(input, Rest(plan), n, hits, have + r);
        assert c == [r] + c' && t == t';
        UntilLoopEnds(input, Rest(plan), n, hits, have + r, t', c');
        if |c'| > 0 {
          assert Last(c) == Last(c');
        } else {
          assert Last(c) == r;
        }
      } else {
        assert c == [r] && Last(c) == r;
      }
    }
  }

  /** When a check was made, the check at `checked`, the last count at
      which it failed, did fail. When the set of hits is closed upwards
      within the stream, as `FoundAtUpward` shows the strstr check's is, no
      count after `have` up to `checked` is a hit at all. */
  lemma {:induction false} UntilLoopMisses(input: seq<bv8>, plan: seq<ReadOutcome>, n: nat, hits: set<nat>, have: nat, t: UntilRun)
    requires have <= n && have <= |input|
    requires t == UntilLoop(input, plan, n, hits, have)
    ensures t.checked > have ==> t.checked !in hits
    ensures (forall j, k :: j in hits && j <= k <= |input| ==> k in hits) ==>
      forall j :: have < j <= t.checked ==> j !in hits
    decreases n - have
  {
    if have < n {
      var r := ReadResult(input[have..], plan, n - have);
      if r > 0 && have + r !in hits {
        var t' := UntilLoop(input, Rest(plan), n, hits, have + r);
        assert t == t';
        UntilLoopMisses(input, Rest(plan), n, hits, have + r, t');
      }
    }
  }

  /** Either every byte the loop moved was checked, or the last check
      succeeded and the last read(2) call delivered the bytes after the
      checked count. */
  lemma {:induction false} UntilLoopLast(input: seq<bv8>, plan: seq<ReadOutcome>, n: nat, hits: set<nat>, have: nat, t: UntilRun, c: seq<int>)
    requires have <= n && have <= |input|
    requires t == UntilLoop(input, plan, n, hits, have) && c == UntilTrace(input, plan, n, hits, have)
    ensures t.count == t.checked || (|c| > 0 && Last(c) == t.count - t.checked && t.count in hits)
    decreases n - have
  {
    if have < n {
      var r := ReadResult(input[have..], plan, n - have);
      if r > 0 && have + r !in hits {
        var t', c' := UntilLoop(input, Rest(plan), n, hits, have + r), UntilTrace(input, Rest(plan), n, hits, have + r);
        assert c == [r] + c' && t == t';
        UntilLoopLast(input, Rest(plan), n, hits, have + r, t', c');
        if |c'| > 0 {
          assert Last(c) == Last(c');
        }
      } else {
        assert c == [r] && Last(c) == r;
      }
    }
  }

  /** read_until with non-null arguments returns -1 or a count in [0, n];
      -1 exactly when its last read(2) call failed; a count below n only
      when the needle was found (in the bytes as a C string sees them) or
      the stream ended. It stops right after the first read that makes the
      needle occur, even when the needle straddles two reads: either all
      the bytes were checked without success, or the last read delivered
      the bytes after the checked count and the needle is found in them;
      no prefix of the checked bytes contains the needle. Each call uses
      one plan entry, and every call but the last delivered bytes. */
  lemma ReadUntilState(input: seq<bv8>, plan: seq<ReadOutcome>, n: nat, needle: seq<bv8>)
    ensures var t := UntilLoop(input, plan, n, FoundAt(input, needle), 0);
      t.ret == -1 || 0 <= t.ret == t.count <= n
    ensures UntilLoop(input, plan, n, FoundAt(input, needle), 0).plan == Drop(plan, |UntilTrace(input, plan, n, FoundAt(input, needle), 0)|)
    ensures forall i :: 0 <= i < |UntilTrace(input, plan, n, FoundAt(input, needle), 0)| - 1 ==> UntilTrace(input, plan, n, FoundAt(input, needle), 0)[i] > 0
    ensures UntilLoop(input, plan, n, FoundAt(input, needle), 0).ret == -1 <==>
      |UntilTrace(input, plan, n, FoundAt(input, needle), 0)| > 0 && Last(UntilTrace(input, plan, n, FoundAt(input, needle), 0)) < 0
    ensures var t, c := UntilLoop(input, plan, n, FoundAt(input, needle), 0), UntilTrace(input, plan, n, FoundAt(input, needle), 0);
      0 <= t.ret < n ==> |c| > 0 && (Last(c) == 0 || Found(input[..t.ret], needle))
    ensures var t, c := UntilLoop(input, plan, n, FoundAt(input, needle), 0), UntilTrace(input, plan, n, FoundAt(input, needle), 0);
      t.count == t.checked || (|c| > 0 && Last(c) == t.count - t.checked && Found(input[..t.count], needle))
    ensures forall j :: 0 < j <= UntilLoop(input, plan, n, FoundAt(input, needle), 0).checked ==> !Found(input[..j], needle)
  {
    var hits := FoundAt(input, needle);
    var t, c := UntilLoop(input, plan, n, hits, 0), UntilTrace(input, plan, n, hits, 0);
    var m := t.checked;
    UntilLoopPlan(input, plan, n, hits, 0, t, c);
    UntilLoopEnds(input, plan, n, hits, 0, t, c);
    UntilLoopLast(input, plan, n, hits, 0, t, c);
    FoundAtUpward(input, needle);
    UntilLoopMisses(input, plan, n, hits, 0, t);
    assert t.count in hits <==> Found(input[..t.count], needle);
    forall j | 0 < j <= m
      ensures !Found(input[..j], needle)
    {
      assert j !in hits;
    }
  }

  /** With n == 0 read_until returns 0 and calls read(2) not at all. */
  lemma ReadUntilZero(input: seq<bv8>, plan: seq<ReadOutcome>, needle: seq<bv8>)
    ensures UntilLoop(input, plan, 0, FoundAt(input, needle), 0) == UntilRun(0, 0, 0, plan)
    ensures UntilTrace(input, plan, 0, FoundAt(input, needle), 0) == []
  {
  }

  /** An empty needle (one whose first byte is zero) is found after the
      first read that delivers anything: read_until returns right after it. */
  lemma ReadUntilEmptyNeedle(input: seq<bv8>, plan: seq<ReadOutcome>, n: nat, needle: seq<bv8>)
    requires needle == [] || needle[0] == 0
    requires n > 0 && ReadResult(input, plan, n) > 0
    ensures UntilLoop(input, plan, n, FoundAt(input, needle), 0).ret == ReadResult(input, plan, n)
  {
    var r := ReadResult(input, plan, n);
    EmptyNeedleFound(input[..r], needle);
    assert r in FoundAt(input, needle);
    assert input[0..] == input;
  }

  /** While the check fails at every count that can arrive, the loop is
      the read_n_bytes loop. */
  lemma {:induction false} UntilLoopIsReadLoop(input: seq<bv8>, plan: seq<ReadOutcome>, n: nat, hits: set<nat>, have: nat)
    requires have <= n && have <= |input|
    requires forall k :: have < k <= Min(n, |input|) ==> k !in hits
    ensures UntilLoop(input, plan, n, hits, have).ret == ReadLoop(input, plan, n, have).ret
    ensures UntilLoop(input, plan, n, hits, have).count == ReadLoop(input, plan, n, have).count
    ensures UntilLoop(input, plan, n, hits, have).plan == ReadLoop(input, plan, n, have).plan
    decreases n - have
  {
    if have < n {
      var r := ReadResult(input[have..], plan, n - have);
      if r > 0 {
        UntilLoopIsReadLoop(input, Rest(plan), n, hits, have + r);
      }
    }
  }

  /** The reference for read_until: when the needle does not occur in the
      first n bytes of the stream, read_until returns exactly what
      read_n_bytes would, and leaves stream and plan as it would. */
  lemma ReadUntilWithoutNeedle(input: seq<bv8>, plan: seq<ReadOutcome>, n: nat, needle: seq<bv8>)
    requires !Found(input[..Min(n, |input|)], needle)
    ensures UntilLoop(input, plan, n, FoundAt(input, needle), 0).ret == ReadN(input, plan, n).ret
    ensures UntilLoop(input, plan, n, FoundAt(input, needle), 0).count == ReadN(input, plan, n).count
    ensures UntilLoop(input, plan, n, FoundAt(input, needle), 0).plan == ReadN(input, plan, n).plan
  {
    var hits := FoundAt(input, needle);
    forall k | 0 < k <= Min(n, |input|)
      ensures k !in hits
    {
      if Found(input[..k], needle) {
        FoundPrefix(input, k, Min(n, |input|), needle);
      }
    }
    UntilLoopIsReadLoop(input, plan, n, hits, 0);
  }

  /** When the needle never shows up in the first n bytes and the peer
      keeps sending at least that many without read errors or early ends,
      read_until fills the whole buffer and returns n. */
  lemma ReadUntilFillsBuffer(input: seq<bv8>, plan: seq<ReadOutcome>, n: nat, needle: seq<bv8>)
    requires n <= |input| && ReliableReads(plan) && !Found(input[..n], needle)
    ensures UntilLoop(input, plan, n, FoundAt(input, needle), 0).ret == n
  {
    ReadUntilWithoutNeedle(input, plan, n, needle);
    ReadNReliable(input, plan, n);
  }

  /** The bytes of the example below: "PING\r" is not a match for "\r\n",
      "PING\r\nX" is. */
  lemma CrlfExample(input: seq<bv8>, needle: seq<bv8>)
    requires input == [0x50, 0x49, 0x4e, 0x47, 0x0d, 0x0a, 0x58] && needle == [0x0d, 0x0a, 0x00]
    ensures !Found(input[..5], needle) && Found(input[..7], needle)
  {
    var crlf: seq<bv8> := [0x0d, 0x0a];
    CStrCut(crlf, []);
    CStrNoNul(crlf);
    assert crlf + [0] + [] == needle;
    var first := input[..5];
    CStrNoNul(first);
    FoundSpec(first, needle);
    forall i | 0 <= i <= 3
      ensures !MatchAt(first, crlf, i)
    {
      assert first[i + 1] != crlf[1];
    }
    CStrNoNul(input);
    assert MatchAt(input, crlf, 4);
    FoundSpec(input, needle);
    assert input[..7] == input;
  }

  /** A line ending split across two reads is still found: with "PING\r"
      delivered by the first read and "\nX" by the second, read_until
      looking for "\r\n" stops after the second read and returns 7. */
  lemma StraddlingNeedle(input: seq<bv8>, needle: seq<bv8>)
    requires input == [0x50, 0x49, 0x4e, 0x47, 0x0d, 0x0a, 0x58] && needle == [0x0d, 0x0a, 0x00]
    ensures UntilLoop(input, [Deliver(5)], 16, FoundAt(input, needle), 0).ret == 7
  {
    CrlfExample(input, needle);
    var hits := FoundAt(input, needle);
    assert 5 !in hits && 7 in hits;
    assert ReadResult(input, [Deliver(5)], 16) == 5;
    assert input[0..] == input;
    assert ReadResult(input[5..], [], 11) == 2;
  }
}
