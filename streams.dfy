/** An abstract byte-stream descriptor standing in for a connected socket.

    The input side is the bytes the peer has yet to send together with a
    plan of what each successive read(2) call reports; the output side is
    the log of bytes accepted so far together with a plan of what each
    successive write(2) call reports. Once a plan is used up, every further
    call behaves as an ideal transport: a read delivers as much as it can,
    a write accepts everything it is offered.
 */
module Streams {

  /** What one read(2) call on the descriptor reports. */
  datatype ReadOutcome =
    | Deliver(k: nat)  // up to k bytes, capped at the request and at what the peer sent
    | Eof              // returns 0
    | ReadError        // returns -1 (a hard error or the receive timeout)

  /** What one write(2) call on the descriptor reports. */
  datatype WriteOutcome =
    | Accept(k: nat)   // accepts up to k bytes (returns 0 when k is 0)
    | WriteError       // returns -1 (a hard error or the send timeout)

  function Min(a: int, b: int): int
  {
    if a < b then a else b
  }

  /** The plan that is left after one call has used its head. */
  function Rest<T>(plan: seq<T>): (r: seq<T>)
    ensures |r| == if plan == [] then 0 else |plan| - 1
  {
    if plan == [] then [] else plan[1..]
  }

  /** The plan that is left after `calls` calls. */
  function Drop<T>(plan: seq<T>, calls: nat): seq<T>
  {
    if calls < |plan| then plan[calls..] else []
  }

  lemma DropRest<T>(plan: seq<T>, calls: nat)
    ensures Drop(Rest(plan), calls) == Drop(plan, calls + 1)
  {
  }

  function NextRead(plan: seq<ReadOutcome>, len: nat): ReadOutcome
  {
    if plan == [] then Deliver(len) else plan[0]
  }

  function NextWrite(plan: seq<WriteOutcome>, len: nat): WriteOutcome
  {
    if plan == [] then Accept(len) else plan[0]
  }

  /** The value one read(2) call of `len > 0` bytes returns: a positive
      count of delivered bytes, 0 at end of stream, -1 on error. A delivery
      when the peer has nothing left is the end of the stream. */
  function ReadResult(pending: seq<bv8>, plan: seq<ReadOutcome>, len: nat): (r: int)
    requires len > 0
    ensures -1 <= r <= len && r <= |pending|
    ensures r < 0 <==> NextRead(plan, len).ReadError?
    ensures NextRead(plan, len).Deliver? && NextRead(plan, len).k > 0 && pending != [] ==> r > 0
    ensures r == 0 <==> NextRead(plan, len).Eof? || (NextRead(plan, len).Deliver? && (NextRead(plan, len).k == 0 || pending == []))
  {
    match NextRead(plan, len)
    case Deliver(k) => Min(Min(k, len), |pending|)
    case Eof => 0
    case ReadError => -1
  }

  /** The value one write(2) call of `len > 0` bytes returns: a count of
      accepted bytes (possibly 0), or -1 on error. */
  function WriteResult(plan: seq<WriteOutcome>, len: nat): (r: int)
    requires len > 0
    ensures -1 <= r <= len
    ensures r <= 0 <==> NextWrite(plan, len).WriteError? || NextWrite(plan, len).k == 0
  {
    match NextWrite(plan, len)
    case Accept(k) => Min(k, len)
    case WriteError => -1
  }

  /** `s` with the elements at off, off + 1, ... replaced by `bytes`. */
  function Overwrite(s: seq<bv8>, off: nat, bytes: seq<bv8>): (r: seq<bv8>)
    requires off + |bytes| <= |s|
    ensures |r| == |s|
  {
    s[..off] + bytes + s[off + |bytes|..]
  }

  /** Overwrite replaces exactly the elements off, ..., off + |bytes| - 1. */
  lemma OverwriteParts(s: seq<bv8>, off: nat, bytes: seq<bv8>)
    requires off + |bytes| <= |s|
    ensures var r := Overwrite(s, off, bytes);
      r[..off] == s[..off] && r[off..off + |bytes|] == bytes && r[off + |bytes|..] == s[off + |bytes|..]
  {
  }

  lemma OverwriteNothing(s: seq<bv8>, off: nat)
    requires off <= |s|
    ensures Overwrite(s, off, []) == s
  {
    assert s[..off] + s[off..] == s;
  }

  /** Two writes side by side are one write of their concatenation. */
  lemma OverwriteTwice(s: seq<bv8>, off: nat, a: seq<bv8>, b: seq<bv8>)
    requires off + |a| + |b| <= |s|
    ensures Overwrite(Overwrite(s, off, a), off + |a|, b) == Overwrite(s, off, a + b)
  {
    var once := Overwrite(s, off, a);
    OverwriteParts(s, off, a);
    assert once[..off + |a|] == s[..off] + a;
    assert once[off + |a| + |b|..] == s[off + |a| + |b|..];
  }

  /** The first k bytes of a buffer whose start was overwritten with
      `bytes` are the first k of `bytes`. */
  lemma OverwritePrefix(s: seq<bv8>, bytes: seq<bv8>, k: nat)
    requires k <= |bytes| <= |s|
    ensures Overwrite(s, 0, bytes)[..k] == bytes[..k]
  {
    OverwriteParts(s, 0, bytes);
    assert Overwrite(s, 0, bytes)[..k] == Overwrite(s, 0, bytes)[..|bytes|][..k];
  }

  /** Placing the next `got` bytes of `input` right after the first `have`
      places the first have + got bytes. */
  lemma PlaceNext(buf: seq<bv8>, input: seq<bv8>, have: nat, got: nat)
    requires have + got <= |input| && have + got <= |buf|
    ensures Overwrite(Overwrite(buf, 0, input[..have]), have, input[have..][..got]) == Overwrite(buf, 0, input[..have + got])
  {
    OverwriteTwice(buf, 0, input[..have], input[have..][..got]);
    assert input[..have] + input[have..][..got] == input[..have + got];
  }

  lemma SuffixOfSuffix<T>(s: seq<T>, i: nat, j: nat)
    requires i + j <= |s|
    ensures s[i..][j..] == s[i + j..]
  {
  }

  /** Appending the slice s[i..j) to a log that ends with s[..i] leaves it
      ending with s[..j]. */
  lemma AppendSlice<T>(log: seq<T>, s: seq<T>, i: nat, j: nat)
    requires i <= j <= |s|
    ensures log + s[..i] + s[i..j] == log + s[..j]
  {
    assert s[..i] + s[i..j] == s[..j];
  }

  /** A read plan in which every call delivers at least one byte while the
      peer still has bytes: the stream ends only when the peer's bytes run out. */
  ghost predicate ReliableReads(plan: seq<ReadOutcome>)
  {
    forall i :: 0 <= i < |plan| ==> plan[i].Deliver? && plan[i].k > 0
  }

  /** A write plan in which every call accepts at least one byte. */
  ghost predicate ReliableWrites(plan: seq<WriteOutcome>)
  {
    forall i :: 0 <= i < |plan| ==> plan[i].Accept? && plan[i].k > 0
  }

  /** The receiving side of a connected socket descriptor. */
  class Inbound {
    var pending: seq<bv8>           // bytes the peer has sent and nobody has read yet
    var plan: seq<ReadOutcome>      // what the coming read(2) calls report

    constructor (input: seq<bv8>, inPlan: seq<ReadOutcome>)
      ensures pending == input && plan == inPlan
    {
      pending, plan := input, inPlan;
    }

    /** read(fd, buf + off, len): copies the delivered bytes into
        buf[off..off + r) and leaves every other element of buf alone. */
    method Read(buf: array<bv8>, off: nat, len: nat) returns (r: int)
      requires len > 0 && off + len <= buf.Length
      modifies this, buf
      ensures r == ReadResult(old(pending), old(plan), len)
      ensures plan == Rest(old(plan))
      ensures r > 0 ==> pending == old(pending)[r..] && buf[..] == Overwrite(old(buf[..]), off, old(pending)[..r])
      ensures r <= 0 ==> pending == old(pending) && buf[..] == old(buf[..])
    {
      r := ReadResult(pending, plan, len);
      if r > 0 {
        forall i | off <= i < off + r {
          buf[i] := pending[i - off];
        }
        assert buf[..] == Overwrite(old(buf[..]), off, pending[..r]);
        pending := pending[r..];
      }
      plan := Rest(plan);
    }
  }

  /** The sending side of a connected socket descriptor. */
  class Outbound {
    var output: seq<bv8>            // bytes accepted by write(2) so far, in order
    var plan: seq<WriteOutcome>     // what the coming write(2) calls report

    constructor (outPlan: seq<WriteOutcome>)
      ensures output == [] && plan == outPlan
    {
      output, plan := [], outPlan;
    }

    /** write(fd, buf + off, len): appends the accepted bytes
        buf[off..off + w) to the output log; buf is only read. */
    method Write(buf: array<bv8>, off: nat, len: nat) returns (w: int)
      requires len > 0 && off + len <= buf.Length
      modifies this
      ensures w == WriteResult(old(plan), len)
      ensures plan == Rest(old(plan))
      ensures output == old(output) + if w > 0 then buf[..][off..off + w] else []
    {
      w := WriteResult(plan, len);
      if w > 0 {
        output := output + buf[off..off + w];
      }
      plan := Rest(plan);
    }
  }

  /** One connected socket descriptor: its two directions are independent. */
  class Descriptor {
    const rx: Inbound
    const tx: Outbound

    constructor (input: seq<bv8>, inPlan: seq<ReadOutcome>, outPlan: seq<WriteOutcome>)
      ensures fresh(rx) && fresh(tx)
      ensures rx.pending == input && rx.plan == inPlan
      ensures tx.output == [] && tx.plan == outPlan
    {
      rx := new Inbound(input, inPlan);
      tx := new Outbound(outPlan);
    }
  }
}
