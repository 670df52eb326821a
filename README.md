# Byte-transfer loops of the connection layer

This project models the four transfer functions of `connection.c` in Dafny: `read_n_bytes`, `write_n_bytes`, `read_until` and `pass_n_bytes`. Each runs against an abstract socket descriptor, and the project proves what each one returns and what it does to the caller's buffer and to the streams.

## The stream model (`streams.dfy`)

A connected socket descriptor is a `Descriptor` object with two independent sides:

- `rx`, an `Inbound`. It holds `pending`, everything the peer has sent or will still send that nobody has read yet, and `plan`, the outcomes the coming `read(2)` calls report. An outcome is one of:
  - `Deliver(k)`: up to k bytes, capped at the request and at what is pending; with nothing pending it returns 0, like EOF;
  - `Eof`: returns 0;
  - `ReadError`: returns -1.

  EOF is not sticky in this model: a later plan entry may still deliver bytes after an `Eof`, where a real socket would keep returning 0. This over-approximates the socket. Every lemma quantifies over all plans, so each one also holds for the plans a real socket can produce.
- `tx`, an `Outbound`. It holds `output`, the log of the bytes accepted so far, and `plan`, the outcomes of the coming `write(2)` calls. An outcome is one of:
  - `Accept(k)`: up to k bytes, so 0 when k is 0;
  - `WriteError`: returns -1.

`Inbound.Read` and `Outbound.Write` stand in for the system calls:

- `Read` copies the delivered bytes into the caller's array, and only there.
- `Write` appends the accepted bytes to the log and only reads the array.

Once a plan is used up, every further call is ideal: a read delivers as much as it can and a write accepts all it is offered. A receive or send timeout is just a `ReadError` or `WriteError` outcome. Because `rx` and `tx` are separate objects, `pass_n_bytes(fd, fd, n)` is covered too.

## The loops

Each C loop is an imperative `method` over an `array<bv8>` with loop invariants. Each method is proved against a recursive specification function that runs the same loop on the values that decide its course: the bytes the peer sent and the two plans.

| loop | method | specification function |
|---|---|---|
| `read_n_bytes` | `Transfer.ReadNBytes` | `ReadLoop` |
| `write_n_bytes` | `Transfer.WriteNBytes` | `WriteLoop` |
| `read_until` | `Delimited.ReadUntil` | `UntilLoop` |
| `pass_n_bytes` | `Relay.PassNBytes` | `PassLoop` |

A companion function records what each system call returned: `ReadTrace`, `WriteTrace` and `UntilTrace` give one value per call, and `PassTrace` gives one `Round` per chunk. The properties the C code promises are lemmas over these functions.

`pass_n_bytes` calls the `read_n_bytes` and `write_n_bytes` methods themselves, so its proof builds on theirs.

The strstr check of `read_until` is a pure function (`CStrings.Found`), written the way C sees it:

- the accumulated bytes are copied and NUL-terminated, so only the part up to their first zero byte counts;
- the needle is read as a C string, so it is cut at its own first zero byte.

As a result an empty needle matches after the first read that delivers bytes, and a needle that occurs only after a zero byte in the payload is never found. Both are proved (`Delimited.ReadUntilEmptyNeedle`, `CStrings.NulHidesNeedle`).

The loop of `read_until` is specified over the set of prefix lengths at which the check succeeds (`Delimited.FoundAt`), so the loop and the search can be reasoned about separately.

## Model

| member | source | states |
|---|---|---|
| Streams.Inbound.Read | connection.c:54 | One `read(2)` call returns what its plan entry says, at most the request and at most what is pending. A positive result copies exactly that many next stream bytes into `buf[off..off+r)`, changes no other element and removes them from the stream. EOF or an error changes neither buffer nor stream. |
| Streams.Outbound.Write | connection.c:69 | One `write(2)` call returns what its plan entry says (at most the request). A positive result appends exactly `buf[off..off+w)` to the output log. The array is not modified. |
| Streams.ReadResult | connection.c:54 | A read returns a value in [-1, len] that is at most what is pending. It is negative exactly on an error outcome, and positive whenever the outcome delivers k > 0 bytes and bytes are pending. It is 0 exactly on EOF, on `Deliver(0)` and on a delivery with nothing pending. |
| Streams.WriteResult | connection.c:69 | A write returns a value in [-1, len]. It is 0 or less exactly when the outcome is an error or accepts nothing. |
| Transfer.ReadLoop | connection.c:52-63 | The count only grows from `have` and stays within n and within what the peer sent. The return value is -1 or that count. |
| Transfer.ReadNBytes | connection.c:51-64 | Returns what `ReadN` computes. `buf[0..count)` then holds the next count stream bytes in order, and no other element of `buf` has changed, none at or beyond n in particular. The stream has lost exactly those bytes and one plan entry per call is used. This holds also when -1 is returned. |
| Transfer.ReadNext | connection.c:54-56 | One pass of the loop: the next `got` stream bytes land right after the first `have` in `buf`. |
| Transfer.ReadLoopPlan | connection.c:53-61 | Each call uses one plan entry, and there are at most count + 1 calls. |
| Transfer.ReadTracePositive | connection.c:55-58 | Every read but the last delivered bytes. |
| Transfer.ReadLoopEnds | connection.c:55-60 | -1 exactly when the last read was negative, whatever was read before. A count below n exactly when the last read returned 0. |
| Transfer.ReadNState | connection.c:51-64 | Sums up the loop: -1 or a count in [0, n] that the stream could supply; -1 iff the last read failed; a short count iff the last read hit EOF; every read but the last delivered bytes; one plan entry per read. |
| Transfer.ReadNZero | connection.c:52-53 | With n = 0 the result is 0, no read is made and the plan is untouched. |
| Transfer.ReadLoopReliable | connection.c:53-58 | If no read fails or ends early, the loop returns min(n, bytes sent). |
| Transfer.ReadNReliable | connection.c:51-64 | The same for `read_n_bytes` from the start. |
| Transfer.WriteLoop | connection.c:67-76 | The accepted count stays within [off, n]. The return value is -1 or exactly n. |
| Transfer.WriteNBytes | connection.c:66-77 | Returns what `WriteN` computes. The output log gains `buf[0..count)` in order, which is all of `buf[0..n)` when n is returned. `buf` is only read. |
| Transfer.WriteLoopPlan | connection.c:68-74 | One plan entry per write, at most count + 1 writes. |
| Transfer.WriteTracePositive | connection.c:70-71 | Every write but the last accepted bytes. |
| Transfer.WriteLoopFails | connection.c:70-73 | -1 exactly when the last write returned 0 or less, so a write that accepts nothing fails the call like an error. |
| Transfer.WriteNState | connection.c:66-77 | n or -1; -1 iff the last write returned 0 or less; every write but the last accepted bytes; one plan entry per write. |
| Transfer.WriteNZero | connection.c:67-68 | With n = 0 the result is 0, no write is made and the plan is untouched. |
| Transfer.WriteLoopReliable | connection.c:68-71 | If every write accepts something, the loop returns n. |
| Transfer.WriteNReliable | connection.c:66-77 | The same for `write_n_bytes` from the start. |
| CStrings.CStrSpec | connection.c:93 | The C-string view of the bytes is their longest prefix without a zero byte. |
| CStrings.IndexFromSpec | connection.c:95 | The left-to-right scan finds the first occurrence at or after its start index, and finds none exactly when there is none. |
| CStrings.StrStrSpec | connection.c:95 | `strstr` succeeds iff the needle occurs, and then at its first occurrence. |
| CStrings.FoundSpec | connection.c:92-95 | The check succeeds iff the needle cut at its first zero byte occurs in the accumulated bytes cut at theirs. |
| CStrings.EmptyNeedleFound | connection.c:95 | An empty needle, or one starting with a zero byte, is found in every prefix. |
| CStrings.CStrMonotone | connection.c:92-93 | The C-string view of a prefix is a prefix of the view of any extension. |
| CStrings.FoundMonotone | connection.c:92-95 | Once found, the needle stays found however many bytes are appended. |
| CStrings.FoundWithoutNul | connection.c:92-95 | A zero-free needle that occurs before any zero byte of the payload is found. |
| CStrings.CStrNoNul | connection.c:93 | Bytes without a zero byte are their own C-string view. |
| CStrings.CStrCut | connection.c:93 | Bytes after a zero byte do not change the C-string view. |
| CStrings.NulHidesNeedle | connection.c:92-95 | The check on bytes with a zero byte equals the check on the part before it, so a needle that occurs only after a zero byte is missed. |
| Delimited.FoundAtHits | connection.c:92-98 | `FoundAt` holds exactly the prefix lengths at which the check succeeds. |
| Delimited.UntilLoop | connection.c:83-104 | The count only grows from `have` and stays within n and within what was sent. The last failing check saw at most that. The result is -1 or the count. |
| Delimited.NeedleIn | connection.c:89-95 | The copy-terminate-search step succeeds iff `Found` holds on the first `have` stream bytes. |
| Delimited.ReadAndCheck | connection.c:84-98 | One pass: the read moves the next bytes into `buf` after the first `have`, and the check then succeeds iff the new count is one at which the needle is found. |
| Delimited.ReadUntil | connection.c:79-106 | A null `buf` or needle gives -1 with nothing read. Otherwise it returns what `UntilLoop` computes, `buf[0..count)` holds the consumed stream bytes with no other element changed, and the stream has lost exactly those. |
| Delimited.ReadUntilLoop | connection.c:81-105 | The loop itself: same result and state as `UntilLoop`, with the buffer relation kept on every path. |
| Delimited.FoundPrefix | connection.c:92-98 | Found in a prefix of the stream implies found in every longer prefix. |
| Delimited.FoundAtUpward | connection.c:92-98 | The counts at which the check succeeds are closed upwards up to the length of the stream. |
| Delimited.UntilLoopPlan | connection.c:83-103 | One plan entry per read, at most count + 1 reads, every read but the last delivered bytes. |
| Delimited.UntilLoopEnds | connection.c:85-102 | -1 iff the last read failed. After EOF the count is returned. After a delivering last read, the count is n or the needle is found there. |
| Delimited.UntilLoopMisses | connection.c:95-98 | When a check was made, the check at `checked`, the last count at which it failed, did fail. When the counts at which the check succeeds are closed upwards within the stream, as `FoundAtUpward` shows they are for the strstr check, no count after `have` up to `checked` is one of them. |
| Delimited.UntilLoopLast | connection.c:84-98 | Either all bytes moved were checked without success, or the last read delivered the bytes after the checked count and the check then succeeded. |
| Delimited.ReadUntilState | connection.c:79-106 | Sums up the loop: -1 or a count in [0, n]; -1 iff the last read failed; a count below n only after EOF or a successful check; stops right after the first read that makes the needle occur, even across two reads; no checked prefix contains it. |
| Delimited.ReadUntilZero | connection.c:81-83 | With n = 0 the result is 0 and no read is made. |
| Delimited.ReadUntilEmptyNeedle | connection.c:85-98 | An empty needle makes `read_until` return right after the first read that delivers anything. |
| Delimited.UntilLoopIsReadLoop | connection.c:83-104 | While the check fails at every reachable count, the loop behaves like the `read_n_bytes` loop. |
| Delimited.ReadUntilWithoutNeedle | connection.c:79-106 | If the needle is not in the first n stream bytes, `read_until` returns and consumes what `read_n_bytes` would, and leaves the plan as it would. |
| Delimited.ReadUntilFillsBuffer | connection.c:83-104 | If the needle is not in the first n bytes, at least n bytes were sent and no read fails or ends early, the result is exactly n: the buffer is full. |
| Delimited.CrlfExample | connection.c:92-95 | "\r\n" is not found in "PING\r" but is in "PING\r\nX". |
| Delimited.StraddlingNeedle | connection.c:83-98 | With "PING\r" from one read and "\nX" from the next, looking for "\r\n" returns 7: the match across the two reads is found. |
| Relay.PassLoop | connection.c:110-124 | The count passed on only grows from `total` and stays within what was taken, n and the bytes sent. The result is -1 or that count. |
| Relay.PassNBytes | connection.c:108-125 | Returns what `PassN` computes. The source loses exactly the bytes taken, and the destination's log gains the first `given` of them, in order. |
| Relay.PassRound | connection.c:113-122 | One round, reading into `tmp` and writing on what came. Either the run ends in this round, with its result, plans, stream and log as `PassN` says, or all that was read was written. In that case the stream and the log both advance by those bytes and the run continues from total + got. |
| Relay.ReadChunk | connection.c:115 | `read_n_bytes` into `tmp` leaves the next stream bytes at its start. |
| Relay.SendChunk | connection.c:119 | `write_n_bytes` from `tmp` appends the next stream bytes that were accepted to the destination. |
| Relay.PassTraceRounds | connection.c:113-122 | Every round asks for between 1 and 4096 bytes and gets at most that. A round that got bytes writes all of them or fails, and one that got none writes nothing. Every round but the last passed on all it read. |
| Relay.PassTraceChunks | connection.c:112-113 | Each round asks for n minus what earlier rounds passed on, capped at 4096. |
| Relay.PassLoopEnds | connection.c:115-124 | -1 iff the last round's read or write failed. A count below n iff the last round's read hit EOF. A returned count is the sum of what the rounds passed on. |
| Relay.PassNResult | connection.c:108-125 | -1 or a count in [0, n], at most what was sent, equal to the bytes taken and given. |
| Relay.PassNEnds | connection.c:108-125 | From the start of the relay: -1 iff a leg of the last round failed, a short count iff the source hit EOF, and a count equal to the bytes the rounds passed on. |
| Relay.PassNRounds | connection.c:112-122 | From the start: the chunk sizes, per-round bounds and the all-or-fail writes of `PassTraceRounds`/`PassTraceChunks`. |
| Relay.PassNZero | connection.c:110-112 | With n = 0 the result is 0 and no call is made. |
| Relay.PassLoopReliable | connection.c:112-122 | If neither side fails or stalls, the relay passes on min(n, bytes sent). |
| Relay.PassNReliable | connection.c:108-125 | The same from the start: n when the source sent at least n bytes, otherwise everything it sent. |

## Left out

- `listener_init` and `listener_accept` (connection.c:11-49) are not modelled. They only create, bind and accept sockets and pass on the OS result.
- The 5-second receive and send timeouts (connection.c:42-46) are modelled only as `ReadError` / `WriteError` outcomes in the plans. No clock is modelled.
- The real `read(2)` / `write(2)` calls are replaced by the plan-driven `Inbound.Read` / `Outbound.Write`. Interrupted calls and non-blocking behaviour are not distinguished from errors.
- `read_until` allocation failure is not modelled. The `malloc(have + 1)` that can fail and return -1 (connection.c:89-90) is always taken to succeed. The scratch copy is the value `buf[0..have) + [0]`, so `free` has nothing to model.
- `pass_n_bytes` uses a fresh stack buffer `tmp[4096]` that is uninitialised in C. The model zero-fills it. This is harmless because only bytes that `read_n_bytes` just wrote are ever passed to `write_n_bytes`.
- `size_t` / `ssize_t` widths are not modelled. Counts are unbounded naturals, so the model assumes that every count stays at or below SSIZE_MAX. In `read_n_bytes`, `write_n_bytes` and `read_until` n bounds a buffer, so this is a limit the caller cannot reach. `pass_n_bytes` is different: its n is only a byte count, and `return (ssize_t) total` (connection.c:124) turns negative once more than SSIZE_MAX bytes have been relayed, which is 2 GiB with a 32-bit `ssize_t`. For such a relay the C function reports a negative result after full success, while `PassN` returns the count.
- The needle is a byte sequence given as `Some(bytes)`; `None` stands for a null pointer. A needle without a terminating zero byte is read up to its end, not beyond it. A needle that aliases `buf` is not modelled.
- `buf` in `read_n_bytes` and `write_n_bytes` is a non-null array of at least n bytes, and a non-null `buf` in `read_until` has at least n bytes as well. The C code demands this of its callers and does not check it.
- Concurrency and sharing of a descriptor between threads are not modelled. The code has none of its own.
