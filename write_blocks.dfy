/** The pure arithmetic of the Windows write helper: the device offset carried in the two
    32-bit words of an `OVERLAPPED` record, the split of a plain image into 64 KiB blocks,
    the cumulative progress the helper prints, the bounded lock retry, the outcome of one
    `WriteFile`, the decoder-error messages and the verdict of the media check. */
module WriteBlocks {
  import opened Common

  /** `BLOCK_SIZE = 512 * 128`. */
  const BLOCK_SIZE: nat := 512 * 128
  const TWO32: nat := 0x1_0000_0000
  const TWO64: nat := 0x1_0000_0000_0000_0000
  const ERROR_IO_PENDING: nat := 997
  const LOCK_ATTEMPTS: nat := 10

  // ---------------------------------------------------------------- device offset

  /** `osWrite.Offset` and `osWrite.OffsetHigh`, two DWORDs. */
  datatype Overlapped = Overlapped(offset: nat, offsetHigh: nat)

  predicate ValidOverlapped(o: Overlapped) {
    o.offset < TWO32 && o.offsetHigh < TWO32
  }

  /** The 64-bit device position the two words denote. */
  function Position(o: Overlapped): nat {
    o.offsetHigh * TWO32 + o.offset
  }

  /** The update after each block: the low word is advanced in DWORD arithmetic and the
      high word is incremented when that addition wrapped. */
  function Advance(o: Overlapped): (r: Overlapped)
    requires ValidOverlapped(o)
    ensures ValidOverlapped(r)
    ensures Position(r) == (Position(o) + BLOCK_SIZE) % TWO64
  {
    var low := (o.offset + BLOCK_SIZE) % TWO32;
    var high := if low < o.offset then (o.offsetHigh + 1) % TWO32 else o.offsetHigh;
    var r := Overlapped(low, high);
    assert Position(r) == (Position(o) + BLOCK_SIZE) % TWO64 by {
      if o.offset + BLOCK_SIZE < TWO32 {
        assert low == o.offset + BLOCK_SIZE;
        assert Position(r) == Position(o) + BLOCK_SIZE;
        assert Position(o) + BLOCK_SIZE < TWO64;
      } else {
        assert low == o.offset + BLOCK_SIZE - TWO32;
        assert low < o.offset;
        if o.offsetHigh + 1 < TWO32 {
          assert high == o.offsetHigh + 1;
          assert Position(r) == Position(o) + BLOCK_SIZE;
          assert Position(o) + BLOCK_SIZE < TWO64;
        } else {
          assert high == 0;
          assert Position(o) + BLOCK_SIZE == TWO64 + low;
        }
      }
    }
    r
  }

  /** The record after `k` blocks, starting from the zeroed record. */
  function OffsetAfter(k: nat): (o: Overlapped)
    ensures ValidOverlapped(o)
  {
    if k == 0 then Overlapped(0, 0) else Advance(OffsetAfter(k - 1))
  }

  /** The k-th block lands at `k * BLOCK_SIZE`, whatever the size of the blocks before it,
      as long as the position fits in 64 bits. */
  lemma {:induction false} ModShift(q: nat, x: nat)
    ensures (q * TWO64 + x) % TWO64 == x % TWO64
    decreases q
  {
    if q > 0 {
      ModShift(q - 1, x);
      assert q * TWO64 + x == ((q - 1) * TWO64 + x) + TWO64;
    }
  }

  /** In general the k-th block lands at `k * BLOCK_SIZE` modulo 2^64: the carry makes the
      pair of words a 64-bit counter that wraps only at 2^64. */
  lemma {:induction false} OffsetAfterWraps(k: nat)
    ensures Position(OffsetAfter(k)) == (k * BLOCK_SIZE) % TWO64
  {
    if k > 0 {
      OffsetAfterWraps(k - 1);
      var a := (k - 1) * BLOCK_SIZE;
      var q := a / TWO64;
      assert a == q * TWO64 + a % TWO64;
      ModShift(q, a % TWO64 + BLOCK_SIZE);
      assert a + BLOCK_SIZE == q * TWO64 + (a % TWO64 + BLOCK_SIZE);
      assert a + BLOCK_SIZE == k * BLOCK_SIZE;
    }
  }

  /** The k-th block lands at `k * BLOCK_SIZE` as long as that position fits in 64 bits. */
  lemma OffsetAfterPosition(k: nat)
    requires k * BLOCK_SIZE < TWO64
    ensures Position(OffsetAfter(k)) == k * BLOCK_SIZE
  {
    OffsetAfterWraps(k);
  }

  // ---------------------------------------------------------------- device contents

  /** The device after `data` was written at byte position `at`. */
  function Place(device: map<nat, byte>, at: nat, data: seq<byte>): map<nat, byte> {
    PlaceFrom(device, at, data, 0)
  }

  /** The device after the bytes of `data` from index `i` on were written, byte `j` at
      position `at + j`. */
  function PlaceFrom(device: map<nat, byte>, at: nat, data: seq<byte>, i: nat): map<nat, byte>
    requires i <= |data|
    decreases |data| - i
  {
    if i == |data| then device
    else PlaceFrom(device[at + i := data[i]], at, data, i + 1)
  }

  lemma {:induction false} PlaceFromFacts(device: map<nat, byte>, at: nat, data: seq<byte>, i: nat)
    requires i <= |data|
    ensures forall p :: at + i <= p < at + |data| ==>
              p in PlaceFrom(device, at, data, i) && PlaceFrom(device, at, data, i)[p] == data[p - at]
    ensures forall p :: (p < at + i || at + |data| <= p) ==> (p in PlaceFrom(device, at, data, i) <==> p in device)
    ensures forall p :: (p < at + i || at + |data| <= p) && p in device ==>
              PlaceFrom(device, at, data, i)[p] == device[p]
    decreases |data| - i
  {
    if i < |data| {
      var d1 := device[at + i := data[i]];
      PlaceFromFacts(d1, at, data, i + 1);
      var r := PlaceFrom(device, at, data, i);
      assert r == PlaceFrom(d1, at, data, i + 1);
      assert at + i in r && r[at + i] == data[i];
    }
  }

  /** `data` occupies its positions and the rest of the device is unchanged. */
  lemma PlaceFacts(device: map<nat, byte>, at: nat, data: seq<byte>)
    ensures forall i :: at <= i < at + |data| ==>
              i in Place(device, at, data) && Place(device, at, data)[i] == data[i - at]
    ensures forall i :: (i < at || at + |data| <= i) ==> (i in Place(device, at, data) <==> i in device)
    ensures forall i :: (i < at || at + |data| <= i) && i in device ==> Place(device, at, data)[i] == device[i]
  {
    PlaceFromFacts(device, at, data, 0);
  }

  /** Writing two pieces one after the other is writing their concatenation. */
  lemma PlaceConcat(device: map<nat, byte>, at: nat, a: seq<byte>, b: seq<byte>)
    ensures Place(Place(device, at, a), at + |a|, b) == Place(device, at, a + b)
  {
    var lhs := Place(Place(device, at, a), at + |a|, b);
    var rhs := Place(device, at, a + b);
    PlaceFacts(device, at, a);
    PlaceFacts(Place(device, at, a), at + |a|, b);
    PlaceFacts(device, at, a + b);
    forall i: nat ensures (i in lhs <==> i in rhs) && (i in lhs ==> lhs[i] == rhs[i]) {
      if at + |a| <= i < at + |a| + |b| {
        assert (a + b)[i - at] == b[i - (at + |a|)];
      } else if at <= i < at + |a| {
        assert (a + b)[i - at] == a[i - at];
      }
    }
    assert lhs == rhs;
  }

  /** The bytes of a sequence of blocks, one after the other. */
  function Flatten(blocks: seq<seq<byte>>): seq<byte>
    decreases |blocks|
  {
    if blocks == [] then [] else Flatten(blocks[..|blocks| - 1]) + blocks[|blocks| - 1]
  }

  /** Every block but the last one is a full `BLOCK_SIZE` block. */
  predicate FullExceptLast(blocks: seq<seq<byte>>) {
    forall j :: 0 <= j < |blocks| - 1 ==> |blocks[j]| == BLOCK_SIZE
  }

  /** The device after the helper wrote `blocks` in order, block `j` at the position the
      `OVERLAPPED` record holds after `j` advances. */
  function PlaceBlocks(device: map<nat, byte>, blocks: seq<seq<byte>>): map<nat, byte>
    decreases |blocks|
  {
    if blocks == [] then device
    else
      var n := |blocks| - 1;
      Place(PlaceBlocks(device, blocks[..n]), Position(OffsetAfter(n)), blocks[n])
  }

  lemma PlaceBlocksSnoc(device: map<nat, byte>, blocks: seq<seq<byte>>, b: seq<byte>)
    ensures PlaceBlocks(device, blocks + [b]) ==
            Place(PlaceBlocks(device, blocks), Position(OffsetAfter(|blocks|)), b)
  {
    assert (blocks + [b])[..|blocks|] == blocks;
  }

  lemma FlattenSnoc(blocks: seq<seq<byte>>, b: seq<byte>)
    ensures Flatten(blocks + [b]) == Flatten(blocks) + b
  {
    assert (blocks + [b])[..|blocks|] == blocks;
  }

  lemma {:induction false} FlattenFullLength(blocks: seq<seq<byte>>)
    requires forall j :: 0 <= j < |blocks| ==> |blocks[j]| == BLOCK_SIZE
    ensures |Flatten(blocks)| == |blocks| * BLOCK_SIZE
    decreases |blocks|
  {
    if blocks != [] {
      FlattenFullLength(blocks[..|blocks| - 1]);
    }
  }

  /** Blocks that are full except the last one, written from offset 0 without wrapping
      the 64-bit offset, leave their concatenation at the start of the device. */
  lemma {:induction false} PlaceBlocksContiguous(device: map<nat, byte>, blocks: seq<seq<byte>>)
    requires FullExceptLast(blocks)
    requires (|blocks| - 1) * BLOCK_SIZE < TWO64
    ensures PlaceBlocks(device, blocks) == Place(device, 0, Flatten(blocks))
    decreases |blocks|
  {
    if blocks != [] {
      var n := |blocks| - 1;
      var init := blocks[..n];
      assert FullExceptLast(init);
      assert forall j :: 0 <= j < |init| ==> |init[j]| == BLOCK_SIZE;
      if n > 0 {
        assert (|init| - 1) * BLOCK_SIZE < TWO64;
      }
      PlaceBlocksContiguous(device, init);
      FlattenFullLength(init);
      OffsetAfterPosition(n);
      PlaceConcat(device, 0, Flatten(init), blocks[n]);
    }
  }

  /** Blocks that are full except the last one hold at least that many full blocks. */
  lemma {:induction false} FlattenFullExceptLastLength(blocks: seq<seq<byte>>)
    requires FullExceptLast(blocks) && blocks != []
    ensures |Flatten(blocks)| >= (|blocks| - 1) * BLOCK_SIZE
  {
    var init := blocks[..|blocks| - 1];
    assert forall j :: 0 <= j < |init| ==> |init[j]| == BLOCK_SIZE;
    FlattenFullLength(init);
  }

  /** The same, stated on the number of bytes: fewer than 2^64 bytes never wrap. */
  lemma PlaceBlocksFromZero(device: map<nat, byte>, blocks: seq<seq<byte>>)
    requires FullExceptLast(blocks)
    requires |Flatten(blocks)| < TWO64
    ensures PlaceBlocks(device, blocks) == Place(device, 0, Flatten(blocks))
  {
    if blocks != [] {
      FlattenFullExceptLastLength(blocks);
    }
    PlaceBlocksContiguous(device, blocks);
  }

  // ---------------------------------------------------------------- one WriteFile

  /** What `WriteFile` reports: its return value, `GetLastError()` when it returned false,
      and the `bytesWritten` count the helper reads afterwards. */
  datatype WriteFileReply = WriteFileReply(returned: bool, lastError: nat, bytesWritten: nat)

  /** `writeBlock` succeeds when the call returned true or is pending, and the reported
      count equals the size of the block. */
  predicate WriteBlockSucceeds(reply: WriteFileReply, size: nat) {
    (reply.returned || reply.lastError == ERROR_IO_PENDING) && reply.bytesWritten == size
  }

  /** The bytes of `data` the device receives: none on an immediate error, otherwise the
      reported count. */
  function BytesReachingDevice(reply: WriteFileReply, data: seq<byte>): (r: seq<byte>)
    ensures r <= data
    ensures WriteBlockSucceeds(reply, |data|) ==> r == data
    ensures !reply.returned && reply.lastError != ERROR_IO_PENDING ==> r == []
  {
    if !reply.returned && reply.lastError != ERROR_IO_PENDING then []
    else if reply.bytesWritten < |data| then data[..reply.bytesWritten]
    else data
  }

  const NotWritableMessage: string := "Destination drive is not writable"

  /** A message of `writeBlock`'s failure: it starts with the not-writable text. */
  predicate IsNotWritableText(e: string) {
    |NotWritableMessage| <= |e| && e[..|NotWritableMessage|] == NotWritableMessage
  }

  /** What `writeBlock` prints on the error stream: the message with the system's text
      after an immediate error, the bare message after a short write, nothing otherwise. */
  function WriteBlockError(reply: WriteFileReply, size: nat, system: string): (e: string)
    ensures e == "" <==> WriteBlockSucceeds(reply, size)
    ensures e != "" ==> IsNotWritableText(e)
  {
    if !reply.returned && reply.lastError != ERROR_IO_PENDING then
      NotWritableMessage + " (" + system + ")\n"
    else if reply.bytesWritten != size then NotWritableMessage + "\n"
    else ""
  }

  // ---------------------------------------------------------------- plain image blocks

  /** Number of blocks the plain copy writes: it stops after the first block that is
      shorter than BLOCK_SIZE or ends at the end of the file (so an empty file still
      writes one empty block). */
  function PlainBlocks(n: nat): (b: nat)
    ensures b >= 1
    decreases n
  {
    if n <= BLOCK_SIZE then 1 else 1 + PlainBlocks(n - BLOCK_SIZE)
  }

  /** Block `k` starts inside the file; every block before the last one is full and does
      not reach the end, and the last one reaches the end. */
  lemma {:induction false} PlainBlocksBounds(n: nat, k: nat)
    requires k < PlainBlocks(n)
    ensures k * BLOCK_SIZE <= n
    ensures k + 1 < PlainBlocks(n) <==> (k + 1) * BLOCK_SIZE < n
    decreases n
  {
    if n > BLOCK_SIZE && k > 0 {
      PlainBlocksBounds(n - BLOCK_SIZE, k - 1);
    }
  }

  /** The buffer `isoFile.read(BLOCK_SIZE)` returns for block `k`. */
  function Block(image: seq<byte>, k: nat): (r: seq<byte>)
    requires k * BLOCK_SIZE <= |image|
    ensures |r| <= BLOCK_SIZE
    ensures k * BLOCK_SIZE + |r| <= |image|
    ensures r == image[k * BLOCK_SIZE..k * BLOCK_SIZE + |r|]
    ensures |r| == BLOCK_SIZE || k * BLOCK_SIZE + |r| == |image|
  {
    var start := k * BLOCK_SIZE;
    if start + BLOCK_SIZE <= |image| then image[start..start + BLOCK_SIZE] else image[start..]
  }

  /** The cumulative count printed after block `k`. */
  function ProgressCount(n: nat, k: nat): (c: nat)
    ensures c <= n
  {
    if (k + 1) * BLOCK_SIZE < n then (k + 1) * BLOCK_SIZE else n
  }

  /** The counts printed after the first `f` blocks. */
  function PlainCounts(n: nat, f: nat): (r: seq<nat>)
    ensures |r| == f
  {
    seq(f, k requires 0 <= k < f => ProgressCount(n, k))
  }

  /** The text of one decimal line per count, as the helper writes progress. */
  function CountLines(counts: seq<nat>): string
    decreases |counts|
  {
    if counts == [] then ""
    else CountLines(counts[..|counts| - 1]) + NatToString(counts[|counts| - 1]) + "\n"
  }

  lemma CountLinesSnoc(counts: seq<nat>, c: nat)
    ensures CountLines(counts + [c]) == CountLines(counts) + (NatToString(c) + "\n")
  {
    assert (counts + [c])[..|counts|] == counts;
  }

  /** One more block adds exactly its progress line to the output. */
  lemma CountLinesStep(prefix: string, n: nat, k: nat, c: nat)
    requires c == ProgressCount(n, k)
    ensures prefix + CountLines(PlainCounts(n, k + 1)) ==
            (prefix + CountLines(PlainCounts(n, k))) + (NatToString(c) + "\n")
  {
    PlainCountsSnoc(n, k);
    CountLinesSnoc(PlainCounts(n, k), ProgressCount(n, k));
  }

  predicate NonDecreasing(s: seq<nat>) {
    forall i, j :: 0 <= i <= j < |s| ==> s[i] <= s[j]
  }

  /** The printed progress of a plain copy never goes back, never exceeds the size of the
      image, and the last count of a complete copy is the size of the image. */
  lemma PlainCountsProperties(n: nat, f: nat)
    ensures NonDecreasing(PlainCounts(n, f))
    ensures forall i :: 0 <= i < f ==> PlainCounts(n, f)[i] <= n
    ensures f == PlainBlocks(n) ==> PlainCounts(n, f)[f - 1] == n
  {
    if f == PlainBlocks(n) {
      PlainBlocksBounds(n, f - 1);
    }
  }

  lemma PlainCountsSnoc(n: nat, k: nat)
    ensures PlainCounts(n, k + 1) == PlainCounts(n, k) + [ProgressCount(n, k)]
  {
  }

  /** The copy stops after block `k` — the block is short or reaches the end of the
      file — exactly when it is the last block. */
  lemma PlainStopsAtLast(image: seq<byte>, k: nat)
    requires k < PlainBlocks(|image|)
    ensures k * BLOCK_SIZE <= |image|
    ensures (|Block(image, k)| != BLOCK_SIZE || k * BLOCK_SIZE + |Block(image, k)| == |image|) <==>
            k + 1 == PlainBlocks(|image|)
  {
    PlainBlocksBounds(|image|, k);
  }

  /** The number of bytes read after block `k` is the size of that prefix of the image. */
  lemma ProgressCountIsBytesRead(image: seq<byte>, k: nat)
    requires k < PlainBlocks(|image|) && k * BLOCK_SIZE <= |image|
    ensures k * BLOCK_SIZE + |Block(image, k)| == ProgressCount(|image|, k)
  {
    PlainBlocksBounds(|image|, k);
  }

  /** Index of the first block whose write fails, or `PlainBlocks` when none does; the
      k-th `WriteFile` of the run is answered by `answer(c0 + k, size)`. */
  function FirstPlainFailure(image: seq<byte>, answer: (nat, nat) -> WriteFileReply, c0: nat, k: nat): (f: nat)
    requires k <= PlainBlocks(|image|)
    ensures k <= f <= PlainBlocks(|image|)
    decreases PlainBlocks(|image|) - k
  {
    if k == PlainBlocks(|image|) then k
    else
      PlainBlocksBounds(|image|, k);
      var b := Block(image, k);
      if !WriteBlockSucceeds(answer(c0 + k, |b|), |b|) then k
      else FirstPlainFailure(image, answer, c0, k + 1)
  }

  /** The failing block, if any, is the first one: all blocks before it succeed. */
  lemma {:induction false} FirstPlainFailureIsFirst(image: seq<byte>, answer: (nat, nat) -> WriteFileReply, c0: nat, k: nat, j: nat)
    requires k <= PlainBlocks(|image|)
    requires k <= j < FirstPlainFailure(image, answer, c0, k)
    ensures j * BLOCK_SIZE <= |image|
    ensures WriteBlockSucceeds(answer(c0 + j, |Block(image, j)|), |Block(image, j)|)
    decreases j - k
  {
    PlainBlocksBounds(|image|, j);
    if j > k {
      PlainBlocksBounds(|image|, k);
      FirstPlainFailureIsFirst(image, answer, c0, k + 1, j);
    }
  }

  /** The first `k` blocks of the image. */
  function FullBlocks(image: seq<byte>, k: nat): (r: seq<seq<byte>>)
    requires k <= PlainBlocks(|image|)
    ensures |r| == k
    decreases k
  {
    if k == 0 then []
    else
      PlainBlocksBounds(|image|, k - 1);
      FullBlocks(image, k - 1) + [Block(image, k - 1)]
  }

  lemma {:induction false} FullBlocksAt(image: seq<byte>, k: nat, j: nat)
    requires j < k <= PlainBlocks(|image|)
    ensures j * BLOCK_SIZE <= |image|
    ensures FullBlocks(image, k)[j] == Block(image, j)
    decreases k
  {
    PlainBlocksBounds(|image|, j);
    if j < k - 1 {
      FullBlocksAt(image, k - 1, j);
    }
  }

  /** The blocks of a plain copy that reach the device, in order: every block before the
      failing one, then whatever part of the failing block the device received. */
  function PlainBlockWrites(image: seq<byte>, answer: (nat, nat) -> WriteFileReply, c0: nat): (r: seq<seq<byte>>)
  {
    var f := FirstPlainFailure(image, answer, c0, 0);
    if f == PlainBlocks(|image|) then FullBlocks(image, f)
    else
      PlainBlocksBounds(|image|, f);
      var b := Block(image, f);
      FullBlocks(image, f) + [BytesReachingDevice(answer(c0 + f, |b|), b)]
  }

  /** The failing block, if any, did fail. */
  lemma {:induction false} FirstPlainFailureFails(image: seq<byte>, answer: (nat, nat) -> WriteFileReply, c0: nat, k: nat)
    requires k <= PlainBlocks(|image|)
    requires FirstPlainFailure(image, answer, c0, k) < PlainBlocks(|image|)
    ensures FirstPlainFailure(image, answer, c0, k) * BLOCK_SIZE <= |image|
    ensures var f := FirstPlainFailure(image, answer, c0, k);
            !WriteBlockSucceeds(answer(c0 + f, |Block(image, f)|), |Block(image, f)|)
    decreases PlainBlocks(|image|) - k
  {
    PlainBlocksBounds(|image|, FirstPlainFailure(image, answer, c0, k));
    PlainBlocksBounds(|image|, k);
    var b := Block(image, k);
    if WriteBlockSucceeds(answer(c0 + k, |b|), |b|) {
      FirstPlainFailureFails(image, answer, c0, k + 1);
    }
  }

  /** What `writeBlock` prints for the failing block of a plain copy; empty when every
      block was written. */
  function PlainFailureText(image: seq<byte>, answer: (nat, nat) -> WriteFileReply, c0: nat, system: string): (e: string)
    ensures e == "" <==> FirstPlainFailure(image, answer, c0, 0) == PlainBlocks(|image|)
    ensures e != "" ==> IsNotWritableText(e)
  {
    var f := FirstPlainFailure(image, answer, c0, 0);
    if f == PlainBlocks(|image|) then ""
    else
      PlainBlocksBounds(|image|, f);
      var b := Block(image, f);
      FirstPlainFailureFails(image, answer, c0, 0);
      WriteBlockError(answer(c0 + f, |b|), |b|, system)
  }

  /** Block `k`, the `w`-th write of the run, fails after all blocks before it
      succeeded: it is the failing block. */
  lemma PlainFailsAt(image: seq<byte>, answer: (nat, nat) -> WriteFileReply, c0: nat, k: nat, w: nat, system: string)
    requires k < PlainBlocks(|image|) && w == c0 + k
    requires FirstPlainFailure(image, answer, c0, k) == FirstPlainFailure(image, answer, c0, 0)
    requires k * BLOCK_SIZE <= |image|
    requires !WriteBlockSucceeds(answer(w, |Block(image, k)|), |Block(image, k)|)
    ensures FirstPlainFailure(image, answer, c0, 0) == k
    ensures PlainBlockWrites(image, answer, c0) ==
            FullBlocks(image, k) + [BytesReachingDevice(answer(w, |Block(image, k)|), Block(image, k))]
    ensures PlainFailureText(image, answer, c0, system) ==
            WriteBlockError(answer(w, |Block(image, k)|), |Block(image, k)|, system)
  {
  }

  /** Block `k`, the `w`-th write of the run, succeeds: the failing block, if any, comes
      later; when `k` was the last block, none fails. */
  lemma PlainSucceedsAt(image: seq<byte>, answer: (nat, nat) -> WriteFileReply, c0: nat, k: nat, w: nat, system: string)
    requires k < PlainBlocks(|image|) && w == c0 + k
    requires FirstPlainFailure(image, answer, c0, k) == FirstPlainFailure(image, answer, c0, 0)
    requires k * BLOCK_SIZE <= |image|
    requires WriteBlockSucceeds(answer(w, |Block(image, k)|), |Block(image, k)|)
    ensures FirstPlainFailure(image, answer, c0, k + 1) == FirstPlainFailure(image, answer, c0, 0)
    ensures k + 1 == PlainBlocks(|image|) ==>
              FirstPlainFailure(image, answer, c0, 0) == k + 1 &&
              PlainBlockWrites(image, answer, c0) == FullBlocks(image, k + 1) &&
              PlainFailureText(image, answer, c0, system) == ""
  {
  }

  /** What the plain copy leaves on the device from position 0. */
  function PlainWritten(image: seq<byte>, answer: (nat, nat) -> WriteFileReply, c0: nat): seq<byte> {
    Flatten(PlainBlockWrites(image, answer, c0))
  }

  /** The first `k` blocks are the first `k * BLOCK_SIZE` bytes of the image. */
  lemma {:induction false} FlattenFullBlocks(image: seq<byte>, k: nat)
    requires k < PlainBlocks(|image|)
    ensures k * BLOCK_SIZE <= |image|
    ensures Flatten(FullBlocks(image, k)) == image[..k * BLOCK_SIZE]
    decreases k
  {
    PlainBlocksBounds(|image|, k);
    if k > 0 {
      FlattenFullBlocks(image, k - 1);
      PlainBlocksBounds(|image|, k - 1);
      var s, e := (k - 1) * BLOCK_SIZE, k * BLOCK_SIZE;
      assert e == s + BLOCK_SIZE && e <= |image|;
      var b := Block(image, k - 1);
      assert |b| == BLOCK_SIZE;
      FlattenSnoc(FullBlocks(image, k - 1), b);
      SliceSnoc(image, s, e, b);
    }
  }

  lemma SliceSnoc(s: seq<byte>, i: nat, j: nat, b: seq<byte>)
    requires i <= j <= |s| && b == s[i..j]
    ensures s[..i] + b == s[..j]
  {
  }

  /** All the blocks of the image, in order, are the image. */
  lemma {:induction false} FlattenAllBlocks(image: seq<byte>)
    ensures Flatten(FullBlocks(image, PlainBlocks(|image|))) == image
  {
    var k := PlainBlocks(|image|) - 1;
    FlattenFullBlocks(image, k);
    PlainBlocksBounds(|image|, k);
    var r := FullBlocks(image, k + 1);
    var b := Block(image, k);
    var s := k * BLOCK_SIZE;
    assert s + |b| == |image|;
    assert b == image[s..];
    assert r == FullBlocks(image, k) + [b];
    assert r[..k] == FullBlocks(image, k);
    assert Flatten(r) == image[..s] + image[s..];
  }

  /** A prefix of a slice is the slice of the same length at the same start. */
  lemma PrefixOfSlice(s: seq<byte>, a: nat, b: nat, p: seq<byte>)
    requires a <= b <= |s| && p <= s[a..b]
    ensures a + |p| <= |s| && p == s[a..a + |p|]
  {
    forall j | 0 <= j < |p| ensures p[j] == s[a + j] {
      assert p[j] == s[a..b][j];
    }
  }

  lemma PrefixThenSlice(s: seq<byte>, a: nat, b: nat)
    requires a <= b <= |s|
    ensures s[..a] + s[a..b] == s[..b]
  {
  }

  /** The blocks the plain copy hands to the device are full except the last one, and
      there is at least one and at most one per block of the image. */
  lemma PlainBlockWritesShape(image: seq<byte>, answer: (nat, nat) -> WriteFileReply, c0: nat)
    ensures FullExceptLast(PlainBlockWrites(image, answer, c0))
    ensures 1 <= |PlainBlockWrites(image, answer, c0)| <= PlainBlocks(|image|)
    ensures (|PlainBlockWrites(image, answer, c0)| - 1) * BLOCK_SIZE <= |image|
  {
    var f := FirstPlainFailure(image, answer, c0, 0);
    var r := PlainBlockWrites(image, answer, c0);
    forall j | 0 <= j < |r| - 1 ensures |r[j]| == BLOCK_SIZE {
      PlainBlocksBounds(|image|, j);
      FullBlocksAt(image, f, j);
    }
    if f == PlainBlocks(|image|) {
      PlainBlocksBounds(|image|, f - 1);
    } else {
      PlainBlocksBounds(|image|, f);
    }
  }

  /** Together the blocks are a prefix of the image; all of it when no write failed. */
  lemma PlainWrittenIsPrefix(image: seq<byte>, answer: (nat, nat) -> WriteFileReply, c0: nat)
    ensures PlainWritten(image, answer, c0) <= image
    ensures FirstPlainFailure(image, answer, c0, 0) == PlainBlocks(|image|) ==>
              PlainWritten(image, answer, c0) == image
  {
    var f := FirstPlainFailure(image, answer, c0, 0);
    var w := PlainBlockWrites(image, answer, c0);
    assert PlainWritten(image, answer, c0) == Flatten(w);
    if f == PlainBlocks(|image|) {
      assert w == FullBlocks(image, f);
      FlattenAllBlocks(image);
    } else {
      PlainBlocksBounds(|image|, f);
      var b := Block(image, f);
      var part := BytesReachingDevice(answer(c0 + f, |b|), b);
      assert w == FullBlocks(image, f) + [part];
      PartialCopyIsPrefix(image, f, part);
    }
  }

  /** The whole blocks before block `f` followed by a prefix of block `f` are a prefix of
      the image. */
  lemma PartialCopyIsPrefix(image: seq<byte>, f: nat, part: seq<byte>)
    requires f < PlainBlocks(|image|) && f * BLOCK_SIZE <= |image|
    requires part <= Block(image, f)
    ensures Flatten(FullBlocks(image, f) + [part]) <= image
  {
    var b := Block(image, f);
    var s := f * BLOCK_SIZE;
    FlattenFullBlocks(image, f);
    PrefixOfSlice(image, s, s + |b|, part);
    FlattenSnoc(FullBlocks(image, f), part);
    PrefixThenSlice(image, s, s + |part|);
  }

  /** When every block was written, the first bytes of the device are the image — for any
      image shorter than 2^64 bytes, whose blocks never wrap the offset. */
  lemma PlainCopyLeavesImage(device: map<nat, byte>, image: seq<byte>, answer: (nat, nat) -> WriteFileReply, c0: nat)
    requires |image| < TWO64
    ensures PlaceBlocks(device, PlainBlockWrites(image, answer, c0)) == Place(device, 0, PlainWritten(image, answer, c0))
    ensures FirstPlainFailure(image, answer, c0, 0) == PlainBlocks(|image|) ==>
              PlaceBlocks(device, PlainBlockWrites(image, answer, c0)) == Place(device, 0, image)
  {
    PlainBlockWritesShape(image, answer, c0);
    PlainWrittenIsPrefix(image, answer, c0);
    PlaceBlocksContiguous(device, PlainBlockWrites(image, answer, c0));
  }

  /** The state after the copy loop of `writePlain`, which started on `device0` with
      `c0` earlier `WriteFile` calls and the streams `out0` and `err0`: `ok` tells whether
      every block was written, the device holds the blocks that reached it, one call was
      made per block tried, one progress line printed per written block, and the error
      stream holds the message of the failing block, if any. */
  ghost predicate PlainCopyOutcome(image: seq<byte>, answer: (nat, nat) -> WriteFileReply, c0: nat, system: string,
                                   ok: bool, device0: map<nat, byte>, device: map<nat, byte>, calls: nat,
                                   out0: string, out: string, err0: string, err: string)
  {
    var f := FirstPlainFailure(image, answer, c0, 0);
    var blocks := PlainBlockWrites(image, answer, c0);
    && (ok <==> f == PlainBlocks(|image|))
    && device == PlaceBlocks(device0, blocks)
    && calls == c0 + |blocks|
    && out == out0 + CountLines(PlainCounts(|image|, f))
    && err == err0 + PlainFailureText(image, answer, c0, system)
  }

  /** The state of the copy loop of `writePlain` before block `k`: the `OVERLAPPED`
      record and the running count are at block `k`, all blocks before it were written
      and printed, and the failing block, if any, is not before `k`. */
  ghost predicate PlainCopyAt(image: seq<byte>, answer: (nat, nat) -> WriteFileReply, c0: nat, k: nat,
                              os: Overlapped, cnt: nat, device0: map<nat, byte>, device: map<nat, byte>,
                              calls: nat, out0: string, out: string)
  {
    && k < PlainBlocks(|image|) && os == OffsetAfter(k) && cnt == k * BLOCK_SIZE
    && calls == c0 + k
    && FirstPlainFailure(image, answer, c0, k) == FirstPlainFailure(image, answer, c0, 0)
    && device == PlaceBlocks(device0, FullBlocks(image, k))
    && out == out0 + CountLines(PlainCounts(|image|, k))
  }

  /** A successful write of block `k`, leaving `device'`, `cnt'` and `out'`, either
      moves the copy loop to block `k + 1` or, when the block was short or reached the end
      of the file, completes the copy. */
  lemma PlainCopyWritten(image: seq<byte>, answer: (nat, nat) -> WriteFileReply, c0: nat, system: string, k: nat,
                         os: Overlapped, cnt: nat, device0: map<nat, byte>, device: map<nat, byte>, calls: nat,
                         out0: string, out: string, err0: string,
                         device': map<nat, byte>, cnt': nat, out': string, last: bool)
    requires PlainCopyAt(image, answer, c0, k, os, cnt, device0, device, calls, out0, out)
    requires k * BLOCK_SIZE <= |image|
    requires WriteBlockSucceeds(answer(calls, |Block(image, k)|), |Block(image, k)|)
    requires device' == Place(device, Position(os), Block(image, k))
    requires cnt' == cnt + |Block(image, k)| && out' == out + (NatToString(cnt') + "\n")
    requires last == (|Block(image, k)| != BLOCK_SIZE || cnt' == |image|)
    ensures last ==> PlainCopyOutcome(image, answer, c0, system, true, device0, device', calls + 1, out0, out', err0, err0)
    ensures !last ==> PlainCopyAt(image, answer, c0, k + 1, Advance(os), cnt', device0, device', calls + 1, out0, out')
  {
    var b := Block(image, k);
    PlainStopsAtLast(image, k);
    PlaceBlocksSnoc(device0, FullBlocks(image, k), b);
    PlainSucceedsAt(image, answer, c0, k, calls, system);
    assert FullBlocks(image, k + 1) == FullBlocks(image, k) + [b];
    ProgressCountIsBytesRead(image, k);
    CountLinesStep(out0, |image|, k, cnt');
    assert device' == PlaceBlocks(device0, FullBlocks(image, k + 1));
    assert out' == out0 + CountLines(PlainCounts(|image|, k + 1));
    if last {
      assert FirstPlainFailure(image, answer, c0, 0) == k + 1 == PlainBlocks(|image|);
    } else {
      assert (k + 1) * BLOCK_SIZE == k * BLOCK_SIZE + BLOCK_SIZE;
    }
  }

  /** A failed write of block `k`, leaving `device'` and `err'`, ends the copy
      unsuccessfully. */
  lemma PlainCopyFailed(image: seq<byte>, answer: (nat, nat) -> WriteFileReply, c0: nat, system: string, k: nat,
                        os: Overlapped, cnt: nat, device0: map<nat, byte>, device: map<nat, byte>, calls: nat,
                        out0: string, out: string, err0: string, device': map<nat, byte>, err': string)
    requires PlainCopyAt(image, answer, c0, k, os, cnt, device0, device, calls, out0, out)
    requires k * BLOCK_SIZE <= |image|
    requires !WriteBlockSucceeds(answer(calls, |Block(image, k)|), |Block(image, k)|)
    requires device' == Place(device, Position(os), BytesReachingDevice(answer(calls, |Block(image, k)|), Block(image, k)))
    requires err' == err0 + WriteBlockError(answer(calls, |Block(image, k)|), |Block(image, k)|, system)
    ensures PlainCopyOutcome(image, answer, c0, system, false, device0, device', calls + 1, out0, out, err0, err')
  {
    var b := Block(image, k);
    PlaceBlocksSnoc(device0, FullBlocks(image, k), BytesReachingDevice(answer(calls, |b|), b));
    PlainFailsAt(image, answer, c0, k, calls, system);
  }

  /** A complete plain copy of an image shorter than 2^64 bytes leaves the image at the
      start of the device. */
  lemma PlainCopyOutcomeLeavesImage(image: seq<byte>, answer: (nat, nat) -> WriteFileReply, c0: nat, system: string,
                                    ok: bool, device0: map<nat, byte>, device: map<nat, byte>, calls: nat,
                                    out0: string, out: string, err0: string, err: string)
    requires PlainCopyOutcome(image, answer, c0, system, ok, device0, device, calls, out0, out, err0, err)
    requires ok && |image| < TWO64
    ensures device == Place(device0, 0, image)
  {
    PlainCopyLeavesImage(device0, image, answer, c0);
  }

  // ---------------------------------------------------------------- lock retry

  /** Attempt `j` of a `lockDrive` whose first `DeviceIoControl` is call `start` succeeds:
      the handle is valid and `FSCTL_LOCK_VOLUME` succeeded. */
  predicate LockOk(answer: nat -> bool, valid: bool, start: nat, j: nat) {
    valid && answer(start + j)
  }

  /** Attempts made by `lockDrive` counted from attempt `k` on. */
  function LockTriesFrom(answer: nat -> bool, valid: bool, start: nat, k: nat): (n: nat)
    requires k < LOCK_ATTEMPTS
    ensures k < n <= LOCK_ATTEMPTS
    decreases LOCK_ATTEMPTS - k
  {
    if LockOk(answer, valid, start, k) || k + 1 == LOCK_ATTEMPTS then k + 1
    else LockTriesFrom(answer, valid, start, k + 1)
  }

  function LockTries(answer: nat -> bool, valid: bool, start: nat): nat {
    LockTriesFrom(answer, valid, start, 0)
  }

  /** `lockDrive` returns true exactly when its last attempt succeeded. */
  predicate LockSucceeds(answer: nat -> bool, valid: bool, start: nat) {
    LockOk(answer, valid, start, LockTries(answer, valid, start) - 1)
  }

  lemma {:induction false} LockTriesFromFacts(answer: nat -> bool, valid: bool, start: nat, k: nat)
    requires k < LOCK_ATTEMPTS
    ensures forall j :: k <= j < LockTriesFrom(answer, valid, start, k) - 1 ==> !LockOk(answer, valid, start, j)
    ensures LockOk(answer, valid, start, LockTriesFrom(answer, valid, start, k) - 1) ||
            LockTriesFrom(answer, valid, start, k) == LOCK_ATTEMPTS
    decreases LOCK_ATTEMPTS - k
  {
    if !(LockOk(answer, valid, start, k) || k + 1 == LOCK_ATTEMPTS) {
      LockTriesFromFacts(answer, valid, start, k + 1);
    }
  }

  /** At most ten attempts; success exactly when one of the first ten succeeds; every
      attempt before the last one failed; a failure comes after the tenth attempt. */
  lemma LockSpec(answer: nat -> bool, valid: bool, start: nat)
    ensures 1 <= LockTries(answer, valid, start) <= LOCK_ATTEMPTS
    ensures forall j :: 0 <= j < LockTries(answer, valid, start) - 1 ==> !LockOk(answer, valid, start, j)
    ensures LockSucceeds(answer, valid, start) <==>
              exists j :: 0 <= j < LOCK_ATTEMPTS && LockOk(answer, valid, start, j)
    ensures !LockSucceeds(answer, valid, start) ==> LockTries(answer, valid, start) == LOCK_ATTEMPTS
  {
    LockTriesFromFacts(answer, valid, start, 0);
    var n := LockTries(answer, valid, start);
    if exists j :: 0 <= j < LOCK_ATTEMPTS && LockOk(answer, valid, start, j) {
      var j :| 0 <= j < LOCK_ATTEMPTS && LockOk(answer, valid, start, j);
      assert j >= n - 1;
    }
  }

  /** Once the first `a` attempts have failed, the count is decided from attempt `a` on. */
  lemma {:induction false} LockTriesSkip(answer: nat -> bool, valid: bool, start: nat, a: nat)
    requires a < LOCK_ATTEMPTS
    requires forall j :: 0 <= j < a ==> !LockOk(answer, valid, start, j)
    ensures LockTries(answer, valid, start) == LockTriesFrom(answer, valid, start, a)
    decreases a
  {
    if a > 0 {
      LockTriesSkip(answer, valid, start, a - 1);
    }
  }

  /** The pauses `lockDrive` makes: two seconds after every failed attempt but the last. */
  function LockSleeps(n: nat): (r: seq<nat>)
    ensures |r| == n && forall i :: 0 <= i < n ==> r[i] == 2
  {
    seq(n, _ => 2)
  }

  /** An invalid handle (the drive could not be opened) can never be locked. */
  lemma InvalidHandleNeverLocks(answer: nat -> bool, start: nat)
    ensures !LockSucceeds(answer, false, start)
    ensures LockTries(answer, false, start) == LOCK_ATTEMPTS
  {
    LockSpec(answer, false, start);
  }

  // ---------------------------------------------------------------- decoder replies

  datatype LzmaRet =
    | LZMA_OK | LZMA_STREAM_END | LZMA_NO_CHECK | LZMA_UNSUPPORTED_CHECK | LZMA_GET_CHECK
    | LZMA_MEM_ERROR | LZMA_MEMLIMIT_ERROR | LZMA_FORMAT_ERROR | LZMA_OPTIONS_ERROR
    | LZMA_DATA_ERROR | LZMA_BUF_ERROR | LZMA_PROG_ERROR

  const MemoryMessage: string := "There is not enough memory to decompress the file."
  const CorruptedMessage: string := "The downloaded compressed file is corrupted."
  const OptionsMessage: string := "Unsupported compression options."
  const UnknownMessage: string := "Unknown decompression error."

  /** The message printed for a return code that is neither `LZMA_OK` nor
      `LZMA_STREAM_END`. */
  function DecoderErrorMessage(ret: LzmaRet): (m: string)
    ensures m == MemoryMessage <==> ret == LZMA_MEM_ERROR
    ensures m == CorruptedMessage <==> ret in {LZMA_FORMAT_ERROR, LZMA_DATA_ERROR, LZMA_BUF_ERROR}
    ensures m == OptionsMessage <==> ret == LZMA_OPTIONS_ERROR
    ensures m == UnknownMessage <==> !(ret in {LZMA_MEM_ERROR, LZMA_FORMAT_ERROR, LZMA_DATA_ERROR,
                                              LZMA_BUF_ERROR, LZMA_OPTIONS_ERROR})
  {
    match ret
    case LZMA_MEM_ERROR => MemoryMessage
    case LZMA_FORMAT_ERROR => CorruptedMessage
    case LZMA_DATA_ERROR => CorruptedMessage
    case LZMA_BUF_ERROR => CorruptedMessage
    case LZMA_OPTIONS_ERROR => OptionsMessage
    case _ => UnknownMessage
  }

  /** One answer of `lzma_code`: how much input it took and what output it produced. */
  datatype DecodeReply = DecodeReply(consumed: nat, produced: seq<byte>)

  /** The return code of the last call: anything but `LZMA_OK`. */
  type FinalRet = r: LzmaRet | r != LZMA_OK witness LZMA_STREAM_END

  /** The answers of one decoder instance: the result of `lzma_stream_decoder`, the
      replies that came with `LZMA_OK`, and the last reply with its return code. */
  datatype DecoderRun = DecoderRun(initRet: LzmaRet, steps: seq<DecodeReply>, last: DecodeReply, lastRet: FinalRet)

  /** The reply to call `i` of `lzma_code`. */
  function ReplyAt(run: DecoderRun, i: nat): DecodeReply {
    if i < |run.steps| then run.steps[i] else run.last
  }

  /** What the decoder writes of the output it has: never more than `avail_out`, the
      room left in the output buffer. */
  function Clamp(produced: seq<byte>, room: nat): (r: seq<byte>)
    ensures r <= produced && |r| <= room
    ensures |r| == room || r == produced
  {
    if |produced| <= room then produced else produced[..room]
  }

  /** The decoded stream after the first `i` calls of `lzma_code`: the output of each
      call, cut at the room left in the 64 KiB output buffer, which is empty again after
      every full block. */
  function DecodedSoFar(run: DecoderRun, i: nat): seq<byte>
    requires i <= |run.steps| + 1
  {
    if i == 0 then []
    else
      var before := DecodedSoFar(run, i - 1);
      before + Clamp(ReplyAt(run, i - 1).produced, BLOCK_SIZE - |before| % BLOCK_SIZE)
  }

  /** Later calls only append to the decoded stream. */
  lemma {:induction false} DecodedSoFarGrows(run: DecoderRun, i: nat, j: nat)
    requires i <= j <= |run.steps| + 1
    ensures DecodedSoFar(run, i) <= DecodedSoFar(run, j)
    decreases j - i
  {
    if i < j {
      DecodedSoFarGrows(run, i, j - 1);
      var before := DecodedSoFar(run, j - 1);
      PrefixThroughAppend(DecodedSoFar(run, i), before,
                          Clamp(ReplyAt(run, j - 1).produced, BLOCK_SIZE - |before| % BLOCK_SIZE));
    }
  }

  lemma PrefixThroughAppend<T>(a: seq<T>, b: seq<T>, c: seq<T>)
    requires a <= b
    ensures a <= b + c
  {
    assert (b + c)[..|a|] == b[..|a|];
  }

  /** When the output buffer holds what follows full blocks of the decoded stream, the
      next call of the decoder adds its output cut at the room left in that buffer. */
  lemma DecodedSoFarStep(run: DecoderRun, i: nat, flushed: seq<seq<byte>>, outBuffer: seq<byte>, decoded: seq<byte>)
    requires i <= |run.steps|
    requires forall j :: 0 <= j < |flushed| ==> |flushed[j]| == BLOCK_SIZE
    requires decoded == Flatten(flushed) + outBuffer && |outBuffer| < BLOCK_SIZE
    requires decoded == DecodedSoFar(run, i)
    ensures DecodedSoFar(run, i + 1) == decoded + Clamp(ReplyAt(run, i).produced, BLOCK_SIZE - |outBuffer|)
  {
    FlattenFullLength(flushed);
    BlockRemainder(|flushed|, |outBuffer|);
  }

  lemma {:induction false} BlockRemainder(k: nat, r: nat)
    requires r < BLOCK_SIZE
    ensures (k * BLOCK_SIZE + r) % BLOCK_SIZE == r
    decreases k
  {
    if k > 0 {
      BlockRemainder(k - 1, r);
      assert k * BLOCK_SIZE + r == ((k - 1) * BLOCK_SIZE + r) + BLOCK_SIZE;
    }
  }

  /** The number of compressed bytes `writeCompressed` has read from a file of `n` bytes
      after `r` reads of at most a block each: the running count it prints. */
  function ReadTotal(n: nat, r: nat): (t: nat)
    ensures t <= n
  {
    if r * BLOCK_SIZE < n then r * BLOCK_SIZE else n
  }

  /** One more read adds at most a block, and the new total is the progress count the
      plain copy would print after the same number of blocks. */
  lemma ReadTotalStep(n: nat, r: nat)
    ensures ReadTotal(n, r + 1) == ProgressCount(n, r)
    ensures ReadTotal(n, r) <= ReadTotal(n, r + 1) <= ReadTotal(n, r) + BLOCK_SIZE
    ensures ReadTotal(n, r + 1) - ReadTotal(n, r) ==
            (if n - ReadTotal(n, r) < BLOCK_SIZE then n - ReadTotal(n, r) else BLOCK_SIZE)
  {
    assert (r + 1) * BLOCK_SIZE == r * BLOCK_SIZE + BLOCK_SIZE;
  }

  /** The state of the decoding loop of `writeCompressed` before call `i` of the decoder
      `run`, reading a file of `n` bytes: `count` reads so far, the output buffer holds the
      decoded bytes not yet written, every block written so far is a full block, the
      `OVERLAPPED` record is at the next block, and the decoded stream is that of the
      first `i` calls. */
  ghost predicate DecodeLoopState(n: nat, run: DecoderRun, i: nat, count: nat, totalRead: nat, outBuffer: seq<byte>,
                                  os: Overlapped, flushed: seq<seq<byte>>, decoded: seq<byte>)
  {
    && i <= |run.steps|
    && |outBuffer| < BLOCK_SIZE
    && totalRead == ReadTotal(n, count)
    && (i > 0 ==> count >= 1)
    && os == OffsetAfter(|flushed|)
    && (forall j :: 0 <= j < |flushed| ==> |flushed[j]| == BLOCK_SIZE)
    && decoded == Flatten(flushed) + outBuffer
    && decoded == DecodedSoFar(run, i)
  }

  /** The same state once the output of call `i` is in the output buffer, which may now
      be full. */
  ghost predicate ReplyState(n: nat, run: DecoderRun, i: nat, count: nat, totalRead: nat, outBuffer: seq<byte>,
                             os: Overlapped, flushed: seq<seq<byte>>, decoded: seq<byte>)
  {
    && i <= |run.steps|
    && |outBuffer| <= BLOCK_SIZE
    && totalRead == ReadTotal(n, count) && count >= 1
    && os == OffsetAfter(|flushed|)
    && (forall j :: 0 <= j < |flushed| ==> |flushed[j]| == BLOCK_SIZE)
    && decoded == Flatten(flushed) + outBuffer
    && decoded == DecodedSoFar(run, i + 1)
  }

  /** Call `i` of the decoder appends its output, cut at the room left, to the buffer. */
  lemma ReplyStateAfterCall(n: nat, run: DecoderRun, i: nat, count: nat, totalRead: nat, outBuffer: seq<byte>,
                            os: Overlapped, flushed: seq<seq<byte>>, decoded: seq<byte>, count': nat, totalRead': nat)
    requires DecodeLoopState(n, run, i, count, totalRead, outBuffer, os, flushed, decoded)
    requires totalRead' == ReadTotal(n, count') && count' >= 1
    ensures var produced := Clamp(ReplyAt(run, i).produced, BLOCK_SIZE - |outBuffer|);
            ReplyState(n, run, i, count', totalRead', outBuffer + produced, os, flushed, decoded + produced)
  {
    DecodedSoFarStep(run, i, flushed, outBuffer, decoded);
    var produced := Clamp(ReplyAt(run, i).produced, BLOCK_SIZE - |outBuffer|);
    assert decoded + produced == Flatten(flushed) + (outBuffer + produced);
  }

  /** A call that returned `LZMA_OK` without filling the buffer leads to the next call. */
  lemma ReplyStateContinues(n: nat, run: DecoderRun, i: nat, count: nat, totalRead: nat, outBuffer: seq<byte>,
                            os: Overlapped, flushed: seq<seq<byte>>, decoded: seq<byte>)
    requires ReplyState(n, run, i, count, totalRead, outBuffer, os, flushed, decoded)
    requires i < |run.steps| && |outBuffer| < BLOCK_SIZE
    ensures DecodeLoopState(n, run, i + 1, count, totalRead, outBuffer, os, flushed, decoded)
  {
  }

  /** A full buffer that reached the device becomes one more full block, and the next
      call starts with an empty buffer at the next offset. */
  lemma ReplyStateFlushed(n: nat, run: DecoderRun, i: nat, count: nat, totalRead: nat, outBuffer: seq<byte>,
                          os: Overlapped, flushed: seq<seq<byte>>, decoded: seq<byte>)
    requires ReplyState(n, run, i, count, totalRead, outBuffer, os, flushed, decoded)
    requires i < |run.steps| && |outBuffer| == BLOCK_SIZE
    ensures DecodeLoopState(n, run, i + 1, count, totalRead, [], Advance(os), flushed + [outBuffer], decoded)
  {
    FlattenSnoc(flushed, outBuffer);
  }

  /** Writing out the output buffer after full blocks: the blocks stay full but the last,
      they stay a prefix of the decoded bytes, and all of them when the whole buffer
      reached the device. */
  lemma FlushFacts(before: seq<seq<byte>>, outBuffer: seq<byte>, reaching: seq<byte>, decoded: seq<byte>)
    requires forall j :: 0 <= j < |before| ==> |before[j]| == BLOCK_SIZE
    requires decoded == Flatten(before) + outBuffer
    requires reaching <= outBuffer
    ensures FullExceptLast(before + [reaching])
    ensures Flatten(before + [reaching]) <= decoded
    ensures reaching == outBuffer ==> Flatten(before + [reaching]) == decoded
    ensures reaching == outBuffer && |outBuffer| == BLOCK_SIZE ==>
              forall j :: 0 <= j < |before| + 1 ==> |(before + [reaching])[j]| == BLOCK_SIZE
  {
    FlattenSnoc(before, reaching);
  }

  /** Full blocks followed by a partial buffer: the blocks alone are a prefix. */
  lemma FlattenPrefix(blocks: seq<seq<byte>>, rest: seq<byte>)
    requires forall j :: 0 <= j < |blocks| ==> |blocks[j]| == BLOCK_SIZE
    ensures FullExceptLast(blocks)
    ensures Flatten(blocks) <= Flatten(blocks) + rest
  {
  }

  /** How a compressed copy ended, given the return code of the decoder's last reply:
      the blocks written are full but the last and are a prefix of the decoded stream.
      Success means the stream ended, all of it was written and nothing was reported. A
      failed block write requests exit 1 after a not-writable message; a decoder error
      requests exit 4 after its own message, and then only full blocks were written. */
  ghost predicate CompressedResult(lastRet: FinalRet, ok: bool, flushed: seq<seq<byte>>, decoded: seq<byte>,
                                   err0: string, err: string, exits0: seq<int>, exits: seq<int>)
  {
    && FullExceptLast(flushed)
    && Flatten(flushed) <= decoded
    && (ok ==> lastRet == LZMA_STREAM_END && Flatten(flushed) == decoded && exits == exits0 && err == err0)
    && (!ok ==> (exits == exits0 + [1] && err0 < err && IsNotWritableText(err[|err0|..])) ||
                (exits == exits0 + [4] && lastRet != LZMA_STREAM_END && err == err0 + DecoderErrorMessage(lastRet) &&
                 forall j :: 0 <= j < |flushed| ==> |flushed[j]| == BLOCK_SIZE))
  }

  /** A failed write of the output buffer after reply `i` ends the copy as a failure
      that requested exit 1, with everything decoded so far a prefix of the whole stream. */
  lemma WriteFailureResult(run: DecoderRun, i: nat, flushed: seq<seq<byte>>, decoded: seq<byte>,
                           err0: string, err: string, exits0: seq<int>)
    requires i <= |run.steps| && decoded == DecodedSoFar(run, i + 1)
    requires FullExceptLast(flushed) && Flatten(flushed) <= decoded
    requires err0 < err && IsNotWritableText(err[|err0|..])
    ensures CompressedResult(run.lastRet, false, flushed, decoded, err0, err, exits0, exits0 + [1])
    ensures decoded <= DecodedSoFar(run, |run.steps| + 1)
  {
    DecodedSoFarGrows(run, i + 1, |run.steps| + 1);
  }

  /** A decoder error after reply `i` ends the copy as a failure that requested exit 4
      after the error's message, with only full blocks written and everything decoded
      so far a prefix of the whole stream. */
  lemma DecoderFailureResult(run: DecoderRun, i: nat, ret: LzmaRet, outBuffer: seq<byte>, flushed: seq<seq<byte>>,
                             decoded: seq<byte>, err0: string, exits0: seq<int>)
    requires i <= |run.steps| && ret == (if i < |run.steps| then LZMA_OK else run.lastRet)
    requires ret != LZMA_OK && ret != LZMA_STREAM_END
    requires forall j :: 0 <= j < |flushed| ==> |flushed[j]| == BLOCK_SIZE
    requires decoded == Flatten(flushed) + outBuffer && decoded == DecodedSoFar(run, i + 1)
    ensures CompressedResult(run.lastRet, false, flushed, decoded, err0, err0 + DecoderErrorMessage(ret),
                             exits0, exits0 + [4])
    ensures decoded <= DecodedSoFar(run, |run.steps| + 1)
  {
    FlattenPrefix(flushed, outBuffer);
    DecodedSoFarGrows(run, i + 1, |run.steps| + 1);
  }

  // ---------------------------------------------------------------- media check

  /** Return codes of `mediaCheckFD`. */
  const ISOMD5SUM_CHECK_PASSED: int := 1
  const ISOMD5SUM_CHECK_FAILED: int := 0
  const ISOMD5SUM_CHECK_ABORTED: int := 2
  const ISOMD5SUM_CHECK_NOT_FOUND: int := -1
  const ISOMD5SUM_FILE_NOT_FOUND: int := -2

  const DamagedMessage: string := "Your drive is probably damaged."
  const UnexpectedCheckMessage: string := "Unexpected error occurred during media check."

  /** The exit status `check()` requests: 0 for a compressed image (not checked) and for a
      passed or absent embedded checksum, 1 otherwise. */
  function CheckExitCode(compressed: bool, code: int): (r: int)
    ensures r == 0 || r == 1
    ensures r == 0 <==> compressed || code == ISOMD5SUM_CHECK_PASSED || code == ISOMD5SUM_CHECK_NOT_FOUND
  {
    if compressed then 0
    else if code == ISOMD5SUM_CHECK_NOT_FOUND || code == ISOMD5SUM_CHECK_PASSED then 0
    else 1
  }

  /** The text `check()` prints after `CHECK` and the media-check progress. */
  function CheckVerdictText(code: int): (r: string)
    ensures r == "DONE\nOK\n" <==> CheckExitCode(false, code) == 0
    ensures r == DamagedMessage + "\n" <==> code == ISOMD5SUM_CHECK_FAILED
  {
    if code == ISOMD5SUM_CHECK_NOT_FOUND || code == ISOMD5SUM_CHECK_PASSED then "DONE\nOK\n"
    else if code == ISOMD5SUM_CHECK_FAILED then DamagedMessage + "\n"
    else UnexpectedCheckMessage + "\n"
  }
}
