/** The Windows write helper as a job object: it waits for a download to finish, writes
    the image to the physical drive (plain or xz-compressed) with one retry, then runs the
    media check and requests the exit status the parent process reads.

    What the surrounding system answers is fixed when the job is made: the contents of the
    image file and whether it opens, whether each `CreateFile` gives a valid handle, whether
    each `FSCTL_LOCK_VOLUME` succeeds, what each `WriteFile` reports, the script each decoder
    instance follows, and the progress and return code of the media check. The k-th call
    to each of them is answered by entry k, counted by the matching `...Calls` field.
    Text the helper writes is kept as the two streams it goes to, and every
    `qApp->exit(code)` is logged in `exitRequests`; the last one decides the status. */
module WriteJob {
  import opened Common
  import opened WriteBlocks

  const ImageNotReadableMessage: string := "Source image is not readable"
  const DecoderStartMessage: string := "Failed to start decompressing."
  const OpenFailMessage: string := "Couldn't open the drive for writing"
  const LockFailMessage: string := "Couldn't lock the drive"
  const ZippedNotice: string := "NOT CHECKING BECAUSE IMAGE IS ZIPPED\n"
  const RetrySleep: nat := 5

  /** The status of a job that wrote successfully: the verdict of `check()`. */
  function CheckStatus(what: string, code: int): (r: int)
    ensures r == 0 || r == 1
    ensures r == 0 <==> EndsWith(what, ".xz") || code == ISOMD5SUM_CHECK_PASSED || code == ISOMD5SUM_CHECK_NOT_FOUND
  {
    CheckExitCode(EndsWith(what, ".xz"), code)
  }

  class Job {
    const what: string
    const md5: string
    const image: seq<byte>
    const imageReadable: bool
    const systemMessage: string
    const openAnswer: nat -> bool
    const lockAnswer: nat -> bool
    const writeAnswer: (nat, nat) -> WriteFileReply
    const decoderFor: nat -> DecoderRun
    const mediaCheckOffsets: seq<nat>
    const mediaCheckCode: int

    var out: string
    var err: string
    var exitRequests: seq<int>
    var watched: seq<string>
    var sleeps: seq<nat>
    var device: map<nat, byte>
    var openHandles: nat
    var openCalls: nat
    var lockCalls: nat
    var writeCalls: nat
    var decoderCalls: nat

    /** The outcome of every `write()` so far. */
    ghost var attempts: seq<bool>
    /** The blocks the last compressed copy handed to the device, as the device got them. */
    ghost var flushed: seq<seq<byte>>
    /** The output of the last decoder instance, in order. */
    ghost var decoded: seq<byte>
    /** The number of reads of the compressed file in the last compressed copy. */
    ghost var inputReads: nat

    constructor (what: string, md5: string, image: seq<byte>, imageReadable: bool, systemMessage: string,
                 openAnswer: nat -> bool, lockAnswer: nat -> bool,
                 writeAnswer: (nat, nat) -> WriteFileReply, decoderFor: nat -> DecoderRun,
                 mediaCheckOffsets: seq<nat>, mediaCheckCode: int, device: map<nat, byte>)
      ensures this.what == what && this.md5 == md5 && this.image == image
      ensures this.imageReadable == imageReadable && this.systemMessage == systemMessage
      ensures this.openAnswer == openAnswer && this.lockAnswer == lockAnswer
      ensures this.writeAnswer == writeAnswer && this.decoderFor == decoderFor
      ensures this.mediaCheckOffsets == mediaCheckOffsets && this.mediaCheckCode == mediaCheckCode
      ensures this.device == device
      ensures out == "" && err == "" && exitRequests == [] && watched == [] && sleeps == []
      ensures openHandles == 0 && openCalls == 0 && lockCalls == 0 && writeCalls == 0 && decoderCalls == 0
      ensures attempts == []
    {
      this.what := what;
      this.md5 := md5;
      this.image := image;
      this.imageReadable := imageReadable;
      this.systemMessage := systemMessage;
      this.openAnswer := openAnswer;
      this.lockAnswer := lockAnswer;
      this.writeAnswer := writeAnswer;
      this.decoderFor := decoderFor;
      this.mediaCheckOffsets := mediaCheckOffsets;
      this.mediaCheckCode := mediaCheckCode;
      this.device := device;
      out := "";
      err := "";
      exitRequests := [];
      watched := [];
      sleeps := [];
      openHandles := 0;
      openCalls := 0;
      lockCalls := 0;
      writeCalls := 0;
      decoderCalls := 0;
      attempts := [];
      flushed := [];
      decoded := [];
      inputReads := 0;
    }

    /** The status the process ends with: the last requested exit code, if any. */
    function ExitCode(): (r: Option<int>)
      reads this`exitRequests
      ensures r.None? <==> exitRequests == []
      ensures r.Some? ==> r.value == exitRequests[|exitRequests| - 1]
    {
      if exitRequests == [] then None else Some(exitRequests[|exitRequests| - 1])
    }

    /** `openDrive`: an invalid handle is reported on the error stream and returned. */
    method OpenDrive() returns (valid: bool)
      modifies this`openCalls, this`openHandles, this`err
      ensures valid == openAnswer(old(openCalls))
      ensures openCalls == old(openCalls) + 1
      ensures openHandles == old(openHandles) + (if valid then 1 else 0)
      ensures err == old(err) + (if valid then "" else OpenFailMessage + " (" + systemMessage + ")\n")
    {
      valid := openAnswer(openCalls);
      openCalls := openCalls + 1;
      if valid {
        openHandles := openHandles + 1;
      } else {
        err := err + OpenFailMessage + " (" + systemMessage + ")\n";
      }
    }

    /** `lockDrive`: up to ten lock attempts two seconds apart; true exactly when one of
        them succeeded, false after the tenth failure, with a message. */
    method LockDrive(valid: bool) returns (locked: bool)
      modifies this`lockCalls, this`sleeps, this`err
      ensures locked == LockSucceeds(lockAnswer, valid, old(lockCalls))
      ensures lockCalls == old(lockCalls) + LockTries(lockAnswer, valid, old(lockCalls))
      ensures sleeps == old(sleeps) + LockSleeps(LockTries(lockAnswer, valid, old(lockCalls)) - 1)
      ensures err == old(err) + (if locked then "" else LockFailMessage + " (" + systemMessage + ")\n")
    {
      ghost var start := lockCalls;
      var failures: nat := 0;
      while true
        invariant failures < LOCK_ATTEMPTS
        invariant lockCalls == start + failures
        invariant forall j :: 0 <= j < failures ==> !LockOk(lockAnswer, valid, start, j)
        invariant sleeps == old(sleeps) + LockSleeps(failures)
        invariant err == old(err)
        decreases LOCK_ATTEMPTS - failures
      {
        var ok := valid && lockAnswer(lockCalls);
        assert ok == LockOk(lockAnswer, valid, start, failures);
        lockCalls := lockCalls + 1;
        if ok {
          LockTriesSkip(lockAnswer, valid, start, failures);
          return true;
        }
        failures := failures + 1;
        if failures == LOCK_ATTEMPTS {
          LockTriesSkip(lockAnswer, valid, start, failures - 1);
          err := err + LockFailMessage + " (" + systemMessage + ")\n";
          return false;
        }
        assert LockSleeps(failures) == LockSleeps(failures - 1) + [2];
        sleeps := sleeps + [2];
      }
    }

    /** `writeBlock`: one `WriteFile` of `data` at the position `os` holds. */
    method WriteBlock(data: seq<byte>, os: Overlapped) returns (ok: bool)
      modifies this`writeCalls, this`device, this`err
      ensures ok == WriteBlockSucceeds(writeAnswer(old(writeCalls), |data|), |data|)
      ensures writeCalls == old(writeCalls) + 1
      ensures device == Place(old(device), Position(os), BytesReachingDevice(writeAnswer(old(writeCalls), |data|), data))
      ensures err == old(err) + WriteBlockError(writeAnswer(old(writeCalls), |data|), |data|, systemMessage)
    {
      var reply := writeAnswer(writeCalls, |data|);
      writeCalls := writeCalls + 1;
      device := Place(device, Position(os), BytesReachingDevice(reply, data));
      err := err + WriteBlockError(reply, |data|, systemMessage);
      ok := WriteBlockSucceeds(reply, |data|);
    }

    /** One pass of the copy loop of `writePlain` over block `k`: the block is written at
        the offset `os` holds; after a successful write the offset advances, the running
        count `cnt` grows by the block's length and is printed, and `last` tells whether the
        block was short or reached the end of the file. A failed write or the last block
        ends the copy, with the outcome of the whole run. */
    method CopyBlock(k: nat, os: Overlapped, cnt: nat, ghost c0: nat, ghost device0: map<nat, byte>,
                     ghost out0: string, ghost err0: string)
      returns (written: bool, last: bool, os': Overlapped, cnt': nat)
      requires PlainCopyAt(image, writeAnswer, c0, k, os, cnt, device0, device, writeCalls, out0, out)
      requires err == err0
      modifies this`writeCalls, this`device, this`err, this`out
      ensures written && !last ==>
                PlainCopyAt(image, writeAnswer, c0, k + 1, os', cnt', device0, device, writeCalls, out0, out) &&
                err == err0
      ensures !written || last ==>
                PlainCopyOutcome(image, writeAnswer, c0, systemMessage, written, device0, device, writeCalls,
                                 out0, out, err0, err)
    {
      PlainStopsAtLast(image, k);
      var buffer := Block(image, k);
      ghost var w, d, o := writeCalls, device, out;
      written := WriteBlock(buffer, os);
      os', cnt', last := os, cnt, false;
      if !written {
        PlainCopyFailed(image, writeAnswer, c0, systemMessage, k, os, cnt, device0, d, w, out0, o, err0, device, err);
        return;
      }
      last, os', cnt' := BlockWritten(k, os, cnt, c0, device0, out0, err0, d, w);
    }

    /** The rest of a pass after block `k` was written at the offset `os` holds: the offset
        advances, the running count grows by the block's length and is printed, and `last`
        tells whether the block was short or reached the end of the file. */
    method BlockWritten(k: nat, os: Overlapped, cnt: nat, ghost c0: nat, ghost device0: map<nat, byte>,
                        ghost out0: string, ghost err0: string, ghost d: map<nat, byte>, ghost w: nat)
      returns (last: bool, os': Overlapped, cnt': nat)
      requires PlainCopyAt(image, writeAnswer, c0, k, os, cnt, device0, d, w, out0, out)
      requires k * BLOCK_SIZE <= |image|
      requires WriteBlockSucceeds(writeAnswer(w, |Block(image, k)|), |Block(image, k)|)
      requires device == Place(d, Position(os), BytesReachingDevice(writeAnswer(w, |Block(image, k)|), Block(image, k)))
      requires writeCalls == w + 1 && err == err0
      modifies this`out
      ensures !last ==> PlainCopyAt(image, writeAnswer, c0, k + 1, os', cnt', device0, device, writeCalls, out0, out)
      ensures last ==> PlainCopyOutcome(image, writeAnswer, c0, systemMessage, true, device0, device, writeCalls,
                                        out0, out, err0, err)
    {
      var buffer := Block(image, k);
      ghost var o := out;
      os' := Advance(os);
      cnt' := cnt + |buffer|;
      out := out + (NatToString(cnt') + "\n");
      last := |buffer| != BLOCK_SIZE || cnt' == |image|;
      PlainCopyWritten(image, writeAnswer, c0, systemMessage, k, os, cnt, device0, d, w, out0, o, err0,
                       device, cnt', out, last);
    }

    /** The copy loop of `writePlain`: blocks are written until the first short block or
        the end of the file, the running byte count printed after every written block, and
        the first failing block ends the copy. */
    method CopyBlocks() returns (ok: bool)
      modifies this`out, this`err, this`device, this`writeCalls
      ensures PlainCopyOutcome(image, writeAnswer, old(writeCalls), systemMessage, ok, old(device), device,
                               writeCalls, old(out), out, old(err), err)
    {
      ghost var c0 := writeCalls;
      ghost var device0 := device;
      ghost var out0 := out;
      ghost var err0 := err;
      var os := Overlapped(0, 0);
      var cnt: nat := 0;
      var k: nat := 0;
      while true
        invariant PlainCopyAt(image, writeAnswer, c0, k, os, cnt, device0, device, writeCalls, out0, out)
        invariant err == err0
        decreases PlainBlocks(|image|) - k
      {
        var written, last;
        written, last, os, cnt := CopyBlock(k, os, cnt, c0, device0, out0, err0);
        if !written || last {
          return written;
        }
        k := k + 1;
      }
    }

    /** `writePlain`: an unreadable image is reported on the output stream with exit
        request 1; otherwise the blocks are copied, a failing block requesting exit 1 and
        leaving the handle open, a complete copy closing it. */
    method WritePlain() returns (ok: bool)
      requires openHandles >= 1
      modifies this`out, this`err, this`exitRequests, this`device, this`writeCalls, this`openHandles
      ensures !imageReadable ==>
                !ok && out == old(out) + ImageNotReadableMessage && exitRequests == old(exitRequests) + [1] &&
                err == old(err) && device == old(device) && writeCalls == old(writeCalls) &&
                openHandles == old(openHandles)
      ensures imageReadable ==>
                && PlainCopyOutcome(image, writeAnswer, old(writeCalls), systemMessage, ok, old(device), device,
                                    writeCalls, old(out), out, old(err), err)
                && exitRequests == old(exitRequests) + (if ok then [] else [1])
                && openHandles == old(openHandles) - (if ok then 1 else 0)
    {
      if !imageReadable {
        out := out + ImageNotReadableMessage;
        exitRequests := exitRequests + [1];
        return false;
      }
      ghost var c0, device0, out0, err0 := writeCalls, device, out, err;
      ok := CopyBlocks();
      ghost var c1, device1, out1, err1 := writeCalls, device, out, err;
      assert PlainCopyOutcome(image, writeAnswer, c0, systemMessage, ok, device0, device1, c1, out0, out1, err0, err1);
      if ok {
        openHandles := openHandles - 1;
      } else {
        exitRequests := exitRequests + [1];
      }
      assert c1 == writeCalls && device1 == device && out1 == out && err1 == err;
    }

    /** The refill of `writeCompressed`: when the decoder has consumed all the input, the
        next block of the compressed file is read and the running count of bytes read is
        printed; `count` reads came before it. */
    method ReadInput(totalRead: nat, availIn: nat, ghost count: nat, ghost out0: string)
      returns (totalRead': nat, availIn': nat, ghost count': nat)
      requires totalRead == ReadTotal(|image|, count)
      requires out == out0 + CountLines(PlainCounts(|image|, count))
      modifies this`out
      ensures totalRead' == ReadTotal(|image|, count')
      ensures out == out0 + CountLines(PlainCounts(|image|, count'))
      ensures availIn == 0 ==> count' == count + 1 && availIn' == totalRead' - totalRead
      ensures availIn != 0 ==> count' == count && availIn' == availIn && out == old(out)
    {
      totalRead', availIn', count' := totalRead, availIn, count;
      if availIn == 0 {
        var len := if |image| - totalRead < BLOCK_SIZE then |image| - totalRead else BLOCK_SIZE;
        totalRead' := totalRead + len;
        availIn' := len;
        count' := count + 1;
        ReadTotalStep(|image|, count);
        CountLinesStep(out0, |image|, count, totalRead');
        out := out + NatToString(totalRead') + "\n";
      }
    }

    /** A `writeBlock` of the output buffer at the offset `os` holds, after the blocks
        `before`; `reaching` is what the device received of it. */
    method FlushOutput(outBuffer: seq<byte>, os: Overlapped, ghost device0: map<nat, byte>,
                       ghost before: seq<seq<byte>>, ghost w0: nat)
      returns (written: bool, ghost reaching: seq<byte>)
      requires device == PlaceBlocks(device0, before) && writeCalls == w0 + |before|
      requires os == OffsetAfter(|before|)
      modifies this`writeCalls, this`device, this`err
      ensures written == WriteBlockSucceeds(writeAnswer(old(writeCalls), |outBuffer|), |outBuffer|)
      ensures reaching == BytesReachingDevice(writeAnswer(old(writeCalls), |outBuffer|), outBuffer)
      ensures device == PlaceBlocks(device0, before + [reaching]) && writeCalls == w0 + |before| + 1
      ensures err == old(err) + WriteBlockError(writeAnswer(old(writeCalls), |outBuffer|), |outBuffer|, systemMessage)
    {
      reaching := BytesReachingDevice(writeAnswer(writeCalls, |outBuffer|), outBuffer);
      PlaceBlocksSnoc(device0, before, reaching);
      written := WriteBlock(outBuffer, os);
    }

    /** The drive holds `flushed` written after the device `device0` and `w0` earlier
        writes, nothing was reported and the handle is still open. */
    ghost predicate Written(flushed: seq<seq<byte>>, device0: map<nat, byte>, w0: nat, err0: string,
                            exits0: seq<int>, handles0: int)
      reads this`device, this`writeCalls, this`err, this`exitRequests, this`openHandles
    {
      && device == PlaceBlocks(device0, flushed) && writeCalls == w0 + |flushed|
      && err == err0 && exitRequests == exits0 && openHandles == handles0 && handles0 >= 1
    }

    /** The state of `writeCompressed` before call `i` of the decoder in `run`: the loop
        state of `DecodeLoopState`, the blocks written, and the read counts printed after
        `out0`. */
    ghost predicate Decoding(run: DecoderRun, i: nat, count: nat, totalRead: nat, availIn: nat,
                             outBuffer: seq<byte>, os: Overlapped, flushed: seq<seq<byte>>, decoded: seq<byte>,
                             device0: map<nat, byte>, w0: nat, out0: string, err0: string,
                             exits0: seq<int>, handles0: int)
      reads this`device, this`writeCalls, this`out, this`err, this`exitRequests, this`openHandles
    {
      && DecodeLoopState(|image|, run, i, count, totalRead, outBuffer, os, flushed, decoded)
      && Written(flushed, device0, w0, err0, exits0, handles0)
      && out == out0 + CountLines(PlainCounts(|image|, count))
      && (i == 0 ==> availIn == 0)
    }

    /** How `writeCompressed` ended after `count` reads of the image: the outcome of the
        copy, the handle closed, and what was decoded is a prefix of the whole decoded
        stream of `run`, all of it on success. */
    ghost predicate DecodingEnded(run: DecoderRun, ok: bool, count: nat, flushed: seq<seq<byte>>, decoded: seq<byte>,
                                  device0: map<nat, byte>, w0: nat, out0: string, err0: string,
                                  exits0: seq<int>, handles0: int)
      reads this`device, this`writeCalls, this`out, this`err, this`exitRequests, this`openHandles
    {
      && CompressedResult(run.lastRet, ok, flushed, decoded, err0, err, exits0, exitRequests)
      && device == PlaceBlocks(device0, flushed) && writeCalls == w0 + |flushed|
      && out == out0 + CountLines(PlainCounts(|image|, count))
      && count >= 1 && openHandles == handles0 - 1
      && (ok && |decoded| < TWO64 ==> device == Place(device0, 0, decoded))
      && decoded <= DecodedSoFar(run, |run.steps| + 1)
      && (ok ==> decoded == DecodedSoFar(run, |run.steps| + 1))
    }

    /** The state of `writeCompressed` once the output of call `i` of the decoder is in
        the output buffer: as in `Decoding`, except that the buffer may be full and the
        decoded stream now includes that call. */
    ghost predicate Replied(run: DecoderRun, i: nat, count: nat, totalRead: nat, outBuffer: seq<byte>,
                            os: Overlapped, flushed: seq<seq<byte>>, decoded: seq<byte>,
                            device0: map<nat, byte>, w0: nat, out0: string, err0: string,
                            exits0: seq<int>, handles0: int)
      reads this`device, this`writeCalls, this`out, this`err, this`exitRequests, this`openHandles
    {
      && ReplyState(|image|, run, i, count, totalRead, outBuffer, os, flushed, decoded)
      && Written(flushed, device0, w0, err0, exits0, handles0)
      && out == out0 + CountLines(PlainCounts(|image|, count))
    }

    /** The state of `writeCompressed` right after its output buffer was written out
        after reply `i`, before the outcome of that write is looked at. */
    ghost predicate AfterFlush(run: DecoderRun, i: nat, count: nat, flushed: seq<seq<byte>>, decoded: seq<byte>,
                               device0: map<nat, byte>, w0: nat, out0: string, exits0: seq<int>, handles0: int)
      reads this`device, this`writeCalls, this`out, this`err, this`exitRequests, this`openHandles
    {
      && i <= |run.steps| && count >= 1
      && decoded == DecodedSoFar(run, i + 1)
      && FullExceptLast(flushed) && Flatten(flushed) <= decoded
      && device == PlaceBlocks(device0, flushed) && writeCalls == w0 + |flushed|
      && out == out0 + CountLines(PlainCounts(|image|, count))
      && exitRequests == exits0 && openHandles == handles0 && handles0 >= 1
    }

    /** The write-out of `writeCompressed`'s output buffer after reply `i`, when it is
        full or the stream ended: a failed write requests exit 1, the end of the stream
        ends the copy with success, and otherwise the copy goes on with the offset advanced
        and the buffer emptied. */
    method FlushStep(run: DecoderRun, i: nat, ret: LzmaRet, outBuffer: seq<byte>, os: Overlapped, availIn: nat,
                     ghost count: nat, ghost totalRead: nat, ghost flushed: seq<seq<byte>>, ghost decoded: seq<byte>,
                     ghost device0: map<nat, byte>, ghost w0: nat, ghost out0: string, ghost err0: string,
                     ghost exits0: seq<int>, ghost handles0: int)
      returns (done: bool, ok: bool, os': Overlapped, ghost flushed': seq<seq<byte>>)
      requires ret == (if i < |run.steps| then LZMA_OK else run.lastRet)
      requires ret == LZMA_STREAM_END || (ret == LZMA_OK && |outBuffer| == BLOCK_SIZE)
      requires Replied(run, i, count, totalRead, outBuffer, os, flushed, decoded, device0, w0, out0, err0, exits0, handles0)
      modifies this`err, this`exitRequests, this`device, this`writeCalls, this`openHandles
      ensures !done ==> Decoding(run, i + 1, count, totalRead, availIn, [], os', flushed', decoded,
                                 device0, w0, out0, err0, exits0, handles0)
      ensures done ==> DecodingEnded(run, ok, count, flushed', decoded, device0, w0, out0, err0, exits0, handles0)
      ensures done && !ok ==> exitRequests == exits0 + [1]
    {
      var written;
      ghost var reaching;
      written, reaching := FlushOutput(outBuffer, os, device0, flushed, w0);
      FlushFacts(flushed, outBuffer, reaching, decoded);
      flushed' := flushed + [reaching];
      os' := os;
      done, ok := true, false;
      if !written {
        assert err[|err0|..] == WriteBlockError(writeAnswer(w0 + |flushed|, |outBuffer|), |outBuffer|, systemMessage);
        FlushFailed(run, i, count, flushed', decoded, device0, w0, out0, err0, exits0, handles0);
        return;
      }
      os' := Advance(os);
      if ret == LZMA_STREAM_END {
        StreamEnded(run, i, count, flushed', decoded, device0, w0, out0, err0, exits0, handles0);
        ok := true;
        return;
      }
      ReplyStateFlushed(|image|, run, i, count, totalRead, outBuffer, os, flushed, decoded);
      done := false;
    }

    /** A failed write of the output buffer: exit request 1 and the handle closed. */
    method FlushFailed(run: DecoderRun, i: nat, ghost count: nat, ghost flushed: seq<seq<byte>>, ghost decoded: seq<byte>,
                       ghost device0: map<nat, byte>, ghost w0: nat, ghost out0: string, ghost err0: string,
                       ghost exits0: seq<int>, ghost handles0: int)
      requires AfterFlush(run, i, count, flushed, decoded, device0, w0, out0, exits0, handles0)
      requires err0 < err && IsNotWritableText(err[|err0|..])
      modifies this`exitRequests, this`openHandles
      ensures DecodingEnded(run, false, count, flushed, decoded, device0, w0, out0, err0, exits0, handles0)
      ensures exitRequests == exits0 + [1]
    {
      WriteFailureResult(run, i, flushed, decoded, err0, err, exits0);
      exitRequests := exitRequests + [1];
      openHandles := openHandles - 1;
    }

    /** The end of the stream after the last block reached the device: the handle is
        closed and the device holds the whole decoded stream from offset 0. */
    method StreamEnded(run: DecoderRun, i: nat, ghost count: nat, ghost flushed: seq<seq<byte>>, ghost decoded: seq<byte>,
                       ghost device0: map<nat, byte>, ghost w0: nat, ghost out0: string, ghost err0: string,
                       ghost exits0: seq<int>, ghost handles0: int)
      requires AfterFlush(run, i, count, flushed, decoded, device0, w0, out0, exits0, handles0)
      requires i == |run.steps| && run.lastRet == LZMA_STREAM_END
      requires Flatten(flushed) == decoded && err == err0
      modifies this`openHandles
      ensures DecodingEnded(run, true, count, flushed, decoded, device0, w0, out0, err0, exits0, handles0)
    {
      openHandles := openHandles - 1;
      if |decoded| < TWO64 {
        PlaceBlocksFromZero(device0, flushed);
      }
    }

    /** What `writeCompressed` does with the return code `ret` of reply `i` once the decoded
        bytes are in the output buffer: the buffer is written out when it is full or the
        stream ended, and any other code than `LZMA_OK` and `LZMA_STREAM_END` is a decoder
        error that requests exit 4 after its message. */
    method AfterReply(run: DecoderRun, i: nat, ret: LzmaRet, outBuffer: seq<byte>, os: Overlapped, availIn: nat,
                      ghost count: nat, ghost totalRead: nat, ghost flushed: seq<seq<byte>>, ghost decoded: seq<byte>,
                      ghost device0: map<nat, byte>, ghost w0: nat, ghost out0: string, ghost err0: string,
                      ghost exits0: seq<int>, ghost handles0: int)
      returns (done: bool, ok: bool, outBuffer': seq<byte>, os': Overlapped, ghost flushed': seq<seq<byte>>)
      requires ret == (if i < |run.steps| then LZMA_OK else run.lastRet)
      requires Replied(run, i, count, totalRead, outBuffer, os, flushed, decoded, device0, w0, out0, err0, exits0, handles0)
      modifies this`err, this`exitRequests, this`device, this`writeCalls, this`openHandles
      ensures !done ==> Decoding(run, i + 1, count, totalRead, availIn, outBuffer', os', flushed', decoded,
                                 device0, w0, out0, err0, exits0, handles0)
      ensures done ==> DecodingEnded(run, ok, count, flushed', decoded, device0, w0, out0, err0, exits0, handles0)
    {
      done, ok, outBuffer', os', flushed' := false, false, outBuffer, os, flushed;
      if ret == LZMA_STREAM_END || (ret == LZMA_OK && |outBuffer| == BLOCK_SIZE) {
        done, ok, os', flushed' := FlushStep(run, i, ret, outBuffer, os, availIn, count, totalRead, flushed, decoded,
                                             device0, w0, out0, err0, exits0, handles0);
        if !done {
          outBuffer' := [];
        }
      } else if ret != LZMA_OK {
        DecoderFailed(run, i, ret, outBuffer, os, count, totalRead, flushed, decoded, device0, w0, out0, err0,
                      exits0, handles0);
        done := true;
      } else {
        ReplyStateContinues(|image|, run, i, count, totalRead, outBuffer, os, flushed, decoded);
      }
    }

    /** A return code other than `LZMA_OK` and `LZMA_STREAM_END`: its message, exit
        request 4, and the handle closed. */
    method DecoderFailed(run: DecoderRun, i: nat, ret: LzmaRet, outBuffer: seq<byte>, os: Overlapped,
                         ghost count: nat, ghost totalRead: nat, ghost flushed: seq<seq<byte>>, ghost decoded: seq<byte>,
                         ghost device0: map<nat, byte>, ghost w0: nat, ghost out0: string, ghost err0: string,
                         ghost exits0: seq<int>, ghost handles0: int)
      requires ret == (if i < |run.steps| then LZMA_OK else run.lastRet) && ret != LZMA_OK && ret != LZMA_STREAM_END
      requires Replied(run, i, count, totalRead, outBuffer, os, flushed, decoded, device0, w0, out0, err0, exits0, handles0)
      modifies this`err, this`exitRequests, this`openHandles
      ensures DecodingEnded(run, false, count, flushed, decoded, device0, w0, out0, err0, exits0, handles0)
    {
      DecoderFailureResult(run, i, ret, outBuffer, flushed, decoded, err0, exits0);
      err := err + DecoderErrorMessage(ret);
      exitRequests := exitRequests + [4];
      openHandles := openHandles - 1;
    }

    /** One pass of the decoding loop of `writeCompressed`, on reply `i` of the decoder:
        the input is refilled when the decoder has consumed all of it, the decoder takes
        at most the input available and fills at most the room left in the output buffer,
        and the buffer is then handled by `AfterReply`. `done` tells that the copy is over,
        with the outcome `ok`. */
    method DecodeStep(run: DecoderRun, i: nat, totalRead: nat, availIn: nat, outBuffer: seq<byte>, os: Overlapped,
                      ghost count: nat, ghost flushed: seq<seq<byte>>, ghost decoded: seq<byte>,
                      ghost device0: map<nat, byte>, ghost w0: nat, ghost out0: string, ghost err0: string,
                      ghost exits0: seq<int>, ghost handles0: int)
      returns (done: bool, ok: bool, totalRead': nat, availIn': nat, outBuffer': seq<byte>, os': Overlapped,
               ghost count': nat, ghost flushed': seq<seq<byte>>, ghost decoded': seq<byte>)
      requires Decoding(run, i, count, totalRead, availIn, outBuffer, os, flushed, decoded,
                        device0, w0, out0, err0, exits0, handles0)
      modifies this`out, this`err, this`exitRequests, this`device, this`writeCalls, this`openHandles
      ensures !done ==> Decoding(run, i + 1, count', totalRead', availIn', outBuffer', os', flushed', decoded',
                                 device0, w0, out0, err0, exits0, handles0)
      ensures done ==> DecodingEnded(run, ok, count', flushed', decoded', device0, w0, out0, err0, exits0, handles0)
    {
      totalRead', availIn', count' := ReadInput(totalRead, availIn, count, out0);
      var reply := ReplyAt(run, i);
      var ret := if i < |run.steps| then LZMA_OK else run.lastRet;
      var produced := Clamp(reply.produced, BLOCK_SIZE - |outBuffer|);
      ReplyStateAfterCall(|image|, run, i, count, totalRead, outBuffer, os, flushed, decoded, count', totalRead');
      availIn' := availIn' - (if reply.consumed <= availIn' then reply.consumed else availIn');
      decoded' := decoded + produced;
      done, ok, outBuffer', os', flushed' := AfterReply(run, i, ret, outBuffer + produced, os, availIn', count',
                                                         totalRead', flushed, decoded', device0, w0, out0, err0,
                                                         exits0, handles0);
    }

    /** `writeCompressed`: streams the image through one decoder instance. Input is read
        in blocks whenever the decoder has consumed all of it, printing the running count
        of compressed bytes read; output collects in a 64 KiB buffer that is written out
        whenever it is full, and once more, only its filled part, at the end of the stream.
        The handle is closed on every path after the decoder started. */
    method WriteCompressed() returns (ok: bool)
      requires openHandles >= 1
      modifies this`out, this`err, this`exitRequests, this`device, this`writeCalls, this`decoderCalls,
               this`openHandles, this`flushed, this`decoded, this`inputReads
      ensures !imageReadable ==>
                !ok && err == old(err) + ImageNotReadableMessage && exitRequests == old(exitRequests) + [1] &&
                out == old(out) && device == old(device) && writeCalls == old(writeCalls) &&
                decoderCalls == old(decoderCalls) && openHandles == old(openHandles)
      ensures imageReadable ==> decoderCalls == old(decoderCalls) + 1
      ensures imageReadable && decoderFor(old(decoderCalls)).initRet != LZMA_OK ==>
                !ok && err == old(err) + DecoderStartMessage && exitRequests == old(exitRequests) &&
                out == old(out) && device == old(device) && writeCalls == old(writeCalls) &&
                openHandles == old(openHandles)
      ensures imageReadable && decoderFor(old(decoderCalls)).initRet == LZMA_OK ==>
                DecodingEnded(decoderFor(old(decoderCalls)), ok, inputReads, flushed, decoded,
                              old(device), old(writeCalls), old(out), old(err), old(exitRequests), old(openHandles))
    {
      if !imageReadable {
        err := err + ImageNotReadableMessage;
        exitRequests := exitRequests + [1];
        return false;
      }
      var run := decoderFor(decoderCalls);
      decoderCalls := decoderCalls + 1;
      if run.initRet != LZMA_OK {
        err := err + DecoderStartMessage;
        return false;
      }
      ghost var d0, w0, o0, e0, x0, h0 := device, writeCalls, out, err, exitRequests, openHandles;
      ok, inputReads, flushed, decoded := DecodeAll(run);
    }

    /** The decoding loop of `writeCompressed` over the replies of one decoder instance
        that started, with the handle open. */
    method DecodeAll(run: DecoderRun) returns (ok: bool, ghost count: nat, ghost fl: seq<seq<byte>>, ghost dec: seq<byte>)
      requires openHandles >= 1
      modifies this`out, this`err, this`exitRequests, this`device, this`writeCalls, this`openHandles
      ensures DecodingEnded(run, ok, count, fl, dec, old(device), old(writeCalls), old(out), old(err),
                            old(exitRequests), old(openHandles))
    {
      ghost var device0, w0, out0, err0 := device, writeCalls, out, err;
      ghost var exits0, handles0 := exitRequests, openHandles;
      count, fl, dec := 0, [], [];
      var totalRead: nat := 0;
      var availIn: nat := 0;
      var outBuffer: seq<byte> := [];
      var os := Overlapped(0, 0);
      var i: nat := 0;
      while true
        invariant Decoding(run, i, count, totalRead, availIn, outBuffer, os, fl, dec,
                           device0, w0, out0, err0, exits0, handles0)
        decreases |run.steps| - i
      {
        var done;
        done, ok, totalRead, availIn, outBuffer, os, count, fl, dec :=
          DecodeStep(run, i, totalRead, availIn, outBuffer, os, count, fl, dec,
                     device0, w0, out0, err0, exits0, handles0);
        if done {
          return;
        }
        i := i + 1;
      }
    }

    /** The copy `write` makes once the drive is locked: the decoder path for a name
        ending in `.xz`, the plain path otherwise. Either path closes the handle when it
        succeeds. */
    method CopyImage() returns (ok: bool)
      requires openHandles >= 1
      modifies this`out, this`err, this`exitRequests, this`device, this`writeCalls, this`decoderCalls,
               this`openHandles, this`flushed, this`decoded, this`inputReads
      ensures ok ==> exitRequests == old(exitRequests) && openHandles == old(openHandles) - 1
      ensures !ok ==> |exitRequests| <= |old(exitRequests)| + 1
      ensures old(out) <= out
      ensures ok && !EndsWith(what, ".xz") && |image| < TWO64 ==> device == Place(old(device), 0, image)
      ensures ok && EndsWith(what, ".xz") ==>
                && Flatten(flushed) == decoded
                && (|decoded| < TWO64 ==> device == Place(old(device), 0, decoded))
                && decoded == DecodedSoFar(decoderFor(old(decoderCalls)), |decoderFor(old(decoderCalls)).steps| + 1)
    {
      if EndsWith(what, ".xz") {
        ok := WriteCompressed();
      } else {
        ghost var device0 := device;
        ghost var c0 := writeCalls;
        ghost var out0, err0 := out, err;
        ok := WritePlain();
        if ok && |image| < TWO64 {
          PlainCopyOutcomeLeavesImage(image, writeAnswer, c0, systemMessage, ok, device0, device, writeCalls,
                                      out0, out, err0, err);
        }
      }
    }

    /** `write`: opens and locks the drive, then copies the image the way its name asks
        for. A lock failure requests exit 1 and leaves a valid handle open. */
    method Write() returns (ok: bool)
      modifies this`out, this`err, this`exitRequests, this`device, this`writeCalls, this`decoderCalls,
               this`openHandles, this`openCalls, this`lockCalls, this`sleeps, this`flushed, this`decoded,
               this`inputReads, this`attempts
      ensures attempts == old(attempts) + [ok]
      ensures openCalls == old(openCalls) + 1
      ensures !LockSucceeds(lockAnswer, openAnswer(old(openCalls)), old(lockCalls)) ==>
                !ok && exitRequests == old(exitRequests) + [1] && device == old(device) &&
                writeCalls == old(writeCalls) &&
                openHandles == old(openHandles) + (if openAnswer(old(openCalls)) then 1 else 0)
      ensures ok ==> LockSucceeds(lockAnswer, openAnswer(old(openCalls)), old(lockCalls)) &&
                     exitRequests == old(exitRequests) && openHandles == old(openHandles)
      ensures ok && !EndsWith(what, ".xz") && |image| < TWO64 ==> device == Place(old(device), 0, image)
      ensures ok && EndsWith(what, ".xz") ==> Flatten(flushed) == decoded
      ensures ok && EndsWith(what, ".xz") && |decoded| < TWO64 ==> device == Place(old(device), 0, decoded)
      ensures ok && EndsWith(what, ".xz") ==>
                decoded == DecodedSoFar(decoderFor(old(decoderCalls)), |decoderFor(old(decoderCalls)).steps| + 1)
      ensures !ok ==> |exitRequests| <= |old(exitRequests)| + 1
      ensures old(out) <= out
      ensures old(sleeps) <= sleeps
    {
      var valid := OpenDrive();
      ghost var sleeps0 := sleeps;
      var locked := LockDrive(valid);
      PrefixThroughAppend(sleeps0, sleeps0, sleeps[|sleeps0|..]);
      if !locked {
        exitRequests := exitRequests + [1];
        attempts := attempts + [false];
        return false;
      }
      ok := CopyImage();
      attempts := attempts + [ok];
    }

    /** `check`: a compressed image is not checked; otherwise the drive is opened again and
        the embedded checksum is verified, its progress printed on the output stream. */
    method Check() returns (ok: bool)
      modifies this`out, this`err, this`exitRequests, this`openCalls, this`openHandles
      ensures ok <==> CheckStatus(what, mediaCheckCode) == 0
      ensures exitRequests == old(exitRequests) + [CheckStatus(what, mediaCheckCode)]
      ensures EndsWith(what, ".xz") ==>
                out == old(out) + ZippedNotice + "DONE\n" + "OK\n" && err == old(err) &&
                openCalls == old(openCalls) && openHandles == old(openHandles)
      ensures !EndsWith(what, ".xz") ==>
                out == old(out) + "CHECK\n" + CountLines(mediaCheckOffsets) + CheckVerdictText(mediaCheckCode) &&
                openCalls == old(openCalls) + 1 &&
                openHandles == old(openHandles) + (if openAnswer(old(openCalls)) then 1 else 0) &&
                err == old(err) + (if openAnswer(old(openCalls)) then "" else OpenFailMessage + " (" + systemMessage + ")\n")
    {
      if EndsWith(what, ".xz") {
        out := out + ZippedNotice + "DONE\n";
        out := out + "OK\n";
        exitRequests := exitRequests + [0];
        return true;
      }
      out := out + "CHECK\n";
      var valid := OpenDrive();
      out := out + CountLines(mediaCheckOffsets);
      out := out + CheckVerdictText(mediaCheckCode);
      var status := CheckExitCode(false, mediaCheckCode);
      exitRequests := exitRequests + [status];
      ok := status == 0;
    }

    /** The sequence `work` and `onFileChanged` share, seen from the state before it
        (`out0`, `sleeps0`, `attempts0`) and the state right after the first attempt
        (`firstOut`, `firstSleeps`): `WRITE` comes first; a first attempt that succeeded is
        not followed by a pause, one that failed is followed at once by a `0` line and a
        five-second pause, then the second and last attempt; the exit request is the verdict
        of `check()` after a success and 4 after two failures. */
    ghost predicate WriteSequence(out0: string, sleeps0: seq<nat>, attempts0: seq<bool>,
                                  firstOut: string, firstSleeps: seq<nat>)
      reads this`out, this`sleeps, this`attempts, this`exitRequests
    {
      && out0 + "WRITE\n" <= firstOut <= out
      && sleeps0 <= firstSleeps <= sleeps
      && attempts0 < attempts
      && (attempts[|attempts0|] ==> |attempts| == |attempts0| + 1 && sleeps == firstSleeps)
      && (!attempts[|attempts0|] ==>
            |attempts| == |attempts0| + 2 && firstOut + "0\n" <= out && firstSleeps + [RetrySleep] <= sleeps)
      && ExitCode() == Some(if attempts[|attempts| - 1] then CheckStatus(what, mediaCheckCode) else 4)
    }

    /** One call of `write`, as the retrying sequence sees it: an attempt is recorded and
        the output and the pauses only grow. */
    method Attempt() returns (ok: bool)
      modifies this`out, this`err, this`exitRequests, this`device, this`writeCalls, this`decoderCalls,
               this`openHandles, this`openCalls, this`lockCalls, this`sleeps, this`flushed, this`decoded,
               this`inputReads, this`attempts
      ensures attempts == old(attempts) + [ok]
      ensures old(out) <= out && old(sleeps) <= sleeps
    {
      ok := Write();
    }

    /** That sequence; `firstOut` and `firstSleeps` are the state after the first attempt. */
    method WriteAndCheck() returns (ghost firstOut: string, ghost firstSleeps: seq<nat>)
      modifies this`out, this`err, this`exitRequests, this`device, this`writeCalls, this`decoderCalls,
               this`openHandles, this`openCalls, this`lockCalls, this`sleeps, this`flushed, this`decoded,
               this`inputReads, this`attempts
      ensures WriteSequence(old(out), old(sleeps), old(attempts), firstOut, firstSleeps)
    {
      out := out + "WRITE\n";
      ghost var out1 := out;
      var success := Attempt();
      firstOut, firstSleeps := out, sleeps;
      if !success {
        out := out + "0\n";
        sleeps := sleeps + [RetrySleep];
        ghost var out2, sleeps2 := out, sleeps;
        success := Attempt();
        assert out2 <= out && sleeps2 <= sleeps;
      }
      assert out1 <= out;
      Conclude(success);
    }

    /** The end of that sequence: `check()` after a successful attempt, exit request 4
        after two failed ones. */
    method Conclude(success: bool)
      modifies this`out, this`err, this`exitRequests, this`openCalls, this`openHandles
      ensures old(out) <= out
      ensures ExitCode() == Some(if success then CheckStatus(what, mediaCheckCode) else 4)
    {
      if success {
        var _ := Check();
      } else {
        exitRequests := exitRequests + [4];
      }
    }

    /** `work`: when only the `.part` file of the image exists the download is still
        running, and the helper only starts watching that file. */
    method Work(partExists: bool, whatExists: bool) returns (ghost firstOut: string, ghost firstSleeps: seq<nat>)
      modifies this`out, this`err, this`exitRequests, this`device, this`writeCalls, this`decoderCalls,
               this`openHandles, this`openCalls, this`lockCalls, this`sleeps, this`flushed, this`decoded,
               this`inputReads, this`attempts, this`watched
      ensures partExists && !whatExists ==>
                watched == old(watched) + [what + ".part"] && out == old(out) &&
                exitRequests == old(exitRequests) && device == old(device) && attempts == old(attempts)
      ensures !(partExists && !whatExists) ==>
                watched == old(watched) &&
                WriteSequence(old(out), old(sleeps), old(attempts), firstOut, firstSleeps)
    {
      firstOut, firstSleeps := out, sleeps;
      if partExists && !whatExists {
        watched := watched + [what + ".part"];
        return;
      }
      firstOut, firstSleeps := WriteAndCheck();
    }

    /** `onFileChanged`: nothing while the watched `.part` file exists; exit request 4 when
        the final image is missing; otherwise the write sequence. */
    method OnFileChanged(pathExists: bool, whatExists: bool)
      returns (ghost firstOut: string, ghost firstSleeps: seq<nat>)
      modifies this`out, this`err, this`exitRequests, this`device, this`writeCalls, this`decoderCalls,
               this`openHandles, this`openCalls, this`lockCalls, this`sleeps, this`flushed, this`decoded,
               this`inputReads, this`attempts
      ensures pathExists ==>
                out == old(out) && exitRequests == old(exitRequests) && device == old(device) &&
                attempts == old(attempts)
      ensures !pathExists && !whatExists ==>
                exitRequests == old(exitRequests) + [4] && out == old(out) && device == old(device) &&
                attempts == old(attempts)
      ensures !pathExists && whatExists ==>
                WriteSequence(old(out), old(sleeps), old(attempts), firstOut, firstSleeps)
    {
      firstOut, firstSleeps := out, sleeps;
      if pathExists {
        return;
      }
      if !whatExists {
        exitRequests := exitRequests + [4];
        return;
      }
      firstOut, firstSleeps := WriteAndCheck();
    }
  }
}
