/** The resumable image download of the application, as the object that drives it: a
    staging file `<filePath>.part` opened for appending, a request that asks the server to
    continue at the end of that file, an automatic restart after a transport error, a
    chunked MD5 check of the finished file, and a single `finish` that records the result
    and keeps or removes the staging file.

    Each Qt slot is a method. What the surroundings answer is passed in: the reply's
    Content-Length header, its data and error state, whether a file write, open, read or
    rename succeeds, and the free space of the download folder. The MD5 digest is a
    function fixed with the object. Signals are appended to a log; the Range header of every
    request sent is logged in `requests`. */
module ImageDownloads {
  import opened Common

  /** `ImageDownload::Result`. */
  datatype Result = Success | DiskError | Md5CheckFail | Cancelled

  /** The signals the object emits, in order. */
  datatype Signal =
    | ProgressMaxChanged(total: nat)
    | Started
    | Progress(position: nat)
    | CancelRequested   // `cancelled()`, which also aborts the reply
    | Interrupted
    | StartedMd5Check
    | Finished

  /** How the staging file is open. */
  datatype FileMode = Closed | AppendOnly | ReadOnly

  /** The MD5 check reads the file in 64 KiB chunks. */
  const MD5_CHUNK: nat := 64 * 1024
  /** Below 5 MiB of free space a failed write is blamed on the disk being full. */
  const LOW_SPACE: nat := 5 * 1024 * 1024
  /** The delay before a request is sent again after a transport error, in milliseconds. */
  const RESTART_DELAY_MS: nat := 1000

  const OutOfSpaceMessage: string := "You ran out of space in your Downloads folder."
  const NotWritableMessage: string := "The downloaded file is not writable."
  const ReadFailMessage: string := "Failed to read from file while verifying"
  const RenameFailMessage: string := "Unable to rename the temporary file."

  /** The value of the `Range` header of a request sent when the staging file holds
      `size` bytes. */
  function RangeHeader(size: nat): (h: string)
    ensures |h| >= 8 && h[..6] == "bytes=" && h[|h| - 1] == '-'
  {
    "bytes=" + NatToString(size) + "-"
  }

  /** The first byte a server sends back for a `Range: bytes=<n>-` header: `n`; None when
      the header does not have that form. */
  function RangeStart(h: string): (r: Option<nat>)
    ensures r.Some? ==> |h| >= 8 && h[..6] == "bytes=" && h[|h| - 1] == '-'
  {
    if |h| >= 8 && h[..6] == "bytes=" && h[|h| - 1] == '-' && IsDigits(h[6..|h| - 1]) then
      Some(ParseNat(h[6..|h| - 1]))
    else
      None
  }

  /** Every (re)start asks for the bytes from the current size of the staging file on, so
      a resumed transfer continues exactly where the file ends. */
  lemma RangeHeaderResumesAtEnd(size: nat)
    ensures RangeStart(RangeHeader(size)) == Some(size)
  {
    var h := RangeHeader(size);
    assert h[6..|h| - 1] == NatToString(size);
    ParseNatToString(size);
  }

  /** The message of a failed write to the staging file, chosen by the free space left. */
  function DiskErrorMessage(bytesAvailable: nat): (m: string)
    ensures m == OutOfSpaceMessage <==> bytesAvailable < LOW_SPACE
    ensures m == NotWritableMessage <==> bytesAvailable >= LOW_SPACE
  {
    if bytesAvailable < LOW_SPACE then OutOfSpaceMessage else NotWritableMessage
  }

  /** `finish` closes and keeps the staging file for these results and removes it for
      every other one. */
  predicate KeepsStagingFile(r: Result) {
    r == Success || r == Cancelled
  }

  /** The number of bytes one `file->read(64 KiB)` returns at `pos` of `contents`, or
      0 when the read fails. */
  function ChunkLength(contents: seq<byte>, pos: nat, readable: bool): (n: nat)
    ensures n <= MD5_CHUNK
    ensures readable && pos < |contents| ==>
              0 < n && pos + n <= |contents| && (pos + n < |contents| ==> n == MD5_CHUNK)
    ensures !readable || pos >= |contents| ==> n == 0
  {
    if !readable || pos >= |contents| then 0
    else if |contents| - pos < MD5_CHUNK then |contents| - pos
    else MD5_CHUNK
  }

  /** The chunks successive successful reads return from `pos` to the end of the file. */
  function Chunks(contents: seq<byte>, pos: nat): seq<seq<byte>>
    decreases |contents| - pos
  {
    if pos >= |contents| then []
    else
      var n := ChunkLength(contents, pos, true);
      [contents[pos..pos + n]] + Chunks(contents, pos + n)
  }

  function Joined(chunks: seq<seq<byte>>): seq<byte> {
    if chunks == [] then [] else chunks[0] + Joined(chunks[1..])
  }

  /** The digest is fed exactly the rest of the file: the chunks join up to it. */
  lemma {:induction false} ChunksCoverRest(contents: seq<byte>, pos: nat)
    requires pos <= |contents|
    ensures Joined(Chunks(contents, pos)) == contents[pos..]
    decreases |contents| - pos
  {
    if pos < |contents| {
      var n := ChunkLength(contents, pos, true);
      var first, rest := contents[pos..pos + n], Chunks(contents, pos + n);
      ChunksCoverRest(contents, pos + n);
      assert Joined([first] + rest) == first + Joined(rest) by {
        assert ([first] + rest)[1..] == rest;
      }
      assert contents[pos..] == first + contents[pos + n..];
    }
  }

  /** Every chunk but the last is a full 64 KiB. */
  lemma {:induction false} ChunksAreFull(contents: seq<byte>, pos: nat)
    ensures forall j :: 0 <= j < |Chunks(contents, pos)| - 1 ==> |Chunks(contents, pos)[j]| == MD5_CHUNK
    decreases |contents| - pos
  {
    if pos < |contents| {
      var n := ChunkLength(contents, pos, true);
      var rest := Chunks(contents, pos + n);
      ChunksAreFull(contents, pos + n);
      if pos + n == |contents| {
        assert rest == [];
      }
      var all := [contents[pos..pos + n]] + rest;
      assert forall j :: 1 <= j < |all| ==> all[j] == rest[j - 1];
    }
  }

  class ImageDownload {
    const url: string
    const filePath: string
    const md5sum: string
    /** The lowercase hexadecimal MD5 digest of a byte string. */
    const md5Hex: seq<byte> -> string

    /** The name of the staging file: `<filePath>.part`, then `filePath` once renamed. */
    var fileName: string
    var fileExists: bool
    var mode: FileMode
    /** The contents of the staging file. */
    var staged: seq<byte>
    /** `file->pos()` while the file is open for reading. */
    var readPos: nat
    /** Everything fed to the running MD5 computation, in order. */
    var hashInput: seq<byte>
    var startingImageDownload: bool
    var wasCancelled: bool
    var result: Option<Result>
    var errorString: string
    var signals: seq<Signal>
    var requests: seq<string>
    /** A request was sent and its reply has not finished yet. */
    var replyActive: bool
    /** The one-second restart timer is running. */
    var restartPending: bool
    /** A `computeMd5` call is queued. */
    var md5Pending: bool

    /** The states the slots keep: the hash has seen exactly the part of the file read so
        far, a removed file holds nothing, and the MD5 check never overlaps a request. */
    ghost predicate Valid()
      reads this
    {
      && (mode == ReadOnly ==> fileExists && readPos <= |staged| && hashInput == staged[..readPos])
      && (md5Pending ==> mode == ReadOnly)
      && (!fileExists ==> staged == [] && mode == Closed)
      && (replyActive || restartPending ==> hashInput == [] && mode != ReadOnly && !md5Pending)
      && !(replyActive && restartPending)
    }

    /** The constructor: the staging file, which may already hold `existing` bytes from
        an earlier run, is opened for appending and the first request is sent. */
    constructor (url: string, filePath: string, md5sum: string, md5Hex: seq<byte> -> string, existing: seq<byte>)
      ensures Valid()
      ensures this.url == url && this.filePath == filePath && this.md5sum == md5sum && this.md5Hex == md5Hex
      ensures fileName == filePath + ".part" && fileExists && mode == AppendOnly && staged == existing
      ensures !wasCancelled && result == None && errorString == "" && signals == []
      ensures startingImageDownload && replyActive && !restartPending && !md5Pending
      ensures requests == [RangeHeader(|existing|)]
    {
      this.url := url;
      this.filePath := filePath;
      this.md5sum := md5sum;
      this.md5Hex := md5Hex;
      fileName := filePath + ".part";
      fileExists := true;
      mode := AppendOnly;
      staged := existing;
      readPos := 0;
      hashInput := [];
      startingImageDownload := false;
      wasCancelled := false;
      result := None;
      errorString := "";
      signals := [];
      requests := [];
      replyActive := false;
      restartPending := false;
      md5Pending := false;
      new;
      StartImageDownload();
    }

    /** `startImageDownload`: a request for the rest of the file, from its current size. */
    method StartImageDownload()
      requires !replyActive && !md5Pending && hashInput == [] && mode != ReadOnly
      modifies this`startingImageDownload, this`requests, this`replyActive
      ensures startingImageDownload && replyActive
      ensures requests == old(requests) + [RangeHeader(|staged|)]
    {
      startingImageDownload := true;
      requests := requests + [RangeHeader(|staged|)];
      replyActive := true;
    }

    /** The restart timer fired: the request is sent again. The timer does not look at
        `wasCancelled`. */
    method OnRestartTimer()
      requires Valid() && restartPending
      modifies this`startingImageDownload, this`requests, this`replyActive, this`restartPending
      ensures Valid()
      ensures !restartPending && startingImageDownload && replyActive
      ensures requests == old(requests) + [RangeHeader(|staged|)]
    {
      restartPending := false;
      StartImageDownload();
    }

    /** `finish`: records the result and its message, closes the staging file and
        removes it unless the result is Success or Cancelled. */
    method Finish(r: Result, message: string)
      requires Valid()
      modifies this`result, this`errorString, this`mode, this`fileExists, this`staged, this`signals,
               this`md5Pending
      ensures Valid()
      ensures result == Some(r) && errorString == message && mode == Closed && !md5Pending
      ensures fileExists == (old(fileExists) && KeepsStagingFile(r))
      ensures staged == (if KeepsStagingFile(r) then old(staged) else [])
      ensures signals == old(signals) + [Finished]
    {
      result := Some(r);
      errorString := message;
      mode := Closed;
      md5Pending := false;
      if !KeepsStagingFile(r) {
        fileExists := false;
        staged := [];
      }
      signals := signals + [Finished];
    }

    /** `cancel`: the first call marks the download cancelled, aborts the reply and
        finishes with Cancelled, which keeps the staging file; any later call does
        nothing. */
    method Cancel()
      requires Valid()
      modifies this`wasCancelled, this`result, this`errorString, this`mode, this`fileExists, this`staged,
               this`signals, this`md5Pending
      ensures Valid()
      ensures old(wasCancelled) ==> unchanged(this)
      ensures !old(wasCancelled) ==>
                && wasCancelled && result == Some(Cancelled) && errorString == ""
                && fileExists == old(fileExists) && staged == old(staged) && mode == Closed
                && signals == old(signals) + [CancelRequested, Finished]
    {
      if wasCancelled {
        return;
      }
      wasCancelled := true;
      signals := signals + [CancelRequested];
      Finish(Cancelled, "");
    }

    /** `rename_to_final_name`: Success after a rename, DiskError otherwise. */
    method RenameToFinalName(renameOk: bool)
      requires Valid()
      modifies this`fileName, this`result, this`errorString, this`mode, this`fileExists, this`staged,
               this`signals, this`md5Pending
      ensures Valid()
      ensures renameOk ==> fileName == filePath && result == Some(Success) && errorString == "" &&
                           fileExists == old(fileExists) && staged == old(staged)
      ensures !renameOk ==> fileName == old(fileName) && result == Some(DiskError) &&
                            errorString == RenameFailMessage && !fileExists && staged == []
      ensures mode == Closed && signals == old(signals) + [Finished]
    {
      if renameOk {
        fileName := filePath;
        Finish(Success, "");
      } else {
        Finish(DiskError, RenameFailMessage);
      }
    }

    /** `onImageDownloadReadyRead`: the first delivery of a (re)started request reports
        the progress maximum, when the reply carries a Content-Length, and `started`;
        data of a reply without error is appended to the staging file and the new size
        reported, and a failed write finishes with DiskError. The write succeeds when
        the file is open for appending and the file system accepts it (`writeOk`). */
    method OnReadyRead(contentLength: Option<nat>, data: seq<byte>, replyOk: bool, writeOk: bool,
                       bytesAvailable: nat)
      requires Valid() && replyActive
      modifies this`startingImageDownload, this`staged, this`signals, this`result, this`errorString,
               this`mode, this`fileExists, this`md5Pending
      ensures Valid() && !startingImageDownload
      ensures var opening := if !old(startingImageDownload) then []
                             else if contentLength.Some? then [ProgressMaxChanged(|old(staged)| + contentLength.value), Started]
                             else [Started];
              && (!replyOk || data == [] ==>
                    signals == old(signals) + opening && staged == old(staged) && result == old(result) &&
                    fileExists == old(fileExists))
              && (replyOk && data != [] && writeOk && old(mode) == AppendOnly ==>
                    staged == old(staged) + data && signals == old(signals) + opening + [Progress(|staged|)] &&
                    result == old(result) && fileExists == old(fileExists))
              && (replyOk && data != [] && !(writeOk && old(mode) == AppendOnly) ==>
                    result == Some(DiskError) && errorString == DiskErrorMessage(bytesAvailable) &&
                    !fileExists && staged == [] && signals == old(signals) + opening + [Finished])
    {
      if startingImageDownload {
        startingImageDownload := false;
        if contentLength.Some? {
          signals := signals + [ProgressMaxChanged(|staged| + contentLength.value)];
        }
        signals := signals + [Started];
      }
      if replyOk && |data| > 0 {
        if writeOk && mode == AppendOnly {
          staged := staged + data;
          signals := signals + [Progress(|staged|)];
        } else {
          Finish(DiskError, DiskErrorMessage(bytesAvailable));
        }
      }
    }

    /** `onImageDownloadFinished`: ignored after a cancel. A reply without error either
        renames the file at once (no md5sum to compare with) or reopens it for reading
        and queues the MD5 check, finishing with Md5CheckFail when it cannot be opened.
        A transport error never finishes: it reports `interrupted` and starts the restart
        timer. */
    method OnFinished(replyOk: bool, openOk: bool, renameOk: bool)
      requires Valid() && replyActive
      modifies this`replyActive, this`fileName, this`result, this`errorString, this`mode, this`fileExists,
               this`staged, this`signals, this`md5Pending, this`readPos, this`restartPending
      ensures Valid() && !replyActive
      ensures old(wasCancelled) ==>
                && result == old(result) && errorString == old(errorString) && fileExists == old(fileExists)
                && staged == old(staged) && signals == old(signals) && mode == old(mode)
                && !restartPending && !md5Pending
      ensures !old(wasCancelled) && !replyOk ==>
                && result == old(result) && fileExists == old(fileExists) && staged == old(staged)
                && signals == old(signals) + [Interrupted] && restartPending
      ensures !old(wasCancelled) && replyOk && md5sum == [] ==>
                && result == Some(if renameOk then Success else DiskError)
                && (renameOk ==> fileName == filePath && fileExists == old(fileExists) && staged == old(staged))
                && (!renameOk ==> errorString == RenameFailMessage && !fileExists)
      ensures !old(wasCancelled) && replyOk && md5sum != [] ==>
                && (openOk && old(fileExists) ==>
                      mode == ReadOnly && readPos == 0 && md5Pending && result == old(result) &&
                      staged == old(staged) && signals == old(signals) + [StartedMd5Check])
                && (!(openOk && old(fileExists)) ==>
                      result == Some(Md5CheckFail) && errorString == "" && !fileExists && staged == [])
    {
      replyActive := false;
      if wasCancelled {
        return;
      }
      if replyOk {
        if md5sum == [] {
          RenameToFinalName(renameOk);
        } else {
          mode := Closed;
          if openOk && fileExists {
            mode := ReadOnly;
            readPos := 0;
            signals := signals + [StartedMd5Check];
            md5Pending := true;
          } else {
            Finish(Md5CheckFail, "");
          }
        }
      } else {
        signals := signals + [Interrupted];
        restartPending := true;
      }
    }

    /** `computeMd5`: ignored after a cancel. Otherwise the next chunk of at most 64 KiB
        is read and hashed and the read position reported; a read that returns nothing
        finishes with Md5CheckFail. At the end of the file the digest, which has then seen
        the whole file, is compared with `md5sum` exactly: a match renames the file, a
        mismatch finishes with Md5CheckFail. Before the end the check queues itself
        again. */
    method ComputeMd5(readOk: bool, renameOk: bool)
      requires Valid() && md5Pending
      modifies this`md5Pending, this`readPos, this`hashInput, this`signals, this`fileName, this`result,
               this`errorString, this`mode, this`fileExists, this`staged
      ensures Valid()
      ensures old(wasCancelled) ==>
                && !md5Pending && readPos == old(readPos) && signals == old(signals) && result == old(result)
                && staged == old(staged) && fileExists == old(fileExists)
      ensures !old(wasCancelled) ==>
                var n := ChunkLength(old(staged), old(readPos), readOk);
                && (n == 0 ==>
                      result == Some(Md5CheckFail) && errorString == ReadFailMessage && !fileExists &&
                      !md5Pending)
                && (n > 0 && old(readPos) + n < |old(staged)| ==>
                      readPos == old(readPos) + n && md5Pending && result == old(result) &&
                      staged == old(staged) && signals == old(signals) + [Progress(readPos)])
                && (n > 0 && old(readPos) + n == |old(staged)| ==>
                      && !md5Pending && |signals| > |old(signals)|
                      && signals[..|old(signals)| + 1] == old(signals) + [Progress(|old(staged)|)]
                      && result == Some(if md5Hex(old(staged)) != md5sum then Md5CheckFail
                                        else if renameOk then Success else DiskError)
                      && fileExists == (md5Hex(old(staged)) == md5sum && renameOk))
    {
      md5Pending := false;
      if wasCancelled {
        return;
      }
      var n := ChunkLength(staged, readPos, readOk);
      if n == 0 {
        Finish(Md5CheckFail, ReadFailMessage);
        return;
      }
      ghost var before := signals;
      hashInput := hashInput + staged[readPos..readPos + n];
      assert staged[..readPos + n] == staged[..readPos] + staged[readPos..readPos + n];
      readPos := readPos + n;
      signals := signals + [Progress(readPos)];
      if readPos == |staged| {
        assert hashInput == staged;
        var computed := md5Hex(hashInput);
        if computed == md5sum {
          RenameToFinalName(renameOk);
        } else {
          Finish(Md5CheckFail, "");
        }
        assert signals[..|before| + 1] == before + [Progress(readPos)];
      } else {
        md5Pending := true;
      }
    }
  }
}
