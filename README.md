# ALT Media Writer: a verified model of the download, write and release-list core

ALT Media Writer downloads an ALT Linux image and writes it to a USB drive. This
project models the parts of it that decide what ends up on the drive and what the
user is offered. Each part is a Dafny module:

- **`WriteBlocks`** (`write_blocks.dfy`, pure) and **`WriteJob`** (`write_job.dfy`,
  a class):
  - the Windows write helper (`helper/win/writejob.cpp`);
  - it waits for the `.part` download to disappear, then opens and locks the drive
    with at most ten attempts;
  - it copies the image in 64 KiB blocks, plain or through the xz decoder, and
    carries the 64-bit device offset in the two 32-bit words of an `OVERLAPPED`
    record;
  - it retries a failed write once, then runs the media check;
  - every status it prints, and every exit code it requests, is recorded.
- **`ImageDownloads`** (`image_download.dfy`, a class) is the resumable download
  (`app/image_download.cpp`):
  - it keeps a `.part` staging file and asks the server to continue at its end;
  - it restarts after a transport error;
  - it checks the MD5 sum in 64 KiB chunks;
  - a single `finish` keeps or removes the staging file.
- **`Releases`** (`release_manager.dfy`, mixed) is the release list
  (`app/releasemanager.cpp`):
  - the YAML text clean-up;
  - where each release and each variant goes in its list;
  - validation of the entries of an image file;
  - the row filter and the file-dialog filters;
  - the bounds-checked accessors and the selection setters.
- **`Architectures`** (`architecture.dfy`, pure) holds the architecture tables
  and the first-match lookups by alias and by file name (`app/architecture.cpp`).
- **`HelperMain`** (`helper_main.dfy`, pure) is the helper's command-line
  dispatch (`helper/linux/main.cpp`).
- **`Common`** (`common.dfy`) holds shared pieces:
  - ASCII case folding;
  - substring search;
  - Qt's replace-all;
  - the decimal text of a count.

The surroundings are parameters fixed when an object is made, or arguments of the
method that needs them. This covers:

- the file system and the drive;
- the Win32 calls and the xz decoder;
- the MD5 digest and the media check;
- the network reply.

The k-th call to such an oracle is answered by entry k of a function, counted by a
field.

## Model

| member | source | states |
|---|---|---|
| WriteBlocks.Advance | helper/win/writejob.cpp:339-342 | after a block, the position the two DWORDs denote grows by exactly 65536 modulo 2^64, and both words stay 32-bit (the carry into `OffsetHigh` on wrap) |
| WriteBlocks.OffsetAfterWraps | helper/win/writejob.cpp:414-417 | after k blocks the record denotes k·65536 mod 2^64 |
| WriteBlocks.OffsetAfterPosition | helper/win/writejob.cpp:40 | below 2^64 the k-th block lands at k·BLOCK_SIZE, even when the previous block was short |
| WriteBlocks.PlaceFacts | helper/win/writejob.cpp:188-213 | writing `data` at a position sets exactly those bytes of the device and leaves every other byte as it was |
| WriteBlocks.PlaceConcat | helper/win/writejob.cpp:407-425 | two adjacent writes leave the device as one write of the concatenation |
| WriteBlocks.PlaceBlocksContiguous | helper/win/writejob.cpp:407-425 | blocks that are all full except the last, written at successive offsets, put their concatenation at offset 0 |
| WriteBlocks.BytesReachingDevice | helper/win/writejob.cpp:193-210 | the device receives a prefix of the block: none of it after an immediate error, all of it when the write succeeds |
| WriteBlocks.WriteBlockError | helper/win/writejob.cpp:188-213 | `writeBlock` reports nothing exactly when the call succeeded or was pending and wrote every byte; otherwise it reports "Destination drive is not writable" |
| WriteBlocks.Block | helper/win/writejob.cpp:408 | the k-th read is the slice of the image at k·65536, of at most 65536 bytes, and shorter only at the end of the file |
| WriteBlocks.PlainBlocksBounds | helper/win/writejob.cpp:422-424 | the copy loop makes another pass exactly while the next block starts before the end of the image |
| WriteBlocks.PlainStopsAtLast | helper/win/writejob.cpp:422-424 | the loop stops after the first read shorter than a block or at the end of the file, which is the last block |
| WriteBlocks.PlainCountsProperties | helper/win/writejob.cpp:418-420 | the printed counts never decrease and never exceed the image size, and the last count of a full copy is the image size |
| WriteBlocks.ProgressCountIsBytesRead | helper/win/writejob.cpp:418 | each printed count is the number of bytes read so far |
| WriteBlocks.FirstPlainFailureIsFirst | helper/win/writejob.cpp:409-412 | every block before the first failing one was written successfully |
| WriteBlocks.FirstPlainFailureFails | helper/win/writejob.cpp:409-412 | the block where the copy stops early really failed |
| WriteBlocks.PlainFailureText | helper/win/writejob.cpp:409-412 | the plain copy prints an error exactly when some block fails, and that error is the not-writable message |
| WriteBlocks.FlattenAllBlocks | helper/win/writejob.cpp:407-425 | the blocks the loop reads join up to the whole image |
| WriteBlocks.PlainWrittenIsPrefix | helper/win/writejob.cpp:407-425 | what reaches the device is always a prefix of the image, and the whole image when no write fails |
| WriteBlocks.PlainCopyLeavesImage | helper/win/writejob.cpp:407-425 | the device after the blocks equals one write of that prefix at offset 0, and of the whole image when no write fails |
| WriteBlocks.PlainCopyOutcomeLeavesImage | helper/win/writejob.cpp:388-430 | a plain copy that reports success leaves the image at the start of the device |
| WriteBlocks.LockTriesFromFacts | helper/win/writejob.cpp:89-115 | the attempts before the last one all failed, and the last either succeeded or was the tenth |
| WriteBlocks.LockSpec | helper/win/writejob.cpp:89-115 | `lockDrive` makes 1 to 10 attempts, returns true exactly when one of the ten would succeed, and gives up right after the tenth failure |
| WriteBlocks.LockSleeps | helper/win/writejob.cpp:89-115 | it sleeps two seconds between attempts, once per failed attempt that is followed by another |
| WriteBlocks.InvalidHandleNeverLocks | helper/win/writejob.cpp:89-115 | with an invalid handle every attempt fails and all ten are made |
| WriteBlocks.DecoderErrorMessage | helper/win/writejob.cpp:348-368 | MEM maps to the memory message; FORMAT, DATA and BUF map to "corrupted"; OPTIONS maps to "unsupported options"; every other code maps to "unknown" (both directions) |
| WriteBlocks.ReadTotalStep | helper/win/writejob.cpp:320-328 | the running total of compressed bytes grows by one read of at most 65536 bytes, the rest of the file when less is left |
| WriteBlocks.FlushFacts | helper/win/writejob.cpp:331-347 | handing the filled buffer to the device keeps the flushed blocks full except the last, and their concatenation is what the decoder produced |
| WriteBlocks.Clamp | helper/win/writejob.cpp:313-330 | one call of the decoder yields a prefix of what the reply offers, no longer than the room left in the output buffer, and all of it when it fits |
| WriteBlocks.DecodedSoFarGrows | helper/win/writejob.cpp:319-384 | the decoded stream of a decoder run only grows from one call to the next: each earlier stream is a prefix of every later one |
| WriteBlocks.DecodedSoFarStep | helper/win/writejob.cpp:319-384 | when the output buffer holds what follows the full blocks written so far, the next call appends its reply cut at the room `BLOCK_SIZE - avail_out` leaves |
| WriteBlocks.BlockRemainder | helper/win/writejob.cpp:370-383 | after k full blocks the fill level of the output buffer is the length of the decoded stream modulo 65536 |
| WriteBlocks.ReplyStateAfterCall | helper/win/writejob.cpp:319-330 | the loop state before a decoder call, with one more input read printed, becomes the state after it, with the call's output appended to the buffer and to the decoded stream |
| WriteBlocks.ReplyStateContinues | helper/win/writejob.cpp:370-384 | a reply that returned LZMA_OK without filling the buffer leaves the loop state of the next call |
| WriteBlocks.ReplyStateFlushed | helper/win/writejob.cpp:370-383 | a full buffer written out becomes one more full block, the offset advances, the buffer is empty, and the decoded stream is unchanged |
| WriteBlocks.WriteFailureResult | helper/win/writejob.cpp:333-337 | a failed write of the output buffer ends the copy as a failure with exit 1 after the not-writable message, and what was decoded is a prefix of the whole decoded stream |
| WriteBlocks.DecoderFailureResult | helper/win/writejob.cpp:347-368 | a decoder error ends the copy as a failure with exit 4 after its message, with only full blocks written and what was decoded a prefix of the whole decoded stream |
| WriteBlocks.CheckExitCode | helper/win/writejob.cpp:470-521 | the media check's status is 0 exactly for an `.xz` image, CHECK_PASSED or CHECK_NOT_FOUND; every other code gives 1 |
| WriteBlocks.CheckVerdictText | helper/win/writejob.cpp:494-518 | "DONE"/"OK" is printed exactly when the status is 0, and "probably damaged" exactly for CHECK_FAILED |
| WriteJob.CheckStatus | helper/win/writejob.cpp:474-518 | the status of `check()` is 0 or 1, and 0 exactly when the image ends in `.xz` or the media check passed or found no checksum |
| WriteJob.Job.ExitCode | helper/win/writejob.cpp:262 | the process status is the last exit code requested, and there is none before any request |
| WriteJob.Job.OpenDrive | helper/win/writejob.cpp:70-87 | the handle is valid exactly when the system answers so; an invalid one is reported with the system's message |
| WriteJob.Job.LockDrive | helper/win/writejob.cpp:89-115 | the result and the number of lock calls and sleeps are those of `LockSpec`; a failure is reported |
| WriteJob.Job.WriteBlock | helper/win/writejob.cpp:188-213 | one `WriteFile` call; the device gets `BytesReachingDevice` at the record's position, and the error stream gets `WriteBlockError` |
| WriteJob.Job.CopyBlock | helper/win/writejob.cpp:407-425 | one pass of the plain loop: it keeps the copy invariant, or ends in the copy's outcome |
| WriteJob.Job.BlockWritten | helper/win/writejob.cpp:414-424 | after a block is written: the offset advances, the count grows by the block and is printed, and the copy either continues with the invariant kept for the next block or ends as a success with every block so far on the device |
| WriteJob.Job.CopyBlocks | helper/win/writejob.cpp:407-430 | the plain loop ends in `PlainCopyOutcome`: success exactly when every block was written, the device holds the written prefix, and the counts are on stdout |
| WriteJob.Job.WritePlain | helper/win/writejob.cpp:388-430 | an unreadable image prints the message and requests exit 1; otherwise the copy outcome holds, a failure requests exit 1 and leaves the handle open, and success closes it |
| WriteJob.Job.ReadInput | helper/win/writejob.cpp:320-328 | when the decoder has consumed all input, one more read of at most 65536 bytes is added to the running total and the total is printed; otherwise nothing is read or printed |
| WriteJob.Job.FlushOutput | helper/win/writejob.cpp:331-347 | one output block goes to the device at the next offset |
| WriteJob.Job.FlushStep | helper/win/writejob.cpp:331-384 | at STREAM_END only the filled prefix is written and the copy ends, on success with the whole decoded stream at offset 0; a full buffer is written, the offset advanced and the buffer reset, keeping the loop state; a failed write requests exit 1 |
| WriteJob.Job.FlushFailed | helper/win/writejob.cpp:333-337 | a failed write requests exit 1, closes the handle and ends the copy as a failure |
| WriteJob.Job.StreamEnded | helper/win/writejob.cpp:331-345 | at the end of the stream the handle is closed and the device holds the whole decoded stream from offset 0 |
| WriteJob.Job.DecoderFailed | helper/win/writejob.cpp:347-368 | any code other than LZMA_OK and LZMA_STREAM_END prints its message, requests exit 4 and closes the handle |
| WriteJob.Job.AfterReply | helper/win/writejob.cpp:331-384 | after one decoder reply the job flushes, stops on a decoder error with its message and exit 4, or continues; in every case the decoded data is what the run's replies produced so far |
| WriteJob.Job.DecodeStep | helper/win/writejob.cpp:319-385 | one pass of the decompression loop keeps the loop state: the device holds the full flushed blocks, the decoded data equals them plus the buffer, and the decoded data is exactly `DecodedSoFar` of the decoder's replies up to this call |
| WriteJob.Job.DecodeAll | helper/win/writejob.cpp:319-386 | the decompression loop ends in `CompressedResult` with the handle closed; what was decoded is a prefix of the whole decoded stream of the decoder's replies, all of it on success, and then it is on the device from offset 0 |
| WriteJob.Job.WriteCompressed | helper/win/writejob.cpp:283-386 | an unreadable file requests exit 1; a decoder that will not start returns false with no exit; otherwise the loop's outcome holds for the replies of that decoder instance and the handle is closed |
| WriteJob.Job.Write | helper/win/writejob.cpp:266-281 | a lock failure requests exit 1 and writes nothing; a success leaves the image (plain) or the whole decoded stream of the decoder's replies (xz) at the start of the device |
| WriteJob.Job.Check | helper/win/writejob.cpp:470-521 | an `.xz` image skips the media check and prints DONE and OK; otherwise CHECK and the progress are printed; the exit code is `CheckStatus` |
| WriteJob.Job.CopyImage | helper/win/writejob.cpp:276-280 | a name ending in `.xz` goes through the decoder and any other through the plain copy; success closes the handle and leaves the image or the decoded stream at offset 0 |
| WriteJob.Job.Attempt | helper/win/writejob.cpp:247-256 | each attempt is recorded, and the output and the pauses only grow |
| WriteJob.Job.WriteAndCheck | helper/win/writejob.cpp:243-263 | `WriteSequence`: WRITE first; a first attempt that succeeded is not followed by a pause; one that failed is followed at once by the `0` line and the five-second pause, then exactly one more attempt; the status is that of the check on success and 4 after two failures |
| WriteJob.Job.Conclude | helper/win/writejob.cpp:259-263 | after a success the status is that of `check()`; after two failures it is 4 |
| WriteJob.Job.Work | helper/win/writejob.cpp:227-264 | with `.part` present and the image absent it only watches the `.part` file; otherwise the write sequence runs, as `WriteSequence` states |
| WriteJob.Job.OnFileChanged | helper/win/writejob.cpp:432-468 | nothing happens while the `.part` file exists; a missing image requests exit 4; otherwise the write sequence runs, as `WriteSequence` states |
| ImageDownloads.RangeHeader | app/image_download.cpp:203 | the request header has the form `bytes=<n>-` |
| ImageDownloads.RangeHeaderResumesAtEnd | app/image_download.cpp:195-218 | the range a request asks for starts exactly at the current size of the staging file |
| ImageDownloads.DiskErrorMessage | app/image_download.cpp:104-110 | a failed write reports "ran out of space" exactly when less than 5 MiB is free, and "not writable" otherwise |
| ImageDownloads.ChunkLength | app/image_download.cpp:163 | one read returns at most 64 KiB, and less only at the end of the file; a failed read returns nothing |
| ImageDownloads.ChunksCoverRest | app/image_download.cpp:158-193 | the chunks that successive reads return join up to exactly the rest of the file |
| ImageDownloads.ChunksAreFull | app/image_download.cpp:163 | every chunk but the last is a full 64 KiB |
| ImageDownloads.ImageDownload.constructor | app/image_download.cpp:33-52 | the staging file is `<filePath>.part`, opened for appending, and the first request resumes at its current size |
| ImageDownloads.ImageDownload.StartImageDownload | app/image_download.cpp:195-218 | a request is sent whose Range starts at the size of the staging file |
| ImageDownloads.ImageDownload.OnRestartTimer | app/image_download.cpp:151-154 | when the one-second timer fires, the request is sent again from the current end of the file |
| ImageDownloads.ImageDownload.Finish | app/image_download.cpp:232-250 | records the result and message and closes the file; the file is kept only for Success and Cancelled, otherwise removed; `finished` is emitted |
| ImageDownloads.ImageDownload.Cancel | app/image_download.cpp:62-73 | a second cancel changes nothing; the first emits `cancelled` and finishes with Cancelled, keeping the staging file |
| ImageDownloads.ImageDownload.RenameToFinalName | app/image_download.cpp:220-230 | a successful rename gives the final name and Success; a failed one finishes with DiskError and the rename message |
| ImageDownloads.ImageDownload.OnReadyRead | app/image_download.cpp:75-115 | the first delivery emits the total size, if known, and `started`; received data is appended and its progress reported; a failed write finishes with DiskError and the free-space message |
| ImageDownloads.ImageDownload.OnFinished | app/image_download.cpp:117-156 | after a cancel nothing changes; an error emits `interrupted` and schedules a restart; with no MD5 sum the file is renamed; otherwise the MD5 check starts, or fails when the file cannot be opened |
| ImageDownloads.ImageDownload.ComputeMd5 | app/image_download.cpp:158-193 | one chunk is hashed per call, keeping the hash fed with exactly the part of the file read; a failed read is Md5CheckFail; at the end a digest different from the expected sum is Md5CheckFail, otherwise the file is renamed |
| Architectures.Index | app/architecture.cpp:29-31 | the enum positions run from 0 to COUNT |
| Architectures.FromIndex | app/architecture.cpp:29-31 | the cast from an index gives the architecture at that position |
| Architectures.All | app/architecture.cpp:25-37 | the intended enumeration: every architecture before COUNT, in enum order |
| Architectures.Strings | app/architecture.cpp:39-54 | ALL, UNKNOWN and COUNT have no aliases, and every other architecture has some |
| Architectures.Name | app/architecture.cpp:56-71 | every architecture but COUNT has a non-empty name |
| Architectures.ListContainsIgnoreCase | app/architecture.cpp:77 | `strings.contains(s, CaseInsensitive)` holds exactly when some alias equals `s` up to ASCII case |
| Architectures.AnyAliasIn | app/architecture.cpp:88-92 | holds exactly when some alias occurs in the file name up to ASCII case |
| Architectures.FirstWhere | app/architecture.cpp:73-95 | the first-match scan returns UNKNOWN or a listed architecture that passes the test |
| Architectures.FirstWhereStopsEarly | app/architecture.cpp:73-95 | when the entry at position i passes, the scan returns it or an earlier one |
| Architectures.FromString | app/architecture.cpp:73-82 | the result is UNKNOWN or an architecture one of whose aliases equals the text; it is never ALL or COUNT |
| Architectures.FromFilename | app/architecture.cpp:84-95 | the result is UNKNOWN or an architecture one of whose aliases occurs in the name; it is never ALL or COUNT |
| Architectures.FromStringIsFirst | app/architecture.cpp:73-82 | whenever some architecture matches, the lookup finds one, and the first in enum order |
| Architectures.FromFilenameIsFirst | app/architecture.cpp:84-95 | whenever some architecture's alias occurs in the name, the lookup finds one, and the first in enum order |
| Architectures.StringMatchImpliesFilenameMatch | app/architecture.cpp:73-95 | a name that is an alias also resolves as a file name, to the same or an earlier architecture |
| HelperMain.DispatchArguments | helper/linux/main.cpp:37-45 | restore exactly for three arguments with `restore`, write exactly for five with `write`, otherwise a usage error with status 1 |
| HelperMain.WrongCountIsUsage | helper/linux/main.cpp:37-45 | any other argument count is a usage error |
| HelperMain.CaseVariantIsUsage | helper/linux/main.cpp:37-39 | the sub-command is compared case-sensitively |
| Releases.YmlToQString | app/releasemanager.cpp:65-76 | the cleaned text has no newline and is never longer than the input |
| Releases.YmlPlainTextUnchanged | app/releasemanager.cpp:65-76 | text without `&colon;`, `&nbsp;` and newlines passes through unchanged |
| Releases.Get | app/releasemanager.cpp:614-618 | null out of range, the release at that row otherwise |
| Releases.Selected | app/releasemanager.cpp:372-376 | null when the selected row does not exist, that row's release otherwise |
| Releases.SelectedVariant | app/releasemanager.cpp:732-736 | null when the stored index is out of range, that variant otherwise |
| Releases.CurrentVariant | app/releasemanager.cpp:389-397 | the selected variant of the selected release, null when either index is out of range |
| Releases.FilterAcceptsRow | app/releasemanager.cpp:124-149 | on the front page a row is shown exactly when row < 3; otherwise the custom release is always shown, and any other release exactly when it has a variant of the filter architecture |
| Releases.IndexOf | app/releasemanager.cpp:482 | the position of the first equal extension, the end when there is none |
| Releases.Extensions | app/releasemanager.cpp:471-491 | empty exactly for a type without extensions; otherwise "(" and the patterns, each preceded by a space unless its first occurrence is at position 0, and ")" |
| Releases.DistinctExtensionsAreSpaced | app/releasemanager.cpp:481-487 | with distinct extensions the patterns are `*.e1 *.e2 …`, separated by single spaces |
| Releases.FileNameFilters | app/releasemanager.cpp:465-506 | one `name (…)` filter per image type with extensions, in order, and "All files (*)" last |
| Releases.WithExtensionsShape | app/releasemanager.cpp:493-500 | the number of type filters is the number of types with a non-empty extension list, and each comes from such a type |
| Releases.UpdateUrl | app/releasemanager.cpp:657-702 | `Release::updateUrl` with both searches as loops computes `UpdatedVariants` |
| Releases.UpdateExistingOnlyChangesUrl | app/releasemanager.cpp:659-674 | when a variant with the same architecture and board exists, the first such variant gets the new URL and every other variant is unchanged |
| Releases.UpdateNewAddsOne | app/releasemanager.cpp:676-694 | otherwise the list grows by exactly the one described variant |
| Releases.UpdateKeepsSorted | app/releasemanager.cpp:676-694 | a list ordered by architecture stays ordered, because the new variant goes before the first greater architecture |
| Releases.Insert | app/releasemanager.cpp:599 | `QList::insert` adds exactly one element |
| Releases.InsertIndexing | app/releasemanager.cpp:599-607 | the element lands at the index, or at the end when the index is past it, with the other elements kept in order around it |
| Releases.InsertMultiset | app/releasemanager.cpp:599 | nothing is lost or duplicated by an insert |
| Releases.BuildReleaseList | app/releasemanager.cpp:538-608 | the list model's constructor builds `ReleaseList`: the members in placement order, then the custom release at row 2 |
| Releases.PlaceMembers | app/releasemanager.cpp:546-600 | the members of one section are placed one after another, as `OrderMembers` places them |
| Releases.OrderMembersLength | app/releasemanager.cpp:599 | each member adds exactly one row |
| Releases.OrderMembersIsPermutation | app/releasemanager.cpp:583-600 | the ordered list holds exactly the section members |
| Releases.WorkstationComesFirst | app/releasemanager.cpp:583-598 | if `alt-workstation` is among the members, it ends up in row 0 wherever it appeared |
| Releases.ReleaseListShape | app/releasemanager.cpp:538-608 | members + 1 rows, exactly the members plus the custom release, the custom release in row 2 (last when there are fewer than two members), and a workstation release still first |
| Releases.ValidateEntry | app/releasemanager.cpp:402-447 | an entry is accepted exactly when link, name, architecture, board and image type all pass; the board defaults to "PC", and the variant carries the resolved fields |
| Releases.ApplyLoaded | app/releasemanager.cpp:451-457 | every release whose lower-cased name contains the entry name is updated, and no other |
| Releases.ApplyToAll | app/releasemanager.cpp:451-457 | the loop over the rows computes `ApplyLoaded` |
| Releases.LoadEntriesKeepsRows | app/releasemanager.cpp:399-459 | loading keeps the number of rows, their names and selections, and the order of every release's variants by architecture |
| Releases.ReleaseManager.LoadReleaseFile | app/releasemanager.cpp:399-459 | the rows after loading are `LoadEntries` of the old rows, and their number is unchanged |
| Releases.ReleaseManager.LoadReleaseFiles | app/releasemanager.cpp:109-114 | loading the image files one after another gives `LoadFiles` of the rows before |
| Releases.LoadFilesKeepsRows | app/releasemanager.cpp:109-114 | loading any number of image files keeps the number of rows, their names and selections, and the order of every release's variants by architecture |
| Releases.SetSelectedVariantIndex | app/releasemanager.cpp:742-747 | the index changes exactly when the new value differs and the current one is in range; the new value is not range-checked |
| Releases.OutOfRangeSelectionSticks | app/releasemanager.cpp:742-747 | an out-of-range value is stored, after which no selected variant exists and no later call changes the index |
| Releases.SelectArchSelectsFirstMatch | app/releasemanager.cpp:355-365 | after the filter moves to an architecture, a release with a valid selection and a variant of that architecture selects its first such variant |
| Releases.ReleaseManager.SetFilterArchitecture | app/releasemanager.cpp:348-370 | nothing changes unless the new value differs and the current one is a valid index; then the filter is set and every release selects its first variant of that architecture |
| Releases.ReleaseManager.constructor | app/releasemanager.cpp:78-118 | the rows are `LoadFiles` of the list model built from the section files (`ReleaseList` with the custom release), over every image file in order; the row count is the number of members plus one |
| Common.Contains | app/architecture.cpp:89 | `contains` holds exactly when the pattern occurs at some position |
| Common.ReplaceCharRemovesIt | app/releasemanager.cpp:73 | replacing every newline by a space leaves no newline and keeps the length |
| Common.NatToString | helper/win/writejob.cpp:419 | the printed count is non-empty decimal digits with no leading zero |
| Common.ParseNatToString | app/image_download.cpp:203 | the decimal text of a size reads back as that size |

## Left out

- I/O is out of scope: files, the drive, the network, timers and Qt's event loop are oracles. Nothing models concurrency or re-entrancy, and the Windows `OVERLAPPED` event wait only counts as a pending write.
- The contents the xz decoder produces are not computed: a decoder instance is a script of replies. Each reply is clamped to the input and output room it had.
- The MD5 digest and the ISO media check are functions fixed with the object; the check's progress is a fixed list of offsets.
- YAML parsing, section-file reading, icons, translations, locales and `downloadMetadata` are not part of this model. A section member is given as its `Release`, and an image entry as its four fields.
- `removeMountPoints`, `cleanDrive`, `unlockDrive` and the restore job are not part of this model.
- Releases and variants are values, so aliasing between Qt objects is not modelled. The setters that only assign (`setFrontPage`, `setFilterText`, `setSelectedIndex`) and the signal emissions of the release list are left out.
- The classes `Architecture` and `ImageType` of `app/releasemanager.cpp`, and `Variant::updateUrl`, are not part of this model. Their lookups are the functions `fromAbbreviation`, `fromFilename` and `imageTypeOf`, and a variant's URL is replaced as a field.
- Releases.UpdateUrl: an architecture is its enum index. The source compares singleton pointers, both for equality and with `>`. The model assumes pointer order follows enum order, as the source's comment intends.
- Releases.ReleaseManager.constructor: the initial values of `m_frontPage`, `m_filterArchitecture`, `m_selectedIndex` and a release's `m_selectedVariant` are parameters, because the header that declares them is not part of this model.
- Releases.Insert: clamping an index past the end to an append is what release builds of Qt 5 do; debug builds assert instead.
- WriteJob.Job.WritePlain: `cnt` and the offsets are unbounded integers, so a `uint64_t` counter overflow is not modelled. The offset wrap itself is modelled.
- WriteJob.Job.Write: the success postcondition for the plain path is stated only for images below 2^64 bytes, where offsets do not wrap.
- WriteJob.Job.WritePlain: a read of the image never fails and is never short before the end of the file. In the source, a short or empty `QByteArray` from `isoFile.read` in the middle of the file, as a read error gives, is handed to `writeBlock` as is and then ends the loop as a success (helper/win/writejob.cpp:408, :422).
- WriteJob.Job.WriteCompressed: a read of the compressed image never fails. In the source, a -1 from `file.read` is added to `totalRead` and, converted to `size_t`, becomes `avail_in` (helper/win/writejob.cpp:321-325).
- Architectures.ListContainsIgnoreCase: case folding is ASCII only, while Qt folds full Unicode. For "e2\u212A" (ending in the KELVIN SIGN) Qt finds E2K and the model gives UNKNOWN.
- Architectures.AnyAliasIn: the same ASCII-only folding applies to the file-name search.
- Releases.ApplyLoaded: a release's name is lower-cased ASCII only, where Qt's `toLower` folds full Unicode.
- Architectures.FromFilename: the enum order is assumed to be the one `Index` gives, because `architecture.h` is not part of this model. "alt-x86_64.iso" resolves to X86_64 only because X86_64 comes before X86 in that order.
- ImageDownloads.ImageDownload.OnReadyRead: after a cancel, a late `readyRead` is not guarded, as written. Partial writes of a chunk are not modelled: a write is all or nothing.
- ImageDownloads.ImageDownload.OnRestartTimer: the restart does not check `wasCancelled`, as written.
- ImageDownloads.ImageDownload.ComputeMd5: the digest is compared exactly, so a checksum written in upper case fails.

Where the code departs from its apparent intent, the model follows the code:

- The MD5 comparison is case-sensitive (app/image_download.cpp:174).
- A lock failure requests exit 1, but `work` then retries, and a second failure requests exit 4; the last request decides the status (helper/win/writejob.cpp:271-273, :251-262).
- The drive handle stays open after a lock failure and after a plain-write failure.
- The second `.xz` branch of `check()` can never run (helper/win/writejob.cpp:484).
- `qApp->exit` can be requested more than once, and the last request wins.

## Findings

| source | as written | input that shows it | evidently intended | confidence | as-written member | corrected member |
|---|---|---|---|---|---|---|
| app/architecture.cpp:25-37 | `architecture_all` calls `list.append` inside the initialiser of that same static `list`, then returns its local `out`. Using `list` before its initialisation ends is undefined behaviour, so the outcome depends on copy elision. With named return value optimisation `out` is `list` and the full list comes back. Without it, Qt 5's `QList::append` runs on a zero-initialised `QList` and dereferences its null data pointer; if that does not crash, `list` then becomes the empty `out`, so every lookup scans nothing | without that optimisation, `architecture_from_string("i686")` gives UNKNOWN instead of X86 | build a local list and return every architecture from 0 to COUNT-1, in order | low: depends on the compiler (not executed) | Architectures.AsWrittenDiffersFromIntended | Architectures.FromStringIsFirst |
