# A model of the stateful cores of the OSS C++ SDK

The SDK has several components in which a piecewise, stateful procedure has to agree with a
simple description of the whole value it works on. This project models them in Dafny, in the
form the C++ code has, and proves that agreement.

- **Encrypted streams** (`Ctr`, `CryptoStreamBuf`, `StreamRuns`, `CryptoModule`). The stream
  buffer encrypts on read and decrypts on write in 16-byte blocks, starts lazily, and starts
  again after a seek. The specification is one-shot counter mode (section 6.5 of NIST SP
  800-38A with the incrementing function of its appendix B.1) over the whole object. Main
  results: what any run of reads and seeks inside the stream returns, which for block-aligned
  targets is what a plain stream over the one-shot ciphertext returns; any chunking of writes
  delivers the one-shot decryption; parts uploaded one by one concatenate to the one-shot
  ciphertext; a ranged GET delivers exactly the plain bytes of the range, also for an object
  uploaded in parts.
- **Resumable copy** (`PartPlan`, `ResumableCopier`, `CopyProtocol`). The single-threaded
  half is a class; threads, server, record file, crashes, late requests, the request switch
  and changes of the source are a state machine. Main result: over every history of interrupted
  and resumed runs, what an upload is completed with is the source object as it then is, byte
  for byte, exactly when no part was dropped, and so always when requests were not switched
  back on during that run; such a plan has fewer than 10000 parts. It holds for every run whose
  source does not change under it and whose caller gives a changed source another size or
  modification time; no upload is ever completed twice.
- **Select-object frames** (`SelectObjectStreamBuf`). The incremental depacker refines a
  parser that reads one byte at a time, which refines a list of frames. Main result: for every
  list of frames and every chunking, the sink gets the data of the data frames, and the parser
  is back at rest exactly when every checksum is zero or correct.
- **Handle pool** (`CurlContainer`). Growth, borrowing, forced replacement and shutdown as
  critical sections that interleave. Main results: handles are conserved under every
  interleaving; the exact condition under which a shutdown may collect; over every history
  with no growth under way when the shutdown begins and none after it, the shutdown waits for
  all borrowers and collects every handle once; and histories with a growth in which it does
  not.
- **URLs and retries** (`Url`, `Client`). For which URLs printing and parsing is a round trip,
  and for which texts parsing, printing and parsing is, both exactly; and the retry loop with
  its stopping rule and its total delay.

`Bytes` holds byte strings, exclusive or and endianness; `Wrappers` holds the optional value.
`dafny verify dfyconfig.toml` checks everything.

## What the code does that its surroundings do not suggest

- `sdk/src/encryption/CryptoStreamBuf.cc:74` seeks back to the block start without adding the
  start position that line 66 subtracted. `SeekDeliversCiphertext` and `SeekReadsSlice` give the
  exact conditions under which a seek, and a read of n bytes after it, deliver the right bytes;
  `MidBlockSeekIsShifted` says which bytes are delivered otherwise.
- A position query on a stream that holds buffered ciphertext loses those bytes
  (`TellForReading`); an out-seek loses the held-back bytes and leaves the skip count as it is
  (`WriteAfterOutSeek`).
- A worker drops the part it has popped when requests are disabled
  (`sdk/src/resumable/ResumableCopier.cc:63-64`). The check at line 126 catches this only
  while requests stay disabled; `SwitchingBackOnLosesAPart` is a history in which they do not.
- The modification time a resumed copy compares is the one the caller sets on its request
  (`sdk/include/alibabacloud/oss/OssRequest.h:143`); the copier does not take it from the source.
  A caller that leaves it unchanged for an overwritten source of the same size has parts of two
  versions published as one object (`OldTimeMixesVersions`).
- A rejected record stays in force: its part size decides the new plan
  (`RejectedRecordLingers`).
- `determinePartSize` allows 10000 parts, a part-copy request refuses part number 10000
  (`PlanAccepted`, `PlanCanReachTheLimit`).
- The pool's destructor reads the pool size (`sdk/src/http/CurlHttpClient.cc:115`) without the
  lock under which a growth adds handles (lines 153-169). With a growth under way it may collect
  while a handle is still borrowed (`ShutdownLeavesABorrower`), or sleep for ever although
  nothing is borrowed (`OvergrownIsReached`, `LateGrowthBlocksShutdown`).
- An at sign in the host of a URL survives printing behind a user name and not without one:
  `h://@b@c/` does not come back (`AtSignExamples`).
- The number of parts is narrowed to 32 bits before planning
  (`sdk/src/resumable/ResumableCopier.cc:396`, `PlanMissing`).
- A select-object write narrows its count to 32 bits and reports the whole count as written
  (`Xsputn`, `Taken`).

## Model

| member | source | states |
|---|---|---|
| Ctr.BswapOfLE | sdk/src/encryption/Cipher.cc:70-76 | bswap turns the word a little-endian machine loads from eight bytes into the number those bytes spell big-endian |
| Ctr.BswapInvolution | sdk/src/encryption/Cipher.cc:70-76 | bswap undoes itself on every 64-bit word |
| Ctr.IncCTRCounter | sdk/src/encryption/Cipher.cc:78-94 | in both endian branches the bytes before the last eight are kept and the last eight become their big-endian value plus n, modulo 2^64 |
| Ctr.IncCTRCounterEndianFree | sdk/src/encryption/Cipher.cc:84-91 | the little-endian and the big-endian branch produce the same bytes |
| Ctr.IncCTRCounterAdds | sdk/src/encryption/Cipher.cc:78-94 | two steps m and n are one step of m + n modulo 2^64 |
| Ctr.IncCTRCounterIsIncrement | sdk/src/encryption/Cipher.cc:78-94 | the 64-bit step equals the standard 128-bit increment if and only if the low half does not overflow |
| Ctr.GeneratedIVHasRoom | sdk/src/encryption/CryptoModule.cc:296-302 | a vector with bytes 8 to 11 zero gives the standard increment for every n up to 2^64 - 2^32 |
| Ctr.CounterBlockAdds | sdk/src/encryption/CipherOpenssl.cc:79-90 | counter blocks of the cipher context compose: k blocks later and then j is k + j blocks later, with 128-bit wrap |
| Bytes.XorMeaning | sdk/src/encryption/CipherOpenssl.cc:79-90 | the exclusive or of data and key stream, bit by bit: a bit is one exactly when the two differ |
| Ctr.ZerosShowTheBlock | sdk/src/encryption/CipherOpenssl.cc:79-90 | sixteen zero bytes encrypted at a block boundary are the output block of the cipher for the counter block there, in order |
| Ctr.CryptAppend | sdk/src/encryption/CipherOpenssl.cc:79-90 | encrypting a and then b through one context is encrypting a + b: the context continues in the middle of a block |
| Ctr.CryptTail | sdk/src/encryption/CipherOpenssl.cc:79-90 | every tail of a ciphertext is that tail of the input encrypted further along the key stream |
| Ctr.CryptTwice | sdk/src/encryption/CipherOpenssl.cc:129-140 | decryption undoes encryption at the same key-stream position |
| Ctr.CryptFromBlock | sdk/src/encryption/CipherOpenssl.cc:79-90 | a context started k counter blocks later gives what one 16k bytes into the key stream gives |
| CryptoStreamBuf.StreamBuf.Sgetn | sdk/src/utils/StreamBuf.h:69-72 | a read takes the next bytes at the get position, fewer only at the end |
| CryptoStreamBuf.StreamBuf.Sputn | sdk/src/utils/StreamBuf.h:74-77 | a write overwrites at the put position and extends the stream |
| CryptoStreamBuf.StreamBuf.PubSeekpos | sdk/src/utils/StreamBuf.h:84-87 | an absolute seek moves the selected positions, or fails with -1 and moves none |
| CryptoStreamBuf.StreamBuf.PubSeekoff | sdk/src/utils/StreamBuf.h:79-82 | a relative seek goes to the target its base gives, or fails and moves nothing |
| CryptoStreamBuf.SymmetricCipher.EncryptInit | sdk/src/encryption/CipherOpenssl.cc:54-61 | a fresh encryption context: key, counter, key-stream position 0 |
| CryptoStreamBuf.SymmetricCipher.Encrypt | sdk/src/encryption/CipherOpenssl.cc:79-90 | byte i of the output is byte i of the input exclusive-or the byte at position pos + i of the key stream, from counter block (pos + i) / 16, and the position moves on by the length |
| CryptoStreamBuf.SymmetricCipher.DecryptInit | sdk/src/encryption/CipherOpenssl.cc:104-111 | a fresh decryption context, the encryption one untouched |
| CryptoStreamBuf.SymmetricCipher.Decrypt | sdk/src/encryption/CipherOpenssl.cc:129-140 | as Encrypt, on the decryption context |
| CryptoStreamBuf.SeekDeliversCiphertext | sdk/src/encryption/CryptoStreamBuf.cc:64-84 | after a seek the bytes delivered are the one-shot ciphertext from there on if and only if the start position is 0 or the target lies whole blocks after it |
| CryptoStreamBuf.MidBlockSeekIsShifted | sdk/src/encryption/CryptoStreamBuf.cc:74 | in the remaining case the bytes delivered are those of the stream read from position 0, start bytes too early |
| CryptoStreamBuf.SeekReadsSlice | sdk/src/encryption/CryptoStreamBuf.cc:64-84 | a read of n bytes after a seek is the ciphertext slice there if and only if the target lies whole blocks after the start or the n bytes start earlier are the same |
| CryptoStreamBuf.OpenDeliversCiphertext | sdk/src/encryption/CryptoStreamBuf.cc:64-72 | a buffer read from where it was opened delivers the one-shot ciphertext, whatever the vector |
| CryptoStreamBuf.SeekBeforeStart | sdk/src/encryption/CryptoStreamBuf.cc:65-72 | a seek to before the start position counts whole blocks back, rounded toward the start, so from the start on it delivers the ciphertext exactly aligned when the distance is whole blocks, and shifted within the key stream by the excess otherwise |
| CryptoStreamBuf.DeliverAppend | sdk/src/encryption/CryptoStreamBuf.cc:232-246 | decrypting, skipping and writing a and then b is doing so for a + b, the skip count running across the cut |
| CryptoStreamBuf.CryptoStreamBuf.constructor | sdk/src/encryption/CryptoStreamBuf.cc:24-41 | a new buffer is valid, remembers the get position as its start and holds nothing |
| CryptoStreamBuf.CryptoStreamBuf.InitForRead | sdk/src/encryption/CryptoStreamBuf.cc:63-84 | lazy initialisation changes nothing about the bytes still to be read |
| CryptoStreamBuf.CryptoStreamBuf.RestartBlock | sdk/src/encryption/CryptoStreamBuf.cc:73-82 | the mid-block branch leaves pending what follows the first blkIdx bytes of the re-read block, and the put position alone |
| CryptoStreamBuf.CryptoStreamBuf.KeepBlock | sdk/src/encryption/CryptoStreamBuf.cc:76-81 | an encrypted block is held from its skipped bytes on, and what is ahead stays |
| CryptoStreamBuf.CryptoStreamBuf.TakeHeld | sdk/src/encryption/CryptoStreamBuf.cc:131-138 | bytes leave the buffer in order, as many as asked for and held |
| CryptoStreamBuf.CryptoStreamBuf.ReadFromEncryptedBuffer | sdk/src/encryption/CryptoStreamBuf.cc:128-140 | takes the next pending bytes from the buffer, as many as asked for and held |
| CryptoStreamBuf.CryptoStreamBuf.EncryptNext | sdk/src/encryption/CryptoStreamBuf.cc:95-100 | the next block is the next bytes of what is ahead, and nothing only at the end |
| CryptoStreamBuf.CryptoStreamBuf.ReadBlock | sdk/src/encryption/CryptoStreamBuf.cc:94-116 | one turn of the block loop hands out the next pending bytes or buffers a block too large for the request |
| CryptoStreamBuf.CryptoStreamBuf.ReadBlocks | sdk/src/encryption/CryptoStreamBuf.cc:93-123 | the loop and the second look at the buffer hand out exactly the next pending bytes |
| CryptoStreamBuf.CryptoStreamBuf.Xsgetn | sdk/src/encryption/CryptoStreamBuf.cc:57-126 | a read returns the next bytes pending, fewer than asked only at the end, and keeps the reads in step with the one-shot ciphertext |
| CryptoStreamBuf.CryptoStreamBuf.Seekoff | sdk/src/encryption/CryptoStreamBuf.cc:142-151 | a relative seek drops the initialisation of the selected directions and moves the wrapped stream |
| CryptoStreamBuf.CryptoStreamBuf.Seekpos | sdk/src/encryption/CryptoStreamBuf.cc:153-162 | an absolute seek, likewise |
| CryptoStreamBuf.CryptoStreamBuf.XsputnWithSkip | sdk/src/encryption/CryptoStreamBuf.cc:232-246 | drops what is still to be skipped and writes the rest at the put position |
| CryptoStreamBuf.CryptoStreamBuf.DecryptOut | sdk/src/encryption/CryptoStreamBuf.cc:206-215 | one run of input reaches the sink decrypted, with skipping |
| CryptoStreamBuf.CryptoStreamBuf.XsputnBlocks | sdk/src/encryption/CryptoStreamBuf.cc:202-227 | the block loop and the tail leave the sink, once flushed, with the decryption of all input so far |
| CryptoStreamBuf.CryptoStreamBuf.Xsputn | sdk/src/encryption/CryptoStreamBuf.cc:164-230 | a write of any size accepts everything; flushed, the sink holds the decryption of one contiguous input |
| CryptoStreamBuf.CryptoStreamBuf.Destroy | sdk/src/encryption/CryptoStreamBuf.cc:43-55 | destruction makes the sink what flushing promises and holds nothing back |
| StreamRuns.PlainReadsAreConsecutive | sdk/src/encryption/CryptoStreamBuf.cc:57-126 | on the plain stream that RunGoodReads refines, reads of any sizes return consecutive slices, together a prefix up to the end |
| StreamRuns.SeekForReading | sdk/src/encryption/CryptoStreamBuf.cc:153-162 | what an absolute in-seek inside the stream leaves to be read: the ciphertext from the target, or bytes start too early when the target is inside a block and the start is not 0 |
| StreamRuns.ReadAfterSeek | sdk/src/encryption/CryptoStreamBuf.cc:57-162 | seeking and reading n bytes gives the ciphertext slice if and only if the target is whole blocks after the start or the data there repeats the data start earlier |
| StreamRuns.ReadSlice | sdk/src/encryption/CryptoStreamBuf.cc:57-126 | a read in step returns exactly the ciphertext slice at the logical position |
| StreamRuns.GoodSeeksArePlain | sdk/src/encryption/CryptoStreamBuf.cc:57-162 | with block-aligned targets, or start position 0, the run specification is a plain stream over the one-shot ciphertext |
| StreamRuns.RunReads | sdk/src/encryption/CryptoStreamBuf.cc:57-162 | what any interleaving of reads and of seeks inside the stream returns, from any state of the buffer, aligned or not |
| StreamRuns.RunGoodReads | sdk/src/encryption/CryptoStreamBuf.cc:57-162 | with good targets that is what a plain stream over the one-shot ciphertext returns, and the buffer stays in step |
| StreamRuns.TellForReading | sdk/src/encryption/CryptoStreamBuf.cc:142-151 | asking for the position returns the wrapped position and loses the buffered bytes: from a position the buffer can start over at, what is pending is unchanged if and only if nothing was buffered; from others it is start bytes too early |
| StreamRuns.RunWrites | sdk/src/encryption/CryptoStreamBuf.cc:164-230 | from any state of the buffer chunked writing leaves what one write of the concatenation would leave |
| StreamRuns.WriteAndDestroy | sdk/src/encryption/CryptoStreamBuf.cc:43-55 | any chunking followed by destruction delivers what flushing promises; on a buffer not written to before, the one-shot decryption minus the first skipCnt bytes |
| StreamRuns.WriteAfterOutSeek | sdk/src/encryption/CryptoStreamBuf.cc:147-175 | a write after an out-seek restarts the key stream at the new position, loses the held-back bytes and keeps what is left of the skip count |
| StreamRuns.OpenForReading | sdk/src/encryption/CryptoStreamBuf.cc:24-41 | a new buffer over a stream standing at any position is in step with the one-shot ciphertext from there |
| StreamRuns.EncryptByReads | sdk/src/encryption/CryptoStreamBuf.cc:57-126 | a body read from any position in any pieces is sent as one-shot ciphertext |
| StreamRuns.EncryptThenDecrypt | sdk/src/encryption/CryptoStreamBuf.cc:57-246 | writing, in any pieces, what was read, in any other pieces, gives the plain bytes back |
| CryptoModule.GenerateIVIsGenerated | sdk/src/encryption/CryptoModule.cc:296-302 | bytes 8 to 11 of a random block are cleared and the others kept |
| CryptoModule.GeneratedIVRoom | sdk/src/encryption/CryptoModule.cc:296-302 | with such a vector no object below 2^63 bytes overflows the 64-bit counter |
| CryptoModule.EncryptedPartIsSlice | sdk/src/encryption/CryptoModule.cc:188-191 | a part encrypted from its own counter is the slice of the one-shot ciphertext it will sit at |
| CryptoModule.EncryptedPartsPrefix | sdk/src/encryption/CryptoModule.cc:188-191 | the first parts, encrypted one by one, spell a prefix of the one-shot ciphertext |
| CryptoModule.PartsMakeTheWhole | sdk/src/encryption/CryptoModule.cc:188-191 | for every 16-aligned part size and every last part all parts together are the one-shot encryption of the object |
| CryptoModule.UploadPartSecurely | sdk/src/encryption/CryptoModule.cc:162-193 | succeeds exactly when the part size is a multiple of 16 of at least 102400, key and vector are there and the part number is 1 to 9999, otherwise with the error of the first check that fails; then the body is sent encrypted from the counter of its part, in any read sizes |
| CryptoModule.UploadParts | sdk/src/encryption/CryptoModule.cc:162-193 | uploading part after part, each read in pieces of its own, stores the one-shot encryption of the object, and succeeds exactly when every part is accepted |
| CryptoModule.GetObjectSecurely | sdk/src/encryption/CryptoModule.cc:77-133 | whatever the server answers is decrypted from the block the range begins in, minus the skipped bytes; an exact answer gives exactly that range of the decrypted object, and the content length is its length |
| CryptoModule.RangeDecrypts | sdk/src/encryption/CryptoModule.cc:96-107 | decrypting from the block boundary with the advanced counter and skipping first % 16 bytes is the range of the whole decryption |
| CryptoModule.FetchUploadedParts | sdk/src/encryption/CryptoModule.cc:77-193 | uploading an object part by part and fetching any range of it gives the plain bytes of the range back |
| PartPlan.PartCountUnique | sdk/src/resumable/ResumableCopier.cc:396 | the computed part count is the only number of pieces that covers the object with none empty |
| PartPlan.PartRange | sdk/src/resumable/ResumableCopier.cc:397-405 | each part lies inside the object and is not empty; only the last may be short and it ends at the object size |
| PartPlan.Determined | sdk/src/resumable/ResumableBaseWorker.cc:64-75 | doubling terminates with a plan of at most 10000 parts and never shrinks the part size |
| PartPlan.DeterminedIsLeast | sdk/src/resumable/ResumableBaseWorker.cc:64-75 | the result is the part size times the least power of two that meets the limit |
| PartPlan.DoublingFits | sdk/src/resumable/ResumableBaseWorker.cc:69-70 | while the limit is exceeded 10000 part sizes are below the object size, so doubling does not leave 64 bits |
| PartPlan.AlignedPartSizePasses | sdk/src/encryption/OssEncryptionClient.cc:100-103 | alignment gives the greatest multiple of 16 within a part size, and from 102400 on that size, doubled as needed, passes checkUserParameter |
| PartPlan.PlansAgree | sdk/src/resumable/ResumableCopier.cc:396-405 | two part sizes give the same plan if and only if they are equal or each covers the object in one part |
| PartPlan.PlannedPartSize | sdk/src/resumable/ResumableCopier.cc:397-405 | planned part n has number n, a size between 1 and the part size, and that size is the length of its slice |
| PartPlan.PlanTotal | sdk/src/resumable/ResumableCopier.cc:396-411 | the planned sizes add up to the object size |
| PartPlan.PlannedAssembles | sdk/src/resumable/ResumableCopier.cc:66-73 | contents that are right part by part assemble, in plan order, to a prefix of the source |
| PartPlan.PlanAssembles | sdk/src/resumable/ResumableCopier.cc:66-73 | the planned ranges tile the object: assembled in order they are the object |
| PartPlan.PlanAccepted | sdk/src/model/UploadPartCopyRequest.cc:226-228 | every planned part number passes the request check if and only if the plan has fewer than 10000 parts |
| PartPlan.PlanCanReachTheLimit | sdk/src/resumable/ResumableBaseWorker.cc:69-72 | determinePartSize settles on exactly 10000 parts for an object of 1024000000 bytes and a part size of 102400 |
| ResumableCopier.StartMeaning | sdk/src/resumable/ResumableCopier.cc:261-293 | the recorded upload is resumed, with its part size and record, if and only if the record has the size and modification time of the request and is intact and its upload is not gone; otherwise a new upload is created or the run fails, with every field of the outcome and the record file spelled out |
| ResumableCopier.RejectedRecordLingers | sdk/src/resumable/ResumableCopier.cc:319-321 | after a rejected record the plan is the one the caller asked for if and only if the part sizes of record and caller settle on the same one or on one part each; the new upload is still listed |
| ResumableCopier.PrepareAfterRejection | sdk/src/resumable/ResumableBaseWorker.cc:38-62 | running validation and planning on a rejected record: a failing first listing of the new upload ends the run, otherwise what is to copy is planned by the part size of the record |
| ResumableCopier.NextPage | sdk/src/resumable/ResumableCopier.cc:387-388 | following the next marker drops exactly the page just read |
| ResumableCopier.PageMeaning | sdk/src/resumable/ResumableCopier.cc:372-393 | a page is the next slice of the listing and a truncated page makes progress |
| ResumableCopier.PageCovers | sdk/src/resumable/ResumableCopier.cc:372-393 | a page holds, in order, everything the upload has between its marker and the next one |
| ResumableCopier.GatheredIsListed | sdk/src/resumable/ResumableCopier.cc:380-385 | whatever a listing gathers is the listing of the upload without some part numbers |
| ResumableCopier.ListedSorted | sdk/src/resumable/ResumableCopier.cc:380-385 | the listing of an upload is in increasing part-number order |
| ResumableCopier.PlanSplits | sdk/src/resumable/ResumableCopier.cc:396-411 | every planned part is either listed or still to copy, never both |
| ResumableCopier.MissingMeaning | sdk/src/resumable/ResumableCopier.cc:407-410 | the parts to copy are exactly the planned ones whose number was not listed, in plan order |
| ResumableCopier.ResumableCopier.constructor | sdk/src/resumable/ResumableBaseWorker.cc:30-36 | a worker starts without a record, with nothing consumed |
| ResumableCopier.ResumableCopier.DeterminePartSize | sdk/src/resumable/ResumableBaseWorker.cc:64-75 | the loop terminates for objects below 2^63 bytes, stays below 2^64 and stores the doubled size |
| ResumableCopier.ResumableCopier.LoadRecord | sdk/src/resumable/ResumableCopier.cc:295-328 | a saved record takes over part size and upload; an unreadable one is an error and changes nothing |
| ResumableCopier.ResumableCopier.Prepare | sdk/src/resumable/ResumableCopier.cc:174-239 | part size settled, upload created and record written, or the failure that stops it, as the run specification says |
| ResumableCopier.ResumableCopier.Validate | sdk/src/resumable/ResumableBaseWorker.cc:38-62 | loading, checking and preparing end in the state the run specification gives for the record file and the answers |
| ResumableCopier.ResumableCopier.ReadPage | sdk/src/resumable/ResumableCopier.cc:380-392 | a page extends what was gathered up to a larger marker, misses nothing the upload held from the beginning, and counts its sizes |
| ResumableCopier.ResumableCopier.ListCopied | sdk/src/resumable/ResumableCopier.cc:363-394 | the paged loop terminates for every page size while the upload grows under it; it returns, in order, everything held from the beginning and nothing not held at the end, and fails only when a request fails |
| ResumableCopier.ResumableCopier.PlanMissing | sdk/src/resumable/ResumableCopier.cc:396-411 | the planned parts not listed, in plan order, when the part count fits 32 bits, and nothing when it narrows to no positive number |
| ResumableCopier.ResumableCopier.GetPartsToUploadCopy | sdk/src/resumable/ResumableCopier.cc:359-414 | what the listing gathers is copied and the planned parts it does not show are to copy, in plan order |
| CopyProtocol.InFlightUpdate | sdk/src/resumable/ResumableCopier.cc:54-60 | changing one worker moves exactly its part in or out of what is in flight |
| CopyProtocol.NewRunAccounts | sdk/src/resumable/ResumableCopier.cc:359-414 | a new run accounts for its plan: what the upload holds is copied, the rest is queued |
| CopyProtocol.CreatedKeeps | sdk/src/resumable/ResumableCopier.cc:211-226 | preparation keeps record file and server consistent, and settles on an upload for the present version of the source unless the caller gives an old modification time for a source of the same size |
| CopyProtocol.BeginKeeps | sdk/src/resumable/ResumableCopier.cc:38-46 | starting a run keeps the invariant, also when the listing misses parts that arrive during it |
| CopyProtocol.TakeKeeps | sdk/src/resumable/ResumableCopier.cc:55-61 | popping a part keeps the invariant |
| CopyProtocol.LeaveKeeps | sdk/src/resumable/ResumableCopier.cc:57-58 | leaving on an empty queue keeps the invariant |
| CopyProtocol.CheckKeeps | sdk/src/resumable/ResumableCopier.cc:63-64 | looking at the request switch keeps the invariant, also when the part is dropped |
| CopyProtocol.SourceRangeIsSlice | sdk/src/resumable/ResumableCopier.cc:66-73 | the range a copy request names is the planned slice of the source |
| CopyProtocol.StoreKeeps | sdk/src/resumable/ResumableCopier.cc:83 | a part copied by the server, its number accepted, keeps every stored part right |
| CopyProtocol.SuccessKeeps | sdk/src/resumable/ResumableCopier.cc:93-108 | reporting success keeps the invariant and the progress count, also after the upload was aborted |
| CopyProtocol.FailureKeeps | sdk/src/resumable/ResumableCopier.cc:93-99 | reporting failure keeps the invariant |
| CopyProtocol.SortedIsUnique | sdk/src/resumable/ResumableCopier.cc:130-134 | a list sorted by part number that is a permutation of a plan with distinct numbers is the plan itself |
| CopyProtocol.LeftOver | sdk/src/resumable/ResumableCopier.cc:114-124 | with every thread gone and no failure the plan is what was copied, dropped or left in the queue, and nothing is left when nothing was dropped |
| CopyProtocol.CompletedBytes | sdk/src/resumable/ResumableCopier.cc:126-149 | unless the source changed, the assembled bytes are the source if and only if no part was dropped; then the submitted list is the plan, of fewer than 10000 parts, and a progress handler has seen the full size |
| CopyProtocol.CompleteKeeps | sdk/src/resumable/ResumableCopier.cc:126-154 | completing keeps the invariant and ends the upload; the record file goes exactly when the client sees the answer |
| CopyProtocol.ChangeKeeps | sdk/src/resumable/ResumableCopier.cc:265-267 | a change of the source keeps the invariant: every upload becomes one of an older version |
| CopyProtocol.LateKeeps | sdk/src/resumable/ResumableCopier.cc:69-83 | a request of an interrupted run that arrives late stores the right bytes, or bytes in an upload of an older version |
| CopyProtocol.StepKeeps | sdk/src/resumable/ResumableCopier.cc:34-172 | every step of every thread, of the server and from outside keeps the invariant |
| CopyProtocol.HistoryKeeps | sdk/src/resumable/ResumableCopier.cc:34-172 | so does every history |
| CopyProtocol.PublishedIsSource | sdk/src/resumable/ResumableCopier.cc:34-172 | over every history of runs, interruptions and source changes every upload completed by a run that is not stale is the source if and only if the run dropped nothing, which holds whenever requests were not re-enabled during it; then parts are submitted in plan order, fewer than 10000 of them, and progress is the object size |
| CopyProtocol.CompletedOnce | sdk/src/resumable/ResumableCopier.cc:149-154 | over every history no upload is completed twice, and none that was completed exists any more |
| CopyProtocol.EveryPartInOnePlace | sdk/src/resumable/ResumableCopier.cc:51-112 | in every reachable run that is not stale each planned part is exactly once in queue, thread, copied, failed or dropped, and nothing else is |
| CopyProtocol.DropAndComplete | sdk/src/resumable/ResumableCopier.cc:63-64 | from a run with one part copied and one popped there is a history that drops the popped part and completes |
| CopyProtocol.SwitchingBackOnLosesAPart | sdk/src/resumable/ResumableCopier.cc:126-128 | for every two-part source there is a history that publishes something else: the condition on re-enabling cannot be dropped |
| CopyProtocol.OldTimeMixesVersions | sdk/src/resumable/ResumableCopier.cc:265-267 | for every two-part source and every overwrite of the same size with another first part there is a history, its caller giving the old modification time, that publishes the first part of the old source before the second of the new |
| CopyProtocol.CopyOne | sdk/src/resumable/ResumableCopier.cc:55-108 | one thread alone pops a part, has it copied and reports it, with the state that follows |
| SelectObjectStreamBuf.CrcAppend | sdk/src/utils/Crc32.cc:86-99 | the checksum of a + b continues the checksum of a over b |
| SelectObjectStreamBuf.FeedByte | sdk/src/model/SelectObjectRequest.cc:67-125 | 0 <= header length <= 20, tail length <= 4 and end-frame size <= 256 after every byte, also for payload lengths below 8 |
| SelectObjectStreamBuf.FeedAppend | sdk/src/model/SelectObjectRequest.cc:186-196 | for arbitrary bytes, writing a and then b leaves the same parser and sink as writing a + b |
| SelectObjectStreamBuf.StuckStays | sdk/src/model/SelectObjectRequest.cc:167-170 | after a refused checksum no later byte changes parser or sink |
| SelectObjectStreamBuf.FeedHeader | sdk/src/model/SelectObjectRequest.cc:76-96 | copying a run of header bytes is reading them one by one |
| SelectObjectStreamBuf.FeedPayload | sdk/src/model/SelectObjectRequest.cc:98-112 | taking a run of payload is reading it one by one |
| SelectObjectStreamBuf.FeedTail | sdk/src/model/SelectObjectRequest.cc:114-122 | copying tail bytes is reading them one by one |
| SelectObjectStreamBuf.HeaderMeaning | sdk/src/model/SelectObjectRequest.cc:87-105 | the parser reads from an encoded header the kind, data length and offset that were put in |
| SelectObjectStreamBuf.HeaderLayout | sdk/src/model/SelectObjectRequest.cc:69-74 | the fields of a frame on the wire, byte by byte: version, 24-bit type, 32-bit length, header checksum, offset, data |
| SelectObjectStreamBuf.HeaderFields | sdk/src/model/SelectObjectRequest.cc:87-105 | type, payload length and checksum start the parser takes from any twenty header bytes, lengths below 8 included |
| SelectObjectStreamBuf.FrameIsRead | sdk/src/model/SelectObjectRequest.cc:67-184 | one encoded frame adds its content to the sink and brings the parser to rest, or sticks when its checksum is wrong |
| SelectObjectStreamBuf.FramesAreRead | sdk/src/model/SelectObjectRequest.cc:67-184 | a list of frames adds its content; the parser is at rest if and only if every checksum is zero or correct |
| SelectObjectStreamBuf.GoodContent | sdk/src/model/SelectObjectRequest.cc:138-145 | with good checksums the content is the data of the 0x800001 frames in order |
| Bytes.ToInt32 | sdk/src/model/SelectObjectRequest.cc:93 | narrowing to 32 bits stays in range and keeps every value that fits |
| SelectObjectStreamBuf.Taken | sdk/src/model/SelectObjectRequest.cc:188 | a write looks at its whole buffer if and only if it is shorter than 2^31 bytes |
| SelectObjectStreamBuf.SelectObjectStreamBuf.constructor | sdk/src/model/SelectObjectRequest.cc:49-59 | a new depacker is at rest with an empty sink |
| SelectObjectStreamBuf.SelectObjectStreamBuf.TakeHeader | sdk/src/model/SelectObjectRequest.cc:76-96 | the header branch adds the bytes it copies, and a complete header sets up the payload |
| SelectObjectStreamBuf.SelectObjectStreamBuf.TakePayload | sdk/src/model/SelectObjectRequest.cc:98-112 | the payload branch hands out a run of what remains and counts it |
| SelectObjectStreamBuf.SelectObjectStreamBuf.TakeTail | sdk/src/model/SelectObjectRequest.cc:114-122 | the tail branch adds the bytes it copies, at most up to four |
| SelectObjectStreamBuf.SelectObjectStreamBuf.DepackFrame | sdk/src/model/SelectObjectRequest.cc:67-125 | one call consumes a non-empty prefix and agrees with reading it byte by byte, or consumes nothing because a checksum was refused before |
| SelectObjectStreamBuf.SelectObjectStreamBuf.Absorb | sdk/src/model/SelectObjectRequest.cc:136-157 | data payload goes to the sink, end-frame payload counts up to 256 bytes, other payload goes nowhere |
| SelectObjectStreamBuf.SelectObjectStreamBuf.CheckTail | sdk/src/model/SelectObjectRequest.cc:160-177 | a complete tail is refused or resets the parser |
| SelectObjectStreamBuf.SelectObjectStreamBuf.TransferStep | sdk/src/model/SelectObjectRequest.cc:133-182 | one turn of the loop agrees with reading byte by byte and makes progress unless the checksum is refused |
| SelectObjectStreamBuf.SelectObjectStreamBuf.TransferContent | sdk/src/model/SelectObjectRequest.cc:127-184 | the loop terminates on every input and leaves what reading byte by byte leaves; it fails if and only if it ends stuck on a non-empty buffer |
| SelectObjectStreamBuf.SelectObjectStreamBuf.Xsputn | sdk/src/model/SelectObjectRequest.cc:186-196 | a write feeds the bytes it looks at, answers -1 with the checksum status exactly when it looked at some and ends stuck, and otherwise reports the whole count |
| SelectObjectStreamBuf.WriteFrames | sdk/src/model/SelectObjectRequest.cc:127-196 | frames written in any chunking put exactly their content into the sink; with good checksums the parser is at rest and the status unchanged |
| CurlContainer.AcquireKeeps | sdk/src/http/CurlHttpClient.cc:45-59 | borrowing a handle keeps the invariant |
| CurlContainer.ReleaseKeeps | sdk/src/http/CurlHttpClient.cc:129-143 | giving a handle back keeps the invariant: without replacement that handle is free again, with one the new handle is and the old one exists nowhere |
| CurlContainer.ReplacedStaysGone | sdk/src/http/CurlHttpClient.cc:129-143 | over every history a replaced handle is never free or borrowed again unless it is created again |
| CurlContainer.GrowKeeps | sdk/src/http/CurlHttpClient.cc:151-173 | beginning, adding to and ending a growth keep the invariant |
| CurlContainer.StepKeeps | sdk/src/http/CurlHttpClient.cc:41-173 | every critical section keeps the invariant and the maximum |
| CurlContainer.HistoryKeeps | sdk/src/http/CurlHttpClient.cc:41-173 | so does every interleaving |
| CurlContainer.HandlesAreConserved | sdk/src/http/CurlHttpClient.cc:41-173 | under every interleaving free and borrowed handles are exactly the existing ones, number the pool size plus those being added, never exceed the maximum, and no handle is in two hands |
| CurlContainer.CollectCondition | sdk/src/http/CurlHttpClient.cc:80-92 | in every state of a closing pool, shutdown may collect if and only if the borrowed handles are as many (asleep) or at most as many (awake) as were added beyond the size it read; with none added, if and only if nothing is borrowed |
| CurlContainer.CollectedAreFree | sdk/src/http/CurlHttpClient.cc:89-91 | in every history what it collects is distinct, and what exists besides is exactly what is borrowed |
| CurlContainer.ShutdownLeavesABorrower | sdk/src/http/CurlHttpClient.cc:113-118 | with a growth under way there are histories, asleep and awake, in which it may collect while a handle is borrowed |
| CurlContainer.QuietShutdownCollectsAll | sdk/src/http/CurlHttpClient.cc:80-118 | over every history without growth at or after its beginning, shutdown may collect if and only if nothing is borrowed, and then gets poolSize distinct handles, all that exist |
| CurlContainer.LateGrowthBlocksShutdown | sdk/src/http/CurlHttpClient.cc:85-88 | asleep, with nothing borrowed and more handles than it counted, no continuation ever lets it collect |
| CurlContainer.OvergrownIsReached | sdk/src/http/CurlHttpClient.cc:85-88 | and there is a history that leads there |
| CurlContainer.GrowthIsGeometric | sdk/src/http/CurlHttpClient.cc:154-156 | after k full growths the pool holds 2 * 3^(k-1) handles, or the maximum |
| CurlContainer.GrowStepsReach | sdk/src/http/CurlHttpClient.cc:158-169 | an uninterrupted growth ends with the created handles queued, counted and existing |
| CurlContainer.CurlContainer.constructor | sdk/src/http/CurlHttpClient.cc:105-111 | a new container is empty, open and satisfies the invariant |
| CurlContainer.CurlContainer.TakeFree | sdk/src/http/CurlHttpClient.cc:55-58 | the last free handle is handed out and leaves the queue |
| CurlContainer.CurlContainer.GiveBack | sdk/src/http/CurlHttpClient.cc:129-143 | when forced and one can be made, the new handle is queued and exists and the old one is gone; otherwise the handle itself is queued |
| CurlContainer.CurlContainer.GrowPool | sdk/src/http/CurlHttpClient.cc:151-173 | the loop adds as many handles as can be created, up to twice the pool size (two for an empty pool) and the maximum, as the growth steps do |
| CurlContainer.CurlContainer.AddHandles | sdk/src/http/CurlHttpClient.cc:158-168 | the loop queues as many of the created handles as the amount allows |
| CurlContainer.CurlContainer.WaitForAll | sdk/src/http/CurlHttpClient.cc:85-88 | the waiting loop ends when the borrowers, in any order, have given back what they hold |
| CurlContainer.CurlContainer.ShutdownAndWait | sdk/src/http/CurlHttpClient.cc:113-118 | the destructor waits through these releases and gets every existing handle exactly once |
| Client.AttemptRequest | sdk/src/client/Client.cc:53-82 | an attempt is followed by another exactly when it fails while requests are enabled, fewer than maxRetries were made and the error is a 500 to 598, a 403 for a skewed time or one of eight curl errors; wait i is 2^i * scaleFactor, together scaleFactor * (2^k - 1) ms after k waits |
| Client.RetryToTheEnd | sdk/src/client/ClientConfiguration.cc:61-92 | such errors throughout use up maxRetries + 1 attempts |
| Url.AtoiOfPrintInt | sdk/src/http/Url.cc:237 | a printed port is read back, negative ones too |
| Url.AtoiMeaning | sdk/src/http/Url.cc:237 | blanks, one sign and the digits are read, what follows is not |
| Url.ToLowerMeaning | sdk/src/http/Url.cc:252 | the 26 capital letters become small ones and nothing else changes |
| Url.EmptyPort | sdk/src/http/Url.cc:227-237 | an authority that ends in a colon has no port |
| Url.AuthorityIsRead | sdk/src/http/Url.cc:206-238 | the authority of a printable URL is read back into user name, password, host and port |
| Url.RestIsRead | sdk/src/http/Url.cc:111-137 | what is printed after the scheme is cut up into the components it was printed from |
| Url.PathlessIsRoot | sdk/src/http/Url.cc:123-129 | a text without a path, also in front of a query or fragment, is read as the same text with the path "/" |
| Url.PathlessWithoutScheme | sdk/src/http/Url.cc:123-129 | likewise without a scheme |
| Url.PrintsNothing | sdk/src/http/Url.cc:307-321 | a URL prints as nothing exactly when it has no host, or a password and no user name; an empty path prints as "/" |
| Url.FullExample | sdk/src/http/Url.cc:307-327 | one URL with every part, printed and read |
| Url.StrayAtIsMisread | sdk/src/http/Url.cc:218-235 | an at sign in a host without user information changes user name or host |
| Url.SchemeIsMissed | sdk/src/http/Url.cc:105-109 | a "://" ahead of the intended one, or one without a scheme, changes the scheme |
| Url.PrintThenParse | sdk/src/http/Url.cc:307-327 | for every URL, fromString(toString(u)) is u if and only if u is empty or printable: valid, of the shape parsing gives, its at signs and its "://" told apart |
| Url.ParsedIsPrintable | sdk/src/http/Url.cc:95-138 | which parsed URLs are printable: exactly the valid ones whose host has no at sign without a user name and that print no "://" without a scheme |
| Url.ParsePrintParse | sdk/src/http/Url.cc:95-138 | for every text, parsing what is printed for the parsed URL changes nothing if and only if the text is empty or those conditions hold |
| Url.AtSignExamples | sdk/src/http/Url.cc:218-235 | h://a@b@c/ comes back and h://@b@c/ does not |
| Url.Url.constructor | sdk/src/http/Url.cc:28-40 | a URL built from a text is the parse of the text |
| Url.Url.Clear | sdk/src/http/Url.cc:78-88 | every component is empty and the port invalid |
| Url.Url.SetUserInfo | sdk/src/http/Url.cc:285-300 | user name and password are split at the first colon; without one the old password stays |
| Url.Url.SetAuthority | sdk/src/http/Url.cc:206-238 | the authority is split into its components, except that user information without a colon keeps the old password |
| Url.Url.CutAt | sdk/src/http/Url.cc:111-121 | text and cut-off part are what stands before and behind the first delimiter |
| Url.Url.FromString | sdk/src/http/Url.cc:95-138 | the erasing and setting steps leave the components the parse function gives |

## Left out

- The block cipher itself: it is any function from key and counter block to 16 bytes. Key wrapping, metadata headers, user agents and Base64 are not modelled.
- CryptoStreamBuf.SymmetricCipher.Encrypt: the -1 for null pointers and library failures is not modelled.
- CryptoStreamBuf.SymmetricCipher.Decrypt: likewise.
- CryptoStreamBuf.StreamBuf.Sputn: an in-memory stream with separate get and put positions, which takes every write whole and reads short only at its end.
- CryptoStreamBuf.CryptoStreamBuf.XsputnWithSkip: so the sink never takes fewer bytes than offered, a case the code marks as a to-do (sdk/src/encryption/CryptoStreamBuf.cc:197 and 215).
- CryptoStreamBuf.CryptoStreamBuf.XsputnBlocks: likewise, without the early return at line 216.
- CryptoStreamBuf.CryptoStreamBuf.Xsputn: likewise, without the early returns at lines 191 and 198.
- Single-character stream operations (sdk/src/utils/StreamBuf.h:44-67), which go past the encryption to the wrapped stream.
- StreamRuns.RunReads: seek targets before the start position or beyond the end of the stream are not covered; SeekBeforeStart describes the former, and Seekpos says what both do to the positions.
- CryptoModule.GetObjectSecurely: failing requests and their retries are not modelled, the key is unwrapped and the cipher name matches; sdk/src/model/GetObjectRequest.cc:150 already refuses negative bounds.
- CryptoModule.UploadPartSecurely: offsets are unbounded integers and a vector that is not empty has 16 bytes.
- ResumableUploader and ResumableDownloader, apart from the alignment of their encrypted part sizes.
- JSON, MD5, record paths and the file system: a record is absent, unreadable or a set of fields with a flag for its checksum.
- ResumableCopier.ResumableCopier.Validate: a saved record with part size 0, by which the code divides, is not modelled. Object sizes are positive and below 2^63, since sdk/src/OssClientImpl.cc:1490 copies smaller objects directly; whether the metadata directive asks for a head request is folded into its answer.
- ResumableCopier.ResumableCopier.ListCopied: uploads only grow while they are listed and hold part numbers from 1 to 10000.
- ResumableCopier.ResumableCopier.PlanMissing: nothing is said of part counts that narrow to another positive number; determinePartSize keeps counts within 10000.
- CopyProtocol.EveryPartInOnePlace: nothing is said of stale runs.
- CopyProtocol.BeginKeeps: validation, head request, initiation, record and listing are one step. A crash between them ends in the state of a start whose later answers fail, or of an interruption right after it; parts that arrive between two pages are the missed parts of the step.
- CopyProtocol.PublishedIsSource: nothing is said of stale runs, whose source changed under them or whose caller gave an old modification time; the conditional headers that let the server refuse such copies (sdk/src/resumable/ResumableCopier.cc:71-72) are not modelled. One run is under way at a time, and part uploads come from these runs only. Two clients sharing a record, and the failure flags of ENABLE_OSS_TEST builds, are not modelled.
- The worker threads as imperative code: they are steps of the state machine, one for each critical section, server request or look at the request switch. Part ETags, ACL, payer and encoding parameters play no role.
- SelectObjectStreamBuf.SelectObjectStreamBuf.Absorb: the bytes of end_frame are left out, only their number is modelled; sdk/src/model/SelectObjectRequest.cc:153 copies them from the start of the buffer, not of the payload.
- SelectObjectStreamBuf.SelectObjectStreamBuf.TransferContent: the sink of the depacker accepts everything. The header checksum is not checked (nor is it in the code), and the CRC table is any fold over bytes.
- CreateSelectObjectMetaResult and the XML of all other requests and results.
- Curl calls, default options, timeouts and the body of a request. An Acquire during shutdown, where the code asserts, is no step. Growth may begin whenever the pool is not full, not only when a thread found it empty.
- CurlContainer.CurlContainer.GrowPool: runs without other threads in between; interleavings are those of the state machine.
- CurlContainer.CurlContainer.ShutdownAndWait: the borrowers give back the handles they hold, without forced replacement, and no growth is under way; both cases are in the state machine.
- Client.AttemptRequest: the correction of the clock after a skewed request is left out, and the total delay is stated up to 31 waits, after which shifting a 32-bit one is undefined in C++.
- Url.AtoiOfPrintInt: integers are unbounded, so ports outside 32 bits are read as printed. Letters are lowered as ASCII.
- Logging, sockets, TLS, proxies, rate limiting, live channels and wide-character paths.
