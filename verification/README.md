# Verified model of the file-sharing services

The repository is a set of Rust services: `juiceback` stores uploads (optionally
encrypted) on storage hosts, `juicefront` renders pages, and `juicebox` starts
and restarts the services. This project models the parts of them whose behaviour
is hard to see from one function, and proves what they keep.

| file | models |
|---|---|
| `Container.dfy`, `Encrypt.dfy`, `Decrypt.dfy` | the JBC1 encrypted container: sizes, windows, header, writer, whole-file and slice readers |
| `Readers.dfy`, `AnyBytes.dfy` | what relates them: round trip, a slice is a slice of the whole, damage; and what each reader does with bytes nobody vouches for |
| `CipherStream.dfy`, `RangeHeader.dfy`, `ProtectedBytes.dfy` | serving a byte range while its ciphertext arrives in pieces |
| `Supervisor.dfy` | the process supervisor's main loop |
| `UploadFallback.dfy` | the QUIC upload and its replay over HTTP |
| `MintLimiter.dfy` | the windowed rate limiter |
| `Cleanup.dfy` | the paged cleanup over a table it deletes from |
| `Promo.dfy` | the hot-tier budget |
| `LegalText.dfy`, `ClientIp.dfy`, `PercentCode.dfy` | the text renderer, the trusted-proxy walk, percent codes |

Code that changes state is written as classes and loops. Each such method is
proved equal to a function of its inputs or its old state, and the theorems are
about that function. Three places need a word:

- `Aead` is a pair of functions, seal and open, with two laws (`Lawful`): opening
  what was sealed gives it back, and nothing opens but what sealing its plaintext
  again would produce. AES-GCM has both. Every theorem holds for every such pair,
  and `LawsCanBeMet` shows a pair.
- Each service of the supervisor has a small automaton driven by the history of
  its events. The class keeps the four maps equal to what the automata say, so
  that theorems about histories hold of every state the loop can reach.
- The upload meets a disk, a channel and a network, all of them inputs. `Plan` says
  which disk operations fail, and what a failing write leaves behind; what an upload
  needs of the disk (`UploadOps`, `AttemptOps`) is counted on a disk without faults.

## What was found

Of what is modelled, the following differs from what the code or its
documentation leads one to expect. The members named say exactly when, or show
an input.

- A Range header whose last position is 2^64-1 or more, or whose suffix length is
  2^64 or more, is refused although RFC 9110 section 14.1.2 gives it a meaning
  (`RangeHeader.ParseRangeMeetsStandard`, `RangeHeader.WholeFileRefused`). The
  addition `last + 1` wraps, as a release build does; a debug build panics there.
- A container of length 0 with no body at all decrypts, although the writer always
  stores one empty chunk (`Readers.DecryptsExactlyContainers`).
- A disk error while the QUIC attempt fills its buffer loses data, and the replay
  over HTTP can then succeed without it (`UploadFallback.LossyUpload`). It happens
  exactly when a disk operation fails that the attempt needs
  (`UploadFallback.BodyIsComplete`), never to uploads of up to 8 MiB
  (`UploadFallback.SmallUploadsNeedNoDisk`).
- An upload whose channel held an error is refused over QUIC and then posted over
  HTTP without the missing part (`UploadFallback.ErrorItemsAreSkipped`).
- Pruning can be seen when the clock reads go backwards
  (`MintLimiter.PruneIsHiddenExactly`, `MintLimiter.PruneNeedsTheClock`). The clock
  is read before the bucket is locked, so calls at the same time can arrive in that
  order.
- A row whose id is the empty string is never cleaned up (`Cleanup.PurgePages`).
- A size limit beyond 2^63-1 reads as negative and keeps every file from being
  promoted (`Promo.HugeSizeLimit`).
- A byte cap of 2^64-1 lets a sweep promote past the cap
  (`Promo.SaturationPassesTheCap`, `Promo.GreedyExactly`).
- The `<br>` between the lines of a paragraph is escaped together with them and
  shows as text (`LegalText.BreaksAreEscaped`).
- One malformed forwarded hop drops the whole header; the answer then comes from
  `x-real-ip` before the peer (`ClientIp.PrependedHops`), while the test at
  crates/juiceutils/src/proxy.rs:159 speaks of the peer only.
- Percent decoding gives one character per byte, so only ASCII text survives a
  round trip (`PercentCode.RoundTripIsAscii`).

## Model

| member | source | states |
|---|---|---|
| Container.LawsCanBeMet | crates/juiceback/src/crypto_file.rs:250-275 | the two facts assumed of the cipher can hold together |
| Container.LittleEndianRoundTrip | crates/juiceback/src/crypto_file.rs:221-238 | the size field decodes to the size |
| Container.FromLittleEndianRoundTrip | crates/juiceback/src/crypto_file.rs:240-248 | every size field is the encoding of what it decodes to |
| Container.HeaderRoundTrip | crates/juiceback/src/crypto_file.rs:220-248 | data parses to size n exactly when it starts with the encoded header of n, for every u64 |
| Container.HeaderBytes | crates/juiceback/src/crypto_file.rs:220-238 | the header byte by byte: JBC1, 16 for chunks of 2^16 bytes, the size from its least significant byte on |
| Container.HeaderErrors | crates/juiceback/src/crypto_file.rs:240-248 | Truncated exactly below 13 bytes, BadFormat exactly for what is the header of no u64 size |
| Container.ContainerLength | crates/juiceback/src/crypto_file.rs:178-190 | the announced ciphertext length is the length of the container, for every plaintext |
| Container.StoredFromAppend | crates/juiceback/src/crypto_file.rs:277-312 | chunks after a whole number of chunks are stored as if they stood alone, at shifted indices |
| Container.WindowGeometry | crates/juiceback/src/crypto_file.rs:192-214 | a window starts at a chunk boundary at or before the range, ends at one at or after it or at the end of the file, and has the stored length of what lies between |
| Container.WindowParts | crates/juiceback/src/crypto_file.rs:192-214 | any run of whole chunks lies in the container where the chunk arithmetic puts it |
| Container.CipherRangeIsChunkWindow | crates/juiceback/src/crypto_file.rs:192-214 | the window of a range is inside the container behind the header and holds exactly the stored chunks the range touches |
| Container.FullRangeReachesEnd | crates/juiceback/src/crypto_file.rs:192-214 | the window of the full range is everything after the header |
| Container.WindowsTile | crates/juiceback/src/crypto_file.rs:192-214 | windows of ranges that meet at a chunk boundary tile the window of their union |
| Container.SizesFitU64 | crates/juiceback/src/crypto_file.rs:183-186 | the ciphertext length fits u64 exactly up to MAX_CONTAINER_PLAIN, hence for every i64 size |
| Container.WindowStepsFitU64 | crates/juiceback/src/crypto_file.rs:200-213 | no step of the window arithmetic overflows for a container that fits |
| Encrypt.EncryptChunk | crates/juiceback/src/crypto_file.rs:250-264 | a chunk of up to 64 KiB is stored in its length plus 28 bytes and decrypts to itself; a longer one is LengthMismatch |
| Encrypt.ReadExactly | crates/juiceback/src/crypto_file.rs:291-299 | fills the chunk with the next bytes however the reader cuts them; LengthMismatch exactly when they run out |
| Encrypt.WrittenChunk | crates/juiceback/src/crypto_file.rs:284-303 | loop invariant step: output so far in front of the stored rest is the container |
| Encrypt.EncryptReader | crates/juiceback/src/crypto_file.rs:277-312 | with a reader that cannot fail, succeeds exactly when the reader holds plainLen bytes, and gives their container; one that can adds its own errors only |
| Decrypt.DecryptChunkInverse | crates/juiceback/src/crypto_file.rs:266-275 | a chunk decrypts to p exactly when it is p stored under its own nonce |
| Decrypt.DecryptedLength | crates/juiceback/src/crypto_file.rs:266-275 | no stored chunk opens to a plaintext of another length |
| Decrypt.ChunkErrors | crates/juiceback/src/crypto_file.rs:266-275 | Truncated exactly outside the lengths a stored chunk can have, Decrypt otherwise only if the cipher refuses |
| Decrypt.DecryptToWriter | crates/juiceback/src/crypto_file.rs:314-343 | with a writer that cannot fail, bytes written and result are those of the whole-file walk; one that can holds a prefix of them when it fails |
| Decrypt.CollectRange | crates/juiceback/src/crypto_file.rs:358-390 | the in-place range loop computes the recursive slice |
| Decrypt.DecryptRange | crates/juiceback/src/crypto_file.rs:345-390 | the whole of decrypt_range is DecryptSlice, of which AnyBytes.SliceExactly gives the answer on every input |
| Readers.RoundTrip | crates/juiceback/src/crypto_file.rs:277-343 | decrypting the container of p gives p and its length; with anything appended it is Truncated |
| Readers.OpenBodyIsStored | crates/juiceback/src/crypto_file.rs:323-339 | a walk that succeeds consumed exactly the stored form of what it wrote |
| Readers.DecryptedIsContainer | crates/juiceback/src/crypto_file.rs:314-343 | whatever decrypts is the container of its plaintext, or a bare header of length 0 |
| Readers.DecryptsExactlyContainers | crates/juiceback/src/crypto_file.rs:314-343 | decryption succeeds with p if and only if the data is a container of p or that bare header |
| Readers.RangeOfWalk | crates/juiceback/src/crypto_file.rs:358-390 | where a walk succeeds, the range loop gives the clipped part of its output |
| Readers.SliceRefinesWhole | crates/juiceback/src/crypto_file.rs:345-390 | on all data that decrypts as a whole, a slice is that slice of the whole, and RangeOutOfBounds for all other ranges |
| Readers.OutOfBoundsExactly | crates/juiceback/src/crypto_file.rs:345-357 | RangeOutOfBounds if and only if the header parses and the range does not fit it |
| Readers.CutBody | crates/juiceback/src/crypto_file.rs:323-342 | a body cut anywhere is Truncated and what was written is a prefix of the plaintext |
| Readers.CutContainer | crates/juiceback/src/crypto_file.rs:314-343 | a proper prefix of a container is Truncated, except the empty file cut right after its header |
| Readers.CutRange | crates/juiceback/src/crypto_file.rs:364-390 | a range on a cut body is Truncated wherever the cut is |
| Readers.ExtendedRange | crates/juiceback/src/crypto_file.rs:364-390 | a range on a body with extra bytes is Truncated |
| Readers.DamagedSliceIsTruncated | crates/juiceback/src/crypto_file.rs:345-390 | every non-empty in-bounds slice of a cut or extended container is Truncated, even where the damage lies outside it |
| AnyBytes.WholeExactly | crates/juiceback/src/crypto_file.rs:314-343 | on any bytes behind a header: what is written is the plaintext of the chunks that are there and open up to the first other one, and the error is that one's |
| AnyBytes.EmptyFileExactly | crates/juiceback/src/crypto_file.rs:323-342 | the same for a header of size 0 |
| AnyBytes.SliceExactly | crates/juiceback/src/crypto_file.rs:358-390 | on any bytes: a slice succeeds if and only if all chunks and nothing else follow and every touched one opens, with these chunks' bytes; the error is that of the first chunk that is cut off, or is touched and does not open |
| AnyBytes.SliceOfRightLength | crates/juiceback/src/crypto_file.rs:358-390 | with a body of the right length, success is that every touched chunk opens, and the error is that of the first touched chunk that does not, whatever the others hold |
| AnyBytes.SliceLength | crates/juiceback/src/crypto_file.rs:345-390 | every slice that succeeds has the length asked for |
| AnyBytes.EmptySlice | crates/juiceback/src/crypto_file.rs:355-357 | an empty slice in bounds never looks at the body |
| AnyBytes.BytesOfContainer | crates/juiceback/src/crypto_file.rs:277-343 | the bytes these chunks open to in a container are those of the plaintext |
| AnyBytes.StreamExactly | crates/juiceback/src/routes/unlock.rs:350-371 | on any download: the slice's bytes from the chunks that arrive and open, then exactly one error, that of the first touched chunk that does not |
| CipherStream.PiecesArrive | crates/juiceback/src/routes/unlock.rs:336-360 | pieces join in order, and the download ends as its last part does |
| CipherStream.SkipCipher | crates/juiceback/src/routes/unlock.rs:336-349 | drops exactly the first cipherSkip delivered bytes, or ends with the download's own error |
| CipherStream.FillBuffer | crates/juiceback/src/routes/unlock.rs:354-360 | buffer and undelivered bytes together stay the same; fails exactly when fewer bytes will arrive |
| CipherStream.StreamOne | crates/juiceback/src/routes/unlock.rs:351-371 | one chunk put out and the output still to come make up the output before |
| CipherStream.StreamChunks | crates/juiceback/src/routes/unlock.rs:350-371 | the output of the nested loops depends on the delivered bytes and the download's end only |
| CipherStream.DecryptCipherStream | crates/juiceback/src/routes/unlock.rs:323-374 | the streamed output is the same however the network cuts the ciphertext |
| CipherStream.WindowStreams | crates/juiceback/src/routes/unlock.rs:350-371 | when the whole window arrives, exactly plain[start..end] comes out, with no error |
| CipherStream.CutWindowStreams | crates/juiceback/src/routes/unlock.rs:350-371 | when the window is cut at any byte, a proper prefix comes out, then exactly one error |
| RangeHeader.ParseRange | crates/juiceback/src/routes/unlock.rs:284-321 | every accepted range, whatever the text, is non-empty and in bounds |
| RangeHeader.IgnoredExactly | crates/juiceback/src/routes/unlock.rs:285-288 | a header is ignored exactly if, trimmed, it is not "bytes=" and something more; all else is a range or refused |
| RangeHeader.AcceptedShape | crates/juiceback/src/routes/unlock.rs:292-320 | what is accepted is one suffix, or one first position with or without a dash and a last one, in digits behind at most one plus sign |
| RangeHeader.NumberExactly | crates/juiceback/src/routes/unlock.rs:293-315 | a text is a number exactly if it is digits behind at most one plus sign whose value fits u64 |
| RangeHeader.TrimExactly | crates/juiceback/src/routes/unlock.rs:285 | trimming takes off space only and leaves none at either end |
| RangeHeader.SplitOnceExactly | crates/juiceback/src/routes/unlock.rs:302 | the text splits at its first separator, if it has one |
| RangeHeader.SuffixMeetsStandard | crates/juiceback/src/routes/unlock.rs:292-300 | suffix ranges agree with RFC 9110 exactly unless satisfiable and 2^64 or longer |
| RangeHeader.FromToMeetsStandard | crates/juiceback/src/routes/unlock.rs:301-320 | int-ranges agree with RFC 9110 exactly unless satisfiable with a last position from 2^64-1 on |
| RangeHeader.ParseRangeMeetsStandard | crates/juiceback/src/routes/unlock.rs:284-321 | for every range-spec and size, the positions of section 14.1.2 of RFC 9110 if and only if no number is too long |
| RangeHeader.WholeFileRefused | crates/juiceback/src/routes/unlock.rs:309-319 | "bytes=0-18446744073709551615" asks for the whole of any file that is not empty, and is refused |
| ProtectedBytes.RequestedRange | crates/juiceback/src/routes/unlock.rs:414-423 | every request is refused or asks for a range whose window exists; SpecIsServed and WholeIsServed say which |
| ProtectedBytes.ServeProtectedBytes | crates/juiceback/src/routes/unlock.rs:442-515 | asks the host for the window of the range; the answer is Served's, of which ServedSlice and AnySlice say what it is |
| ProtectedBytes.GetContent | crates/juiceback/src/routes/unlock.rs:411-426 | the answer to a request is Answer's, of which SpecIsServed, WholeIsServed and EveryAnswer say what it is |
| ProtectedBytes.WindowArrives | crates/juiceback/src/routes/unlock.rs:336-371 | the right slice from a window behind any skip, in full or cut anywhere |
| ProtectedBytes.RangeStreams | crates/juiceback/src/routes/unlock.rs:467-487 | exactly the slice, both when the host honoured the range and when it sent the whole file |
| ProtectedBytes.EmptyFileStreams | crates/juiceback/src/routes/unlock.rs:467-487 | an empty file streams nothing, or one error if a whole-file answer stops inside the header |
| ProtectedBytes.HeadNamesSlice | crates/juiceback/src/routes/unlock.rs:493-505 | status, Content-Length and Content-Range: 206 with first and last position for a proper part, 200 without them for the whole file |
| ProtectedBytes.ServedSlice | crates/juiceback/src/routes/unlock.rs:442-515 | from an honest host, in any pieces: the slice under a head that names it, or a proper part of it and one error |
| ProtectedBytes.SpecIsServed | crates/juiceback/src/routes/unlock.rs:411-515 | a Range header of RFC 9110 without overlong numbers is answered with the slice at the positions the standard gives it, and refused if it has none |
| ProtectedBytes.WholeIsServed | crates/juiceback/src/routes/unlock.rs:411-515 | without a Range header, or with one that asks for no bytes, the answer is the whole file under 200 |
| ProtectedBytes.EveryAnswer | crates/juiceback/src/routes/unlock.rs:411-515 | whatever the header, the answer is some slice of the file or a refusal |
| ProtectedBytes.AnySlice | crates/juiceback/src/routes/unlock.rs:467-487 | whatever the host sends: the slice's bytes from the chunks that arrive and open, up to the first that does not, and that one's error |
| Supervisor.BackoffDoubles | crates/juicebox/src/main.rs:17-25 | the delay after n failures is 2^n seconds, one of 1, 2, 4, 8, 16 |
| Supervisor.AttemptsAreCounted | crates/juicebox/src/main.rs:480-559 | in every history the crash count is the number of failed attempts, and giving up means five of them |
| Supervisor.AtMostFiveStarts | crates/juicebox/src/main.rs:480-559 | in any stretch of a history without a reload, a service never found up for 10 s is started at most five times, failed spawns included |
| Supervisor.RestartsWaitTheirTurn | crates/juicebox/src/main.rs:528-536 | no restart comes before its delay since the last failure is over |
| Supervisor.StepKeepsValid | crates/juicebox/src/main.rs:480-559 | a step on one service's map entries keeps all four maps equal to every service's status |
| Supervisor.EveryReachableState | crates/juicebox/src/main.rs:390-567 | children and pending are disjoint, spawned_at has the keys of children, pending services have a count below 5 and a power-of-two delay, given-up services are in neither map |
| Supervisor.FailuresAreCrashes | crates/juicebox/src/main.rs:506-511 | the crash count is the number of failures in a row, counted on the events alone |
| Supervisor.EveryService | crates/juicebox/src/main.rs:390-567 | in every reachable state: a service has a child exactly if its last event started it, and is pending exactly after an enabled exit with no shutdown asked for or a failed enabled restart, and fewer than five failures in a row; with the time it is due |
| Supervisor.Supervisor.LaunchOne | crates/juicebox/src/main.rs:395-406 | one spawn, failed or not, moves one service's status and no other |
| Supervisor.Supervisor.LaunchAll | crates/juicebox/src/main.rs:395-406 | the children are exactly those spawned; every service is running or, if its spawn failed, off |
| Supervisor.Supervisor.LiveReload | crates/juicebox/src/main.rs:447-468 | nothing of the state before the reload is left |
| Supervisor.Supervisor.NoteExit | crates/juicebox/src/main.rs:494-525 | one event; on the maps: the child is gone, and a restart is pending exactly if enabled, no shutdown is asked for and the count, zero after ten seconds of running and else one more, is below five, due 2^count seconds later |
| Supervisor.Supervisor.RestartOne | crates/juicebox/src/main.rs:534-558 | one event; on the maps: a child if the spawn succeeds, and if it fails one more failure and, below five, another restart 2^count seconds later; no other service changes |
| Supervisor.Supervisor.PollServices | crates/juicebox/src/main.rs:480-526 | exactly the exited children take their exit step; nothing else is added to the history, and at most one exit of each service |
| Supervisor.Supervisor.RestartDue | crates/juicebox/src/main.rs:528-559 | exactly the due services take one retry step each, in whatever order the map yields them; nothing else is added to the history |
| Supervisor.Supervisor.AllOff | crates/juicebox/src/main.rs:564-567 | both maps are empty exactly when every service is off |
| Supervisor.Supervisor.RunTurn | crates/juicebox/src/main.rs:441-570 | each service takes only its own steps; without a reload the history gains at most one exit and one retry of each service and nothing else; the loop goes on exactly while some service is not off and no shutdown is asked for |
| Supervisor.Supervisor.Run | crates/juicebox/src/main.rs:435-570 | over any number of turns the statuses are those of the turns one after the other; while none reloads, a service never found up for 10 s is started at most five times |
| UploadFallback.MoveFailsExactly | crates/juiceback/src/storage_client/push.rs:36-51 | the move to disk writes every chunk if and only if none of the writes it needs fails |
| UploadFallback.PushFailsExactly | crates/juiceback/src/storage_client/push.rs:27-56 | a push fails if and only if one of the disk operations fails that it needs on a disk without faults |
| UploadFallback.PushKeeps | crates/juiceback/src/storage_client/push.rs:27-56 | a successful push appends exactly its chunk and leaves the buffer non-empty, a failed one loses data; memory never exceeds 8 MiB |
| UploadFallback.MoveStops | crates/juiceback/src/storage_client/push.rs:39-44 | a move that fails early fails there, whatever would have followed |
| UploadFallback.QuicFallbackBuffer.Push | crates/juiceback/src/storage_client/push.rs:27-56 | the fields after a push and its answer are those of PushOn, for every disk |
| UploadFallback.QuicFallbackBuffer.SpillAll | crates/juiceback/src/storage_client/push.rs:36-51 | the spill file holds everything pushed so far in order, or nothing is kept; the counters after each way it can fail |
| UploadFallback.QuicFallbackBuffer.Materialize | crates/juiceback/src/storage_client/push.rs:58-65 | flattens to the content; fails exactly when there is a spill file that cannot be read back |
| UploadFallback.PlainPrefix | crates/juiceback/src/storage_client/push.rs:110-112 | a prefix without a parenthesis neither makes nor hides a status marker |
| UploadFallback.RejectionHasMarker | crates/juiceback/src/quic.rs:281-293 | every rejection carries the marker, with the digits of the status behind it |
| UploadFallback.DecimalExactly | crates/juiceback/src/storage_client/errors.rs:12-19 | these digits have the status as their value |
| UploadFallback.SendAllConserves | crates/juiceback/src/quic.rs:318-327 | wherever the loop stops, kept bytes and queued chunks make up all good chunks, unless a push failed; then they are fewer |
| UploadFallback.SendAllIntact | crates/juiceback/src/quic.rs:318-327 | the buffer's counters stay true and it is empty exactly if no good chunk was taken |
| UploadFallback.SendAllSucceeds | crates/juiceback/src/quic.rs:318-327 | unless a push fails, the loop ends without an error if and only if all items are good and no send fails; the host then has them all |
| UploadFallback.SendAllStops | crates/juiceback/src/quic.rs:318-327 | unless a push fails, the error is that of the first send or item to fail |
| UploadFallback.SendAllLoses | crates/juiceback/src/quic.rs:318-327 | if a push fails, some chunks up to its own are lost from some byte on, and all later ones are still queued |
| UploadFallback.FirstErrorUnmarked | crates/juiceback/src/storage_client/push.rs:110-112 | an error without a reply carries the marker only if a text from outside does |
| UploadFallback.SendAllFailsExactly | crates/juiceback/src/quic.rs:318-327 | a push fails during the loop if and only if a disk operation fails that the loop needs; otherwise it goes as on a disk without faults |
| UploadFallback.QuicReplies | crates/juiceback/src/quic.rs:295-334 | unless a push fails, the attempt succeeds exactly on a reply with a status from 200 to 299 to a complete upload, any other reply is a rejection, and without a reply the error is the first there was |
| UploadFallback.SendChunks | crates/juiceback/src/quic.rs:318-327 | buffer, channel, host and answer after the loop are those of SendAll, in every interplay of failures |
| UploadFallback.PushQuicStreamed | crates/juiceback/src/quic.rs:295-334 | buffer, channel, host and answer after the attempt are those of Quic |
| UploadFallback.ReplayKeeps | crates/juiceback/src/storage_client/push.rs:118-126 | a replay that succeeds appends exactly the good chunks left; the buffer is empty exactly if there were none at all |
| UploadFallback.ReplayedExactly | crates/juiceback/src/storage_client/push.rs:118-137 | the replay fails if and only if a disk operation fails that it needs |
| UploadFallback.ReplayOverHttp | crates/juiceback/src/storage_client/push.rs:118-137 | the outcome is that of Replayed for every disk |
| UploadFallback.UploadWithoutFaults | crates/juiceback/src/storage_client/push.rs:87-138 | on a disk without faults, in terms of the inputs: sent for a status from 200 to 299, rejected for any other, else all good chunks in order over HTTP, or no data |
| UploadFallback.UploadExactly | crates/juiceback/src/storage_client/push.rs:87-138 | for every disk: that outcome if no needed operation fails; failed if the first to fail comes after the QUIC attempt; else an HTTP body, if any, shorter than all good chunks |
| UploadFallback.BodyIsComplete | crates/juiceback/src/storage_client/push.rs:87-138 | the HTTP body is all good chunks in order if and only if no disk operation fails that the QUIC attempt needs |
| UploadFallback.LossyBody | crates/juiceback/src/storage_client/push.rs:118-137 | otherwise it is a proper prefix of the good chunks up to the failed push, and then all later ones |
| UploadFallback.SmallUploadsNeedNoDisk | crates/juiceback/src/storage_client/push.rs:87-138 | with at most 8 MiB of good chunks nothing is lost, whatever the disk does |
| UploadFallback.LossyUpload | crates/juiceback/src/storage_client/push.rs:36-51 | a whole upload whose HTTP body is its last chunk alone |
| UploadFallback.ErrorItemsAreSkipped | crates/juiceback/src/storage_client/push.rs:118-122 | an upload whose channel held an error item never succeeds over QUIC, but is sent over HTTP without that item as soon as one chunk is good |
| UploadFallback.PushFileStreaming | crates/juiceback/src/storage_client/push.rs:87-138 | the code's outcome is Upload's; with it, what was promised when no needed disk operation fails or the upload is small, and a complete body exactly when none fails during the QUIC attempt |
| UploadFallback.PushBufferedToHttp | crates/juiceback/src/storage_client/push.rs:188-207 | the body sent is the concatenation of the chunks |
| MintLimiter.NewConfig | crates/juiceback/src/mint_limiter.rs:17-25 | a bucket admits max(limit, burst) calls, at least one, in a window of at least a second |
| MintLimiter.WindowBound | crates/juiceback/src/mint_limiter.rs:29-55 | any stretch as long as a window admits at most 2*max(limit,burst)-1 calls of a key |
| MintLimiter.WindowBoundIsReached | crates/juiceback/src/mint_limiter.rs:29-55 | that bound is reached for every configuration with a window above one tick |
| MintLimiter.FirstCallsAdmitted | crates/juiceback/src/mint_limiter.rs:29-55 | a bucket admits exactly the first max(limit,burst) calls of its window |
| MintLimiter.BucketsAreLive | crates/juiceback/src/mint_limiter.rs:29-61 | simulation between the shared map with pruning and the calls of one key |
| MintLimiter.KeysAreIndependent | crates/juiceback/src/mint_limiter.rs:29-61 | prunes anywhere and calls of other keys change no answer, on every monotone run |
| MintLimiter.PruneIsHiddenExactly | crates/juiceback/src/mint_limiter.rs:29-61 | in every run on any clock, a prune at t is hidden from all calls of a key that read s or later if and only if it drops no bucket still open at s |
| MintLimiter.PruneNeedsTheClock | crates/juiceback/src/mint_limiter.rs:57-61 | a run under limit 1 and window 1 s, on a clock that turns back, in which a prune can be seen |
| MintLimiter.MintLimiter.Allow | crates/juiceback/src/mint_limiter.rs:29-55 | the answer given is the next answer of the key's own calls |
| MintLimiter.MintLimiter.CountCall | crates/juiceback/src/mint_limiter.rs:40-54 | the two-threshold code is one step with the larger of limit and burst; a missing bucket is one opened now |
| MintLimiter.MintLimiter.Prune | crates/juiceback/src/mint_limiter.rs:57-61 | keeps the representation and no key's calls change |
| Cleanup.LessTransitive | crates/juiceback/src/db/files.rs:290-300 | the id order is transitive |
| Cleanup.LessTotal | crates/juiceback/src/db/files.rs:290-300 | the id order is total and irreflexive |
| Cleanup.LessExactly | crates/juiceback/src/db/files.rs:290-300 | the id order is that of the first differing character, shorter ids first |
| Cleanup.ListBatch | crates/juiceback/src/db/files.rs:290-316 | the page is the first `limit` due ids behind the cursor, in increasing order |
| Cleanup.Database.DeleteFilesByIds | crates/juiceback/src/db/files.rs:318-334 | rows and statistics after each way the two deletes can go |
| Cleanup.PageAdvances | crates/juiceback/src/jobs/cleanup.rs:64-100 | after one more page no due id was passed over and none is handed out twice |
| Cleanup.PageDone | crates/juiceback/src/jobs/cleanup.rs:64-100 | the same for the table after the page's purge, however it went, and the cursor has fewer ids ahead |
| Cleanup.NothingLeft | crates/juiceback/src/jobs/cleanup.rs:69-75 | an empty page means every due id was handed out |
| Cleanup.PurgePage | crates/juiceback/src/jobs/cleanup.rs:218-277 | exactly the rows whose remote delete succeeded go, whatever order the deletes finish in |
| Cleanup.AfterNoFaults | crates/juiceback/src/jobs/cleanup.rs:64-174 | without faults exactly the deletable ids of the pages are gone, rows and statistics |
| Cleanup.PurgePages | crates/juiceback/src/jobs/cleanup.rs:64-184 | under every pattern of failures the loop ends, every due id but the empty one is handed to the purge exactly once in increasing order unless a query fails, and the table is that of the purges of these pages |
| Cleanup.RunCleanupOnce | crates/juiceback/src/jobs/cleanup.rs:34-184 | under every pattern of failures the table after both loops; every removed row had expired and is gone remotely, or was a stale upload; after a cycle without database faults only those expired files remain whose remote delete failed, no stale upload, and exactly the statistics of the files left |
| Promo.PromoSweepOnce | crates/juiceback/src/jobs/promo.rs:201-276 | the candidate loop takes what the recursive sweep takes, and records the files it looked at |
| Promo.QualifiesExactly | crates/juiceback/src/jobs/promo.rs:215-244 | in true arithmetic, as long as settings and sums fit i64: enough new hits, fast enough, a size within the limit, no unofficial host |
| Promo.MoreHitsQualify | crates/juiceback/src/jobs/promo.rs:215-226 | more new hits never unqualify a file |
| Promo.HugeSizeLimit | crates/juiceback/src/jobs/promo.rs:232-236 | under a size limit beyond i64 nothing qualifies |
| Promo.GreedySplits | crates/juiceback/src/jobs/promo.rs:201-276 | greediness of a list is greediness of its front and of its last element |
| Promo.GreedyKeepsCaps | crates/juiceback/src/jobs/promo.rs:245-251 | a greedy sweep that takes anything keeps both caps in true sums |
| Promo.SweepIsGreedy | crates/juiceback/src/jobs/promo.rs:245-270 | with a cap below 2^64-1 a file is taken exactly if it qualifies and fits, and saturating sums are true sums |
| Promo.SweepIsSlots | crates/juiceback/src/jobs/promo.rs:245-270 | under a byte cap of 2^64-1 the sweep takes the qualifying files the count cap leaves room for, whatever their bytes |
| Promo.SlotsAreGreedy | crates/juiceback/src/jobs/promo.rs:245-270 | that selection keeps the byte cap exactly if its own sum does |
| Promo.GreedyExactly | crates/juiceback/src/jobs/promo.rs:245-270 | a file is taken exactly if it qualifies and fits, if and only if the cap is below 2^64-1 or the files the count cap alone lets in fit u64 |
| Promo.SaturatedSums | crates/juiceback/src/jobs/promo.rs:245-270 | the reserved bytes are the true sum capped at 2^64-1 |
| Promo.SaturationPassesTheCap | crates/juiceback/src/jobs/promo.rs:245-251 | two files promoted past a cap of 2^64-1 |
| Promo.DryRunTakesNothing | crates/juiceback/src/jobs/promo.rs:253-257 | a dry run promotes nothing |
| LegalText.ClassifyExactly | crates/juicefront/src/ssr/legal.rs:28-60 | which line is blank, a heading of which level, a rule, a banner or an item, by its trimmed text |
| LegalText.LinesExactly | crates/juicefront/src/ssr/legal.rs:28 | the lines are those between line feeds, in order |
| LegalText.CrLfExactly | crates/juicefront/src/ssr/legal.rs:28 | a carriage return goes exactly in front of a line feed |
| LegalText.RunOfItems | crates/juicefront/src/ssr/legal.rs:51-60 | a longest run of items is exactly one list of them |
| LegalText.RunOfTexts | crates/juicefront/src/ssr/legal.rs:61-62 | a longest run of plain lines is exactly one paragraph of them |
| LegalText.LineAlone | crates/juicefront/src/ssr/legal.rs:30-50 | any other line is a piece of its own, and a blank one none |
| LegalText.LineIsPending | crates/juicefront/src/ssr/legal.rs:15-62 | each line's output and what it leaves open are what was pending before, if an open list implies no buffered paragraph |
| LegalText.RenderLine | crates/juicefront/src/ssr/legal.rs:15-62 | the output of one line in every state of the automaton |
| LegalText.RenderLines | crates/juicefront/src/ssr/legal.rs:9-67 | the automaton renders longest runs: one list per run of items, one paragraph per run of plain lines |
| LegalText.RenderTxtToHtml | crates/juicefront/src/ssr/legal.rs:9-67 | for every text the output is well nested and holds its non-blank lines once and in order |
| LegalText.DocumentIsWellNested | crates/juicefront/src/ssr/legal.rs:9-67 | items only inside a list, nothing else inside one, every list closed and non-empty |
| LegalText.DocumentKeepsLines | crates/juicefront/src/ssr/legal.rs:9-67 | blocks keep input order and lose nothing but blank lines |
| LegalText.BreaksAreEscaped | crates/juicefront/src/ssr/legal.rs:14-19 | for every paragraph, the breaks between its lines come out escaped, as text |
| ClientIp.MaskAgrees | crates/juiceutils/src/proxy.rs:13-33 | masked words are equal exactly when their top prefix bits are |
| ClientIp.ContainsExactly | crates/juiceutils/src/proxy.rs:13-33 | a block contains an address exactly if families and top bits agree, for both widths and all prefixes, 0 included |
| ClientIp.ResolveIsRightmost | crates/juiceutils/src/proxy.rs:77-97 | the rightmost untrusted hop, or the leftmost if all are trusted |
| ClientIp.WalkHops | crates/juiceutils/src/proxy.rs:86-96 | the walk from the right finds that hop |
| ClientIp.HopsExactly | crates/juiceutils/src/proxy.rs:82-85 | the hops are the parts between commas, trimmed, and there are none if one of them is not an address |
| ClientIp.ClientAddress | crates/juiceutils/src/proxy.rs:77-104 | an untrusted peer is the client; behind a trusted one it is the rightmost untrusted of hops and peer, or the first of all; without usable hops the other header's address, or else the peer |
| ClientIp.SplitJoined | crates/juiceutils/src/proxy.rs:82-85 | hops joined by a comma split into the hops of both parts |
| ClientIp.ParseJoined | crates/juiceutils/src/proxy.rs:82-85 | joined hop lists parse exactly when both parts do, to both parts' hops |
| ClientIp.ResolveIgnoresFront | crates/juiceutils/src/proxy.rs:86-96 | hops in front of a chain with an untrusted hop change nothing |
| ClientIp.PrependedHops | crates/juiceutils/src/proxy.rs:77-104 | prepended header text changes the answer only if one of its hops is malformed, and then to exactly the other header or the peer |
| PercentCode.PctEncode | crates/juicefront/src/i18n.rs:139-150 | the text built byte by byte is the encoding of its UTF-8 bytes |
| PercentCode.EncodedByteExactly | crates/juicefront/src/i18n.rs:142-148 | letters, digits and nine marks stand for themselves, any other byte is a percent sign and two upper-case digits of its value |
| PercentCode.Utf8Exactly | crates/juicefront/src/i18n.rs:142 | the bytes of a character have the form of UTF-8 and its value |
| PercentCode.PercentDecode | crates/juicefront/src/ssr/host.rs:213-239 | the index loop reads escapes from the left, and everything else byte by byte |
| PercentCode.HexValExactly | crates/juicefront/src/ssr/host.rs:232-239 | a hex digit is one of sixteen in either case, with its value |
| PercentCode.EscapeIsRead | crates/juicefront/src/ssr/host.rs:217-226 | a percent sign and two hex digits are read as one byte |
| PercentCode.OthersAreKept | crates/juicefront/src/ssr/host.rs:227-229 | a percent sign in front of anything else, and every other byte, is read as itself |
| PercentCode.DecodeByte | crates/juicefront/src/ssr/host.rs:213-239 | an encoded byte decodes to itself whatever follows |
| PercentCode.BytesComeBack | crates/juicefront/src/ssr/host.rs:213-239 | decoding an encoding gives its bytes, as characters |
| PercentCode.Utf8IsLonger | crates/juicefront/src/i18n.rs:139-150 | UTF-8 keeps the length exactly of ASCII text |
| PercentCode.RoundTripIsAscii | crates/juicefront/src/i18n.rs:139-150 | what comes back is the UTF-8 bytes of the text; the text itself if and only if it is ASCII |

## Left out

- AES-GCM, key derivation, key wrapping and escrow: the cipher is the parameter `Aead`, and nonces are an input.
- The platform's word size: usize is taken to be 64 bits wide, so that no cast truncates, and memory never runs out.
- Encrypt.EncryptReader: reserving memory for the container is left out, and so is the overflow of its length, which `Container.SizesFitU64` bounds.
- The in-place buffers of the reading loops are values here; the one the encrypting reader fills is an array.
- A request range with start == end > 0: neither the header parser nor the default produces one, so the stream theorems leave it out, though the stream itself is modelled for it.
- HTTP headers other than those named, HEAD requests, credentials, redirects and the view statistics around a protected file.
- Supervisor.Supervisor.RunTurn: what becomes of a process once started is left out; graceful stops, the build, the file watcher and the signal task are inputs, and so are all clock reads.
- Start-up without a single spawned service, which ends the supervisor before its loop starts.
- The bodies of storage-host error replies: `ErrorBody` is what is left of them once parsed and scrubbed.
- The text of operating-system errors appended to "fallback spill failed" and "fallback replay failed" is not part of the model, so those texts never hold the status marker here.
- UploadFallback.PushFileStreaming: whether the replayed HTTP request itself succeeds is left out, as are custom hosts and the upload that never uses QUIC. A send that fails may have reached the host in part; what the host then holds is not said.
- MintLimiter.KeysAreIndependent: calls are atomic steps on a monotonic clock; concurrent callers that read the clock in one order and lock in another are outside it.
- Cleanup.PurgePages: other writers of the tables during a cycle are left out, and so are the sweeps of sessions, reports and unfinished resumable uploads around it.
- The bounded concurrency of remote deletes appears as an arbitrary order of completion only.
- Promo.PromoSweepOnce: the views-per-minute test is a boolean input, the sum of views and downloads does not overflow, and promotions that finish after the sweep are left out.
- LegalText.RenderTxtToHtml: inline markup is left out; strong and em may interleave there. Escaping is modelled for the breaks in a paragraph only. The output is a list of pieces, not their concatenated HTML.
- Parsing of addresses and of address blocks is the parameter `parse` and the `Valid` predicate.
- Nested loops are split into one method per loop or turn (`StreamOne`, `TakePiece`, `Drain`, `PollOne`, `RenderLine`, `WalkHops` and others); the statements keep the order of the source.
- Handlers, templates, configuration, mail, DNS, webhooks, administration queries and presence counters.
