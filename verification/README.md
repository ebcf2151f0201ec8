# EVMFS, verified

EVMFS keeps files in append-only event logs of EVM chains. Uploaders cut files
into chunks, pack the chunks into transactions, and bind the chunks' hashes
into a manifest; gateways and a browser library find the logs again and put
the files back together; a registry gives sites names. This project models
those programs in Dafny and proves what they promise each other.

Check it with `dafny verify dfyconfig.toml`.

## The files

| file | models |
|---|---|
| `Evmfs.dfy` | the storage contract, the chain's log, other people's traffic |
| `Batching.dfy`, `Packing.dfy` | cutting files into chunks; the greedy packer, its optimality and its cost |
| `Manifests.dfy` | manifests as written and as read, and what it means that one reproduces its files |
| `UploadState.dfy`, `Assembly.dfy`, `Upload.dfy`, `UploadRun.dfy` | `evmfs upload` and `evmfs deploy` over any number of runs with failures and crashes |
| `WebState.dfy`, `WebUpload.dfy`, `WebRun.dfy` | the browser uploader with retries and resumed progress |
| `Abi.dfy`, `Lookup.dfy` | log data on the wire; finding a hash near a hint or by scanning, over contracts and endpoints that fail |
| `Decimals.dfy`, `Resolution.dfy`, `Gateway.dfy`, `Routing.dfy` | the gateway: paths, cache, manifest entries, URLs |
| `Multipart.dfy`, `WorkerPool.dfy` | the gateway's parallel part fetch and the library's worker pool, over all interleavings |
| `EndToEnd.dfy` | from an upload to the visitor's bytes |
| `Rewriter.dfy`, `RewriterInputs.dfy`, `RewriterExactly.dfy` | the gateway's host rewriter; which content it is for; exactly which host lists it copes with |
| `SingleFlight.dfy`, `NameService.dfy` | name lookups: the single flight, the failover, the cache |
| `Registry.dfy` | the name registry with its ERC-721 and Ownable functions, called code allowed to call back |

## Reading the model

- Code that works by steps is a method with loops, or a class whose methods
  change its fields; each such method is tied to a function or predicate whose
  properties are proved as lemmas. The concurrent parts (`Multipart`,
  `SingleFlight`, `WorkerPool`) are state machines: a schedule is any list of
  moves, and each theorem is about every schedule.
- In the uploaders a bare `if *` is a fault: a rejected transaction, a receipt
  lost after the transaction was mined, a crash between two effects. A run
  called `calm` has none. `Chain.OtherTraffic` stands for everything other
  people do to the chain, `Gateway.OtherRequests` and `NameCache.Others` for
  what other requests do to the caches in the meantime.
- keccak256 is a datatype constructor, which makes it injective. JSON text and
  gzip (RFC 1952) are arbitrary functions with `parse(stringify(j)) == j` and
  `gunzip(gzip(x)) == x`, parameters of what uses them; a manifest is a tree.
  `FileEntry.compressed` is what is stored: gzipped in the CLI, the plain file
  in the browser.
- An endpoint either fails or filters the log faithfully. A *reliable* one
  does not fail. Nothing here relies on the library's hash check, whose result
  it does not look at (lib/src/index.ts:144).
- Resuming a CLI upload is proved for a state file that belongs to the same
  files, contract and chain: `Upload.DiskOk` requires that its entries, as far
  as they fit the files' chunk counts, tell the truth. The code itself compares
  only those counts (cli/src/upload.ts:117-122).
- What the gateway's cache must satisfy (`Gateway.Transparent`) does not mention
  the log, so it holds while the chain grows between requests.
- Block numbers are integers without a bound except where a width shows: the
  decoders, the eight-byte block of a name, and parsed paths.

## Where the promise has a condition

- CLI: two chunks with the same bytes in one transaction are both credited to
  the later one. That can only lose a file's last chunk, and then the count
  check refuses, so *every manifest stored is right*, without a condition. A
  run reaches its manifest iff nothing collapses (`Upload.FinishedPlan`,
  `UploadRun.Finish`, `UploadRun.Run`). One that is refused leaves a chunk
  listed twice in the state file, and no later run on it succeeds
  (`UploadRun.RetryForever`).
- The URL the CLI prints: it carries the first chunk's block, not the
  manifest's (cli/src/upload.ts:646, cli/src/upload.ts:661). A positive block
  keeps the gateway from asking the block index (gateway/rpc.go:136-145), so
  the manifest is found iff a log of it lies within one block of the printed
  one on some contract, or in the newest 200 windows of the last contract
  (`Lookup.PositiveHintExactly`, `EndToEnd.UrlReachesExactly`).
  `Lookup.WrongHintMisses` is an input where the printed block hides what the
  block index knows. Under that condition the visitor gets the original bytes
  (`EndToEnd.UploadThenVisit`). The browser prints the manifest's own block,
  which always does (`EndToEnd.BrowserUploadThenVisit`).
- Browser: there is no count check. The upload throws iff a file with a single
  chunk lost it; otherwise the manifest gives each file, without its last chunk
  iff that chunk was neither in the resumed progress nor the last of its batch
  with its bytes (`WebRun.UploadFiles`). `WebRun.UploadCutShort` is an input for
  which a file is cut short and success is reported.
- Browser files are stored uncompressed, and readers decompress whatever
  decompresses: a file comes back as uploaded iff it does not decompress to
  something else (`EndToEnd.BrowserBytesExactly`, `WorkerPool.BrowserSiteExactly`).
- Rewriter: a list of source hosts, none a prefix of another, is rewritten away
  from every text iff none of them and the gateway's host are prefixes of each
  other, and none but the last can be created by the scheme pass of a later one
  (`RewriterExactly.ListExactly`; `Rewriter.Compatible` spells it out). For http
  and https the latter concerns hosts ending in "http:" or in "https" or
  "https:" only (`Rewriter.HttpEndings`, `Rewriter.HttpsEndings`). For lists
  with a host that is a prefix of another the condition is sufficient
  (`Rewriter.NothingLeftOver`).
- Library: `fetch` by name finds the file iff the name is not the index of
  another entry (`Resolution.LibFindsNameExactly`); the gateway looks at names
  first and always finds it (`Resolution.NamesResolve`). `fetchAll` does not
  depend on timing iff entries that share a key share their content
  (`WorkerPool.AlwaysSequentialExactly`).
- Gateway lookup: only the last contract is scanned, and only its newest 200
  windows; earlier contracts are seen through the hint alone.

## Where code and documentation differ

The model follows the code.

- gateway/README.md:85 gives `/<chainId>/<block>/<manifestHash>` as a
  directory; without its trailing slash the code serves a single file
  (`Routing.BaseUriRoutes`).
- gateway/README.md:89 gives `/<chainId>/<contentHash>/` as a way to force
  directory mode; the code serves a single file (`Routing.HashAloneIsAFile`).
- gateway/README.md:110-113 lets `/resolve` accept a path; one that contains
  `://` is cut at it (`Routing.BarePathExactly`).

## Model

| member | source | states |
|---|---|---|
| `Evmfs.Chain.Store` | contracts/src/EVMFS.sol:10-14 | one event is appended, carrying the bytes and their hash; nothing earlier changes |
| `Evmfs.Chain.StoreBatch` | contracts/src/EVMFS.sol:16-23 | one event per item, in order, and the hashes of the items in the same order |
| `Evmfs.Chain.StoreManifest` | contracts/src/EVMFS.sol:25-30 | the event, and the sender recorded as uploader of that hash and of no other |
| `Batching.ExpandFilesToUnits` | cli/src/batch.ts:31-58 | the loops list every chunk of every file, file after file (the properties of that list are the next five rows) |
| `Batching.SplitFile` | cli/src/batch.ts:43-54 | the inner loop cuts a long file into its chunks, rounding the count up |
| `Batching.ChunkSizes` | cli/src/batch.ts:34-47 | every chunk but a file's last is exactly 100000 bytes, none is longer, and a cut file has no empty chunk |
| `Batching.ChunksJoinToFile` | cli/src/batch.ts:43-54 | the chunks of a file, joined in order, are the file |
| `Batching.UnitsOfFile` | cli/src/batch.ts:31-58 | filtering the list by file index gives that file's chunks in order, and nothing for an index without a file |
| `Batching.UnitIsChunk` | cli/src/batch.ts:31-58 | membership in the list, both ways: exactly the chunks with an index in range |
| `Batching.UnitKeysDistinct` | cli/src/upload.ts:41-43 | (file, chunk) keys are unique |
| `Batching.UnitsInOrder` | cli/src/batch.ts:31-58 | the list goes file after file, chunk after chunk |
| `Batching.SumsExactly` | cli/src/batch.ts:21-29 | the totals are the units' bytes, and per-byte gas times bytes plus overhead times units |
| `Batching.LimitsExactly` | web/src/lib/evmfs.ts:60-63 | the limits of both front ends in numbers: 31000 + 24 B + 1750 n (command line) or 31000 + 26 B + 5000 n (browser) within the gas limit, and B at most 100000 |
| `Batching.PackBatches` | cli/src/batch.ts:68-106 | the loop with its running totals computes the greedy split, and the gas and bytes each batch carries are those of its units (the split's properties are below) |
| `Batching.EstimateTotalGas` | cli/src/batch.ts:60-66 | bytes and units at their prices plus 10000 once, and no transaction base |
| `Packing.PackLosesNothing` | cli/src/batch.ts:68-106 | the batches hold exactly the units, in order |
| `Packing.PackIsGreedy` | cli/src/batch.ts:78-95 | no batch is empty, each is a single unit or within both limits, and none could have taken the first unit of the next |
| `Packing.GreedyStaysAhead` | cli/src/batch.ts:68-106 | for any limit closed under slices, the greedy split has covered at least as many units after k groups as any other split |
| `Packing.PackIsOptimal` | cli/src/batch.ts:68-106 | no order-preserving split into feasible groups uses fewer transactions |
| `Packing.BatchCountBound` | cli/src/batch.ts:68-106 | pairs of neighbouring batches each overflow a limit, so the number of batches is bounded by total bytes and gas |
| `Packing.BatchGasSum` | cli/src/batch.ts:71-95 | the batches' gas is the units' gas plus 31000 for each |
| `Packing.PlanGasVersusEstimate` | cli/src/batch.ts:60-106 | that sum differs from the printed estimate by exactly 31000 n - 10000 |
| `Packing.BatchBytes` | cli/src/batch.ts:78-94 | no batch of file chunks, singletons included, exceeds 100000 bytes |
| `Packing.PackedBatchesRebuildFiles` | cli/src/batch.ts:31-106 | cutting, packing, flattening and joining gives each file back |
| `Manifests.BuildManifest` | cli/src/manifest.ts:28-52 | one entry per file: by itself with its hash and block iff it is one chunk, else its parts in order; a name iff asked for and not empty; the bytes are the compressed text |
| `Manifests.ParseUndoesBuild` | gateway/handlers.go:235-253 | reading what was built gives back each entry's chunks and name |
| `Manifests.OldManifest` | gateway/handlers.go:244-252 | an old list of hashes reads as one nameless entry each, of one chunk with no block |
| `Manifests.ParseExactly` | gateway/handlers.go:235-253 | a manifest is refused iff it is no list or its first entry has neither hash nor parts; otherwise each entry is read by itself |
| `Manifests.ReproducesForever` | contracts/src/EVMFS.sol:4-31 | a manifest that gives back its files does so at every later time |
| `UploadState.RemainingMembers` | cli/src/upload.ts:133-135 | the units left are exactly those whose key is not confirmed |
| `UploadState.RemainingInOrder` | cli/src/upload.ts:133-135 | and they go up in the same order |
| `UploadState.KeepValidMembers` | cli/src/upload.ts:117-122 | a saved entry survives iff some unit has its file, chunk and chunk count |
| `UploadState.HashToUnitFinds` | cli/src/upload.ts:196-198 | a stored hash is found, under a unit with the same bytes, and under the unit itself if its bytes are unique in the batch |
| `UploadState.UniqueDataCreditedOnce` | cli/src/upload.ts:220-241 | a unit whose bytes are unique in its batch is credited exactly once |
| `UploadState.EqualDataLosesOne` | cli/src/upload.ts:196-241 | of two units with equal bytes in a batch at least one is never credited |
| `UploadState.CreditsExactly` | cli/src/upload.ts:196-241 | a batch credits each of its units exactly once iff no two have the same bytes |
| `UploadState.PlanCreditsExactly` | cli/src/upload.ts:189-250 | the same for a whole plan: iff no batch repeats any bytes |
| `UploadState.FullChunkHasNoTwin` | cli/src/batch.ts:78-81 | a full chunk shares its batch with no chunk of equal bytes |
| `UploadState.PlanCreditsBigOnes` | cli/src/upload.ts:189-250 | so every chunk but a file's last is credited exactly once, whatever the contents |
| `Assembly.SortSorts` | cli/src/upload.ts:266 | the file's chunks come out in ascending chunk order |
| `Assembly.SortPermutes` | cli/src/upload.ts:266 | and are the same chunks as before |
| `Assembly.CountMatchesExactly` | cli/src/upload.ts:267-274 | for a truthful list with its full chunks in place, a file passes the count check iff its last chunk is listed exactly once |
| `Assembly.AllCountsMatchExactly` | cli/src/upload.ts:264-284 | all files pass iff every chunk of every file is listed exactly once |
| `Assembly.SortedIsComplete` | cli/src/upload.ts:265-278 | then the sorted chunks of a file are chunk 0, 1, 2, ... without a gap (pigeonhole) |
| `Assembly.AssembledEntryIsRight` | cli/src/upload.ts:275-278 | then the entry's hashes are on chain where it says and their contents join to the file |
| `Assembly.StoredManifestReproduces` | cli/src/upload.ts:252-306 | then the stored manifest parses and gives back every file under its name |
| `Upload.DiskOkForever` | cli/src/manifest.ts:94-130 | what a truthful state file says stays true while the chain grows |
| `Upload.LegacyEntriesExactly` | cli/src/manifest.ts:104-122 | an entry of an old state file survives iff its file still has one chunk, and is then truthful iff its hash is the file's and stored |
| `Upload.SavedExactly` | cli/src/manifest.ts:94-125 | a current file is taken as it is; an old one entry by entry, as single chunks without a block, with its manifest; anything else says nothing |
| `Upload.ResumeKeepsBigOnes` | cli/src/upload.ts:113-135 | resuming never lists a full chunk twice, after any number of confirmed batches |
| `Upload.FinishedPlan` | cli/src/upload.ts:133-250 | after all batches every chunk is listed exactly once iff none was listed twice before and no batch repeats any bytes |
| `Upload.UnfinishedMeansDoubled` | cli/src/upload.ts:189-250 | if a finished plan does not list every chunk exactly once, it lists one of them twice |
| `Upload.TwoEqualFilesCollapse` | cli/src/upload.ts:196-198 | the condition can fail: two equal small files share a batch and one is lost |
| `UploadRun.Submit` | cli/src/upload.ts:200-214 | a batch transaction that may fail before or after it is mined; a receipt lists the batch's events, which are on chain |
| `UploadRun.RecordReceipt` | cli/src/upload.ts:220-241 | one confirmed chunk per log, in log order, each with its credited unit, hash and block |
| `UploadRun.CreditsAreRight` | cli/src/upload.ts:225-235 | every chunk recorded from a receipt tells the truth about its file and where its bytes are |
| `UploadRun.GroupByFile` | cli/src/upload.ts:255-260 | each file's list is the sublist of its chunks |
| `UploadRun.EntryOfFile` | cli/src/upload.ts:265-278 | the sorted chunks as an entry iff the file passes the count check |
| `UploadRun.AssembleEntries` | cli/src/upload.ts:255-284 | counts exactly the files that fail the check, and lists the entries in order when none does |
| `UploadRun.MismatchesExactly` | cli/src/upload.ts:263-284 | the reported number is the number of files whose chunks do not count up |
| `UploadRun.SendOne` | cli/src/upload.ts:189-250 | one batch with a crash possible before, between and after its effects: the state file then lists this batch, or what it listed before it |
| `UploadRun.SendBatches` | cli/src/upload.ts:189-250 | the loop keeps that and, unless it stops, ends with the keys of the whole plan |
| `Upload.StartsWithWhatFits` | cli/src/upload.ts:106-131 | a run starts with exactly the saved entries, migrated if old, that fit a chunk of the files |
| `Upload.PrintedBlockIsAChunks` | cli/src/upload.ts:645-661 | the printed block is the first listed chunk's, where a chunk of the files is stored, and 0 if none is listed |
| `Upload.PlanInNumbers` | cli/src/batch.ts:68-106 | in gas and bytes: every planned transaction of several chunks keeps to both limits, and with the next chunk it would not |
| `UploadRun.Finish` | cli/src/upload.ts:252-284 | refuses iff some chunk is not listed exactly once |
| `UploadRun.StoreTheManifest` | cli/src/upload.ts:286-306 | the manifest transaction and the save, with a crash possible around each: whatever was stored reproduces the files |
| `UploadRun.Run` | cli/src/upload.ts:82-327 | one run of upload or deploy from any truthful disk: the disk stays truthful; every manifest stored reproduces the files; without consent nothing is sent; it is already complete iff a manifest is recorded and every chunk listed; a finished run prints the first listed chunk's block, where a chunk of the files is stored; a refusal counts the incomplete files, means that something collapsed and leaves a disk that no run gets past; a run that fails leaves a disk that lists what its finished batches were credited with; a completion from scratch means that nothing collapsed; and without faults the run completes or refuses |
| `UploadRun.Lifetime` | cli/src/upload.ts:45-643 | the same over any sequence of runs with faults and other people's traffic anywhere |
| `UploadRun.RetryForever` | cli/src/upload.ts:281-284 | after a refusal no run on that disk with the same files ever completes or stores a manifest, though the message says to re-run |
| `WebState.InOrder` | web/src/lib/evmfs.ts:259-261 | a file's chunks in the list are 0, 1, 2, ... with at most the last missing |
| `WebState.EntryJoins` | web/src/lib/evmfs.ts:266-274 | its entry joins to the file if the last chunk is there, and otherwise to the file cut short, which differs from it |
| `WebState.LaterTwinTakesOver` | web/src/lib/evmfs.ts:368-387 | sending a batch confirms a unit iff no later unit of the batch has the same bytes |
| `WebState.FullChunksConfirmed` | web/src/lib/evmfs.ts:325-419 | chunks other than a file's last are confirmed after the loop whatever the contents |
| `WebState.FinishedExactly` | web/src/lib/evmfs.ts:325-419 | after the loop every chunk is confirmed iff each was in the resumed progress or is the last of its batch with its bytes |
| `WebState.FreshPlanIsSafeExactly` | web/src/lib/evmfs.ts:317-368 | without resumed progress that condition says that no batch repeats any bytes |
| `WebUpload.Resume` | web/src/lib/evmfs.ts:317-323 | the map has exactly the saved keys, each with the last saved entry of that key |
| `WebUpload.RecordInto` | web/src/lib/evmfs.ts:368-397 | the receipt adds exactly the credited keys: those have an entry of this receipt, the others keep theirs |
| `WebUpload.Values` | web/src/lib/evmfs.ts:423 | every map entry once |
| `WebUpload.BuildManifestEntries` | web/src/lib/evmfs.ts:247-277 | throws only for a file without chunks, else lists an entry per file: by itself iff its only chunk says that it is the whole file, and under the file's name if it has one |
| `WebUpload.LastsPresentExactly` | web/src/lib/evmfs.ts:259-275 | no file lacks its last chunk iff every chunk is in the list |
| `WebUpload.WebManifestExactly` | web/src/lib/evmfs.ts:421-454 | the stored manifest reproduces the files iff no file lacks its last chunk |
| `WebRun.SendBatch` | web/src/lib/evmfs.ts:335-416 | one to three attempts, three before giving up: success adds exactly the batch's credited keys; map and saved progress stay truthful whatever fails |
| `WebRun.WebPlanInNumbers` | web/src/lib/evmfs.ts:178-207 | in gas and bytes: every planned transaction of several chunks keeps to both limits, and with the next chunk it would not |
| `WebRun.SendWebBatches` | web/src/lib/evmfs.ts:325-419 | skipping and sending give exactly the keys saved or credited; with everything saved nothing is sent |
| `WebState.UnitFinishedExactly` | web/src/lib/evmfs.ts:325-419 | after the loop one chunk is confirmed iff it was in the resumed progress or is the last of its batch with its bytes |
| `WebUpload.WebManifestGives` | web/src/lib/evmfs.ts:421-454 | the stored manifest reproduces exactly what the list holds: each file, or the file without its last chunk |
| `WebRun.EmptyExactly` | web/src/lib/evmfs.ts:259-264 | a file has no chunk at all iff it has one chunk only and that was not safe |
| `WebRun.ManifestFate` | web/src/lib/evmfs.ts:421-426 | what the loop leaves behind makes a complete manifest iff the plan was safe, and none iff a file was lost |
| `WebRun.StoreWebManifest` | web/src/lib/evmfs.ts:426-456 | the stored manifest reproduces the files iff the list is complete |
| `WebRun.UploadFiles` | web/src/lib/evmfs.ts:300-487 | whatever fails and whatever progress is resumed: it throws for missing chunks iff a file with one chunk was not safe; else the manifest, stored at the block it reports, gives each file, cut by its last chunk iff that was not safe; so it is right iff the plan was safe, which the caller can tell beforehand |
| `WebRun.CutShort` | web/src/lib/evmfs.ts:262-274 | the condition can fail silently: with a file one byte over a chunk and a file of that byte the plan is not safe, no file is lost, and the long file is cut |
| `WebRun.UploadCutShort` | web/src/lib/evmfs.ts:300-487 | uploading those two without any fault reports success, and the manifest gives the long file without its last byte |
| `Rewriter.RewriteURLs` | gateway/rewriter.go:51-84 | the loops over hosts and patterns compute the passes in order; without a replacement the text is the same, and so it is for content that is not rewritten (what a pass does is below) |
| `RewriterInputs.TrimExactly` | gateway/rewriter.go:14-16 | trimming gives the text between the outer blanks |
| `RewriterInputs.PlainTypeExactly` | gateway/rewriter.go:13-32 | a content type without parameters is rewritten iff it is one of the ten listed, in any letter case and with any blanks around it |
| `RewriterInputs.ParametersExactly` | gateway/rewriter.go:13-32 | and so is one with parameters, whatever they are |
| `RewriterInputs.HtmlIsRewritten` | gateway/detect.go:9 | the type of every .html file, text/html; charset=utf-8, is rewritten, and away from every listed host if the hosts are well configured |
| `RewriterInputs.DirectScheme` | gateway/rewriter.go:36-44 | without a forwarded scheme it is https iff the connection is encrypted, else http |
| `RewriterInputs.ForwardedScheme` | gateway/rewriter.go:37-41 | a forwarded scheme is taken verbatim, whatever the connection |
| `RewriterInputs.FirstForwardedScheme` | gateway/rewriter.go:37-41 | of several forwarded schemes the first one, without its blanks |
| `Rewriter.ReplaceSwapsOccurrences` | gateway/rewriter.go:77-80 | a pass swaps one text for another between stretches that survive in order |
| `Rewriter.PassLeavesClean` | gateway/rewriter.go:67-80 | a pass neither creates "//host" for a host that it cannot complete nor leaves the one it replaces |
| `Rewriter.HostKeepsClean` | gateway/rewriter.go:67-80 | the three passes for any host keep the text clean of all hosts before it |
| `Rewriter.HostBecomesClean` | gateway/rewriter.go:67-80 | the three passes for a host make the text clean of it |
| `Rewriter.NothingLeftOver` | gateway/rewriter.go:51-84 | after rewriting no source host follows "//" anywhere, if none overlaps with the gateway's host and none but the last is created by a later one |
| `Rewriter.RewriteIsIdempotent` | gateway/rewriter.go:51-84 | a second rewrite returns the text unchanged with the flag false |
| `Rewriter.UnshieldedEndings` | gateway/rewriter.go:67-71 | a first host is not created by later ones iff none of its endings starts the new scheme beyond "http"; such a host may stand anywhere |
| `Rewriter.HttpEndings` | gateway/rewriter.go:36-48 | behind http that excludes only hosts ending in "http:" |
| `Rewriter.HttpsEndings` | gateway/rewriter.go:36-48 | behind https only hosts ending in "https" or "https:" |
| `RewriterExactly.OverlapLeaves` | gateway/rewriter.go:67-80 | a host that is a prefix of the gateway's host, or the reverse, is left in some text whatever else is listed |
| `RewriterExactly.NextHostCreates` | gateway/rewriter.go:67-80 | a host that the next one can create is left in some text |
| `RewriterExactly.ListExactly` | gateway/rewriter.go:51-84 | a list of hosts, none a prefix of another, is rewritten out of every text iff none overlaps with the gateway's host and none but the last is created by a later one |
| `RewriterExactly.OneHostExactly` | gateway/rewriter.go:57-80 | the case of a single host: iff neither it nor the gateway's host is a prefix of the other |
| `RewriterExactly.EndingsMatter` | gateway/rewriter.go:67-80 | for a list the endings matter: "ahttps" then "f", served from https://g, leave "//ahttps" in "//ahttp://f" |
| `RewriterExactly.CanonicalHostExactly` | gateway/rewriter.go:71-76 | on the canonical host itself a text is left alone and unmarked iff it has no reference to that host in another scheme than the request's |
| `Abi.HexRoundTrip` | gateway/rpc.go:350-356 | hex text decodes to the bytes it was made from |
| `Abi.HexDecodeExactly` | gateway/rpc.go:350-356 | a text decodes to b iff it is two hex digits, small or capital, for each byte of b, the high half first |
| `Abi.HexEncodeExactly` | gateway/names.go:283 | printed hashes are small hex digits, the high half first |
| `Abi.AbiEncodeExactly` | contracts/src/EVMFS.sol:6 | the encoding is the offset 32, the length, the bytes, and zeros up to a whole number of words |
| `Abi.GatewayRoundTrip` | gateway/rpc.go:350-375 | the gateway decodes the encoding of any byte string with an int-sized length back to it |
| `Abi.DecodedExactly` | gateway/rpc.go:358-374 | log data with words below 2^63 - 64 gives x iff the offset is 32, the length is that of x, and x follows; what comes after is ignored |
| `Abi.HexToBytes` | lib/src/rpc.ts:77-83 | filling the array two digits at a time decodes the text |
| `Abi.BytesToInt` | lib/src/rpc.ts:85-93 | the loop reads the number in the last six bytes |
| `Abi.LibAbiDecode` | lib/src/rpc.ts:56-75 | the library's steps compute its decoder on the decoded bytes, errors included |
| `Abi.LibRoundTripExactly` | lib/src/rpc.ts:56-93 | the library decodes an encoding back iff the content is shorter than 2^48 bytes |
| `Abi.DecodersAgree` | gateway/rpc.go:358-374 | on any bytes, well encoded or not, the two decoders agree while both words are below 2^48 |
| `Lookup.FetchLogsInRange` | gateway/rpc.go:295-348 | data found is the preimage of the hash and was in the window; nothing means none was; an error needs an unreliable endpoint |
| `Lookup.FetchFromRPCBlockHintOnly` | gateway/rpc.go:230-240 | the same for the block of a positive hint and its two neighbours; without one it looks nowhere |
| `Lookup.ScanBackward` | gateway/rpc.go:259-292 | finds iff the newest 200 windows hold a match; "no logs" only after windows tiling down to block 0, the cap error only after exactly 200 |
| `Lookup.ScanFloorIs` | gateway/rpc.go:57-76 | 200 windows are the newest 200 times range blocks |
| `Lookup.FetchFromRPC` | gateway/rpc.go:242-293 | the hint window, then the scan: what it finds and what its errors mean |
| `Lookup.ResolveHint` | gateway/rpc.go:134-145 | a positive hint stands; without one, on chains 1 and 143, it is the block of the first endpoint that knows one; otherwise the hint stands |
| `Lookup.HintOfTheIndex` | gateway/rpc.go:63-66 | the same of the function that the theorems below are stated with |
| `Lookup.SecondEndpointKnows` | gateway/rpc.go:136-145 | an input where the first endpoint does not know the block, the second does, and only that finds the content |
| `Lookup.ScanExactly` | gateway/rpc.go:49-76 | the scan covers the newest 20000 blocks on chain 143 and the newest 10000000 elsewhere |
| `Lookup.FetchContent` | gateway/rpc.go:126-172 | whatever is returned is the preimage of the hash; it is found if any reliable endpoint can see it: near the hint on any contract, in the scanned blocks on the last |
| `Lookup.SeenExactly` | gateway/rpc.go:147-165 | an endpoint of the list sees the content iff a log lies near the hint on some contract or in the scanned blocks of the last |
| `Lookup.PositiveHintExactly` | gateway/rpc.go:136-145 | a positive hint, right or wrong, keeps the block index from being asked: the content is seen iff that very hint reaches it |
| `Lookup.FetchExactly` | gateway/rpc.go:126-172 | with reliable endpoints a fetch succeeds iff its resolved hint reaches the content |
| `Lookup.WrongHintMisses` | gateway/rpc.go:136-165 | a wrong hint can hide content that the block index knows and no hint would find |
| `Lookup.LibFetchLogsInRange` | lib/src/rpc.ts:37-54 | the library's window, likewise |
| `Lookup.LibFetchContent` | lib/src/rpc.ts:95-122 | the uncapped scan tiles [0, latest] and reports no logs only when neither it nor the hint window holds a match |
| `Lookup.LibHintIsInvisible` | lib/src/rpc.ts:95-122 | on a reliable, current endpoint a hinted fetch returns what an unhinted one does, and finds exactly what is stored |
| `Decimals.AtoiDecimal` | gateway/handlers.go:289-293 | a printed index is parsed back |
| `Decimals.AtoiExactly` | gateway/handlers.go:289-293 | with or without a sign, numbers are read iff they fit 64 bits |
| `Decimals.AtoiRefuses` | gateway/handlers.go:289-293 | anything but an optional sign and digits is no number |
| `Decimals.ParseIntExactly` | gateway/handlers.go:100 | a printed block is read back, or as the largest 64-bit number if it is larger |
| `Decimals.LeadingZero` | gateway/handlers.go:100 | zeros in front do not change a number |
| `Resolution.FindByFilename` | gateway/handlers.go:205-212 | the first entry with the name, or -1 |
| `Resolution.FindByFilenameStem` | gateway/handlers.go:214-233 | the first entry whose name is the stem, a dot and a text without dots and slashes, or -1 |
| `Resolution.ExtExactly` | gateway/handlers.go:221-224 | an extension is the text from a dot that neither a dot nor a slash follows; there is none iff no dot follows the last slash |
| `Resolution.StemExactly` | gateway/handlers.go:221-230 | what the stem match accepts is exactly the stem, a dot and such a text |
| `Resolution.HtmlExtension` | gateway/handlers.go:296-297 | an extension is .html iff the path ends so |
| `Resolution.ResolveIndex` | gateway/handlers.go:275-300 | the steps compute the resolution function (which entry that is: the next row) |
| `Resolution.ResolutionOrder` | gateway/handlers.go:275-300 | a path gets the first entry of that name; else, if it has no extension, the first with that stem; else the index it spells; else index.html if it has no extension or ends in .html; else nothing |
| `Resolution.PageFound` | gateway/handlers.go:285 | a page is found without its extension: about is about.html |
| `Resolution.StyleIsMissing` | gateway/handlers.go:295-300 | a missing style.css is not found, although there is an index.html |
| `Resolution.NamesResolve` | gateway/handlers.go:278-300 | a site file's name resolves to that file whatever else the name could stand for |
| `Resolution.IndicesResolve` | gateway/handlers.go:289-293 | in a manifest without names a printed index resolves to that entry |
| `Resolution.StemBeatsIndex` | gateway/handlers.go:275-287 | a stem wins over the index it spells |
| `Resolution.FallbackExactly` | gateway/handlers.go:295-300 | an unknown path gets index.html iff it has no extension or ends in .html, and is not found otherwise |
| `Resolution.LibResolveEntry` | lib/src/index.ts:102-113 | canonical index first, then name |
| `Resolution.CanonicalIndexExactly` | lib/src/index.ts:103-106 | a path is the index j iff it is the decimal text of j |
| `Resolution.LibFindsNameExactly` | lib/src/index.ts:102-113 | the library finds the file of a given name iff the name is not the index of another entry |
| `Gateway.TablesNeverMix` | gateway/cache.go:16-32 | writing either table leaves both truthful: no raw path is a decoded path |
| `Gateway.FetchRawChunk` | gateway/handlers.go:505-529 | with other requests interleaved, the result is what an uncached fetch gives and the cache stays truthful and loses nothing; failure means out of reach; with a disk that works, what is cached is found and what is found is cached |
| `Gateway.FetchAndDecompress` | gateway/handlers.go:570-599 | the same through the decoded table |
| `Gateway.FetchMultipart` | gateway/handlers.go:531-568 | the parts' bytes joined in order, decompressed as a whole; failure means some part is out of reach |
| `Gateway.HandleManifestOrFile` | gateway/handlers.go:255-343 | serves exactly the entry the path resolves to; not found means that there is none, a bad manifest that it does not parse or the entry has no hash and no parts, a gateway error that the manifest or a part of that entry is out of reach |
| `Gateway.AnswerTwice` | gateway/handlers.go:505-599 | with a disk that works, what was answered once is answered again with the same bytes, whatever has become of the endpoints |
| `EndToEnd.SiteFileIsServed` | gateway/handlers.go:255-343 | the answer to a path is the file the manifest gives under it, decompressed if it decompresses |
| `EndToEnd.UploadedFileIsServed` | gateway/handlers.go:255-343 | so a manifest the command line stored answers each file's path with that file, once the fetches succeed |
| `EndToEnd.OriginalBytesAreServed` | gateway/handlers.go:584-592 | and with its bytes from before compression |
| `EndToEnd.BrowserBytesExactly` | gateway/handlers.go:564-592 | a file of the browser uploader is served as uploaded iff it does not decompress to something else |
| `EndToEnd.RecordedBlockIsEnough` | gateway/rpc.go:229-256 | content whose recorded block is its own is in reach of any gateway that knows the contract and has one reliable endpoint |
| `EndToEnd.UrlReachesExactly` | gateway/rpc.go:136-165 | the manifest behind a URL is in reach iff its block, or with none the block index or the scan, reaches it |
| `EndToEnd.VisitSite` | gateway/handlers.go:255-343 | a visit to a site with recorded blocks, whose manifest the URL reaches, is answered with the file |
| `EndToEnd.UploadThenVisit` | cli/src/upload.ts:645-661 | after a run that ends well, if the printed block reaches the manifest, the visitor gets the file's original bytes |
| `EndToEnd.BrowserUploadThenVisit` | web/src/lib/evmfs.ts:483-487 | the URL of a browser upload always reaches its manifest, and the visitor gets what survived of the file, decompressed if it decompresses |
| `Multipart.AtMostEight` | gateway/handlers.go:535-547 | in every interleaving at most eight goroutines hold the semaphore |
| `Multipart.EightAtOnce` | gateway/handlers.go:535-547 | and with eight parts or more there are eight in some interleaving |
| `Multipart.NeverStuck` | gateway/handlers.go:535-549 | until the call returns someone can move |
| `Multipart.EveryStepCounts` | gateway/handlers.go:538-549 | every move uses up one of finitely many, so it returns |
| `Multipart.ResultsAreFinal` | gateway/handlers.go:544-546 | a stored result is never replaced |
| `Multipart.CollectResults` | gateway/handlers.go:551-562 | the code after Wait gives the first error in part order or the bytes joined, as fetching one by one would |
| `Multipart.AfterWait` | gateway/handlers.go:549-562 | at Wait every part has its result, and the call succeeds iff all parts did |
| `Multipart.ParallelFetchIsSequential` | gateway/handlers.go:531-562 | a call that succeeds returns the parts' bytes joined in part order, whatever the interleaving |
| `SingleFlight.OneLookupPerName` | gateway/names.go:56-77 | in every interleaving at most one lookup runs per name |
| `SingleFlight.InMapWhileLeading` | gateway/names.go:57-71 | a name is in the map exactly while its leader is between insert and delete |
| `SingleFlight.EveryoneGetsTheLeadersAnswer` | gateway/names.go:58-76 | whoever returns from a call returns what its leader returned, and not before it |
| `SingleFlight.AnswersAreFinal` | gateway/names.go:60-76 | a written answer is never replaced |
| `SingleFlight.JoinedAnswersFit` | gateway/names.go:58-76 | whatever holds of every answer a caller's own lookup could give for its name holds of the one it returns, also when it waited for another caller |
| `SingleFlight.NeverStuck` | gateway/names.go:56-77 | while a caller has not returned someone can step |
| `SingleFlight.EveryStepCounts` | gateway/names.go:56-77 | every step uses up one of finitely many, so every caller returns |
| `NameService.DecodeLookupResult` | gateway/names.go:255-289 | owner zero, owner and site, or garbled, with the block accumulated in 64-bit arithmetic |
| `NameService.Int64Accumulates` | gateway/names.go:278-281 | accumulating in signed 64-bit arithmetic gives the eight bytes' number modulo 2^64 |
| `NameService.LookupRoundTrip` | contracts/src/EVMFSNames.sol:72-81 | what the contract answers is what the gateway reads, for every block a contract can store; the block itself iff it is below 2^63 |
| `NameService.LongerAnswers` | gateway/names.go:256-289 | what follows the three results is ignored, and the 0x may be missing |
| `NameService.ShortAnswers` | gateway/names.go:257-259 | an answer of fewer than 96 bytes is garbled |
| `NameService.LengthWordExactly` | gateway/names.go:154-158 | the length word built by hand is the ABI's iff the name is shorter than 65536 bytes |
| `NameService.LengthWordIs` | gateway/names.go:154-158 | a longer name's length word is its length modulo 65536 |
| `NameService.QuestionExactly` | gateway/names.go:152-167 | what is sent behind the selector is the ABI's encoding of the name iff the name is shorter than 65536 bytes |
| `NameService.DoRPC` | gateway/names.go:173-217 | the site named by the first contract whose first decisive reply names one, wherever among its endpoints that is; else not registered iff some contract's first decisive reply says so; else no reply at all was decisive |
| `NameService.VerdictExactly` | gateway/names.go:183-207 | one contract's verdict is its first reply that is neither failed nor garbled; it has none iff all are |
| `NameService.NameCache.Get` | gateway/names.go:79-87 | a served answer was stored for this very name at most 60 s before |
| `NameService.NameCache.DropExpired` | gateway/names.go:94-99 | exactly the expired entries go |
| `NameService.NameCache.MakeRoom` | gateway/names.go:100-105 | no more entries go than needed |
| `NameService.NameCache.Set` | gateway/names.go:89-112 | never more than 10000 entries; a full cache gives up expired entries first, and others only when that is not enough |
| `NameService.NameCache.Cleanup` | gateway/names.go:114-127 | a tick drops exactly the expired entries |
| `NameService.NameCache.AskUnlessCached` | gateway/names.go:163-217 | when its turn comes a leading caller asks iff no fresh answer has been stored in the meantime, and then stores what it learns |
| `NameService.NameCache.LookupName` | gateway/names.go:131-223 | with other callers in between: a fresh stored answer is given without asking; otherwise a caller that leads gets one stored for the name in the last 60 s or what the contracts answer, which is remembered for 60 s unless no reply was decisive |
| `Registry.IsValidName` | contracts/src/EVMFSNames.sol:83-93 | accepts iff every byte is a-z, 0-9, or a hyphen that is neither first nor last |
| `Registry.ValidNameExactly` | contracts/src/EVMFSNames.sol:44-45 | a name is one to 32 of the characters a-z and 0-9, and hyphens inside |
| `Registry.MintKeepsTables` | contracts/src/EVMFSNames.sol:48-51 | minting keeps: minted iff site iff name, the name valid and hashing to the token, minted once |
| `Registry.WriteKeepsAuthorised` | contracts/src/EVMFSNames.sol:51-68 | a site write by the manifest's uploader keeps: each site is the last written, every write authorised |
| `Registry.RegisteredOnce` | contracts/src/EVMFSNames.sol:48-50 | no name is registered twice |
| `Registry.Names.Register` | contracts/src/EVMFSNames.sol:38-57 | succeeds iff 0.001 ether are paid, the name is one and is free, the sender uploaded the manifest, and the fee goes through; a failure leaves nothing behind, nested calls included |
| `Registry.Names.Mint` | contracts/src/EVMFSNames.sol:48-55 | the writes of a registration and the fee passing through |
| `Registry.Names.Update` | contracts/src/EVMFSNames.sol:59-70 | succeeds iff the sender owns the token and uploaded the manifest; changes that site only |
| `Registry.MoveKeepsConsistent` | contracts/src/EVMFSNames.sol:11 | moving a token to another owner keeps the tables consistent |
| `Registry.Names.Approve` | contracts/src/EVMFSNames.sol:11 | ERC-721: the owner or an operator approves one account for a token |
| `Registry.Names.SetApprovalForAll` | contracts/src/EVMFSNames.sol:11 | ERC-721: an account names or drops an operator |
| `Registry.Names.TransferFrom` | contracts/src/EVMFSNames.sol:11 | ERC-721: the owner, an operator or the approved account moves the token; the approval is forgotten; nothing else changes |
| `Registry.Names.SafeTransferFrom` | contracts/src/EVMFSNames.sol:11 | ERC-721: the same, undone entirely if the receiver's code, which may call back, refuses |
| `Registry.Names.TransferOwnership` | contracts/src/EVMFSNames.sol:11 | Ownable: only the owner, and to somebody |
| `Registry.Names.RenounceOwnership` | contracts/src/EVMFSNames.sol:11 | Ownable: only the owner, and for good |
| `Registry.Names.SetFeeRecipient` | contracts/src/EVMFSNames.sol:33-36 | only the contract owner, and the recipient only |
| `Registry.Names.Lookup` | contracts/src/EVMFSNames.sol:72-81 | the owner and the last site written for the name, or nobody and nothing |
| `Registry.Names.OtherCodeRuns` | contracts/src/EVMFSNames.sol:55-56 | whatever code the registry calls into calls in turn, to any depth, the registry stays consistent and nothing registered is undone |
| `Registry.Names.Transactions` | contracts/src/EVMFSNames.sol:33-70 | over any sequence of transactions, ERC-721 and Ownable ones included: names never change, histories only grow, no wei stays behind |
| `Routing.JoinSplit` | gateway/handlers.go:80-101 | joining the segments of a text gives it back |
| `Routing.ContentHashExactly` | gateway/handlers.go:20 | a content hash is 0x and the hex text of 32 bytes |
| `Routing.PrintedHash` | gateway/handlers.go:20 | every printed 32-byte hash is one |
| `Routing.StaticExactly` | gateway/handlers.go:98-125 | a path names content iff a chain id is followed by a hash, at once or after a block; anything else is a static file |
| `Routing.FixedRoutesExactly` | gateway/handlers.go:92-96 | /health and /resolve, with a trailing slash or without, and no other path |
| `Routing.UrlRoundTrip` | gateway/handlers.go:77-102 | routing a printed file path reaches the manifest handler with its four parts: exactly, iff the block fits a signed 64-bit number, and clamped otherwise |
| `Routing.BaseUriRoutes` | gateway/handlers.go:104-110 | the base URI is a directory with its trailing slash and a single file without |
| `Routing.HashAloneIsAFile` | gateway/handlers.go:116-117 | a chain and a hash are a single file with or without a trailing slash |
| `Routing.BlocklessUrlRoutes` | gateway/handlers.go:112-114 | a path behind a hash without a block reaches the manifest handler with no hint |
| `Routing.FullUrlResolves` | gateway/handlers.go:142-157 | a full URL on any host resolves to the path it carries |
| `Routing.QueryIsDropped` | gateway/handlers.go:153-157 | a query or fragment behind it makes no difference |
| `Routing.BareHostAndName` | gateway/handlers.go:142-152 | a host alone resolves to the root, a name without its slash gets one |
| `Routing.BarePathExactly` | gateway/handlers.go:142-157 | a bare path resolves to itself iff it does not contain "://" |
| `Routing.ResolveRoundTrip` | gateway/handlers.go:135-166 | resolving the full URL of a site's file reaches the same handler with the same four parts |
| `WorkerPool.FetchesInOrderAndBounded` | lib/src/index.ts:81-97 | at any moment entries have been taken in order, none twice, and at most `concurrency` fetches are outstanding |
| `WorkerPool.PoolStartsFull` | lib/src/index.ts:93-95 | and at the start that many are, as far as there are entries |
| `WorkerPool.EachEntryFetchedOnce` | lib/src/index.ts:81-97 | a call that resolves has fetched and stored every entry exactly once |
| `WorkerPool.PoolIsSequential` | lib/src/index.ts:71-100 | for every order of settling the map is the sequential one if entries sharing a key share their content |
| `WorkerPool.AlwaysSequentialExactly` | lib/src/index.ts:71-100 | with two loops or more, only if |
| `WorkerPool.CombineParts` | lib/src/index.ts:122-128 | copying the parts into one buffer gives them joined |
| `WorkerPool.StoredSiteComesBack` | lib/src/index.ts:62-100 | fetchAll of a stored site gives each name its file, decompressed if it decompresses, and nothing else |
| `WorkerPool.BrowserSiteExactly` | lib/src/index.ts:62-100 | so a site stored as it is comes back byte for byte iff none of its files decompresses to something else |
| `WorkerPool.SiteComesBack` | lib/src/index.ts:62-100 | and a site gzipped by the command line comes back as it was |
| `WorkerPool.CollectionComesBack` | lib/src/index.ts:62-100 | fetchAll of a stored collection without names gives each index its original file and nothing else |

## Left out

- UploadRun.Run: display names of chunks, console output, price estimates and the local manifest copy are not modelled; the answer to the prompt is a parameter, and the printed URL is its block.
- UploadRun.Submit: nonces, fees and gas limits are not modelled; a transaction is mined as a whole or fails.
- Evmfs.Chain.Store: gas is not modelled; that a batch fits a block is the packer's limit only.
- Manifests.ParseUndoesBuild: JSON is a tree of the shapes the uploaders write and the old list of hashes; malformed text is any text that does not parse.
- WebRun.UploadFiles: the second signer variant (web/src/lib/evmfs.ts:489-698) repeats the same loop and is not modelled again; neither is the block-index registration after it, nor the check that saved progress belongs to the same file names, its age limit, and the migration of old entries.
- Rewriter.NothingLeftOver: source hosts, gateway hosts and schemes with a slash in them are excluded; for lists in which a host is a prefix of another the condition is sufficient, and its converse is not stated.
- Rewriter.RewriteURLs: case folding and trimming are modelled for ASCII, text as characters rather than bytes.
- Abi.LibAbiDecode: digits that are not hex, which JavaScript turns into zero bytes, are outside its precondition; nodes answer well-formed hex.
- Abi.GatewayRoundTrip: lengths of 2^63 - 64 and more, where Go's int wraps, are excluded; the decoder model itself wraps and panics there as Go does.
- EndToEnd.UploadThenVisit: the visit is answered only for logs whose events a decoder can count (shorter than 2^63 - 64 bytes), as any real log is.
- Lookup.FetchContent: the log does not grow during one call; the block-index answer of an endpoint is a parameter and may be wrong.
- Lookup.LibFetchContent: the same holds for the library's call.
- Gateway.FetchMultipart: fetches its parts one by one; the parallel form and its equality with this one are the subject of `Multipart`.
- Gateway.HandleManifestOrFile: content types, headers and status texts are not modelled; hashes are well formed by type, so the checks of their syntax are not.
- Resolution.ResolveIndex: names are compared as the gateway gets them, after the HTTP library's unescaping, which is not part of this model.
- SingleFlight.OneLookupPerName: a lookup function that panics is not modelled.
- NameService.NameCache.LookupName: a caller that waits for another one's lookup is the subject of `SingleFlight.JoinedAnswersFit`; errors in the configuration of names are not modelled.
- Registry.Names.Register: 64-bit block numbers are not bounded, since the contract only stores them; the depth of nested calls is any number.
- Registry.Names.SafeTransferFrom: whether the receiver is a contract is a parameter; the library behind ERC-721 and Ownable is not part of the repository, and the model follows EIP-721 and the library's documented behaviour.
- Routing.UrlRoundTrip: the named-subdomain branch (gateway/handlers.go:65-75), the rate limiter and methods other than GET are left out.
- WorkerPool.PoolIsSequential: a rejected fetch ends the call with an error and the map is not returned, so the theorems are about calls that resolve.
- The directory listing's HTML, content sniffing, configuration defaults, the formatting of fees, and the browser's history and price display: they present what is modelled here and store nothing.
- EVMFSV2, EVMFSNamesV2 and EVMFSBlockIndex are not part of this model; neither are the user interfaces.
