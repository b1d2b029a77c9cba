# A verified model of s3store

s3store builds an immutable blob map on a plain object store. A Put stages its bytes under a fresh payload key, reads
them back, and publishes a small manifest by conditional create (If-None-Match `*`, section 13.1.2 of RFC 9110); Get
follows a manifest to a stream that vouches for its own end; Delete removes manifests; List decodes backend keys. This
project models that in Dafny and proves what the store promises.

| file | models |
|---|---|
| `Publication.dfy` | Put, Delete and lookup as clients of one bucket, one request or response at a time |
| `PublicationSafety.dfy` | what every step keeps in every environment: bound, exclusive, unshared rows |
| `PayloadSafety.dfy` | when a key's manifests never dangle |
| `Traces.dfy` | labelled runs, and the stretches of behaviour concrete runs are made of |
| `PublicationRaces.dfy` | two runs in which a manifest dangles, and the exact conditions |
| `AtomicMap.dfy` | the machine simulates an atomic map |
| `PutEffects.dfy` | what a Put does against what it answers; linearizability of undeleted keys |
| `Durability.dfy` | exactly when a stored value is there to stay |
| `Calls.dfy` | a call fails only by a fault; undisturbed it gets through |
| `GetOpens.dfy` | what a Get that answers has opened |
| `NoLeaks.dfy` | when no stray payload is left |
| `EndToEnd.dfy` | from Put's bytes to Get's bytes |
| `Encodings.dfy`, `KeyCodec.dfy`, `Isolation.dfy` | backend keys: hex, base64url, segmentation, decoding, deployments |
| `ManifestCodec.dfy`, `ManifestBinding.dfy` | the manifest format, and what ties the machine's values to bytes |
| `Streams.dfy`, `BlobIO.dfy`, `Verification.dfy` | readers over adversarial sources, and ranged verification |
| `Listing.dfy` | paged listing |
| `ReaderShutdown.dfy`, `TransferSlots.dfy` | concurrent Read and Close, and the Store-wide slot channel |
| `Transfer.dfy` | the transfer arithmetic on 64-bit integers |
| `Basics.dfy` | byte strings, splitting, the name grammar |

## How to read it

**The machine.** A step of `Publication` is one atomic event: a request takes effect in the bucket, or a client handles
an answer. An upload may commit other bytes than were sent, at any time, even after its Put has returned. A request may
fail, take effect and lose its acknowledgement, or be cancelled. Payload deletions may take effect late, repeatedly or
never. The three ambiguous answers to a publish request (409, 412, anything else) are one event, because the code reads
the manifest back after each. Three switches say which environment a run is in; a result that mentions none of them
holds in all.
- `deletes`: Delete may be called.
- `late`: a publish request may take effect any number of times and at any time after it is issued, as when the SDK
  retries it. With `late` off it takes effect at most once, and before its response is handled.
- `lingers`: a row's DeleteObject may take effect at any time after it is issued, even after its Delete has returned.
  With `lingers` off, only while its response is awaited, though perhaps more than once.

**What was found.** Four promises hold only in part. Each is proved under a condition on the one key concerned, whatever
happens to others, and shown to fail without it by a run that touches that key alone; `NoDanglingIff`,
`CreatesAtMostOnceIff`, `ConflictsCreateNothingIff` and `PutsAreDurableIff` say the same of a whole environment.
- The comment at blob.go:129-131 keeps a payload until a read proves that the manifest points elsewhere. That proof is
  permanent only if manifests are not deleted. A key's manifests are safe if its publish requests are not late or
  Delete has not been called on it (`KeyNeverDangles`; `LatePublishDangles` is the run without). In
  `OnceButLateDangles` every request takes effect once and before its Put returns.
- Under the same condition a Put creates at most one value (`KeyCreatesAtMostOnce`).
- A Put may create its blob and still answer BlobConflictError, if a Delete and another Put come before its read-back
  (`ConflictAfterCreation`). It cannot if no Delete of the key is running or outstanding from the Put's call on
  (`UndisturbedConflictCreatesNothing`). A key on which Delete is not called is linearizable, late requests included
  (`Linearizable`). For others what is proved is less: one atomic change a step, and a witness instant for each
  answer.
- A nil Put does not mean that the blob stays until the next call of Delete: a Delete that was already running can
  still remove it (`OverlappingDeleteLosesThePut`). At any instant of any run, a key's content is found by every later
  Get that answers, as long as no Delete of the key is called, when the key holds it and no Delete can still reach its
  row, and, dangling manifests apart, only then (`DurableIff`). That is so after a Put during which no Delete of its
  key was running or outstanding (`UndisturbedPutIsSecure`).

**Assumptions.**
- SHA-256 is any function to 32 bytes. That it tells strings apart is a hypothesis of one conclusion only, that delivered
  bytes equal the bytes put, and only of the strings of some set holding the bytes put and what the body can deliver: no
  hash tells all strings apart. `SomeHashIsInjective` shows that the hypothesis can be met.
- `storage.ValidateName` is not part of this model; it is taken to be the grammar of manifest.go:109-129 with a limit of
  512 bytes. UTF-8 validity is implied by that grammar.
- An attempt, the random part of a payload key, is never drawn twice.
- An ETag is any function of the object's content.
- A HEAD answered 400 for an existing legacy row is excluded, as are rows of both encodings for one key at the start and
  v0.1.x writers. The model's clients never write a legacy row.

**Classes and methods.** The readers of blob_io.go, the in-place printer and parser of manifest.go, and the loops of
blob.go and key.go are methods, each proved against a function of its inputs; the properties are lemmas about that
function. Put, Get and Delete, the reader's shutdown and the slot channel are step machines, because what matters about
them is their interleaving.

## Model

| member | source | states |
|---|---|---|
| PublicationSafety.StepKeepsInv | blob.go:84-361 | in every environment every step of every client keeps rows bound to their keys and exclusive, attempts unshared and bound to one key, and a Put that has sent its publish request free of a legacy row |
| PublicationSafety.RowsAreExclusive | blob.go:344-361 | no reachable state holds both a current and a legacy row for one key |
| PayloadSafety.StepKeepsGuarded | blob.go:84-165 | every step, of whatever key, keeps a key's payloads intact and its Puts' `cleanupSafe` true only for payloads that no manifest names or can come to name, if its publish requests are not late or Delete has not been called on it |
| PayloadSafety.KeyNeverDangles | blob.go:126-164 | under that condition each manifest of the key has its payload, with its exact length and digest |
| PublicationRaces.NoDanglingIff | blob.go:129-164 | no run dangles if and only if publish requests are not late or Delete is not called |
| PublicationRaces.KeyCreatesAtMostOnce | blob.go:132-136 | a Put of a key on which Delete has not been called creates at most once, however late and often its request takes effect (where requests are not late, that is how they are modelled) |
| PublicationRaces.CreatesAtMostOnceIff | blob.go:132-136 | no Put that has created its row could do so again, in every run, if and only if publish requests are not late (by how those are modelled) or Delete is not called (the result) |
| PublicationRaces.LatePublishDangles | s3store.go:91-94 | a retried publish that takes effect again after a Delete leaves a manifest without payload |
| PublicationRaces.OnceButLateDangles | blob.go:137-147 | so does one that takes effect once, before Put returns, but after the read-back that made clean-up safe |
| AtomicMap.StepIsAtomic | blob.go:256-298 | a step changes at most one key: only a Put's publication creates, with its own content, and only a Delete of the key whose request is outstanding removes |
| AtomicMap.LegacyGoes | blob.go:317-335 | a lookup that has seen no current row sees the key absent at the very instant its legacy row goes |
| AtomicMap.SimulatesAtomicMap | blob.go:126-361 | every step is one atomic change of one key or none; a nil Put saw its own length and digest, a conflict another, a found or absent lookup and a nil Delete what they report, each at an instant of the call |
| PutEffects.UndisturbedConflictCreatesNothing | blob.go:137-164 | a Put that answers a conflict, with no Delete of its key running or outstanding since its call, has created nothing |
| PutEffects.ConflictsCreateNothingIff | blob.go:137-164 | in every run a Put that answers a conflict has created nothing (nor will it in any longer run), if and only if Delete is not called |
| PutEffects.ConflictAfterCreation | blob.go:137-147 | a run with a Delete in which a Put's row is created, removed and replaced before its read-back, so that it answers a conflict |
| PutEffects.Linearizable | blob.go:126-361 | on a key on which Delete is not called each definite answer has one instant of its call at which the call acted on the atomic map as it answers; the key's value changes only where a Put first creates, and never a Put that answers a conflict |
| Durability.DurableIff | blob.go:126-298 | at any instant, every Get called later that answers finds this content as long as no Delete of the key is called, if the key holds it and no Delete can still reach its row; and only then, unless the key holds other content whose manifest dangles |
| Durability.UndisturbedPutIsSecure | blob.go:126-165 | a nil Put during which no Delete of its key was running or outstanding meets that condition |
| Durability.PutsAreDurableIff | blob.go:126-298 | every Put that returns nil has stored its content to stay, if and only if Delete is not called |
| Durability.OverlappingDeleteLosesThePut | blob.go:275-297 | a run in which a Delete older than the Put's return makes a later Get find other content |
| Calls.FailsIff | blob.go:46-335 | whatever the others do, a Put, Get or Delete ends in an error if and only if a request of its own failed or it was cancelled before it had an answer, or, for a Put, the manifest it reads back is not there |
| Calls.CancelledIsOver | blob.go:85-89 | a cancelled call is over at once and cleans nothing up |
| Calls.PutRuns | blob.go:46-165 | in any state an undisturbed Put of any key and any bytes answers nil and creates the key's current row with its content if the key has no value; else it answers nil or a conflict by the value, changes no row and gives its payload up |
| Calls.DeleteRuns | blob.go:258-298 | in any state an undisturbed Delete of any key answers nil, removes whatever rows the key has, and requests the deletion of their payloads |
| Calls.GetRuns | blob.go:187-253 | in any state an undisturbed Get of any key answers by the key's row, of either encoding, whose payload has its length, or that the key is absent |
| GetOpens.FoundWasOpened | blob.go:212-242 | a Get that answers with a manifest read it as a row of its key, and at an instant of the call the payload was there with the promised length; with the digest too if no Delete of the key had been called |
| GetOpens.DanglingIsNeverFound | blob.go:225-240 | a Get during which the key's manifest dangled answers with no manifest |
| NoLeaks.LeftoversAreReferenced | blob.go:84-164 | after a Delete-free run in which uploads may be corrupted and verifications and legacy lookups fail, but no upload, publish, read-back or clean-up does and no Put is cancelled, the payloads Puts leave are exactly those a manifest names |
| EndToEnd.GetFindsWhatPutStored | blob.go:187-253 | after a nil Put whose content is secure, with no Delete of the key called since, a later Get never misses, and what it finds has that Put's length and digest |
| EndToEnd.StreamsDeliverWhatWasPut | blob.go:91-116 | a stream of the verifying reader of such a Get that reaches its end delivered the length and digest of the bytes put, whatever S3 stored or the network sent, and those very bytes if the hash is injective on a set holding them and what the body can deliver |
| EndToEnd.ReadersDeliverWhatWasPut | blob_reader.go:110-126 | the same of the reader that Get returns, read by one caller while any number of Closes may be called |
| ManifestBinding.AcceptIff | blob.go:480-491 | a manifest body is accepted for a key exactly when it encodes a manifest of that key naming one of its own payloads |
| ManifestBinding.StoredReadsBack | blob.go:117-121 | what Put publishes is accepted when read, and different manifests have different bytes |
| ManifestBinding.StructuredKeysAreFaithful | blob.go:303-312 | different rows and payloads have different backend keys, and no row is a payload |
| Hex.DecodeIff | key.go:125-128 | hex decoding accepts exactly the encodings of a value, up to the case of A-F |
| Base64.RoundTrip | key.go:129-132 | base64url decoding undoes encoding |
| Base64.DecoderIsPermissive | key.go:129-132 | the library decoder alone accepts several spellings of one name |
| Base64.KnownAnswers | key.go:129-132 | known encodings from the standard |
| KeyCodec.SegmentEncoding | key.go:89-98 | the builder loop produces the canonical segmentation |
| KeyCodec.SegmentShape | key.go:39-55 | segmented length is n + (n-1)/255, all segments but the last have 255 bytes, none is longer or empty |
| KeyCodec.DecodeIff | key.go:107-142 | a row decodes to a key exactly when it is the current or the legacy row of that valid key, up to hex case of the digest |
| KeyCodec.DecodeRoundTrip | key.go:46-87 | both encodings of every valid key decode to it under every prefix |
| KeyCodec.LegacyDiffersIff | key.go:71-82 | the encodings differ exactly for keys above 191 bytes |
| KeyCodec.DerivationSucceeds | blob.go:579-609 | under a configured prefix every valid key has a manifest key of at most 1016 bytes and a payload key that is a valid internal key and passes its own binding check |
| KeyCodec.DerivationIff | key.go:56-69 | under a configured prefix the keys are derived exactly for valid names, and other names refused as invalid |
| KeyCodec.DerivedKeysFit | key.go:56-69 | whatever the prefix, no derived key is longer than 1024 bytes |
| KeyCodec.EqualDigest | key.go:144-153 | the accumulating comparison is equality |
| Isolation.DeploymentsAreIsolated | key.go:18-26 | manifests, legacy rows and payloads of different prefixes never share a key, nested prefixes included |
| Isolation.AddressInjective | key.go:46-87 | within a deployment a key names one kind of object, one logical key, one attempt, with no assumption on the hash |
| Isolation.DecoderRefusesForeignObjects | key.go:100-142 | the decoder of one deployment refuses every object of another, and every payload |
| Basics.UncleanNames | manifest.go:109-129 | an empty component, "." or ".." is refused wherever it stands |
| ManifestCodec.ValidInternalObjectKey | manifest.go:109-129 | the one-pass scan decides the grammar of segments |
| ManifestCodec.EncodeManifest | manifest.go:38-71 | the buffer filled in place is the specified layout, or an error exactly for unencodable manifests |
| ManifestCodec.DecodeManifest | manifest.go:73-107 | the stream parser computes the specified result for every chunking |
| ManifestCodec.ParseIff | manifest.go:85-106 | a body parses as m exactly when m is encodable and the body is its encoding |
| ManifestCodec.DecodeStreamIff | manifest.go:73-84 | a stream decodes to m exactly when m is encodable, the announced length is that of its encoding, the stream starts with it, and the next one-byte read finds nothing; in particular whenever the stream is that encoding |
| ManifestCodec.PutManifestEncodes | blob.go:117-121 | Put's manifest always encodes, within 930 bytes |
| Streams.FillReadsContent | manifest.go:77-80 | a full read of a body succeeds exactly when it is long enough, and returns its first bytes, in any chunking |
| BlobIO.AccountedHashReader.Read | blob_io.go:32-55 | a Read returns at most what the maximum allows and accounts for exactly what it returned |
| BlobIO.AccountedHashReader.Digest | blob_io.go:61-68 | the digest, cached or not, is that of everything returned so far |
| BlobIO.UploadAccountsExactly | blob_io.go:28-68 | an upload that ends cleanly returned the whole body within the maximum; one refused as too large has a larger body |
| BlobIO.UploadIsDecided | blob_io.go:28-59 | read with room, in at most one read more than there are bytes, a body within the maximum comes to its own ending, clean or not, and a larger one is refused as too large |
| BlobIO.VerifyingBlobReader.Read | blob_io.go:85-121 | a Read takes the specified step and fills the buffer with its bytes |
| BlobIO.VerifyingBlobReader.FinishRead | blob_io.go:123-132 | the end is latched as verified or as an integrity error |
| BlobIO.DownloadIsVerified | blob_io.go:85-132 | over any body and buffer sizes: never too many bytes, an end only after exactly the expected length and digest, verdicts repeated for ever |
| BlobIO.HonestBodyIsAccepted | blob_io.go:85-132 | a body that is what the manifest promises is never refused |
| BlobIO.HonestBodyReachesItsEnd | blob_io.go:85-132 | and if none of its answers is empty, reads with room reach the end in at most one read more than it has bytes, having delivered all of it |
| BlobIO.BodyIsDecided | blob_io.go:85-132 | any body none of whose answers is empty is decided in at most one read more than there are bytes to deliver: too long, too short or of the wrong digest it is refused, its own failure is passed on, and what is delivered are its first bytes |
| Verification.VerifyRange | blob.go:509-536 | a range is accepted exactly when its answer has the expected length, its body gives it in full and nothing after it, and closes cleanly; which error otherwise |
| Verification.VerifyPayload | blob.go:494-544 | the ranges are part of a partition of the object; success is exactly a whole partition, each range accepted, with the length and digest; which error otherwise; over an unchanging object it is agreement with the object |
| Verification.MachineReadsRanges | blob.go:507-537 | each range the publication machine hashes is the next one verifyPayload requests, answered with the bytes the payload holds then |
| Listing.LessIff | blob.go:415 | the order of names is that of bytes: a proper prefix, or smaller at the first difference |
| Listing.AcceptedPrefixes | key.go:32-37 | a listing prefix is accepted exactly if it is empty, a valid name, or a valid name and a slash |
| Listing.AddPage | blob.go:392-401 | a page contributes exactly the decoded names under the prefix |
| Listing.SortStrings | blob.go:411-415 | the names come out strictly sorted and complete |
| Listing.List | blob.go:365-420 | for any page sizes and advancing tokens List ends: with the strictly sorted set of names the rows decode to exactly when it comes to the last page, and with the error of the failed request or unusable token it comes to otherwise |
| Listing.UselessTokenIsRefused | blob.go:405-408 | a truncated page without a token, with an empty one or with the one that led to it ends the listing with an error |
| Listing.RepeatedTokenEnds | blob.go:405-408 | pages in order may repeat a token, and then List ends with that error |
| Listing.ListsPresentKeys | blob.go:363-401 | over the rows of a state of the publication machine, in either encoding and among foreign rows, those names are the keys with the prefix to which the atomic map gives a value |
| Transfer.Resolve | options.go:186-238 | exactly the configurations within the documented budget are accepted, the field refused is at fault, and no 64-bit operation overflows |
| Transfer.DefaultsFillTheBudget | options.go:186-228 | the defaults are acceptable and use the whole memory budget |
| Transfer.MaximumIsTheLastUninflatedSize | options.go:241-247 | the accounted maximum is the largest size with fewer than 10000 parts |
| ReaderShutdown.ShutdownIsLatched | blob_reader.go:110-138 | in every interleaving all Closes return one result, the request is aborted before the body is closed and the slot released at most once, and all three are done when a Close, the release also when a Read reporting its end or a failure, has returned |
| ReaderShutdown.BodyIsLeftAlone | blob_reader.go:110-113 | once the flag is stored no Read turns to the body any more |
| ReaderShutdown.ReadsRelay | blob_reader.go:110-126 | Reads return what the verifier answers, bytes and errors, in order and without loss, up to the first that answers that the reader is closed; before the flag is stored none does |
| ReaderShutdown.ClosesPassOnTheResult | blob_reader.go:131-138 | every Close returns what closing the body resulted in, the one time it was closed |
| ReaderShutdown.ReadsAfterClosed | blob_reader.go:106-125 | once the flag is stored only a Read already past its second check can return anything but the closed error |
| ReaderShutdown.CloseNeverWaitsForRead | blob_reader.go:62-70 | until a Close returns an event other than a Read in the network is possible that brings its return nearer, no event puts it off, and ten such events suffice |
| TransferSlots.ReceiveNeverBlocks | transfer.go:35-39 | whoever releases finds its own value in the channel |
| TransferSlots.SlotsAreConserved | transfer.go:20-39 | occupied slots are the operations in flight plus the handed-over readers not yet released, never above capacity; a reader gives its slot back only once a Close has begun or a Read has ended, and has done so when either has returned |

## Left out

- AtomicMap.SimulatesAtomicMap: says nothing of calls that end in an error, in particular a Get or Delete that races another Delete and reports an integrity error.
- Listing.List: termination needs tokens that advance; the code only refuses a token repeated immediately. Listing is over a fixed bucket, not interleaved with the publication machine.
- Put, Get and Delete as methods: they are step machines, so argument validation, the order of deferred functions and error texts are not modelled.
- The two 16-bit length refusals in manifest.go:48-55, which the other bounds make unreachable.
- AWS client construction, credentials, addressing, retries and multipart internals: only their outcomes appear, as events.
- Deadlines, the default timeout and the bound on Close's duration: real time; cancellation is an event that fails the current request.
- Endpoint, region, bucket, KMS and encryption options, error redaction: shallow branches.
- Concurrent Reads on one reader, which the repository declares unsupported.
