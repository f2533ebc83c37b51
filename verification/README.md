# i2pr in Dafny

A model of three parts of the i2pr router workspace, with proofs about it.

**The address book** (`Hostname`, `Config`, `Subscription`, `Book`, `BookInvariant`, `Generation`,
`BookRuns`, `AddressBook`, `Refresh`, and `BookMeaning`, `ConfigText`, `SubscriptionText`,
`GenerationExact`). A book is four operator tables, a derived table, per-URL subscription sources, a
URL list, a configuration of sixteen keys and a saturating revision. Six operations change it. `AddressBook` is the mutable class; every method equals a transition on
values in `Book`. `BookInvariant` states what all transitions keep, `Generation` encodes and
decodes persisted books, and `BookRuns` reasons about whole runs: reachable books, round trips
and captured resolvers. `Refresh` is the bounded refresh queue. The last four modules say what each
operation does in terms of its inputs alone: which entries change, which texts are accepted and what they
denote, which persisted shapes store which book, and which error answers what.

**The managed-app wire layer** (`Frames`, `SessionWriter`, `SessionInbox`, `SessionHistory`,
`StreamLimit`, `WriterOutcome`, `SessionEvents`, `AppSession`, `Json`, `KeyScanner`, `MemberNames`,
`Datagram`, `DatagramFaults`, `WireLayout`). Length-prefixed frames in two dialects, the SDK session
with its resumable writer and its inbound queues, the duplicate-key scanner over raw JSON bytes, and
the datagram codec. The writer is driven by a script of poll results, one for each time the channel is
asked: ready with some bytes, pending, failed, or never asked again because the call was dropped. The session and queue objects carry ghost histories, so the run theorems hold of
every valid object. `WriterOutcome` predicts every write from its schedule, `SessionEvents` the live
streams and answers from the messages, and `WireLayout` gives byte positions.

**Package verification and network policy** (`PackageLimits`, `CentralDirectory`, `ZipLayout`,
`ArchiveRefusal`, `Payload`, `PayloadMeaning`, `NameText`, `Cidr`, `Policy`, `PolicyMeaning`).
The ZIP central-directory walk (sections 4.3.12 and 4.3.16 of PKWARE APPNOTE.TXT), the check of a
materialized payload against its inventory, CIDR arithmetic and the deny-overrides evaluators.

`Wrappers`, `Text`, `Bytes`, `OrderedKeys`, `Folds` and `AddressBookErrors` hold what these share.
Text is a `string` with one character per UTF-8 byte. A sorted map or set iterates in the order of
`OrderedKeys.SortedKeys`.

Results that differ from what one might expect:

- The generation round trip does not hold for every reachable book. Adding a URL while keeping an
  older source leaves a book that cannot be reloaded (`BookRuns.UnreadableBook`). The exact
  condition is in `BookRuns.ReachableRoundTrip`, and `BookRuns.UrlChangePersistable` says which URL
  changes lead there.
- A resolver's revision stops telling books apart once it is saturated, which happens in reachable
  books (`BookRuns.StaleResolverReachable`). A commit shows in the revision if and only if the
  revision is below the maximum (`BookRuns.CommitVisible`).
- The SDK's live stream set can reach 129 although its limit is 128, and does in a run from a fresh
  session (`StreamLimit.LimitExceededInARun`). `StreamLimit.ExceedsExactly` gives the condition, on
  the inbox before the call; the set never holds more (`SessionHistory.RunBound`).
- The key scanner accepts objects that repeat a member name in two spellings
  (`MemberNames.RespelledNameAccepted`). It accepts exactly the documents without a repeated name
  when no name has a backslash (`MemberNames.UnescapedVerdict`), and in general goes wrong exactly
  where an object respells a name (`MemberNames.NamesVerdict`).
- The configuration update's verdict and accepted result do not depend on iteration order; its error
  does (`Config.RefusalsDiffer`), exactly as `Config.ErrorOrderExactly` says. The sorted map fixes
  the order.

Where code and comments disagree the model follows the code:

- crates/i2pr-addressbook/src/config.rs:1 speaks of thirteen keys; the code has sixteen.
- crates/i2pr-app-manager-proto/src/lib.rs:781 promises to reject every repeated member name, and
  lines 903-904 consistent comparison of two spellings. Names are compared as raw bytes. Blanks after
  the last value are refused as trailing bytes.

Two assumptions enter through `Config.Library`: a predicate for valid destination text, and a
function that reprints a loopback address. `Sound()` says a reprinted address is short, nonempty
and reprints to itself. Operations that the source types with `Hostname` keys require canonical
names here, because that type has no other values.

## Model

| member | source | states |
|---|---|---|
| BookRuns.ReachableRoundTrip | crates/i2pr-addressbook/src/generation.rs:102-280 | for every book reachable by operations and by decoding: decoding its encoding succeeds if and only if its source map is empty or has exactly the configured URLs as keys, and then returns the same book, revision included |
| BookRuns.UnreadableBook | crates/i2pr-addressbook/src/book.rs:296-351 | a reachable book whose encoding is refused, for any two valid URLs: one URL, its sources, then a second URL |
| BookRuns.ExampleUrls | crates/i2pr-addressbook/src/subscription.rs:93-118 | two concrete URLs pass the URL check, so the refused book exists |
| BookRuns.UrlChangePersistable | crates/i2pr-addressbook/src/book.rs:296-312 | a book with sources that could be reloaded still can after a URL change if and only if the new URLs are among the old ones or share none with them |
| BookRuns.SourcesMakePersistable | crates/i2pr-addressbook/src/book.rs:338-378 | installing sources always leaves a book that can be reloaded |
| BookRuns.ReachableInv | crates/i2pr-addressbook/src/book.rs:256-422 | every reachable book satisfies the whole-book invariant: valid configuration with distinct artifact names, bounded books of canonical names and valid destinations, at most 16 distinct valid URLs, sources only for those URLs, a derived table that is the ordered merge whenever sources exist and never holds more than 1000 names |
| BookRuns.RunKeeps | crates/i2pr-addressbook/src/book.rs:256-422 | every run of operations keeps the invariant from any state that has it |
| BookRuns.CommitOrNothing | crates/i2pr-addressbook/src/book.rs:256-422 | an operation either leaves the book as it was, which every failing one does, or advances the revision by one saturating step |
| BookRuns.RevisionTellsState | crates/i2pr-addressbook/src/book.rs:213-215 | over any run the revision never falls, and an unchanged revision below the 64-bit maximum means an unchanged book |
| BookRuns.NeverSilentlyStale | crates/i2pr-addressbook/src/resolver.rs:27-119 | a resolver captured earlier in a run whose revision equals the live one, below the 64-bit maximum, answers every raw name as the live book does, provenance included |
| BookRuns.CommitVisible | crates/i2pr-addressbook/src/book.rs:213-215 | a changing operation changes the revision if and only if the revision was below the 64-bit maximum |
| BookRuns.SaturatedRevisionHidesCommit | crates/i2pr-addressbook/src/book.rs:213-215 | at the 64-bit maximum an insertion changes an answer while the revision stays, so the bound in the resolver theorem is needed |
| BookRuns.SaturatedReachable | crates/i2pr-addressbook/src/generation.rs:276-280 | a book at the 64-bit maximum is reachable, by decoding |
| BookRuns.StaleResolverReachable | crates/i2pr-addressbook/src/resolver.rs:27-119 | for any hostname and destination some reachable book has a stale resolver with an unchanged revision |
| BookRuns.SubscriptionsLeaveBooks | crates/i2pr-addressbook/src/book.rs:296-378 | no run of subscription operations touches the four operator books |
| BookRuns.OperatorEntriesStable | crates/i2pr-addressbook/src/book.rs:140-163 | a name answered by an operator book keeps that answer through any run of subscription operations, and none gains one |
| BookRuns.UrlChangeMeaning | crates/i2pr-addressbook/src/book.rs:296-312 | after a URL change: the deduplicated list, exactly the sources of kept URLs, and a derived table equal to a fresh merge of those sources in the new order |
| Generation.RoundTrip | crates/i2pr-addressbook/src/generation.rs:102-280 | for every state satisfying the invariant: decode of encode succeeds if and only if the sources are empty or cover the URLs exactly, and restores the state |
| Generation.DecodeValid | crates/i2pr-addressbook/src/generation.rs:151-280 | whatever shape is decoded, an accepted one yields a book satisfying the invariant, reloadable, with the stored revision |
| Generation.DecodeNormalizes | crates/i2pr-addressbook/src/generation.rs:102-280 | decoding, encoding and decoding again equals decoding once, for every accepted shape |
| Generation.ConfigRestores | crates/i2pr-addressbook/src/generation.rs:160-204 | replaying the captured configuration on a fresh book restores it exactly |
| Generation.AdmitBooksRestores | crates/i2pr-addressbook/src/generation.rs:205-226 | re-admitting the four stored books entry by entry restores them exactly |
| Generation.SubscriptionsRestore | crates/i2pr-addressbook/src/generation.rs:227-229 | replaying a valid URL list on a fresh book restores it |
| Generation.DerivedRestores | crates/i2pr-addressbook/src/generation.rs:230-275 | replaying the stored table and sources succeeds if and only if the sources are empty or cover the URLs, and restores both |
| Generation.ParseNamesCanonical | crates/i2pr-addressbook/src/generation.rs:230-275 | stored hostnames are accepted only into a table of canonical names |
| BookInvariant.EmptyInv | crates/i2pr-addressbook/src/book.rs:121-130 | a new book satisfies the invariant |
| BookInvariant.ApplyEntryKeeps | crates/i2pr-addressbook/src/book.rs:256-292 | inserting, replacing and deleting entries keep the invariant, refusals included |
| BookInvariant.ReplaceSubscriptionsKeeps | crates/i2pr-addressbook/src/book.rs:296-312 | replacing the URL list keeps the invariant although it checks no size |
| BookInvariant.MergedShrinks | crates/i2pr-addressbook/src/book.rs:296-312 | why no size check is needed: a merge over retained sources, in any new order, has at most as many names as the old merge |
| BookInvariant.ReplaceDerivedKeeps | crates/i2pr-addressbook/src/book.rs:317-334 | replacing the derived table directly keeps the invariant |
| BookInvariant.ReplaceSourcesKeeps | crates/i2pr-addressbook/src/book.rs:338-378 | replacing the sources keeps the invariant |
| BookInvariant.SyncPublishedKeeps | crates/i2pr-addressbook/src/book.rs:383-395 | copying the router book to the published book keeps the invariant |
| BookInvariant.ApplyConfigKeeps | crates/i2pr-addressbook/src/book.rs:400-422 | applying configuration keeps the invariant, books larger than the new ceiling included |
| BookInvariant.MergedValid | crates/i2pr-addressbook/src/book.rs:224-237 | a merge of valid sources is a table of canonical names and valid destinations |
| BookInvariant.CheckedSetValid | crates/i2pr-addressbook/src/subscription.rs:68-80 | an accepted URL list is distinct, valid and within its bound |
| BookInvariant.SourcesChecked | crates/i2pr-addressbook/src/book.rs:352-365 | the source loop passes if and only if every source passes on its own |
| BookInvariant.CoversExactly | crates/i2pr-addressbook/src/book.rs:342-351 | the count-and-membership test holds if and only if the source keys are exactly the URLs |
| Book.FindAnswers | crates/i2pr-addressbook/src/book.rs:140-163 | the search finds an entry if and only if it is the first table in precedence order that holds the name |
| Book.LookupPrecedence | crates/i2pr-addressbook/src/book.rs:140-163 | lookup answers an entry if and only if the raw text parses to its hostname and that table is the first to hold it |
| Book.MergedMeaning | crates/i2pr-addressbook/src/book.rs:224-237 | a name is in the merge if and only if some listed source has it, with the value of the last such source |
| Book.MergeSubscriptionSources | crates/i2pr-addressbook/src/book.rs:224-237 | the inserting loop computes the merge |
| Book.InsertAll | crates/i2pr-addressbook/src/book.rs:224-237 | the inner loop overrides a table by another |
| AddressBook.AddressBook.constructor | crates/i2pr-addressbook/src/book.rs:121-130 | a new book is empty and valid |
| AddressBook.AddressBook.BumpRevision | crates/i2pr-addressbook/src/book.rs:213-215 | the revision advances, saturating |
| AddressBook.AddressBook.ApplyEntry | crates/i2pr-addressbook/src/book.rs:256-292 | state and outcome in place are those of the specified transition; validity kept |
| AddressBook.AddressBook.ReplaceSubscriptions | crates/i2pr-addressbook/src/book.rs:296-312 | state and outcome in place are those of the specified transition; validity kept |
| AddressBook.AddressBook.ReplaceDerived | crates/i2pr-addressbook/src/book.rs:317-334 | state and outcome in place are those of the specified transition; validity kept |
| AddressBook.AddressBook.ReplaceSubscriptionSources | crates/i2pr-addressbook/src/book.rs:338-378 | state and outcome in place are those of the specified transition; validity kept |
| AddressBook.AddressBook.SyncPublishedFromRouter | crates/i2pr-addressbook/src/book.rs:383-395 | state and outcome in place are those of the specified transition; validity kept |
| AddressBook.AddressBook.ApplyConfig | crates/i2pr-addressbook/src/book.rs:400-422 | state and outcome in place are those of the specified transition; validity kept |
| AddressBook.AddressBook.Lookup | crates/i2pr-addressbook/src/book.rs:140-163 | the answer is the specified lookup of the committed state |
| AddressBook.SourcesCover | crates/i2pr-addressbook/src/book.rs:342-351 | the loop decides coverage of the URLs |
| AddressBook.CheckSources | crates/i2pr-addressbook/src/book.rs:352-365 | the loop reports the error of the first bad source in URL order |
| AddressBook.AllDestinationsValid | crates/i2pr-addressbook/src/book.rs:317-334 | the loop decides that every destination is valid |
| AddressBook.AdmitEntries | crates/i2pr-addressbook/src/generation.rs:205-226 | admitting one stored book by mutation equals the specified fold, and a refusal stops it |
| AddressBook.RestoreSubscribed | crates/i2pr-addressbook/src/generation.rs:230-275 | restoring the derived table or the sources by mutation equals the specification |
| AddressBook.RunParseNames | crates/i2pr-addressbook/src/generation.rs:230-240 | the name loop equals the specified fold, first failure included |
| AddressBook.RunParseSources | crates/i2pr-addressbook/src/generation.rs:242-266 | the source loop equals the specified fold, first failure included |
| AddressBook.DecodeGeneration | crates/i2pr-addressbook/src/generation.rs:151-280 | decoding by mutating a fresh book yields exactly the specified state or error, in a new valid book |
| Config.PrintParse | crates/i2pr-addressbook/src/config.rs:245-382 | rendering any valid configuration and applying it over any base gives exactly that configuration |
| Config.RenderParses | crates/i2pr-addressbook/src/config.rs:245-291 | each rendered field is accepted by its own parser over any base and read back |
| Config.UpdateMeaning | crates/i2pr-addressbook/src/config.rs:294-382 | an update succeeds if and only if every entry is admissible and the overlaid configuration has eight distinct artifact names, and the result is that overlay |
| Config.FoldMeaning | crates/i2pr-addressbook/src/config.rs:294-368 | assigning keys in any sequence succeeds if and only if each entry is admissible alone, and overlays exactly those fields |
| Config.OrderIrrelevant | crates/i2pr-addressbook/src/config.rs:294-368 | two iteration orders of one map agree on acceptance and on the accepted configuration |
| Config.FoldError | crates/i2pr-addressbook/src/config.rs:294-368 | a failing loop reports the refusal of the first bad entry it meets |
| Config.ErrorOrderExactly | crates/i2pr-addressbook/src/config.rs:294-368 | all iteration orders agree on the result, errors included, if and only if all entries bad on their own are refused alike |
| Config.RefusalsDiffer | crates/i2pr-addressbook/src/config.rs:294-368 | a map with an unknown key and an empty file name is refused differently in different orders |
| Config.UpdateKeepsValid | crates/i2pr-addressbook/src/config.rs:294-382 | an accepted update of a valid configuration is valid |
| Config.SetFieldKeepsFields | crates/i2pr-addressbook/src/config.rs:300-366 | an accepted single assignment keeps every field in its range |
| Config.SwapNeedsOneBatch | crates/i2pr-addressbook/src/config.rs:369-379 | exchanging any two of the eight artifact names succeeds as one map, with exactly those two fields exchanged, though either change alone is refused |
| Config.SingleUpdate | crates/i2pr-addressbook/src/config.rs:294-382 | a one-entry map is one assignment followed by the distinctness test |
| Config.DefaultValid | crates/i2pr-addressbook/src/config.rs:217-240 | the default configuration is valid |
| Config.RunCheckedUpdate | crates/i2pr-addressbook/src/config.rs:294-382 | the loop over a cloned configuration equals the specified update, errors included |
| Config.AllDistinct | crates/i2pr-addressbook/src/config.rs:369-379 | the set-filling loop decides pairwise distinctness |
| Hostname.ParseExact | crates/i2pr-addressbook/src/hostname.rs:35-66 | parsing yields a hostname if and only if it is canonical and the bounded raw text, lower-cased, is it with at most one trailing dot |
| Hostname.ParseIdempotent | crates/i2pr-addressbook/src/hostname.rs:35-66 | a parsed hostname parses to itself |
| Subscription.Checked | crates/i2pr-addressbook/src/subscription.rs:68-80 | the loop yields the checked, deduplicated URL list or its error |
| Subscription.RunCheckedBy | crates/i2pr-addressbook/src/subscription.rs:68-80 | the same loop for any URL test |
| Subscription.DeduplicatedMeaning | crates/i2pr-addressbook/src/subscription.rs:68-80 | deduplication keeps exactly the URLs, distinct, and changes no distinct list |
| Subscription.IngestMeaning | crates/i2pr-addressbook/src/subscription.rs:123-153 | the line loop succeeds if and only if no line is bad and at most 1000 names result, and then the last line for each name wins |
| Subscription.IngestConcat | crates/i2pr-addressbook/src/subscription.rs:123-153 | two bodies joined by a newline ingest if and only if each does, the length fits and the union fits, and the result is the first overridden by the second |
| Subscription.IngestedEntriesValid | crates/i2pr-addressbook/src/subscription.rs:123-153 | an ingested table has at most 1000 names, all canonical, with valid destinations |
| Subscription.LastWinsMeaning | crates/i2pr-addressbook/src/subscription.rs:123-153 | a name is in the table if and only if some line names it, with the destination of the last such line |
| BookInvariant.IngestedAccepted | crates/i2pr-addressbook/src/book.rs:317-334 | replacing the derived table by an ingested one is never refused, installs it and keeps the invariant |
| Subscription.IngestSubscriptionBody | crates/i2pr-addressbook/src/subscription.rs:123-153 | the loop equals the specified ingestion, errors included |
| Refresh.EveryRun | crates/i2pr-addressbook/src/refresh.rs:42-112 | over every run: announced sets are the pushes at strictly increasing positions, handed-out sets are the announcements at strictly increasing positions, a waiting set is the newest push behind an active one, with nothing waiting the newest push has been announced, and the reason is that of the newest push |
| Refresh.DrainReachesNewest | crates/i2pr-addressbook/src/refresh.rs:78-106 | from any state of a run, taking and finishing twice idles the queue and has last handed out the newest push |
| Refresh.RunKeeps | crates/i2pr-addressbook/src/refresh.rs:42-112 | every operation sequence keeps the queue invariant |
| Refresh.RefreshQueue.KeepsOrder | crates/i2pr-addressbook/src/refresh.rs:42-112 | the same of any valid queue object |
| Refresh.RefreshQueue.constructor | crates/i2pr-addressbook/src/refresh.rs:52-55 | a new queue is valid with an empty history |
| Refresh.RefreshQueue.Push | crates/i2pr-addressbook/src/refresh.rs:60-71 | answers whether the set is announced at once; otherwise it alone waits and the active set stays; keeps the queue valid |
| Refresh.RefreshQueue.FinishActive | crates/i2pr-addressbook/src/refresh.rs:81-90 | announces the waiting set, which is the newest pushed, or leaves the queue idle; keeps the queue valid |
| Refresh.RefreshQueue.TakeActive | crates/i2pr-addressbook/src/refresh.rs:95-101 | hands out the last announced set if and only if it was not handed out before; keeps the queue valid |
| Frames.DecodeEncoded | crates/i2pr-app-proto/src/lib.rs:694-766 | in both dialects, an encoded frame followed by anything decodes to that frame and its length |
| Frames.EncodeDecoded | crates/i2pr-app-manager-proto/src/lib.rs:676-757 | in both dialects, a decoded frame re-encodes to exactly the bytes consumed |
| Frames.StrictPrefixTruncated | crates/i2pr-app-proto/src/lib.rs:694-766 | every strict prefix of an encoded frame is reported as truncated |
| Frames.DecodeAllEncoded | crates/i2pr-app-proto/src/lib.rs:694-766 | a concatenation of frames and an incomplete tail decodes to exactly those frames and that tail |
| Frames.UniqueDecoding | crates/i2pr-app-proto/src/lib.rs:694-766 | equal concatenations come from equal frame sequences |
| Frames.ReadFrameIsDecode | crates/i2pr-app-sdk/src/lib.rs:430-448 | reading header then body yields a frame if and only if decoding the stream does, and its errors follow the decoder: truncation ends the stream, a length past the limit is named, anything else is bad |
| Frames.ReadFrameFinal | crates/i2pr-app-sdk/src/lib.rs:430-448 | every outcome but running out of bytes stays the same however the stream continues |
| SessionWriter.PeerSeesAcceptedPrefix | crates/i2pr-app-sdk/src/lib.rs:347-410 | over every schedule of partial writes, pending polls, errors and dropped calls, a decoding peer sees the accepted frames in order, all but at most the last |
| SessionWriter.FaithfulPeer | crates/i2pr-app-sdk/src/lib.rs:347-410 | from a faithful wire a decoding peer reads exactly the complete accepted frames |
| SessionWriter.FaithfulWire | crates/i2pr-app-sdk/src/lib.rs:347-410 | the bytes on the wire are the greeting, the complete accepted frames, and a strict part of at most one more |
| SessionWriter.SuccessMeansDelivered | crates/i2pr-app-sdk/src/lib.rs:347-365 | a write that reports success leaves every accepted frame, itself last, whole on the wire and flushed |
| SessionWriter.RunFaithful | crates/i2pr-app-sdk/src/lib.rs:347-410 | every run keeps the wire faithful and only appends to the accepted frames |
| SessionWriter.StepFaithful | crates/i2pr-app-sdk/src/lib.rs:347-376 | one call keeps the wire faithful and accepts at most its own frame |
| SessionWriter.WriteConserves | crates/i2pr-app-sdk/src/lib.rs:347-365 | wire plus unwritten bytes grow by exactly the frame when it was accepted, and by nothing otherwise |
| SessionWriter.FinishConserves | crates/i2pr-app-sdk/src/lib.rs:367-376 | finishing pending output moves bytes to the wire without adding, losing or reordering any |
| SessionWriter.DrainConserves | crates/i2pr-app-sdk/src/lib.rs:378-410 | the drain loop conserves wire plus unwritten bytes under every poll script, and is done only when nothing is left |
| SessionWriter.FlushKeeps | crates/i2pr-app-sdk/src/lib.rs:359-363 | flushing changes no byte and, when done, covers the whole wire |
| SessionHistory.RunConserves | crates/i2pr-app-sdk/src/lib.rs:123-323 | over every run of successful, failing and dropped calls: what arrived was read or is to come; a call that fails on a frame loses that frame only; of the rest, controls delivered then queued, interleaved with the awaited ones, are the controls in order, and data delivered and skipped interleave to the data in order, less what is queued |
| SessionHistory.RunBound | crates/i2pr-app-sdk/src/lib.rs:123-333 | the live stream set never exceeds 129, over every run, failing and dropped calls included |
| StreamLimit.OpenExceedsExactly | crates/i2pr-app-sdk/src/lib.rs:123-155 | open leaves more than 128 streams if and only if, read off the inbox before the call, the next answer to its request is a grant behind frames that can all be queued and the set those leave is full without the new stream |
| StreamLimit.ExceedsExactly | crates/i2pr-app-sdk/src/lib.rs:123-333 | over every kind of call, failing or dropped: the set passes 128 if and only if the call is an open under that condition |
| StreamLimit.WaitForExact | crates/i2pr-app-sdk/src/lib.rs:278-297 | a wait succeeds if and only if some input position holds its answer behind frames that can all be queued, and the live set is the fold of the events up to it |
| StreamLimit.LimitExceededInARun | crates/i2pr-app-sdk/src/lib.rs:123-155 | 128 calls from a fresh session lead to 129 live streams |
| SessionHistory.NothingLost | crates/i2pr-app-sdk/src/lib.rs:123-323 | when no call failed on a frame, every frame read was kept, dropped calls included |
| SessionInbox.WaitForFails | crates/i2pr-app-sdk/src/lib.rs:278-297 | a failing wait queues, in order, everything it read but the frame it failed on |
| SessionInbox.RecvControlAccounts | crates/i2pr-app-sdk/src/lib.rs:249-255 | whatever the outcome, the control handed out and the queue are the old queue and the controls that survive |
| SessionInbox.ReceiveAccounts | crates/i2pr-app-sdk/src/lib.rs:228-247 | whatever the outcome, skipped, handed-out and queued data are the old queue and the data that survive |
| SessionHistory.FreshConserved | crates/i2pr-app-sdk/src/lib.rs:80-102 | a fresh session satisfies conservation |
| SessionInbox.OpenExceedsLimit | crates/i2pr-app-sdk/src/lib.rs:123-155 | a concrete reply order makes open leave 129 live streams |
| SessionInbox.OpenBound | crates/i2pr-app-sdk/src/lib.rs:123-155 | open leaves at most 129 streams and passes 128 only through an incoming stream admitted after its check |
| SessionInbox.EventTwice | crates/i2pr-app-sdk/src/lib.rs:308-323 | applying an accepted stream event twice equals applying it once |
| SessionInbox.EventBound | crates/i2pr-app-sdk/src/lib.rs:308-323 | a stream event never grows the set past a bound of at least 128, and only incoming streams grow it |
| SessionInbox.NextControlReads | crates/i2pr-app-sdk/src/lib.rs:257-276 | reading to the next control takes one control, queues exactly the data passed, and applies its event once |
| SessionInbox.WaitForReads | crates/i2pr-app-sdk/src/lib.rs:278-297 | waiting consumes exactly the wanted message and queues every other message and data frame in order |
| SessionInbox.RecvControlReads | crates/i2pr-app-sdk/src/lib.rs:249-255 | the control returned followed by the queue is the old queue followed by what was read |
| SessionInbox.ReceiveReads | crates/i2pr-app-sdk/src/lib.rs:228-247 | the data frame returned is the first live one; frames before it are skipped only for dead streams, and controls read are queued |
| SessionInbox.WaitForShrinks | crates/i2pr-app-sdk/src/lib.rs:278-297 | a wait that reads no incoming-stream event never adds a stream |
| AppSession.AppSession.constructor | crates/i2pr-app-sdk/src/lib.rs:90-102 | a new session is valid: no streams, capabilities or pending output, its greeting on the wire, everything that arrived still to read |
| AppSession.Connect | crates/i2pr-app-sdk/src/lib.rs:103-116 | succeeds if and only if the first two frames are the grant of the greeting and the capabilities, with the exact error otherwise; the session is valid and holds those capabilities |
| AppSession.AppSession.PeerReadsAccepted | crates/i2pr-app-sdk/src/lib.rs:347-410 | of any valid session object: a decoding peer sees the frames it accepted in order, all but at most the last |
| AppSession.AppSession.Deliver | crates/i2pr-app-sdk/src/lib.rs:430-448 | frames arriving later extend what is to be read and keep the object valid |
| AppSession.AppSession.WriteMessage | crates/i2pr-app-sdk/src/lib.rs:347-365 | encodes and writes one frame as specified, records it if accepted, keeps the object valid |
| AppSession.AppSession.WriteControl | crates/i2pr-app-sdk/src/lib.rs:335-345 | a message that does not serialize or encode changes nothing; otherwise one specified write |
| AppSession.AppSession.AwaitGrant | crates/i2pr-app-sdk/src/lib.rs:146-154 | the wait and insertion are those specified, with the arrivals accounted for and at most 129 streams |
| AppSession.AppSession.Exchange | crates/i2pr-app-sdk/src/lib.rs:157-211 | capability, request number, one specified write, then the specified wait; keeps the object valid |
| AppSession.AppSession.DrainPendingFrame | crates/i2pr-app-sdk/src/lib.rs:378-410 | fields, wire and outcome are those of the specified drain, poll by poll |
| AppSession.AppSession.FlushPending | crates/i2pr-app-sdk/src/lib.rs:359-363 | fields, wire and outcome are those of the specified flush |
| AppSession.AppSession.FinishPendingOutput | crates/i2pr-app-sdk/src/lib.rs:367-376 | fields, wire and outcome are those of the specified completion |
| AppSession.AppSession.WriteFrame | crates/i2pr-app-sdk/src/lib.rs:347-365 | fields, wire, acceptance and outcome are those of the specified write |
| AppSession.AppSession.Send | crates/i2pr-app-sdk/src/lib.rs:213-226 | a dead stream or an unencodable frame changes nothing; otherwise one specified write; keeps the object valid |
| AppSession.AppSession.ApplyStreamEvent | crates/i2pr-app-sdk/src/lib.rs:308-323 | the live set becomes the specified one, or stays on a refusal |
| AppSession.AppSession.QueueControl | crates/i2pr-app-sdk/src/lib.rs:299-306 | queue and live set are those specified |
| AppSession.AppSession.NextControl | crates/i2pr-app-sdk/src/lib.rs:257-276 | the loop leaves the specified inbox and answer |
| AppSession.AppSession.WaitFor | crates/i2pr-app-sdk/src/lib.rs:278-297 | the loop leaves the specified inbox and answer |
| AppSession.AppSession.RecvControl | crates/i2pr-app-sdk/src/lib.rs:249-255 | pending output is finished first, then the specified control is taken; keeps the object valid |
| AppSession.AppSession.ReceiveData | crates/i2pr-app-sdk/src/lib.rs:228-247 | the loop leaves the specified inbox and answer |
| AppSession.AppSession.Receive | crates/i2pr-app-sdk/src/lib.rs:228-247 | pending output is finished first, then the specified data frame is taken; keeps the object valid |
| AppSession.AppSession.Open | crates/i2pr-app-sdk/src/lib.rs:123-155 | every refusal and what it leaves, exhausted request numbers included, the consumed stream number, the request write, then the specified wait and insertion; keeps the object valid |
| AppSession.AppSession.CloseStream | crates/i2pr-app-sdk/src/lib.rs:325-333 | a dead stream or a failed write changes no stream; otherwise exactly that stream goes; keeps the object valid |
| KeyScanner.RejectDuplicateObjectKeys | crates/i2pr-app-manager-proto/src/lib.rs:786-800 | the scan accepts if and only if the bytes are one printed value tree, well formed, nested within 64, every object with pairwise distinct raw member names |
| KeyScanner.Exact | crates/i2pr-app-manager-proto/src/lib.rs:786-957 | the functional scan accepts exactly those documents |
| KeyScanner.VerdictOnTree | crates/i2pr-app-manager-proto/src/lib.rs:786-957 | a printed well-formed tree is accepted if and only if it is clean: distinct names everywhere, depth within the limit |
| KeyScanner.ValueScanned | crates/i2pr-app-manager-proto/src/lib.rs:831-846 | scanning a printed tree followed by anything returns what follows if the tree is clean and fails otherwise, at any depth |
| KeyScanner.ValueSound | crates/i2pr-app-manager-proto/src/lib.rs:831-846 | whatever a successful scan consumed is blanks and one printed, clean, well-formed tree |
| MemberNames.NamesVerdict | crates/i2pr-app-manager-proto/src/lib.rs:781-800 | for every well-formed document: no object repeats a name, as section 7 of RFC 8259 reads names, and nesting fits, if and only if the scan accepts and no object spells one name in two ways |
| MemberNames.UnescapedVerdict | crates/i2pr-app-manager-proto/src/lib.rs:781-800 | where no member name has a backslash, the scan accepts if and only if no object at any depth repeats a name and nesting fits |
| MemberNames.RespelledNameAccepted | crates/i2pr-app-manager-proto/src/lib.rs:903-927 | for every member name starting with an unescaped character below 0x80, escaping that character spells the same name, and an object with both spellings is accepted |
| MemberNames.RespelledLetterAccepted | crates/i2pr-app-manager-proto/src/lib.rs:903-927 | the letter a and its four-digit escape denote one name, and an object with both is accepted |
| MemberNames.RawSpellingsCompared | crates/i2pr-app-manager-proto/src/lib.rs:903-927 | two members of one object are accepted if and only if their raw spellings differ, and repeat no name if and only if their names differ |
| KeyScanner.StrictKeyScanner.constructor | crates/i2pr-app-manager-proto/src/lib.rs:787-793 | the scanner starts at offset and depth zero |
| KeyScanner.StrictKeyScanner.SkipWhitespace | crates/i2pr-app-manager-proto/src/lib.rs:815-819 | the offset moves past exactly the blanks |
| KeyScanner.StrictKeyScanner.ExpectByte | crates/i2pr-app-manager-proto/src/lib.rs:821-829 | succeeds if and only if the byte follows the blanks; never moves back |
| KeyScanner.StrictKeyScanner.Value | crates/i2pr-app-manager-proto/src/lib.rs:831-846 | answer and offset are those of the specified scan, depth restored on success, never back |
| KeyScanner.StrictKeyScanner.ObjectValue | crates/i2pr-app-manager-proto/src/lib.rs:848-877 | answer and offset are those of the specified object scan, depth restored on success |
| KeyScanner.StrictKeyScanner.MemberLoop | crates/i2pr-app-manager-proto/src/lib.rs:858-876 | the member loop with its growing key set equals the specified scan |
| KeyScanner.StrictKeyScanner.ArrayValue | crates/i2pr-app-manager-proto/src/lib.rs:879-901 | answer and offset are those of the specified array scan, depth restored on success |
| KeyScanner.StrictKeyScanner.ItemLoop | crates/i2pr-app-manager-proto/src/lib.rs:888-900 | the item loop equals the specified scan |
| KeyScanner.StrictKeyScanner.StringToken | crates/i2pr-app-manager-proto/src/lib.rs:905-927 | the raw bytes up to the closing quote, or a refusal |
| KeyScanner.StrictKeyScanner.ScalarWord | crates/i2pr-app-manager-proto/src/lib.rs:931-956 | the maximal undelimited word is passed if and only if it is a scalar token |
| CentralDirectory.ValidateCentralDirectory | crates/i2pr-app-package/src/lib.rs:364-497 | verdict and error of the cursor walk are those specified, it never reads past the file, and it accepts if and only if some end record and records describe the file |
| CentralDirectory.ValidateExact | crates/i2pr-app-package/src/lib.rs:364-497 | validation yields these records if and only if the directory bytes are tiled exactly by them: well formed, distinct ASCII names, sizes within the limits |
| CentralDirectory.ValidateAccepts | crates/i2pr-app-package/src/lib.rs:364-497 | validation accepts if and only if such records exist |
| CentralDirectory.WalkSound | crates/i2pr-app-package/src/lib.rs:409-496 | an accepted walk returns as many records as announced and they tile the directory |
| CentralDirectory.WalkComplete | crates/i2pr-app-package/src/lib.rs:409-496 | records that tile the directory are what the walk returns |
| CentralDirectory.RecordAtExact | crates/i2pr-app-package/src/lib.rs:413-476 | a record is read if and only if it is well formed and its bytes lie at the cursor |
| CentralDirectory.ExtraExact | crates/i2pr-app-package/src/lib.rs:460-476 | an extra field passes if and only if it is a sequence of tagged blocks without the two forbidden tags |
| CentralDirectory.EndExact | crates/i2pr-app-package/src/lib.rs:370-390 | the end record found is the last signature in the window, with fields that fit the file |
| CentralDirectory.PayloadBounds | crates/i2pr-app-package/src/lib.rs:477-489 | each payload size is within the file limit and the payload total |
| CentralDirectory.NeverIo | crates/i2pr-app-package/src/lib.rs:364-497 | no input makes a bounded read fail |
| CentralDirectory.CheckExtra | crates/i2pr-app-package/src/lib.rs:460-476 | the block loop decides the extra field |
| CentralDirectory.ReadRecord | crates/i2pr-app-package/src/lib.rs:413-476 | reading one record yields the specified record or error and the cursor after it, within the directory |
| CentralDirectory.WalkRecords | crates/i2pr-app-package/src/lib.rs:409-496 | the loop over cursor, names and total equals the specified walk, errors included |
| Payload.VerifyMaterializedPayload | crates/i2pr-app-package/src/lib.rs:777-833 | accepts if and only if the tree holds no link or special file and its regular files are exactly the inventory with matching sizes and digests; a refused record gives the error of the first such record |
| Payload.VerifyExact | crates/i2pr-app-package/src/lib.rs:777-833 | the two passes together equal that set comparison |
| Payload.WalkExact | crates/i2pr-app-package/src/lib.rs:801-824 | the removing walk succeeds if and only if the subtree is plain and its file paths are expected, and leaves the others |
| Payload.FilesExact | crates/i2pr-app-package/src/lib.rs:801-824 | a path is among the files if and only if following it through directories reaches a file |
| Payload.Walk | crates/i2pr-app-package/src/lib.rs:801-824 | the recursive loop equals the specified walk |
| Payload.ParseInventory | crates/i2pr-app-package/src/lib.rs:646-682 | passes if and only if paths are well formed, ascending, distinct without regard to case, and sizes bounded; otherwise the first bad record decides the error |
| Payload.TranscriptInjective | crates/i2pr-app-package/src/lib.rs:835-855 | equal signed transcripts come from equal manifest, inventory and key |
| Cidr.ContainsMeaning | crates/i2pr-app-proto/src/lib.rs:1211-1227 | membership by exclusive-or and shift holds if and only if both addresses have one family and equal quotients by the block size |
| Cidr.XorShiftMeaning | crates/i2pr-app-proto/src/lib.rs:1211-1227 | the shifted exclusive-or is zero if and only if the quotients agree |
| Cidr.NestedOrDisjoint | crates/i2pr-app-proto/src/lib.rs:1211-1227 | two blocks that share one address are nested |
| Cidr.Global4 | crates/i2pr-app-proto/src/lib.rs:1448-1483 | an IPv4 address is global if and only if it lies outside an explicit list of intervals |
| Cidr.Global6 | crates/i2pr-app-proto/src/lib.rs:1484-1518 | an IPv6 address is global if and only if the IPv4 address it maps is, or, unmapped, it lies in 2000::/3 outside four intervals |
| Cidr.Prefix4Interval | crates/i2pr-app-proto/src/lib.rs:1520-1524 | an aligned IPv4 prefix is an interval |
| Cidr.Prefix6Interval | crates/i2pr-app-proto/src/lib.rs:1525-1531 | an aligned IPv6 prefix is an interval |
| Policy.Validate | crates/i2pr-app-proto/src/lib.rs:1282-1320 | accepts exactly the valid policies and reports the first bad rule |
| Policy.RunDecide | crates/i2pr-app-proto/src/lib.rs:1403-1416 | the flag loop is deny-overrides with default deny |
| Policy.DecideMeaning | crates/i2pr-app-proto/src/lib.rs:1403-1416 | the decision over matching rules allows if and only if one allows and none denies |
| Policy.RequestedIpMeaning | crates/i2pr-app-proto/src/lib.rs:1336-1353 | a requested address is allowed if and only if the policy is valid, TCP, nonzero port, some rule naming it allows and none denies |
| Policy.HostnameMeaning | crates/i2pr-app-proto/src/lib.rs:1321-1335 | a hostname is allowed under the same condition, when it is well formed |
| Policy.ResolvedMeaning | crates/i2pr-app-proto/src/lib.rs:1354-1383 | a resolved address is allowed if and only if its hostname is, no rule naming the address denies, and it is global or allowed by name |
| Policy.MappedJudgedAlike | crates/i2pr-app-proto/src/lib.rs:1434-1446 | an IPv4-mapped address is judged as the IPv4 address it carries, requested or resolved |
| Policy.OrderIrrelevant | crates/i2pr-app-proto/src/lib.rs:1321-1383 | all three evaluators agree on every permutation of the rules |
| Policy.DenyOnlyRestricts | crates/i2pr-app-proto/src/lib.rs:1321-1383 | adding a deny rule never turns a denial into an allowance |
| Datagram.RequestBijection | crates/i2pr-app-manager-proto/src/datagram.rs:50-125 | bytes decode to a request if and only if the request encodes to those bytes |
| Datagram.ReplyBijection | crates/i2pr-app-manager-proto/src/datagram.rs:127-186 | bytes decode to a reply if and only if the reply encodes to those bytes |
| Datagram.FrameBoundNeverFires | crates/i2pr-app-manager-proto/src/datagram.rs:214-222 | messages within the field limits take at most 62002 bytes, so the frame bound refuses none |
| Datagram.TakeIdExact | crates/i2pr-app-manager-proto/src/datagram.rs:268-278 | an identifier is taken if and only if it is valid and lies length-prefixed at the front |
| Datagram.TakeBytesExact | crates/i2pr-app-manager-proto/src/datagram.rs:261-267 | a byte field is taken if and only if it is within its limit and lies length-prefixed at the front |
| Datagram.Cursor.constructor | crates/i2pr-app-manager-proto/src/datagram.rs:229-231 | the cursor starts at the front |
| Datagram.Cursor.TakeSome | crates/i2pr-app-manager-proto/src/datagram.rs:232-243 | the offset passes exactly the bytes returned, or the frame is malformed |
| Datagram.Cursor.Byte | crates/i2pr-app-manager-proto/src/datagram.rs:244-246 | one byte is taken, or the frame is malformed |
| Datagram.Cursor.Unsigned | crates/i2pr-app-manager-proto/src/datagram.rs:247-260 | a big-endian number of the given width is taken |
| Datagram.Cursor.BoundedBytes | crates/i2pr-app-manager-proto/src/datagram.rs:261-267 | the specified field is taken, limit error included |
| Datagram.Cursor.Id | crates/i2pr-app-manager-proto/src/datagram.rs:268-278 | the specified identifier is taken, error included |
| Datagram.RunDecodeRequest | crates/i2pr-app-manager-proto/src/datagram.rs:97-124 | decoding through the cursor equals the specified decoding, errors included |
| Datagram.RunDecodeReply | crates/i2pr-app-manager-proto/src/datagram.rs:155-185 | decoding through the cursor equals the specified decoding, errors included |
| Datagram.RunEncodeRequest | crates/i2pr-app-manager-proto/src/datagram.rs:51-95 | appending the fields equals the specified encoding, errors included |
| Datagram.RunEncodeReply | crates/i2pr-app-manager-proto/src/datagram.rs:128-153 | appending the fields equals the specified encoding, errors included |
| BookMeaning.DeleteMeaning | crates/i2pr-addressbook/src/book.rs:256-270 | deleting a parsed name succeeds if and only if the named book holds it; that name alone goes, the revision advances, every other table and field stays |
| BookMeaning.StoreMeaning | crates/i2pr-addressbook/src/book.rs:271-292 | storing a destination: refused if invalid; otherwise the name maps to it alone, Updated if it was held, Created if there was room, and refused as full if not |
| BookMeaning.MalformedEntry | crates/i2pr-addressbook/src/book.rs:256-262 | mixed shapes, an unparsable name and a missing destination are refused, each with its error, and change nothing |
| BookMeaning.CeilingMeaning | crates/i2pr-addressbook/src/book.rs:271-283 | in a valid book the room is the configured number of entries, 1 to 1000 |
| BookMeaning.DeletedUnanswered | crates/i2pr-addressbook/src/book.rs:140-163 | after a deletion no spelling of the name is answered from that book |
| BookMeaning.StoredAnswered | crates/i2pr-addressbook/src/book.rs:140-163 | after storing, every spelling is answered with the new destination from that book, unless an earlier book holds the name |
| BookMeaning.ReplaceSubscriptionsMeaning | crates/i2pr-addressbook/src/book.rs:296-312 | nothing changes if and only if the deduplicated request is the present list in the same order; otherwise the list is that request, and errors change nothing |
| BookMeaning.CheckedSetMeaning | crates/i2pr-addressbook/src/subscription.rs:68-80 | a URL list is refused if and only if it is longer than 16 or holds an invalid URL, each with its error |
| BookMeaning.ReplaceDerivedMeaning | crates/i2pr-addressbook/src/book.rs:317-334 | a derived table is installed, and the sources dropped, if and only if it has at most 1000 names, valid destinations and differs from the present one; each refusal has its error |
| BookMeaning.SourceErrorMeaning | crates/i2pr-addressbook/src/book.rs:352-365 | which sources are refused, and how |
| BookMeaning.ValidatorMeaning | crates/i2pr-addressbook/src/subscription.rs:51-58 | a cache validator passes if and only if it is at most 512 visible or space characters |
| BookMeaning.ReplaceSourcesMeaning | crates/i2pr-addressbook/src/book.rs:338-378 | sources are installed with their merge if and only if they cover the URLs exactly, each passes and the merge has at most 1000 names; unchanged sources change nothing; each refusal has its error |
| BookMeaning.SyncPublishedMeaning | crates/i2pr-addressbook/src/book.rs:383-395 | with publishing on, the published book becomes the router book and nothing else changes; off, or already equal, nothing changes |
| BookMeaning.ApplyConfigMeaning | crates/i2pr-addressbook/src/book.rs:400-422 | a configuration is applied if and only if the update is accepted and no book is larger than it allows |
| ConfigText.ParseRangedExact | crates/i2pr-addressbook/src/config.rs:418-429 | a number is read if and only if the text is a decimal numeral of it, leading zeros allowed, and it lies in the range |
| ConfigText.ConfinedPathExact | crates/i2pr-addressbook/src/config.rs:387-414 | a file name is accepted if and only if it is 1 to 255 bytes without control characters or separators, not starting with a dot and not one of the two generation files; dot and dot-dot alone are an escape |
| ConfigText.SetFieldExact | crates/i2pr-addressbook/src/config.rs:300-366 | an assignment yields a configuration if and only if the text denotes its value of that key and every other key is as before |
| ConfigText.UpdateExact | crates/i2pr-addressbook/src/config.rs:294-382 | an update yields a configuration if and only if every entry is bounded, names a key and denotes its value there, all other keys are as before, and the eight artifact names are distinct |
| ConfigText.RefusalExact | crates/i2pr-addressbook/src/config.rs:294-366 | how one entry is refused: too long or denoting nothing, naming no key, or escaping where a file name is due |
| ConfigText.UpdateError | crates/i2pr-addressbook/src/config.rs:294-382 | a failing update reports the refusal of its first bad entry in key order, or else the clash of two artifact names |
| SubscriptionText.ReadLineExact | crates/i2pr-addressbook/src/subscription.rs:133-152 | a line is read as an entry if and only if, less one carriage return, it is a name, the first equals sign and a destination: bounded, UTF-8, no comment, the name parsing to that hostname and the destination valid |
| SubscriptionText.ReadLineOther | crates/i2pr-addressbook/src/subscription.rs:133-152 | which lines are skipped, and how lines without an entry fail |
| SubscriptionText.ReadLineBadName | crates/i2pr-addressbook/src/subscription.rs:139-152 | a line fails for its name if and only if the text before its first equals sign is no hostname |
| SubscriptionText.IngestText | crates/i2pr-addressbook/src/subscription.rs:123-153 | in an accepted body a name has the destination of the last line whose text is an entry for it, and no other name occurs |
| SubscriptionText.IngestAccepts | crates/i2pr-addressbook/src/subscription.rs:123-153 | a body is accepted if and only if it is bounded, every line is a comment or an entry, and at most 1000 names occur |
| SubscriptionText.IngestError | crates/i2pr-addressbook/src/subscription.rs:123-153 | a refused body reports its first line at fault: a bad line its own error, a name past the thousandth the list bound |
| SubscriptionText.DeduplicatedOrder | crates/i2pr-addressbook/src/subscription.rs:68-80 | deduplication keeps the first occurrence of every URL, in order |
| SubscriptionText.ValidUrlExact | crates/i2pr-addressbook/src/subscription.rs:93-118 | a URL is accepted if and only if it is printable, bounded, and its lower-case form is http or https, a host ending in .i2p, an optional numeric port and an optional path, query or fragment |
| GenerationExact.DecodeExact | crates/i2pr-addressbook/src/generation.rs:151-280 | for every shape: decoding yields a book if and only if the shape stores that book, field by field, in either version: revision, configuration, four tables, URLs, and a derived table that is stored as such or is the merge of the stored sources |
| GenerationExact.WrongDerivedRefused | crates/i2pr-addressbook/src/generation.rs:267-275 | a shape with sources whose derived table is not their merge is refused, however good the rest |
| GenerationExact.DecodeError | crates/i2pr-addressbook/src/generation.rs:151-280 | a refused shape is an invalid generation, or an invalid hostname if and only if all that precedes the derived part is good and a name there does not parse |
| GenerationExact.ParseNamesExact | crates/i2pr-addressbook/src/generation.rs:230-240 | stored names are taken if and only if every one parses, and give each hostname the destination of its last spelling in key order |
| GenerationExact.AdmitBookExact | crates/i2pr-addressbook/src/generation.rs:205-226 | one stored book is admitted if and only if it is bounded, its names parse, its destinations are valid and its hostnames fit |
| GenerationExact.AdmitBooksExact | crates/i2pr-addressbook/src/generation.rs:205-226 | the four books are admitted if and only if each is, whatever the others hold, and become their canonical tables |
| GenerationExact.ConfigExact | crates/i2pr-addressbook/src/generation.rs:160-204 | a stored configuration is taken if and only if each stored text denotes the value of its key and the artifact names are distinct |
| GenerationExact.ParseSourcesExact | crates/i2pr-addressbook/src/generation.rs:242-266 | stored sources are taken if and only if all their names parse, URL by URL, validators kept |
| GenerationExact.RestoreTableExact | crates/i2pr-addressbook/src/generation.rs:230-240 | a stored derived table is restored if and only if its canonical form is bounded and valid |
| GenerationExact.RestoreSourcesExact | crates/i2pr-addressbook/src/generation.rs:242-275 | stored sources are restored if and only if they are acceptable and their merge equals the stored derived table |
| WriterOutcome.WriteRefines | crates/i2pr-app-sdk/src/lib.rs:347-365 | a write answers what a machine doing the owed bytes, the owed flush, the frame and its flush answers, and takes the frame if and only if the owed part got done |
| WriterOutcome.DrainRefines | crates/i2pr-app-sdk/src/lib.rs:378-410 | the drain loop is that machine on the owed bytes |
| WriterOutcome.FinishAnswers | crates/i2pr-app-sdk/src/lib.rs:367-376 | finishing pending output answers what doing the owed work answers |
| WriterOutcome.WriteSucceeds | crates/i2pr-app-sdk/src/lib.rs:347-365 | a schedule without failure, drop or empty write, with as many ready polls as owed and frame bytes and two flushes, makes the write succeed |
| WriterOutcome.OutcomeExact | crates/i2pr-app-sdk/src/lib.rs:347-410 | done, failed and cancelled schedules told apart by the first poll that settles the matter: a failure or an empty write, a drop or the end of the schedule, or the poll that does the last of the work |
| WriterOutcome.FirstStop | crates/i2pr-app-sdk/src/lib.rs:347-410 | a failure, an empty write or a drop met while work is left decides the answer |
| AppSession.SendSucceeds | crates/i2pr-app-sdk/src/lib.rs:213-226 | on a live stream, an encodable frame under a smooth schedule is accepted and answered with success |
| AppSession.FailureMeaning | crates/i2pr-app-sdk/src/lib.rs:347-365 | a failed write is reported as an I/O error, and a dropped one as abandoned |
| SessionEvents.EventMeaning | crates/i2pr-app-sdk/src/lib.rs:308-323 | an incoming stream is refused if and only if it is new and 128 are live; an event settles its own stream and no other |
| SessionEvents.LiveMeaning | crates/i2pr-app-sdk/src/lib.rs:308-323 | after any admitted messages a stream is live if and only if the last message naming it announced it, or none names it and it was live before |
| SessionEvents.ClosedNotLive | crates/i2pr-app-sdk/src/lib.rs:308-323 | a stream the host closed or reset and did not announce again is not live, whatever else was refused |
| SessionEvents.ClosedByHost | crates/i2pr-app-sdk/src/lib.rs:213-247 | after any read, wait or receive, a stream that the host closed or reset last is not live, which is what a send refuses as closed |
| SessionEvents.NextControlHears | crates/i2pr-app-sdk/src/lib.rs:257-276 | whatever the outcome, reading a control leaves the live set of the messages read |
| SessionEvents.WaitForHears | crates/i2pr-app-sdk/src/lib.rs:278-297 | whatever the outcome, a wait leaves the live set of the messages read |
| SessionEvents.RecvControlHears | crates/i2pr-app-sdk/src/lib.rs:249-255 | so does taking a control, from the queue or the channel |
| SessionEvents.ReceiveHears | crates/i2pr-app-sdk/src/lib.rs:228-247 | so does receiving data, when it succeeds |
| SessionEvents.NextControlExact | crates/i2pr-app-sdk/src/lib.rs:257-276 | the first frame that is not queued data decides what reading a control answers |
| SessionEvents.RecvControlExact | crates/i2pr-app-sdk/src/lib.rs:249-255 | a queued control is handed out first; otherwise the next one is read |
| SessionEvents.WaitForError | crates/i2pr-app-sdk/src/lib.rs:278-297 | the first frame that a wait can neither take nor queue decides its error |
| SessionEvents.ReceiveQueued | crates/i2pr-app-sdk/src/lib.rs:228-236 | the first queued frame of a live stream is handed out without reading |
| SessionEvents.ReceiveExact | crates/i2pr-app-sdk/src/lib.rs:237-247 | with no live frame queued, the first frame that is not a queued control decides what receiving answers |
| SessionEvents.OpenAnswers | crates/i2pr-app-sdk/src/lib.rs:146-155 | what open answers once its wait ended, grant, refusal or error |
| SessionEvents.CloseMeaning | crates/i2pr-app-sdk/src/lib.rs:325-333 | closing takes out that stream alone, and only if it is live |
| ZipLayout.HeaderExact | crates/i2pr-app-package/src/lib.rs:413-446 | a header laid out from named fields passes if and only if its name is bounded, it is stored unencrypted on this disk and no field is a ZIP64 placeholder |
| ZipLayout.HeaderHasFields | crates/i2pr-app-package/src/lib.rs:413-446 | every header with the signature is laid out from some fields |
| ZipLayout.HeaderReads | crates/i2pr-app-package/src/lib.rs:413-446 | lengths and sizes are read from their own fields |
| ZipLayout.HeaderNeedsSignature | crates/i2pr-app-package/src/lib.rs:413-446 | bytes without the signature are no header |
| ZipLayout.RecordLaid | crates/i2pr-app-package/src/lib.rs:447-459 | header, name, extra field and comment follow one another |
| ZipLayout.EndRecordExact | crates/i2pr-app-package/src/lib.rs:370-407 | an end record laid out from named fields is found if and only if its comment ends the file and no signature follows, and passes if and only if it is of one disk, its counts agree and fit, and its size and offset reach it |
| ZipLayout.AnnouncedRecords | crates/i2pr-app-package/src/lib.rs:364-497 | what an accepted archive announces is what it holds |
| ZipLayout.FlagBits | crates/i2pr-app-package/src/lib.rs:434-446 | the three flag masks are bits 0, 6 and 13 |
| PolicyMeaning.PortsExact | crates/i2pr-app-proto/src/lib.rs:1229-1241 | a selector matches a port if and only if the port is in its set: one port, or all from first to last |
| PolicyMeaning.HostExact | crates/i2pr-app-proto/src/lib.rs:1417-1433 | a host name is valid if and only if it is labels of small letters, digits and inner hyphens joined by dots, 63 bytes each and 253 in all |
| PolicyMeaning.NamesIpExact | crates/i2pr-app-proto/src/lib.rs:1384-1402 | a rule names an address if and only if protocol and port match and it gives that address or its block |
| PolicyMeaning.NamesHostExact | crates/i2pr-app-proto/src/lib.rs:1321-1335 | a rule names a host if and only if protocol and port match and it gives exactly that host |
| PolicyMeaning.RuleExact | crates/i2pr-app-proto/src/lib.rs:1290-1320 | a rule is valid if and only if it is TCP, selects some port and not port zero, and its destination is well formed and not IPv4-mapped; an overlong host is the only limit error |
| PolicyMeaning.PolicyExact | crates/i2pr-app-proto/src/lib.rs:1282-1320 | a policy is valid if and only if it has at most 64 rules, all valid |
| PolicyMeaning.RequestedExact | crates/i2pr-app-proto/src/lib.rs:1336-1353 | a requested address is allowed if and only if the policy is valid, TCP, nonzero port, some allow rule covers it and no deny rule does, covering being equality or equal network numbers |
| PolicyMeaning.HostnameExact | crates/i2pr-app-proto/src/lib.rs:1321-1335 | a host name is allowed if and only if it is well formed, some allow rule gives it and no deny rule does, under the same conditions |
| PolicyMeaning.ResolvedExact | crates/i2pr-app-proto/src/lib.rs:1354-1383 | a resolved address is allowed if and only if its name is, no deny rule covers it, and it is global or covered by an allow rule |
| PolicyMeaning.IsMappedExact | crates/i2pr-app-proto/src/lib.rs:1434-1446 | IPv4-mapped addresses are exactly ::ffff:0:0/96, and carry their low 32 bits |
| PolicyMeaning.Scopes4 | crates/i2pr-app-proto/src/lib.rs:1448-1483 | every class of IPv4 address as intervals |
| PolicyMeaning.Scopes6 | crates/i2pr-app-proto/src/lib.rs:1484-1518 | every class of unmapped IPv6 address as intervals; reserved is what is left |
| WireLayout.FrameLayout | crates/i2pr-app-proto/src/lib.rs:694-766 | which frames encode, with which error the others fail, and where every field of one lies |
| WireLayout.IdExact | crates/i2pr-app-manager-proto/src/datagram.rs:188-196 | an identifier is valid if and only if it is 1 to 256 visible ASCII characters |
| WireLayout.RequestIds | crates/i2pr-app-manager-proto/src/datagram.rs:51-95 | magic, tag and the two counted identifiers of a request, by position |
| WireLayout.SendLayout | crates/i2pr-app-manager-proto/src/datagram.rs:51-95 | hash, ports, protocol, options and payload of a send, by position |
| WireLayout.ReplyLayout | crates/i2pr-app-manager-proto/src/datagram.rs:128-153 | magic and tag of every reply and every field of a delivery, by position |
| WireLayout.TranscriptLayout | crates/i2pr-app-package/src/lib.rs:835-855 | prefix, lengths, manifest, inventory and key of the signed transcript, by position |
| WireLayout.JsonAlphabet | crates/i2pr-app-manager-proto/src/lib.rs:815-956 | the bytes the scanner treats as blanks, delimiters, number bytes, punctuation and keywords, as characters |
| NameText.PathExact | crates/i2pr-app-proto/src/lib.rs:1045-1069 | a package path is valid if and only if it is at most 512 bytes of components joined by single slashes, each of letters, digits, dot, underscore and hyphen and neither empty, dot nor dot-dot |
| NameText.ReservedExact | crates/i2pr-app-package/src/lib.rs:936-944 | a path is reserved if and only if the text before the first dot of some component is, in any case, one of the twenty-two device names |
| NameText.DigestExact | crates/i2pr-app-package/src/lib.rs:945-950 | a digest is 64 small hexadecimal digits |
| NameText.HostLabelExact | crates/i2pr-addressbook/src/hostname.rs:52-65 | a label is 1 to 63 letters, digits and hyphens with a letter or digit at both ends |
| ZipLayout.AsciiName | crates/i2pr-app-package/src/lib.rs:456-459 | a member name is ASCII if and only if it is the bytes of some ASCII text |
| ArchiveRefusal.ValidateRefusal | crates/i2pr-app-package/src/lib.rs:364-497 | an archive is refused with a payload limit if and only if, behind its end record, good records with fresh names lead to one that passes that limit; every other refusal is of a malformed archive |
| ArchiveRefusal.WalkRefusal | crates/i2pr-app-package/src/lib.rs:409-496 | the same of the record walk from any cursor |
| ArchiveRefusal.PayloadLaid | crates/i2pr-app-package/src/lib.rs:477-489 | a payload member passes if and only if its two sizes are equal and at most 256 MiB, and its size counts |
| PayloadMeaning.FirstErrorExact | crates/i2pr-app-package/src/lib.rs:777-800 | the record pass blames the first record that does not match: an I/O error if and only if nothing is at its good path |
| PayloadMeaning.RecordExact | crates/i2pr-app-package/src/lib.rs:777-800 | a record matches if and only if its path is good and leads to a regular file of the recorded size and digest |
| PayloadMeaning.MetadataExact | crates/i2pr-app-package/src/lib.rs:781-790 | an object is found at a path if and only if a route of directories leads to it, links followed on the way but not at the end |
| PayloadMeaning.ResolveExact | crates/i2pr-app-package/src/lib.rs:781-790 | resolving finds an object if and only if a chain of links ends there |
| PayloadMeaning.AbsentExact | crates/i2pr-app-package/src/lib.rs:781-790 | nothing is at a path if and only if it leads nowhere |
| DatagramFaults.RequestRefusal | crates/i2pr-app-manager-proto/src/datagram.rs:97-124 | a request is refused with the error of its first faulty field in a table of fields, trailing bytes included |
| DatagramFaults.ReplyRefusal | crates/i2pr-app-manager-proto/src/datagram.rs:155-185 | a reply is refused with the error of its first faulty field in a table of fields, trailing bytes included |
| WireLayout.FrameRefusal | crates/i2pr-app-proto/src/lib.rs:694-766 | which bytes are refused as a frame and with which error, each if and only if, from the header bytes |
| WireLayout.ReadRefusal | crates/i2pr-app-sdk/src/lib.rs:430-448 | how the reader fails, each if and only if, from the header bytes |
| WireLayout.ScalarExact | crates/i2pr-app-manager-proto/src/lib.rs:931-956 | a scalar is true, false, null or a nonempty run of number characters |
| Refresh.PushIsServed | crates/i2pr-addressbook/src/refresh.rs:60-101 | whatever the state, a set pushed now is the last one handed out once the queue is drained |
| Refresh.LoadExact | crates/i2pr-addressbook/src/refresh.rs:42-112 | after every run the queue holds as many sets as a counter that a push raises up to two and a finish lowers: the first active, the second waiting |
| ZipLayout.SignatureExact | crates/i2pr-app-package/src/lib.rs:378-382 | an end signature is at a position if and only if its four bytes stand there, at the very end of the file included |
| ArchiveRefusal.TotalPayloadExact | crates/i2pr-app-package/src/lib.rs:477-489 | the payload total is the sum over the records |
| PayloadMeaning.TotalExact | crates/i2pr-app-package/src/lib.rs:646-682 | the inventory total is the sum of the sizes |
| WireLayout.TranscriptRefusal | crates/i2pr-app-package/src/lib.rs:835-848 | a transcript is refused if and only if a length does not fit 32 bits, the manifest blamed first |
| KeyScanner.NestingLimit | crates/i2pr-app-manager-proto/src/lib.rs:831-846 | n arrays inside one another are accepted if and only if n is at most 64 |

## Left out

- JSON text of generations, manifests and control messages: the model starts from the decoded shapes, so the 24 MB generation ceiling and serde's own errors are not in it.
- Base64 and Destination decoding: one predicate stands for valid destination text.
- Parsing and printing of IP literals: `Config.Library` stands for it.
- SHA-256, Ed25519, the `zip` crate, file permissions, locks and fsync: a digest is any function of bytes, a directory is a tree value, and I/O errors other than a missing object do not occur.
- ParseInventory: the JSON decoding and its byte ceiling before the loop are not modelled.
- VerifyMaterializedPayload: reads each file once as a value, so a tree changing during the check is not modelled.
- ReadRecord: assumes the archive ceiling the caller has already enforced, which is what keeps cursor sums small.
- AppSession.AppSession.Open: the request number and the serialized request are parameters, absent when the counter or the serializer refuses.
- SessionHistory.RunConserves: one frame read is atomic; a call dropped inside a frame is not modelled.
- AppSession.Connect: the greeting is already on the wire and flushed, because it is written outside the resumable writer.
- NamesVerdict: names are compared as UTF-8 bytes; no Unicode normalization, which RFC 8259 does not ask for either.
- Limit ledgers, handshakes, identifier wrappers, diagnostics lines, the apphost bootstrap, and all getters and listings: they would only add easy members.
- Scripts, fuzz targets, fixtures, the console and the binaries.
