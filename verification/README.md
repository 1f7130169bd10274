# natsstore: a verified model

The repository implements storage contracts over NATS JetStream. This project models its hardest
parts and proves what they promise:

- **the ordered index** (`OrderedStream`, `OrderedStore`): many clients share one stream that keeps one
  message per subject. Create allocates an order from a counter under an optimistic fence; Update and
  Delete compare-and-swap a revision. An acknowledgement may be lost with or without a commit behind it.
- **the materialized view** (`SortOrder`, `OrderedView`, `Listings`, `Walks`, `Paging`, `ViewAgreement`,
  `ViewProgress`, `ViewFreshness`): sorted indexes kept by binary search, fed by a subscription that loses superseded
  messages, redelivers and restarts; listings with keyset cursors; the wait for a captured tip.
- **the batch on the wire** (`BatchPublish`): member-by-member staging under a batch id, against the
  single atomic step that the rest assumes.
- **leases** (`Lease`): epochs fenced by revision, renewals whose replies are lost, the self-fence.
- **in-process bookkeeping** (`ScopeLatch`, `ViewRegistry`): the counted latch per order scope, and the
  life of views under queries, failures, evictions and Close.
- **codecs and the chunk reader** (`NameCodec`, `SubjectSpace`, `DecimalCodec`, `ChunkReader`).

## How concurrency is modelled

A call runs against an `OrderedSeam` or a lease `Entry` that lets other clients act before each of its
steps. What they may do is any commit that some call's code makes (`LegalEntry`, `LegalAfter`), any number
of times; each request may also be answered, lost after it took effect, or lost before, in which case it stays
under way and may still reach the server at any later moment. The methods
are proved to extend the history by legal commits only, so theorems about all legal histories hold of all
interleavings. Each method has two kinds of promises: those that hold under any interference, and, when
the seam is `Quiet`, the exact answer. The view's subscription, the batch server and the view registry are
state machines whose runs are arbitrary lists of steps.

## Where the code and its description differ

- `ordered.go:630-632` says that a reader never observes a state older than the start of its call. The code
  guarantees less: a head waiting to be delivered can be superseded and vanish while its replacement lies
  beyond the captured tip. `StaleReadIff` says exactly when: some run lets a query see a record older than it
  was at the start if and only if the watermark had not reached the record's head at that moment and the head
  can still be superseded, being neither a tombstone nor the last revision. `CaughtUpViewMayMissARecord` is one
  such run. What a view holds never goes back (`NeverGoesBack`).
- Create may answer `created=false` for a record this very call committed, if the acknowledgement was lost and
  someone revised the record before it was read back: exactly if the identity then has more than one version
  (`DisownsTruly`). `CreateMayDisownItsRecord` applies the code's classification to such a history.
- An ambiguous outcome promises nothing: the write may land after the call has returned, and if it does it is
  the one that was submitted (`LateCreateIsFirst`, `LandsAs`).
- A query restarts at most once, but can retire two views, because the eviction after its wait is not counted
  (`ordered.go:1273-1278`). `SecondRetirement` says exactly when, `QueryMayRetireTwo` is such a run.
- Lease epochs wrap at the top of `uint64`: the takeover writes epoch zero. `EpochsNondecreasingIff` states
  when epochs never decrease, `EpochsCanWrap` that the wrap has a history.
- `encodeSubject` is not injective on all strings: a string shares its subject with another exactly if it
  contains `.` or `%2E` (`CollidesIff`). No two valid names collide, since they contain no `%`.

## Model

| member | source | states |
|---|---|---|
| OrderedStream.OrdersStayExact | ordered.go:369-447 | in every reachable stream each scope's counter equals its number of records, whose orders are exactly 1..counter, once each, tombstones included, within uint64 |
| OrderedStream.HistoryIsChain | ordered.go:454-576 | an identity's committed versions have revisions 1, 2, 3, ... and one order and ranking scope; nothing follows a tombstone; the live head is the last version |
| OrderedStream.TombstoneIsLast | ordered.go:495-524 | a tombstone is final |
| OrderedStream.CreateAllocates | ordered.go:404-424 | a create batch that meets its fences changes one scope's counter by one and adds one record that was not there |
| OrderedStream.ReviseKeepsOrders | ordered.go:531-547 | update and delete leave every order, counter and set of identities as it was |
| OrderedStream.FenceStable | ordered_seam.go:481-494 | if a subject's last sequence is the one read, its message is too, whatever was committed meanwhile |
| OrderedStream.StoreTwo | ordered_test.go:112-126 | a two-member batch stores both messages at the next two sequences |
| OrderedStream.LaterIsSameOrBeyond | ordered_seam.go:212-229 | with one message per subject, a later message is the same one or lies beyond the old tip |
| OrderedStream.SeqMovesWithVersions | ordered.go:301-314 | a record subject's sequence moves only when a version is committed |
| OrderedStream.VersionsMoveSeq | ordered.go:301-314 | and it does move then, and never back |
| OrderedStore.OrderedSeam.Publish | ordered_test.go:112-126 | commits the whole batch when every fence holds on arrival, whether it arrives before the reply or after; only an answer says which |
| OrderedStore.OrderedSeam.Arrive | ordered_seam.go:600-617 | an unanswered request may land at any later moment, if its fences still hold |
| OrderedStore.OrderedSeam.LastMsgForSubject | ordered_seam.go:454-477 | reads the subject's live message, or says that there is none |
| OrderedStore.ReadRecord | ordered.go:301-314 | reads the identity's last version with its fence |
| OrderedStore.Attempt | ordered.go:374-445 | one pass of the retry loop: on every branch an honest answer, or a retry that wrote nothing and left nothing under way |
| OrderedStore.PublishCreate | ordered.go:399-412 | publishes counter and record under their own fences, which is all the call ever sends |
| OrderedStore.Create | ordered.go:338-448 | under any interference: created=true names the committed first version, field by field as submitted; a refusal wrote nothing and never will; a record this call wrote is claimed exactly if it is still the only version; once a record is reported nothing of the call can land any more; contention means 64 refused publishes, and failing or not knowing an unanswered request; undisturbed: the existing record, a refusal of the arguments, exhaustion, or a new record at counter + 1, exactly when |
| OrderedStore.HonestAfterPublish | ordered.go:408-445 | every classification of a publish that has landed, may yet land, or was refused is honest |
| OrderedStore.CreateIsLegal | ordered.go:399-412 | whenever its fences hold, now or later, a create batch is a legal commit |
| OrderedStore.CommittedCreateIsFirst | ordered.go:399-412 | wherever a create batch stands in a history it began its identity's history |
| OrderedStore.ExistingBlocksCreate | ordered.go:399-412 | once the identity exists a create that is still under way can never land |
| OrderedStore.LateCreateIsFirst | ordered.go:421-441 | a Create that lands after it answered lands, field by field, as submitted, as the first version, and had not refused |
| OrderedStore.CreatedTwiceIsTheSame | ordered.go:590-599 | two calls report created=true for one identity only if they submitted equal records and hold the same order |
| OrderedStore.CreateMayDisownItsRecord | ordered.go:421-441 | a legal history on which the classification answers created=false for the call's own record |
| OrderedStore.RevisionIsLegal | ordered.go:531-547 | whenever its fence holds, now or later, a revision is a legal commit |
| OrderedStore.CommittedRevisionIsNext | ordered.go:531-547 | wherever a revision stands in a history it is the version right after the one that was read |
| OrderedStore.NewerBlocksRevision | ordered.go:531-547 | once the record has moved on a revision that is still under way can never land |
| OrderedStore.LateRevisionIsNext | ordered.go:566-576 | a revision that lands after its call answered is still the version right after the one that was read |
| OrderedStore.LostFence | ordered.go:548-562 | a failed fence means that the record has gained a version since it was read |
| OrderedStore.HonestAfterRevision | ordered.go:548-576 | every classification after a lost fence or an ambiguous publish is honest |
| OrderedStore.CommitRevision | ordered.go:531-576 | all branches of the commit: success on top of the expected version, a true refusal, or an unresolved write that can land only on top of that version |
| OrderedStore.Update | ordered.go:454-489 | success returns the version committed directly on top of expectedRevision, with only value, rank and due replaced; other definite answers wrote nothing, never will, and are true; whatever lands, then or later, is that version; failing or not knowing needs an unanswered request; undisturbed: each answer if and only if its condition on the last version and the arguments holds |
| OrderedStore.Delete | ordered.go:495-524 | success returns a tombstone that is the last version for good, unranked, not due, with the value before it; whatever lands is the tombstone on top of expectedRevision; undisturbed: each answer if and only if its condition holds |
| OrderedStore.TombstoneStands | ordered.go:552-560 | the tombstone Delete reports, its own or another's, is the last version |
| SortOrder.BeforeTransitive | ordered.go:665-687 | the ranked and due comparators are transitive |
| SortOrder.StrLessAtFirstDifference | ordered.go:665-687 | strings compare bytewise at their first difference, a proper beginning first |
| SortOrder.BeforeTrichotomy | ordered.go:665-687 | exactly one of before, after, same key |
| SortOrder.BeforeRespectsKey | ordered.go:665-687 | the comparators look at the sort key only |
| SortOrder.ListingIsUnique | ordered.go:783-799 | a set of records has one sorted duplicate-free listing |
| OrderedView.View.LowerBound | ordered.go:1033-1045 | splits a sorted index at the first entry not before the probe |
| OrderedView.View.UpperBound | ordered.go:1051-1063 | splits a sorted index at the first entry strictly after the probe |
| OrderedView.View.OrderLowerBound | ordered.go:1134-1146 | splits an order index at the first order not below the argument |
| OrderedView.View.DueEnd | ordered.go:1150-1162 | splits the due index at the first entry due after the bound |
| OrderedView.View.Locate | ordered.go:1073-1082 | finds an entry's own position exactly when it is in the index |
| OrderedView.View.RemoveCurrent | ordered.go:1086-1098 | leaves the ranked and due indexes the exact listings without the record |
| OrderedView.View.InsertCurrent | ordered.go:1111-1121 | makes the ranked and due indexes the exact listings with the record |
| OrderedView.View.InsertOrder | ordered.go:1125-1129 | makes the order index the exact listing with the record |
| OrderedView.View.ApplyRecord | ordered.go:905-924 | every index stays the exact sorted listing of its members; a newer revision takes the record's place, any other changes nothing |
| OrderedView.View.Advance | ordered.go:929-937 | the watermark never goes back |
| OrderedView.View.SetFatal | ordered.go:939-950 | the first fault is kept |
| OrderedView.View.ApplyMessage | ordered.go:876-900 | records, watermark and fault after any message; a record subject without a valid record of its own identity is a corrupt payload, and the watermark stays |
| OrderedView.OrderIndexStays | ordered.go:905-924 | a revision leaves the order index a sorted listing, because orders never change |
| Listings.SliceIsPage | ordered.go:1422-1429 | the slice between two search results is the filtered, cut reference page |
| Listings.IndexIsListing | ordered.go:783-799 | a view's index is the one listing there is |
| Listings.CursorResumesInPlace | ordered.go:1503-1549 | a cursor resumes at its record's sort key, and only for the query it was issued under |
| Listings.RankedCursorRules | ordered.go:1503-1524 | a ranked cursor is refused for shape, version, kind or query, exactly when |
| Listings.DueCursorRules | ordered.go:1529-1549 | the same for a due cursor, which must also not lie past the bound |
| Listings.OrderedStart | ordered.go:1376-1386 | splits the acceptance stream after an exclusive order, the largest included |
| Listings.ListOrdered | ordered.go:1360-1392 | the page is the acceptance stream filtered after the order and cut to the limit, by ascending order; refused exactly for a bad name or a limit outside 1 to the ceiling |
| Listings.OrderedFacts | ordered.go:1360-1392 | a page's orders ascend and lie beyond the exclusive one |
| Listings.Resume | ordered.go:1422-1429 | the entries after a cursor, cut to the limit, and whether any are left |
| Listings.ListRanked | ordered.go:1402-1446 | the page is the ranked listing after the cursor, cut to the limit: live, ranked records of the scope by descending rank, then stable key, then ordering scope; the next cursor is empty exactly on the exhausting page |
| Listings.RankedFacts | ordered.go:665-673 | what a ranked page holds and in which order, in the records' own terms, all of it below the cursor's position |
| Listings.Members | ordered.go:1105-1129 | which records belong to each listing |
| Listings.EligibleEnd | ordered.go:1468-1476 | the eligible entries are a prefix, and a cursor within the bound never resumes past it, so the slice is in bounds |
| Listings.ListDue | ordered.go:1452-1493 | the page is the due listing up to the bound, after the cursor, cut to the limit: live records by ascending due time, then stable key, then ordering scope; the next cursor is empty exactly on the exhausting page |
| Listings.DueFacts | ordered.go:679-687 | what a due page holds and in which order, in the records' own terms, all of it above the cursor's position |
| Walks.SteadyRecordReturnedOnce | ordered.go:1394-1401 | whatever moves between pages, a record that stays under an unchanged key for a whole walk is returned exactly once |
| Walks.WalkIsSorted | ordered.go:1402-1446 | pages over a moving view only move forward |
| Walks.FixedWalkIsTheListing | ordered.go:1360-1493 | over a fixed view any positive limits return the whole listing, no gap, no repeat, in finitely many pages |
| Walks.AfterDependsOnKey | ordered.go:1495-1502 | a page depends on the cursor's sort key only |
| Walks.AfterZeroIsAll | ordered.go:1376-1386 | starting after order zero is starting at the beginning |
| Listings.ListingRowsAreSorted | ordered.go:783-799 | an index's rows are exactly its member records, in order |
| Paging.FetchPage | ordered.go:1360-1493 | each listing method, asked at the cursor held after a row, returns the reference page after that row and the next cursor |
| Paging.FollowPages | ordered.go:1360-1493 | following the store's own cursors while messages change the view collects the walk over what there was to list at each page, and a record that stayed under an unchanged key exactly once |
| Paging.CursorStandsForRow | ordered.go:1495-1549 | the position a cursor decodes to stands for the row it was issued after |
| ViewAgreement.ViewAgrees | ordered.go:846-937 | through any run every live head at or below the watermark is in the view exactly, and nothing uncommitted is |
| ViewAgreement.StepKeeps | ordered_seam.go:686-751 | each commit, send, delivery, re-attachment and fault keeps that invariant |
| ViewAgreement.HandleNext | ordered.go:876-937 | the view's own code takes the step the state machine describes and never faults on what writers commit |
| ViewAgreement.AwaitTip | ordered.go:993-1027 | the wait ends at the first state in which it can: while it lasted the view had neither failed nor passed the tip, and where it ends a fault comes first, then readiness, then the view's or the context's end; a ready view is fresh since the start |
| ViewAgreement.CaughtUpIsFresh | ordered.go:1232-1282 | passing the tip is enough for every head that was not moved beyond it |
| ViewAgreement.UnrewrittenRecordIsSeen | ordered.go:1228-1231 | a record not rewritten since the tip was captured is in the ready view at its head |
| ViewAgreement.QuietViewIsTheStream | ordered.go:626-632 | with no commit in between each listing is the stream's heads, filtered and sorted |
| ViewAgreement.CaughtUpViewMayMissARecord | ordered.go:630-632 | a run in which a caught-up view lacks a record that existed before the query began |
| ViewProgress.TipIsLive | ordered.go:982-985 | the last sequence assigned is always that of a live message |
| ViewProgress.NextToSend | ordered_seam.go:686-751 | as long as a live message lies beyond what was sent, there is a next one to send |
| ViewProgress.CatchesUp | ordered.go:982-985 | from any reachable state deliveries alone bring the watermark to the tip |
| ViewProgress.StepRemaining | ordered.go:982-985 | no commit or delivery takes the view further from its target, and each useful delivery brings it closer |
| ViewProgress.UsefulUntilReached | ordered.go:982-985 | a useful delivery is possible exactly as long as the target is not reached |
| ViewProgress.WaitingEnds | ordered.go:982-985 | on one subscription, whatever is committed meanwhile, every run that keeps delivering reaches its target within a bound fixed at the start |
| ViewFreshness.NeverGoesBack | ordered.go:901-924 | what the view holds of an identity never becomes older |
| ViewFreshness.HeldIffReached | ordered.go:993-1027 | in every reachable state a live head is in the view if and only if the watermark has reached it |
| ViewFreshness.LastVersionStays | ordered.go:454-524 | nothing follows a tombstone or the last revision |
| ViewFreshness.OlderOnlyIf | ordered.go:630-632 | a ready view older than the start of the query lacked the head then, and the head could be superseded |
| ViewFreshness.OlderIf | ordered.go:630-632 | and whenever that is so there is a run that ends that way |
| ViewFreshness.StaleReadIff | ordered.go:630-632 | exactly when a query can see a record older than it was at its start |
| BatchPublish.AckIsHonest | ordered_seam.go:556-578 | no batch that landed is reported as a definite failure, none that did not land whole as committed, whatever count the server reports |
| BatchPublish.AnswerIsTrue | ordered_seam.go:556-587 | what the caller makes of the server's answer, on a single server or a replicated stream, is the truth about the whole batch: committed if and only if all of it is on the stream |
| BatchPublish.StoppedCallNeverLands | ordered_seam.go:520-537 | a call whose local publish failed before the last member never lands |
| BatchPublish.BatchSeam.NextBatchID | ordered_seam.go:204-206 | a fresh counter value, rendered after the nonce |
| BatchPublish.BatchSeam.PublishBatch | ordered_seam.go:502-550 | the members sent, with id, number, fence and commit mark, for every failing member and reply; empty and repeating batches are refused unsent |
| BatchPublish.BatchIdsDistinct | ordered_seam.go:42-56 | ids with equal parts only are equal, and every id fits 64 bytes |
| BatchPublish.StepRefinesAtomicPublish | ordered_seam.go:502-550 | with distinct ids each step of the staged protocol leaves the stream alone or is one call's whole atomic publish |
| BatchPublish.RunRefinesAtomicPublishes | ordered_seam.go:502-550 | a whole interleaved run equals some order of atomic publishes, none twice |
| BatchPublish.SharedIdMixesCalls | ordered_seam.go:42-56 | with a shared id a committed batch can mix two calls |
| Lease.EpochsNondecreasingIff | lease.go:167 | stored epochs never decrease if and only if none was taken over at the top of uint64 |
| Lease.EpochsCanWrap | lease.go:167 | some history does take over there, and starts again at epoch zero |
| Lease.GrantOutranks | lease.go:142-205 | without wrap-around every grant's epoch exceeds all earlier writes' |
| Lease.HolderIsSole | lease.go:372-401 | until an unreleased lease's last known expiry the entry is still its own and no other grant has succeeded |
| Lease.NoTwoValidHolders | lease.go:142-205 | two unreleased leases within their validity are the same grant |
| Lease.StaysLegal | seam.go:178-190 | a request that arrives late is still legal if its revision still matches |
| Lease.Entry.CompareAndSwap | seam.go:178-190 | writes over exactly the expected revision, and what each reply says about that |
| Lease.Acquire | lease.go:142-168 | a grant is a create or takeover on record, good for at least a ttl; a refusal wrote nothing; failing needs an unanswered request; undisturbed: granted exactly when absent or expired, at the next epoch, until now + ttl |
| Lease.Fence | lease.go:173-214 | the swap behind both paths of Acquire: only a definite success grants, for a ttl from now; a lost race names the epoch that won |
| Lease.KvLease.StaysBacked | lease.go:372-401 | whatever others write, and however late a lost renewal lands, the lease's last known write stays on record |
| Lease.KvLease.OwnsUntilValid | lease.go:358-371 | before validUntil an unreleased lease is the current owner |
| Lease.KvLease.Renew | lease.go:372-401 | kept means renewed by one ttl or still within its validity; surrender means that the revision moved or validity ended |
| Lease.KvLease.Heartbeat | lease.go:331-353 | every round renews until one surrenders; a lease is marked lost exactly then; undisturbed, the lease is extended each round |
| Lease.KvLease.Release | lease.go:292-320 | idempotent; gives up nothing but the expiry, keeping the epoch for the successor to exceed |
| ScopeLatch.LatchTable.Enter | ordered.go:206-213 | all users of a key share one latch, which counts them |
| ScopeLatch.LatchTable.TryTake | ordered.go:227-229 | the token is taken exactly when nobody holds the key |
| ScopeLatch.LatchTable.Drop | ordered.go:215-225 | counts out, gives a held token back without blocking, forgets an idle key |
| ScopeLatch.LatchTable.RegisteredWhileUsed | ordered.go:187-194 | a key is registered exactly while somebody uses it |
| ScopeLatch.SoleHolder | ordered.go:196-204 | at most one holder per key |
| ViewRegistry.OneUnfinishedView | ordered.go:1296-1318 | in every run at most one unfinished view per namespace |
| ViewRegistry.CloseLeavesNothing | ordered.go:1328-1354 | if the Close that closed the store returns nil, every view ever started has finished and none starts afterwards |
| ViewRegistry.CloseCancelsAll | ordered.go:1340-1346 | even a Close that timed out has cancelled every view |
| ViewRegistry.SecondCloseMayReturnEarly | ordered.go:1329-1333 | a second Close returns nil while a view still runs |
| ViewRegistry.QueryBudget | ordered.go:1243-1282 | a query starts at most one view, retires at most two, at most one if it succeeds, and only finished misconfigured ones |
| ViewRegistry.CheckingAnswers | ordered.go:1247-1266 | what a query does with the view it was given, exactly when |
| ViewRegistry.WaitingAnswers | ordered.go:993-1027 | what a waiting query's next move brings, exactly when |
| ViewRegistry.EvictingAnswers | ordered.go:1296-1318 | an eviction waits for the view to finish and drops it only if it is still registered |
| ViewRegistry.SecondRetirement | ordered.go:1273-1278 | exactly when a step is a query's second retirement |
| ViewRegistry.QueryMayRetireTwo | ordered.go:1273-1278 | a run in which one query retires two views |
| ViewRegistry.InheritedFailureIsNotReported | ordered.go:1247-1266 | a view found broken on entry is never the failure a query reports |
| ViewRegistry.RunKeeps | ordered.go:1209-1354 | the registry's invariant, and that nothing ended, failed or dropped ever comes back, over all runs |
| ViewRegistry.Registry.AcquireView | ordered.go:1209-1226 | hands out the registered view or starts one, never two, and none once closed |
| ViewRegistry.Registry.Retire | ordered.go:1311-1317 | drops a finished view only if it is still registered; afterwards it is gone for good |
| ViewRegistry.Registry.Shut | ordered.go:1329-1339 | the first Close takes over every unfinished view and empties the registry |
| ChunkReader.ObjectChunkReader.Read | seam.go:457-509 | bytes are the accepted chunks' in order, each once; every error returns none, is remembered, and is the one the arrivals call for; end-of-file, wrong size and wrong digest exactly when; otherwise there is progress |
| ChunkReader.ObjectChunkReader.Accept | seam.go:477-504 | the next message becomes the chunk exactly when it is in order and fits, and else which error it is; no subtraction underflows |
| ChunkReader.ObjectChunkReader.Finish | seam.go:511-523 | end-of-file, or the first of count, size and digest that does not match |
| ChunkReader.ObjectChunkReader.Fail | seam.go:525-530 | a failure is remembered |
| ChunkReader.ObjectChunkReader.Close | seam.go:532-543 | after Close nothing more is read |
| ChunkReader.Open | seam.go:322-346 | refuses exactly the metadata that cannot describe an object |
| ChunkReader.EndOfFileIff | seam.go:457-523 | the stream ends in end-of-file if and only if what arrived is the declared object, and then that is what was handed over |
| ChunkReader.EndOfFileIsGenuine | seam.go:511-523 | a reader at end-of-file has handed over the declared object |
| ChunkReader.BufferSizesDoNotMatter | seam.go:469-473 | two readers of the same arrivals hand over the same bytes and end the same way, whatever their buffers |
| NameCodec.EncodeStream | subject.go:104-120 | computes the character-wise stream name |
| NameCodec.DecodeStream | subject.go:124-148 | undoes the escapes or refuses |
| NameCodec.UnescapeStreamOf | subject.go:104-148 | decoding inverts encoding on every string |
| NameCodec.StreamOfIsInjective | subject.go:72-77 | encodeStream never confuses two strings |
| NameCodec.StreamOfHasNoDots | subject.go:104-120 | an encoded name is one subject token |
| NameCodec.EncodingsJoin | subject.go:67-120 | both encodings work letter by letter |
| NameCodec.EncodedLetters | subject.go:67-120 | what each letter becomes |
| NameCodec.EncodingsAreSafe | subject.go:72-120 | a valid name's stream name has only lower-case letters, digits, '_' and '-', its subject no '/' |
| NameCodec.NameFromStream | subject.go:89-101 | succeeds on exactly the encodings of valid names and returns the name |
| NameCodec.SubjectRoundTrip | subject.go:42-70 | nameFromSubject succeeds on exactly the encodings of valid names and returns the name |
| NameCodec.SubjectInjectiveWithoutPercent | subject.go:67-70 | encodeSubject is injective on names without '%' |
| NameCodec.PercentCollides | subject.go:67-70 | two strings that share a subject |
| NameCodec.CollidesIff | subject.go:67-70 | a string shares its subject with another exactly if it contains '.' or the text of its escape |
| SubjectSpace.PreimageInjective | ordered_codec.go:97-113 | the length-framed preimage determines namespace, scope and key |
| SubjectSpace.PreimageText | ordered_codec.go:97-113 | the hashed text, spelled out |
| SubjectSpace.BigEndianWeighs | ordered_codec.go:103-113 | the length prefix stands for the length, most significant byte first |
| SubjectSpace.SubjectText | ordered_codec.go:138-176 | the subjects, spelled out |
| SubjectSpace.IdentityToken | ordered_codec.go:103-113 | the writing loop hashes exactly that preimage |
| SubjectSpace.SubjectsAreDistinct | ordered_codec.go:150-176 | distinct scopes and identities have distinct subjects, counters never share one with records |
| SubjectSpace.SoundIsPossible | ordered_codec.go:97-113 | what is assumed of the hash can be met |
| SubjectSpace.ClassifiesEverySubject | ordered_codec.go:335-356 | every emitted subject gets its family in its own namespace and is foreign in every other |
| SubjectSpace.FamilyIff | ordered_codec.go:335-356 | exactly which subjects belong to which family |
| SubjectSpace.DisjointFromLedger | ordered_codec.go:118-143 | ordered subjects and streams are disjoint from the ledger's |
| DecimalCodec.CounterIsCanonical | ordered_codec.go:287-311 | a payload decodes if and only if it is the canonical rendering of a nonzero uint64, and then to it |
| DecimalCodec.FormatIsDecimal | ordered_codec.go:287-289 | the digits written are the usual ones |
| DecimalCodec.CounterRefusals | ordered_codec.go:295-311 | why a payload is refused |
| Storage.NameIsSegments | subject.go:10-14 | a name is valid if and only if it is segments over [a-z0-9][a-z0-9_.-]* joined by '/' |
| Storage.Utf8IsEncoding | ordered_codec_test.go:155-172 | a stable key's text passes exactly if it encodes some code points |
| Storage.RecordRules | ordered_codec_test.go:243-277 | which records are refused |
| DecimalCodec.SplitCursorVersion | ordered_codec.go:460-479 | accepts exactly the issued spellings and recovers version and body |

## Left out

- NATS client and server, connections, the embedded engine, files and locks: I/O. The server is the stream model above.
- Stream configuration (`verifyOrderedStreamConfig`): its checked result, one message per subject and atomic batches, is the stream model's definition.
- JSON, base64 and SHA-256: cursors and records are values, hashes are function parameters; a hash is assumed collision-free where a theorem needs it.
- `kv.go`, `ledger.go`, `blobs.go` and `resolveObjectInfo`: would only add easy members.
- The `storage` package is not part of this repository: the name grammar is that of `subject.go:10-14` without a length cap, the record rules are those the codec and its tests show, and the limits on values, stable keys and pages are constants of which only that they are positive is used.
- Strings hold one byte per character, as Go's do; there is no Unicode normalisation.
- Stream and lease revision sequences are unbounded naturals; orders, revisions, epochs and the batch counter have their 64-bit range.
- Backoff durations, jitter, statistics counters and error texts.
- Bucket-level reaping of lease entries, after which a name restarts at epoch one: the lease theorems are about entries that are never reaped. Undecodable lease records are not modelled.
- Clock skew between lease holders: all parties read one nondecreasing clock.
- Lease.KvLease.Release: does not promise that the name is free at once; after a renewal whose reply was lost the swap conflicts and the entry keeps its expiry.
- Lease.KvLease.Renew: after a renewal whose reply was lost the next one conflicts with it, and the holder surrenders although it is still the owner.
- OrderedStore.Create: the wait for the in-process latch is one wait that may be given up; the latch itself is `ScopeLatch`.
- OrderedStore.Update: like Create and Delete, when the reply could not be read at all it reports a failure that says nothing about whether the write was committed.
- ViewAgreement.AwaitTip: its context ends when its list of events does; that waiting ends is `ViewProgress.WaitingEnds`. A re-attachment starts the deliveries over, so the bound there is for one subscription.
- ViewRegistry.Registry: views are values reached by number; what a view does is its own state machine's steps.
- ChunkReader.ObjectChunkReader.Read: a Close that overlaps a pull is an arrival that finds the reader closed; the read mutex is not modelled.
