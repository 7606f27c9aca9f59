# keryx-node: cached stores, share protocol, codecs

A Dafny model of three parts of keryx-node, with proofs of what each is for.
`dafny verify dfyconfig.toml` checks all of it. Nothing here is executed.

**The cached stores (`database/src`).** A store puts a size-accounted cache with random
eviction in front of an ordered byte-keyed database. Writes go to the database at once
or into a batch that is committed later. The database is a map of byte strings, a batch
a list of operations, and eviction an arbitrary choice of key.

| file | contents |
|---|---|
| `Bytes.dfy`, `Words.dfy`, `Hex.dfy` | byte strings and their key ranges, integers as bytes, hexadecimal text |
| `Db.dfy` | the database, batches, the two writers |
| `Cache.dfy` | the cache and exactly which contents each operation can leave |
| `WriteBehind.dfy` | one cached read against a committed and a pending view |
| `Store.dfy`, `Access.dfy` | the record store as a machine, and the store object as its steps |
| `ReadBack.dfy` | what its calls answer, in stored bytes and in earlier calls |
| `SetStore.dfy`, `SetAccess.dfy` | the same for stores of sets kept in buckets |
| `Items.dfy` | the single-record and single-set items |
| `Layouts.dfy` | reading records written under older layouts |

The central result is `Store.WriteBehindCoherence`: in every run of reads, direct and
staged mutations and in-order commits the cache agrees with the database plus what is
pending, as long as no read miss may cache a record that a pending one differs from and no
direct mutation changes a record that a staged operation touches. The side condition is exact: a
read keeps agreement under every eviction if and only if it is admissible
(`Store.ReadAdmissibleExactly`, `Store.ReadManyAdmissibleExactly`), and a direct mutation keeps
agreement and acts as on a plain map if and only if it is (`Store.DirectAdmissibleExactly`; for
agreement alone see `Store.DirectKeepsGoodExactly`). In such runs a key reads as the last call that
touched it left it (`ReadBack.LastCallDecides`).

**The share protocol (`bridge/src`).** Submissions pass a duplicate guard, are checked
against a ring of the last 300 jobs, may send a block through a block guard, and end in
counters. Handlers run concurrently; the model is a machine over their locked sections,
interleaved in any way (`ShareProtocol.dfy`, `BlockGuard.dfy`, both on
`ExpiringTable.dfy`; `Verdicts.dfy` classifies what a block submission returns, `Runs.dfy` holds
induction over runs). `JobRing.dfy` has the ring and
the walk back over it, `VarDiff.dfy` the difficulty adjustment, `Extranonce.dfy` the split
of the nonce space.

**Arithmetic and codecs.** `Opoi.dfy` (the fixed-point network behind the inference tag),
`Base58.dfy`, `Payload.dfy` (three on-chain payloads), `JobFormat.dfy` (job texts).

Time stamps are numbers that may go backwards. Proof-of-work values, node replies, hashes
and clock readings are inputs. Record and element encodings are parameters with the laws
they need: what is encoded decodes back. A set store is taken to hold, under its prefix, only
keys written through it.

Where code and documentation differ, the model follows the code:

- The comments on the decode fallbacks (`database/src/access.rs:136-142`,
  `database/src/item.rs:45-49`) say old bytes always underflow under a grown layout, also for
  layouts embedded in a record. That is right for growth at the end of a record
  (`Layouts.NewestFirstExactly`). A stored diff has two lists of entries that have grown by a
  trailing 64-bit field (`consensus/src/model/stores/utxo_set.rs:97-123`), and for those it is
  not: whatever the entries' codec, with variable sizes and errors of its own, one entry followed
  by a list that starts with eight zero bytes decodes to other contents
  (`Layouts.GrownEntriesCanMisread`). For entries of one size `Layouts.TwoListsUnderflowExactly`
  says exactly when old bytes underflow.
- The adjusted difficulty is not monotone in the number of shares for difficulties in
  (0, 0.9]; `VarDiff.MonotoneExactly` has the exact condition.
- A miner without shares for 90 seconds does not always get half its difficulty: one within the
  machine epsilon of 1 keeps it (`VarDiff.SilentHalves`). After a window with too few shares a
  difficulty between 1 and 10/9 stays (`VarDiff.SlowLowers`).
- The order list of the block guard has no bound (`BlockGuard.OrderHasNoBound`), unlike its
  entries. It lists exactly the live hashes throughout a run if and only if no live hash is
  released (`BlockGuard.AlwaysExactExactly`), is then bounded like the entries
  (`BlockGuard.ExactOrderIsBounded`), and otherwise exceeds them by at most the number of such
  releases (`BlockGuard.OrderBoundedByReleases`).
- The extranonces split the nonce space between numbered miners for texts of up to 12
  characters. A miner without an extranonce meets exactly the one numbered zero
  (`Extranonce.ShortTextsMeetExactly`, `Extranonce.UnnumberedMinerCollides`), and longer texts
  bypass the extranonce (`Extranonce.MeetExactly`, `Extranonce.KeepApartExactly`).
- The submission key sees the spelling of a nonce, not its value: it is the share's canonical
  key exactly for texts that assemble to 16 lowercase digits
  (`Extranonce.KeyIsCanonicalExactly`), and every submission has an alias under another key
  (`Extranonce.EveryShareHasAnAlias`).
- `submit_block` looks for "duplicate" in the text of a failed call
  (`bridge/src/kaspaapi.rs:422-431`), but that text is always the context given two lines above,
  "Failed to submit block". The branch that would keep the mark is dead
  (`Verdicts.FailedCallNeverLooksDuplicate`). It also turns every unsuccessful report into an
  error, so the handler's branch for those (`bridge/src/share_handler.rs:798-810`) is not reached
  through it.
- A duplicate of a stale share can be answered before that share is counted
  (`ShareProtocol.StaleAnsweredEarly` is such a run): a stale outcome is recorded first and counted
  after, every other one the other way round. `ShareProtocol.AlwaysCountedExactly` says for which
  verdicts and limits a share that answers a duplicate is always counted.
- A submission that is not a duplicate prunes the guard twice with the same clock reading
  (`bridge/src/share_handler.rs:481-490`). The second pruning changes nothing if and only if
  nothing is left or the first listing left is the first of its key, live and not expired
  (`ExpiringTable.PruneAgainExactly`). In a state that a run on a forward clock reaches
  (`ShareProtocol.RenewedIsReached`) it forgets a key that one pruning keeps
  (`ShareProtocol.SecondPruningForgets`).
- Base58 text agrees with section 3 of draft-msporny-base58-03 if and only if some input byte is
  not zero (`Base58.Section3Exactly`); otherwise it has one '1' too many.

## Model

| member | source | states |
|---|---|---|
| `Bytes.PrefixEndExists` | database/src/set_access.rs:142-147 | the upper end of a prefix range exists (so the unwrap succeeds) iff some byte of the prefix is not 0xFF |
| `Bytes.PrefixRangeExact` | database/src/set_access.rs:142-147 | the half-open range of a prefix holds exactly the keys that start with it |
| `Db.Writer.Issue` | database/src/writer.rs:36-93 | a direct writer changes the database now (a range through a batch written at once), a batch writer appends to the batch and leaves the database alone |
| `Db.CommitKeepsOverlay` | database/src/writer.rs:71-93 | committing any oldest part of a batch leaves the database plus the rest of the batch as it was |
| `Cache.Cache.TrackedEvict` | database/src/cache.rs:61-68 | terminates, with the sizes held at most the limit or the items at most the minimum; if anything went, putting the last one back exceeds both; the tracked size stays the sum of the sizes held and never underflows |
| `Cache.EvictsExactly` | database/src/cache.rs:61-68 | the outcomes (entries only removed, the limit or the minimum met, and not yet met before the last removal) are exactly those of removing some entries in some order while the sizes exceed the limit with more items than the minimum |
| `Cache.InsertionInNumbers` | database/src/cache.rs:70-84 | a tracked cache ends with sizes at most the limit or items at most the minimum and evicts only as long as it must; a counting one evicts one entry if it was full and none otherwise; a cache of size zero stays empty |
| `Cache.CountEvictsAny` | database/src/cache.rs:70-84 | a full counting cache may evict any entry, also the one being replaced |
| `Cache.UpdateInNumbers` | database/src/cache.rs:86-100 | the same for an update in place, which never creates an entry |
| `Cache.SeriesKeepsAll` | database/src/cache.rs:164-172 | a series of insertions with room for each evicts nothing |
| `Cache.Cache.Insert` | database/src/cache.rs:70-84 | the new contents are a possible outcome of the policy; a tracked cache holds at most the limit or at most the minimum of items, and evicted only what it had to |
| `Cache.Cache.InsertMany` | database/src/cache.rs:164-172 | as a chain of insertions, in order; within the limit or the minimum at the end; all kept if there was room all along |
| `Cache.Cache.UpdateIfEntryExists` | database/src/cache.rs:86-100 | a present entry is updated in place and then evicted around, down to the limit or the minimum and no further; an absent one is not created |
| `Cache.Cache.Remove` | database/src/cache.rs:102-112 | drops exactly that entry, with its size |
| `Cache.Cache.RemoveMany` | database/src/cache.rs:191-199 | drops exactly those entries |
| `Cache.Cache.RemoveAll` | database/src/cache.rs:201-210 | empties the cache and its size |
| `Cache.InsertsSubmap` | database/src/cache.rs:70-84 | after an insertion every entry held is the new one or an old one, and the policy's bounds hold: tracked size within the limit or no more items than the minimum, or a count within the maximum |
| `Cache.InsertionCanKeep` | database/src/cache.rs:61-84 | a value within the limits is kept by some choice of evictions |
| `Cache.InsertionMustDrop` | database/src/cache.rs:61-84 | any other value is dropped by every choice |
| `Cache.InsertsAllOrigin` | database/src/cache.rs:164-172 | after a series of insertions every entry was there before or is the last of the series for its key, and one that may stay: it fits by itself, and a cache of one entry keeps only the last |
| `Cache.SeriesCanKeep` | database/src/cache.rs:164-172 | each of those does stay under some choice of evictions |
| `WriteBehind.ReadKeepsCoherenceExactly` | database/src/access.rs:91-108 | a cached read keeps the cache equal to the pending view under every eviction iff it hits, or what it loads is the pending value, or is not a value, or can never stay cached |
| `WriteBehind.UnsafeReadPoisonsCountCache` | database/src/access.rs:91-108 | with a counting cache an unsafe read leaves the superseded value cached in every outcome |
| `WriteBehind.ReadAnswer` | database/src/access.rs:91-108 | a read answers with the pending value iff it hits or the committed value is the pending one |
| `Store.MutationRefines` | database/src/access.rs:343-422 | the bytes issued by each of the six mutations do to the store's keys what the mutation does to a plain map |
| `Store.ForeignKeysUntouched` | database/src/access.rs:343-422 | no mutation, nor any prefix of its operations, touches a key outside the store's prefix |
| `Db.DirectUnderBatch` | database/src/writer.rs:36-93 | operations issued directly while a batch is open: the batch has the last word on the keys it touches, every other key goes as if they had come last |
| `Store.DirectRefinesExactly` | database/src/access.rs:343-422 | a direct mutation, whatever is staged, does to the pending records what it does to a plain map iff it changes no record that a staged operation touches |
| `Store.DirectAdmissibleExactly` | database/src/access.rs:343-422 | under every eviction a direct mutation keeps the cache in step and the pending records those of a plain map iff it is admissible in that sense |
| `Store.DirectKeepsGoodExactly` | database/src/access.rs:343-422 | under every eviction a direct mutation keeps the cache in step iff no record it may leave cached differs from the pending one of a key that a staged operation touches; deletions always do |
| `Store.StepRefines` | database/src/access.rs:343-422 | every call, direct (where admissible), staged or commit, does to the pending records what it does to a plain map |
| `Store.MutationKeepsCoherence` | database/src/access.rs:343-422 | under every eviction a mutation leaves the cache within bounds and agreeing with the plain map after it |
| `Store.ReadManyAnswer` | database/src/access.rs:44-82 | a multi-read gives one right slot per key, duplicates included, with hits plus misses the number of keys, or fails rightly, iff every key is fresh, or some key asked for is undecodable pending when a fetched record is undecodable |
| `Store.StepAnswers` | database/src/access.rs:44-108 | every read, multi-read and presence call is answered like the pending map iff it asks fresh; presence needs only to be the same committed and pending |
| `Store.ReadManyKeepsGood` | database/src/access.rs:44-82 | an admissible multi-read leaves the cache within bounds and agreeing with the pending records |
| `Store.ReadManyAdmissibleExactly` | database/src/access.rs:44-82 | a multi-read keeps the store's invariant in every outcome iff it is admissible: no record it loads that may stay cached differs from the pending one |
| `Store.ReadAdmissibleExactly` | database/src/access.rs:91-108 | a read keeps the store's invariant in every outcome iff it is admissible |
| `Store.InadmissibleReadBreaksGood` | database/src/access.rs:91-108 | otherwise some outcome breaks it |
| `Store.WriteBehindCoherence` | database/src/access.rs:343-422 | over every admissible run: the cache agrees with the database plus the batch, the pending records are those of a plain map, a call gets that map's answer iff it asks fresh, and once nothing is pending the cache agrees with the database |
| `Store.DirectStoreRefinesMap` | database/src/access.rs:37-108 | over every run through a direct writer, with any policy and evictions, every call answers like an uncached map and the store's keys hold exactly that map |
| `ReadBack.ReadAnswersBytes` | database/src/access.rs:91-108 | a read says absent iff the key is neither cached nor stored, fails iff it is not cached and its stored bytes do not decode, and gives v iff it is cached as v or decodes to v |
| `ReadBack.ReadManyAnswersBytes` | database/src/access.rs:44-82 | a multi-read fails iff some key asked for is not cached and stored as bytes that do not decode; otherwise a slot is empty iff its key is neither cached nor stored, and the hits are the keys cached |
| `ReadBack.HasAnswersBytes` | database/src/access.rs:84-89 | a key is present iff it is cached or stored |
| `ReadBack.LastCallDecides` | database/src/access.rs:343-422 | over every admissible run, a read, multi-read or presence call that asks fresh tells of a key what the last call that touched it left: its value if written, absent if deleted |
| `ReadBack.DirectReadsBack` | database/src/access.rs:37-108 | through a direct writer every such call does |
| `ReadBack.DirectReadsStart` | database/src/access.rs:37-108 | and a read of a key that no call touched answers from the bytes at the start: absent iff there were none, a failure iff they do not decode |
| `Store.StagedDeleteThenReadGoesStale` | database/src/access.rs:391-398 | with a counting cache, staging a delete, reading the key and committing always leaves the deleted record in the cache |
| `Access.CachedDbAccess.Read` | database/src/access.rs:91-108 | is a read step of the store machine whatever is staged elsewhere; absent iff neither cached nor stored, a failure iff not cached and the stored bytes do not decode |
| `Access.CachedDbAccess.Has` | database/src/access.rs:84-89 | is a presence step whatever is staged: cached or stored under the prefixed key |
| `Access.CachedDbAccess.ReadMany` | database/src/access.rs:44-82 | is a multi-read step whatever is staged: cache pass, one fetch per miss in order; fails iff some uncached key has bytes that do not decode, and otherwise each slot is empty iff its key is neither cached nor stored |
| `Access.CachedDbAccess.Write` | database/src/access.rs:343-352 | is a write step through either writer |
| `Access.CachedDbAccess.WriteMany` | database/src/access.rs:354-370 | is a step that caches and issues all items |
| `Access.CachedDbAccess.WriteManyWithoutCache` | database/src/access.rs:373-389 | is a step that issues all items and empties the cache |
| `Access.CachedDbAccess.Delete` | database/src/access.rs:391-398 | is a delete step; the key is no longer cached |
| `Access.CachedDbAccess.DeleteMany` | database/src/access.rs:400-410 | is a step that drops and deletes all the keys |
| `Access.CachedDbAccess.DeleteAll` | database/src/access.rs:413-422 | is a step that empties the cache and deletes the prefix range |
| `SetStore.ItemKeyInjective` | database/src/key.rs:19-49 | with bucket keys of one length, prefix, bucket and element are determined by the concatenated key |
| `SetStore.BucketsDisjointExactly` | database/src/key.rs:19-49 | two buckets can share no database key iff neither bucket key starts with the other |
| `SetStore.MemberIff` | database/src/set_access.rs:132-140 | an element is in a bucket iff its concatenated key is in the database |
| `SetStore.BucketReadable` | database/src/set_access.rs:184-193 | a bucket traversal of a store written through this interface decodes, to exactly the bucket's elements |
| `SetStore.MutationRefines` | database/src/set_access.rs:132-152 | writes and deletes change one element of one bucket; a bucket delete's range takes the whole bucket and nothing of any other |
| `SetStore.ForeignKeysUntouched` | database/src/set_access.rs:142-147 | nothing outside the store's prefix is touched |
| `SetStore.DirectRefinesExactly` | database/src/set_access.rs:81-101 | a direct mutation, whatever is staged, does to every pending bucket what it does to a plain map of sets iff it changes no element that a staged operation touches |
| `SetStore.ReadAdmissibleExactly` | database/src/set_access.rs:66-75 | a bucket read keeps the invariant in every outcome iff it is admissible |
| `SetStore.ReadAnswers` | database/src/set_access.rs:66-75 | a read answers with the elements written and not deleted since iff the bucket is cached or nothing different is pending for it |
| `SetStore.SetWriteBehindCoherence` | database/src/set_access.rs:66-101 | over every admissible run each cached bucket is the committed one overlaid with the batch, and buckets are those of a plain map of sets |
| `SetStore.DirectSetStoreRefinesMap` | database/src/set_access.rs:66-101 | through a direct writer every bucket read of every run returns exactly the elements written and not deleted since |
| `SetAccess.CollectBucket` | database/src/set_access.rs:184-193 | the traversal returns the decoded bucket, or fails if any key in it does not decode |
| `SetAccess.BucketBytes` | database/src/set_access.rs:184-193 | in bytes: a bucket read fails iff some key under the bucket's prefix does not decode, and otherwise holds exactly what those keys decode to |
| `SetAccess.CachedDbSetAccess.Read` | database/src/set_access.rs:66-75 | is a bucket read step whatever is staged |
| `SetAccess.CachedDbSetAccess.Write` | database/src/set_access.rs:81-87 | is a write step: a cached bucket is updated, an uncached one stays uncached |
| `SetAccess.CachedDbSetAccess.Delete` | database/src/set_access.rs:94-101 | is a delete step |
| `SetAccess.CachedDbSetAccess.DeleteBucket` | database/src/set_access.rs:89-92 | is a bucket delete step |
| `Items.UpdateStored` | database/src/item.rs:156-178 | the bytes of an update leave (old minus removed) plus added, also for an element in both lists |
| `Items.DirectUpdateExactly` | database/src/item.rs:156-178 | a direct update, whatever is staged, does to the pending set what it does to a plain set iff it changes no element that a staged operation touches |
| `Items.SetItemAlwaysExact` | database/src/item.rs:136-178 | over every run of reads, staged updates, direct updates that meet that condition and in-order commits, with no other side condition: the cached set is the committed set overlaid with all that is staged, and every call answers with a plain set taken through the same calls |
| `Items.CachedDbSetItem.ReadLockedSet` | database/src/item.rs:136-147 | is a read step of the set item whatever is staged |
| `Items.CachedDbSetItem.Update` | database/src/item.rs:156-178 | is an update step: removals, then additions, to the set and through the writer |
| `Items.ItemFitsExactly` | database/src/item.rs:29-107 | a call on an item that is not outdated does to the pending record what it does to a plain cell iff it is not a direct one that writes another record than staged operations on the item's key lead to |
| `Items.ItemStepExactly` | database/src/item.rs:29-107 | apart from those, a call breaks agreement of the cached with the pending record iff it is a read that loads a superseded record; a read answers right iff the item is not outdated |
| `Items.RecordItemExact` | database/src/item.rs:29-107 | over every run of such calls whose reads and updates never meet an outdated item, the item is a plain cell |
| `Items.CachedDbItem.Read` | database/src/item.rs:29-43 | is a read step of the record item whatever is staged; absent iff neither cached nor stored, a failure iff not cached and not decodable |
| `Items.CachedDbItem.Write` | database/src/item.rs:70-78 | is a write step |
| `Items.CachedDbItem.Remove` | database/src/item.rs:80-85 | is a remove step |
| `Items.CachedDbItem.Update` | database/src/item.rs:87-107 | is an update step, leaving nothing cached if nothing could be loaded: absent iff neither cached nor stored |
| `Layouts.DecodeUnder` | database/src/access.rs:136-142 | bytes of an n-field record read as m fields give the first m fields, or fail if m is greater |
| `Layouts.ChainReads` | database/src/access.rs:227-269 | for any order of attempts, a record comes back cut to the first attempted layout not longer than its own |
| `Layouts.NewestFirstExactly` | database/src/access.rs:227-269 | an order of attempts reads back every record of every layout in it iff no layout is tried before a longer one |
| `Layouts.Fallback1Correct` | database/src/access.rs:143-177 | the readers with one fallback return every record of the two layouts they know, upgraded: its own fields, then the defaults |
| `Layouts.Fallback2Correct` | database/src/access.rs:183-221 | the reader with two fallbacks does for its three layouts |
| `Layouts.Fallback3Correct` | database/src/access.rs:227-269 | the reader with three does for its four |
| `Layouts.LastListUnderflowsExactly` | database/src/item.rs:45-49 | a list of entries of one size that ends its record, read with longer entries, underflows iff it is not empty |
| `Layouts.TwoListsUnderflowExactly` | database/src/item.rs:45-49 | two lists of entries of one size, read with longer entries, underflow iff those leave no room for a second count or the count found asks for too much |
| `Layouts.GrownEntriesCanMisread` | consensus/src/model/stores/utxo_set.rs:97-123 | for entries of any codec grown by a trailing 64-bit field: one entry, then a list whose first entry starts with eight zero bytes, decodes under the grown codec with the second count as the new field and an empty second list |
| `Layouts.EmbeddedGrowthCanMisread` | database/src/item.rs:45-49 | the same for opaque entries of any one size from 8 bytes up |
| `ExpiringTable.PruneBounds` | bridge/src/kaspaapi.rs:70-92 | when every entry is listed, pruning leaves at most maxEntries entries, all listed |
| `ExpiringTable.PruneReason` | bridge/src/share_handler.rs:186-208 | pruning forgets an entry only if it was idle longer than the time to live or more than maxEntries entries lived from its listing on |
| `ExpiringTable.PruneExactly` | bridge/src/kaspaapi.rs:70-92 | of any table, with whatever stale and repeated listings, pruning drops the longest run of leading listings that are stale or expired, then as many more as leave maxEntries entries, with their entries and nothing else |
| `ExpiringTable.ForgottenExactly` | bridge/src/kaspaapi.rs:70-92 | an entry is forgotten iff some listing of it is expired with every listing before it stale or expired, or has more than maxEntries entries living from it on |
| `ExpiringTable.PruneExactOrder` | bridge/src/share_handler.rs:186-208 | with an exact order pruning drops exactly the leading expired entries, or as many as leave maxEntries, whichever is more |
| `ExpiringTable.PruneAgainExactly` | bridge/src/share_handler.rs:186-208 | pruning any table again at the same time changes nothing iff nothing is left, or the first listing left is the first of its key, live and not expired |
| `ExpiringTable.PruningTable.Prune` | bridge/src/kaspaapi.rs:70-92 | both loops end, with the table pruned as `ExpiringTable.PruneExactly` says |
| `BlockGuard.GuardStaysGood` | bridge/src/kaspaapi.rs:65-108 | over every run every live hash stays listed and at most maxEntries + 1 live |
| `BlockGuard.MarkedTwiceOnlyIfForgotten` | bridge/src/kaspaapi.rs:94-107 | between two successful marks of a hash it was released, had expired, or was crowded out |
| `BlockGuard.MarkExactly` | bridge/src/kaspaapi.rs:94-102 | a mark succeeds iff the hash is not remembered or is forgotten in that way |
| `BlockGuard.ExpiredCanMark` | bridge/src/kaspaapi.rs:94-102 | an expired hash can be marked again unless a live hash that has not expired is listed before it; stale listings do not stand in the way |
| `BlockGuard.MarkAfterRemoveSucceeds` | bridge/src/kaspaapi.rs:94-107 | after a release the next mark of that hash succeeds, whatever happens to other hashes in between |
| `BlockGuard.OrderHasNoBound` | bridge/src/kaspaapi.rs:104-107 | marking and releasing behind a live hash adds a stale listing every time |
| `BlockGuard.StepKeepsExactly` | bridge/src/kaspaapi.rs:94-107 | an event keeps the order listing exactly the live hashes, each once, iff it does not release a live one |
| `BlockGuard.AlwaysExactExactly` | bridge/src/kaspaapi.rs:65-108 | over a run from the empty guard the order is exact in every state iff no event releases a live hash |
| `BlockGuard.ExactOrderIsBounded` | bridge/src/kaspaapi.rs:65-108 | in such a run the order is as long as the entries, at most maxEntries + 1 |
| `BlockGuard.OrderBoundedByReleases` | bridge/src/kaspaapi.rs:65-108 | in every run the order is longer than the entries by at most the number of live hashes released so far |
| `BlockGuard.BlockSubmitGuard.TryMark` | bridge/src/kaspaapi.rs:94-102 | is a mark step; succeeds iff the hash is not remembered or its listing goes by age or number |
| `BlockGuard.BlockSubmitGuard.Remove` | bridge/src/kaspaapi.rs:104-107 | is a release step |
| `BlockGuard.BlockSubmitGuard.SubmitBlock` | bridge/src/kaspaapi.rs:386-462 | a block is sent iff its hash is not remembered or its listing goes by age or number, and stays marked iff the node then reports success; the share behind it is valid in that case, stale if the block was not sent, bad otherwise |
| `Verdicts.FailedCallNeverLooksDuplicate` | bridge/src/kaspaapi.rs:419-431 | whatever error the failed call has, and whatever is under it, the printed text contains neither marker of a duplicate, and the share is bad |
| `Verdicts.RejectionIsBad` | bridge/src/kaspaapi.rs:433-462 | a block the node refuses makes a bad share, for each reason it can give |
| `ShareProtocol.RunStaysGood` | bridge/src/share_handler.rs:174-231 | in every state of every interleaving the guard's order is duplicate-free and lists exactly its entries, of which at most maxEntries + 1 exist, and the counters balance |
| `ShareProtocol.ValidatedTwiceOnlyIfForgotten` | bridge/src/share_handler.rs:475-514 | between two validations of a key some pruning found it idle longer than the time to live, or crowded out |
| `ShareProtocol.ValidatedExactly` | bridge/src/share_handler.rs:475-514 | in every run a submission is validated iff its key is not remembered, or it and every key listed before it have expired, or at least maxEntries keys are listed after it |
| `ShareProtocol.StampIsLastTouch` | bridge/src/share_handler.rs:215-230 | a remembered key carries the time of its validation or of the last outcome set since, and nothing touched it after |
| `ShareProtocol.SweptReason` | bridge/src/share_handler.rs:481-490 | the double pruning of a fresh submission forgets a key only for those reasons |
| `ShareProtocol.SharesAreConserved` | bridge/src/share_handler.rs:1072-1118 | in every run validated submissions are shares plus stale plus invalid plus those in flight, each counted under its verdict (valid; stale block; low difficulty or bad block); confirmations are blocks plus those open; each overall counter is the sum over all records ever created less the tasks between their two counters |
| `ShareProtocol.RecordKeptUntilPruned` | bridge/src/share_handler.rs:257-291 | in every run a worker keeps one record until the table of records is pruned of it |
| `ShareProtocol.AnswersFollowCounts` | bridge/src/share_handler.rs:492-514 | the answer is true iff the share counts as a share and stale iff it counts as stale, and a duplicate is told the same |
| `ShareProtocol.DuplicateGetsOriginalAnswer` | bridge/src/share_handler.rs:492-514 | over every interleaving a duplicate is answered true while some validation of the same key is not recorded yet, and otherwise with the very answer of a recorded validation of that key; the lemma gives that validation; nothing but the guard's pruning changes |
| `ShareProtocol.AlwaysCountedExactly` | bridge/src/share_handler.rs:492-514 | for a verdict, every recorded validation that a duplicate is answered from, in every run, is already in its verdict's counter iff the verdict is not stale, or nothing can be remembered |
| `ShareProtocol.StaleAnsweredEarly` | bridge/src/share_handler.rs:917-925 | a run in which a duplicate gets the stale answer while no counter has moved |
| `ShareProtocol.RenewedPrunesTwice` | bridge/src/share_handler.rs:481-490 | a guard, renewed out of order, that a second pruning at the same time cuts further |
| `ShareProtocol.SecondPruningForgets` | bridge/src/share_handler.rs:481-490 | a new submission there forgets a key that one pruning keeps |
| `ShareProtocol.RenewedIsReached` | bridge/src/share_handler.rs:215-230 | a run on a forward clock leads to that guard |
| `ShareProtocol.DuplicateSubmitGuard.Get` | bridge/src/share_handler.rs:210-213 | prunes, then answers with the remembered outcome |
| `ShareProtocol.DuplicateSubmitGuard.InsertInflight` | bridge/src/share_handler.rs:215-222 | prunes, then adds an in-flight entry unless present |
| `ShareProtocol.DuplicateSubmitGuard.SetOutcome` | bridge/src/share_handler.rs:224-230 | prunes, then renews a present entry in its place |
| `ShareProtocol.DuplicateSubmitGuard.Look` | bridge/src/share_handler.rs:481-490 | the locked section: a duplicate gets its outcome, anything else becomes in flight |
| `JobRing.RecentJobsAreExact` | bridge/src/mining_state.rs:79-85 | the last 300 ids are answered with their own jobs |
| `JobRing.OverwrittenJobsAreReplaced` | bridge/src/mining_state.rs:79-85 | an older id is answered with a newer job |
| `JobRing.MiningState.AddJob` | bridge/src/mining_state.rs:54-73 | numbers jobs consecutively and keeps in each slot the newest job that falls into it |
| `JobRing.MiningState.GetJob` | bridge/src/mining_state.rs:79-85 | answers with the newest job in the id's slot |
| `JobRing.MiningState.GetJobIdAtSlot` | bridge/src/mining_state.rs:88-91 | answers with the newest id in the slot |
| `JobRing.WentRoundExactly` | bridge/src/share_handler.rs:1030-1035 | the exit test first holds at id 1 or after exactly 299 steps back |
| `JobRing.NoSlotTwice` | bridge/src/share_handler.rs:1030-1050 | one walk visits no slot twice |
| `JobRing.UndecidedMeans` | bridge/src/share_handler.rs:519-1070 | no visited job decides iff with each the proof of work is above the network target and not below the pool target |
| `JobRing.WalkBack` | bridge/src/share_handler.rs:519-1070 | at most 300 evaluations whatever happens to the ring meanwhile, no id below 1, at most one block; the first job that beats a target decides; low difficulty, a node rejection aside, iff none does; only a submitted id 0 underflows |
| `JobRing.WalkVisitsNewest` | bridge/src/share_handler.rs:1037-1050 | over a ring that others keep feeding, each job visited, the submitted one included, is the newest issued one in its slot, and the exact one for the last 300 ids |
| `VarDiff.SilentHalves` | bridge/src/share_handler.rs:64-73 | with no share in 90 seconds the difficulty becomes max(1, d/2), rounded down to a power of two if rounding is on, strictly below d; it stays iff it is within the machine epsilon of 1 |
| `VarDiff.BusyRaises` | bridge/src/share_handler.rs:75-101 | after 30 seconds with 3 shares, at least 1.25 times the number wanted: from d >= 1 it becomes d times the root of the ratio, at most 2d, rounded up if rounding is on, and is above 1.1 d |
| `VarDiff.SlowLowers` | bridge/src/share_handler.rs:75-101 | with at most 0.75 times the number wanted: from d >= 10/9 it becomes d times the root, at least d/2 and 1, rounded down, and is at most 0.9 d; from 1 <= d < 10/9 it stays |
| `VarDiff.BelowOneRises` | bridge/src/share_handler.rs:75-101 | what busy and slow windows do to a difficulty below 1: it stays or rises |
| `VarDiff.OtherwiseUnchanged` | bridge/src/share_handler.rs:56-102 | any other window changes nothing |
| `VarDiff.PlainStepBounds` | bridge/src/share_handler.rs:56-102 | without rounding an adjustment from at least 1 stays within [max(1, d/2), 2d] |
| `VarDiff.Pow2Step` | bridge/src/share_handler.rs:46-102 | with rounding a silent or slow window halves a power of two, down to 1, a busy one doubles it, any other keeps it |
| `VarDiff.StartIsPow2` | bridge/src/stratum_server.rs:80-87 | with rounding a worker starts at the greatest power of two up to the configured difficulty |
| `VarDiff.Pow2RunIsWalk` | bridge/src/share_handler.rs:1638-1651 | over every run with rounding the exponent walks one step down for a silent or slow window, not below zero, and one up for a busy one |
| `VarDiff.SilentRunComesDown` | bridge/src/share_handler.rs:1638-1651 | a silent miner's difficulty halves window by window down to 1 |
| `VarDiff.Pow2RunStaysPow2` | bridge/src/share_handler.rs:1638-1651 | over every run from the configured start |
| `VarDiff.PlainRunStaysBounded` | bridge/src/share_handler.rs:1638-1651 | over every run without rounding each difficulty is at least 1 and within a factor of two of the last |
| `VarDiff.MonotoneExactly` | bridge/src/share_handler.rs:56-102 | more shares in the same window never lower the result iff the difficulty is above 0.9 or not positive |
| `VarDiff.FewSharesLeadUp` | bridge/src/share_handler.rs:56-102 | below that, windows where fewer shares lead higher |
| `Extranonce.ExtranonceCounter.Assign` | bridge/src/client_handler.rs:84-123 | the n-th assignment is n modulo 65536 in four digits; a Bitmain miner gets none |
| `Extranonce.AssignedTwiceExactly` | bridge/src/client_handler.rs:96-108 | two assignments coincide iff a multiple of 65536 apart |
| `Extranonce.ShortNonce` | bridge/src/share_handler.rs:422-452 | a nonce text of up to 12 characters is taken iff all are digits, and is the extranonce in the upper 16 bits and the text's value below |
| `Extranonce.NonceInAnyCase` | bridge/src/share_handler.rs:419-452 | uppercase and lowercase spellings of a nonce text mean the same nonce, to every miner |
| `Extranonce.MeetExactly` | bridge/src/share_handler.rs:422-452 | for all extranonces the code hands out, the empty one included, and texts of all lengths: when nonces of miners with different extranonces are equal (never, while both texts fit under an extranonce) |
| `Extranonce.ShortTextsMeetExactly` | bridge/src/share_handler.rs:422-452 | texts of up to 12 characters meet iff one miner has no extranonce, the other number zero, and the values are equal |
| `Extranonce.UnnumberedMinerCollides` | bridge/src/client_handler.rs:94-121 | every text of 1 to 12 digits is the same nonce for a miner without an extranonce and one numbered zero |
| `Extranonce.KeepApartExactly` | bridge/src/share_handler.rs:422-452 | two texts are different nonces for all pairs of miners with different extranonces iff, told from lengths and values alone, they may not meet |
| `Extranonce.DecimalReads` | bridge/src/share_handler.rs:475-479 | the job number in the key is its decimal digits |
| `Extranonce.SubmitKeyInjective` | bridge/src/share_handler.rs:475-479 | submission keys agree iff worker, job and nonce text do, for any worker names |
| `Extranonce.CanonicalExactly` | bridge/src/share_handler.rs:422-452 | for any extranonce and text, what is assembled is the 16-digit spelling of its nonce iff it is 16 lowercase digits |
| `Extranonce.KeyIsCanonicalExactly` | bridge/src/share_handler.rs:475-479 | a submission goes under its share's canonical key iff its text is lowercase and fits under an extranonce or has 16 digits |
| `Extranonce.CanonicalKeysAgreeExactly` | bridge/src/share_handler.rs:475-479 | canonical keys agree iff worker, job and 64-bit nonce do |
| `Extranonce.KeyIdentifiesShare` | bridge/src/share_handler.rs:475-479 | a submission has the same key as one with a canonical text iff worker, job and nonce are the same and its text is canonical too |
| `Extranonce.EveryShareHasAnAlias` | bridge/src/share_handler.rs:475-479 | every submission has another text of the same miner that is the same nonce and goes under another key |
| `Opoi.LcgWeight` | bridge/src/opoi.rs:27-33 | advances the generator and returns a weight in [-he, he - 1] |
| `Opoi.WeightInNumbers` | bridge/src/opoi.rs:27-33 | a weight is r * he / 2^31 rounded down, with r the upper half of the state as a signed 32-bit number |
| `Opoi.WeightsAt` | bridge/src/opoi.rs:35-38 | weight i comes from the state after i + 1 steps |
| `Opoi.MakeWeights` | bridge/src/opoi.rs:35-38 | the weights of the generator's successive states from the layer's seed |
| `Opoi.WeightsBounds` | bridge/src/opoi.rs:35-38 | every weight lies in [-he, he - 1] |
| `Opoi.DotIsRowProduct` | bridge/src/opoi.rs:58-74 | every partial sum is the inner product of the layer's input with one row of the weight matrix |
| `Opoi.H1Bounded` | bridge/src/opoi.rs:58-63 | for every input the first hidden layer stays within 1024 |
| `Opoi.H2Bounded` | bridge/src/opoi.rs:65-70 | and the second within 23040 |
| `Opoi.HiddenSumsFit` | bridge/src/opoi.rs:58-70 | every partial sum of the hidden layers stays far inside 64 bits |
| `Opoi.NothingOverflows` | bridge/src/opoi.rs:72-74 | every partial output sum has magnitude at most 377487360 |
| `Opoi.OutputFoldsLowHalf` | bridge/src/opoi.rs:76-81 | every output byte is the XOR of the low four bytes of its sum: the upper four cancel |
| `Opoi.Hidden` | bridge/src/opoi.rs:58-70 | every neuron of a hidden layer is the inner product with its row divided by 1024 and rounded down, or 0 if that product is negative |
| `Opoi.NetworkExactly` | bridge/src/opoi.rs:54-82 | the layers and the output are the only ones in which the input is centred at 128, each hidden neuron is its sum divided by 1024 or 0, each output sum is an inner product, and each byte is the XOR of the low four bytes of its sum |
| `Opoi.Forward` | bridge/src/opoi.rs:54-82 | computes those layers and that output |
| `Opoi.InputFromNonce` | bridge/src/opoi.rs:87-96 | the nonce followed by three copies of the model seed |
| `Opoi.InputLayout` | bridge/src/opoi.rs:87-96 | the first eight bytes spell the nonce, each of the other three groups the seed, least significant byte first |
| `Opoi.InputsDistinct` | bridge/src/opoi.rs:87-104 | distinct nonces, salted, give distinct network inputs |
| `Opoi.VerifyTagExactly` | bridge/src/opoi.rs:98-110 | a tag is accepted iff it is lowercase hex that decodes to the first eight output bytes, hence 16 digits, one string per nonce |
| `Base58.AbsorbByte` | inference/src/ai_payload.rs:255-266 | one round of carry propagation multiplies the digit vector by 256 and adds the byte |
| `Base58.MulAddValue` | inference/src/ai_payload.rs:255-266 | the digits afterwards spell 256 times the old value plus the byte |
| `Base58.DigitsSpellInput` | inference/src/ai_payload.rs:252-272 | the digits' base-58 value is the input's big-endian value, with no spare top digit |
| `Base58.Encode` | inference/src/ai_payload.rs:252-272 | the text is one '1' per leading zero byte, then the digits from the top |
| `Base58.AlphabetIs` | inference/src/ai_payload.rs:253 | digit d is spelled by character d of the 58 of the alphabet |
| `Base58.EncodingInjective` | inference/src/ai_payload.rs:252-272 | distinct byte strings of any lengths have distinct texts |
| `Base58.AllOnesExactly` | inference/src/ai_payload.rs:267-271 | a text is all '1' iff the value is zero |
| `Base58.Section3Exactly` | inference/src/ai_payload.rs:252-272 | the text is the one of section 3 of draft-msporny-base58-03 (a '1' per leading zero byte, then the number's digits, none for zero) iff some byte is not zero |
| `Base58.AllZeroInput` | inference/src/ai_payload.rs:267-271 | n zero bytes give n + 1 times '1' |
| `Payload.RequestCanonical` | inference/src/ai_payload.rs:79-89 | accepted iff the length is in bounds, and then serialized back to the same bytes |
| `Payload.RequestLayout` | inference/src/ai_payload.rs:6-8 | each field stands at its documented offset, integers little-endian |
| `Payload.RequestRoundTrip` | inference/src/ai_payload.rs:69-89 | serialize then deserialize is the identity iff the prompt fits |
| `Payload.ResponseCanonical` | inference/src/ai_payload.rs:157-174 | accepted iff one of the two lengths, and then serialized back to the same bytes |
| `Payload.ResponseLayout` | inference/src/ai_payload.rs:20-27 | each field stands at its documented offset; the versions differ in length and the signed bytes are the first 78 |
| `Payload.ResponseRoundTrip` | inference/src/ai_payload.rs:147-174 | both versions survive the round trip, so neither is mistaken for the other |
| `Payload.SignedBytesDetermine` | inference/src/ai_payload.rs:138-145 | the signed bytes determine everything but the responder, and nothing of it |
| `Payload.ChallengeCanonical` | inference/src/ai_payload.rs:233-243 | accepted iff the length is in bounds, and then serialized back to the same bytes |
| `Payload.ChallengeLayout` | inference/src/ai_payload.rs:31-35 | each field stands at its documented offset |
| `Payload.ChallengeRoundTrip` | inference/src/ai_payload.rs:223-243 | serialize then deserialize is the identity iff the proof fits |
| `JobFormat.GenerateLargeJobParams` | bridge/src/hasher.rs:367-390 | for a header of at least 32 bytes gives exactly the IceRiver text of its first 32; a shorter one aborts |
| `JobFormat.ParamsDecode` | bridge/src/hasher.rs:277-362 | 80 lowercase digits that decode to the hash and the timestamp |
| `JobFormat.SwappedSpellsLittle` | bridge/src/hasher.rs:380-389 | printing the byte-swapped timestamp spells its little-endian bytes |
| `JobFormat.GenerateJobHeader` | bridge/src/hasher.rs:253-267 | the words stand for the first 32 bytes, or for all whole words of a shorter header |

## Left out

- Readers with a prefix fallback (`read_with_fallback`, `has_with_fallback`): only their decoding is modelled, in `Layouts`; a store that mixes them with plain reads answers differently depending on what is cached.
- Store iterators and seeks: read-only traversals that bypass the cache; of the set store only the whole-bucket traversal is modelled.
- Errors of RocksDB and of serialization: operations on the database always succeed; only absent and undecodable records are modelled.
- A read miss racing a write inside one store: runs are sequential there, one call after the other.
- Sets handed out by a set store are values: the model does not have the shared lock that lets a holder see later changes.
- Sizes and counts are unbounded: no overflow of the tracked size, of counters or of the job counter.
- Batches commit their operations in the order staged; a batch dropped without commit is not modelled.
- WriteBehind.ReadKeepsCoherenceExactly: sizes of cached values are a function of the value, so a value whose estimated size changes while cached is not modelled.
- Layouts.LastListUnderflowsExactly: entries are opaque and of one size; in the code a bad flag or script length inside an entry also makes decoding fail and triggers the fallback.
- Layouts.TwoListsUnderflowExactly: entries are opaque and of one size, as above; for entries of variable sizes only the misread is shown (`Layouts.GrownEntriesCanMisread`).
- VarDiff.Pow2Step: arithmetic is over the reals, with the square root of the ratio as a witness; floating-point rounding is not modelled. A start difficulty taken from elsewhere than the configuration is not modelled either.
- JobRing.WalkBack: proof-of-work values, targets and what `submit_block` returns are inputs; diagnostics and logging are dropped.
- BlockGuard.BlockSubmitGuard.SubmitBlock: the call to the node is its reply; logging is dropped. That an error prints its outermost layer only (`Verdicts.Display`) is how the error library works.
- ShareProtocol.SharesAreConserved: which verdict a validation reaches is arbitrary (`JobRing.WalkBack` says which); a handler that stops half way, and a confirmation that never counts, stay open; accumulated hash values, time stamps and rates of the records are dropped.
- Extranonce.ShortNonce: speaks of the text after removal of "0x"; a text with characters beyond ASCII is no number in any case.
- Extranonce.ExtranonceCounter.Assign: whether a miner is Bitmain is an input; the name matching is dropped.
- Hashes, proof of work, signatures, the network, the command line, configuration, metrics and the CPU miner.
