# A verified model of the in-kernel key-value store

The system is a chained hash table inside a kernel module, with one spinlock per bucket; ioctl
handlers on top of it; a daemon that serves a text protocol, saves the table to a snapshot file
and replays that file at start-up; and a benchmark that checks a hot key under load. This project
states what these parts do together and proves it with Dafny. `dafny verify dfyconfig.toml`
checks everything.

## What is modelled, and how

The same table is described three times, and the descriptions are tied together.

* **As a value** (`Chains.dfy`): a sequence of chains, the pure operations `Put`, `Delete`, `Get`,
  the finite map `ToMap` it stands for, and the scan order `Flatten`.
* **As interleaved steps** (`ChainMemory.dfy`, `Requests.dfy`, `Machine.dfy`): any number of
  threads, each running ioctl handlers or the daemon's save. A step acquires a lock, looks at
  one node, stores, links or unlinks one node, or releases. Nodes live at addresses and are linked
  by `next` and `pprev`. `AtomicStore.dfy` is the specification, on a finite map;
  `Refinement.dfy` proves that every run of the steps is a run of the specification,
  `Progress.dfy` that the locks cannot deadlock, `Solo.dfy` and `SoloRequests.dfy` that a thread
  left alone finishes and what it is then answered, `Replies.dfy` what each reply says whatever other
  threads do, and `Strings.dfy` that no value string is leaked, freed twice or mixed up. `Scans.dfy`, `ThreePass.dfy`,
  `Races.dfy`, `ValueBound.dfy` and `HotKey.dfy` prove the consequences over whole runs;
  `LostInsert.dfy` and `LostSnapshot.dfy` build, for a store of any shape, runs that show what is
  *not* guaranteed.
* **As code on the heap** (`KvHash.dfy`, `Kernel.dfy`, `Daemon.dfy`, `Session.dfy`): classes whose
  fields are updated in place, with an allocator that may refuse any request and keeps a ledger of
  entries, value strings and arrays. These are sequential: one request at a time.

`Restore.dfy`, `SnapshotFile.dfy` and `Restart.dfy` cover persistence: the merge a restore
computes, the bytes of the file, and the way from a save among other threads to the store that a
restart finds. `Decimal.dfy` and `Commands.dfy` cover text: the decimal codec, `check_value`, and
the command language. `KvTypes.dfy` holds shared types.

`kv_bucket` is an arbitrary function into the bucket range, so every result holds for every hash.
An allocator that is `reliable` grants every request; results that need no allocation failure
say so. PAM is an arbitrary predicate on user and password.

## What the code does that its description does not promise

The model follows the code in each of these cases and a lemma shows it or gives its exact condition.

* Insert is a lookup and an add under separate holds of the lock. Two inserts of one key can both
  succeed, from every state in which the key is absent (`LostInsert.RacingInserts`);
  `Races.TwoSections` says exactly when a successful insert replaced a value and when a successful
  update created a key.
* The repository's README says that the store is flushed and restored. If the number of entries
  changes between the daemon's count and the kernel's re-count, the kernel returns the new count,
  which is not negative, and the daemon overwrites the file with a header and no entries
  (`LostSnapshot.SaveDuringInsert`). This happens if and only if the two counts differ
  (`ThreePass.MismatchExactly`, and for the file `Restart.FileExactly`). It cannot happen while no
  key comes or goes, however many values are replaced (`Restart.SaveAndRestart`).
* The counts can also agree and the file still miss a key that was stored all along, with no
  mismatch reported: a key inserted between the re-count and the copy takes a place in the buffer,
  and the copy is cut (kernel/kv_hash.c:281-286). Of any two keys, the one whose bucket is scanned
  first inserted last, the file holds that one alone (`LostSnapshot.SaveLosesKey`).
  `LostSnapshot.InsertDuringCopy` says from which states an insert makes an old key go missing: if and
  only if not every old key hashes to an earlier bucket. In general the copy is complete if and
  only if the copying scan saw no more entries than had been counted, and then no key that stayed is
  lost (`Restart.FileExactly`); so it is when no key appears during the save, even if others are
  removed (`Restart.NothingLostWithoutInserts`).
* An empty store leaves the old snapshot file in place, so deleted keys come back at the next
  start (`Daemon.DeletedKeyReturns`). With nobody else at work, a restart after a save finds the
  stored map if and only if something was stored, or there was no file, or the old file announces
  no entries (`Daemon.RestartAfterSave`).
* The `restored` counter also counts entries refused because the key exists. It is the number of
  keys added exactly when the file's keys are distinct and none was stored
  (`Restore.RestoredCounter`).
* `kv_hash_destroy` frees everything except `bucket_locks` (`KvHash.HashTable.Destroy`).
* `_handle_insert` copies the value into a terminated local buffer and then does not use it.
  Termination within 64 bytes is therefore a precondition of the handlers; the daemon
  establishes it (`Daemon.Server.NewMessage`).
* A value of 64 characters or more would not survive a save; the round trip holds if and only if
  every stored value fits (`SnapshotFile.RoundTripExactly`).

## Model

| member | source | states |
|---|---|---|
| Chains.PutRefines | kernel/kv_hash.c:119-144 | add is map update: the key gets the value, every other key is framed, entries stay in the bucket of their key and no key occurs twice |
| Chains.DeleteRefines | kernel/kv_hash.c:164-179 | remove is map deletion with the same frame and the same invariant |
| Chains.FlattenIsMap | kernel/kv_hash.c:276-296 | the scan, bucket by bucket and head first, lists exactly the pairs of the map, each key once |
| Chains.FlattenPrefixOf | kernel/kv_hash.c:276-296 | what the scan has seen before a bucket is a prefix of the whole scan |
| ChainMemory.StoreShape | kernel/kv_hash.c:122-127 | replacing a value in place keeps the linked shape and all other buckets, and updates the map at that key |
| ChainMemory.LinkShape | kernel/kv_hash.c:132-141 | linking a fresh node at the head of its bucket keeps every chain linked both ways and adds exactly its pair |
| ChainMemory.UnlinkShape | kernel/kv_hash.c:166-176 | unlinking and freeing a node anywhere in a chain keeps every chain linked both ways and deletes exactly its key |
| ChainMemory.ContentsEnumerate | kernel/kv_hash.c:278-293 | a bucket's chain enumerates exactly the part of the map that hashes there |
| Refinement.StepRefines | kernel/kv_hash.c:116-144 | every single-node step of any thread keeps the invariant over chains, locks and cursors, and is one atomic step of the map specification or invisible |
| Refinement.RunRefines | kernel/kv_hash.c:100-223 | linearizability: for any number of threads and any interleaving, a run is a run of the atomic store that starts empty |
| Refinement.OneHolder | kernel/kv_hash.c:117-126 | mutual exclusion: no two threads hold the lock of one bucket, in any state of any run |
| Refinement.NoDuplicateKeys | kernel/kv_hash.c:119-141 | in no state of any run are two linked entries for one key |
| Progress.NoDeadlock | kernel/kv_hash.c:241-248 | in every state of every run a thread can move, or it waits for a bucket lock whose holder, another thread, can move |
| Progress.HolderMoves | kernel/kv_hash.c:117-143 | a thread inside a critical section is never blocked |
| Scans.ConcreteCountSandwich | kernel/kv_hash.c:241-250 | whatever other threads do, the count is the number of entries that the buckets held, each in one state and one after another; it counts every key present throughout the scan and only keys present at some time during it |
| Scans.CountQuiescent | kernel/kv_hash.c:241-250 | while no key comes or goes the count is the number of keys |
| Scans.ConcreteSnapshotGuarantee | kernel/kv_hash.c:276-298 | the copies are, in scan order and cut at max_entries, exactly what each bucket held in the one state in which it was visited, buckets one after another; keys are distinct, and below max_entries nothing that stayed is missing |
| Scans.Seen | kernel/kv_hash.c:276-298 | a pair was seen if and only if it was stored when its bucket was visited |
| Scans.SnapshotQuiescent | kernel/kv_hash.c:276-298 | while no key comes or goes a copy with room enough lists exactly the keys, each with a value it had |
| ThreePass.CopyFitsBuffer | kernel/kvlkm.c:283-311 | whatever happens between the daemon's count, the re-count and the copy, no more entries are copied back than the caller allocated |
| ThreePass.MismatchExactly | kernel/kvlkm.c:283-290 | whatever other threads do, a save is answered by a mismatch if and only if the re-count differed from the number the daemon had been told, and by a copy only if it did not |
| ThreePass.CountsSaw | user/daemon/daemon.cpp:291-316 | the two numbers are what two scans saw bucket by bucket, the second after the first |
| ThreePass.CopySaw | kernel/kvlkm.c:283-311 | whatever other threads do, the capacity is the number of entries the re-count saw, and the copy is what a later scan saw bucket by bucket, cut at the capacity: distinct keys, each with a value it had; all that was seen if and only if that was no more than the capacity, and then every key that stayed |
| ThreePass.CopyWithoutInserts | kernel/kvlkm.c:283-311 | when no key appears during the save, a copy misses none that is left in the end and holds none that was not there at the start, although others are removed |
| ThreePass.SaveQuiescent | user/daemon/daemon.cpp:291-324 | while no key comes or goes, a save copies exactly the keys with count equal to capacity, or found none, or an allocation failed; a mismatch is impossible although values may be replaced |
| ThreePass.QuiescentSaveIsComplete | user/daemon/daemon.cpp:288-342 | the same of every interleaving of single-node steps |
| Races.Presence | kernel/kv_hash.c:119-144 | over any stretch of a run a key is present at the end exactly when its last successful add or remove was an add, or it was there and never removed |
| Races.TwoSections | kernel/kvlkm.c:324-417 | the insert or update that has replied is a lookup and a later put of its own; the key was there at the put if and only if the last successful add or remove since the lookup was an add, or it was there at the lookup and not removed |
| Races.InsertAloneIsInsertIfAbsent | kernel/kvlkm.c:331-349 | when no add of the key lands between the two sections of the insert that has replied, and it saw the key absent, it stored a key that was not there |
| Replies.EveryReply | kernel/kvlkm.c:269-417 | in every interleaving every reply to every request is decided by the operations its handler carried out and the map as each took effect: a get is one lookup and returns the value if and only if it is stored with fewer than 64 characters; a delete is one removal and succeeds if and only if the key was there; an insert or update is refused by what its lookup saw, or stores its value, or found no memory and stored nothing; a snapshot request is a mismatch, a copy or a failure by what it counted |
| Replies.GetServed | kernel/kvlkm.c:374-392 | the reply to a get, from the request to the answer, with nothing else done on its behalf |
| Replies.PutServed | kernel/kvlkm.c:324-417 | the reply to an insert or update, likewise |
| Replies.DeleteServed | kernel/kvlkm.c:361-372 | the reply to a delete, likewise |
| Replies.SaveServed | user/daemon/daemon.cpp:288-324 | there is nothing to save if and only if the first count is 0; otherwise the rest is KV_SNAPSHOT with the counted capacity, or there was no memory |
| Replies.IoctlServed | kernel/kvlkm.c:269-314 | KV_SNAPSHOT with any capacity: a mismatch if and only if its count differs, else what a scan then copied or a failure; capacity 0 always fails |
| LostInsert.RacingInserts | kernel/kvlkm.c:331-349 | from every reachable state with two idle threads, no lock held and the key absent, for every hash, size, key and values: both threads can be told that their insert succeeded, with the first value gone |
| LostInsert.RacingInsertsBothSucceed | kernel/kvlkm.c:331-349 | such a run from the initial state, in a store of every shape |
| LostSnapshot.SaveDuringInsert | kernel/kvlkm.c:287-290 | from every reachable state with two idle threads, no lock held and something stored: an insert between the two counts makes the save a mismatch, while the store holds the old pairs throughout |
| LostSnapshot.InsertDuringCopy | kernel/kv_hash.c:279-295 | from every reachable state with two idle threads, no lock held and something stored: an insert between the re-count and the copy leaves both counts equal and the copy one entry short; the missing key is an old one, stored throughout, if and only if not every old key hashes to an earlier bucket than the new one |
| LostSnapshot.SaveLosesKey | kernel/kv_hash.c:281-286 | such a run from the initial state, in a store of every shape and for any two keys in the order of their buckets: the old key is stored throughout, no mismatch is reported, and the file restores to the new key alone |
| LostSnapshot.SaveLosesEverything | user/daemon/daemon.cpp:315-335 | such a run from the initial state, in a store of every shape; the file it leaves restores to nothing |
| Solo.KeyedAlone | kernel/kv_hash.c:100-223 | from every reachable state in which the bucket's lock is free a thread alone completes its add, remove or lookup with the atomic effect and result; a new key stands at the head of its bucket |
| SoloRequests.RequestAlone | kernel/kvlkm.c:324-417 | from every reachable state with no lock held a thread alone carries out its insert, update, get or delete with exactly the reply and the new map of insert-if-absent, replace-if-present, lookup and deletion |
| SoloRequests.SaveAlone | user/daemon/daemon.cpp:288-324 | a save alone is answered by the whole table in scan order, or that there is nothing to save |
| Solo.CountAlone | kernel/kv_hash.c:228-252 | from every reachable state with no lock held a thread alone completes its count and gets the number of stored keys |
| Solo.SnapshotAlone | kernel/kv_hash.c:262-299 | from every reachable state with no lock held a thread alone completes its snapshot and gets the first max_entries entries of the table, bucket by bucket and each chain from its head |
| Strings.StringsConserved | kernel/kv_hash.c:110-144 | in every state of every interleaving the live value strings are those of the linked nodes and one for each add in flight, all different, and each reads the value of its node or the value its add will store |
| Strings.LedgersExist | kernel/kv_hash.c:110-176 | every run can be annotated with its allocations and frees |
| Strings.BijectionAtRest | kernel/kv_hash.c:110-176 | with no add in flight the live strings are in bijection with the linked nodes, and each reads the value of its node |
| ValueBound.StoredValuesFit | user/daemon/daemon.cpp:399-404 | over every run with terminated messages, stored values have at most 63 characters and no operation returns -ENOSPC |
| ValueBound.FailedLookupMeansAbsent | kernel/kvlkm.c:399-406 | then a lookup fails if and only if the key is absent when it takes effect, and otherwise returns the stored value |
| HotKey.HotKeyEndToEnd | benchmark/benchmark.cpp:397-456 | the benchmark's command lines reach the kernel as its insert of count:0, its updates of a 64-bit counter, uncut, and its gets; from an absent key, once the insert of count:0 has succeeded, with one writer counting up and any number of readers, in every interleaving every get sent after that is answered with a number, each reply decodes to a number already written, and no reader's numbers (nor those of a reader that has no answer yet) decrease |
| HotKey.GetsAreHits | benchmark/benchmark.cpp:430-453 | every get sent once the insert has succeeded is answered with the value, a number written before: no read is empty or bad |
| HotKey.RepliesWereWritten | benchmark/benchmark.cpp:437-453 | every reply to a reader is count:n for a number n sent before it, and check_value reads n from the daemon's text |
| HotKey.RepliesDoNotDecrease | benchmark/benchmark.cpp:437-453 | the numbers in two successive replies do not decrease |
| Decimal.ToText | user/daemon/daemon.cpp:414 | prints a number as digits that denote it |
| Decimal.ParseKeyAccepts | user/daemon/daemon.cpp:24-33 | a token without white space is accepted if and only if it is an optional sign and at least one digit with magnitude below 2^64; minus negates modulo 2^64 |
| Decimal.KeyCodec | user/daemon/daemon.cpp:24-33 | parse_key undoes to_string for every 64-bit key |
| Decimal.KeyLength | kernel/kvlkm.c:384-404 | a key prints in at most 20 characters, so the messages that name it fit the value field |
| Decimal.FindFrom | benchmark/benchmark.cpp:489 | the first position at which the pattern occurs, or the end |
| Decimal.QuotesEnd | benchmark/benchmark.cpp:493-495 | only quotes and white space before it, and neither at it |
| Decimal.SkipQuotes | benchmark/benchmark.cpp:493-495 | the loop stops at the first character that is neither a quote nor white space |
| Decimal.ReadDigits | benchmark/benchmark.cpp:500-504 | the loop computes the number the run of digits stands for |
| Decimal.CheckValue | benchmark/benchmark.cpp:487-508 | it succeeds if and only if the tag occurs and its first occurrence is followed by only quotes and white space and then a digit; the value is what the run of digits there stands for |
| Decimal.ReplyCodec | benchmark/benchmark.cpp:487-508 | check_value undoes the daemon's reply to a get of a hot key, for every key and counter |
| Decimal.ReplyTells | user/daemon/daemon.cpp:418-421 | the reply to a get determines key and value |
| Daemon.MissingFails | benchmark/benchmark.cpp:489-490 | check_value fails on the reply to a get of a missing key, for every key |
| Daemon.StatusTexts | user/daemon/daemon.cpp:435-457 | the status numbers that are reported, as they are printed |
| Commands.ParsePrinted | user/daemon/daemon.cpp:207-282 | parsing a printed command gives the same operation, key text and whole value, blanks included |
| Commands.KeyLine | user/daemon/daemon.cpp:246-281 | what every line with a key asks for, by its first word: an insert or update without a value is refused, any other word is unknown, and the value is the rest of the line without one leading blank |
| Commands.NoKeyLine | user/daemon/daemon.cpp:246-250 | a first word alone, listed or not, is refused for its missing key |
| Commands.AuthLine | user/daemon/daemon.cpp:217-232 | AUTH with two words is a login with these as user and password, in this order |
| Commands.AuthWithoutPassword | user/daemon/daemon.cpp:222-224 | AUTH with one word lacks the password |
| Commands.AuthWithoutUser | user/daemon/daemon.cpp:219-221 | AUTH alone lacks the user |
| Commands.SnapshotLine | user/daemon/daemon.cpp:239-243 | KV_SNAPSHOT asks for a snapshot whatever follows it |
| Commands.BlankLine | user/daemon/daemon.cpp:211-215 | a line of white space asks for nothing |
| Commands.EveryLine | user/daemon/daemon.cpp:207-282 | every line is one of these |
| Commands.PrintedWithoutValue | user/daemon/daemon.cpp:260-275 | an insert or update printed without a value, with or without the trailing blank, is refused |
| Commands.ValueNotEmpty | user/daemon/daemon.cpp:260-275 | no insert or update with an empty value reaches the store |
| Commands.CommandRoundTrip | user/client/client.cpp:146-154 | for every key and every non-empty value without newline the kernel receives the operation, the key and the value cut to its first 63 bytes |
| Commands.KeyOnlyRoundTrip | user/client/client.cpp:160-166 | a get or delete arrives with its key and an empty value |
| Commands.SessionLaw | user/daemon/daemon.cpp:217-237 | a connection is authenticated if and only if one of its commands was a successful AUTH; it is never undone |
| Session.OnlyAfterLogin | user/daemon/daemon.cpp:217-243 | a command changes the store or the file only if it names an operation and some earlier command was a successful AUTH |
| Session.NothingBeforeLogin | user/daemon/daemon.cpp:234-237 | up to the first successful AUTH store and file stay as they were and every answer is a refusal |
| Session.RefusedExactly | user/daemon/daemon.cpp:211-281 | a command that is not carried out changes nothing; a login is answered by its outcome, an unreadable key as such |
| Session.RefusalTexts | user/daemon/daemon.cpp:213-280 | the text each other refused command is answered, before and after login |
| Session.SnapshotAnswered | user/daemon/daemon.cpp:239-243 | a snapshot is answered Snap whatever came of it, and leaves the store alone |
| Session.ServedPackets | user/daemon/daemon.cpp:174-198 | the packets served are, in order, those of the reads before which none ended the loop |
| Session.Connection.HandleCommand | user/daemon/daemon.cpp:207-282 | the effect on store, file and login flag, and the answer, of every command line |
| Session.Connection.HandleClient | user/daemon/daemon.cpp:170-201 | a whole connection: one answer, in order, for each packet read up to the first end of input, error or failed write, and the run of their commands, for every sequence of reads |
| Restore.RestoreMerges | user/daemon/daemon.cpp:367-377 | restore is a left-biased merge: stored keys keep their values, a missing key takes its first value in the file |
| Restore.RestoreTwice | user/daemon/daemon.cpp:367-377 | restoring the same file again changes nothing, not even the order of a chain |
| Restore.RestoreOrder | user/daemon/daemon.cpp:367-377 | for distinct keys the resulting map does not depend on the order in the file |
| Restore.SaveRestoreMap | user/daemon/daemon.cpp:288-383 | entries saved from a table and restored into an empty one of any hash and size give the same map |
| Restore.SaveRestoreReverses | kernel/kv_hash.c:276-296 | with the same hash and size a round trip reverses every chain, and two round trips give the original chains |
| Restore.RestoredKeys | user/daemon/daemon.cpp:367-377 | the keys after a restore are those before and those in the file |
| Restore.RestoredCounter | user/daemon/daemon.cpp:364-376 | the number of added keys is the number of entries if and only if the file's keys are distinct and none was stored |
| SnapshotFile.NumberCodec | include/kv_ioctl.h:23-34 | little-endian fields decode to what was encoded, whenever it fits the width |
| SnapshotFile.FieldCodec | user/daemon/daemon.cpp:399-404 | a zero-padded value field reads back as the string |
| SnapshotFile.FileCodec | include/kv_ioctl.h:23-34 | the file has 16 + 80 n bytes; header fields lie at 0, 4 and 8, and of record i the status at 16 + 80 i, the key eight bytes further and the value field after it, low byte first; header and records decode to what was written whatever the padding |
| SnapshotFile.DecodedRecord | include/kv_ioctl.h:23-27 | what is read as record i of any file is what lies at these positions |
| SnapshotFile.DecodedHeader | include/kv_ioctl.h:29-34 | likewise the header |
| SnapshotFile.RecordHolds | kernel/kv_hash.c:287-291 | a copied record has status 0, the key, and the first 63 bytes of the value with zeros behind them |
| SnapshotFile.SavedEntriesReadBack | user/daemon/daemon.cpp:354-369 | the entries read from a saved file are the saved ones in order, each value cut to its field |
| SnapshotFile.ImageOfComplete | user/daemon/daemon.cpp:345-362 | what lies in memory beyond a complete file does not show in what is restored |
| SnapshotFile.ImageBeyond | user/daemon/daemon.cpp:345-362 | a header that is too short is filled up with zeros; junk comes only after it |
| SnapshotFile.SaveRestoreRoundTrip | user/daemon/daemon.cpp:288-383 | byte-level round trip of a table whose values fit: same map in a table of any shape, reversed chains in one of the same shape |
| SnapshotFile.RoundTripExactly | kernel/kv_hash.c:288-291 | the map survives save and restore if and only if every stored value fits its field |
| Restart.MismatchRestoresNothing | kernel/kvlkm.c:287-290 | after a mismatch the file is 16 bytes and a restart finds an empty store |
| Restart.FileExactly | user/daemon/daemon.cpp:315-335 | whatever other threads do, a save that did not fail leaves a file that restores to nothing if the two counts differed, and otherwise to exactly the copied pairs, each stored during the save; these are all the keys the copying scan saw if and only if it saw no more than the capacity, and then every key that stayed is restored |
| Restart.NothingLostWithoutInserts | user/daemon/daemon.cpp:315-335 | when no key appears during a save that copied, a restart finds every key left in the end and none that was not there at the start |
| Restart.SaveAndRestart | user/daemon/daemon.cpp:288-383 | in every interleaving with terminated messages in which no key comes or goes during the save, a restart of any shape rebuilds exactly the stored keys, each with a value it had; or the store was empty and the old file is left, or an allocation failed |
| Restart.UnchangedStoreRestarts | user/daemon/daemon.cpp:288-383 | with values unchanged as well, the restart finds exactly the stored map |
| KvHash.HashTable.Init | kernel/kv_hash.c:21-57 | an empty, unlocked table of 2^bits buckets whatever the allocated arrays held, or -ENOMEM with nothing left allocated |
| KvHash.Shifts | kernel/kv_hash.c:33 | 1 << bits is the power of two, 1024 for 10 bits |
| KvHash.HashTable.FindEntry | kernel/kv_hash.c:120-122 | the walk stops at the first entry with the key, or at the end |
| KvHash.HashTable.HlistAddHead | kernel/kv_hash.c:141 | the four pointer writes of linking at the head, other heads untouched |
| KvHash.HashTable.HlistDel | kernel/kv_hash.c:170 | unlinking at the head or in the middle leaves that chain without the entry and every other chain linked |
| KvHash.HashTable.Add | kernel/kv_hash.c:100-145 | the table becomes Put of the old one, or on failure nothing changed and nothing leaked; ledger and locks are balanced |
| KvHash.HashTable.Remove | kernel/kv_hash.c:153-180 | the table becomes Delete of the old one; entry and string are freed once; -ENOENT exactly when the key was absent |
| KvHash.HashTable.Lookup | kernel/kv_hash.c:190-223 | the length, -ENOENT or -ENOSPC by what is stored; value and terminator are copied and no byte beyond them is written |
| KvHash.HashTable.Count | kernel/kv_hash.c:228-252 | the number of entries as a wrapping 32-bit int |
| KvHash.HashTable.Snapshot | kernel/kv_hash.c:262-299 | the first max_entries entries in scan order, as zero-padded records; the rest of the buffer is untouched |
| KvHash.HashTable.Destroy | kernel/kv_hash.c:63-91 | every entry, string and the bucket array is freed exactly once; the lock array stays allocated |
| KvHash.HashTable.OneStringEach | kernel/kv_hash.c:110-144 | outside a call the live strings are in bijection with the live entries through the value field |
| KvHash.HashTable.AsManyAsPairs | kernel/kv_hash.c:110-144 | as many live entries and strings as pairs in the map |
| Kernel.Module.HandleInsert | kernel/kvlkm.c:324-351 | refused with status 1 when the key exists, whatever the value field holds, else stored with status 0, or -ENOMEM with the table unchanged; and the text returned |
| Kernel.Module.HandleUpdate | kernel/kvlkm.c:394-417 | refused with status 1 when the key is absent, whatever the value field holds, else replaced with status 0, or -ENOMEM with the table unchanged; and the text returned |
| Kernel.Module.HandleGet | kernel/kvlkm.c:374-392 | the stored value with status 0, or status 1 and the message naming the key |
| Kernel.Module.HandleDelete | kernel/kvlkm.c:361-372 | the key is gone, whatever the value field holds; status 0 exactly when it was there, with the field unchanged |
| Kernel.HandlerTexts | kernel/kvlkm.c:324-417 | the texts the handlers leave in the value field |
| Kernel.Module.HandleCount | kernel/kvlkm.c:199-211 | the wrapped count, or a negative return |
| Kernel.Module.HandleSnapshot | kernel/kvlkm.c:269-314 | on a mismatch the count is returned and the buffer untouched; otherwise the copy never exceeds the capacity and is the whole table when the counts agree |
| Kernel.PutShort | kernel/kvlkm.c:342-349 | adding a short value keeps every stored value deliverable |
| Daemon.Server.NewMessage | user/daemon/daemon.cpp:389-404 | the message is terminated within its field and holds the first 63 bytes of the value |
| Daemon.Server.DoKvOperation | user/daemon/daemon.cpp:387-467 | change of the table and exact answer for every operation, key text and value |
| Daemon.GetAnswered | user/daemon/daemon.cpp:418-425 | the text of a get tells the value or that the key is missing; the map is as before |
| Daemon.InsertAnswered | user/daemon/daemon.cpp:427-438 | an insert adds only a new key, and the text tells which of stored, taken and out of memory it was |
| Daemon.UpdateAnswered | user/daemon/daemon.cpp:440-448 | an update changes only a stored key, and the text tells which of replaced, missing and out of memory it was |
| Daemon.DeleteAnswered | user/daemon/daemon.cpp:450-458 | the map without the key, and the text tells whether it was there |
| Daemon.Server.Save | user/daemon/daemon.cpp:288-342 | an empty store leaves the old file; otherwise the file holds the whole table, or an allocation failed and it is as before |
| Daemon.Server.Restore | user/daemon/daemon.cpp:344-383 | the counters, and a table that only gained pairs of what is in memory, of a short file also what the memory happened to hold; with reliable allocation exactly the merge |
| Daemon.RestartAfterSave | user/daemon/daemon.cpp:298-335 | a restart after a save finds the stored map if and only if something was stored, or there was no file, or the old one announces no entries |
| Daemon.DeletedKeyReturns | user/daemon/daemon.cpp:298-301 | insert, save, delete, save, restart: the deleted key is back, for every key, value, hash and size |
| Daemon.SavedImage | user/daemon/daemon.cpp:344-362 | a saved file is read back as it is, whatever memory held before |
| Daemon.FileSaves | user/daemon/daemon.cpp:324-334 | the bytes written are a complete file of the table with every field terminated |
| Daemon.SavedRestores | user/daemon/daemon.cpp:288-383 | what Save writes, Restore rebuilds: the same map in any table, the reversed chains in one of the same shape |

## Left out

- Refinement.RunRefines: safety only. No fairness is assumed of the spinlocks, so nothing says that a waiting thread is ever served; `Progress.NoDeadlock` says that it is never waiting for nothing, and `Solo.KeyedAlone` that it finishes when left alone.
- Machine: counters are unbounded there. A table of 2^31 entries or more wraps the C `int`, which is modelled in `KvHash.HashTable.Count` only.
- Kernel.Module.HandleSnapshot: for a table of 2^31 entries or more it states only that the copy stays within the capacity.
- Daemon.Server.Save: says nothing about a table of 2^31 entries or more, where the kernel's count is negative or wraps.
- Decimal.CheckValue: the accumulator is unbounded; with counters below 2^63 the C `long long` does not overflow.
- HotKey.HotKeyEndToEnd: speaks of the replies given to threads of the machine; the sockets between them and the benchmark are left out.
- HotKey.GetsAreHits: for counters up to 2^64, the range of the benchmark's counter; a text of 64 characters or more could not be delivered.
- KvHash.HashTable.Destroy: requires an initialised table. The code would dereference a null bucket array.
- KvHash.HashTable.Init: a null table pointer, for which the code returns +EINVAL against its own comment, is left out, as are all null-argument guards.
- Daemon.Server.Restore: requires that each record in memory that an insert would store has a terminated value; the kernel would read past an unterminated one. A failure of the unchecked `malloc` is left out.
- Session.Connection.HandleClient: one connection at a time. Several connections interleave in `Machine`, at the level of kernel requests.
- Commands.CommandRoundTrip: one read holds one whole command. Splitting and joining of TCP segments is left out.
- SnapshotFile.FileCodec: assumes the layout of a 64-bit little-endian build, an 80-byte record and a 16-byte header.
- The concrete hash function, interrupt flags, whether an allocation may sleep, and faults in copying to and from user space.
- The local buffers `input_value` and `truncated` that the handlers fill or declare and never read.
- Device registration, netpoll messages, log output, signals and threads of the daemon, and errors of file streams.
- Terminal menus, timing and CSV output of the client and the benchmark, and PAM itself.
