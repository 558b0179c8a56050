# A verified model of RTRlib

RTRlib is a C client for the RPKI-to-Router protocol: it keeps the records of RPKI caches in
tables, answers origin validation, AS path verification and BGPsec queries from them, and
manages groups of cache connections. This project models its core in Dafny and proves what
the tables, the synchronisation protocol and the verification algorithms promise.

`dafny verify dfyconfig.toml` checks everything. Nothing here is executed.

The code that changes memory step by step is modelled in that form: classes with fields and
linked nodes, arrays and loops, each method proved to compute a function; the theorems are
about those functions. Bytes are naturals, addresses are sequences of bits with the most
significant one first, sockets are identified by naturals.

| file | what it holds |
|---|---|
| `Trie.dfy`, `PfxTree.dfy`, `OriginValidation.dfy`, `TableRuns.dfy` | the prefix trie as a value, for arbitrary prefixes: invariant, insert, remove, socket removal, validation against the linear scan of RFC 6811, and every table these operations can build |
| `TrieNodes.dfy`, `PfxTable.dfy`, `PfxReset.dfy` | the same on linked nodes with parent pointers, the prefix table with its callback, copy, swap and difference |
| `AspaVerification.dfy`, `AspaTable.dfy` | AS path verification against the ramp definition, and the hop lookup with its two binary searches |
| `AspaUpdate.dfy`, `AspaMerge.dfy`, `AspaBatch.dfy` | the swap-in update of ASPA records against folding the operations, and what a batch does customer by customer |
| `LinearHashing.dfy`, `HashLin.dfy`, `SpkiTable.dfy`, `SpkiReset.dfy` | incremental linear hashing against a list, and the router key table on top of it |
| `BgpsecBytes.dfy`, `Bgpsec.dfy`, `BgpsecWire.dfy` | the signed byte sequences, path validation and signing; what the signed bytes say, field by field |
| `SyncUndo.dfy`, `SyncTables.dfy`, `SyncMethods.dfy`, `ResetMethods.dfy` | applying, undoing and atomically replacing a response, as functions and on the mutable tables |
| `RtrSync.dfy`, `RtrRuns.dfy`, `RtrSocket.dfy` | receiving, synchronising and the state machine; runs with any cache |
| `RtrResponse.dfy`, `RtrTurns.dfy` | what the PDUs of a response say; which responses are accepted and what single turns do |
| `RtrHonest.dfy`, `RtrStale.dfy`, `RtrAspa.dfy` | runs with an honest cache; what a failed reset leaves behind; when the ASPA records are in step |
| `GroupManager.dfy`, `Manager.dfy`, `Failover.dfy` | the groups of sockets, what every run keeps, and which group takes over |
| `ListSort.dfy`, `Powers.dfy` | the merge sort of linked lists; powers of two, for it and for linear hashing |
| `Ipv6Text.dfy`, `Ipv6Methods.dfy`, `Ipv6Form.dfy`, `Ipv6Grammar.dfy` | IPv6 text: round trip, the form that is written and the texts that are read |
| `PduBytes.dfy`, `PduWire.dfy` | byte order, size check and error PDUs; where each field is on the wire |

## What was found

Some promises hold only under a condition. The code is modelled as it is; the condition is
proved to be exact and an example is given.

- Origin validation: a prefix with bits set beyond its length can sit deeper in the trie than
  its length, and the walk then misses it (`EveryTable`, `StrayBitHidesRecord`).
- The trie code reads the bit just past the address when a node sits at the level of the
  address width, which shifts a 32-bit mask by 32 for IPv4 and is excluded by an assertion for
  IPv6 (`ReadsPastAddress`, `InsertReadsInside`, `SomeReadPastAddress`). The model lets such
  reads answer zero; by `PastWidthIsChain` no other answer that depends on the address and
  the level alone would make a difference.
- The ASPA update keeps the old record beside the new one when a customer is replaced by its
  only operation and the batch also names a greater customer (`UpdateMeansFold`, `StaleKept`).
  The header documents announcing an existing customer as a duplicate; the code replaces it.
- The provider search compares by signed 32-bit difference and can miss providers that are
  2^31 or more away (`SearchFindsIff`, `FarProviderMissed`).
- Undoing a failed synchronisation replays the inverses in the order of the PDUs, which
  restores the tables if and only if each record was changed an odd number of times
  (`UndoRestoresIff`, `UndoneInTheWrongOrder`).
- An atomic reset leaves old ASPA records in place when the response has no ASPA PDU
  (`ResetExact`, `OldAspaSurvives`); until then, and as long as updates leave no stale record,
  the ASPA records are in step with the serial number (`AspaMatchSerial`).
- A reset that fails gives up session, time of update and reset mark but keeps the old records
  (`BlankStep`, `BlankWithRecords`, `FailedResetRun`). While the cache goes on announcing one of
  them, every full response is refused and only a stop helps (`FullResponseOnTop`,
  `NeverResynchronises`).
- A Cache Response of a foreign session makes the state fatal but is read on: when its End of
  Data names the socket's own session the data are applied and the socket is established
  (`ResponseExact`, `ForeignSessionAccepted`).
- Stopping the manager closes a group only if it is found to be down when one of its sockets is,
  and a stopped socket is closed by then. A group of two or more running sockets keeps the status
  it had (`StopAllStops`, `StoppedNotClosed`).
- BGPsec validation reads past the last signature when all signatures verify and the origin's
  is at least 13 bytes shorter than the prefix (`ValidateAsPath`, `OverrunBound`,
  `OverrunExample`). No ECDSA signature is that short; the example has a crypto library that
  accepts every signature.
- AS path verification is said to check no hop twice. The hop that ends the minimal up-ramp is
  checked again if it has no attestation (`VerifyUpstream`, `VerifyDownstream`, `CheckedTwice`).
- The IPv6 parser accepts texts of fewer than eight words without "::" and returns words it
  never set (`UnsetIff`, `UnsetExample`).
- rtr_receive_pdu turns a closed connection into a fatal error, so the branch of rtr_sync that
  lowers the version after a close is never taken; the model has no such step.

## Model

| member | source | states |
|---|---|---|
| `Trie.LevelAtMostLength` | rtrlib/pfx/trie/trie.c:57-73 | where no two keys stand for the same prefix, every node sits at a level no deeper than its prefix length: heap order, bit routing and unique keys together bound the level |
| `Trie.PastWidthIsChain` | rtrlib/pfx/trie/trie.c:49-55 | from the level of the address width on, a path holds one prefix with growing lengths, so a read past the address has nothing to choose between |
| `Trie.NoChildPastWidth` | rtrlib/pfx/trie/trie.c:57-73 | where levels fit and no length exceeds the width, a node at that level has no children |
| `Trie.InsertContents` | rtrlib/pfx/trie/trie.c:57-73 | inserting adds exactly one key and its records, wherever the displaced nodes go |
| `Trie.InsertKeepsInv` | rtrlib/pfx/trie/trie.c:57-73 | inserting a new key, canonical or not, keeps heap order, bit routing and unique keys |
| `Trie.LookupExactFinds` | rtrlib/pfx/trie/trie.c:93-122 | the exact lookup finds a key if and only if it is in the trie, at the position it returns |
| `Trie.InsertWhereStopped` | rtrlib/pfx/trie/trie.c:93-122 | inserting at the node where a failed lookup stopped equals inserting at the root |
| `Trie.RemoveRootContents` | rtrlib/pfx/trie/trie.c:124-190 | removing a node by pulling up the shorter child removes exactly that node's key and records |
| `Trie.RemoveRootKeepsInv` | rtrlib/pfx/trie/trie.c:149-190 | pulling children up keeps the invariant |
| `Trie.RemoveKeepsInv` | rtrlib/pfx/trie/trie.c:149-190 | removing a key keeps the invariant and removes exactly that key, or nothing when it is absent |
| `PfxTree.AddInserts` | rtrlib/pfx/trie/trie-pfx.c:224-286 | adding a record with any prefix keeps the invariant, inserts exactly that record, and reports a duplicate if and only if it was there |
| `PfxTree.RemoveDeletes` | rtrlib/pfx/trie/trie-pfx.c:288-337 | removing a record keeps the invariant, deletes exactly that record, and reports not-found if and only if it was absent |
| `PfxTree.SrcRemoveKeepsInv` | rtrlib/pfx/trie/trie-pfx.c:491-539 | removing a socket's records keeps the invariant although children move into the node being visited |
| `PfxTree.SrcRemoveRecords` | rtrlib/pfx/trie/trie-pfx.c:466-539 | exactly the records of the socket are removed |
| `PfxTree.SrcRemoveLog` | rtrlib/pfx/trie/trie-pfx.c:466-539 | every record of the socket is notified exactly once |
| `PfxTree.InOrderOnce` | rtrlib/pfx/trie/trie-pfx.c:541-566 | the traversal visits every record exactly once |
| `OriginValidation.WalkIsComplete` | rtrlib/pfx/trie/trie.c:75-91 | where no node sits deeper than its length the one-path walk meets every covering record of the trie |
| `OriginValidation.ComparesBits` | rtrlib/pfx/trie/trie.c:75-91 | comparing the masked addresses is comparing the bits up to the prefix length |
| `OriginValidation.WalkAgreesWithScan` | rtrlib/pfx/trie/trie-pfx.c:375-457 | where no two records stand for the same prefix with different bits beyond its length, the walk of the trie gives the state that a linear scan gives by section 2 of RFC 6811; the reasons, each once, are exactly all covering records, or for a valid route hold a matching record, all covering records shorter than it and none longer |
| `OriginValidation.WalkIsSound` | rtrlib/pfx/trie/trie-pfx.c:375-457 | in every table, whatever its prefixes: reasons are covering records without repetition, what is called valid is valid with a matching record among the reasons, and what is called invalid has a covering record |
| `OriginValidation.WalkExactIffLevelsFit` | rtrlib/pfx/trie/trie-pfx.c:375-457 | for arbitrary prefixes: the walk meets exactly the covering records of every query if and only if no node sits deeper than its prefix length |
| `TableRuns.EveryTable` | rtrlib/pfx/trie/trie-pfx.c:224-539 | over every sequence of additions, removals and socket removals of arbitrary prefixes: validation is exact for every query if and only if no node sits deeper than its length, and so whenever no two added records stand for the same prefix with different bits beyond its length, in particular when all are canonical |
| `TableRuns.StrayBitHidesRecord` | rtrlib/pfx/trie/trie-pfx.c:375-457 | three records of length 1 that differ only beyond it, for which the walk answers invalid and the scan valid |
| `TableRuns.StrayTreeHides` | rtrlib/pfx/trie/trie.c:57-73 | the table they build has a node deeper than its length and its walk is not exact |
| `TableRuns.ReadsPastAddress` | rtrlib/pfx/trie/trie-pfx.c:418-426 | in a table of canonical prefixes validation reads at most one bit past the address, and it reads it if and only if there is a node at every level of the route's path and none matches; the full address is then stored |
| `TableRuns.InsertReadsInside` | rtrlib/pfx/trie/trie.c:57-73 | adding a prefix to a table where no two stand for the same prefix never reads a bit past the address |
| `TableRuns.SomeReadPastAddress` | rtrlib/lib/utils.c:42-54 | at every width there are tables for which validation, and with one stray bit insertion, read the bit just past the address, which shifts a mask by its whole width |
| `TrieNodes.SwapNodes` | rtrlib/pfx/trie/trie.c:18-33 | two nodes exchange prefix, length and data and nothing else |
| `TrieNodes.AddChildNode` | rtrlib/pfx/trie/trie.c:37-47 | one child link and one parent link change and nothing else |
| `TrieNodes.Insert` | rtrlib/pfx/trie/trie.c:57-73 | the pointer code builds the tree of the insert function, with child and parent links consistent and exactly one node added |
| `TrieNodes.DerefNode` | rtrlib/pfx/trie/trie.c:124-135 | the link from the parent is cut and nothing else changes |
| `TrieNodes.Remove` | rtrlib/pfx/trie/trie.c:149-190 | the pointer code builds the tree of the remove function, keeps all links consistent, and hands back the node that left the trie |
| `TrieNodes.Lookup` | rtrlib/pfx/trie/trie.c:75-91 | the loop returns the first node of the walk at or below its start |
| `TrieNodes.LookupExact` | rtrlib/pfx/trie/trie.c:93-122 | the loop returns the node, level and verdict of the exact lookup |
| `PfxTables.FindElem` | rtrlib/pfx/trie/trie-pfx.c:174-186 | the first equal element, if any |
| `PfxTables.DelElem` | rtrlib/pfx/trie/trie-pfx.c:194-222 | the array without that element, the others in order |
| `PfxTables.DropSocket` | rtrlib/pfx/trie/trie-pfx.c:491-539 | the inner loop removes exactly the socket's elements of a node and logs each |
| `PfxTables.RemoveId` | rtrlib/pfx/trie/trie-pfx.c:491-539 | the recursion with its rechecks of the visited node computes the socket removal |
| `PfxTables.ValidateRoute` | rtrlib/pfx/trie/trie-pfx.c:375-457 | the validation loop computes state and reasons of the walk |
| `PfxTables.PfxTable.constructor` | rtrlib/pfx/trie/trie-pfx.c:70-76 | an empty table |
| `PfxTables.PfxTable.Add` | rtrlib/pfx/trie/trie-pfx.c:224-286 | the table gains exactly the record, whatever its length and the bits beyond it, a duplicate is reported if and only if it was there, and only a success is notified |
| `PfxTables.PfxTable.Remove` | rtrlib/pfx/trie/trie-pfx.c:288-337 | the table loses exactly the record, not-found is reported if and only if it was absent, and only a success is notified |
| `PfxTables.PfxTable.SrcRemove` | rtrlib/pfx/trie/trie-pfx.c:466-489 | both tries lose exactly the socket's records, each notified once |
| `PfxTables.PfxTable.Validate` | rtrlib/pfx/trie/trie-pfx.c:375-457 | whatever the table's prefixes the answer is sound; where no two records stand for the same prefix with different stray bits the state is the linear scan of section 2 of RFC 6811 over the table's records and the reasons are all covering records, up to a match if there is one |
| `PfxReset.ForEach` | rtrlib/pfx/trie/trie-pfx.c:541-598 | every record of the table, once |
| `PfxReset.CopyExceptSocket` | rtrlib/pfx/trie/trie-pfx.c:600-624 | an error is reported if and only if the target already had one of the other sockets' records; the target gains exactly those records, but not the IPv6 ones after an error with the IPv4 ones |
| `PfxReset.Swap` | rtrlib/pfx/trie/trie-pfx.c:626-645 | the contents change places, the callbacks stay |
| `PfxReset.NotifyDiff` | rtrlib/pfx/trie/trie-pfx.c:647-682 | the notifications are exactly the difference between the two tables for the socket, added ones first, each once |
| `AspaVerification.UpstreamByHops` | rtrlib/aspa/aspa_verification.c:77-155 | upstream by ramps means: valid when every hop is to a provider, invalid when some hop is to a non-provider, unknown otherwise |
| `AspaVerification.RampsGap` | rtrlib/aspa/aspa_verification.c:157-284 | the maximal or minimal ramps leave a gap if and only if two hops that end them face each other with an AS between |
| `AspaVerification.VerifyUpstream` | rtrlib/aspa/aspa_verification.c:77-155 | the loop gives the verdict of the draft's ramp definition for every path and every hop oracle; no hop is checked twice, except that the hop which ends the minimal up-ramp is if and only if it has no attestation |
| `AspaVerification.VerifyDownstream` | rtrlib/aspa/aspa_verification.c:157-284 | the two-sided search gives the verdict of the draft's minimal and maximal up-ramps and down-ramps for every path and every hop oracle; no hop is checked twice, except that the hop which ends the minimal up-ramp is if and only if it has no attestation and the path is not valid |
| `AspaVerification.CheckedTwice` | rtrlib/aspa/aspa_verification.c:85-110 | a path of two ASes without attestations whose hop is checked twice |
| `AspaVerification.VerifyAsPath` | rtrlib/aspa/aspa_verification.c:286-298 | the verdict of the chosen direction |
| `AspaVerification.CompressKeepsVerdict` | rtrlib/aspa/aspa_verification.c:49-54 | with every AS its own provider, merging consecutive repetitions of an ASN changes no verdict |
| `AspaTable.ArraySearch` | rtrlib/aspa/aspa_array/aspa_array.c:208-243 | a found index is the one the binary search hits and holds the customer, and otherwise no record does |
| `AspaTable.OneRecordIsHit` | rtrlib/aspa/aspa_array/aspa_array.c:208-243 | where a customer has one record, that is the one hit |
| `AspaTable.BinarySearchAsns` | rtrlib/aspa/aspa_verification.c:19-43 | the loop searches as its comparison by signed 32-bit difference directs it |
| `AspaTable.SearchIsSound` | rtrlib/aspa/aspa_verification.c:19-43 | what the search finds is in the list |
| `AspaTable.SearchFindsIff` | rtrlib/aspa/aspa_verification.c:19-43 | a listed ASN is found if and only if every ASN that a search by the true order compares it with differs from it by no more than the signed difference can tell |
| `AspaTable.CloseProvidersInReach` | rtrlib/aspa/aspa_verification.c:19-43 | lists whose ASNs are all less than 2^31 away from the one asked for are searched correctly |
| `AspaTable.FarProviderMissed` | rtrlib/aspa/aspa_verification.c:19-43 | a sorted list with a listed ASN that the search does not find |
| `AspaTable.CheckHop` | rtrlib/aspa/aspa_verification.c:45-75 | in every store that updates can leave, with stale records too: the answer is membership in the union of the sockets' provider sets if and only if a listed provider is in reach in some list that is hit; no attestation if and only if no socket has the customer |
| `AspaTable.StoreIgnoresRepetition` | rtrlib/aspa/aspa_verification.c:45-75 | verification over a store gives the same verdicts as on the path with repetitions merged |
| `AspaUpdate.SortAsnsSorts` | rtrlib/aspa/aspa.c:282-292 | sorting the providers keeps exactly the providers, in ascending order |
| `AspaUpdate.SortOpsSorts` | rtrlib/aspa/aspa.c:264-280 | sorting a batch gives a permutation in order of the customer |
| `AspaMerge.SortStable` | rtrlib/aspa/aspa.c:264-280 | the operations of one customer keep their order of arrival |
| `AspaUpdate.SortSameEffect` | rtrlib/aspa/aspa.c:264-280 | sorting a batch changes neither whether it is accepted nor what it does |
| `AspaMerge.SkipRecords` | rtrlib/aspa/aspa.c:338-354 | the records below the operation's customer are copied in order |
| `AspaMerge.Compute` | rtrlib/aspa/aspa.c:301-470 | the merge loop computes the pass: new array, notifications, or the failing operation |
| `AspaMerge.RunAgrees` | rtrlib/aspa/aspa.c:301-470 | on a sorted batch the pass reports the first error that applying the operations one by one reports, or notifications that lead from the old map to the folded one |
| `AspaMerge.RunExact` | rtrlib/aspa/aspa.c:301-470 | the new array is the sorted representation of the folded map when no stale record was kept, and is not even strictly sorted otherwise |
| `AspaMerge.UpdateMeansFold` | rtrlib/aspa/aspa.c:472-573 | for every batch in every order of arrival: it fails exactly when folding fails, the notifications replayed on the old map give the new one, and the new array represents the new map if and only if no customer that has a record is announced by its only operation in a batch that also names a greater customer |
| `AspaMerge.UpdateKeepsGood` | rtrlib/aspa/aspa.c:301-470 | every accepted batch leaves the array in order of the customer with sorted providers, also when stale records are in it |
| `AspaMerge.StaleKept` | rtrlib/aspa/aspa.c:427-467 | a batch after which both the old and the new record of a customer are in the array |
| `AspaBatch.FoldTakesTurns` | rtrlib/aspa/aspa.c:301-470 | one by one, a batch is accepted if and only if for each customer announcements and withdrawals take turns, a withdrawal coming first only for a customer with a record; an error names an operation out of turn, an announcement as duplicate, a withdrawal as not found |
| `AspaBatch.UpdateByCustomer` | rtrlib/aspa/aspa.c:301-470 | the same of the merge pass, for every batch in every order of arrival; its notifications lead to the map in which each customer's last operation decides |
| `AspaBatch.ResponseAccepted` | rtrlib/rtr/packets.c:1057-1131 | the ASPA PDUs of a response are accepted if and only if every announcement names a provider and every customer's PDUs take turns |
| `LinearHashing.HighPosition` | third-party/tommyds/tommyhashlin.h:228-252 | the position under the larger mask is the one under the smaller mask, plus the low size if the high bit is set |
| `LinearHashing.SegmentAllocated` | third-party/tommyds/tommyhashlin.h:215-223 | the segment picked by the highest bit of a usable position has been allocated |
| `LinearHashing.Ref` | third-party/tommyds/tommyhashlin.h:228-252 | every hash is sent to one of the buckets in use |
| `LinearHashing.SplitHolds` | third-party/tommyds/tommyhashlin.c:128-178 | splitting a bucket keeps every node in the bucket of its hash, and every hash's nodes in order of insertion |
| `LinearHashing.MergeHolds` | third-party/tommyds/tommyhashlin.c:210-227 | so does appending a high bucket to its low one |
| `LinearHashing.FullySplit` | third-party/tommyds/tommyhashlin.c:168-175 | a completely split table is the same table, unsplit, of twice the size |
| `LinearHashing.FullyMerged` | third-party/tommyds/tommyhashlin.c:229-246 | a completely merged table does not need its upper half |
| `HashLinTable.EnoughBuckets` | third-party/tommyds/tommyhashlin.c:94-250 | through every interleaving of growing, shrinking and turning around there are at least as many buckets in use as nodes, and beyond the initial size at most eight times as many |
| `HashLinTable.Flush` | third-party/tommyds/tommyhashlin.c:148-163 | the nodes of a bucket are divided by their high bit, each half in order |
| `HashLinTable.HashLin.constructor` | third-party/tommyds/tommyhashlin.c:57-73 | an empty stable table of 64 buckets |
| `HashLinTable.HashLin.SplitBucket` | third-party/tommyds/tommyhashlin.c:133-166 | one turn of the grow loop |
| `HashLinTable.HashLin.MergeBucket` | third-party/tommyds/tommyhashlin.c:214-227 | one turn of the shrink loop; the split position never underflows |
| `HashLinTable.HashLin.GrowStep` | third-party/tommyds/tommyhashlin.c:94-180 | growing, or turning a shrink around, ends with a valid table of the same nodes |
| `HashLinTable.HashLin.ShrinkStep` | third-party/tommyds/tommyhashlin.c:185-250 | shrinking, or turning a grow around, ends with a valid table of the same nodes and no more than eight buckets in use for each, unless it has its initial size |
| `HashLinTable.HashLin.Insert` | third-party/tommyds/tommyhashlin.c:252-261 | the table refines the list with the node appended |
| `HashLinTable.HashLin.Search` | third-party/tommyds/tommyhashlin.h:277-288 | found if and only if the list has an equal node |
| `HashLinTable.HashLin.Remove` | third-party/tommyds/tommyhashlin.c:274-294 | the table refines the list without the first equal node |
| `SpkiTables.BucketIsEnough` | rtrlib/spki/hashtable/ht-spkitable.c:146-192 | the matching entries of one bucket are the matching entries of the whole list, in order |
| `SpkiTables.SpkiTable.constructor` | rtrlib/spki/hashtable/ht-spkitable.c:82-89 | an empty table |
| `SpkiTables.SpkiTable.Add` | rtrlib/spki/hashtable/ht-spkitable.c:119-144 | hash table and list gain the entry unless it was there, and only a success is notified |
| `SpkiTables.SpkiTable.Remove` | rtrlib/spki/hashtable/ht-spkitable.c:228-253 | hash table and list lose exactly the entry, the others stay in order, and only a success is notified |
| `SpkiTables.SpkiTable.GetAll` | rtrlib/spki/hashtable/ht-spkitable.c:146-192 | exactly the list entries with that ASN and identifier, in order of insertion, and which these are member by member |
| `SpkiTables.SpkiTable.SearchBySki` | rtrlib/spki/hashtable/ht-spkitable.c:195-226 | exactly the list entries with that identifier, in order |
| `SpkiTables.SpkiTable.SrcRemove` | rtrlib/spki/hashtable/ht-spkitable.c:255-287 | hash table and list lose exactly the socket's entries |
| `SpkiReset.CopyExceptSocket` | rtrlib/spki/hashtable/ht-spkitable.c:289-315 | all other sockets' entries are appended in order, or an error if and only if the target had one of them |
| `SpkiReset.NotifyDiff` | rtrlib/spki/hashtable/ht-spkitable.c:317-359 | the notifications are exactly the difference for the socket, added ones first, each in its table's order |
| `SpkiReset.Swap` | rtrlib/spki/hashtable/ht-spkitable.c:361-380 | the contents change places, the callbacks stay |
| `BgpsecBytes.SequenceSize` | rtrlib/bgpsec/bgpsec_utils.c:110-140 | the computed stream size is the size of the aligned sequence, for validation and for signing |
| `BgpsecBytes.DropHop` | rtrlib/bgpsec/bgpsec_utils.c:243-303 | dropping a signature segment and all of a path segment but its ASN leaves the sequence of the router before |
| `BgpsecBytes.SuffixIsSigned` | rtrlib/bgpsec/bgpsec.c:179-207 | the bytes from the k-th offset on are what the router of the k-th path segment signs for the AS it sent the update to |
| `BgpsecBytes.OriginSize` | rtrlib/bgpsec/bgpsec.c:179-207 | the last offset leaves the origin's 15 bytes and the prefix |
| `Bgpsec.Stream.Write` | rtrlib/bgpsec/bgpsec_utils.c:69-73 | the bytes are appended at the write head |
| `Bgpsec.Align` | rtrlib/bgpsec/bgpsec_utils.c:243-303 | the stream ends up holding exactly the sequence, with no byte to spare; what the sequence says is in BgpsecWire.SequenceSays |
| `Bgpsec.CheckRouterKeys` | rtrlib/bgpsec/bgpsec_utils.c:142-167 | success if and only if every identifier has a router key |
| `Bgpsec.TryKeysValid` | rtrlib/bgpsec/bgpsec.c:223-240 | the key loop ends valid if and only if some key verifies |
| `Bgpsec.LoopGuard` | rtrlib/bgpsec/bgpsec.c:179-180 | the loop goes on after k signatures if and only if one is left or the last one is so short that the offset stays inside the stream |
| `Bgpsec.CheckSignatures` | rtrlib/bgpsec/bgpsec.c:174-248 | every hop is checked over its own suffix; the value is the first failing hop's, or valid |
| `Bgpsec.ValidateAsPath` | rtrlib/bgpsec/bgpsec.c:70-264 | the argument checks in their order; valid if and only if there are as many signatures as path segments, at least one, the algorithm suite is 1, the address family 1 or 2, every signature verifies under some key with its identifier, and the loop stops; a null dereference if and only if all verify and the origin's signature has at most the prefix bytes less 13 |
| `Bgpsec.PrecheckSays` | rtrlib/bgpsec/bgpsec.c:99-121 | which error the checks before any hashing give, each if and only if: no segments, different counts, algorithm suite not 1, address family neither 1 nor 2, an identifier without key |
| `Bgpsec.OverrunBound` | rtrlib/bgpsec/bgpsec.c:179-189 | four octets of signature are enough for every prefix of at most 128 bits, three are not for the longest |
| `Bgpsec.OverrunExample` | rtrlib/bgpsec/bgpsec.c:179-189 | an update, a key and a crypto library that accepts every signature for which validation dereferences null |
| `Bgpsec.GenerateSignature` | rtrlib/bgpsec/bgpsec.c:266-378 | each error if and only if its condition holds, in the order of the checks; a load error if and only if the key does not load or has no signature size; otherwise the signature over the hash of the sequence for signing, or a signing error if and only if there is none |
| `Bgpsec.AnnouncedSigned` | rtrlib/bgpsec/bgpsec.c:407-419 | along a path built hop by hop each router signs exactly what a validator hashes for it |
| `Bgpsec.SignedPathVerifies` | rtrlib/bgpsec/bgpsec.c:70-264 | a path signed hop by hop with key pairs whose public halves are in the table passes all checks and every signature verifies |
| `BgpsecWire.SignedSays` | rtrlib/bgpsec/bgpsec_utils.c:243-303 | every field of what is signed at its offset: target AS, each signature and path segment, algorithm suite, address family, prefix length and prefix |
| `BgpsecWire.HopSays` | rtrlib/bgpsec/bgpsec_utils.c:243-303 | what the router of each hop signed, field by field: the AS it sent the update to, the path up to it, the signatures before its own, and the prefix |
| `BgpsecWire.SequenceSays` | rtrlib/bgpsec/bgpsec_utils.c:243-303 | the same of what a validator hashes first and of what is signed |
| `BgpsecWire.SaysOneThing` | rtrlib/bgpsec/bgpsec_utils.c:243-303 | equal bytes with equal numbers of segments have the same target, path, signatures, algorithm suite, address family and prefix |
| `BgpsecWire.ValidWasSigned` | rtrlib/bgpsec/bgpsec.c:70-264 | if the table's keys verify only digests of a set of signed messages and no two messages have one digest, each hop's bytes of an update that verifies are among them, and any update signed with those bytes is the same announcement up to that hop |
| `BgpsecWire.ReplacedPrefixDiffers` | rtrlib/bgpsec/bgpsec_utils.c:243-303 | another prefix changes what every hop's signature is over |
| `SyncUndo.Toggles` | rtrlib/rtr/packets.c:938-994 | each accepted change of a record turns its presence around |
| `SyncUndo.LastInverseWins` | rtrlib/rtr/packets.c:727-778 | replaying inverses in forward order undoes only the last change of each record |
| `SyncUndo.UndoRestoresIff` | rtrlib/rtr/packets.c:750-778 | the undo restores the table if and only if every record occurs in the applied part an odd number of times |
| `SyncUndo.DistinctIsOdd` | rtrlib/rtr/packets.c:750-822 | a batch that names each record once can be undone |
| `SyncUndo.DeltaApplies` | rtrlib/rtr/packets.c:938-994 | a merged difference is accepted whole and leads from the one set to the other |
| `SyncTables.UpdateAllOrNothing` | rtrlib/rtr/packets.c:1133-1240 | success if and only if every PDU is accepted; after an error the ASPA records are untouched and each other table is as before if and only if its applied changes occur an odd number of times per record |
| `SyncTables.DistinctBatchRestores` | rtrlib/rtr/packets.c:1133-1240 | an error in a batch that names each record once leaves all three tables as they were |
| `SyncTables.UndoneInTheWrongOrder` | rtrlib/rtr/packets.c:1133-1180 | in every table and for every record not in it: announced, withdrawn and withdrawn again in one response, the refused response leaves the record in |
| `SyncTables.OthersUntouched` | rtrlib/rtr/packets.c:1133-1240 | the update never touches other sockets' records |
| `SyncTables.DeltaUpdates` | rtrlib/rtr/packets.c:1133-1240 | an honest difference leaves the socket with the new data, or everything as it was |
| `SyncMethods.UpdatePfx` | rtrlib/rtr/packets.c:938-994 | one prefix PDU on the mutable table: announced if absent, withdrawn if present, refused otherwise and for any other flags; no other record changes |
| `SyncMethods.UndoPfx` | rtrlib/rtr/packets.c:727-744 | the inverse of one prefix PDU: the record is there afterwards if and only if it was a withdrawal, and no other changes |
| `SyncMethods.UpdatePrefixes` | rtrlib/rtr/packets.c:1147-1180 | the IPv4 and IPv6 loops: all changes made, or the accepted ones taken back in forward order |
| `SyncMethods.UpdateKey` | rtrlib/rtr/packets.c:996-1055 | the same for one router key PDU |
| `SyncMethods.UndoKeys` | rtrlib/rtr/packets.c:784-822 | the inverses of the router key PDUs in forward order |
| `SyncMethods.ComputeAspa` | rtrlib/rtr/packets.c:1057-1131 | no change without PDUs, an error for an announcement without providers, else the merge |
| `SyncMethods.UpdateTables` | rtrlib/rtr/packets.c:1133-1240 | the whole update of the three mutable tables computes the function the theorems are about |
| `ResetMethods.MakeShadow` | rtrlib/rtr/packets.c:1437-1489 | shadow tables hold exactly the other sockets' records |
| `ResetMethods.ResetAll` | rtrlib/rtr/packets.c:1433-1534 | the reset of the mutable tables; notifications are exactly the socket's gained and lost records, each once, and none after a failure |
| `RtrRuns.ResetExact` | rtrlib/rtr/packets.c:1433-1534 | for every response: the reset succeeds if and only if the response applies to an empty table; then the socket has exactly the response's prefixes and router keys and the others' records stay, its ASPA records are the response's if and only if the response has any or there were none; otherwise nothing changes |
| `RtrRuns.OldAspaSurvives` | rtrlib/rtr/packets.c:1492-1498 | a table and a response without ASPA PDUs: the reset succeeds and the old ASPA record stays |
| `RtrResponse.StoredIsSaid` | rtrlib/rtr/packets.c:831-936 | the stored lists are exactly what the PDUs of the response say, kind by kind and in order |
| `RtrResponse.NothingLost` | rtrlib/rtr/packets.c:1370-1425 | there are as many stored changes as data PDUs, and each prefix, router key and ASPA PDU is in the list of its kind |
| `RtrSocketClass.RtrSocket.constructor` | rtrlib/rtr/rtr.c:65-101 | the initial fields |
| `RtrSocketClass.RtrSocket.Receive` | rtrlib/rtr/packets.c:449-590 | the version never rises and changes only with the first PDU of a connection; a delivered PDU has the socket's version or is an error report, and leaves the state; the state changes only for a broken or failing connection |
| `RtrSocketClass.RtrSocket.HandleError` | rtrlib/rtr/packets.c:592-651 | the version never rises, a fast reconnect is chosen if and only if it goes down, and then to the supported version of the PDU |
| `RtrSocketClass.RtrSocket.HandleCacheResponse` | rtrlib/rtr/packets.c:653-676 | a reset is newly marked if and only if a session was asked for and there was an update before; a socket with a session keeps everything, and a foreign session makes the state fatal |
| `RtrSocketClass.RtrSocket.EndSync` | rtrlib/rtr/packets.c:1422-1546 | the session check, then update or atomic reset of the tables, serial number only on success |
| `RtrSocketClass.RtrSocket.ReceiveAndStore` | rtrlib/rtr/packets.c:1332-1559 | the receive loop stores data PDUs in order and ends at End of Data, an error or a failure; what is then stored is in RtrResponse.StoredIsSaid, and what is accepted in RtrTurns.ResponseExact |
| `RtrSocketClass.RtrSocket.SyncOnce` | rtrlib/rtr/packets.c:1562-1630 | one synchronisation |
| `RtrSocketClass.RtrSocket.Purge` | rtrlib/rtr/rtr.c:141-162 | expired records leave all three tables and the session is given up |
| `RtrSocketClass.RtrSocket.Turn` | rtrlib/rtr/rtr.c:203-319 | one turn of the state machine, with the query it sends; which query that is in each state is in RtrRuns.EveryRun and RtrTurns.SmoothTurn |
| `RtrSocketClass.RtrSocket.Stop` | rtrlib/rtr/rtr.c:322-343 | the socket's records leave the tables and its session ends |
| `RtrRuns.EveryRun` | rtrlib/rtr/rtr.c:182-320 | along every run, whatever the cache sends: the version stays supported and never rises, each fast reconnect lowers it and there are at most two, an established socket has a session; whenever the socket starts to synchronise it has sent a query, a Serial Query exactly with its session id and serial number if it has a session, a Reset Query if it has none |
| `RtrRuns.VersionNeverRises` | rtrlib/rtr/packets.c:480-494 | the version at a later point of a run is never higher than at an earlier one |
| `RtrRuns.OthersNeverChange` | rtrlib/rtr/rtr.c:182-320 | along every run of one socket the other sockets' records in the shared tables never change |
| `RtrTurns.ReceiveExact` | rtrlib/rtr/packets.c:449-590 | the version goes down if and only if this is the first header of the connection, not of an error PDU, with a lower version, and then to it; a PDU is delivered if and only if it came whole, in the socket's version unless it is an error PDU, and ASPA only in version 2 |
| `RtrTurns.ErrorExact` | rtrlib/rtr/packets.c:592-651 | no data available if and only if the code is 2, a reconnect with the PDU's version if and only if the code is 4 and the version is lower, fatal otherwise; nothing but state and version changes |
| `RtrTurns.ResponseExact` | rtrlib/rtr/packets.c:1562-1630 | every whole response of any cache: it is accepted if and only if its End of Data names the session that counts and what its PDUs say applies, to the tables or, after an earlier update, to tables without the socket's records; then session and serial number are the response's, and otherwise the serial number stays and the state is fatal |
| `RtrTurns.AcceptedOnly` | rtrlib/rtr/packets.c:1332-1630 | nothing else is accepted: apart from Serial Notify the PDUs are one Cache Response, data and one End of Data, all whole |
| `RtrTurns.ForeignSessionAccepted` | rtrlib/rtr/packets.c:653-676 | a Cache Response of a foreign session whose data are applied |
| `RtrTurns.ExpiredLeave` | rtrlib/rtr/rtr.c:141-162 | in the turns that look at the time, all of the socket's records leave the tables and the session is given up if and only if the records are expired; the other sockets' records stay |
| `RtrTurns.StopAndStart` | rtrlib/rtr/rtr.c:322-343 | stopping removes the records and gives up session, serial number and time of update; starting only connects |
| `RtrTurns.OtherTurnsKeepTables` | rtrlib/rtr/rtr.c:203-319 | all other turns but a synchronisation leave the tables |
| `RtrTurns.SmoothTurn` | rtrlib/rtr/rtr.c:203-319 | in each state, the next state and the query sent when nothing fails |
| `RtrTurns.BackInThree` | rtrlib/rtr/rtr.c:203-319 | from every state but closed at most three turns in which nothing fails lead to a synchronisation, with the query sent that fits the socket and the tables as they were |
| `RtrTurns.FailingTurn` | rtrlib/rtr/rtr.c:203-245 | the state after a connection that does not open or a query that is not sent |
| `RtrTurns.EstablishedTurn` | rtrlib/rtr/packets.c:1632-1678 | an established socket asks for news if and only if its time is up or it gets a Serial Notify |
| `RtrTurns.HonestAccepted` | rtrlib/rtr/packets.c:1562-1630 | an honest response that arrives whole is accepted if and only if its ASPA PDUs apply, always after a reset, and the socket then has exactly the cache's prefixes and router keys |
| `RtrHonest.CollectHonest` | rtrlib/rtr/packets.c:1332-1559 | reading an honest response, cut anywhere or interrupted between PDUs, either changes nothing or reaches its end with all of it stored |
| `RtrHonest.ResetHonest` | rtrlib/rtr/packets.c:1433-1534 | an honest full response to a Reset Query is always accepted and leaves the socket with exactly that data |
| `RtrHonest.SyncHonest` | rtrlib/rtr/packets.c:1562-1630 | one call of rtr_sync keeps the records in step with session and serial, also when it meets the rest of a response given up before |
| `RtrHonest.RecordsMatchSerial` | rtrlib/rtr/rtr.c:182-343 | over every run against a cache that answers the queries the socket sends as section 8 of RFC 8210 says, the meaning of a response being that of its PDUs, connections cut anywhere: while the socket has a session its prefixes and router keys are the cache's data at exactly its session id and serial number; while it has none, was never updated and no reset is under way, it has no records |
| `RtrHonest.HonestRunExists` | rtrlib/rtr/rtr.c:182-320 | such runs exist and get somewhere: one starts with nothing and ends established with exactly the cache's record |
| `RtrStale.MarksInEveryRun` | rtrlib/rtr/rtr.c:141-320 | over every run with any cache: a reset is marked only without session and time of update, and a socket with a session has been updated |
| `RtrStale.BlankStep` | rtrlib/rtr/packets.c:1422-1546 | any step after which a socket has no session, no time of update and no reset mark: its records are gone after a stop, are what the forward undo leaves after a refused update, and are those from before otherwise; only a stop and a refused reset lead there |
| `RtrStale.BlankWithRecords` | rtrlib/rtr/rtr.c:182-343 | over every run with any cache, such a socket has records only because a reset was refused while it had some, or an update after changing a record an even number of times, and it was not stopped since |
| `RtrStale.FailedResetRun` | rtrlib/rtr/packets.c:1433-1534 | a run that gets there: synchronised with one record, told to start over, given that record twice; it ends without session, time of update and reset mark, with the record still in the table |
| `RtrStale.FullResponseOnTop` | rtrlib/rtr/packets.c:1133-1240 | a full response on top of kept records is refused, changing nothing, if and only if it shares a prefix or router key with them or its ASPA PDUs do not apply; otherwise the kept records stay beside the new ones |
| `RtrStale.NeverResynchronises` | rtrlib/rtr/rtr.c:141-320 | while an honest cache keeps announcing a kept record, no step but a stop changes the tables or establishes the socket: every full response is refused and the records never expire |
| `RtrStale.FailedResetIsStuck` | rtrlib/rtr/rtr.c:141-320 | the run above ends in that situation |
| `RtrAspa.AspaMatchSerial` | rtrlib/rtr/packets.c:1057-1240 | over every run against an honest cache that answers the queries sent: the ASPA records are the cache's at the socket's session and serial number as long as every accepted response was clean, and the first that is not puts them out of step; a reset is clean if it has ASPA PDUs or there are no old records, an update if it leaves no stale record |
| `GroupManager.CallbackKeepsGood` | rtrlib/rtr_mgr.c:154-275 | every callback of a running socket keeps preferences sorted, everything below an established group closed, and closed groups idle |
| `GroupManager.ClosesLess` | rtrlib/rtr_mgr.c:96-115 | closing the less preferable groups stops their sockets and makes the group exclusive |
| `GroupManager.ErrorKeepsGood` | rtrlib/rtr_mgr.c:228-241 | starting the best inactive group after an error keeps the invariant; that it is started is in Failover.FailureStartsBackup |
| `GroupManager.SortUnique` | rtrlib/rtr_mgr.c:277-287 | after sorting the preferences increase strictly if and only if they were unique |
| `GroupManager.AddKeepsGood` | rtrlib/rtr_mgr.c:592-665 | adding a group keeps the invariant |
| `GroupManager.RemoveKeepsGood` | rtrlib/rtr_mgr.c:668-721 | removing a group keeps the invariant |
| `GroupManager.AtMostOneEstablished` | rtrlib/rtr_mgr.c:171-217 | at most one group is established |
| `GroupManager.EveryRunIsExclusive` | rtrlib/rtr_mgr.c:96-721 | over every run of callbacks, starts, stops, additions and removals: preferences stay sorted and unique, and below an established group every group is closed with no socket running |
| `Failover.FailureStartsBackup` | rtrlib/rtr_mgr.c:228-241 | after a failing socket's callback its group is in error; if no other group is established, exactly the closed group with the least preference is started, with all its sockets; nothing else changes |
| `Failover.EstablishedTakesOver` | rtrlib/rtr_mgr.c:171-217 | a group becomes established if and only if all its sockets have data and it was connecting, or in error with every more preferable group in error or closed; then exactly the open less preferable groups are stopped and closed; nothing else changes |
| `Failover.OtherCallbacks` | rtrlib/rtr_mgr.c:219-226 | a connecting socket makes its group connecting unless it is in error; every other callback changes the socket only |
| `Failover.StartIs` | rtrlib/rtr_mgr.c:57-68 | a started group is connecting and every socket has a thread |
| `Failover.StopIs` | rtrlib/rtr_mgr.c:96-115 | a closed group has no socket with a thread and no time of update left of those that had one |
| `Failover.StartBestStarts` | rtrlib/rtr_mgr.c:640-721 | after an addition or a removal the group with the least preference is started if and only if it is closed |
| `Failover.AddedIs` | rtrlib/rtr_mgr.c:592-665 | an addition is refused, changing nothing, if and only if the preference is taken; otherwise the group is new, closed unless it is the best, the best group is not closed, and the others stay |
| `Failover.RemovedIs` | rtrlib/rtr_mgr.c:668-721 | a removal is refused, changing nothing, if and only if the group is the last or there is none; otherwise it is gone, the best of the others is not closed, and the rest stay |
| `Failover.StopAllStops` | rtrlib/rtr_mgr.c:575-589 | stopping ends every socket of every group, and closes a group if and only if at one of its sockets those before it had no thread and those after it were shut down |
| `Failover.StoppedNotClosed` | rtrlib/rtr_mgr.c:154-169 | of the groups whose sockets all run, stopping closes only those with one socket |
| `ManagerClass.Init` | rtrlib/rtr_mgr.c:298-355 | groups are accepted if and only if there are some, each has a socket and no two have the same preference |
| `ManagerClass.StartSockets` | rtrlib/rtr_mgr.c:57-68 | all sockets are started, or an error if and only if one was running |
| `ManagerClass.Manager.CloseLessPreferable` | rtrlib/rtr_mgr.c:96-115 | the loop closes exactly the open less preferable groups |
| `ManagerClass.Manager.BestInactiveGroup` | rtrlib/rtr_mgr.c:117-134 | the first other closed group |
| `ManagerClass.Manager.HandleEstablished` | rtrlib/rtr_mgr.c:171-217 | the group becomes established under the conditions of its old status |
| `ManagerClass.Manager.HandleState` | rtrlib/rtr_mgr.c:243-275 | the callback computes the function of the theorems, which Failover describes without it, and keeps the invariant |
| `ManagerClass.Manager.Start` | rtrlib/rtr_mgr.c:470-476 | the best group is started |
| `ManagerClass.Manager.Stop` | rtrlib/rtr_mgr.c:575-589 | all sockets of all groups are stopped |
| `ManagerClass.Manager.Add` | rtrlib/rtr_mgr.c:592-665 | an existing preference is refused; otherwise the group is sorted in and the best group started if it is closed |
| `ManagerClass.Manager.Remove` | rtrlib/rtr_mgr.c:668-721 | success if and only if the group exists and is not the last one |
| `ListSort.LinkBefore` | third-party/tommyds/tommychain.h:60-81 | a node is linked in before another, all inner links correct |
| `ListSort.Merge` | third-party/tommyds/tommychain.h:86-113 | the nodes of two chains are relinked in the order of a stable merge |
| `ListSort.MergeStable` | third-party/tommyds/tommychain.h:86-113 | nodes of equal key keep their order, those of the first chain first |
| `ListSort.MergeDegenerated` | third-party/tommyds/tommychain.h:119-137 | concatenating chains that need no interleaving gives the same merge |
| `ListSort.StoreCarry` | third-party/tommyds/tommychain.h:195-203 | storing the carry keeps the binary counter: bucket i holds 2^i nodes if and only if bit i of the count is set |
| `ListSort.AddNode` | third-party/tommyds/tommychain.h:174-203 | one more node in the buckets, whose nodes are a stable permutation of the nodes so far |
| `ListSort.MergeSort` | third-party/tommyds/tommychain.h:156-221 | a sorted, stable permutation with correct inner links |
| `ListSort.SameByKeyPermutes` | third-party/tommyds/tommychain.h:141-155 | equal order per key makes a permutation |
| `ListSort.Sort` | third-party/tommyds/tommylist.c:41-59 | the list is sorted, stable, its head's prev is the tail and its tail's next is null |
| `Ipv6Text.RoundTrip` | rtrlib/lib/ipv6.c:82-214 | parsing the text of an address gives the address, for every address, with the run of zeros at either end, in the middle or everywhere, and with embedded IPv4 |
| `Ipv6Text.DottedReads` | rtrlib/lib/ipv4.c:26-51 | dotted octets are read back |
| `Ipv6Grammar.UnsetIff` | rtrlib/lib/ipv6.c:82-151 | the parser succeeds without having set all words if and only if the text is fewer than eight words with single colons between them |
| `Ipv6Grammar.UnsetExample` | rtrlib/lib/ipv6.c:82-151 | the empty text and a text of two words are accepted that way |
| `Ipv6Methods.FindRun` | rtrlib/lib/ipv6.c:166-184 | the first of the longest runs of zero words |
| `Ipv6Methods.Format` | rtrlib/lib/ipv6.c:199-211 | the words with the run written as one double colon |
| `Ipv6Methods.TextFits` | rtrlib/lib/ipv6.c:156-159 | the text and its terminator fit INET6_ADDRSTRLEN |
| `Ipv6Methods.AddrToStr` | rtrlib/lib/ipv6.c:156-214 | an error if and only if the buffer is too small; otherwise the first longest run of at least two zero words is compressed, the text fits, and parsing gives the address back |
| `Ipv6Methods.ReadWord` | rtrlib/lib/ipv6.c:104-119 | the value of up to four hexadecimal digits, an error for a fifth |
| `Ipv6Methods.Fill` | rtrlib/lib/ipv6.c:137-144 | the words behind the double colon move to the end and zeros take their place |
| `Ipv6Methods.StrToAddr` | rtrlib/lib/ipv6.c:82-151 | the loops compute the parser of the round trip and put its words together to the four numbers of the address |
| `Ipv6Form.CanonicalForm` | rtrlib/lib/ipv6.c:156-214 | the text has lower-case digits, colons and dots only, a double colon if and only if two zero words are next to each other, and dots if and only if the address is IPv4-compatible or IPv4-mapped |
| `Ipv6Form.HexForm` | rtrlib/lib/ipv6.c:199-211 | a word is written without leading zeros |
| `Ipv6Form.OneText` | rtrlib/lib/ipv6.c:156-214 | each address has one text |
| `Ipv6Grammar.SpellsIs` | rtrlib/lib/ipv6.c:104-119 | one to four digits of either case are read as the number they spell, digit by digit |
| `Ipv6Grammar.NumbersAre` | rtrlib/lib/ipv6.c:104-119 | the same for every word of a text |
| `Ipv6Grammar.ReadAs` | rtrlib/lib/ipv6.c:82-151 | every text of words with single colons, and one double colon or none, is read as those words with zeros for the double colon |
| `Ipv6Grammar.ReadOnly` | rtrlib/lib/ipv6.c:82-151 | every text without a dot that is read is of that form |
| `Ipv6Grammar.CaseIsIgnored` | rtrlib/lib/ipv6.c:104-119 | upper-case and lower-case texts are read alike |
| `PduBytes.FieldsFit` | rtrlib/rtr/packets.c:189-271 | the fields converted for each type lie inside the PDU and do not overlap |
| `PduBytes.WellSizedPasses` | rtrlib/rtr/packets.c:305-414 | every well-sized PDU passes the receiver's size check |
| `PduBytes.PassedIsWellSized` | rtrlib/rtr/packets.c:305-414 | what passes the size check is of a known type and has every nested length inside its length |
| `PduBytes.ByteOrderRoundTrip` | rtrlib/rtr/packets.c:178-297 | host to network and back is the identity for well-sized PDUs of every type |
| `PduBytes.ErrorPduContents` | rtrlib/rtr/packets.c:1680-1726 | an error PDU carries the whole text and as much of the erroneous PDU as there is room for |
| `PduBytes.ErrorPduPasses` | rtrlib/rtr/packets.c:1680-1726 | every error PDU, truncated or not, has at most 65535 bytes and passes the receiver's size check |
| `PduBytes.ErrorsEnd` | rtrlib/rtr/packets.c:1680-1726 | nothing is sent if and only if the erroneous PDU is an error PDU, however much of it is cut off, so what is sent is never answered with an error PDU again |
| `PduBytes.SendConversion` | rtrlib/rtr/packets.c:283-287 | the buffer is converted in place |
| `PduBytes.ReceiveConversion` | rtrlib/rtr/packets.c:289-292 | the buffer is converted in place and is then well-sized |
| `PduWire.SentInNetworkOrder` | rtrlib/rtr/packets.c:178-287 | on the wire every 32-bit field is at the offset section 5 of RFC 8210 gives for its type, most significant octet first; every other octet after the header is as in memory |
| `PduWire.ReceivedInHostOrder` | rtrlib/rtr/packets.c:189-292 | and a received PDU has every such field in host order afterwards |
| `PduWire.ErrorInNetworkOrder` | rtrlib/rtr/packets.c:189-271 | the same for error PDUs, whose second length is found behind the encapsulated PDU |
| `PduWire.ErrorInHostOrder` | rtrlib/rtr/packets.c:189-292 | and when one is received |
| `PduWire.HeaderOnWire` | rtrlib/rtr/packets.c:178-187 | the header: the length, and the 16-bit field except for router keys and ASPA |
| `PduWire.PassesIff` | rtrlib/rtr/packets.c:305-414 | exactly the PDUs of at most 65535 octets with the size that section 5 gives their type and version pass |
| `PduWire.SerialQueryOnWire` | rtrlib/rtr/packets.c:1763-1779 | the twelve octets of a Serial Query with its session id and serial number |
| `PduWire.ResetQueryOnWire` | rtrlib/rtr/packets.c:1781-1795 | the eight octets of a Reset Query |
| `PduWire.ErrorPduOnWire` | rtrlib/rtr/packets.c:1680-1726 | the version, type and error code of an error PDU on the wire |
| `PduWire.ErrorPduHolds` | rtrlib/rtr/packets.c:1680-1726 | it has the erroneous PDU and the whole text, or 65535 octets with as much of the erroneous PDU as there is room for |

## Left out

- HashLinTable.HashLin.Insert: covers fewer than 2^28 nodes, below which no 32-bit counter of the table overflows.
- SpkiTables.SpkiTable.Add: covers fewer than 2^28 entries, as the hash table does.
- SyncMethods.UpdateTables: covers router key tables that stay below 2^28 entries.
- ResetMethods.ResetAll: covers router key tables that stay below 2^28 entries.
- RtrSocketClass.RtrSocket.ReceiveAndStore: covers input that is long enough for the call to return, since the C call blocks until then.
- RtrSocketClass.RtrSocket.Turn: the clock is a choice of the surroundings (records expired or not) and sleeping is not modelled; the intervals of End of Data PDUs, which change no other field, are left out.
- Bgpsec.ValidateAsPath: covers updates whose sequence is shorter than 65536 bytes, the size of the C stream, and whose segment counters match the lists.
- Bgpsec.GenerateSignature: covers sequences shorter than 65536 bytes; the private key and the signature functions are those of the crypto library.
- ManagerClass.Manager.HandleState: the callback of a shutdown is part of rtr_stop, which is one step (`StopSockets`), and is not among these.
- ListSort.Sort: covers lists of fewer than 2^32 nodes, the range of the C counter.
- Ipv6Text.RoundTrip: the IPv4 part is read as digits and dots only; the spaces and signs that sscanf would also accept are not modelled.
- RtrHonest.RecordsMatchSerial: is about prefixes and router keys; for ASPA records, which a reset can leave in place, see `RtrAspa.AspaMatchSerial`.
- RtrHonest.CollectHonest: an interruption is one between PDUs. A read interrupted inside a PDU loses the bytes read so far, and what follows on that connection is then no longer what the cache sent.
- RtrHonest.SyncHonest: the same.
- RtrStale.NeverResynchronises: the same.
- RtrAspa.AspaMatchSerial: the same.
- AspaMerge.UpdateMeansFold: covers arrays without stale records; what an update makes of an array with stale records is left at `UpdateKeepsGood`.
- The lists of hash buckets and of SPKI entries are sequences; their pointers are modelled for the list sort only. Segments of the hash table are one sequence of buckets.
- Threads and locks: a table operation, a callback and a turn of the state machine are each one step. A socket that is shut down while a turn is under way is not modelled.
- Failed allocations, and who frees provider arrays and nodes.
- Transports, logging, and the callbacks' own behaviour.
- Tables that are not configured, and builds without a feature. In builds with assertions a lookup that compares a prefix of length 0 fails `assert(number > 0)` of rtr_get_bits; the model is of builds without.
- aspa_array_insert and aspa_array_remove, which the update does not use, and rtr_ipv6_get_bits for ranges that start inside a word.
- Hashing, signing and verification are arbitrary functions; the mixing of tommy_inthash_u32 too.
- The other containers of tommyds, the tools and the forwarding functions of rtr_mgr.c.
