# A verified model of the chain-replicated table

The repository is a key-value store kept by a chain of servers. Each server holds a hash table of sorted linked
lists; a PUT or DEL enters at the head, is applied there and passed on to the next server, and reads go to the tail.
Servers find their neighbours by sorting the ids that ZooKeeper lists, and a server that joins merges the whole table
of its predecessor. This project models that program in Dafny and proves what it keeps.

`dafny verify dfyconfig.toml` checks everything.

## How it is built

Storage, on the heap:

- `CString` - `strcmp` order and `hash_code` with signed `char` and C's remainder.
- `EntrySeq` - key-sorted entry sequences, one functional insert and delete, the map they stand for.
- `Lists` - the mutable sorted list: nodes, the redundant `size`, all code paths of `list_add`.
- `Buckets`, `Tables` - the rows as values and the map they represent; the mutable table that refines it.

Servers, on the heap:

- `Sorting`, `Topology` - the bubble sort and the links every server computes on its own.
- `Updates` - updates as values, and `Propagate`: what one forwarded request does to a row of replicas.
- `Servers` - `invoke` with its forwarding and retry loops, the client stub, `select_next_server` and
  `select_prev_server` with the merge. `Server.row` and `Server.stores` are the ghost record of the servers from here
  to the end of the chain and of their replicas; `Invoke` is proved to change the replicas exactly by `Propagate`.
  Requests and replies travel in frames and are lost when they do not fit one.
- `Clients` - the links that all servers select make one row (`ConnectTheChain`, `LinksLeadThroughTheChain`), whose ends
  are the client's head and tail; a client that writes at the one and reads at the other.

The protocol, over the replicas' maps:

- `Merging` - merges between neighbours, in one round from head to tail and in any order.
- `Protocol` - whole runs of requests, joins, link renewals, merges and crashes, one request at a time. Its request step
  is `Propagate` on the reachable servers (`DeliverIsPropagate`), its merge steps are those of `Merging`
  (`MergeStepsMergeStores`). A request that meets a dead connection stops every server it has reached. A server whose
  merge gets no reply stops too, which is a crash step.
- `InFlight` - several updates under way at once, in every interleaving with merges and with servers that stop at any
  moment. `network_send_receive` answers NULL when the far server is gone, and `rtable_put` and `rtable_del` read that
  answer unchecked (`source/client_stub.c:53` and `:86`), so a server that stops takes with it everyone upstream who
  waits for it, while what is open behind it goes on.
- `Refinement` - the runs of `Protocol` are runs of `InFlight` in which nothing comes between the steps of a request.
- `Repair` - what merges repair in such runs.

Around it: `Codec` (the key-array buffer), `Framing` (length-prefixed messages over partial writes) and `Registry`
(the server's register of client threads, kept in a `Lists.List`).

## Findings

Some properties one would expect do not hold of the code as it is. Each is stated with the exact condition under
which it does.

- `hash_code` adds plain `char`s. A key whose signed characters sum below zero can hash to a negative row
  (`NonAsciiKeyCanMissTheTable`); a key is usable on tables of every size exactly when the sum is not negative
  (`HashableEverywhereExactly`).
- A joining server that merges before its predecessor has connected to it misses the updates acknowledged in between
  (`LateLinkBreaksAgreementExactly`; `MergedBeforeLinked` is a run that leads there).
- An acknowledged update is lost when the head crashes before its successor has merged (`HeirWithoutMerge`); this
  happens exactly when the successor counts fewer keys (`HeadCrashKeepsUpdatesExactly`).
- After a crash, one update that meets the dead connection before the watch fires stops every server from the head to
  that connection; what was acknowledged is kept exactly if the first server behind counts as many keys as the head did
  (`CrashInMidChain`, `DeadConnectionKeepsUpdatesExactly`). If it was the tail that crashed, one update leaves nobody
  (`OneRequestStopsTheChain`).
- A PUT that a merge has carried ahead of its request stays behind when the servers that had the request open stop
  (`PutLeftByACrash`). One round of merges from head to tail spreads it (`AnyRunIsRepairedExactly`); other orders need
  not (`WrongOrderLeavesTheTailStale`). Merges in any order bring every replica up to date exactly if the positions from
  the first stale replica to the tail occur among them in turn (`AnyOrderRepairsExactly`, `MergesAfterAnyRunExactly`).
- A DEL, in contrast, is never cut off half way by servers that stop (`NoDeletionIsCut`). But a merge only adds, so that
  a key can outlive its DEL downstream when the DEL comes before the connection to a server that has merged
  (`LateLinkKeepsADeletedKey`) or overlaps a merge (`OverlappedMergeBringsBack`). No further DEL reaches it there, but a
  PUT followed by a DEL does (`StaleKeyNeedsAPut`): a client's GET still finds the key after its DEL exactly if the tail
  held it and some server did not (`DelThenGet`).
- A merge that overlaps an update can bring an old value or a deleted key back (`OverlappedMergeAgreesExactly`,
  `OverlappedMergeBringsBack`).
- Of two requests for one key the second can overtake the first behind the head. Then the replicas stay different
  (`OvertakenPutIsLost`), unless the two are the same update, or the first puts a new key, the second deletes it, and
  one of the retries of the refused DEL comes after the PUT (`OvertakingAgreesExactly`).
- A message arrives as it was sent exactly if it has 1 to 32767 bytes (`FrameRoundTripExactly`). From 32768 to 65535
  bytes it is announced and nothing follows (`LongMessageIsLost`). From 65536 bytes on only the low 16 bits of the
  length are announced; if they are a positive short, that many bytes follow, and in `network_send` packing the
  message has already overrun the buffer of that size.
- So a server that joins behind a table whose GETTABLE reply packs to more than 32767 bytes gets no table: the stub
  reads the missing reply through a null pointer and the joining server stops. It merges exactly if that reply and the
  request fit a frame (`MergeFrom`, `SelectPrevServer`); whatever the packing, more than 32767 bytes of keys and
  values are too many (`LargeTableNeverArrives`). A PUT whose request packs to more changes nothing and stops its
  caller (`RtablePut`, `PutThenGet`).
- The buffer for a client's register key `thread_n` is one character short exactly when n is a power of ten, the first
  client included (`KeyBufferFitsExactly`).

Where comments and code differ, the code is followed: `network_send` returns the number of bytes written, not 0
(`include/network_server.h`), and `rtable_get_keys` and `rtable_get_table` return NULL for an empty table as well as
for an error (`include/client_stub.h`).

## Model

| member | source | states |
|---|---|---|
| CString.StrCmpSign | source/entry.c:114-137 | comparing two keys gives 0 only for equal keys, and swapping them flips the sign |
| CString.LessTransitive | source/entry.c:126-136 | the key order used by every list is transitive |
| CString.LessMeansFirstDifference | source/entry.c:126 | the order is decided at the first position where the keys differ, bytes as unsigned, the end smallest (section 7.24.4 of ISO/IEC 9899:2011) |
| CString.ComputeHashCode | source/table.c:233-241 | the loop adds signed characters and takes C's remainder |
| CString.TruncatedRemainderIs | source/table.c:240 | the remainder is smaller than the number of rows and not of the other sign than the sum, which determines it |
| CString.CharSumAdds | source/table.c:235-239 | the sum of a text is that of its parts |
| CString.CharCounts | source/table.c:237 | a 7-bit character adds its code and any other its code less 256, wherever it stands |
| CString.NextChar | source/table.c:237 | the next character raises the sum by one, but lowers it by 255 from 127 to 128 |
| CString.HashOfOne | source/table.c:233-241 | a key of one 7-bit character hashes to its code modulo the number of rows |
| CString.HashInRangeExactly | source/table.c:91-92 | the hash is a row of the table exactly for the hashable keys |
| CString.HashableEverywhereExactly | source/table.c:233-241 | a key is usable whatever the number of rows exactly if its characters do not sum below zero |
| CString.AsciiKeysAreHashable | source/table.c:233-241 | keys of 7-bit characters are usable on every table |
| CString.NonAsciiKeyCanMissTheTable | source/table.c:233-241 | a two-byte UTF-8 letter hashes to row -1 of a table of three rows |
| CString.CharSumFitsInt | source/table.c:235-239 | the running sum stays an int for every key below 2^24 characters |
| EntrySeq.InsertPosition | source/list.c:106-148 | an insertion either replaces the entry with that key in place or opens one gap between smaller and greater keys |
| EntrySeq.InsertSorted | source/list.c:49-151 | insertion keeps the keys strictly sorted and grows the list by one exactly for a new key |
| EntrySeq.InsertUpdatesOneKey | source/list.c:49-151 | on the represented map, insertion updates exactly the entry's key |
| EntrySeq.DeleteDropsOneKey | source/list.c:153-189 | on the represented map, removal drops exactly the key |
| EntrySeq.SortedUnique | source/list.c:49-151 | a sorted list is determined by the entries it holds |
| Lists.List.ValidList | source/list.c:261-279 | answers 0 exactly if a non-empty list has a non-negative size and every entry is valid |
| Lists.List.Seek | source/list.c:106-148 | the traversal passes only smaller keys and stops at the first that is not smaller, or at the last node |
| Lists.InsertIntoSingle | source/list.c:71-103 | the comparisons of the single-node path decide as the general insertion does |
| Lists.List.AddToSingle | source/list.c:71-103 | the single-node path performs the sorted insertion and leaves the right size |
| Lists.List.AddToMany | source/list.c:105-148 | the traversing path performs the sorted insertion and leaves the right size |
| Lists.List.Add | source/list.c:49-151 | on the heap, every path is one sorted insertion that keeps an acyclic list with a correct size; 0 for a new key, 1 for a replaced one, -1 and no change for an invalid entry |
| Lists.List.Remove | source/list.c:153-189 | unlinks exactly the node with the key, keeps links, order and size; 0 if it was there, else 1 |
| Lists.List.Get | source/list.c:191-212 | finds the entry with the key, and answers none only if there is none |
| Lists.List.Size | source/list.c:214-219 | the stored size is the number of entries |
| Lists.List.GetKeys | source/list.c:221-240 | null for an empty list, else all keys in order and a terminating null |
| Buckets.InsertRepresents | source/table.c:91-103 | an insertion in the key's row keeps every key in the row it hashes to and updates the map at that key |
| Buckets.DeleteRepresents | source/table.c:161-170 | a removal in the key's row drops exactly that key from the map |
| Buckets.LayoutIsCanonical | source/table.c:180-215 | two tables with the same map and number of rows have identical rows, so key order does not depend on history |
| Buckets.FlattenIsTheMap | source/table.c:180-215 | row after row, every entry of the map is listed once; the number of keys is the sum of the list lengths |
| Buckets.EnumerationOrder | source/table.c:194-211 | keys are listed in the order of the rows they hash to, and in key order within a row |
| Buckets.ThreeKeysInThreeRows | source/table.c:180-215 | three rows list the keys a, b and c as c, a, b |
| Buckets.PutAllOverrides | source/table_server.c:236-249 | putting entries one by one overrides the map with theirs |
| Buckets.TransferIsExact | source/table_server.c:236-249 | a full transfer overrides the target with the source, and equals the source exactly if the target had no key of its own, whatever the numbers of rows |
| Tables.Table.constructor | source/table.c:13-45 | a new table has empty rows and stands for the empty map |
| Tables.CreateTable | source/table.c:13-45 | null exactly for a number of rows that is not positive |
| Tables.Table.Put | source/table.c:61-107 | refines map update and answers 0 for every value of at least one byte; size stays the number of keys; a value of no bytes is refused with -1 and without change |
| Tables.Table.Get | source/table.c:109-127 | answers as the map |
| Tables.Table.GetEntry | source/table.c:129-147 | answers the map's entry |
| Tables.Table.Remove | source/table.c:149-171 | refines map removal; 0 exactly if the key was there |
| Tables.Table.Size | source/table.c:173-178 | the stored count is the number of keys |
| Tables.Table.GetKeys | source/table.c:180-215 | null for the empty table, else every key once in enumeration order, then a null at index size |
| Tables.Table.GetAllEntries | source/table.c:243-295 | none for the empty table, else every entry once in the order of the keys |
| Sorting.Swap | source/bubble_sort.c:5-9 | exchanges two slots and nothing else |
| Sorting.BubbleDown | source/bubble_sort.c:14-18 | one comparison of neighbours moves the least of the tail one slot down and keeps the settled front |
| Sorting.BubbleSort | source/bubble_sort.c:12-20 | the array ends in ascending `strcmp` order and is a permutation of its input |
| Sorting.AscendingUnique | source/bubble_sort.c:12-20 | the sorted result does not depend on the order of the input |
| Topology.SelectNextId | source/table_server.c:134-185 | the selection loop finds the first id above its own in the sorted children, or none |
| Topology.SelectPrevId | source/table_server.c:191-264 | the downward loop finds the last id below its own, or none |
| Topology.SelectHeadAndTail | source/table_client.c:329-372 | the client's head is the least child and its tail the greatest |
| Topology.EveryServerSeesTheSameChain | source/table_server.c:133-264 | distinct ids listed in any order give every server the same strictly increasing chain |
| Topology.NextIdExact | source/table_server.c:141-174 | the selected successor is the least greater id; none exactly at the tail |
| Topology.PrevIdExact | source/table_server.c:217-263 | the selected predecessor is the greatest smaller id; none exactly at the head |
| Topology.LinksAreInverse | source/table_server.c:133-265 | successor and predecessor are inverse to each other |
| Topology.LinksFollowPositions | source/table_server.c:133-265 | the links are those between neighbours of the sorted list |
| Topology.LinkShrinksAbove | source/table_server.c:141-174 | the number of greater ids shrinks along every link |
| Topology.WalkVisitsTheChain | source/table_server.c:133-186 | following links from the head visits every node once, in order, and stops at the tail |
| Topology.LeavingSplicesTheChain | source/table_server.c:133-265 | when a node leaves, only its predecessor's next and its successor's previous link change, and they are joined |
| Topology.JoiningAppendsTheTail | source/client_zookeeper.c:43-62 | a node with the greatest id becomes the tail and only the old tail's link changes |
| Updates.RetryIsHarmless | source/table_skel.c:107-118 | delivering the same request again changes nothing |
| Updates.RepeatIsOnce | source/table_skel.c:207-217 | any positive number of deliveries leaves the replicas as one |
| Updates.AcceptedExactly | source/data.c:111-125 | a PUT is refused for want of a byte and for nothing else, a DEL for want of the key |
| Updates.PropagateReachesAPrefix | source/table_skel.c:89-122 | a request changes exactly the servers up to the first that refuses it |
| Servers.Server.Invoke | source/table_skel.c:64-373 | a PUT or DEL changes the replicas from here to the end exactly by propagation, leaves the row of servers as it is and is answered with its success exactly if this server accepts it; every other request leaves everything alone and gets the answer that the map determines |
| Servers.Server.InvokePut | source/table_skel.c:75-133 | PUT is applied locally, then forwarded; without a value it is refused before it is forwarded |
| Servers.Server.InvokeDel | source/table_skel.c:179-231 | DEL of a missing key is an error and is not forwarded |
| Servers.Server.ForwardPut | source/table_skel.c:104-122 | over a live link the first attempt succeeds |
| Servers.Server.ForwardDel | source/table_skel.c:204-221 | one attempt if the next server holds the key, exactly ten fruitless ones if not |
| Servers.Server.InvokeQuery | source/table_skel.c:135-372 | queries get the answer that the map and its enumeration determine; the table stays as it is |
| Servers.ReplyCodes | source/table_skel.c:135-372 | the reply's code is the request's plus one with the type of what is answered, or 99 with none: a missing key, an empty table, an unknown code |
| Servers.UpdateCodes | source/client_stub.c:40-89 | a PUT goes out as 10 with the entry and a DEL as 30 with the key; the answer is 11, 31 or 99 and keeps them |
| Servers.Server.SelectNextServer | source/table_server.c:133-186 | the next link becomes the server of the least greater id, or none, and nothing else changes |
| Servers.Server.SelectPrevServer | source/table_server.c:189-265 | the table becomes its old map overridden by that of the greatest smaller id, if there is one and its table arrives; the server survives exactly if there is none or it arrives |
| Servers.Server.MergeFrom | source/table_server.c:236-249 | the merge overrides the local map with the predecessor's whole map exactly if the reply with its table arrives, and else changes nothing |
| Servers.NetworkSendReceive | source/network_client.c:57-110 | for an update: without a frame that holds it nothing happens and there is no response; else the far server's work and its reply are those of `Invoke` on a copy of the request |
| Servers.NetworkQuery | source/network_client.c:57-110 | for a request that reads: there is a response exactly if request and reply each have 1 to 32767 bytes, and it is the far server's answer |
| Servers.RtablePut | source/client_stub.c:40-56 | if the request fits a frame, 0 exactly for a valid value, and the replicas change by propagation; else no answer and no change |
| Servers.RtableGet | source/client_stub.c:58-76 | the same answer as the local get, exactly if request and reply fit a frame |
| Servers.RtableDel | source/client_stub.c:78-89 | if the request fits a frame, 0 exactly if the server held the key, else -1, and the replicas change by propagation; else no answer and no change |
| Servers.RtableSize | source/client_stub.c:91-101 | the same answer as the local size, exactly if request and reply fit a frame |
| Servers.RtableGetKeys | source/client_stub.c:103-123 | the same keys as the local enumeration, null for an empty table, exactly if request and reply fit a frame |
| Servers.RtableGetTable | source/client_stub.c:125-163 | all entries of the server in enumeration order, none for an empty table, exactly if request and reply fit a frame |
| Servers.LargeTableNeverArrives | source/network_server.c:186-211 | however messages are packed, a table with more than 32767 bytes of keys and values never reaches a server that asks for it |
| Clients.LinkedMeansConnected | source/table_server.c:133-186 | the links selected by id are those from each position of the chain to the next |
| Clients.RecordIsRight | source/table_skel.c:104-122 | the record of a server is the row its links lead through, and replica i is the table map of the i-th server of it |
| Clients.LinksLeadThroughTheChain | source/table_server.c:133-186 | all links are as selected exactly if they lead from the head through the whole chain to the tail |
| Clients.Connect | source/table_server.c:133-186 | whatever the order of its listing, a server links to the least id above its own |
| Clients.ConnectTheChain | source/table_server.c:94-102 | after every server's watch has fired, in any order and any number of times, the head has the whole chain behind it |
| Clients.SelectServers | source/table_client.c:329-372 | whatever the order of the client's listing, its head and tail are the ends of that chain |
| Clients.LastAfter | source/table_skel.c:89-231 | an update reaches the last replica exactly if every replica accepts it |
| Clients.ExecuteGet | source/table_client.c:97-106 | a get at the tail answers from the tail's map exactly if request and reply fit a frame |
| Clients.PutThenGet | source/table_client.c:95-104 | if the request fits a frame, a put at the client's head reaches every replica and returns 0 for a valid value, and a get at the tail finds it if that get and its reply fit a frame; else nothing changes and nothing is answered; whatever the length of the chain and the sizes of the tables |
| Clients.DelThenGet | source/table_client.c:101-104 | if the request fits a frame, a deletion at the client's head returns 0 exactly if the head held the key, and a get at the tail that arrives still finds the key exactly if the tail held it and some server did not; else nothing changes |
| Protocol.DeliverEffect | source/table_skel.c:104-122 | on nested replicas a request changes every server reachable over links and no other |
| Protocol.DeliverIsPropagate | source/table_skel.c:104-122 | a request step is propagation over the reachable row of servers |
| Protocol.RequestKeepsInv | source/table_skel.c:89-122 | a request keeps the replicas nested and the synced ones equal to the acknowledged updates, also one that stops the front of the chain, if the first server behind is synced |
| Protocol.MergeKeepsInv | source/table_server.c:217-249 | a merge by any server keeps the invariant |
| Protocol.CrashKeepsInv | source/table_server.c:133-265 | a crash alone, before any neighbour has noticed, keeps the invariant if a synced server is left in front |
| Protocol.CrashInMidChain | source/client_stub.c:40-89 | after any server behind the head of a connected chain has crashed, an update that all before it accept leaves exactly the servers behind it, unacknowledged |
| Protocol.CrashRelinkedInTime | source/table_server.c:157-171 | if the server before it renews its link first, the update is acknowledged and shows at every survivor, and all links are in place |
| Protocol.GuardsExactly | source/table_skel.c:89-231 | the steps of a run are those that find late links in order and leave a head that has caught up, and no fewer |
| Protocol.EveryRunKeepsReplicas | source/table_skel.c:64-373 | over every run the head and every synced server hold exactly the acknowledged updates, and every other server a part of them |
| Protocol.TailReads | source/table_client.c:97-106 | after any run a read at the tail is never stale: nothing or the newest value; it is exact if and only if tail and head count as many keys |
| Protocol.OneRoundOfMergesSuffices | source/table_server.c:189-265 | after any run one head-to-tail round of merges makes every replica equal to the acknowledged updates |
| Protocol.RecoveryIsComplete | source/table_server.c:133-265 | after any run, one watch at every server and one round of merges leave all links in place and every server caught up with the acknowledged updates |
| Protocol.MergesAfterAnyRunExactly | source/table_server.c:189-265 | after any run, merges in any order give every replica the acknowledged updates exactly if the positions from the first stale one to the tail occur in turn |
| Protocol.AcknowledgedMeansVisibleEverywhere | source/table_skel.c:104-133 | with links in place an acknowledged PUT or DEL shows at every server |
| Protocol.LateLinkBreaksAgreementExactly | source/table_server.c:94-102 | agreement survives an acknowledged update exactly if all links are in place or the update changes nothing |
| Protocol.HeadCrashKeepsUpdatesExactly | source/table_server.c:189-265 | the crash of the head keeps all acknowledged updates exactly if its successor counts as many keys |
| Protocol.DeadConnectionKeepsUpdatesExactly | source/client_stub.c:40-89 | a request that meets a dead connection is not acknowledged and leaves the servers behind it, with all acknowledged updates exactly if the first of them counts as many keys as the head did |
| Protocol.OneRequestStopsTheChain | source/client_stub.c:40-56 | a legal run after which the only server holds everything and the next PUT stops it |
| Protocol.HeirWithoutMerge | source/table_server.c:94-102 | a run in which the crash of the head would lose an acknowledged PUT |
| Protocol.HandOver | source/table_server.c:189-265 | a legal run in which a joining server catches up and takes over from the head with everything acknowledged |
| Protocol.MergedBeforeLinked | source/table_server.c:94-102 | a run to equal replicas that the next acknowledged PUT makes different |
| Protocol.LateLinkKeepsADeletedKey | source/table_server.c:94-102 | after such a run a DEL leaves its key at the second server, where neither the connection nor merges nor further DELs remove it |
| InFlight.ForwardIsAccepted | source/table_skel.c:190-221 | no server on the way refuses a forwarded PUT, nor a forwarded DEL of a key of which no PUT was left behind |
| InFlight.StepKeepsInv | source/table_skel.c:91-118 | every step of every interleaving, crashes at any moment included, keeps each key's values along the chain in order: the update executed up to its position, and no key below a server that lacks it |
| InFlight.AnswerTravelsUp | source/table_skel.c:107-118 | an update open at p servers takes exactly p replies, each closes it at one server, and nothing else changes |
| InFlight.CrashOnTheWayUp | source/client_stub.c:50-56 | a server that stops during that takes everyone upstream along exactly if the answer has not passed it or another update is open there |
| InFlight.DeadForward | source/client_stub.c:50-56 | a forward over a dead connection leaves exactly the servers behind it |
| InFlight.CrashCutsTheWay | source/client_stub.c:50-56 | after a server stops for which nobody waits, the next forward across its place takes all before it down and nobody else |
| InFlight.RelinkOpensTheWay | source/table_server.c:157-184 | if the link is renewed first, the forward goes through to the server behind, or the update turns back at the new tail |
| InFlight.CollapseLeaves | source/client_stub.c:50-56 | when servers stop, what is open beyond them goes on as it was, and of the rest only values of PUTs that a survivor holds are left |
| InFlight.WhatIsBehindGoesOn | source/table_skel.c:104-118 | an update that is open beyond the servers that stop still reaches every survivor |
| InFlight.LaterUpdateAhead | source/table_skel.c:91-118 | a run with two updates under way of which the later is ahead |
| InFlight.UpstreamFirst | source/table_skel.c:91-118 | whatever stops, an update seen at a replica has been applied at every replica upstream, if no older PUT of its key was left behind |
| InFlight.NoDeletionIsCut | source/table_skel.c:195-221 | in every run, a server lacks a key that one downstream holds only while a DEL of it is on its way between them |
| InFlight.NoSettledUpdateIsLost | source/table_skel.c:89-231 | in every run, while no update of a key is on its way down, every replica has the last settled value or that of a later PUT left behind by servers that stopped |
| InFlight.AcknowledgedMeansEverywhere | source/table_skel.c:104-133 | when an update is acknowledged every replica has it |
| InFlight.QuietMeansEqual | source/table_skel.c:91-118 | whenever nothing is on its way down and no PUT was left behind, all replicas equal the settled updates, whoever has stopped |
| InFlight.OvertakingAgreesExactly | source/table_skel.c:93-112 | if one request overtakes another for the same key behind the head, the replicas agree exactly if the two are the same update, or the first puts a new key, the second deletes it and is retried after it |
| InFlight.OvertakenPutIsLost | source/table_skel.c:93-112 | two PUTs of one key in opposite orders leave head and tail with different values |
| InFlight.OverlappedMergeAgreesExactly | source/table_server.c:237-248 | a merge around an update agrees with the predecessor exactly if the update put a new key or changed nothing |
| InFlight.OverlappedMergeBringsBack | source/table_server.c:237-248 | a merge around a PUT brings the old value back, around a DEL the key |
| Refinement.RequestRefines | source/table_skel.c:89-231 | a request as one step of the chain is what its arrival, forwards and replies do when nothing comes between them, dead connections included |
| Refinement.StepRefines | source/table_server.c:133-265 | so is every other step but a join |
| Refinement.LegalRunRefines | source/table_skel.c:64-373 | every legal run without a join is a run of interleaved steps with the same replicas, links and acknowledged updates |
| Merging.SweepRepairsExactly | source/table_server.c:217-249 | a round of merges makes all replicas equal to the head exactly if none holds a key the head lacks |
| Merging.MergesInAnyOrderExactly | source/table_server.c:217-249 | merges in any order make all replicas equal to the head exactly if the positions from the first stale one to the tail occur among them in turn |
| Merging.MergesEqualizeExactly | source/table_server.c:217-249 | when keys descend, merges in any order make all replicas equal to the head exactly if the server that each has its entries from was |
| Repair.KeysDescendExactly | source/table_skel.c:195-221 | in every run, all servers upstream hold the keys of a server exactly if no DEL is on its way to a server that holds its key |
| Repair.AnyRunIsRepairedExactly | source/table_server.c:217-249 | whoever has stopped in a run, a round of merges from head to tail makes all replicas equal to the head exactly if no DEL is on its way to a server that holds its key |
| Repair.AnyOrderRepairsExactly | source/table_server.c:217-249 | without such a DEL, merge steps in any order do so exactly if each server's source equalled the head; with the first f replicas fresh, exactly if the positions from f to the tail occur in turn |
| Repair.PutLeftByACrash | source/table_server.c:236-249 | a run in which the head stops with a PUT open that merges have carried to the next two of four survivors |
| Repair.WrongOrderLeavesTheTailStale | source/table_server.c:94-102 | after that run, merges in one order repair both stale survivors, in the other they leave the tail stale |
| Repair.StaleKeyNeedsAPut | source/table_skel.c:195-221 | a key left downstream survives every DEL at a head that lacks it; a PUT and a DEL remove it everywhere |
| Codec.EncodedSize | source/serialization.c:19-25 | the text takes the sum of the key lengths plus one each |
| Codec.CountOnTheWire | source/serialization.c:32-33 | the count is written most significant byte first |
| Codec.Measure | source/serialization.c:19-25 | the counting loop yields the number of keys and 4 plus the size of their text |
| Codec.CopyKeys | source/serialization.c:36-42 | the copying loop puts the NUL-terminated keys behind the count and writes nowhere else |
| Codec.KeyArrayToBuffer | source/serialization.c:13-45 | the buffer holds exactly the count, most significant byte first, and the NUL-terminated keys; the size is 4 plus the text; no write leaves the buffer |
| Codec.BufferToKeyArray | source/serialization.c:47-82 | decoding gives back the encoded keys, whatever bytes follow them |
| Codec.EncodingIsUnambiguous | source/serialization.c:13-82 | a buffer starts with the encoding of at most one key array |
| Framing.WriteAll | source/message-private.c:16-30 | for every schedule of partial writes and interruptions exactly the buffer goes out, once and in order; after an error a proper prefix of it |
| Framing.ReadAll | source/message-private.c:32-56 | returns what the first read delivers: the whole message exactly if the first chunk holds it |
| Framing.NetworkSend | source/network_server.c:186-211 | the length bytes are written once, low 16 bits and most significant byte first, and what that write does not take is lost; then the rest of the frame follows, or after a write error -1 and a proper part of it; nothing follows a length that makes a negative short |
| Framing.FrameIs | source/network_server.c:186-211 | the first two bytes of every frame are the low 16 bits of the length, most significant first, and a message of up to 32767 bytes follows as it is |
| Framing.FrameRoundTripExactly | source/network_server.c:166-211 | a message is received as it was sent exactly if it has 1 to 32767 bytes |
| Framing.CutFrame | source/network_server.c:166-184 | of a frame that is cut short the part of the message that has arrived is unpacked, and nothing if there is none |
| Framing.NetworkReceive | source/network_server.c:166-184 | from a stream delivered in one piece the reader takes the first message and leaves the rest |
| Framing.LongMessageIsLost | source/network_server.c:186-211 | a message of 32768 bytes is announced as 80 00 and nothing arrives |
| Framing.StreamRoundTrip | source/network_server.c:143-184 | a stream of such messages parses back to the messages in order |
| Registry.DecimalRoundTrip | source/network_server.c:121-123 | the decimal numeral determines its number |
| Registry.ThreadKeyText | source/network_server.c:121-123 | the key is `thread_` and the decimal digits of the number |
| Registry.ThreadKeysDiffer | source/network_server.c:121-123 | different clients get different keys |
| Registry.KeyBufferFitsExactly | source/network_server.c:121-123 | the buffer holds `thread_n` and its terminator exactly if n is no power of ten, for which it is one character short |
| Registry.ThreadRegistry.Register | source/network_server.c:109-135 | an accepted client is always a new entry, never a replacement |
| Registry.ThreadRegistry.Close | source/network_server.c:218-229 | every registered socket is closed once, in order, and the register is left empty |

## Left out

- Lists.List.Add: entries are values in the nodes, so it is not modelled that a replaced entry object is reused in the single-node path and exchanged in the other; NULL arguments, failed allocation and freeing are not modelled either.
- Tables.Table.Put: asks for a hashable key, because the program would index outside its rows for any other; keys are not NULL.
- CString.ComputeHashCode: adds unbounded integers; `CharSumFitsInt` says for which keys an int does the same. Plain `char` is taken as signed.
- Servers.Server.Invoke: a PUT or DEL sent to the next server is one atomic call over a live link (`Protocol` and `InFlight` say what a dead one does), and what arrived in a frame is taken to fit one when it is sent on. The contents of the statistics reply are left out.
- Servers.NetworkSendReceive: a packing is any function that spends the same on every operation code and content type, as protobuf does on the codes of `sdmessage.proto`.
- Servers.NetworkQuery: each frame is delivered by one read; `ReadAll` says what becomes of it otherwise.
- Servers.Server.SelectNextServer: looking up an address and connecting always succeed; `Clients.Record` renews the ghost record of a row of servers from the tail up.
- Servers.Server.SelectPrevServer: the merge is one step; `OverlappedMergeAgreesExactly` says what an update in between does. The connection the head opens to itself and closes is left out.
- Clients.PutThenGet: watches and requests do not overlap, and nobody else writes in between; `Protocol` and `InFlight` are about runs in which they do.
- Protocol.EveryRunKeepsReplicas: asks that no request starts while a server that has merged still waits for its predecessor's link, and that whatever stops leaves a synced server in front; `LateLinkBreaksAgreementExactly`, `HeadCrashKeepsUpdatesExactly` and `DeadConnectionKeepsUpdatesExactly` say what happens otherwise.
- InFlight.QuietMeansEqual: updates in flight have distinct keys, merges are atomic and nobody joins. A forwarded call is one step: the handler threads of a server share one unlocked socket to the next server, on which the bytes and replies of two of their calls can mix.
- InFlight.NoDeletionIsCut: a server that gets no reply stops. At the end of a closed connection the length of the reply is a variable nobody has set; should it happen to be 0, the stub goes on with an empty message instead, which counts as success for a DEL. The same is left out where `Protocol` lets a request meet a dead connection.
- Refinement.LegalRunRefines: joins are steps of the chain only.
- Codec.KeyArrayToBuffer: NULL arguments and failed allocation.
- Framing.NetworkReceive: a stream that comes in several pieces is described by `ReadAll` alone, and unpacking is not modelled.
- Framing.ReadAll: an interrupted read, after which the program tests a variable it has not set.
- Framing.NetworkSend: the packing of a message (protobuf is not part of this model), and the overrun of its buffer from 65536 bytes on.
- Registry.ThreadRegistry.Register: the thread handle in the record, and what a write behind the text buffer does.
- Registry.ThreadRegistry.Close: the second loop, which finds the register empty, and the closing of the sockets themselves, recorded as a sequence.
- Locks, threads, signals and the ZooKeeper client: requests, watch callbacks and ids are given as steps and parameters.
- The client's menu and argument parsing, printing, and statistics.
