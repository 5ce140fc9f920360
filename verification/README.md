# LionsOS storage and firewall data layer, verified

This project models the stateful parts of LionsOS that everything else rests on,
and proves what they promise:

* **FatFs** (`dep/ff15/ff.c`): the one-sector window as a transparent cache of the
  device; the FAT as a table of entries and as a set of disjoint chains; reading,
  writing and seeking as operations on a flat byte sequence; exFAT chains whose
  links are written late, and their release; the cluster link map; formatting and mounting; long file
  names; the wildcard matcher; the table of open objects.
* **The firewall**: the pool of packets that wait for ARP replies, the router with
  its verdict on each packet and the conservation of buffers, the transmit
  virtualiser that sends buffers home, and the routing table.
* **The block layer** under FatFs (`components/fs/fat/io.c`) and the **TCP receive
  ring** (`lib/sock/tcp.c`).

`dafny verify dfyconfig.toml` checks everything.

The modules build on each other: `Volume` (device and window), `FatTable` (the FAT
as a value), `FatAccess`, `FatAlloc` and `FatChains` (entries, chains, sets of
chains), `FailedUpdates` (what interrupted updates leave), `FileBytes`, `FileIo`,
`FileClient` and `TwoFiles` (contents of files); `Bitmap`, `LazyChain`, `Exfat`,
`ExfatRemove` and `ExfatGrow`; `LinkMap` and `FastSeek`; `Mkfs`, `FreshFat` and
`FreshVolume`; `Lfn` and `LfnExample`; `PatternMatch`; `Share`; `PacketPool`, `Subnets`,
`RoutingTable`, `Router` and `RouterRun`; `VirtTx`; `BlockIo`; `TcpRing`.
Objects that the C code updates in place are classes or arrays, loops stay loops,
and each method is proved against a specification on values; lemmas about these
specifications carry the properties over whole runs.

The FatFs build is the one of `components/fs/fat/config/ffconf.h` (exFAT and long
names on, private sector buffers, 48 lock slots, no 64-bit LBA), with the fast-seek,
find and mkfs branches taken as they stand in `ff.c`. Device calls succeed or fail
at will, or in the runs that show a failure exactly for writes to given bad sectors: a failed write leaves any bytes in the sectors it was for, a failed read
delivers any bytes, and each failure is counted, so that an operation that reports a
disk error must have met one. In `BlockIo` a failed request leaves the device as it was.
The two layers are joined by an assumption about the device: a failed write of whole
transfer blocks leaves the sectors of these blocks that the request was not for as they
were, although the block layer has read them in and sends them along. Values of 32 bits
that can wrap are wrapped explicitly. Addresses of the firewall are in host byte
order.

## Findings

Some properties hold only under a condition. It is part of the statement named here,
most often with a proved case in which the property fails:

* `f_mkfs` can lay out a volume without a single cluster (dep/ff15/ff.c:6242-6243),
  which `mount_volume` rejects (dep/ff15/ff.c:3546): `Mkfs.FormatsWithoutCluster`,
  exact condition on the inputs in `Mkfs.HasCluster`.
* The lock table uses 0x100 both for a writer and for 256 readers: when one of 256
  readers closes, the slot is freed (dep/ff15/ff.c:1031): `Share.ReadersAndWriter`,
  exact condition in `Share.StepsAgree`.
* `pattern_match` counts question marks in eight bits, so 256 of them in one run act
  as a star, and patterns with more than four runs never match
  (dep/ff15/ff.c:2814-2833): `PatternMatch.MatchesGlob`.
* The check on the way out of the transmit virtualiser uses the capacity of the
  active queue (examples/firewall/net_components/firewall_network_virt_tx.c:98), the
  one on the way home that of the free queue (line 43): `VirtTx.NoWayHome`, exact
  condition in `VirtTx.FwHome`.
* A read after the peer has closed fails even when bytes are unread
  (lib/sock/tcp.c:419): `TcpRing.UnreadAtClose`.
* A transfer of a whole cluster of the maximal size fails the size assertion of the
  block layer (components/fs/fat/io.c:136) unless it starts at a transfer block:
  `BlockIo.BlocksOfWhole`.
* `f_getfree` on FAT16 and FAT32 also scans entries 0 and 1 (dep/ff15/ff.c:4882-4901):
  `FatAlloc.CountsReserved`, exact excess in `FatAlloc.GetFree`.
* `create_chain` marks a cluster and then links it (dep/ff15/ff.c:1608-1611). When the
  device fails between the two, or within the first on FAT12, the cluster stays marked
  while the free-cluster counter keeps it. That can happen if and only if the counter is
  known and the entry of the cluster to be taken is a FAT12 entry in two sectors, or
  ends in a sector that does not hold the whole entry to be linked:
  `FatAlloc.CounterSafe`, and the runs `FailedUpdates.StaleCounter` (FAT16) and
  `FailedUpdates.TornCounter` (FAT12).
* `remove_chain` can be stopped within a FAT12 entry (dep/ff15/ff.c:1467-1468). If it
  reads zero from then on, a known counter misses that cluster, and only then:
  `FatAlloc.RemoveChain`, with the run `FailedUpdates.TornRelease`.
* `find_bitmap` for more than one cluster keeps its run counter across the end of the
  volume (dep/ff15/ff.c:1332-1340) and stops at its start, so it can find a run that is
  no block, and miss one that is: `Bitmap.RunsAcross`, exact conditions in
  `Bitmap.FoundIsBlock` and `Bitmap.MissedBlocks`. Only `f_expand` asks for more than
  one, which this configuration leaves out.
* Building a link map fails with FR_INT_ERR when the end mark read from the FAT
  equals the number after the last cluster (dep/ff15/ff.c:4476-4481). That takes an
  end mark that FatFs does not write: `LinkMap.ClashExample`,
  `LinkMap.EndMarksDoNotClash`, exact condition in `LinkMap.CreateLinkMap`.
* Releasing an exFAT chain leaves its last block marked in use when the end mark equals
  the number after its last cluster (dep/ff15/ff.c:1478): `ExfatRemove.RemoveChainEx`;
  with the end mark of the code that is the last cluster of the largest volume
  (`ExfatRemove.EndsPlainly`, `ExfatRemove.LargestVolume`).

## Model

| member | source | states |
|---|---|---|
| `Volume.SyncWindow` | dep/ff15/ff.c:1063-1081 | The device overlaid by the dirty window is the same before and after, except for copies of FAT sectors in the second FAT; success leaves the window clean, failure (only when a device call failed) leaves it as dirty as it was; the second FAT stays a copy of the first as long as no device call fails |
| `Volume.MoveWindow` | dep/ff15/ff.c:1085-1106 | After success the window holds the requested sector of the same logical device; after a failure, which a device call must have caused, it holds what it held, or no sector; the logical device never changes outside the second FAT, which stays a copy |
| `FatTable.PutThenGet` | dep/ff15/ff.c:1247-1296 | For every entry width and every two entries: a stored value reads back cut to the width, every other entry keeps its value (FAT12 neighbours share a byte) and the top four bits of FAT32 entries survive |
| `FatTable.EntriesOnBytes` | dep/ff15/ff.c:1169-1203 | The entries on the bytes of the FAT as numbers with the lowest byte first: two FAT12 entries are three bytes, a FAT16 entry two, FAT32 and exFAT entries 28 and 31 bits of four |
| `FatTable.SpanIsTight` | dep/ff15/ff.c:3553-3565 | The bytes that a FAT of n entries needs end with the last byte of its last entry |
| `FatAccess.GetEntry` | dep/ff15/ff.c:1169-1203 | Reads exactly the entry of the logical FAT, across sector boundaries; 1 out of range, all ones only when a device call failed; the logical device and the FAT stay as they are |
| `FatAccess.PutFat` | dep/ff15/ff.c:1247-1296 | After success the FAT is the old one with this entry replaced; FR_INT_ERR exactly out of range; FR_DISK_ERR only when a device call failed, only for an entry that is not all in the window, and then no other entry has changed (only a FAT12 entry in two sectors can be half written); on a device with given bad sectors it fails exactly when the window must be written to one of them; only FAT sectors change, and the second FAT stays a copy |
| `FatTable.ChainNoRepeat` | dep/ff15/ff.c:1532-1623 | A chain whose links end past the table visits no cluster twice, so chains are acyclic |
| `Volume.EndMarks` | dep/ff15/ff.c:1455-1457 | The end mark that the code stores has all bits of the entry set, on every FAT type |
| `FatTable.StretchKeepsChains` | dep/ff15/ff.c:1608-1611 | Linking a free cluster behind a chain keeps the table a set of disjoint chains: that chain grows by the cluster and no other chain changes |
| `FatTable.StartKeepsChains` | dep/ff15/ff.c:1608-1608 | Ending a free cluster starts a chain of one and keeps all other chains |
| `FatTable.ReleaseSuffix` | dep/ff15/ff.c:1461-1494 | On a chain the release walk zeroes exactly its clusters and reports success |
| `FatTable.ReleaseCount` | dep/ff15/ff.c:1461-1494 | On every table, cyclic or corrupt, the release walk frees as many entries as it counts |
| `FatTable.ReleaseTruncates` | dep/ff15/ff.c:1455-1494 | Ending the prefix and releasing from the i-th cluster is the same as cutting the chain there |
| `FatTable.TruncateKeepsChains` | dep/ff15/ff.c:1455-1494 | Cutting a chain frees exactly its suffix, leaves the prefix as a chain, and keeps all other chains |
| `FatAlloc.FindFree` | dep/ff15/ff.c:1594-1606 | The wrap-around search visits no cluster twice; it returns the first free cluster from its start, or 0 only when no entry is free, on every table; all ones only when a device call failed |
| `FatAlloc.CreateChain` | dep/ff15/ff.c:1532-1623 | Result and new FAT for every FAT: the next cluster if there is one, else exactly one formerly free cluster linked behind, the one behind clst if it is free and otherwise the first free one from the last allocated on; nothing else changes; a right free-cluster counter stays right, and then 0 is returned exactly when no cluster is free; when a device call failed the counter is as it was and the FAT is the old one, or has one formerly free entry set to the end mark (only if the entry of clst lies in another sector), apart from a half-written FAT12 entry in two sectors |
| `FatAlloc.PickedOrder` | dep/ff15/ff.c:1547-1606 | A new file gets the first free cluster behind the last one allocated, then from the start; on a volume without one the lowest |
| `FatAlloc.CounterAfterFailure` | dep/ff15/ff.c:1608-1618 | After such a failure, on every FAT type, a known counter is right if and only if the FAT is unchanged; otherwise the FAT lacks one free cluster, and the updates for it could not stay within one sector |
| `FatAlloc.CounterSafe` | dep/ff15/ff.c:1608-1618 | By the state before the call: the counter stays right whatever update fails if and only if it is unknown, or the entry of the cluster to be taken is not a FAT12 entry in two sectors and the entry of clst, if there is one, lies in the sector where it ends |
| `FailedUpdates.RiskIsFatal` | dep/ff15/ff.c:1608-1611 | When the cluster behind clst is to be taken: a device that can write no sector of its entry stops the updates exactly in those cases |
| `FailedUpdates.Stretch` | dep/ff15/ff.c:1532-1623 | The run: on every volume where the device stops them the new cluster is marked, the link is missing, and a right known counter is wrong from then on |
| `FailedUpdates.StaleCounter` | dep/ff15/ff.c:1532-1623 | A FAT16 volume with one free cluster, number 256, whose entry lies in another sector than that of cluster 255: create_chain fails for a file that ends at 255, and the counter says one is free and none is |
| `FailedUpdates.TornCounter` | dep/ff15/ff.c:1532-1623 | The same on FAT12, where entry 341 lies in two sectors and is left half written |
| `FatAlloc.CreatedInChain` | dep/ff15/ff.c:1532-1623 | For the k-th cluster of a chain this result is the next cluster of the chain, or a new one that extends it |
| `FatAlloc.RemoveChain` | dep/ff15/ff.c:1437-1523 | Ends on every FAT contents; the new FAT is the old one after the release walk, success exactly when the walk meets no reserved entry; a right free-cluster counter stays right; when a device call failed every entry is as before or as released (the one before may end the chain, one FAT12 entry may be half written) and a known counter is still right if and only if that entry does not read zero |
| `FailedUpdates.Free` | dep/ff15/ff.c:1461-1471 | The run: a release that stops half way in the entry of its first cluster, leaving it zero, fails, and the cluster is free and not counted |
| `FailedUpdates.TornRelease` | dep/ff15/ff.c:1461-1471 | A full FAT12 volume with a file of clusters 341 and 5 on which that happens: the counter says none is free and one is |
| `FatAlloc.GetFree` | dep/ff15/ff.c:4842-4908 | A known counter is returned, an unknown one becomes the number of zero entries (FAT16 and FAT32 also count entries 0 and 1, so it is right if these are not zero); FR_DISK_ERR only when a device call failed |
| `FatAlloc.CountsReserved` | dep/ff15/ff.c:4882-4901 | A table whose entry 0 is zero, for which the scan counts one too many |
| `FatChains.ExtendChain` | dep/ff15/ff.c:1532-1623 | On a table that is a set of disjoint chains, create_chain at a chain's end yields such a set again with one chain longer by one formerly free cluster (or one new chain); it never reports an inconsistency, and finds nothing exactly when the volume is full; when a device call failed all other chains are still chains |
| `FatChains.CutChainAt` | dep/ff15/ff.c:1437-1494 | On such a table remove_chain frees exactly the suffix of its chain, keeps the prefix and all other chains as chains, and fails only when a device call failed; even then all other chains are still chains, and on FAT16 and FAT32 the counter stays right |
| `FileIo.Write` | dep/ff15/ff.c:4022-4134 | The contents become the old ones overwritten from the position on, across clusters, whole-sector transfers and the dirty buffer; fewer bytes only at 4 GiB - 1 or when no cluster is free and the file's chain is filled to its end; other files, their chains and the free clusters keep what they have; FR_DISK_ERR only when a device call failed, and then only bytes of the interrupted part may differ |
| `FileIo.Read` | dep/ff15/ff.c:3922-4012 | Delivers the contents from the position on, up to the end of the file, even where the dirty buffer is newer than the device; nothing else in the file or in other files changes, and without a disk error nothing else in the caller's buffer; FR_DISK_ERR only when a device call failed, and then behind the delivered bytes only those of the interrupted direct transfer may differ, within the bytes asked for |
| `FileIo.ContentPlace` | dep/ff15/ff.c:1152-1160 | Every byte of a file's contents is on the device where its cluster is: clusters of csize sectors lie one behind the other from the data base on, and the first has number 2; only the file's dirty buffer can be newer |
| `FileIo.ContentRun` | dep/ff15/ff.c:1152-1160 | So a file in consecutive clusters is one run of device sectors, in order |
| `FileIo.Lseek` | dep/ff15/ff.c:4518-4595 | Within the file the position becomes the offset and the contents stay; beyond it a writable file grows, old bytes stay and a full volume clips; clust and buffer fit the new position again; other files keep their bytes; FR_DISK_ERR only when a device call failed |
| `FileIo.WriteAll` | dep/ff15/ff.c:4047-4129 | The write loop stores prefix after prefix and keeps position, cluster and buffer in step; it stops early only when the volume and the chain are full, and FR_DISK_ERR needs a failed device call |
| `FileIo.SeekRun` | dep/ff15/ff.c:4548-4568 | The cluster loop of a seek stands on the cluster of the position after every round and stops early only on a full volume; FR_DISK_ERR only when a device call failed |
| `FileIo.Fil.constructor` | dep/ff15/ff.c:3853-3874 | An open file at its start satisfies the invariant that relates position, cluster, buffer and chain |
| `FileClient.WriteThenRead` | dep/ff15/ff.c:3922-4134 | Write, seek back and read: without a failed device call (or a reserved value in the FAT) all succeed, exactly as many bytes are written as the file's and the free clusters and 4 GiB - 1 allow, the bytes read are those, and the file is the old one overwritten |
| `FileClient.FilledUp` | dep/ff15/ff.c:4058-4063 | A file grows by free clusters only, and when none is left it has got all that were free |
| `TwoFiles.Bystander` | dep/ff15/ff.c:3922-4595 | Whatever an operation on one open file does, another open file on the volume keeps its invariant and its contents, its own dirty buffer included |
| `TwoFiles.WriteBeside` | dep/ff15/ff.c:4022-4134 | So after a write to one file, failed or not, the other has its contents, and the two still share no cluster |
| `FileBytes.StoredPatch` | dep/ff15/ff.c:4119-4128 | Changing bytes of one buffered sector overwrites exactly these bytes of the file |
| `FileBytes.StoredRun` | dep/ff15/ff.c:4083-4103 | Writing whole sectors of a cluster overwrites exactly their bytes of the file |
| `FileBytes.SectorsDistinct` | dep/ff15/ff.c:1152-1162 | Different sectors of a file lie on different sectors of the device |
| `Bitmap.FindBitmap` | dep/ff15/ff.c:1312-1345 | For any number of clusters: the first run of that many clear flags met from the start on, wrapping around; 0 only when none is met before the start comes again; all ones only when a device call failed |
| `Bitmap.FoundIsBlock` | dep/ff15/ff.c:1330-1341 | What is found is a block of free clusters if and only if it ends within the volume, as it always does for one cluster or a search from the first one on |
| `Bitmap.MissedBlocks` | dep/ff15/ff.c:1340-1340 | Free blocks are missed only if all of them lie across the start of the search; one that does not makes it find a run |
| `Bitmap.RunsAcross` | dep/ff15/ff.c:1332-1340 | Maps of four clusters on which a run across the end is found, and a block across the start is missed |
| `Bitmap.RunOfOne` | dep/ff15/ff.c:1335-1340 | For one cluster the search is right: it finds the first clear flag from the start on, or all are set |
| `Bitmap.ChangeBitmap` | dep/ff15/ff.c:1352-1380 | Changes exactly the given flags, each from the other value, across byte and sector boundaries, and stops at a flag that already has the value; FR_DISK_ERR only when a device call failed; only bitmap sectors change |
| `Bitmap.UsedIsBit` | dep/ff15/ff.c:1328-1331 | The flags of the bitmap are the bits of its bytes, the lowest first |
| `Bitmap.FlipOne` | dep/ff15/ff.c:1373-1373 | Flipping one bit of a byte changes this bit only |
| `LazyChain.AppendRepresents` | dep/ff15/ff.c:1562-1578 | One allocation keeps status and FAT standing for the clusters in order, touches no link of another object, and the object stays contiguous exactly when the cluster is adjacent |
| `LazyChain.RunRepresents` | dep/ff15/ff.c:1562-1578 | So does every run of allocations, adjacent and scattered in any mix; the status is contiguous exactly as long as all clusters are consecutive |
| `LazyChain.FilledIsChain` | dep/ff15/ff.c:1388-1426 | Filling in the first and then the last fragment leaves the whole chain on the FAT and touches no other link |
| `LazyChain.GrownIsChain` | dep/ff15/ff.c:1388-1426 | A chain grown by any run of allocations and then filled in is a FAT chain of exactly these clusters in this order, unless it is contiguous |
| `Exfat.GetFatEx` | dep/ff15/ff.c:1205-1229 | For every cluster of an object whose link can be read, the value is the next cluster, or an end mark at the last one, from status or FAT; all ones only when a device call failed |
| `Exfat.FillFirstFrag` | dep/ff15/ff.c:1388-1404 | Links the clusters of the contiguous first part and changes no other entry and no flag |
| `Exfat.FillLastFrag` | dep/ff15/ff.c:1411-1426 | Links the clusters of the last fragment up to the given mark and changes no other entry and no flag |
| `Exfat.CreateChainEx` | dep/ff15/ff.c:1532-1578 | On exFAT: the next cluster if there is one, else the first free one from the last cluster on, now in use and appended to the object; other objects' links and flags and all data sectors stay; the counter stays right and 0 comes back exactly when no cluster is free; when a device call failed at most one formerly clear flag is set |
| `Exfat.CompleteChain` | dep/ff15/ff.c:4165-4169 | After the late links are written a non-contiguous object is a FAT chain of its clusters in the order of allocation; it fails only when a device call failed, and no data sector changes |
| `Exfat.GetFreeEx` | dep/ff15/ff.c:4862-4879 | Returns the number of clear flags of the bitmap, bytes cut off at the last cluster, or the counter when it is known and right |
| `ExfatRemove.ReleaseBlocks` | dep/ff15/ff.c:1461-1494 | Ends on every FAT and bitmap; from an owned cluster on it releases exactly that cluster and those after it, block by block, and counts each once |
| `ExfatRemove.RemoveChainEx` | dep/ff15/ff.c:1437-1521 | On exFAT: exactly the clusters from clst on become free, the object keeps those before with a status that tells their links (contiguous exactly when they are, for a chain on the FAT), other FAT entries and flags and all data sectors stay, and the counter stays right; FR_DISK_ERR only when a device call failed |
| `ExfatRemove.SettleStatus` | dep/ff15/ff.c:1498-1520 | What is left of a chain is again represented by FAT and status |
| `ExfatRemove.FollowRun` | dep/ff15/ff.c:1503-1512 | Ends on every FAT, and finds a chain that stands on the FAT to be whole exactly when its clusters are consecutive |
| `ExfatRemove.TruncateEx` | dep/ff15/ff.c:4932-4946 | Cutting an exFAT file leaves it owning exactly the clusters up to the new end and gives back all others, without touching a data sector; at or past the end nothing changes; FR_DISK_ERR only when a device call failed |
| `ExfatGrow.GrowFile` | dep/ff15/ff.c:4047-4129 | The clusters that f_write enters from any position on: those of the file in order, then new ones as far as the bytes need them, with position and size kept in them; the counter stays right, and bytes are left over only at the end of the last cluster when none is free; after a failed device call FAT and flags of all other objects are as they were, with at most one flag set for no one |
| `ExfatGrow.GrowAndSync` | dep/ff15/ff.c:4022-4169 | Followed by f_sync the file is contiguous, or a FAT chain of all its clusters in the order of allocation; no other object and no data sector is touched, after a failed device call neither, with at most one flag set for no one |
| `ExfatRemove.GivesBackIff` | dep/ff15/ff.c:1461-1494 | A release that succeeds gives all clusters back if and only if the end mark it reads is not the number after the last cluster; else the flag of that cluster stays set |
| `ExfatRemove.EndsPlainly` | dep/ff15/ff.c:1169-1235 | With the end mark of the code that is so exactly for a chain that does not end in cluster 0x7FFFFFFE |
| `ExfatRemove.LargestVolume` | dep/ff15/ff.c:1478-1487 | A volume of 0x7FFFFFFD clusters and a contiguous object whose only cluster is the last one: its release succeeds and the flag stays set |
| `Exfat.SizeTellsLast` | dep/ff15/ff.c:1206-1208 | The object size kept during a write tells the index of the last cluster |
| `LinkMap.CreateLinkMap` | dep/ff15/ff.c:4467-4492 | For a chain that has an end, proper or broken, and for a start that is no cluster: the table becomes a link map of a proper chain, or is told to be too small with the size needed; nothing past the given size is stored; unless a device call failed FR_INT_ERR comes back exactly when the chain is broken or its end mark is the next cluster number |
| `LinkMap.EndMarksDoNotClash` | dep/ff15/ff.c:4476-4481 | No end mark above the limit of entry numbers is taken for the next cluster, so none that FatFs writes on FAT12, FAT16 and FAT32 |
| `LinkMap.ClashExample` | dep/ff15/ff.c:4476-4481 | A chain ended by a foreign mark for which it happens |
| `LinkMap.MapExample` | dep/ff15/ff.c:4460-4500 | The table for the clusters 2, 3, 4, 10, 11 |
| `LinkMap.ClmtClust` | dep/ff15/ff.c:1635-1654 | On a link map: the (offset / cluster size)-th cluster of the chain for every offset, and 0 past its end |
| `FastSeek.Lseek` | dep/ff15/ff.c:4493-4513 | A seek by the link map sets position, cluster and buffer as a normal seek within the file does, without a look at the FAT; contents and other files stay |
| `FastSeek.ClusterAt` | dep/ff15/ff.c:1635-1654 | For every byte within the chain of a file the lookup finds the cluster of that byte |
| `FastSeek.NextCluster` | dep/ff15/ff.c:3951-3958 | At a cluster boundary a read by the link map enters the same cluster as one that follows the FAT |
| `LinkMap.MeasureRun` | dep/ff15/ff.c:4474-4481 | The inner loop measures a maximal run of consecutive clusters |
| `Mkfs.PlanFat` | dep/ff15/ff.c:6197-6270 | Ends on all inputs; a layout comes out exactly when the inputs make one, of the type and cluster size that they make; it fits the volume, is aligned, has a FAT for all entries, at least 32 reserved sectors on FAT32, and the narrowest FAT whose end and bad marks are not entry numbers |
| `Mkfs.GivenUnit` | dep/ff15/ff.c:6197-6265 | With a given cluster size a layout comes out if and only if the volume has room for 16 clusters and the clusters left behind the aligned system area suit the type, which the inputs decide |
| `Mkfs.AutomaticUnit` | dep/ff15/ff.c:6197-6270 | An automatic cluster size gives what one explicit size gives, which is the size of the table, its double when FAT16 misses its range, or for FAT32 its half when the clusters are too few: a layout comes out if and only if there is room for that size and the count suits the type |
| `Mkfs.MiddlePlan` | dep/ff15/ff.c:6197-6270 | 32 MiB, all automatic: FAT16 with 8179 clusters of 8 sectors |
| `Mkfs.LargePlan` | dep/ff15/ff.c:6197-6270 | 1 GiB as FAT32: the second round succeeds, with 16 sectors a cluster |
| `Mkfs.TryLayout` | dep/ff15/ff.c:6198-6243 | One round yields a layout if and only if the volume has room, and then of this type, cluster size and cluster count, in terms of the inputs and with all 32-bit wrap-around |
| `Mkfs.AutoUnit` | dep/ff15/ff.c:6214-6214 | The automatic cluster size is the table step that the volume size reaches |
| `Mkfs.AutoCounts` | dep/ff15/ff.c:6202-6220 | Up to the largest step the automatic cluster size leaves a FAT32 volume 0x10000 to 0x20000 clusters and another at most 0xFFFF |
| `Mkfs.MountLayout` | dep/ff15/ff.c:3519-3569 | Accepts exactly the boot records that describe a volume, and finds that volume; its FAT is the narrowest one whose end and bad marks are not entry numbers |
| `Mkfs.Floppy` | dep/ff15/ff.c:3519-3569 | The boot record of a 1.44 MB floppy disk mounts as FAT12 with 2847 clusters, FAT at 1 and data at 33 |
| `Mkfs.RangeIsWidth` | dep/ff15/ff.c:47-49 | The cluster limits of a type are those of its width: the type suits a number of clusters exactly if it has the narrowest entries in which their numbers are apart from the nine highest values |
| `Mkfs.SubType` | dep/ff15/ff.c:3542-3569 | The one FAT type that suits cluster count, FAT size and root directory, if any; it is the narrowest that can number the clusters |
| `Mkfs.MountsAsPlanned` | dep/ff15/ff.c:6276-6305 | A formatted volume mounts as exactly the planned one (type, cluster count, data start) if and only if the plan has a cluster |
| `Mkfs.HasCluster` | dep/ff15/ff.c:6242-6243 | A layout has a cluster if and only if the inputs say so (room for one behind the aligned system area); always for FAT16 and FAT32, and when the erase block is at most 15 clusters |
| `Mkfs.FormatAndMount` | dep/ff15/ff.c:6197-6305 | A layout comes out exactly when the inputs make one and is mounted exactly when the inputs leave room for a cluster, as the planned volume |
| `Mkfs.FormatsWithoutCluster` | dep/ff15/ff.c:6242-6265 | A volume that formats successfully and cannot be mounted, with concrete sizes |
| `Mkfs.PlannedGeometry` | dep/ff15/ff.c:3553-3557 | A volume mounted as planned has the geometry that the file layer relies on |
| `FreshVolume.MountFresh` | dep/ff15/ff.c:3519-3597 | A volume is mounted exactly when the inputs make one with a cluster; unless a device call failed its FAT is the initialised one, the second FAT is its copy, the counter is unknown or right, and the file layer's invariant holds |
| `FreshFat.InitVolume` | dep/ff15/ff.c:6325-6354 | Unless a device call fails all FATs and the root directory are initialised, whatever stood on the device, and nothing else changes; the table then has entries 0 and 1 (and the root cluster on FAT32) in use and all others free |
| `FreshFat.NewTableCounts` | dep/ff15/ff.c:6325-6345 | All clusters of such a table are free, but for the root directory of a FAT32 volume |
| `FreshVolume.FirstFile` | dep/ff15/ff.c:3922-4134 | Format, mount, create a file, write, seek back and read: the volume mounts exactly when the inputs make one; unless a device call fails as many bytes are stored as its clusters hold (all of them, if the data fit) and come back |
| `Lfn.PutLfn` | dep/ff15/ff.c:1967-1992 | The 13 little-endian words in the three name fields of the entry are units 13*(ord-1) on of the name, its end and filler; it holds the checksum, and the last-entry mark exactly on the last part |
| `Lfn.PickLfn` | dep/ff15/ff.c:1929-1958 | Accepts exactly the well-filled entries that fit the buffer, and then stores the words of their three name fields and, for a full last part, the end; nothing else in the buffer changes |
| `Lfn.CmpLfn` | dep/ff15/ff.c:1893-1921 | Accepts exactly the entries whose words equal the units of the buffer up to case, with the same end |
| `Lfn.WordIs` | dep/ff15/ff.c:523-523 | A unit of an entry is a little-endian word of bytes 1 to 10, 14 to 25 and 28 to 31 put together |
| `Lfn.SumSfn` | dep/ff15/ff.c:2061-2072 | The rotating sum of the eleven name bytes, in eight bits |
| `Lfn.DirRead` | dep/ff15/ff.c:2314-2381 | Stops at the first live entry before the end mark; it has a long name exactly when the parts before it are a complete descending sequence with its checksum, and then all of them are in the buffer |
| `Lfn.DirFind` | dep/ff15/ff.c:2425-2461 | Stops at the first entry with the long name or the short one; finds none exactly when there is none before the end mark |
| `Lfn.DirRegister` | dep/ff15/ff.c:2534-2560 | Stores the parts last first and the short entry, and changes nothing else |
| `Lfn.RegisterThenRead` | dep/ff15/ff.c:2314-2560 | A registered name (1 to 255 units, multiples of 13 included) is read back as the same terminated name, from wherever the reading started, if it gets there; from its first entry it does |
| `Lfn.StoredIsFound` | dep/ff15/ff.c:2439-2450 | A stored name is matched by exactly the names equal to it up to case, whatever lies behind the name in the buffer |
| `Lfn.RegisterThenFind` | dep/ff15/ff.c:2425-2560 | After a name was registered a search for another ends there or earlier if they are equal up to case, and does not end there if they are not |
| `LfnExample.List` | dep/ff15/ff.c:2314-2381 | A directory given byte by byte, with a label, its own entry, a deleted file and readme.markdown: it is listed with its long name, past the others |
| `LfnExample.Find` | dep/ff15/ff.c:2425-2461 | Searched for ReadMe.MarkDown, the file is found |
| `LfnExample.ShortSum` | dep/ff15/ff.c:2061-2072 | The checksum of the name README~1.MAR is 0x9C |
| `Lfn.StoredIsRead` | dep/ff15/ff.c:2350-2369 | The entries of a registered name form a complete sequence |
| `PatternMatch.PatternMatch` | dep/ff15/ff.c:2801-2845 | Ends, and matches exactly when the wildcard runs do not exceed the recursion limit and the code's reading of the pattern fits the name, for all patterns and names |
| `PatternMatch.MatchesGlob` | dep/ff15/ff.c:2801-2845 | The matcher agrees with the meaning of ? and * on all names if and only if the pattern has at most four wildcard runs, none with 256 question marks or more |
| `PatternMatch.CodeIsGlob` | dep/ff15/ff.c:2822-2834 | For runs of fewer than 256 question marks the skip word means the wildcards of the run |
| `PatternMatch.FindMatch` | dep/ff15/ff.c:4748-4750 | The call of f_findnext: the glob meaning of the pattern under those two conditions |
| `Share.Table.ChkShare` | dep/ff15/ff.c:953-977 | Answers by the open objects only: a writer excludes all, readers exclude writing and deleting, and a new object needs a free slot |
| `Share.Table.IncShare` | dep/ff15/ff.c:989-1017 | Counts the access in the object's one slot; fails exactly without a free slot or for writing an open object; a read open of a marked object, which chk_share refuses, counts the mark up |
| `Share.Table.DecShare` | dep/ff15/ff.c:1020-1041 | Undoes one access and frees the slot of the last one; on a free slot nothing that counts changes; FR_INT_ERR exactly for index 0 or past the table |
| `Share.Table.ClearShare` | dep/ff15/ff.c:1044-1053 | Removes exactly the objects of the volume |
| `Share.Table.EnqShare` | dep/ff15/ff.c:980-986 | There is room exactly while fewer objects are open than there are slots |
| `Share.Table.OpenObject` | dep/ff15/ff.c:3758-3837 | chk_share followed by inc_share: granted exactly when permitted, and inc_share then never fails |
| `Share.RunsAgree` | dep/ff15/ff.c:953-1041 | Every run of opens and closes in which no object has 256 readers at once goes as readers and writers should |
| `Share.StepsAgree` | dep/ff15/ff.c:953-1041 | One open or close is handled rightly exactly if its object does not have 256 readers (or the open is for writing) |
| `Share.ReadersAndWriter` | dep/ff15/ff.c:1015-1033 | 256 readers of which one leaves do not keep a writer out: the run that shows it |
| `Share.CloseUndoesOpen` | dep/ff15/ff.c:989-1041 | Closing restores the state before a permitted open |
| `Share.AllowedRightly` | dep/ff15/ff.c:952-982 | What is granted never conflicts with what is open, and nothing is refused without need: no open object is written or deleted, none that is written is read, and only a new object needs one of the 48 slots |
| `BlockIo.BlockCount` | components/fs/fat/io.c:121-134 | Head, tail and (possibly negative) middle add up to the rounded-up end minus the rounded-down start, in 32 bits |
| `BlockIo.Disk.DiskRead` | components/fs/fat/io.c:112-150 | The buffer gets exactly the requested sectors and the device stays |
| `BlockIo.Disk.DiskWrite` | components/fs/fat/io.c:152-211 | Exactly the requested sectors change, on every alignment; a failed request changes nothing, and a read is needed only for unaligned ends |
| `BlockIo.Disk.ReadModifyWrite` | components/fs/fat/io.c:192-205 | Bytes of the transferred blocks outside the request keep their values |
| `BlockIo.SectorAfterWrite` | components/fs/fat/io.c:152-211 | Reading a sector after a write: from the buffer if it was written, as before if not |
| `BlockIo.TransferBytes` | components/fs/fat/io.c:152-211 | What a read delivers and a write stores, byte by byte: sector s is the ss bytes from ss * s on |
| `BlockIo.BlocksOfWhole` | components/fs/fat/io.c:133-136 | A transfer of m blocks' worth of sectors takes m blocks if it starts at a block and m + 1 otherwise, so a whole cluster passes the size assertion only when aligned |
| `PacketPool.PktsWaiting.constructor` | examples/firewall/routing/packet_queue.c:12-21 | All nodes on the free list, no queue |
| `PacketPool.PktsWaiting.FindNode` | examples/firewall/routing/packet_queue.c:28-39 | The root of the first queue for the address, or none |
| `PacketPool.PktsWaiting.PushChild` | examples/firewall/routing/packet_queue.c:46-69 | The packet joins the end of its queue and nothing else changes; refused exactly when full; free list, root list and child lists still hold every node once |
| `PacketPool.PktsWaiting.Push` | examples/firewall/routing/packet_queue.c:71-105 | A new queue of one packet in front of the others, under the same invariant |
| `PacketPool.PktsWaiting.FreeParent` | examples/firewall/routing/packet_queue.c:107-148 | The queue of the root disappears, all its nodes are free again, the other queues stay in order, under the same invariant |
| `PacketPool.PktsWaiting.ChildOrder` | examples/firewall/routing/packet_queue.c:41-44 | Walking the child links from a root visits the packets of its queue first come first |
| `PacketPool.MapFind` | examples/firewall/routing/packet_queue.c:28-39 | With distinct addresses, finding a root is a map lookup |
| `PacketPool.MapPush` | examples/firewall/routing/packet_queue.c:71-105 | ... starting a queue adds one entry |
| `PacketPool.MapAppend` | examples/firewall/routing/packet_queue.c:46-69 | ... a further packet appends to the entry of its address |
| `PacketPool.MapRemove` | examples/firewall/routing/packet_queue.c:107-148 | ... and freeing a root removes exactly its entry |
| `Router.Router.RouteOne` | examples/firewall/routing/routing.c:166-327 | One packet goes where the verdict on its header says (home, web server, out of an interface, or waiting), by routing table, ARP state and room; the time to live drops exactly on packets that may be routed, and an ARP request is made exactly for the first packet that waits for an address |
| `Router.Router.VerdictJustified` | examples/firewall/routing/routing.c:184-327 | That verdict is right by header, routes and ARP table: to the web server exactly TCP traffic for port 80 of the own address; out of an interface only to a reachable next hop there, which is not the router and for whose subnet the packet is no broadcast; waiting only for an unknown or pending one with room; home in all other cases |
| `Router.JustifiedOnce` | examples/firewall/routing/routing.c:184-327 | For every packet there is exactly one such way |
| `Router.Router.Forward` | examples/firewall/routing/routing.c:242-327 | A packet that may be routed leaves for the resolved next hop on the resolved interface, waits for exactly that address, or goes home |
| `Router.Router.Deliver` | examples/firewall/routing/routing.c:281-327 | Transmit, wait or drop by the ARP state of the next hop and the room for waiting |
| `Router.Router.Wait` | examples/firewall/routing/routing.c:303-323 | A waiting packet joins the queue of its address; only the first one causes an ARP request |
| `Router.Router.AnswerOne` | examples/firewall/routing/routing.c:113-160 | One ARP reply moves each packet waiting for the address exactly once, in order, out or home, and empties its queue only |
| `Router.Router.ProcessArpWaiting` | examples/firewall/routing/routing.c:111-161 | All replies are acted on, in order |
| `Router.AnsweredAllKeeps` | examples/firewall/routing/routing.c:111-161 | No ARP reply loses or duplicates a buffer |
| `RouterRun.AnsweredPackets` | examples/firewall/routing/routing.c:113-160 | The packets waiting for the address of a reply leave over the interface in order, or, if it cannot be reached, each goes back to the interface it came from; all others stay |
| `RouterRun.AnsweredNone` | examples/firewall/routing/routing.c:126-132 | A reply for which nothing waits changes nothing |
| `Subnets.BroadcastBits` | examples/firewall/routing/routing.c:262-262 | The broadcast test is met exactly by the address with the same highest bits as the hop and all others set |
| `Subnets.MulticastBits` | examples/firewall/routing/routing.c:187-189 | Multicast addresses are exactly those that begin with the bits 1110 |
| `Router.Router.Route` | examples/firewall/routing/routing.c:163-331 | Over the whole call every buffer is kept exactly as often as it was, and all filter queues end up empty; the packets are treated in the order of interfaces, filters and arrival, each rightly at its time, and each queue ends up as it was followed by the packets that belong there, in that order |
| `RouterRun.WebserverGets` | examples/firewall/routing/routing.c:203-217 | The web server gets exactly the TCP traffic for port 80 of the own address that came in, in order |
| `RouterRun.SentOnlyReachable` | examples/firewall/routing/routing.c:242-327 | What leaves over an interface came in for others with hops left, and the routes lead from its address to a hop that is reachable there |
| `RouterRun.WaitOnlyUnknown` | examples/firewall/routing/routing.c:300-323 | A packet waits for an address because it did before, or because the routes lead it there and the ARP table has no answer yet |
| `RouterRun.RequestsForNewQueues` | examples/firewall/routing/routing.c:303-320 | ARP requests are made for exactly the addresses for which a queue is started, in that order |
| `Router.Router.Notified` | examples/firewall/routing/routing.c:447-459 | So does a whole notification: ARP replies on any interfaces, then routing |
| `Router.OnePlace` | examples/firewall/routing/routing.c:163-331 | A buffer that exists once is in exactly one of the five kinds of place |
| `VirtTx.ExtractOffset` | examples/firewall/net_components/firewall_network_virt_tx.c:26-49 | The first region that holds the bus address, and the offset in it |
| `VirtTx.VirtTx.TxProvide` | examples/firewall/net_components/firewall_network_virt_tx.c:51-116 | Every queued buffer reaches the driver as a bus address in its region; unacceptable ones go straight back to their own client |
| `VirtTx.VirtTx.TxReturn` | examples/firewall/net_components/firewall_network_virt_tx.c:118-144 | Every returned buffer goes to exactly one client, in order |
| `VirtTx.NetHome` | examples/firewall/net_components/firewall_network_virt_tx.c:26-36 | With disjoint regions a net client's acceptable buffer comes back to it with its offset |
| `VirtTx.AcceptedSlots` | examples/firewall/net_components/firewall_network_virt_tx.c:51-60 | Accepted offsets are exactly the starts of the buffers of 2048 bytes in the region |
| `VirtTx.AcceptedApart` | examples/firewall/net_components/firewall_network_virt_tx.c:51-60 | So accepted buffers lie in the region as a whole, and no two of them overlap |
| `VirtTx.FwHome` | examples/firewall/net_components/firewall_network_virt_tx.c:38-49 | A firewall client's buffer comes back to it with its offset if and only if the offset lies within the capacity of that client's free queue |
| `VirtTx.NoWayHome` | examples/firewall/net_components/firewall_network_virt_tx.c:38-104 | Capacities for which an accepted buffer has no home |
| `VirtTx.Cycle` | examples/firewall/net_components/firewall_network_virt_tx.c:51-144 | A full cycle of a driver that sends in order gives every client back exactly its buffers, with their offsets and in their order |
| `VirtTx.Run` | examples/firewall/net_components/firewall_network_virt_tx.c:51-144 | Every run of both calls and a driver that sends any part of its buffers in any order keeps for each client exactly its buffers with their offsets; when none is on its way all are back |
| `RoutingTable.Table.FindRoute` | examples/firewall/routing/routing_table.c:22-61 | Equals the recursive longest-prefix lookup on the set of routes with three lookups, whatever the order of the table; the route it ends with has no next hop and the longest prefix of the resulting address; without a route address 0 and the other results untouched |
| `RoutingTable.Table.FindMatch` | examples/firewall/routing/routing_table.c:25-39 | The one route that agrees with the address in its highest bits and of which no other has more, or none if none agrees |
| `RoutingTable.LookupLongest` | examples/firewall/routing/routing_table.c:25-39 | A lookup on the set of routes finds exactly the route with the longest prefix of the address, bit by bit |
| `RoutingTable.ResolvedLongest` | examples/firewall/routing/routing_table.c:22-61 | An address is resolved by a route without next hop that has the longest prefix of the address it resolves to |
| `RoutingTable.DefaultAndHost` | examples/firewall/routing/routing_table.c:31-31 | A default route covers every address, a route of 32 bits its own only |
| `Subnets.MaskedBits` | include/lions/firewall/common.h:74-76 | Masking an address keeps its highest n bits and clears the others |
| `Subnets.MaskedAgree` | include/lions/firewall/common.h:74-76 | Two masked addresses are the same exactly if their highest n bits are |
| `RoutingTable.LookupFails` | examples/firewall/routing/routing_table.c:41-45 | A lookup fails exactly when no route covers the address |
| `RoutingTable.ResolvesByHops` | examples/firewall/routing/routing_table.c:22-61 | An address resolves exactly when fewer next hops than the limit lead to a directly connected one, and then to that one |
| `RoutingTable.HopsOfResolved` | examples/firewall/routing/routing_table.c:47-56 | ... and conversely; only the address asked for itself can resolve to address 0 |
| `RoutingTable.CyclesUnreachable` | examples/firewall/routing/routing_table.c:22-61 | Next hops that come back to an address lead to no route, whatever the limit |
| `RoutingTable.Table.AddRoute` | examples/firewall/routing/routing_table.c:63-102 | Adds the masked route exactly when it is valid, fits and no route has its subnet; otherwise the code's error, in the code's order, and no change; routes stay canonical and unique |
| `RoutingTable.AddedLookup` | examples/firewall/routing/routing_table.c:63-102 | A new route takes exactly the addresses it covers that had no longer match |
| `RoutingTable.Table.RemoveRoute` | examples/firewall/routing/routing_table.c:104-114 | Removes exactly the route of the index and keeps the order of the others; the remaining routes stay canonical and unique |
| `RoutingTable.Shift` | include/lions/firewall/array_functions.h:22-33 | Everything behind the index moves up by one |
| `RoutingTable.Init` | examples/firewall/routing/routing_table.c:116-129 | Succeeds exactly for few enough valid routes to distinct subnets, and then holds them all, masked |
| `TcpRing.Socket.RecvCallback` | lib/sock/tcp.c:133-190 | A segment is accepted as a whole, exactly when it fits, behind the unread bytes; none of these is overwritten; state changes on the null segment |
| `TcpRing.Socket.Recv` | lib/sock/tcp.c:417-446 | For everything that may arrive while it waits: the next bytes of those accepted, the smaller of the requested number and all there are; blocked if and only if the ring is empty, blocking was asked for and nothing that arrives wakes it; ENOTCONN exactly when not connected, even with bytes unread |
| `TcpRing.Socket.Fill` | lib/sock/tcp.c:149-157 | The copy loop ends and appends the segment to the ring across the wrap |
| `TcpRing.Socket.Drain` | lib/sock/tcp.c:433-443 | The copy loop ends and takes the oldest bytes across the wrap |
| `TcpRing.UnreadAtClose` | lib/sock/tcp.c:159-163 | Bytes that are unread when the peer closes cannot be read: the run that shows it, for every segment |

## Left out

- FatAlloc.GetFree: with entry 0 or 1 equal to zero the count of the code is too high, and the contract says by how much
- FileIo.Lseek: says nothing about the bytes between the old end of a file and a position beyond it, which the code leaves as they are on the device
- LinkMap.CreateLinkMap: requires a chain that has an end, proper or not; on a cyclic FAT the code does not end
- Router.Router.Route: room in the transmit, web server and free queues is assumed, and in the ARP request queue for an address that is pending without a waiting packet (the guard checks that queue only for unknown addresses)
- VirtTx.VirtTx.TxReturn: requires that every returned address lies in some client's region, an assertion of the code
- Lfn.DirRegister: starts where the entries have been allocated; the search for a short name without collision is not modelled
- FreshVolume.MountFresh: the boot record is written and read as a value, and the file is created without its directory entry
- ExfatRemove.TruncateEx: chain, size and bitmap only, after f_lseek has written the last fragment's links; the dirty buffer is not part of it
- exFAT directories and exFAT file reading, writing and seeking: allocation, links, completion, release, truncation and counting are modelled there
- f_truncate on FAT12/16/32 volumes beyond its chain part (FatChains.CutChainAt): the buffer may keep a sector of a released cluster
- f_write through a link map, and f_expand
- f_open, f_close, path parsing, directory entries of files other than their names, f_sync's directory update, FSInfo
- dir_alloc, dir_next and dir_sdi: a directory is an array of entries with room where dir_register is told to write; disk errors in directory operations
- exFAT, GPT and MBR creation in f_mkfs and the exFAT checks of mount_volume
- code pages, the tiny build, reentrancy, trim, volume labels, timestamps
- ff_wtoupper is any function that is 0 only at 0, and UTF decoding is left out: names are sequences of units or characters
- the ARP table is any table of states; MAC addresses, checksums, ICMP messages and notifications of the router
- the signal re-check loops and cache maintenance of the virtualiser, queue capacities and wake-ups
- the kernel, lwIP and coroutines: a blocked reader is given the segments that arrive meanwhile
- the other operations of the TCP socket and of the file server
