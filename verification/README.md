# Verified models of a PS2 storage stack

Dafny models of the parts of this repository that move and keep data, with proofs of what they
are for: the FAT/exFAT file system, the block cache and fragment remapping below it, the USB host
driver's bookkeeping, SD-card transfers, the SMB read-ahead buffer, and a few codecs.
`dafny verify dfyconfig.toml` checks everything.

**FAT and exFAT** (`bdmfs_fatfs/src/ff.c`). The configuration is the one in
`bdmfs_fatfs/src/include/ffconf.h`: read and write, long names, exFAT, 64-bit sector numbers,
512-byte sectors, no fast seek, no trim, and `FF_FS_TINY`, so that file data goes through the one
sector window of the volume. `FatLayout` says where table entries and bitmap bits live and what
changing one byte does to all others; `FatVolume` is the window over the disk, a class whose
`View` (disk overlaid by window) every access is specified by; `FatChains` relates an allocation
record, lazily kept on exFAT, to the chain it stands for; `FatFile` follows, stretches and cuts
chains; `FatContent` and `FatFileState` say which byte of a file is where and what one step does to
it; `FatFileIo` is the open file; `FatSession` runs any sequence of operations on it against a
string of bytes. Every disk access may fail, and a failed write leaves anything in its sectors;
an operation that is aborted by that still leaves all other files alone, and none is aborted unless an
access failed or the table was damaged before.

**Block devices** (`libbdm`, `get_frag_list`). `BlockCache` and `Defrag` work on a device whose
transfers may fail or stop short (`BlockDevice`); `FragmentList` ties fragment lists to chains.

**USB** (`usbd`). `UsbState` holds the invariant over descriptors, look-up table, endpoints and
requests, `UsbSteps` and `UsbSetup` the steps as functions with their preservation proofs, `UsbHost`
the driver itself and all its runs together with a host controller that retires descriptors when
it likes. `TimerList` is the delta-encoded timer list.

**SD card, SMB, codecs.** `SdCard` lets the interrupt handler run between any two accesses of the
thread to the record they share, when receiving and when sending; `SmbCache` shares one buffer among
handles and loses its connection at any time; both count what went wrong, and deliver all that was asked
for as long as the retries can make up for it; `Des`, `Md4`, `Crc`, `Utf` and `Lfn` relate fast or
streaming forms to plain definitions.

Properties that turned out to hold only in part are stated with their exact condition:

- `FragmentList.GetFragList` covers the whole chain if and only if the links reach all of it and the end
  mark is not the number of the next cluster. On exFAT the links do not reach past the first fragment
  while the last one is unwritten, so a fragmented file can be judged contiguous (`SeenContiguous`);
  the end mark can be mistaken on a damaged FAT volume (`EndTakenForNext`); and on an empty file the
  loop never ends (`EmptyNeverEnds`).
- A cancelled timer leaves the others alone if and only if it was the last, or stored 0 and was not the
  first, or was the first, stored at most 1, and the next one stores 0 (`TimerList.CancelHarmless`).
- A USB endpoint with queued requests waits for descriptors after a step if and only if the step does not try a
  request while the endpoint is halted: such a try takes it off the list (`UsbHost.SteppedAttends`), and a
  request submitted between a failure and its interrupt then stays in the queue (`UsbHost.QueuedWhileHalted`).
- Killing a USB endpoint keeps every descriptor in one place if and only if none of the endpoint is in a
  done queue (`UsbHost.Hcd.KillEndpoint`). Setup and data descriptors ask for no interrupt, so one can
  stay there for as long as nothing else completes, and a kill then frees it (`UsbHost.KillInTransfer`).
- An SMB open leaves the read-ahead buffer right if and only if it does not truncate the buffered file
  (`SmbCache.Client.Open`); after one that does, covered reads deliver the old bytes (`SmbCache.StaleRead`).
- A file is settled on the disk after a synchronisation that succeeds with its flag set. The flag is also
  cleared when the window could not be written, and the next synchronisation then reports success
  without doing anything (`FatFileIo.SyncTwice`).
- MD4 pads as RFC 1320 demands if and only if the message is shorter than 2^29 bytes (`Md4.PadsAsDefined`).

## Model

| member | source | states |
|---|---|---|
| FatLayout.EncodeDecodes | bdmfs_fatfs/src/ff.c:1213-1262 | Writing an entry of any FAT kind into the table bytes makes exactly that entry read back the stored value; every other entry, also the one that shares a FAT12 byte, decodes as before |
| FatLayout.Fat32KeepsTopBits | bdmfs_fatfs/src/ff.c:1247-1258 | A FAT32 store leaves the top four bits of the 32-bit word as they were |
| FatLayout.TableStores | bdmfs_fatfs/src/ff.c:1213-1262 | The table as a map: bytes written as the encoding demands change one entry and no sector outside the table |
| FatLayout.HalfStored | bdmfs_fatfs/src/ff.c:1226-1238 | A FAT12 store that stops between its two bytes disturbs no other entry |
| FatLayout.EntryIsNumber | bdmfs_fatfs/src/ff.c:1135-1169 | The format on the disk, independent of the codecs: entry c is three half bytes from 3c on, four from 4c on, or 28 or 31 bits from 8c on, lowest first |
| FatLayout.ClusterSectorIs | bdmfs_fatfs/src/ff.c:1118-1126 | Cluster c begins at the start of the data area plus c - 2 clusters; exactly the numbers that are no cluster give 0 |
| FatLayout.BitIs | bdmfs_fatfs/src/ff.c:1297-1300 | Bit j of a bitmap byte is the digit of weight 2^j |
| FatLayout.WithBitFlips | bdmfs_fatfs/src/ff.c:1334-1341 | Flipping a bit of the bitmap changes that cluster's state and no other |
| FatLayout.BitmapFrame | bdmfs_fatfs/src/ff.c:1278-1347 | The set of free clusters depends on the bitmap's sectors only |
| FatVolume.Volume.SyncWindow | bdmfs_fatfs/src/ff.c:1029-1047 | Writing the window back leaves the view; a clean window results on success, and the second table copy is equal again as long as no write failed |
| FatVolume.Volume.MoveWindow | bdmfs_fatfs/src/ff.c:1051-1072 | Moving the window leaves the view, also when the disk fails or leaves anything in the buffer; a window moved elsewhere is clean |
| FatVolume.Volume.LoadEntry | bdmfs_fatfs/src/ff.c:1135-1169 | Returns the entry of the view's table, or the disk-error value, which no entry holds, only if an access failed |
| FatVolume.Volume.PutFat | bdmfs_fatfs/src/ff.c:1213-1262 | On success the table is the old one with one entry replaced by the stored value; on failure no other entry has changed |
| FatVolume.Volume.ReadThrough | bdmfs_fatfs/src/ff.c:3904-3909 | A direct read with the dirty window laid over it gives the sectors of the view |
| FatVolume.Volume.WriteThrough | bdmfs_fatfs/src/ff.c:4019-4025 | A direct write with the window refilled and cleaned makes exactly those sectors of the view the new data; one that fails changes no other sector |
| FatVolume.Volume.PatchSector | bdmfs_fatfs/src/ff.c:4036-4055 | Copying into a sector through the window changes that sector only, at the given place only unless it was blank; a blank one is not read, so with a clean window no disk access can fail |
| FatVolume.Volume.FindBitmap | bdmfs_fatfs/src/ff.c:1278-1311 | Returns the first cluster, on the cyclic way from the given one, whose bit in the bitmap byte is 0, in terms of that byte; none only if every bit is 1 |
| FatVolume.Volume.ScanSector | bdmfs_fatfs/src/ff.c:1294-1310 | The inner loops of the scan miss no bit of a sector, at its end and at the wrap-around |
| FatVolume.Volume.ChangeBitmap | bdmfs_fatfs/src/ff.c:1318-1347 | Sets exactly the bits of a block, all of which had the other value, in terms of the bitmap bytes; an internal error means one had not, and bits outside the block never change |
| FatVolume.Volume.FlipSector | bdmfs_fatfs/src/ff.c:1334-1345 | The inner loops of that: bits of one sector, in order, up to one that has the value already |
| FatVolume.FirstByteOne | bdmfs_fatfs/src/ff.c:1297-1302 | With a first bitmap byte of 0x01 cluster 2 is in use and clusters 3 to 9 are not |
| FatChains.LinkFollows | bdmfs_fatfs/src/ff.c:1171-1195 | With no unwritten fragment the link of every cluster, made up or read, is its true successor and the end after the last; with one it is so for the last cluster |
| FatChains.GrowAdjacent | bdmfs_fatfs/src/ff.c:1536-1538 | The record after taking the next cluster on the disk stands for the chain with it appended |
| FatChains.GrowFragment | bdmfs_fatfs/src/ff.c:1539-1543 | ... and after linking the last fragment to a cluster elsewhere |
| FatChains.BreakUp | bdmfs_fatfs/src/ff.c:1531-1534 | A contiguous chain about to be broken keeps all its links known as a first fragment |
| FatChains.FillOne | bdmfs_fatfs/src/ff.c:1377-1392 | Writing one link of the last fragment keeps all links known, with one less to write |
| FatChains.FillFirst | bdmfs_fatfs/src/ff.c:1354-1370 | With the first fragment written the whole chain is in the table |
| FatChains.Cut | bdmfs_fatfs/src/ff.c:1464-1486 | What is left of a cut chain, contiguous or not, is what the record and the table still say |
| FatChains.GrowTable | bdmfs_fatfs/src/ff.c:1574-1577 | On FAT, marking a free cluster as end and linking to it appends it to the one chain |
| FatChains.OtherChainSame | bdmfs_fatfs/src/ff.c:1403-1589 | Any chain in other clusters, lazily kept or not, reads the same after a change of this object |
| FatFile.FileObject.GetFat | bdmfs_fatfs/src/ff.c:1135-1203 | The link of a cluster as the record and the view's table give it, or a disk error |
| FatFile.FileObject.FillFirstFrag | bdmfs_fatfs/src/ff.c:1354-1370 | Keeps the chain, changes its own table entries only, and afterwards the first fragment is in the table |
| FatFile.FileObject.FillLastFrag | bdmfs_fatfs/src/ff.c:1377-1392 | Every known link stays known even if it fails half way; on success the last cluster holds the terminator |
| FatFile.FileObject.ScanTable | bdmfs_fatfs/src/ff.c:1560-1573 | The cyclic scan from any hint finds the first zero entry after it, or says there is none only if there is none, or meets an entry that holds 1 |
| FatFile.FileObject.CreateChain | bdmfs_fatfs/src/ff.c:1498-1589 | An existing successor is returned and nothing changes; a new cluster was free, is the next one on the disk if that was free, and is appended to this chain only; full is reported only if the count is 0 or nothing is free, a disk error only if an access failed, an internal one only if an entry holds 1; an exact free count stays exact |
| FatFile.GrownApart | bdmfs_fatfs/src/ff.c:1498-1589 | Stretching by a free cluster keeps all chains pairwise disjoint and the others as they were |
| FatFile.FreeMeans | bdmfs_fatfs/src/ff.c:1278-1347 | A cluster is free exactly if its table entry is 0 or, on exFAT, its bit in the bitmap byte is |
| FatFile.FileObject.PickOnTable | bdmfs_fatfs/src/ff.c:1548-1573 | The next cluster on the disk if it is free, else the first free one after the last that was allocated or, with a hint from elsewhere, after the hint; none only if none is free |
| FatFile.FileObject.AppendOnTable | bdmfs_fatfs/src/ff.c:1574-1577 | The free cluster becomes the new end of this chain and leaves the free set |
| FatFile.FileObject.TakeBit | bdmfs_fatfs/src/ff.c:1522-1530 | On exFAT the first cluster with a clear bit from the hint on, and its bit is set; none only if none is free |
| FatFile.FileObject.GrowOnBitmap | bdmfs_fatfs/src/ff.c:1522-1544 | On exFAT a free cluster is appended, and the record stands for the longer chain whether it stayed contiguous, went on or began a fragment |
| FatFile.FileObject.RemoveChain | bdmfs_fatfs/src/ff.c:1403-1489 | Frees exactly the clusters from the cut on, keeps the prefix as a chain, leaves all others intact and keeps an exact free count exact; on exFAT the record says contiguous exactly if the rest of a fragmented chain is, or a chain fragmented in this session ends in its first part; on FAT it also ends on any table contents |
| FatFile.FileObject.RemoveOnTable | bdmfs_fatfs/src/ff.c:1427-1460 | The freeing loop ends for every table, cyclic ones included, by the number of entries that are not zero |
| FatFile.FileObject.RemoveOnBitmap | bdmfs_fatfs/src/ff.c:1427-1460 | On exFAT the loop frees, block by block, the bits of exactly the clusters the links lead through |
| FatFile.FileObject.WalkContiguous | bdmfs_fatfs/src/ff.c:1468-1479 | Reports a rest as contiguous if and only if its clusters follow each other |
| FatFile.CountsRemoved | bdmfs_fatfs/src/ff.c:1437-1440 | Counting one up per freed cluster keeps the free count equal to the number of free clusters |
| FatContent.AddrInjective | bdmfs_fatfs/src/ff.c:1118-1126 | Different sectors of a file are different sectors of the disk |
| FatContent.ContentSame | bdmfs_fatfs/src/ff.c:1498-1589 | Stretching the chain or changing table and bitmap leaves the contents |
| FatContent.PartialWrite | bdmfs_fatfs/src/ff.c:4036-4055 | Replacing part of one sector overwrites exactly those bytes of the file |
| FatContent.DirectWrite | bdmfs_fatfs/src/ff.c:4014-4025 | Writing whole sectors of one cluster overwrites exactly those bytes of the file |
| FatFileState.OtherFileSame | bdmfs_fatfs/src/ff.c:3953-4065 | A file that shares no cluster with the changed ones keeps its chain and its contents |
| FatFileState.DamagedBefore | bdmfs_fatfs/src/ff.c:1560-1573 | An entry that holds 1, which makes the allocator give up, was there before any operation that leaves other clusters alone |
| FatFileState.SettledNow | bdmfs_fatfs/src/ff.c:4096-4100 | With a clean window what the view says of a file is what the disk says |
| FatFileState.StagedGrown | bdmfs_fatfs/src/ff.c:3981-4001 | A chain that got a cluster at the growing edge is ready for the next byte, current cluster last |
| FatFileState.SeekDone | bdmfs_fatfs/src/ff.c:4498-4509 | Where a seek ends, cluster, sector, size and file pointer go together and the old contents are a prefix |
| FatFileIo.OpenFile.FRead | bdmfs_fatfs/src/ff.c:3853-3943 | Delivers exactly the file's bytes at the file pointer, fewer only at its end, and changes nothing, also when it fails; it fails only if a disk access did; the access cases |
| FatFileIo.OpenFile.ReadChunk | bdmfs_fatfs/src/ff.c:3876-3941 | One round of the read loop delivers the next bytes of the file, across a cluster step, directly or through the window |
| FatFileIo.OpenFile.FWrite | bdmfs_fatfs/src/ff.c:3953-4065 | Contents become the old ones with a prefix of the data laid over them; short only if the volume is full or a FAT file reaches 4 GiB - 1; no other file changes, also when it is aborted, which takes a failed disk access or an entry that held 1; an exact free count stays exact |
| FatFileIo.OpenFile.WriteChunk | bdmfs_fatfs/src/ff.c:3978-4059 | One round of the write loop overwrites the next bytes of the file and only them, or reports a full volume with nothing changed |
| FatFileIo.OpenFile.StartChain | bdmfs_fatfs/src/ff.c:3982-3987 | The first cluster of an empty file is a free one and becomes its start |
| FatFileIo.OpenFile.FLseek | bdmfs_fatfs/src/ff.c:4370-4521 | The old contents stay as a prefix, the size grows exactly as far as the pointer, the file is marked as changed exactly if it grew, and only a full volume stops a seek early; it fails only if a disk access did or an entry held 1; other files are left alone on every path |
| FatFileIo.OpenFile.SeekStep | bdmfs_fatfs/src/ff.c:4477-4496 | One cluster along the chain with the size grown over the cluster passed; a full volume ends the seek on the boundary |
| FatFileIo.OpenFile.FTruncate | bdmfs_fatfs/src/ff.c:4845-4886 | Contents become the bytes before the pointer; exactly the clusters that held none of them become free; the file is marked as changed exactly if it shrank; it fails only if a disk access did; other files are left alone on every path |
| FatFileIo.OpenFile.FSync | bdmfs_fatfs/src/ff.c:4074-4144 | After success with the flag set the table on the disk itself spells the chain, or the record says contiguous and the chain is; without the flag no fragment is unwritten and nothing is done; it fails only if a disk access did; contents and other files as before, also then |
| FatFileIo.SyncTwice | bdmfs_fatfs/src/ff.c:4087-4138 | A second synchronisation keeps a settled file settled; after a first one that failed, unless there were fragments to write, it reports success although the window is still dirty |
| FatFileIo.OpenFile.Follow | bdmfs_fatfs/src/ff.c:4477-4496 | The cluster step of writes and seeks: the next cluster of the chain or a new last one, and an unwritten fragment always ends in the current cluster |
| FatSession.Run | bdmfs_fatfs/src/ff.c:3853-4065 | Every run of reads, writes, seeks, truncations and syncs answers as a string of bytes with a position would, cut short only by a full volume or the largest FAT file; the mark for unsaved changes follows every change, and after a sync of a marked file the disk itself spells the file; without a failed disk access, on a table in which no entry holds 1, it ends without an error; other files are left alone in any case |
| BlockCache.AgingStops | libbdm/src/bd_cache.c:112 | Aging lowers every weight above -2048, keeps -2048, and never goes below it |
| BlockCache.ContainsMeans | libbdm/src/bd_cache.c:36-42 | Away from the end of the address space a block contains a range exactly if the range begins and ends in it |
| BlockCache.OverlapsMeans | libbdm/src/bd_cache.c:27-33 | ... and overlaps one exactly if some sector is in both |
| BlockCache.HitIsKept | libbdm/src/bd_cache.c:36-42 | A hit, in 64-bit arithmetic, lies inside what the block really holds, also at the end of the device and of the address space |
| BlockCache.SparedIsRight | libbdm/src/bd_cache.c:27-54 | A block that a write does not overlap still equals the device |
| BlockCache.Cache.Lookup | libbdm/src/bd_cache.c:83-84 | The first block that contains the range, or none |
| BlockCache.Cache.Evict | libbdm/src/bd_cache.c:102-119 | Ages every block once and picks the first of least weight |
| BlockCache.Cache.Fill | libbdm/src/bd_cache.c:126-145 | A miss asks the device once and gives its data or an error; all blocks age, the first of the lightest holds the sectors read or, after a failed or short fill, nothing |
| BlockCache.Cache.Invalidate | libbdm/src/bd_cache.c:44-54 | Empties exactly the blocks that overlap the range |
| BlockCache.Cache.Read | libbdm/src/bd_cache.c:56-145 | A successful read is what the device holds, whatever the weights; a failure comes from the device or from a range outside it; a cached range is served without the device from the first block that contains it, which gets heavier, and a range read in is cached |
| BlockCache.Cache.Write | libbdm/src/bd_cache.c:147-156 | Does to the device what a direct write does and empties exactly the blocks that overlap; no stale block survives a failed or short write, unless the device reaches up to where the end of the range wraps |
| BlockCache.Replay | libbdm/src/bd_cache.c:56-156 | In every run, with transfers failing at any time, each operation answers and changes the device as without a cache; without a failure every range on the device is served |
| BlockCache.ReadAgain | libbdm/src/bd_cache.c:56-156 | What a read has brought in is read again, in any part and after a write elsewhere, without asking the device |
| Defrag.Locate | libbdm/src/bd_defrag.c:18-31 | Finds the fragment of a sector; fails exactly if the list is too short |
| Defrag.Read | libbdm/src/bd_defrag.c:7-53 | Returns the sectors the list names, in order; fails only past its end, outside the device or on a device fault |
| Defrag.Write | libbdm/src/bd_defrag.c:55-101 | Writes the sectors the list names, in order, and whatever happens no others |
| Defrag.ScatterGather | libbdm/src/bd_defrag.c:7-101 | On a list without repetitions what was written is read back and nothing else changes |
| FragmentList.GetFragList | bdmfs_fatfs/src/fs_driver.c:624-653 | The fragments spell the chain's sectors in order; unless a disk access failed, complete if and only if the links reach all clusters and the end mark is not the next cluster's number, and one fragment if and only if what is reached is contiguous; with an unwritten last fragment exactly the first fragment is listed |
| FragmentList.LinkReaches | bdmfs_fatfs/src/ff.c:1171-1195 | Up to the last cluster reached every link is the successor, and there it is an end: all clusters, or the first fragment while the last one is unwritten |
| FragmentList.SeenContiguous | bdmfs_fatfs/src/fs_driver.c:704-706 | An exFAT file of three clusters in two fragments of which the links reach two, so that it is judged contiguous |
| FragmentList.EndTakenForNext | bdmfs_fatfs/src/fs_driver.c:637-651 | A FAT16 chain whose end mark is the number of the next cluster, so that the condition fails |
| FragmentList.ChainSectorsAre | bdmfs_fatfs/src/ff.c:1118-1126 | Sector k of the list is sector k of the file |
| FragmentList.ChainSectorsDiffer | bdmfs_fatfs/src/fs_driver.c:624-653 | The sectors of a file's list are all different |
| FragmentList.WrittenEndApart | bdmfs_fatfs/src/fs_driver.c:638-639 | The end mark the allocator writes is never the next cluster's number, and no end is on exFAT |
| FragmentList.EmptyNeverEnds | bdmfs_fatfs/src/fs_driver.c:636-651 | From cluster 0 the walk goes to 1 and stays there, so the loop does not end on an empty file |
| FragmentList.ListIsFile | libbdm/src/bd_defrag.c:7-53 | A transfer through the list reads, sector by sector, what walking the chain finds |
| UsbState.RetireKeeps | usbd/src/usbd.c:174-213 | A controller that retires a descriptor keeps every descriptor in one place and every line in order |
| UsbState.NothingFollows | usbd/src/usbio.c:102-136 | After the final descriptor of a request nothing of that request follows on its endpoint |
| UsbSteps.TakeDoneKeeps | usbd/src/hcd.c:251-263 | Taking over and reversing the done queue keeps the invariant |
| UsbSteps.DealKeeps | usbd/src/usbd.c:174-213 | Dealing with a retired descriptor frees it and only it; a failed one is the last of its endpoint, which is halted |
| UsbSteps.FlushKeeps | usbd/src/usbd.c:215-243 | Each step of flushing a halted endpoint keeps descriptors and requests accounted for |
| UsbSteps.FlushCallsAll | usbd/src/usbd.c:215-243 | A flush empties the endpoint and calls back every request that had descriptors there |
| UsbSteps.FlushedClear | usbd/src/usbd.c:215-243 | After the flush no request to be called back is in a descriptor |
| UsbSteps.FinishKeeps | usbd/src/usbd.c:247-258 | The request whose callback runs was busy, and is nowhere afterwards |
| UsbSetup.EnqueueKeeps | usbd/src/usbio.c:281-301 | A request that is not busy joins one queue |
| UsbSetup.SetUpKeeps | usbd/src/usbio.c:92-137 | Setting up a request moves it from the queue to descriptors that were free |
| UsbSetup.OpenKeeps | usbd/src/hcd.c:151-160 | An opened endpoint owns one descriptor, its tail |
| UsbSetup.KillKeeps | usbd/src/hub.c:228-279 | A killed endpoint gives all its descriptors back and all its requests up; descriptors stay in one place each if and only if none of it was in a done queue |
| UsbHost.Hcd.FreeTd | usbd/src/mem.c:57-69 | A descriptor is put back unless it is free already |
| UsbHost.Hcd.AllocStages | usbd/src/usbio.c:73-90 | A control transfer gets all its descriptors or none |
| UsbHost.Hcd.SetupControl | usbd/src/usbio.c:67-150 | The first request gets setup, data and status descriptors and a new tail from the free list, or, halted, skipped or short of descriptors, nothing changes but the wait list |
| UsbHost.Hcd.SetupBulk | usbd/src/usbio.c:214-265 | The same for bulk and interrupt transfers, and which endpoints wait afterwards, in which order |
| UsbHost.Hcd.AttachIoReq | usbd/src/usbio.c:277-302 | Accepted if and only if the device is there and the request is not under way; on an attached endpoint that runs, with enough free descriptors, the first request of its queue is in descriptors afterwards |
| UsbHost.Hcd.HcRetire | usbd/src/usbd.c:174-213 | The controller moves the first descriptor of a running endpoint to its done queue and halts the endpoint on failure |
| UsbHost.Hcd.CheckTdQueue | usbd/src/usbio.c:56-65 | Free descriptors go to the endpoint that waits longest, whose first request is then in descriptors if the endpoint runs and there are enough |
| UsbHost.Hcd.OpenEndpoint | usbd/src/hcd.c:151-160 | Opens with one descriptor as tail, or fails only if none is free |
| UsbHost.Hcd.TakeDoneQueue | usbd/src/hcd.c:251-263 | The pending descriptors are the done queue in the order of retirement |
| UsbHost.Hcd.ProcessDone | usbd/src/usbd.c:174-261 | The descriptor is freed; if it failed, its endpoint is not halted any more, has no descriptor but the tail and gives up the requests that had some; if not, the endpoint keeps all but that descriptor; nobody stops being busy before its callback |
| UsbLive.ProcessedDealt | usbd/src/usbd.c:174-245 | What one retired descriptor changes: a failed one leaves its endpoint running and empty, a good one takes only itself off, and no other endpoint changes |
| UsbLive.AwakeProcessed | usbd/src/usbd.c:215-245 | Only an endpoint with a failed descriptor still to be dealt with is halted, also after dealing with one |
| UsbHost.HandledServes | usbd/src/usbio.c:67-265 | Setting up the first request of an endpoint that runs, with enough free descriptors, takes it out of the queue into descriptors with the final one last |
| UsbHost.Hcd.RunCallback | usbd/src/usbd.c:247-258 | Ends one submission of a busy request, by its callback or by dropping it |
| UsbHost.Hcd.KillEndpoint | usbd/src/hub.c:228-279 | Frees exactly the endpoint's descriptors and drops exactly its requests; the invariant holds afterwards if and only if no descriptor of it was in a done queue |
| UsbHost.ValidMeans | usbd/src/usbd.c:174-261 | Every descriptor is in exactly one place; callbacks never outnumber submissions |
| UsbHost.RunAll | usbd/src/usbd.c:174-261 | In every run of submissions, retirements, interrupts, callbacks, detaches and kills each step does what its function says, every descriptor is in one place before each, callbacks do not outnumber submissions, and an endpoint is halted only while a failed descriptor of it is still to be dealt with; if no request was tried on a halted endpoint, every endpoint with queued requests waits for descriptors; the run ends early if and only if a kill meets a retired descriptor, which leaves one in two places |
| UsbHost.SteppedAwake | usbd/src/usbd.c:174-261 | No step leaves an endpoint halted without a failed descriptor to be dealt with |
| UsbHost.SteppedAttends | usbd/src/usbio.c:56-301 | A step keeps all endpoints with queued requests on the wait list if and only if it does not try a request on a halted endpoint |
| UsbHost.ServedAfterFailure | usbd/src/usbd.c:215-261 | A run in which a bulk transfer fails, is called back, and the next request on the endpoint is in a descriptor |
| UsbHost.QueuedWhileHalted | usbd/src/usbio.c:214-265 | A run in which a request submitted between failure and interrupt stays in the queue of a running endpoint with nothing to wake it |
| UsbHost.KillInTransfer | usbd/src/hub.c:228-279 | A run to such a kill: a control transfer whose setup stage is retired, then detach and kill, leaves a descriptor in two places |
| TimerList.InsertedWaits | usbd/src/hub.c:189-226 | Inserting gives the new timer its time and moves no other one |
| TimerList.TickFires | usbd/src/usbd.c:263-282 | A tick fires exactly the timers whose sum, plus one if the first stores 0, is 1, and brings all others one tick nearer |
| TimerList.FiresThen | usbd/src/usbd.c:263-282 | Left alone, a timer is still in the list after t ticks if and only if it fires later than that |
| TimerList.CancelShifts | usbd/src/hub.c:169-187 | A cancel takes exactly what the timer had stored off the sums of those after it, and off no other |
| TimerList.CancelMoves | usbd/src/hub.c:169-187 | By how much a cancel moves the tick at which each other timer fires |
| TimerList.CancelHarmless | usbd/src/hub.c:169-187 | All others fire at their old ticks if and only if the cancelled timer was the last, or stored 0 and was not the first, or was the first, stored at most 1, and the next stores 0 |
| TimerList.CancelHarmlessInTick | usbd/src/hub.c:169-187 | From a callback a cancel leaves all others alone if and only if the timer was the last or stored 0 |
| TimerList.CancelTooEarly | usbd/src/hub.c:169-187 | An instance in which a timer that fires in 5 ticks fires in 2 after a cancel |
| TimerList.CancelLeavesLag | usbd/src/hub.c:169-187 | An instance in which the first timer stores 0 after a cancel, which delays the next by one tick |
| TimerList.Timers.Add | usbd/src/hub.c:189-226 | The timer is due exactly its delay from now, one tick later if the delay is 0 or the first timer stores 0 between ticks; others keep their due ticks, but for a delay of 0 between ticks; an active one is refused |
| TimerList.Timers.BeginTick | usbd/src/usbd.c:263-268 | The first timer is counted down unless it stores 0, and no due tick moves |
| TimerList.Timers.Expire | usbd/src/usbd.c:269-282 | A timer fires exactly at its due tick; when none is left to fire all others are due later |
| TimerList.Timers.Cancel | usbd/src/hub.c:169-187 | Takes out that timer; those before it keep their due ticks, those after it shift by what it had stored and by the tick that a first timer storing 0 costs; unmoved if harmless |
| TimerList.TickAll | usbd/src/usbd.c:263-282 | A tick with callbacks that start and cancel timers: exactly the timers that the list says fire, in that order; what is left is due later |
| TimerList.Run | usbd/src/hub.c:169-226 | In every run of starts, cancels and ticks exactly the timers that the course of the lists says fire, at its ticks; each start has fired, was cancelled or is active, once; if every act was calm where it happened each fires exactly at the tick asked for; runs without cancels and delays of 0 are calm |
| SdCard.RevWordBits | __mx4sio_assault/src/mx4sio.c:689-708 | The mask-and-shift word reversal sends each bit to the mirrored place of its byte |
| SdCard.ReverseBuffer | __mx4sio_assault/src/mx4sio.c:689-708 | Reverses exactly the given words in place |
| SdCard.Driver.Interrupt | __mx4sio_assault/src/mx4sio.c:42-97 | The handler keeps reversed <= transferred <= count and all counted data, and tells the thread of every sector; it aborts exactly if the transfer got stuck or a token that was due is missing |
| SdCard.Driver.ReverseReady | __mx4sio_assault/src/spi_sdcard_driver.c:497-518 | With the handler running before and after every test and count, counted sectors hold the card's data; a sector turned round when the abort came is not counted |
| SdCard.Driver.ServeEvent | __mx4sio_assault/src/spi_sdcard_driver.c:488-524 | No event is lost to the handler running between poll and clear: the thread is told of every sector it has not turned round, and of the end; it gives up only if a poll saw no event |
| SdCard.Driver.ReadMultiDo | __mx4sio_assault/src/spi_sdcard_driver.c:473-527 | The returned number of sectors hold the card's data; all of them unless the transfer was aborted, which it is exactly if something went wrong; it ends |
| SdCard.Driver.Read | __mx4sio_assault/src/spi_sdcard_driver.c:631-712 | With fewer than four things gone wrong and every recovery successful it returns the count; a failed recovery gives an error; when it returns the count every sector of the buffer is its card sector, across retries; nothing behind the buffer changes |
| SdCard.Driver.SendInterrupt | __mx4sio_assault/src/mx4sio.c:100-158 | The handler counts a sector if and only if the card accepted it and the thread had not given up; counted sectors are on the card |
| SdCard.Driver.WriteMultiDo | __mx4sio_assault/src/spi_sdcard_driver.c:569-600 | The returned number of sectors are on the card with the handler running at any time; all of them unless it was aborted, which it is exactly if something went wrong; the handler may still run only after a timeout |
| SdCard.Driver.Write | __mx4sio_assault/src/spi_sdcard_driver.c:714-792 | With fewer than four things gone wrong and every recovery successful it returns the count; the caller's buffer is restored on every path; on success the card holds it, whenever the handler ran; no other sector of the card changes |
| SmbCache.Client.Invalidate | SMB/src/smb_fio.c:144-156 | Forgets buffer and sequence of one handle or of all |
| SmbCache.Client.ReadFile | SMB/src/smb.c:1225-1249 | Requests of limited size put together are the slice asked for, or the read fails, which within the file it does only after a mishap |
| SmbCache.Client.Reconnect | SMB/src/smb_fio.c:333-434 | Empties the buffer; handles keep everything but the length, which each is told anew; without it the client refuses from then on |
| SmbCache.Client.ReadCached | SMB/src/smb_fio.c:470-525 | What is delivered is the file at the position if the buffer was right, and stays right; what the buffer holds is delivered in any case, and without a mishap everything asked for within the length known; the loop ends because a fill makes the next round a hit |
| SmbCache.Client.Read | SMB/src/smb_fio.c:625-659 | A positive result is exactly that many bytes of the file at the handle's position, which moves by it, as long as the buffer is right; unless a request was answered with less than was asked for or a session not restored, it is all that was asked for up to the length known; a read that the buffer covers is answered from it; no other handle moves |
| SmbCache.Client.Write | SMB/src/smb_fio.c:661-692 | Lays all of the data, or after a mishap a prefix of it, over the file, across reconnections; the position moves by what was written and a length that was right stays right, no other handle moves, nothing stays buffered |
| SmbCache.Client.WriteFile | SMB/src/smb.c:1304-1332 | Pieces of limited size put together are a prefix of the data laid over the file, all of it on success |
| SmbCache.Client.Seek | SMB/src/smb_fio.c:1059-1096 | Moves one handle, refused past the length it knows; negative positions are accepted |
| SmbCache.Client.Open | SMB/src/smb_fio.c:528-570 | Takes the first free slot, creates or truncates the file on the server even if the reply is lost; without a mishap it succeeds if and only if there is a slot and a file or leave to create one; the buffer stays right if and only if no buffered file is truncated |
| SmbCache.Client.Close | SMB/src/smb_fio.c:573-600 | Frees the slot and what was buffered for it, without a mishap if and only if the handle is used, or changes nothing |
| SmbCache.StaleRead | SMB/src/smb_fio.c:528-570 | Whenever the buffer covered a read and an open has truncated the file since, the read delivers the old bytes although the file is empty |
| SmbCache.StaleRun | SMB/src/smb_fio.c:528-659 | A run from a new client to such a read: open, two sequential reads, truncating open, and the third byte is still delivered; it takes no more than that all requests are answered |
| SmbCache.Run | SMB/src/smb_fio.c:470-692 | Every run of opens, closes, seeks, reads, writes and reconnections answers as files and handles demand, and as fully as they allow in each operation without a mishap; every read delivers what its file holds as long as no buffered file is truncated |
| Des.FinalUndoesInitial | SMB/src/des.c:522-562 | The final permutation, as swaps of bits between words, undoes the initial one |
| Des.InitialUndoesFinal | SMB/src/des.c:522-562 | ... and the initial one undoes the final one |
| Des.RoundsBack | SMB/src/des.c:364-375 | For any round function and any keys, the rounds with the keys in reverse order lead back |
| Des.Twice1 | SMB/src/des.c:414-416 | The swap by 1 under 0x55555555 is an involution |
| Des.Twice2 | SMB/src/des.c:414-416 | The swap by 2 under 0x33333333 is an involution |
| Des.Twice4 | SMB/src/des.c:414-416 | The swap by 4 under 0x0f0f0f0f is an involution |
| Des.Twice8 | SMB/src/des.c:414-416 | The swap by 8 under 0x00ff00ff is an involution |
| Des.Twice16 | SMB/src/des.c:414-416 | The swap by 16 under 0x0000ffff is an involution |
| Des.Deciphers | SMB/src/des.c:510-568 | Enciphering with the sixteen keys in reverse order recovers the message (FIPS 46-3, deciphering) |
| Des.Injective | SMB/src/des.c:510-568 | Different messages have different ciphers under any key |
| Des.InitialIsIP | SMB/src/des.c:522-530 | Loading and the five swaps put bit IP(j) of the message at place j, for all 64 places of the table of FIPS 46-3 |
| Des.FinalIsFP | SMB/src/des.c:552-568 | The five swaps and storing put the bits where the table FP says |
| Des.FpIs | SMB/src/des.c:522-568 | FP is the inverse of IP |
| Des.RoundsFeistel | SMB/src/des.c:364-375 | The sixteen rounds on halves turned left by one place are those of FIPS 46-3 on plain halves |
| Des.EncipherIsFips | SMB/src/des.c:510-568 | So the cipher is the one that FIPS 46-3 defines |
| Des.FipsOnce | SMB/src/des.c:510-568 | ... and there is only one |
| Des.Des | SMB/src/des.c:510-568 | The program, two rounds at a time on two words, computes that cipher, which is the one that FIPS 46-3 defines by its tables IP and FP for the same keys and a round function on turned halves |
| Md4.PadsAsDefined | SMB/src/md4.c:152-174 | The 32-bit length field pads as RFC 1320, sections 3.1 and 3.2, demands if and only if the message is shorter than 2^29 bytes |
| Md4.PaddedSize | SMB/src/md4.c:163-174 | The padded message is a whole number of blocks |
| Md4.TailBlocks | SMB/src/md4.c:163-174 | What the padded message holds after the full blocks, for tails of 0 to 64 bytes |
| Md4.Md4 | SMB/src/md4.c:145-182 | The loop with its one- or two-block tail folds the compression function over the padded message |
| Md4.InitialBytes | SMB/src/md4.c:132-140 | The registers begin with the bytes 01 23 45 67 ... 10, low-order first (RFC 1320, section 3.3) |
| Md4.LittleEndianAt | SMB/src/md4.c:152-174 | Byte i of a stored word is its digit of weight 256^i |
| Crc.EntryIsByte | __mx4sio_assault/src/spi_sdcard_crc7.c:10-25 | A generated table entry is eight steps of the bit-serial register |
| Crc.GenerateTable | __mx4sio_assault/src/spi_sdcard_crc7.c:10-25 | The generator fills all 256 entries so |
| Crc.Crc7Table | __mx4sio_assault/src/spi_sdcard_crc7.c:47-62 | With such a table the table-driven checksum is the bit-serial one for every message |
| Crc.RomIsGenerated | __mx4sio_assault/src/spi_sdcard_crc7.c:28-44 | All 256 entries of the compiled table are those of the generator |
| Crc.Crc7 | __mx4sio_assault/src/spi_sdcard_crc7.c:28-62 | So the checksum as built, by the compiled table, is the bit-serial one |
| Crc.Crc7Runtime | __mx4sio_assault/src/spi_sdcard_crc7.c:65-79 | So is the one computed at run time |
| Crc.ResetCommand | __mx4sio_assault/src/spi_sdcard_crc7.c:28-62 | The checksum of the reset command 40 00 00 00 00 is 4A, and of nothing 0 |
| Crc.WordIsTwoBytes | __mx4sio_assault/src/crc16.c:13-22 | One step over a word, on an unmasked 32-bit register, is sixteen steps of the bit-serial register |
| Crc.Crc16 | __mx4sio_assault/src/crc16.c:4-27 | The word-at-a-time checksum is the bit-serial one, of all bytes but an odd last one |
| Crc.NineDigits | __mx4sio_assault/src/crc16.c:4-27 | The checksum of the digits 1 to 9 is 31C3 |
| Utf.ThereAndBack | SMB/src/smb.c:334-400 | Units without zero survive the way to UTF-8 and back |
| Utf.BackAndThere | SMB/src/smb.c:334-400 | Shortest-form UTF-8 of one to three bytes survives the way to units and back (RFC 3629, section 3) |
| Utf.EncodesShortest | SMB/src/smb.c:370-400 | The encoder produces shortest form only |
| Utf.UnsupportedLead | SMB/src/smb.c:334-368 | A byte that leads no sequence of one to three bytes becomes one question mark and takes nothing with it |
| Utf.KnownUnits | SMB/src/smb.c:334-400 | U+0041, U+00E9 and U+20AC and their sequences |
| Utf.Utf16ToAscii | SMB/src/smb.c:370-400 | The loop encodes the units before the first zero; its result counts the terminator |
| Utf.AsciiToUtf16 | SMB/src/smb.c:334-368 | The loop decodes, or would run past the terminator exactly if the last sequence is cut off; its result counts the terminator |
| Utf.RoundTrip | SMB/src/smb.c:334-400 | Both loops one after the other give the buffer back |
| Lfn.PutLfn | bdmfs_fatfs/src/ff.c:1932-1957 | Fills the 32 bytes of a directory entry of that order: units at their 13 places, terminator, filler and mark, attribute, type, cluster field and checksum |
| Lfn.PickLfn | bdmfs_fatfs/src/ff.c:1894-1923 | Takes the bytes of an entry if and only if it is well formed and fits, and puts its units at their place |
| Lfn.LastIsHighest | bdmfs_fatfs/src/ff.c:1955-1956 | The mark is on the highest order and on no other, multiples of 13 included |
| Lfn.PutAll | bdmfs_fatfs/src/ff.c:2498-2511 | Writes the entries of a name, highest order first, each with the attribute and the checksum |
| Lfn.RoundTrip | bdmfs_fatfs/src/ff.c:1894-1957 | Every name of 1 to 255 units is back in the buffer, terminated, whatever was there before |

## Left out

- FatFileIo.OpenFile.FSync: does not write the directory entry, and is stated for a file whose last operation was not aborted.
- FatFileIo.OpenFile.FWrite: nothing is promised about this file itself after an aborted operation, as its `err` is set and every later call refuses.
- FatVolume.Volume.FindBitmap: for runs of one cluster, the only length asked for in this configuration; the run counter is not reset at the wrap-around.
- FatFile.FileObject.RemoveChain: on exFAT for well-formed chains only, as a broken one frees bits that other files own.
- FatLayout.EncodeDecodes: exFAT volumes with 0x7FFFFFFF table entries are excluded, as there "end of chain" and a cluster number coincide.
- FragmentList.GetFragList: the width of a fragment's count is not modelled, as its type is not part of this repository; empty files, on which the loop never ends, are in `EmptyNeverEnds`.
- BlockCache.Cache.Read: weights are unbounded integers, so that their overflow after more than a million hits without a miss is not modelled; they do not influence what is read.
- Defrag.Read: sums of fragment lengths are not cut to 64 bits.
- UsbHost.Hcd.KillEndpoint: nothing is stated of steps after a kill that met a retired descriptor; no callback of the endpoint is about to run, as timers and callbacks are handled by one thread, one after the other.
- UsbHost.Hcd.ProcessDone: byte counts and result codes of requests are not modelled.
- UsbHost.RunAll: lists linked through `next` and `prev` are sequences, so order is captured and pointer updates are not; isochronous transfers are left out.
- TimerList.Timers.Add: the doubly linked list is a sequence, and activity is membership in it.
- SdCard.Driver.Read: the checksum option is off, as configured; the data of a completed transfer are taken to be the card's; cards have at most 2^32 sectors, here and in `Write`.
- SdCard.Driver.ReverseReady: turning one sector round is one step; meanwhile the handler writes to other sectors only.
- SmbCache.Client.ReadCached: the connection breaks finitely often; a session that cannot be restored stays lost, as logging on again is left out; the framing of requests is left out, and so are removing and renaming files.
- Des.Des: S-boxes and key schedule are data, so the round function and the sixteen key pairs are arbitrary.
- Md4.Md4: the compression function is arbitrary; from 2^28 bytes on the bit count overflows a signed integer, which is taken to wrap.
- Crc.GenerateTable: is compiled only if the table is kept in RAM; the configured mode is compared with a name that is defined nowhere (`spi_sdcard_crc7.c:7`), so that the compiled table is used.
- Utf.AsciiToUtf16: what follows the terminator in memory is not modelled.
- FatFs directories, mounting, formatting, volume locking, the FSInfo sector, time stamps and the non-tiny per-file buffer.
- The mount table and partition drivers of the block-device manager: slot scans.
- USB enumeration, hubs and resets; hardware registers and start-up of every driver.
- SMB session set-up, directory search and the other SMB requests; authentication beyond the DES and MD4 primitives.
- The ATA driver's transfers, network stack fragments, printing and module entry points.
