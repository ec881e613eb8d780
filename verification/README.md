# Verified models of Luma3DS

This project models, in Dafny, the parts of Luma3DS that keep or move other people's data, and proves
what they are for. `dafny verify dfyconfig.toml` checks all of it.

**The FAT filesystem** (`arm9/source/fatfs/ff.c`) is built up in layers, each shown to look like
something simple to the layer above:

| layer | files | looks like |
|---|---|---|
| device with failing transfers | `Disk` | an array of sectors |
| one-sector write-back window, mirrored FAT | `Volume` | one logical disk |
| three packed FAT layouts | `FatLayout`, `Volume` | a sequence of entries |
| allocation and release of clusters | `Chains`, `Allocator` | disjoint chains, one for each file |
| the sectors of a file | `FileMap`, `FileState`, `LinkMap` | its bytes |
| read, write, seek, truncate | `Files`, `FileRead`, `FileGrow`, `FileWrite`, `FileFollow`, `FileLinks`, `FileSeek`, `FileTruncate` | a byte sequence with a position |
| whole runs on one file | `Effects`, `PlainFiles`, `FileRuns` | a byte sequence that nobody else notices |
| whole runs on any number of files | `PlainScenes`, `SharedRuns`, `StaleBuffer` | independent byte sequences |

Beside it: the geometry check at mount time (`Mount`), long file names in directories (`LongNames`) and
the wildcard matcher (`PatternMatch`).

**Smaller cores**: the in-place backward LZSS decoder (`Lzss`), the AES-CTR layer of the NAND (`CtrNand`),
the Arm9/Arm11 mailbox (`Mailbox`), the rewriting of MMU tables (`Mmu`), the byte search (`Memsearch`) and
the session table (`Sessions`). `Words`, `Arith`, `Flatten` and `Geometry` are shared helpers.

## How to read it

* Code that changes state is a class or a method with the source's own fields and loops. A long C function
  is cut into methods along its branches; the method with the name of the function puts them together.
* A device may fail at any transfer. A failed read leaves unknown bytes in the buffer, a failed write unknown
  bytes in the sectors it was aimed at. `Disk.faults` counts failures, so a contract can say "a disk error
  only after a failed transfer" and "unless a transfer failed"; what holds in spite of failures is stated
  without that condition. `Disk.reliable` marks a device that never fails.
* `Volume.fat` and `File.chain`, `File.content`, `File.mapped` are ghost fields: the decoded FAT, the clusters
  and the bytes of the file, and the chain that its link map lists. `Valid()` ties them to the real state.
* `Snap()` is what users of a volume see. `Keeps`, `Updates`, `Spares`, `Confined` and `Advances` say what may
  differ between two such snapshots, from "nothing but the mirror" to "only the file's own clusters, and
  clusters that were free and are the file's now".
* A run has a trace. Its entries list the plain files, their clusters, the FAT, the known number of free clusters
  and the failed transfers, and each follows from the one before (`PlainFiles.RunStep`,
  `PlainScenes.SharedStep`): an entry cannot be chosen to explain why a write stored nothing.
* Contracts speak of decoded values: entries, fields, counters, translations. The lemmas named `...InBytes`,
  `...InBits` and `...InNumbers` state what decoding means in the bytes and bits themselves, with literal offsets
  and without the functions that the code calls, so that a layout is not merely the same on both sides.
* `hide` statements only keep definitions away from the solver where they are not needed.

## What the proofs brought to light

Each of these is a proved statement, not an opinion; the code is modelled as it is.

* `f_write` swallows the errors of `create_chain` in its look-ahead for adjacent clusters
  (`ff.c` lines 4113-4126). On FAT16 and FAT32 that is harmless. On FAT12 a transfer that fails between the two
  halves of an entry can leave a half-written end mark. It is still an end mark, whatever was to be written,
  exactly if `n_fatent` is at most 0xF00 (`FatLayout.HalfWrittenEnd`, `FileGrow.SurviveExactly`); with more there
  is a FAT on which the chain then goes on in another file's (`FileGrow.RunsIntoOther`). `FileWrite.Write` says
  that nothing else can go wrong.
* A link map made for an empty file is stale after the first write: the fast seek then reports an internal
  error (`FileFollow.SeekFast`, an if-and-only-if).
* `CREATE_LINKMAP` takes an end mark that is the number after the last cluster for a link, and fails exactly
  then (`FileLinks.CreateLinkMap`).
* `f_getfree`'s scan of FAT16 and FAT32 tables counts entries 0 and 1, and is right exactly if both are
  nonzero (`Allocator.GetFree`).
* The sizes in a boot sector are summed modulo 2^32; a volume can be accepted whose FATs do not fit. The regions
  lie as they should exactly if no sum wraps (`Mount.MountFat`, `Mount.WrappedFats`).
* 256 or more `?` in one run of wildcards are read as fewer, or as if some were a `*`, and a fifth run never
  matches. The matcher means what it should exactly for the other patterns (`PatternMatch.FoundExactly`).
* The NAND counter comes from a 32-bit byte offset: transfers that start on different sides of a 2^23-sector
  boundary do not understand each other (`CtrNand.RoundTrip`, an if-and-only-if, and `CtrNand.CtrNand.WriteThenRead`).
* `f_truncate` leaves the sector buffer of the file object filled with a sector that has been given back, exactly
  if that sector was not in the clusters kept (`FileTruncate.Truncate`, an if-and-only-if). That does no harm until
  another file takes the cluster of that sector (`PlainScenes.SuspectBy`, `SharedRuns.SectorStays`). From then on the
  file may read as 1 and as 2 in the same place with no write between (`StaleBuffer.StaleRun`), which no file should
  (`StaleBuffer.NotPlain`). So a run on several files stops before an operation on a file in that state, and only
  there.
* The mailbox is safe only if the shared cell does not hold READY before the Arm11's first store
  (`Mailbox.ReadyTooEarly`). `arm11/source/start.s` lines 33-35 start it with 0, as the proof asks for.
* The rewriting of MMU tables leaves bit 15 of supersections alone (`Mmu.SupersectionApx`).
* `SessionInfo_Lookup` and `SessionInfo_Remove` do not compare the session they find with the one they were
  asked for, and nothing is removed from a full table (`Sessions.Table.Remove`, an if-and-only-if).
  The table keeps track of the hooked sessions exactly as long as it is not full (`Sessions.Table.Handle`).

## Model

| member | source | states |
|---|---|---|
| SharedRuns.RunShared | arm9/source/fatfs/ff.c:3927-5031 | Any number of open files, with or without link maps, any list of reads, writes, seeks and truncations on them in any order, on a volume whose FAT is the chains of these files and of others. Each operation is a step of the plain byte sequence of its file, which the others do not notice, and a step of the FAT: every entry of the trace follows from the one before. A file that meets an error does not disturb the others. The run ends early only before an operation on a file whose buffer is for a sector in a cluster that was taken by something else, or when a failed transfer has destroyed an end mark. Unless a transfer fails no file meets an error, the FAT is again exactly the chains of the files and the others unchanged, and the number of free clusters, if it was right, is right |
| SharedRuns.Take | arm9/source/fatfs/ff.c:3927-5031 | One operation on one of the files is a step of its plain file, and has done to the FAT what that step takes and no more. Whatever becomes of that file, all others stay in order, but for those whose buffered cluster it has taken, and no two files in order share a cluster. A truncation keeps the buffered sector the file's own exactly if KeepsBuffer says so |
| SharedRuns.TakeGood | arm9/source/fatfs/ff.c:3927-5031 | The same as a step between two scenes that list all files, the FAT, the known free clusters and the failed transfers. Without a failed transfer no error occurs (but for a stale link map), and the FAT stays the chains of the files and of the others |
| SharedRuns.TakeAny | arm9/source/fatfs/ff.c:3927-5031 | The same for any file that is not suspect, one that has met an error included |
| SharedRuns.Sticky | arm9/source/fatfs/ff.c:3943-3943 | On a file object that has met an error no function does anything |
| SharedRuns.Bystander | arm9/source/fatfs/ff.c:4071-4172 | A file that is not worked on keeps its chain, its bytes, its dirty buffer and its end mark, and shares no cluster with the one that is, even if transfers fail; its clean buffer stays good as long as the cluster of its sector is its own or free |
| SharedRuns.SectorStays | arm9/source/fatfs/ff.c:4013-4023 | A sector in a buffer is the one on the device as long as its cluster is free or the file's own: nothing writes to free clusters it does not take |
| SharedRuns.Review | arm9/source/fatfs/ff.c:5003-5015 | The files that an operation has made suspect are exactly those with a buffer for a sector in an allocated cluster that is not their own |
| PlainScenes.SuspectBy | arm9/source/fatfs/ff.c:1531-1622 | Without a failed transfer a file becomes suspect only in an operation on another file that takes the very cluster of its buffered sector |
| PlainScenes.AloneTrusted | arm9/source/fatfs/ff.c:4999-5030 | Without a failed transfer a file that alone is worked on never becomes suspect, whatever truncations there are: its own operations do not need the buffer to be for one of its sectors |
| PlainScenes.StoresWhatFits | arm9/source/fatfs/ff.c:4061-4176 | In a run on several files a write on a file without link map, in a step without a failed transfer, stores all that there is room for in its own clusters and the ones free at that moment if their known number is right; if that is wrong it still falls short only when it has taken all of them, or as many as were known of |
| PlainScenes.NotIdle | arm9/source/fatfs/ff.c:4061-4176 | So a write of some bytes to an empty file, between two reads, stores at least one of them while there is a free cluster |
| FileRuns.RunOnVolume | arm9/source/fatfs/ff.c:3927-5031 | On a volume whose FAT is disjoint chains a run on one file, truncations included, is carried out to its end and leaves such a FAT behind, unless a transfer fails (or the link map was made for an empty file) |
| FileRuns.Run | arm9/source/fatfs/ff.c:3927-5031 | Any list of reads, writes, seeks and truncations on an open file, with a link map reads, writes and seeks: results, positions and bytes are those of a plain byte sequence on a device with room for cap bytes, a write storing exactly min(wanted, cap - pos) and a seek reaching exactly min(target, cap). Each operation also does to the FAT exactly what it must: a read nothing, a truncation gives back all but the clusters needed, a write or seek takes free clusters, none beyond its end. cap is the bytes of the own and of the free clusters in every step without a failed transfer if the free count is right; with an exact count and no failed transfer at all it is the same for the whole run. The run stops only after a failed transfer, at a malformed FAT entry or at a stale link map, and nothing that belongs to something else changes |
| FileRuns.Perform | arm9/source/fatfs/ff.c:3927-5031 | One operation is exactly a step of the plain file with room for cap bytes, and of the FAT; cap is all the room there is if the free count is right and no transfer fails; it falls short only where the file really cannot grow as far as is known |
| PlainFiles.ReadBack | arm9/source/fatfs/ff.c:3927-4176 | Round trip: a write, a seek back and a read return the bytes written, all of them if there is room; without a link map and a failed transfer the write falls short only when the file has got all clusters that were free, or as many as were known of |
| PlainFiles.FallsShort | arm9/source/fatfs/ff.c:1604-1604 | Even with a wrong free count: without a failed transfer a step of a file without link map falls short only when the file has got all clusters that were free when it began, or as many as were known of |
| PlainFiles.SameRoom | arm9/source/fatfs/ff.c:1436-1622 | Without a failed transfer and with a right free count the room for a file is the same at every moment of a run |
| PlainFiles.Exchanged | arm9/source/fatfs/ff.c:1436-1622 | Without a failed transfer own and free clusters together stay the same number in every step |
| FileRuns.RoomKept | arm9/source/fatfs/ff.c:1436-1622 | Conservation: without a failed transfer own and free clusters together stay the same number, so the room for a file does, too |
| FileRuns.RoomUsed | arm9/source/fatfs/ff.c:1604-1604 | A file that ends with its last cluster, with no free one left by an exact count, has used all its room |
| FileRuns.RoomFound | arm9/source/fatfs/ff.c:4071-4172 | A write or seek ends exactly at the smaller of what it wanted and what there is room for |
| FileRuns.PerformRead | arm9/source/fatfs/ff.c:3943-4036 | A read returns the bytes of the plain file from the position on, cut at the end of the file, moves the position behind them, and changes no entry of the FAT |
| FileRuns.TrulyFull | arm9/source/fatfs/ff.c:1552-1604 | With an exact free count an operation falls short only if really no entry is free |
| FileRuns.PerformWrite | arm9/source/fatfs/ff.c:4061-4176 | A write is a step of the plain file; what it takes are free clusters, as few as reach its end |
| FileRuns.PerformSeek | arm9/source/fatfs/ff.c:4500-4638 | A seek is a step of the plain file; what it takes are free clusters, as few as reach its end |
| FileRuns.PerformTruncate | arm9/source/fatfs/ff.c:4999-5030 | A truncation is a step of the plain file and gives back all clusters but those that the rest of it needs; the buffer stays one of the file exactly if its sector is kept |
| FileRuns.TableKept | arm9/source/fatfs/ff.c:1436-1622 | Without a failed transfer a run on one file keeps the whole FAT a set of disjoint, acyclic, properly ended chains, one for each file, that together hold every allocated cluster, and no entry is 1 |
| FileRuns.OtherFile | arm9/source/fatfs/ff.c:4071-4172 | Even if transfers fail, a file that shares no cluster with the one worked on keeps its chain, its bytes, and its place |
| FileRuns.OtherBytes | arm9/source/fatfs/ff.c:4071-4172 | Its bytes stay right in its buffer, too, if the sector that the buffer is for stays the same, in whichever cluster that is |
| FileRead.Read | arm9/source/fatfs/ff.c:3943-4035 | Returns exactly the bytes from the file pointer on, all wanted or all left, and leaves the rest of the caller's buffer alone; fails only if a transfer failed; sticky errors and missing read access are reported without effect |
| FileRead.ReadStep | arm9/source/fatfs/ff.c:3950-4033 | One pass of the loop delivers a nonempty piece of the right bytes and keeps the cursor invariant: current cluster, sector buffer |
| FileRead.ReadAligned | arm9/source/fatfs/ff.c:3951-4024 | At a sector boundary: whole sectors directly, or the right sector in the buffer |
| FileRead.ReadDirect | arm9/source/fatfs/ff.c:3973-4011 | The multi-cluster transfer delivers the bytes of the file even if its clusters were only found adjacent by looking ahead and one of its sectors is newer in the dirty buffer |
| FileRead.ReadRun | arm9/source/fatfs/ff.c:3997-4009 | The transfer itself, the dirty buffer laid over it |
| FileRead.OverlayDirty | arm9/source/fatfs/ff.c:4004-4006 | Exactly the sector that the buffer holds is replaced, found by an unsigned difference |
| FileRead.LookAhead | arm9/source/fatfs/ff.c:3975-3996 | The sectors to transfer lie side by side on the device in file order, at least one and never more than wanted; the current cluster becomes that of the last of them |
| FileRead.NextInChain | arm9/source/fatfs/ff.c:3957-3964 | The next cluster of the file's chain, the same from the link map as from the FAT |
| FileRead.EnterCluster | arm9/source/fatfs/ff.c:3952-3969 | Makes the current cluster the one that holds the next byte; never reports an internal error on a proper chain |
| FileRead.CurrentSector | arm9/source/fatfs/ff.c:3970-3972 | The device sector that holds the byte at the file pointer; it is never 0 inside the file |
| FileRead.LoadSector | arm9/source/fatfs/ff.c:4013-4023 | A dirty buffer is written back before it is replaced; afterwards the buffer holds the wanted sector and no byte of the file has changed |
| FileRead.ReadPartial | arm9/source/fatfs/ff.c:4025-4031 | The bytes copied from the buffer are the file's bytes at the file pointer |
| FileState.RunBytes | arm9/source/fatfs/ff.c:3997-4009 | Adjacent file sectors with the dirty buffer laid over them are the bytes of the file |
| FileMap.AheadEnd | arm9/source/fatfs/ff.c:3975-3996 | A chain of clusters found consecutive yields a run of consecutive device sectors, and the cursor index after it |
| FileMap.AheadOffset | arm9/source/fatfs/ff.c:3983-3983 | The offset that the look-ahead asks the link map for names the next cluster and does not wrap around at 2^32 |
| FileWrite.Write | arm9/source/fatfs/ff.c:4061-4176 | Replaces exactly the bytes from the file pointer on by the first *bw bytes of the data and grows the file to the larger end. Nothing else on the device changes: not the entry or the data of any other allocated cluster, not the data of a free cluster that the file does not take, no sector before the clusters but the FATs, none behind the volume. The file takes only free clusters, none beyond its end, and a known free count falls by as many. *bw falls short only if the file fills its clusters and no free cluster is known or a link map has come to its end. A failed transfer can make all this void only by destroying the end mark of the chain, and that only where LookAheadSafe did not hold |
| FileWrite.Fitting | arm9/source/fatfs/ff.c:4066-4069 | The data is cut exactly so that the file pointer stays below 2^32, and cut only if it would not |
| FileWrite.WriteLoop | arm9/source/fatfs/ff.c:4071-4172 | The loop: a prefix of the data has been written, all of it unless there is no room |
| FileWrite.WriteStep | arm9/source/fatfs/ff.c:4071-4172 | One pass writes a nonempty prefix of the data at the file pointer, or reports a full disk without any change to the file |
| FileWrite.WriteAligned | arm9/source/fatfs/ff.c:4072-4161 | At a sector boundary: whole sectors directly, or the buffer made ready for a part of a sector |
| FileWrite.WriteHere | arm9/source/fatfs/ff.c:4096-4161 | The same inside a cluster that has been entered: the dirty buffer goes to its own sector first |
| FileWrite.WriteWhole | arm9/source/fatfs/ff.c:4107-4147 | As many whole sectors as lie side by side, written over the file's old bytes or behind its end |
| FileWrite.LookAheadNew | arm9/source/fatfs/ff.c:4109-4130 | The look-ahead, which stretches the chain when it is at its end: the run is consecutive on the device, and every cluster taken was free |
| FileWrite.AheadNew | arm9/source/fatfs/ff.c:4113-4126 | One more cluster of the look-ahead; what it allocates belongs to the file even if it is not adjacent; if a failed transfer loses the end mark, the entry is half written |
| FileWrite.WriteRun | arm9/source/fatfs/ff.c:4131-4145 | The direct write replaces exactly those bytes of the file; a copy of one of the sectors in the buffer does not go stale |
| FileWrite.RefreshBuffer | arm9/source/fatfs/ff.c:4138-4143 | If the buffer holds one of the sectors written it equals that sector afterwards, else it is unchanged |
| FileWrite.FillBuffer | arm9/source/fatfs/ff.c:4153-4159 | The buffer holds the sector to be changed, unless the file pointer is at the end of the file |
| FileWrite.WritePartial | arm9/source/fatfs/ff.c:4160-4170 | Storing bytes in the buffer overwrites just those bytes of the file |
| FileWrite.WriteRest | arm9/source/fatfs/ff.c:4162-4171 | The rest of the sector, or all the data if that is less; the cursor invariant holds behind it |
| FileGrow.EnterOrNew | arm9/source/fatfs/ff.c:4073-4095 | Enters the cluster of the next byte, allocating it if the file ends there; reports a full disk only if no free cluster is known |
| FileGrow.CrossBoundary | arm9/source/fatfs/ff.c:4074-4094 | At a cluster boundary: the first cluster, the next one, or a new one at the end of the chain |
| FileGrow.NextOrNew | arm9/source/fatfs/ff.c:4080-4089 | The next cluster from the link map or the FAT; at the end of the chain a free one is appended |
| FileGrow.StretchChain | arm9/source/fatfs/ff.c:1531-1622 | create_chain on behalf of a file: follows the chain, or the chain grows by exactly one formerly free cluster and the file's bytes stay the same; other files' entries are unchanged even if it fails |
| FileGrow.EndKept | arm9/source/fatfs/ff.c:4109-4126 | FAT12: a half-written entry in place of a usual end mark leaves the chain as it was |
| FileGrow.EndDecides | arm9/source/fatfs/ff.c:4109-4126 | After a failed attempt to stretch it the chain of a file is a chain exactly if its last entry is still an end mark |
| FileGrow.SurviveExactly | arm9/source/fatfs/ff.c:4109-4126 | The chains of all FAT12 tables survive an entry half written over an end mark exactly if n_fatent is at most 0xF00 |
| FileGrow.BrokenOffSo | arm9/source/fatfs/ff.c:4109-4126 | When the look-ahead has lost a usual end mark, the entry is what SurviveExactly is about: half of the number of a free cluster |
| FileGrow.RunsIntoOther | arm9/source/fatfs/ff.c:4109-4126 | With more entries there is a FAT of disjoint chains on which the half-written end mark of one file is a cluster of another, and what get_fat and create_chain follow from then on is a chain through both |
| FileGrow.NewEndSafe | arm9/source/fatfs/ff.c:1607-1610 | FAT12: the end mark of an appended cluster is a usual one |
| FileGrow.GrownToEnd | arm9/source/fatfs/ff.c:4071-4172 | A chain stretched only as far as the data reached for is, when the data stops at the end of the chain, stretched only as far as the file pointer got |
| FileState.AfterPoke | arm9/source/fatfs/ff.c:4160-4170 | Bytes stored in a buffer that shows a sector of the file are bytes of the file |
| FileState.AfterDirect | arm9/source/fatfs/ff.c:4131-4143 | Whole sectors written past the buffer are bytes of the file |
| FileState.AfterFlush | arm9/source/fatfs/ff.c:4099-4102 | Writing the dirty buffer to its sector changes no byte of the file |
| FileState.AfterFailedFlush | arm9/source/fatfs/ff.c:4099-4100 | Nor does a failed attempt: the buffer stays dirty |
| FileMap.SectorWritten | arm9/source/fatfs/ff.c:4131-4131 | A write to one sector of a file changes that sector of the file and no other |
| FileMap.SectorNoInjective | arm9/source/fatfs/ff.c:1146-1154 | Different sectors of a file lie in different device sectors |
| FileMap.ClustersApart | arm9/source/fatfs/ff.c:1146-1154 | Clusters do not overlap on the device |
| Effects.ConfinedTrans | arm9/source/fatfs/ff.c:4071-4172 | Being confined to the own clusters and to free ones carries over from one operation to the next |
| Effects.AdvancesTrans | arm9/source/fatfs/ff.c:4071-4172 | Stretching the chain, leaving the data of all clusters alone that are not the file's in the end, and counting what is taken carry over, too |
| Effects.SparesWrite | arm9/source/fatfs/ff.c:4131-4131 | A write to sectors of the file changes no data of any other cluster, free ones included, and nothing outside the clusters |
| Files.File.constructor | arm9/source/fatfs/ff.c:3868-3882 | A freshly opened file satisfies the cursor invariant, and its contents are the first objsize bytes of its clusters |
| Files.WriteBack | arm9/source/fatfs/ff.c:4015-4018 | The dirty buffer is written to its own sector; the bytes of the file are the same whether that succeeds or not |
| Files.Flush | arm9/source/fatfs/ff.c:4099-4102 | The same, keeping the file object in order |
| FileSeek.Lseek | arm9/source/fatfs/ff.c:4500-4638 | All of f_lseek. Inside the file it ends at exactly the wanted position with the same cluster, sector and buffer by either way; past the end it extends the file (write mode without link map) or stops at the end; it falls short only at the end of the clusters on a volume with no free cluster known; with CREATE_LINKMAP it builds the map, fails exactly if the end mark looks like a link, and says how many entries are needed |
| FileSeek.SeekTo | arm9/source/fatfs/ff.c:4536-4636 | The two ways of seeking put together |
| FileFollow.SeekNormal | arm9/source/fatfs/ff.c:4561-4636 | The normal seek re-establishes the cursor invariant from any start, moves to the target exactly, and ends in the state that the specification function Sought gives; bytes of the file are kept |
| FileFollow.SeekFast | arm9/source/fatfs/ff.c:4536-4557 | The fast seek ends in the same state Sought as the normal one, without touching the chain; it reports an internal error exactly if the map is not that of the file and the target is past the first byte |
| FileFollow.SoughtSame | arm9/source/fatfs/ff.c:4624-4635 | The two seeks agree: the state reached does not depend on what has happened to the FATs on the way |
| FileFollow.SeekPlace | arm9/source/fatfs/ff.c:4569-4619 | The cluster of the byte before the target is current, by walking from the current cluster or from the head, and the sector number is that of the target |
| FileFollow.SeekStart | arm9/source/fatfs/ff.c:4573-4589 | Starting from the current cluster is right exactly when the target lies there or behind; the first cluster is allocated if there is none |
| FileFollow.SeekFollow | arm9/source/fatfs/ff.c:4591-4611 | The cluster following loop ends in the target's cluster, or at the end of a chain that cannot be stretched; the chain is stretched only as far as the target |
| FileFollow.FollowOne | arm9/source/fatfs/ff.c:4593-4610 | One link followed, or one free cluster appended in write mode |
| FileFollow.SeekArrive | arm9/source/fatfs/ff.c:4590-4618 | The loop and the sector it leads to |
| FileFollow.PlaceSector | arm9/source/fatfs/ff.c:4612-4617 | The position and the sector inside the cluster that has been found |
| FileFollow.Extend | arm9/source/fatfs/ff.c:4620-4623 | A file whose pointer has passed its end ends there; its old bytes are a prefix of the new ones |
| FileFollow.SeekFill | arm9/source/fatfs/ff.c:4624-4635 | Inside a sector the buffer holds that sector afterwards; the old dirty buffer has been written to its own |
| FileFollow.SeekTarget | arm9/source/fatfs/ff.c:4566-4568 | The target is past the end of the file only in write mode |
| FileFollow.EnterMapped | arm9/source/fatfs/ff.c:4539-4543 | Cluster and sector of the position from the link map equal those of the chain; internal error exactly with a stale map |
| LinkMap.ClmtClust | arm9/source/fatfs/ff.c:1644-1652 | For every offset in the file the link map gives the cluster that following the chain gives, and 0 behind the last one |
| FileLinks.CreateLinkMap | arm9/source/fatfs/ff.c:4511-4535 | The table becomes the link map of the file exactly if it has room for 2 entries and 2 for each run of adjacent clusters, else the needed size is reported; internal error exactly if the end mark is the number after the last cluster |
| FileLinks.ListRuns | arm9/source/fatfs/ff.c:4513-4529 | The outer loop lists all maximal runs, in order |
| FileLinks.Fragment | arm9/source/fatfs/ff.c:4517-4524 | The inner loop finds the longest run of adjacent clusters |
| FileLinks.FollowChain | arm9/source/fatfs/ff.c:4520-4523 | What get_fat gives along the chain and one past its end |
| FileLinks.PutRun | arm9/source/fatfs/ff.c:4525-4527 | One more run at the end of the table |
| FileLinks.EndRuns | arm9/source/fatfs/ff.c:4530-4533 | With its size and its terminator the table encodes the chain |
| LinkMap.ListedMore | arm9/source/fatfs/ff.c:4525-4527 | A list of runs followed by a run lists the longer chain |
| LinkMap.ListedEnd | arm9/source/fatfs/ff.c:4531-4532 | A list of runs followed by 0 is a complete link map |
| FileTruncate.Truncate | arm9/source/fatfs/ff.c:4999-5030 | The file ends at the file pointer and keeps exactly its first ceil(fptr / cluster size) clusters; the others become free and are counted; the cursor invariant holds; nothing else on the device changes, no data of free clusters either. The sector buffer is still for a sector of the file if and only if that sector lies in the clusters kept |
| FileTruncate.Cut | arm9/source/fatfs/ff.c:5003-5027 | The main part: clusters given back, the dirty buffer written, the file cut |
| FileTruncate.InsideKeeps | arm9/source/fatfs/ff.c:4999-5030 | A truncation inside a sector always keeps the buffered sector |
| FileTruncate.ClustersFor | arm9/source/fatfs/ff.c:5003-5015 | The number of clusters kept is the least that hold the bytes |
| FileTruncate.GiveBack | arm9/source/fatfs/ff.c:5004-5015 | All clusters, or those behind the current one, go back; a file that needs all its clusters keeps them |
| FileTruncate.FreeTail | arm9/source/fatfs/ff.c:5005-5013 | remove_chain on behalf of a file frees exactly the tail |
| FileTruncate.NextToFree | arm9/source/fatfs/ff.c:5008-5011 | The entry of the current cluster is the first cluster to free, or an end mark |
| FileTruncate.FinishCut | arm9/source/fatfs/ff.c:5016-5027 | The dirty buffer may still go to a sector given back; the file's bytes are right in any case |
| FileTruncate.AfterCut | arm9/source/fatfs/ff.c:5016-5017 | A chain cut to the clusters that a prefix needs still holds that prefix |
| StaleBuffer.StaleRun | arm9/source/fatfs/ff.c:3943-5031 | A run without failed transfers on a volume with one cluster: a file of ones is read, set back and truncated to nothing; a second file takes the cluster, fills it with twos and gives it back; the first file takes it again by a seek past its end. Then its first byte is 1 when it is read alone and 2 when it is read with the whole sector, with no write between |
| StaleBuffer.Strand | arm9/source/fatfs/ff.c:4999-5030 | The truncated file: no clusters, an exact free count, a clean buffer with the old sector |
| StaleBuffer.FillWithTwos | arm9/source/fatfs/ff.c:4061-4176 | The second file takes the one cluster and fills it |
| StaleBuffer.Release | arm9/source/fatfs/ff.c:4999-5030 | It gives the cluster back; what it has written stays in the sector |
| StaleBuffer.SeekBoundary | arm9/source/fatfs/ff.c:4561-4636 | f_lseek on that file, to the start or the end of its cluster: the pointer gets there, the cluster is taken if there is none, and the buffer is not filled |
| StaleBuffer.TakeAgain | arm9/source/fatfs/ff.c:1541-1621 | create_chain gives it the one cluster |
| StaleBuffer.ReadStart | arm9/source/fatfs/ff.c:3950-4033 | f_read on that file: a part of the first sector comes from the buffer, the whole sector from the device |
| StaleBuffer.NotPlain | arm9/source/fatfs/ff.c:3943-4035 | No run of a plain file reads a byte alone as one value and then with what follows as another |
| FileTruncate.BufferGivenBack | arm9/source/fatfs/ff.c:5003-5026 | The buffered sector, number m of the file, is kept exactly if m is below the number of sectors of the kept clusters |
| Allocator.CreateChain | arm9/source/fatfs/ff.c:1541-1621 | Appends exactly one formerly free cluster to the list that ends at clst (or starts a list), or follows an existing link with the FAT unchanged; with an exact free count 0 means that no entry in 2..n_fatent-1 is free; keeps the free count exact; what a failure may have changed is stated for each FAT type |
| Allocator.PickCluster | arm9/source/fatfs/ff.c:1581-1606 | The search from the hint or next to the end of the chain: a free cluster, or 0 only if there is none at all |
| Allocator.FindFree | arm9/source/fatfs/ff.c:1594-1605 | The two-start search with wrap-around visits every cluster: it returns 0 only if none is free |
| Allocator.StartHint | arm9/source/fatfs/ff.c:1542-1543 | The hint is always an index from which the search terminates |
| Allocator.TakeCluster | arm9/source/fatfs/ff.c:1607-1619 | The new cluster is marked, linked, remembered as the last one and counted |
| Allocator.LinkCluster | arm9/source/fatfs/ff.c:1607-1610 | The end mark first, the link to it second; a failure leaves all other allocated entries alone, and the entry to be linked as it was or half written with the number of the free cluster |
| Allocator.OneTaken | arm9/source/fatfs/ff.c:1613-1616 | An allocation lowers the number of zero entries by exactly one |
| Allocator.RemoveChain | arm9/source/fatfs/ff.c:1452-1493 | On any table, cyclic ones included, it terminates and leaves what the recursive specification Freed gives, after ending the list at pclst; entries outside a closed set of clusters stay; a known free count grows by exactly the entries that have become zero, up to n_fatent - 2, and an unknown one stays |
| Allocator.EndList | arm9/source/fatfs/ff.c:1452-1457 | The first part: the list is ended at pclst, inside the same closed set of clusters |
| Allocator.FreeList | arm9/source/fatfs/ff.c:1461-1493 | The second part: the list is followed and freed, and each entry that becomes zero is counted once |
| Allocator.FreeOne | arm9/source/fatfs/ff.c:1462-1473 | One link or end mark becomes a zero entry and is counted |
| Chains.FreedChain | arm9/source/fatfs/ff.c:1461-1493 | On a proper chain, freeing succeeds and zeroes exactly the clusters of the chain |
| Chains.Freed | arm9/source/fatfs/ff.c:1461-1493 | Freeing keeps the length of the table and terminates on every table, the number of nonzero entries being the measure |
| Chains.ChainCut | arm9/source/fatfs/ff.c:1454-1493 | Ending a chain in its middle and freeing the rest leaves the first part a chain |
| Chains.CutChain | arm9/source/fatfs/ff.c:1436-1493 | remove_chain in the middle of one file's chain keeps the FAT a set of disjoint chains without a lost cluster |
| Chains.DropChain | arm9/source/fatfs/ff.c:1436-1493 | remove_chain of a whole chain does, too |
| Chains.ChainGrows | arm9/source/fatfs/ff.c:1607-1610 | A chain with a free cluster appended is a chain, and no other entry changes |
| Chains.AppendCluster | arm9/source/fatfs/ff.c:1531-1622 | create_chain for one file keeps the FAT a set of disjoint chains without a lost cluster |
| Chains.ReplaceChain | arm9/source/fatfs/ff.c:1436-1622 | Any exchange of one file's clusters for free ones keeps the FAT a set of disjoint chains without a lost cluster |
| Chains.Conserved | arm9/source/fatfs/ff.c:1436-1622 | Conservation: whatever clusters a file exchanges, its own and the free ones are together as many as before |
| Chains.NoOnes | arm9/source/fatfs/ff.c:1547-1603 | A FAT that is disjoint chains has no entry 1, so create_chain and f_getfree meet no internal error there |
| Chains.ChainUnique | arm9/source/fatfs/ff.c:1461-1493 | A chain is determined by its first cluster |
| Chains.ChainAcyclic | arm9/source/fatfs/ff.c:1461-1493 | A list that reaches an end mark visits no cluster twice |
| Chains.ZerosUpdate | arm9/source/fatfs/ff.c:1470-1473 | How one changed entry changes the number of free clusters |
| Chains.ZerosNone | arm9/source/fatfs/ff.c:1604-1604 | The number of free clusters is 0 exactly if no entry is 0 |
| Allocator.GetFree | arm9/source/fatfs/ff.c:4912-4977 | The known count, or a scan. The result is the number of zero entries in 2..n_fatent-1, except that the FAT16/FAT32 scan also counts entries 0 and 1: it is right exactly if neither of those is 0 |
| Allocator.CountEntries | arm9/source/fatfs/ff.c:4918-4929 | The FAT12 scan counts the free clusters; it gives up exactly if some entry is 1 |
| Allocator.CountWords | arm9/source/fatfs/ff.c:4953-4969 | The raw scan of sector bytes counts the zero entries of the whole table |
| Allocator.LoadNext | arm9/source/fatfs/ff.c:4957-4960 | At offset 0 the window moves to the sector of the next entry |
| Volume.Volume.SyncWindow | arm9/source/fatfs/ff.c:1057-1076 | The logical disk (device with a dirty window laid over it) never changes; afterwards the window is clean; the mirror is intact unless a transfer failed |
| Volume.Volume.Reflect | arm9/source/fatfs/ff.c:1061-1063 | The second FAT's copy of the flushed sector equals it if the write succeeds |
| Volume.Volume.MoveWindow | arm9/source/fatfs/ff.c:1079-1100 | The logical disk is unchanged, outside the second FAT; on success the window shows logical sector sect; on failure it shows what it did or nothing |
| Volume.Volume.constructor | arm9/source/fatfs/ff.c:3576-3579 | A fresh volume is coherent, and mirrored exactly if its two FATs are equal |
| Volume.Volume.ClusterToSector | arm9/source/fatfs/ff.c:1151-1153 | The first sector of a valid cluster; 0 exactly for an invalid number, by one unsigned comparison |
| Volume.Volume.GetFat | arm9/source/fatfs/ff.c:1163-1234 | The decoded entry of a valid cluster number, internal error exactly for an invalid one, disk error only after a failed transfer; nothing changes |
| Volume.Volume.GetFat12 | arm9/source/fatfs/ff.c:1180-1187 | A 12-bit entry, also where it straddles two sectors; in the table bytes t at i = 3c/2: t[i] + 0x100 * (t[i+1] mod 16) for an even cluster, t[i] / 16 + 16 * t[i+1] for an odd one |
| Volume.Volume.GetFat16 | arm9/source/fatfs/ff.c:1189-1193 | A 16-bit entry: t[2c] + 0x100 * t[2c+1] in the bytes of the table |
| Volume.Volume.GetFat32 | arm9/source/fatfs/ff.c:1195-1199 | The lower 28 bits of a 32-bit entry: t[4c] + 0x100 * t[4c+1] + 0x10000 * t[4c+2] + 0x1000000 * (t[4c+3] mod 16) in the bytes of the table |
| Volume.Volume.EntryInBytes | arm9/source/fatfs/ff.c:1180-1199 | The ghost table that all other contracts speak of, in the bytes of the logical FAT: digits, the lowest first, of 12, 16 and 28 bits |
| Volume.Volume.PutFat | arm9/source/fatfs/ff.c:1244-1295 | After success get_fat gives val masked to 12, 16 or 28 bits and every other entry is unchanged. After failure the entry is unchanged, or a FAT12 entry that straddles two sectors is half written: it has the part of val that goes into its first byte and keeps the rest |
| Volume.Volume.PutFat12 | arm9/source/fatfs/ff.c:1257-1269 | The same for the two read-modify-write halves, which may lie in two sectors; exactly the 12 bits of val are in the two bytes, and no other bit of the table has changed |
| Volume.Volume.PutFat16 | arm9/source/fatfs/ff.c:1271-1277 | The same for FAT16; the two bytes are the digits of val, the low one first, and no other byte of the table has changed |
| Volume.Volume.PutFat32 | arm9/source/fatfs/ff.c:1279-1291 | The same for FAT32; the four bytes are the digits of the lower 28 bits of val, the lowest first, but for the top four bits, which survive; no other byte of the table has changed |
| Volume.Volume.StoreLow12 | arm9/source/fatfs/ff.c:1261-1263 | The first byte: the neighbour that shares it is unchanged |
| Volume.Volume.StoreHigh12 | arm9/source/fatfs/ff.c:1266-1268 | The second byte completes the entry; the neighbour that shares it is unchanged |
| Volume.Volume.StoreInTable | arm9/source/fatfs/ff.c:1262-1263 | Bytes stored through the window are stored in the logical table, and only there |
| Volume.Volume.MoveToTable | arm9/source/fatfs/ff.c:1259-1260 | The window shows the table sector with the given byte |
| Volume.Volume.TableByte | arm9/source/fatfs/ff.c:1182-1185 | A byte of the logical table |
| Volume.Volume.TableDword | arm9/source/fatfs/ff.c:1283-1287 | A word of the logical table |
| Volume.Volume.EntryShown | arm9/source/fatfs/ff.c:1192-1198 | An aligned entry never straddles sectors and is read from the window |
| Volume.Volume.ReadData | arm9/source/fatfs/ff.c:3997-3997 | A data transfer past the window reads the logical disk |
| Volume.Volume.WriteData | arm9/source/fatfs/ff.c:4131-4131 | A data transfer past the window changes only its own sectors |
| FatLayout.FirstHalf12 | arm9/source/fatfs/ff.c:1261-1262 | Storing the first byte of a 12-bit entry leaves all other entries of the table |
| FatLayout.SecondHalf12 | arm9/source/fatfs/ff.c:1266-1267 | Storing both bytes gives the table with that one entry replaced |
| FatLayout.Pick12RoundTrip | arm9/source/fatfs/ff.c:1255-1269 | Reading over writing for one 12-bit entry |
| FatLayout.FirstByteOnly | arm9/source/fatfs/ff.c:1262-1265 | What an entry reads as when only its first byte has been stored |
| FatLayout.HalfWrittenEnd | arm9/source/fatfs/ff.c:1262-1265 | An entry that straddles two sectors and holds an end mark still holds one when it is half written, whatever cluster was to be stored, exactly if n_fatent is at most 0xF00 |
| FatLayout.Store16 | arm9/source/fatfs/ff.c:1275-1275 | Storing a 16-bit entry replaces that entry of the table and no other |
| FatLayout.Store32 | arm9/source/fatfs/ff.c:1287-1289 | The same for 32 bits, the top nibble kept |
| FatLayout.EntryInSector | arm9/source/fatfs/ff.c:1190-1198 | 16- and 32-bit entries lie inside one sector, at the offset the code uses |
| FatLayout.EntryBytes | arm9/source/fatfs/ff.c:1180-1199 | The value of an entry of the three types in the bytes of the table |
| FatLayout.Written12 | arm9/source/fatfs/ff.c:1257-1269 | The table after both bytes of a 12-bit entry have been stored |
| FatLayout.Written16 | arm9/source/fatfs/ff.c:1271-1277 | The table after a 16-bit entry has been stored |
| FatLayout.Written32 | arm9/source/fatfs/ff.c:1279-1291 | The table after a FAT32 entry has been stored over the word that was there |
| Mount.MountFat | arm9/source/fatfs/ff.c:3522-3574 | Accepts exactly the boot sectors that the declarative predicate Describes admits, sums taken modulo 2^32, and returns what MountedAs says; InBytes states both in the bytes of the boot sector. For an accepted volume, at any start sector: FATs, root directory and data lie in order inside it and below sector 2^32, every entry and every cluster is inside its region, the end mark is at least n_fatent - all of it exactly if no sum wraps; then dirbase is the first sector behind the FATs with the root directory ending where the data starts, or the root cluster of FAT32 |
| Mount.InBytes | arm9/source/fatfs/ff.c:3522-3574 | Acceptance, FAT type, all fields of the filesystem object and dirbase as expressions in the bytes at the offsets of the boot sector: FAT12 exactly for 1 to 4085 clusters, FAT16 for 4086 to 65525, FAT32 above; the 16-bit sector counts unless they are 0, else the 32-bit ones; entries of 12, 16 or 32 bits must fit the FAT |
| Mount.TypeInBits | arm9/source/fatfs/ff.c:3550-3556 | The type by the number of clusters, and the size test as a number of bits |
| Mount.RegionsInOrder | arm9/source/fatfs/ff.c:3558-3573 | The regions of an accepted volume are in order, inside it and below sector 2^32 exactly if neither the sum of their sizes nor the number of the last sector wraps |
| Mount.RootInOrder | arm9/source/fatfs/ff.c:3563-3571 | The root directory starts behind the FATs and ends where the data starts, or is the cluster that the boot sector names |
| Mount.Wrapped | arm9/source/fatfs/ff.c:3544-3561 | With all sums modulo 2^32 the FATs end before the data starts exactly if no sum wraps |
| Mount.FatSize | arm9/source/fatfs/ff.c:3567-3574 | The rounded size test is exactly that the last entry ends inside the FAT |
| Mount.WrappedFats | arm9/source/fatfs/ff.c:3531-3548 | A boot sector that is accepted although its FATs are larger than any volume |
| Mount.PowerOfTwo | arm9/source/fatfs/ff.c:3536-3536 | The bit trick accepts exactly the powers of two of a byte |
| LongNames.RoundTrip | arm9/source/fatfs/ff.c:2313-2379 | Every name of 1 to 255 units without 0 and 0xFFFF is read back exactly, whatever deleted entries and stray name parts come before it, lengths that are multiples of 13 included |
| LongNames.RegisterThenRead | arm9/source/fatfs/ff.c:2313-2548 | The same law on the code itself: dir_register and then dir_read, into the same or another buffer, find the entry and give the name back |
| LongNames.ScanNames | arm9/source/fatfs/ff.c:2355-2367 | The entries that put_lfn writes lead the order and checksum automaton from any state to the short name with a valid long name |
| LongNames.ScanSound | arm9/source/fatfs/ff.c:2350-2368 | Soundness: if a long name is reported, its entries are the parts n to 1 of one sequence with the right checksum, the first one marked |
| LongNames.Rebuilt | arm9/source/fatfs/ff.c:1939-1954 | The picked parts in the buffer make up the name with its terminator |
| LongNames.PutLfn | arm9/source/fatfs/ff.c:1966-1991 | The entry carries its 13 units of the name, the terminator and the padding, and the last-part mark exactly if the name ends there |
| LongNames.PickLfn | arm9/source/fatfs/ff.c:1928-1957 | Accepts exactly the entries that fit the buffer and are padded properly, puts their units in their place, and leaves the later parts alone |
| LongNames.CarriesOk | arm9/source/fatfs/ff.c:1977-1990 | What put_lfn writes is accepted by dir_read and pick_lfn |
| LongNames.RegisterNames | arm9/source/fatfs/ff.c:2536-2548 | The entries of the name stand in descending order in front of the short name, and no other entry of the directory changes |
| LongNames.DirRead | arm9/source/fatfs/ff.c:2322-2379 | The loop finds what the recursive specification Scan finds; a reported long name is assembled in the buffer |
| LongNames.OnEntry | arm9/source/fatfs/ff.c:2355-2362 | One name entry: the automaton's step, and the parts picked so far stay in the buffer |
| LongNames.SumSfn | arm9/source/fatfs/ff.c:2060-2071 | The rotating checksum over the 11 bytes, in 8 bits: there are intermediate sums, the first one 0, each the one before with bit 0 moved to bit 7 and the others moved down by one, plus the next byte |
| LongNames.SumsRotate | arm9/source/fatfs/ff.c:2060-2071 | The specification Checksum has such intermediate sums for every name |
| LongNames.KnownChecksum | arm9/source/fatfs/ff.c:2060-2071 | The checksum of "BOOT    FIR" is 0x2D |
| LongNames.CarriesInBytes | arm9/source/fatfs/ff.c:1966-1991 | What an entry that carries a part of a name is, in numbers: order byte with 0x40 for the last part, 0x0F, checksum and zeros in their places, and 13 characters of two bytes, the low one first, at the offsets 1, 3, 5, 7, 9, 14, 16, 18, 20, 22, 24, 28 and 30; names have 1 to 255 units |
| LongNames.KindsInBytes | arm9/source/fatfs/ff.c:2334-2368 | Which entries dir_read passes over, which it takes for parts of a name, and their order number, last part flag and checksum, in numbers |
| LongNames.NameLength | arm9/source/fatfs/ff.c:2486-2486 | The length of the name in the buffer |
| LongNames.LfnOfs | arm9/source/fatfs/ff.c:517-517 | The offsets of the 13 characters |
| PatternMatch.FoundExactly | arm9/source/fatfs/ff.c:2802-2846 | The matcher as f_findnext calls it agrees with the declarative relation Glob on all names if and only if the pattern has at most 4 runs of wildcards, none of them with 256 ? or more |
| PatternMatch.Matches | arm9/source/fatfs/ff.c:2802-2846 | The matcher as f_findnext calls it decides the predicate Found: at most 4 runs of wildcards, and the pattern as its counts are understood matches; for countable patterns with at most 4 runs that is Glob |
| PatternMatch.UnderstoodExactly | arm9/source/fatfs/ff.c:2826-2833 | A pattern is understood as it is meant, for all names, if and only if no run of wildcards has 256 ? or more |
| PatternMatch.NeedUnderstood | arm9/source/fatfs/ff.c:2826-2833 | As understood, a pattern needs no more characters than it should, and fewer if it has a run of 256 ? or more |
| PatternMatch.ShortestMatches | arm9/source/fatfs/ff.c:2802-2846 | Every pattern is matched by some name: the pattern without its * |
| PatternMatch.PatternMatch | arm9/source/fatfs/ff.c:2815-2846 | For any recursion budget: true exactly if the pattern, as its wildcard counts are understood, matches within the budget; the early stop at the end of the name loses no match |
| PatternMatch.MatchHere | arm9/source/fatfs/ff.c:2822-2841 | One attempt at a fixed place, and why none can succeed further on when it has run into the end of the name |
| PatternMatch.WildTerm | arm9/source/fatfs/ff.c:2826-2833 | A run of wildcards is read completely into its number |
| PatternMatch.GlobWild | arm9/source/fatfs/ff.c:2824-2834 | A run of wildcards takes as many characters as it has ?, or any larger number with a * |
| PatternMatch.GlobInNumbers | arm9/source/fatfs/ff.c:2822-2846 | The relation in numbers: 0x2A matches any characters, 0x3F any one, others themselves up to case folding |
| PatternMatch.UnderstoodRight | arm9/source/fatfs/ff.c:2826-2833 | With fewer than 256 ? per run the pattern is understood as it is meant |
| PatternMatch.SkipMeaning | arm9/source/fatfs/ff.c:2828-2832 | The number of a run is its count of ?, plus 0x100 for a * |
| PatternMatch.LiteralsNeed | arm9/source/fatfs/ff.c:2842-2843 | A pattern that begins with k literals needs a name of k characters |
| PatternMatch.ManyQuestions | arm9/source/fatfs/ff.c:2829-2831 | 256 ? are taken for a *: a name that must not match does |
| Lzss.LzssDecompress | arm9/source/firm.c:267-331 | In place equals out of place: the buffer ends up with exactly what the pure decoder Decode produces, reversed below the top, and all other bytes are unchanged; terminates; for every well-formed input whose write pointer never falls below the unread input |
| Lzss.OneToken | arm9/source/firm.c:299-324 | One token, literal or match, keeps the correspondence with the pure decoder |
| Lzss.CopyMatch | arm9/source/firm.c:308-316 | The copy loop copies hi / 16 + 3 bytes, from output it is itself still producing if they overlap |
| Lzss.MatchBytes | arm9/source/firm.c:303-307 | The two bytes of a match are still the input's |
| Lzss.CopyBack | arm9/source/firm.c:310-316 | Each byte of a match equals the one offset + 1 places before it |
| Lzss.ReadFlags | arm9/source/firm.c:294-296 | The byte of flags is still the input's |
| Lzss.DecodeEncode | arm9/source/firm.c:292-328 | The pure decoder inverts the encoding of any list of tokens in groups of eight under a byte of flags; DecodePlays says it for copies by length and distance |
| Lzss.DecodePlays | arm9/source/firm.c:292-328 | For every list of bytes and copies (length 3 to 18, distance 3 to 0x1002), encoded with (length - 3) * 16 + (distance - 3) / 256 and (distance - 3) mod 256, the decoder gives the bytes and copies they say |
| Lzss.PairMeans | arm9/source/firm.c:303-310 | The two bytes of a copy give back its length and its distance |
| Lzss.FlagBits | arm9/source/firm.c:297-301 | The flag of token i of a group is bit 7 - i |
| Lzss.FiveTokens | arm9/source/firm.c:292-328 | The stream 08 a b c d 00 01 decodes to a b c d a b c |
| Lzss.HeaderInBytes | arm9/source/firm.c:286-290 | Where input and output lie, from the eight bytes in front of the end |
| Lzss.DecodeGroup | arm9/source/firm.c:297-327 | The same for one group |
| CtrNand.RoundTrip | arm9/source/crypto.c:379-427 | After ctrNandWrite, ctrNandRead of any subrange gives the written bytes exactly if both transfers start in the same window of 2^23 sectors; otherwise, for a cipher without collisions, it does not |
| CtrNand.CtrNand.WriteThenRead | arm9/source/crypto.c:379-427 | The same law on the code itself: ctrNandWrite of any sectors and then ctrNandRead of any part of them |
| CtrNand.CounterDistance | arm9/source/crypto.c:383-409 | The counters of two transfers fit together exactly if the 32-bit byte offset does not wrap between them |
| CtrNand.CtrNand.Write | arm9/source/crypto.c:402-427 | The chunks of 32 sectors form one keystream from the counter of the first sector; nothing outside the range changes, and a failed write changes nothing but the range |
| CtrNand.CtrNand.WriteChunk | arm9/source/crypto.c:415-423 | One chunk extends what is stored by its sectors; its counter continues the stream |
| CtrNand.CtrNand.EncryptChunk | arm9/source/crypto.c:417-420 | The bounce buffer holds the encrypted sectors |
| CtrNand.CtrNand.Read | arm9/source/crypto.c:379-400 | The device's sectors, decrypted with the stream from the counter of the first one |
| CtrNand.CtrNand.Fetch | arm9/source/crypto.c:386-393 | The transfer comes from the NAND or from the shifted sectors of the SD card |
| CtrNand.CtrNand.CounterFor | arm9/source/crypto.c:381-383 | The counter of a sector, from a copy: the base stays |
| CtrNand.Aes | arm9/source/crypto.c:240-281 | Batches of 0xFFFF blocks give the same as one keystream, in place, and leave the counter advanced by all blocks |
| CtrNand.OneBatch | arm9/source/crypto.c:248-280 | One batch continues the keystream |
| CtrNand.AesBatch | arm9/source/crypto.c:207-238 | The counter mode of section 6.5 of NIST SP 800-38A |
| CtrNand.AdvCtr | arm9/source/crypto.c:158-183 | In all four modes: addition to the 128-bit number that the four words stand for, modulo 2^128; ValueInBytes says which number that is |
| CtrNand.ValueInBytes | arm9/source/crypto.c:158-183 | The number of the four modes in digits: in the big-endian one the 16 bytes in memory, highest digit first (or the four words in reversed order), else the words |
| CtrNand.AdvancedInBytes | arm9/source/crypto.c:158-183 | So in the mode of the NAND the 16 bytes in memory, read as one big-endian number, grow by val modulo 2^128 |
| CtrNand.KeystreamInBytes | arm9/source/crypto.c:379-399 | Byte k of the data of sector s is combined with byte k mod 16 of the cipher block of base + (512 s mod 2^32) / 16 + k / 16 modulo 2^128 |
| CtrNand.Add128 | arm9/source/crypto.c:63-90 | The carry runs through all four words |
| CtrNand.BswapTwice | arm9/source/crypto.c:76-76 | Swapping the bytes twice gives the word back |
| CtrNand.SwapAll | arm9/source/crypto.c:163-167 | All four words are swapped |
| CtrNand.CryptSplit | arm9/source/crypto.c:247-280 | Whole blocks may be processed in pieces |
| CtrNand.CryptTwice | arm9/source/crypto.c:395-397 | Decryption inverts encryption |
| Mailbox.Safety | arm9/source/screen.c:58-120 | Over every interleaving: the requests are carried out exactly once each, in order, each with the parameters written for it, and no parameter word is stored while a handler runs |
| Mailbox.LastStored | arm9/source/screen.c:58-120 | The parameters of a request: a word is the last value stored there |
| Mailbox.NotStored | arm9/source/screen.c:58-120 | A word that is not stored is as before |
| Mailbox.InvRun | arm9/source/screen.c:58-63 | The invariant over every reachable state |
| Mailbox.InvStep9 | arm9/source/screen.c:58-63 | It is kept by every step of the Arm9 |
| Mailbox.InvStep11 | arm11/source/main.c:198-233 | It is kept by every step of the Arm11 |
| Mailbox.Liveness | arm9/source/screen.c:58-63 | Under fair scheduling every request returns |
| Mailbox.Advance | arm9/source/screen.c:58-63 | Under fair scheduling the number of steps left falls, whatever the state |
| Mailbox.Progress9 | arm9/source/screen.c:60-62 | A step of the Arm9 is progress or changes nothing; if it is needed it is progress |
| Mailbox.Progress11 | arm11/source/main.c:202-233 | The same for the Arm11 |
| Mailbox.ReadyTooEarly | arm11/source/main.c:200-200 | If the cell holds READY before the Arm11's first store, a request can return without having been carried out |
| Mailbox.AfterFirmlaunch | arm11/source/main.c:226-229 | A request after the firmlaunch request never returns, in any schedule |
| Mmu.Memory.L1RwxForAll | k11_extension/source/mmu.c:32-68 | The pass rewrites exactly the section and page descriptors of the table and its second-level tables, each by the field updates, whatever the tables hold and even if second-level tables overlap or occur twice |
| Mmu.Memory.RewriteEntry | k11_extension/source/mmu.c:36-67 | One entry, with its second-level table |
| Mmu.Memory.L2RwxForAll | k11_extension/source/mmu.c:70-100 | The second-level pass rewrites exactly its 256 descriptors |
| Mmu.TranslationKept | k11_extension/source/mmu.c:102-160 | The translation of every address below 2^30 is unchanged |
| Mmu.TypesKept | k11_extension/source/mmu.c:7-30 | So are the types of all descriptors |
| Mmu.AllPermissions | k11_extension/source/mmu.c:162-238 | Every mapped address has permissions 7, every other one 0 |
| Mmu.Idempotent | k11_extension/source/mmu.c:32-100 | A second pass changes nothing |
| Mmu.SupersectionApx | k11_extension/source/mmu.c:57-63 | By the architecture, which has an APX bit in supersections, a rewritten one is writable exactly if that bit was clear |
| Mmu.GetPAInBits | k11_extension/source/mmu.c:102-160 | The physical address has its upper 12, 8, 16 or 20 bits from the last descriptor on the way and the others from the virtual address |
| Mmu.GetUserPermInBits | k11_extension/source/mmu.c:162-238 | The permissions by the ap, apx and xn fields of that descriptor, where its kind has them: writing needs ap 3 and apx clear, executing xn clear |
| Mmu.TypesInBits | k11_extension/source/mmu.c:7-30 | The types of descriptors by their bits |
| Mmu.IndexInBits | k11_extension/source/mmu.c:102-140 | Bits 20 to 31 of an address are the index in the first table, bits 12 to 19 that in the second, and the descriptor says where the second is |
| Mmu.SectionRwxInBits | k11_extension/source/mmu.c:49-56 | Rewriting a section sets ap to 3, clears xn and apx, and keeps all other bits |
| Mmu.SupersectionRwxInBits | k11_extension/source/mmu.c:57-63 | The same for a supersection, but for bit 15 |
| Mmu.LargePageRwxInBits | k11_extension/source/mmu.c:80-87 | The same for a large page |
| Mmu.SmallPageRwxInBits | k11_extension/source/mmu.c:88-95 | The same for a small page |
| Mmu.OthersStay | k11_extension/source/mmu.c:32-100 | Words outside the 1024 of the first table and the 256 of the second ones stay |
| Mmu.WordsFor | k11_extension/source/mmu.c:32-100 | The words through which an address is translated become exactly the rewritten ones |
| Memsearch.Memsearch | arm9/source/memory.c:34-56 | The lowest offset at which the pattern occurs; none exactly if it occurs nowhere |
| Memsearch.NoneSkipped | arm9/source/memory.c:52-52 | No shift skips an occurrence |
| Memsearch.BuildTable | arm9/source/memory.c:39-43 | Every entry is a safe and positive shift |
| Sessions.Table.FindClosestSlot | k11_extension/source/ipc.c:39-61 | The lower bound in a strictly sorted array |
| Sessions.Table.Lookup | k11_extension/source/ipc.c:63-79 | A session in the table is found in its own slot exactly if it is hooked; for one that is not in the table the answer is none exactly if no hooked session is the next greater one, and in a table that lists the hooked sessions exactly if all of those are smaller |
| Sessions.Table.Add | k11_extension/source/ipc.c:100-135 | The session is hooked; the finite map gains exactly the new session under its cut or padded name, or nothing if it is present or the table is full; all other names stay |
| Sessions.CopiedIs | k11_extension/source/ipc.c:131-131 | The name as strncpy leaves it: its first 12 characters, or all and zeros |
| Sessions.Table.ChangeVtable | k11_extension/source/ipc.c:174-183 | The first time the custom vtable becomes a copy of the session's but for the destructor, which is the hook, and the original one is saved; every hooked session has that vtable, and the hook finds the session's own destructor |
| Sessions.Table.Handle | k11_extension/source/ipc.c:100-172 | A table that lists exactly the hooked sessions under their names goes on doing so after a session is opened or destroyed if and only if it was not full or the event changes nothing; hooked or not, a destroyed session runs the destructor that the kernel gave it |
| Sessions.Table.Run | k11_extension/source/ipc.c:100-172 | After any run of openings and destructions that meets no full table it lists exactly the live sessions under their first names |
| Sessions.Table.Remove | k11_extension/source/ipc.c:137-165 | The least session not below the given one disappears, nothing else; this deletes exactly the given session if and only if it is present and the table not full, or absent with none above it (or the table full) |
| Sessions.InsertedMap | k11_extension/source/ipc.c:125-131 | Inserting at the lower bound keeps the order and adds one key to the map |
| Sessions.DeletedMap | k11_extension/source/ipc.c:158-161 | Deleting a slot keeps the order and removes its key from the map |
| Sessions.SlotMeaning | k11_extension/source/ipc.c:39-61 | What the lower bound means for the map: the key itself or its successor |
| Sessions.CountKeys | k11_extension/source/ipc.c:30-31 | The map has as many keys as the array has entries |
| Sessions.ShiftUp | k11_extension/source/ipc.c:125-126 | The entries from the slot on move up by one |
| Sessions.ShiftDown | k11_extension/source/ipc.c:158-159 | The entries behind the slot move down by one |
| Sessions.Table.constructor | k11_extension/source/ipc.c:30-31 | An empty table |

## Left out

Contracts that say less than one might wish:

- FileWrite.Write: after a failed transfer has destroyed the end mark of the chain (`lost`; only on FAT12, where LookAheadSafe does not hold) nothing more is promised, because the code then follows entries of other files
- SharedRuns.Take: the same, and so for all runs: `lost` ends them
- FileRuns.Run: link maps are made before the run, and a file with a link map is not truncated in it (that makes the map stale, even if the clusters it still lists come first in it); what bytes a seek past the end appends is not determined, in the code either; with a free count that is not exact, cap may differ from step to step
- SharedRuns.RunShared: stops before an operation on a suspect file, one that has had a buffer for a sector in an allocated cluster not its own, because that buffer may then be wrong (StaleBuffer.StaleRun); the check for that is not in the code, which has no list of such files; a transfer that fails while a cluster is given back or taken can make a file suspect although no file owns that cluster; what a file contains after it has met an error is not said
- FileRead.Read: an installed link map must be that of the file (or of the file when it was still empty); a truncation makes a map stale, and using a stale map is not modelled
- FileSeek.Lseek: the same, for a seek; the room for a map that is being made must be what its first word says
- Files.File.constructor: needs a directory entry that names a proper chain with enough clusters and a window that shows none of them, which is what f_open meets on a volume that is not corrupt
- StaleBuffer.SeekBoundary: the file object no longer has the invariant that FileSeek.Lseek needs; this is the part of f_lseek that a file without a link map in a volume of one cluster goes through on its way to the start or the end of that cluster
- StaleBuffer.ReadStart: for the same reason this is one pass of the loop of f_read, at the start of a file of one sector, for at most that sector
- Allocator.CreateChain: after a failed transfer the free cluster that was chosen may be left marked as an end; no entry of another list is changed
- Allocator.GetFree: the count is exact only if the stored count was, or was unknown; the count that FSInfo supplies at mount time is trusted by the code
- Mount.MountFat: the FSInfo sector is left out; the code computes the shift of a cluster size 0 before it rejects it, which C leaves undefined, the model rejects it first
- LongNames.RegisterThenRead: the same one run of entries as in RegisterNames and DirRead, without sectors and failing transfers
- LongNames.RegisterNames: the directory is one run of entries; spreading it over sectors and clusters, finding room for the entries and making up the short name are not modelled
- LongNames.DirRead: the reading of files and directories, not of volume labels; the case of a read error is left out
- PatternMatch.Matches: one unit of the string is one character; decoding of UTF-8 or double-byte characters is left out, case folding is any function that maps only 0 to 0
- Lzss.LzssDecompress: only for inputs that are well formed and can be decoded in place; what the code does to memory with others is not modelled
- CtrNand.Aes: counter mode in place, with the modes that the NAND functions use; the other modes, key slots and registers are left out, the block cipher is any function of the counter
- CtrNand.CtrNand.Write: always goes to the NAND, as in the code, while reads may come from an emulated NAND on the SD card; the round trip is about the first case
- Mailbox.Safety: handlers are modelled by what they read from the parameter area; what they do to the screens is left out
- Mmu.Memory.L1RwxForAll: needs second-level tables that do not overlap the first-level table; addresses are word addresses, and the address field of a coarse page table has 21 bits as in `k11_extension/include/mmu.h`, one bit less than in the architecture
- Sessions.Table.ChangeVtable: all sessions have the same vtable to begin with, which the code takes for granted as it saves one destructor for all
- Sessions.Table.Handle: what the original destructor does to the session object is left out, but for its vtable being no longer the hooked one; so are locks and reference counts

Parts of the repository without a model:

- Configuration of FatFs: sector size 512, `FF_FS_TINY` 0, read/write, long names and fast seek on, no exFAT, 32-bit sector numbers; the configuration file is not part of this model
- exFAT: bitmaps, directory blocks and contiguous files are a filesystem of their own, switched off here
- f_expand, f_mkfs, f_fdisk and partition tables: long, driven by tables or by the device
- f_open's search, modes and append position, f_sync's directory entry, timestamps, attributes, object locks: each is plain copying around the modelled core
- dir_alloc, dir_find, dir_remove, f_rename, f_unlink, f_mkdir: walks over directory sectors through the modelled window and chains
- Code pages, path parsing, short name generation, f_gets and f_printf: text handling, easy or table-driven
- Configuration files, menus, screens, PIN entry, hardware registers, SD/MMC driver: input and output
- Firmware patches and symbol searches: they match byte patterns of images that are not part of this model
- CRC tables, number formatting, strided copies: true, but easy
