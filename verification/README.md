# dmraid, modelled and verified in Dafny

dmraid discovers, activates and edits software RAID sets from the metadata that
BIOS and vendor formats leave on disks. This project models five of its cores
and proves what they are for.

* **SNIA DDF1 metadata** (`Bits`, `Buffers`, `ByteOrder`, `Crc32`, `Structs`,
  `Ddf1*`). The CRC with its static table refines the bit-serial CRC-32 of section 8
  of RFC 1952, which is characterised as a polynomial remainder. The tables and the
  configuration area are byte arrays that are converted and stamped in place. After a
  conversion every number that the structures declare reads on the host as it is in
  the byte order of the disk (`Ddf1Members`, `Ddf1Reads`); converting twice is the
  identity exactly under a stated condition; the check walk is silent after the update
  walk, and reports every change of up to four bytes (`Ddf1Detects`).
* **Intel (isw) metadata** (`Isw*`). An image is described by its pieces and laid
  out by `IswLayout.Encode`; the walk over its variable-length volumes works on
  the bytes. The editors are functions on the pieces (`IswEdits`) and methods on
  byte arrays that copy structures behind running offsets (`IswStartRebuild`,
  `IswAfterRebuild`, `IswCreate`); `IswFields` and `IswHeaders` say what they leave in
  the declared fields. `IswRuns`, `IswRebuild` and `IswMembers` prove what every run
  of edits keeps, `IswExtents` and `IswPlaced` where volumes are placed and what they
  hold, `IswDiskIo` the write and read of the sectors.
* **From a tree of RAID sets to device-mapper tables** (`Rounding`, `RaidSets`,
  `RaidTotals`, `DmTable`, `DmMapping`, `DmMirror`, `DmStack`, `DmLengths`,
  `DmMaximize`, `RaidSlots`) and their text (`TableText`, `TableScan`, `TablePrint`,
  `TableLines`, `TableNumbers`, `TableMeaning`). A table gets a meaning, the sectors
  it maps to, and the theorems speak about that meaning through stacks of any depth;
  the printed text, read word by word, has the same meaning.
* **The event library** (`DsoList`, `DsoPointers`, `DsoProtocol`, `DsoEvents`,
  `DsoExclusion`, `DsoRace`). The global list on its pointers, and the threads that
  register, unregister and handle events as a state machine with one step for every
  change of shared state.
* **Tables and lists edited in place** (`AsrTable`, `AsrUpdate`, `AsrCounts`,
  `CircularList`).

`dafny verify dfyconfig.toml` checks the whole project (Dafny 4.11).

Where the code does not do what it is meant to do, the model does what the code
does, and the lemma says when the intended property holds:

* `ddf1_cvt_virt_drive` swaps the 16-bit `vd_num` with a 32-bit macro, which
  clears it (`Ddf1Cvt.VirtDrivesTwice`); a VD record that counts more elements
  than its id array holds is converted over its own offsets
  (`Ddf1Elements.ElementsTwice`).
* `round_down` masks bits, so it rounds only for powers of two
  (`Rounding.RoundsDownIff`).
* The starts of a maximized stripe's lines fit together only when there is one
  line (`DmMaximize.StartsFitIff`); a stripe over unequal subsets advertises more
  than it maps (`DmLengths.StackedStripe`).
* A mirror forgets a component that has no whole stride to offer when another one
  follows, and advertises more than that component holds
  (`RaidTotals.MirrorTotalIff`).
* The end of a rebuild drops the failed disk too early when volume 1 finishes
  before volume 0 (`IswRebuild.RebuildTwoVolumes`). A second volume created after
  that is on fewer drives than the first (`IswMembers.DisorderlyRun`), and the end
  of the next rebuild does not build its image (`IswMembers.UnevenEndIsWrong`). All
  volumes are on the same number of drives exactly when each second volume is added
  with one table entry for each member (`IswMembers.MembersOfARunIff`).
* The state of the second map is stored outside the image
  (`IswRebuild.SecondMapStaysNormal`); the image does not fit its buffer for six
  disks and two volumes (`IswRebuild.StartFitsBuffer`).
* `_add_raid_set` looks for a set named by a blank (`DsoList.AddKeepsAllIff`), and
  the in-use bit is cleared by the first of two events on a set, so a set keeps its
  protection exactly when neither happens to it (`DsoEvents.SetIsGuardedIff`,
  `DsoRace.TwoEventsAreNotSafe`).
* `handle_table` skips white space behind the target type, newlines included
  (`TableText.RoundTripIff`).

## Model

| member | source | states |
|---|---|---|
| Crc32.PolyIsGenerator | lib/format/ddf/ddf1_crc.c:30-36 | The constant 0xEDB88320 holds exactly the exponents of the generator of ITU-T V.42, section 8.1.1.6.2, below 32. |
| Crc32.CrcTable.Init | lib/format/ddf/ddf1_crc.c:30-42 | The table is computed once; whatever was computed before, its entries are eight clocks of the reflected register. |
| Crc32.CrcTable.Crc | lib/format/ddf/ddf1_crc.c:52-64 | On every call and every buffer the table-driven CRC is the bit-serial one of RFC 1952. |
| Crc32.TableStep | lib/format/ddf/ddf1_crc.c:59-61 | One byte through the table is eight bits through the register. |
| Crc32.FeedIsRemainder | lib/format/ddf/ddf1_crc.c:52-64 | The register is the remainder of the message, with the preset in front and 32 zeros behind, under the generator polynomial. |
| Crc32.ReceiverResidue | lib/format/ddf/ddf1_crc.c:52-64 | Behind any buffer its complemented CRC leaves the one remainder of 32 ones followed by 32 zeros, the check of ITU-T V.42. |
| Crc32.BurstDetected | lib/format/ddf/ddf1_crc.c:52-64 | Two messages that differ only inside a window of at most 32 bits leave different registers. |
| Crc32.FourByteWindow | lib/format/ddf/ddf1_crc.c:52-64 | Buffers of equal length that differ only inside four consecutive bytes have the same CRC exactly when they are equal. |
| Crc32.GeneratorUndetected | lib/format/ddf/ddf1_crc.c:52-64 | The bound is sharp: adding the 33 bits of the generator is never noticed. |
| ByteOrder.ConvertedReverses | lib/datastruct/byteorder.h:20-50 | On a field of its own width each conversion macro reverses the bytes, on either host. |
| ByteOrder.ConvertedClears | lib/datastruct/byteorder.h:33-49 | The 32-bit macro on a 16-bit field clears it. |
| Ddf1Fields.CvtFieldsTwice | lib/format/ddf/ddf1_cvt.c:23-135 | Converting disjoint fields twice restores the buffer except for fields that are narrower than their macro. |
| Ddf1Cvt.TableTwice | lib/format/ddf/ddf1_cvt.c:138-207 | A table whose entry count is read before the swap in one direction and after it in the other visits the same entries both times. |
| Ddf1Cvt.VirtDrivesTwice | lib/format/ddf/ddf1_cvt.c:113-135 | The virtual drive table comes back exactly when every vd_num was zero. |
| Ddf1Elements.ElementsTwice | lib/format/ddf/ddf1_cvt.c:138-181 | With more elements than the id array holds, the interleaved swaps restore the record exactly when an offset that the ids end in reads the same both ways. |
| Ddf1Image.KindIsOrderFree | lib/format/ddf/ddf1_lib.c:69-107 | The record walk takes the same branch in either byte order. |
| Ddf1Image.RecordTwice | lib/format/ddf/ddf1_cvt.c:138-207 | A configuration record comes back exactly when it is restorable. |
| Ddf1Image.AreaTwice | lib/format/ddf/ddf1_cvt.c:209-219 | The same for all records of the configuration area, and nothing behind them changes. |
| Ddf1Image.CvtAllTwice | lib/format/ddf/ddf1_cvt.c:221-265 | ddf1_cvt_all twice is the identity on all tables and records exactly when no virtual drive has a number and every record is restorable, or when there is nothing to convert. |
| Ddf1Members.StructureReads | lib/format/ddf/ddf1.h:92-248 | When the fields that are converted are the numbers that a structure declares, each number reads on the host as it did in the other byte order, and no other byte changes. |
| Ddf1Reads.HeaderReads | lib/format/ddf/ddf1_cvt.c:23-60 | So for the header: all of its numbers, and no character. |
| Ddf1Reads.TableIsRead | lib/format/ddf/ddf1_cvt.c:89-207 | And for drive tables, VD and spare records: the fixed part, as many entries as the table itself declares, and nothing behind them; the number of a virtual drive is lost. |
| Ddf1Reads.ShapeIsDeclared | lib/format/ddf/ddf1.h:20-36 | The walk over the records divides the area by vd_config_record_len and config_record_len, and ids have room for max_primary_elements, or max_phys_drives. |
| Ddf1Reads.ConvertedReads | lib/format/ddf/ddf1_cvt.c:221-265 | After ddf1_cvt_all all tables and records of a disk read like this. |
| Ddf1Crc.StampMatches | lib/format/ddf/ddf1_crc.c:74-84 | A stored CRC does not depend on the field that holds it. |
| Ddf1Crc.UnsetCrc | lib/format/ddf/ddf1_crc.c:74-84 | The CRC is that of the table with ones in its crc field. |
| Ddf1Crc.UpdateThenCheck | lib/format/ddf/ddf1_crc.c:172-234 | After the update walk the check walk reports nothing, although sizes and record layout are read from a header that is stamped on the way. |
| Ddf1Crc.UpdateTouchesCrcsOnly | lib/format/ddf/ddf1_crc.c:172-234 | The update walk changes no byte outside the crc fields of the tables and of the VD and spare records; other records stay as they are. |
| Ddf1Detects.ReportedIff | lib/format/ddf/ddf1_crc.c:172-226 | The check walk reports exactly the tables whose CRC over the blocks that the primary header counts for them does not match. |
| Ddf1Detects.ChangeIsReported | lib/format/ddf/ddf1_crc.c:172-226 | A change of up to four bytes anywhere in these blocks of a table that was in order is reported. |
| Ddf1Detects.RecordChangeIsReported | lib/format/ddf/ddf1_crc.c:142-170 | And one in a VD or spare record, behind its signature. |
| Ddf1Disk.DoCrc32 | lib/format/ddf/ddf1_crc.c:74-84 | The CRC over the structure with its crc field set to ones, which is put back. |
| Ddf1Disk.UpdateArea | lib/format/ddf/ddf1_crc.c:93-124 | The in-place walk stamps exactly the VD and spare records. |
| Ddf1Disk.CheckArea | lib/format/ddf/ddf1_crc.c:142-170 | The walk reports exactly the records that do not match and leaves the area as it was. |
| Ddf1Disk.ConvertArea | lib/format/ddf/ddf1_cvt.c:209-219 | The in-place walk converts every record by its kind. |
| Ddf1Disk.Disk.ConvertAll | lib/format/ddf/ddf1_cvt.c:221-265 | The tables in memory become those of CvtAll, the records converted while the header is readable. |
| Ddf1Disk.Disk.UpdateAllCrcs | lib/format/ddf/ddf1_crc.c:228-234 | The tables in memory become those of UpdateAll. |
| Ddf1Disk.Disk.CheckAllCrcs | lib/format/ddf/ddf1_crc.c:220-226 | What is logged is the list of mismatches, and no table changes. |
| Ddf1Disk.Disk.Write | lib/format/ddf/ddf1.c:850-865 | In adaptec mode the CRCs are updated first; what goes to the disk is the converted image, and the image in memory is as before the conversion exactly when it is reversible. |
| Ddf1Write.UpdateStays | lib/format/ddf/ddf1.c:857-860 | Updating the CRCs keeps an image in shape for the conversion, and reversible or not. |
| Ddf1Write.ReversibleReadsBack | lib/format/ddf/ddf1.c:850-865 | Whoever reads back and converts what was written finds no CRC out of order when the image is reversible. |
| Ddf1Write.ReadsBackIff | lib/format/ddf/ddf1_cvt.c:133 | With records that are restorable and at most one virtual drive with a number, only then: the number that the conversion loses lies in the bytes that the CRC covers. |
| IswLayout.WalkFinds | lib/format/ataraid/isw.c:318-354 | The walk over the bytes finds every volume where it was laid out, whatever follows the image. |
| IswLayout.WalkEndsAtMpbSize | lib/format/ataraid/isw.c:327-354 | mpb_size is the offset the walk reaches after num_raid_devs volumes. |
| IswChecksum.SealedIsAccepted | lib/format/ataraid/isw.c:302-316 | Storing the checksum changes neither it nor the length, so the reader accepts the image. |
| IswChecksum.OneWordIsNoticed | lib/format/ataraid/isw.c:302-316 | An accepted image with one word changed, other than its length, is accepted only if nothing was changed. |
| IswBytes.ComputeChecksum | lib/format/ataraid/isw.c:306-316 | The loop over the words computes the checksum of the image in 32 bits. |
| IswBytes.FindRaiddev | lib/format/ataraid/isw.c:327-354 | The loop of raiddev returns the offset of the volume. |
| IswRuns.ApplyKeepsGood | lib/format/ataraid/isw.c:932-1021 | Every edit of a good image gives a good image and counts one generation, except the removal of a volume. |
| IswRuns.EveryImageOfARun | lib/format/ataraid/isw.c:318-354 | Over every run of create, second volume on all disks of the table, start rebuild, end rebuild and remove, each image has mpb_size at the end of its walk, each volume where the walk looks for it, and an accepted checksum. |
| IswMembers.MembersOfARunIff | lib/format/ataraid/isw.c:1464-1484 | Over every run the volumes of all images are on the same number of drives exactly when each second volume is added while the disk table, with which the source compares, has one entry for each member. |
| IswMembers.OrderlyRunIsBalanced | lib/format/ataraid/isw.c:932-1021 | Over runs whose rebuilds start from images at rest and end in index order the table has one entry for each member, and one more while a volume is rebuilt; so that condition always holds. |
| IswMembers.DisorderlyRun | lib/format/ataraid/isw.c:2066-2073 | There is a run, for any disks, after which the second volume is on one drive less than the first: both volumes are rebuilt out of order, one is removed and a new one created. |
| IswMembers.UnevenEndIsWrong | lib/format/ataraid/isw.c:890-897 | After such a run the end of a rebuild fails on either volume: for volume 1 the bytes built are not the image, and for volume 0 the map length does not fit the other volume, so that the copies need more than the new buffer. |
| IswRuns.GenerationOfARun | lib/format/ataraid/isw.c:1016-1020 | The generation of the last image counts the edits of the run, in 32 bits. |
| IswFields.ImageOffsets | lib/format/ataraid/isw.h:200-229 | The offsets in the header are those of the declaration. |
| IswFields.DiskOffsets | lib/format/ataraid/isw.h:81-113 | And those in a disk entry. |
| IswFields.DevOffsets | lib/format/ataraid/isw.h:145-197 | And those in a volume. |
| IswFields.MapOffsets | lib/format/ataraid/isw.h:116-143 | And those in a map. |
| IswFields.StoreOffset | lib/format/ataraid/isw.c:2612-2615 | The store of the second map's state goes as many declared maps of one entry behind the first map as the map has bytes. |
| IswFields.StartFields | lib/format/ataraid/isw.c:2561-2787 | After the start of a rebuild the new disk has the place of the failed one, whose entry is last, without SCSI id and configured only; every volume is rebuilding with two equal maps that name the failed disk and are in order; nothing else changes. |
| IswFields.EndFields | lib/format/ataraid/isw.c:932-1021 | After the end the volume is at rest with its first map, and the last entry is gone unless volume 0 is done and volume 1 is not. |
| IswHeaders.RebuildHeaders | lib/format/ataraid/isw.c:2725-2780 | Both only count the generation in the header, besides checksum, length and counts. |
| IswHeaders.FirstFields | lib/format/ataraid/isw.c:1849-1862 | A new image has the signature, the version, the attribute, one family number in both places, and generation 0. |
| IswHeaders.SecondFields | lib/format/ataraid/isw.c:1951-1965 | A second volume counts the generation and raises the version if the new one is higher. |
| IswHeaders.RemoveFields | lib/format/ataraid/isw.c:2346-2383 | A removal keeps the generation and lowers the version for a mirror or a small stripe. |
| IswHeaders.PlannedFields | lib/format/ataraid/isw.c:1626-1748 | A new volume has the name that was given, the size and the extent that were computed, and level, copies and order of its level; RAID 5 on more than four disks has a second, uninitialized map from the first block on. |
| IswRebuild.RebuildOneVolume | lib/format/ataraid/isw.c:2713-2787 | Start and end of a rebuild replace the failed disk's entry only, leave one map, restore the length, and count two generations. |
| IswRebuild.RebuildTwoVolumes | lib/format/ataraid/isw.c:932-1021 | With two volumes the disk table is restored exactly when they finish in index order; otherwise the failed disk is dropped early and the last disk is lost. |
| IswRebuild.StartFitsBuffer | lib/format/ataraid/isw.c:2713-2718 | The image of a started rebuild fits two sectors exactly for at most nine disks with one volume and five with two. |
| IswRebuild.SecondMapStaysNormal | lib/format/ataraid/isw.c:2608-2615 | The store of the second map's state lies past the buffer for every number of members, and the map stays a copy of the first. |
| IswStartRebuild.UpdateDev | lib/format/ataraid/isw.c:2561-2620 | The bytes written behind the image are the volume with two equal maps in disk order. |
| IswStartRebuild.StartImage | lib/format/ataraid/isw.c:2623-2787 | The buffer holds exactly the image of StartRebuild, followed by zeros. |
| IswStartRebuild.FailedDiskStatus | lib/format/ataraid/isw.c:2656-2659 | The failed disk is marked: bit 2 of its status is set, bit 3 is clear, and the others are the same. |
| IswAfterRebuild.CopyVolume | lib/format/ataraid/isw.c:990-1013 | The copy takes as many bytes of a volume as adjust_length gives for the map length of the rebuilt volume, and changes no others. |
| IswAfterRebuild.AfterRebuild | lib/format/ataraid/isw.c:932-1021 | The copies with running offsets build exactly the image of EndRebuild with as many zeros at its end as bytes of the other volume were not copied, and the checksum of that. |
| IswAfterRebuild.EndIsRightIff | lib/format/ataraid/isw.c:996-1013 | That is the image of EndRebuild exactly when the bytes that were not copied are zero there. |
| IswAfterRebuild.SameMembersEnd | lib/format/ataraid/isw.c:996-1013 | With volumes on the same number of drives it always is. |
| IswCreate.WriteDev | lib/format/ataraid/isw.c:1708-1748 | The stores of isw_config_dev and isw_config_map make a well-formed volume and change nothing behind it. |
| IswCreate.NewDevExtent | lib/format/ataraid/isw.c:1626-1655 | The volume stores the extent that was computed for it. |
| IswCreate.CreateFirstImage | lib/format/ataraid/isw.c:1806-1863 | A first volume is refused exactly when its extent is; otherwise the buffer holds the image of CreateFirst with a volume of that name, size, level and extent. |
| IswCreate.CreateSecondImage | lib/format/ataraid/isw.c:1898-1966 | The same for a second volume, which lands where the walk looks for volume 1. |
| IswCreate.RemoveImage | lib/format/ataraid/isw.c:2346-2383 | The image written after a removal is that of RemoveVolume. |
| IswExtents.GetStrideSize | lib/format/ataraid/isw.c:1559-1596 | The strip is the first offered one that is large enough, or the largest. |
| IswExtents.CalArraySize | lib/format/ataraid/isw.c:1657-1706 | The loop computes what the smallest member leaves for a volume, in the branches of the source. |
| IswExtents.OfferedSize | lib/format/ataraid/isw.c:1657-1706 | It offers what the smallest member has left n times for RAID 0, once for RAID 1, twice for RAID 10 and n-1 times for RAID 5. |
| IswExtents.TooSmall | lib/format/ataraid/isw.c:1657-1706 | Nothing is offered when a disk is smaller than the reserved blocks. |
| IswExtents.FirstAcceptedIff | lib/format/ataraid/isw.c:431-438 | A first volume is refused exactly when its size, raised to the minimum, is more than that; without a size it gets all. |
| IswExtents.BehindExisting | lib/format/ataraid/isw.c:1922-1926 | A volume behind the existing one is refused exactly when less than the minimum is offered. |
| IswExtents.OptionsAre | lib/format/ataraid/isw.c:1562-1568 | The strips on offer double from 8 or 32 to 256 blocks, or are 128 for a mirror. |
| IswExtents.FirstVolume | lib/format/ataraid/isw.c:1806-1820 | An accepted first volume starts at the beginning, fits every member, and its members hold its size in whole strips as its level says: once, twice, or beside parity, with less than a stripe more; no 32-bit field wraps. |
| IswExtents.SecondVolume | lib/format/ataraid/isw.c:1708-1738 | An accepted second volume holds its size likewise, fits every member, and is MIGR_OPT_SPACE away from the first. |
| IswExtents.EveryRunIsSound | lib/format/ataraid/isw.c:1626-1748 | Over any run of creations and deletions all volumes fit and two are disjoint with MIGR_OPT_SPACE between them. |
| IswExtents.BelowExisting | lib/format/ataraid/isw.c:1729-1738 | A volume below the existing one is accepted exactly when the room is large enough and its strips fill whole stripes. |
| IswPlaced.EveryImageIsSound | lib/format/ataraid/isw.c:1626-1748 | Over every run of edits whose volumes get the extents of CreateFirst and CreateSecond, the extents that each image stores fit on every member and are MIGR_OPT_SPACE apart, also after rebuilds onto disks that are large enough. |
| IswDiskIo.Write | lib/format/ataraid/isw.c:611-642 | The sectors are flipped and stored at the computed offset. |
| IswDiskIo.Read | lib/format/ataraid/isw.c:514-594 | The last sector but one is read first, then what lies before it. |
| IswDiskIo.ReadBackLength | lib/format/ataraid/isw.c:515-544 | As many whole sectors are read as the stored length needs, and at least one. |
| IswDiskIo.PlaceOnDisk | lib/format/ataraid/isw.c:421-428 | The first sector of an image is the last but one of the disk, and its second sector lies before that. |
| IswDiskIo.ReadAfterWrite | lib/format/ataraid/isw.c:421-428 | An image of at most two sectors comes back byte for byte and no other sector is touched. |
| IswDiskIo.GoodImageIsReadBack | lib/format/ataraid/isw.c:2908-2920 | Every image of at most two sectors that an editor produces passes the check of the reader. |
| Rounding.RoundsDownIff | include/dmraid/misc.h:45-49 | round_down gives the largest multiple below every number exactly for powers of two. |
| Rounding.RoundsUp | include/dmraid/misc.h:51-63 | For powers of two round_up gives the smallest multiple that is not below, and div_up counts it. |
| RaidSets.TotalSectors | lib/metadata/metadata.c:202-248 | The recursion over subsets and disks computes the advertised size. |
| RaidTotals.TotalIsSum | lib/metadata/metadata.c:202-248 | The advertised size is the sum of the shares in whole strides, without one share of the parts for RAID 4 and 5. |
| RaidTotals.MirrorTotalIff | lib/metadata/metadata.c:162-176 | For a mirror it is the least share exactly when no share is empty or the last one is. |
| RaidSets.FindSmallest | lib/activate/activate.c:59-77 | The loops of _smallest compute its specification. |
| RaidSets.SmallestIs | lib/activate/activate.c:38-77 | It is the least size above the minimum, or 0 when there is none. |
| DmTable.DmLinear | lib/activate/activate.c:134-190 | One record for each subset and disk, each where the one before it ends. |
| DmTable.DmRaid0 | lib/activate/activate.c:215-319 | The records of the loop over sizes; the counted components are the listed ones. |
| DmTable.DmRaid1 | lib/activate/activate.c:429-532 | One record with a leg for every component, the region size, and the synchronisation word; the drive to rebuild is last when it is the first one; a linear table for a single leg. |
| DmTable.RegionSizeIs | lib/activate/activate.c:325-338 | The region size is the smallest power of two, from 64 to 131072 sectors, whose double reaches a 1024th of the sectors, counted as an unsigned int. |
| DmMirror.EveryLegOnce | lib/activate/activate.c:474-520 | A sector of a mirror goes to the same sector of every component, once. |
| DmMirror.LegOrder | lib/activate/activate.c:474-520 | The legs are in order; to rebuild the first drive, the first subset and the first disk go behind the others of their kind. |
| DmMirror.MirrorHitsIff | lib/activate/activate.c:474-520 | Through any stack a sector of a mirror is exactly where that sector of some component is. |
| DmMirror.OnEveryDisk | lib/activate/activate.c:474-520 | Every sector of a mirror of disks is on every disk. |
| DmMapping.MapSet | lib/activate/activate.c:134-319 | A sector goes to a component inside the size the set relies on, and from there back to itself. Mirrors may be in any state, with the drive to rebuild last. |
| DmMapping.LinearInOrder | lib/activate/activate.c:134-190 | A linear set fills its components one behind the other: the next sector is the next one of the component or the first one of the component behind it. |
| DmMapping.StripeReaches | lib/activate/activate.c:215-319 | Every sector of the whole chunks of the smallest component is used. |
| DmMapping.StripeInTurn | lib/activate/activate.c:215-319 | The chunks of a stripe go to the components in turn. |
| DmStack.ResolvesInside | lib/activate/activate.c:134-319 | Through any stack, with mirrors in sync or with a drive to rebuild, every sector of the top table ends inside the extent of a disk. |
| DmStack.ResolvesSomewhere | lib/activate/activate.c:134-319 | And at least in one place. |
| DmStack.ResolvesApart | lib/activate/activate.c:134-319 | Two different sectors never share a sector of a disk. |
| DmLengths.StripeLengthIsTotal | lib/activate/activate.c:294-319 | A stripe over disks maps exactly total_sectors. |
| DmLengths.MirrorLengthRoundsToTotal | lib/activate/activate.c:453-455 | A mirror over disks, rounded to the stride, maps total_sectors. |
| DmLengths.LinearLengthCoversTotal | lib/metadata/metadata.c:215-228 | A linear set maps at least total_sectors. |
| DmLengths.ParityLengthIsTotal | lib/activate/activate.c:741-751 | A RAID 4/5 set over disks maps total_sectors exactly when division and mask round its smallest member alike. |
| DmLengths.StrideIsPowerIff | include/dmraid/misc.h:45-49 | A stride is a power of two exactly when all RAID 4/5 sets of that stride map total_sectors. |
| DmLengths.TwoLevelsAreSane | lib/metadata/metadata.c:202-248 | In a stack of two levels every subset maps at least the size its parent relied on. |
| DmLengths.StackedStripe | lib/metadata/metadata.c:207-214 | A stripe over subsets maps what it advertises exactly when they all round to one size, and less otherwise. |
| DmMaximize.SlicesPartition | lib/activate/activate.c:294-319 | The slices of the lines cover every sector of every component exactly once. |
| DmMaximize.LengthsSum | lib/activate/activate.c:215-225 | The lengths of the lines sum to the sizes of the components. |
| DmMaximize.MaximizedLengthIsTotal | lib/metadata/metadata.c:215-228 | That sum is total_sectors. |
| DmMaximize.OneLinePerSize | lib/activate/activate.c:300-315 | The loop ends after one line for each different size. |
| DmMaximize.StartsFitIff | lib/activate/activate.c:222-225 | The starts are contiguous exactly when there is one size. |
| RaidSlots.RaidList.Fill | lib/activate/activate.c:707-738 | The insertions make the filled list, and members counts its entries. |
| RaidSlots.SlotsIff | lib/activate/activate.c:707-738 | Every drive is in its own slot of ndev exactly when the indices found are strictly increasing below ndev. |
| TablePrint.Buffer.PFmt | lib/misc/misc.c:223-276 | The chunks between the conversions print what the format means character by character; an unknown conversion frees the string. |
| TableScan.ScanAt | lib/activate/devmapper.c:129-135 | The scan reads two numbers, which may have signs, and a word of at most 31 characters, and skips space. |
| TableScan.HandleTable | lib/activate/devmapper.c:115-147 | The loop adds the targets of the lines until one is malformed, of an unknown type, or refused, and leaves the table text as it was. |
| TableScan.HandleIsParse | lib/activate/devmapper.c:115-147 | It succeeds exactly on the tables that parse to lines of known types that are not refused, and has then added exactly these lines; before a failure, a first part of them. |
| TableScan.HandleStops | lib/activate/devmapper.c:115-147 | What a task gets are accepted targets only, up to the first line that is not accepted. |
| TableNumbers.LineIsScanned | lib/activate/devmapper.c:129-135 | A line of two numbers, each with or without a sign and white space in front, and a type is scanned as such. |
| TableNumbers.SignedNumber | lib/activate/devmapper.c:129-135 | A number has at most one sign, and a minus makes it negative. |
| TableNumbers.NumberIn64Bits | lib/activate/devmapper.c:129-135 | A number that is too large is the largest one, and a negative one is taken modulo 2^64. |
| TableNumbers.SpacesAre | lib/activate/devmapper.c:129-135 | White space is the six characters of the C locale. |
| TableNumbers.TypeIsCut | lib/activate/devmapper.c:129-135 | A type is cut off behind 31 characters. |
| TableNumbers.PrintedIsRead | lib/misc/misc.c:223-276 | What %d prints is scanned as the same number in 64 bits. |
| TableText.RoundTripIff | lib/activate/devmapper.c:115-147 | Parsing a printed table gives back the lines exactly when they are clean: a short word as type, parameters on one line that do not begin with space and are empty on the last line only. |
| TableLines.PrintStripes | lib/activate/activate.c:215-319 | dm_raid0 prints the text of its table. |
| TableLines.PrintLinear | lib/activate/activate.c:166-180 | dm_linear over disks prints the text of its table. |
| TableLines.PrintMirror | lib/activate/activate.c:413-532 | dm_raid1 prints the text of the only line of its table. |
| TableLines.PrintedTableParses | lib/activate/devmapper.c:115-147 | The printed text of linear, striped and mirror tables parses back to what was printed. |
| TableMeaning.PrintedMeans | lib/activate/activate.c:113-132 | The printed parameters, read as words and numbers, are the chunk or region size, the synchronisation word, the counts, and for each target the path and the sector behind the offset of the device. |
| TableMeaning.TextSends | lib/activate/activate.c:134-532 | The text printed for a set of disks, parsed and read, sends each sector exactly to the places where the set has it. |
| TableMeaning.MirrorLineSays | lib/activate/activate.c:410-455 | The line of a mirror is as long as its smallest disk, has a region size that is a power of two, and says sync exactly when the set is not in sync. |
| DsoList.Registry.Find | lib/events/libdmraid-events-isw.c:262-281 | The first set of a name with the set before it, or none with the last set. |
| DsoList.Registry.Add | lib/events/libdmraid-events-isw.c:376-388 | The pointers stay a chain without a cycle that holds the list of Added. |
| DsoList.Registry.Del | lib/events/libdmraid-events-isw.c:390-398 | The chain loses exactly the set. |
| DsoList.AddKeepsAllIff | lib/events/libdmraid-events-isw.c:376-388 | No set is lost exactly when none is named by a blank, or it is alone. |
| DsoPointers.AddStep | lib/events/libdmraid-events-isw.c:376-388 | When a thread adds a set, the pointers go from the list of the state to that of the next state, without a cycle. |
| DsoPointers.UnlinkStep | lib/events/libdmraid-events-isw.c:390-398 | The same when a thread unlinks the set it has found. |
| DsoPointers.ExecuteRun | lib/events/libdmraid-events-isw.c:1394-1604 | Any run, executed on the structures, ends with pointers that form the chain, without a cycle, of the last state of the run. |
| DsoProtocol.StepRegister | lib/events/libdmraid-events-isw.c:1505-1561 | Every step of register_device keeps the invariant. |
| DsoProtocol.StepUnregister | lib/events/libdmraid-events-isw.c:1570-1604 | Every step of unregister_device keeps the invariant. |
| DsoProtocol.StepEvent | lib/events/libdmraid-events-isw.c:1394-1448 | Every step of process_event keeps the invariant. |
| DsoProtocol.ListIsAlwaysSound | lib/events/libdmraid-events-isw.c:1394-1604 | Under every interleaving, and for all names, the names on the list are different and no set on it is freed. |
| DsoExclusion.CallsFindTheirSet | lib/events/libdmraid-events-isw.c:1394-1604 | Calls go on with a listed set of the name they were given and give up exactly when there is none; registering goes on exactly when the name is free. |
| DsoExclusion.EventsAreExclusive | lib/events/libdmraid-events-isw.c:1419-1444 | Under every interleaving two threads never process events on one set at the same time. |
| DsoExclusion.StepLosesIff | lib/events/libdmraid-events-isw.c:376-388 | A step loses a set exactly when it adds one behind a set named by a blank and cuts others off. |
| DsoExclusion.NothingIsLostIff | lib/events/libdmraid-events-isw.c:1394-1604 | Under every interleaving each allocated set is on the list, freed, or in the hands of a thread, exactly when no step of the run does that. |
| DsoEvents.StepGuardsIff | lib/events/libdmraid-events-isw.c:1394-1604 | A step leaves a set whose event is handled without its flag, off the list, or freed exactly when it clears the flag while another thread uses the set, or adds a set behind which it is lost. |
| DsoEvents.SetIsGuardedIff | lib/events/libdmraid-events-isw.c:1394-1604 | Under every interleaving a set is guarded throughout the run exactly when no step of the run is such a step. |
| DsoEvents.EventsAreSafeIff | lib/events/libdmraid-events-isw.c:1394-1604 | The same for all sets at once. |
| DsoEvents.SingleEventIsGuarded | lib/events/libdmraid-events-isw.c:1394-1448 | A set on which events are handled one at a time stays flagged, listed and allocated meanwhile, whatever happens on other sets, when no set is named by a blank. |
| DsoRace.TwoEventsAreNotSafe | lib/events/libdmraid-events-isw.c:1443-1444 | There is a run from the initial state, with any name, that registers a set, handles two events on it and leaves one of them with a freed set. |
| AsrTable.Asr.GetConfig | lib/format/ataraid/asr.c:51-64 | The last line of a magic number. |
| AsrTable.Asr.FindToplevel | lib/format/ataraid/asr.c:497-513 | The first two-level line, or else the last logical line. |
| AsrTable.Asr.DeleteConfigline | lib/format/ataraid/asr.c:723-737 | The array loses exactly the line. |
| AsrTable.Asr.CreateConfigline | lib/format/ataraid/asr.c:867-908 | The new line, or a refusal when the array is full; another set type leaves old fields in it. |
| AsrTable.Asr.Cleanup | lib/format/ataraid/asr.c:829-865 | The deletions in place are the order-preserving filter of logical lines and lines of members. |
| AsrUpdate.FindNewest | lib/format/ataraid/asr.c:739-762 | The loops find the newest drive. |
| AsrCounts.NewestHasHighest | lib/format/ataraid/asr.c:739-762 | It has a line of the highest sequence number of all lines, and is the last drive with one. |
| AsrUpdate.UpdateMetadata | lib/format/ataraid/asr.c:911-979 | It fails exactly when no drive has a line. Otherwise all tables and magic numbers are those of the specification: the update starts from the drive's own table or, for a spare, from that of the newest drive, with its top level line counted up. |
| AsrUpdate.OneBumpEach | lib/format/ataraid/asr.c:953-974 | The last line of each member is counted up once, every other line stays, and what is added are lines of members that had none. |
| AsrUpdate.UpdatedTable | lib/format/ataraid/asr.c:911-979 | Physical lines name members only, and every member has a line when there is room for the missing ones. |
| AsrUpdate.CompleteIff | lib/format/ataraid/asr.c:867-908 | Every member has a line exactly when the lines of the table that the update starts from, and one for each magic number missing there, fit the fixed array. |
| AsrCounts.ToplevelIs | lib/format/ataraid/asr.c:497-513 | The top level line is the first of two levels or, without one, the last logical one. |
| AsrCounts.StartedIs | lib/format/ataraid/asr.c:937-945 | A drive whose own line is that of a spare starts from the table of the newest drive. |
| AsrCounts.StartedWithoutLine | lib/format/ataraid/asr.c:937-945 | A drive without a line of its own keeps its table. |
| AsrCounts.WrittenCounts | lib/format/ataraid/asr.c:951-974 | In the table that is written, the sequence number of each line that stays is one higher for the top level line and one for the last line of a member, in 16 bits; its other fields are the same. |
| AsrCounts.WrittenIsNewer | lib/format/ataraid/asr.c:951-964 | So its highest sequence number is above that of the old top level line, unless it wraps around. |
| AsrCounts.AddedLines | lib/format/ataraid/asr.c:867-908 | What is added are physical lines for members without one, with strip, capacity and sequence number of a first line. |
| AsrCounts.NumbersAreAssigned | lib/format/ataraid/asr.c:931-968 | Every member without a magic number gets the random one. |
| AsrCounts.TableFillsBlocks | lib/format/ataraid/asr.h:94-180 | The declared table with its 127 lines fills 16 blocks. |
| CircularList.ListAddTail | include/dmraid/list.h:29-43 | The ring with one more node before a position. |
| CircularList.ListDel | include/dmraid/list.h:45-50 | The ring without the node, whose pointers are cleared. |
| CircularList.ListAddSorted | lib/metadata/metadata.c:1722-1748 | The node goes before the first larger key, or first without a sort function. |
| CircularList.InsertAllSorts | lib/metadata/metadata.c:1722-1748 | Whatever the order of arrival the list is sorted, holds exactly what arrived, and keeps equal keys in order of arrival. |
| CircularList.Collect | lib/format/ataraid/pdc.c:279-285 | Repeated sorted insertion makes a well-formed ring of exactly that list. |

## Left out

- I/O, ioctls, sysfs, libdevmapper and dmeventd calls, LEDs, prompts, logging and allocation failure; disks and buffers are byte arrays, threads are steps.
- Spares and parts that are not usable in the mapping.
- IswRuns.EveryImageOfARun: that the source writes past its buffer when the image of a started rebuild is too long (IswRebuild.StartFitsBuffer says when).
- IswRuns.EveryImageOfARun: the end of a rebuild with volumes on different numbers of drives is not an edit of a run (IswMembers.DisorderlyRun reaches one, IswAfterRebuild.EndIsRightIff says what it builds).
- IswPlaced.EveryImageIsSound: a rebuild onto a smaller disk that the user names, which the source does not compare.
- TableScan.HandleTable: the list of targets that are refused is fixed for a call.
- RaidSets.TotalSectors: sums of sectors are not wrapped at 64 bits; DmTable.DmRaid0 does wrap its products.
- RaidSets.TotalSectors: RAID 6, which takes the share of a drive off twice, and groups are not modelled.
- DmTable.DmRaid1: spares and members that are not usable; DmTable has no records for RAID 4/5, only their length.
- DmStack.ResolvesApart: maximized sets are excluded, because their starts do not fit together (DmMaximize.StartsFitIff).
- TableMeaning.TextSends: stacked subsets and paths with white space in them.
- IswChecksum.OneWordIsNoticed: a change of the length of the image, which says how many words are summed.
- AsrCounts.WrittenCounts: drives that share a magic number or have none.
- TableLines.PrintLinear: stacked subsets, whose newlines depend on the subset's own list, and spares.
- Raid slots: sets of subsets; the index of a drive is given.
- IswStartRebuild.StartImage: the search for the failed disk and for the volume by name; the store past the buffer is described by IswRebuild.SecondMapStaysNormal. It asks that the image fits the buffer and that the order table of a volume stays inside its two maps.
- IswAfterRebuild.AfterRebuild: the other volume on fewer drives, for which the source writes past the new buffer (IswMembers.UnevenEndIsWrong reaches it).
- IswCreate.CreateFirstImage: the image of a spare disk, which has no volume; IswRuns covers it as an edit.
- IswExtents.FirstVolume: members below the reserved blocks or of 2^32 sectors and more.
- IswDiskIo.Write: images of more than two sectors, which isw_write does not support.
- DDF1: the discovery of the tables on a disk, the workspace start, and all of grouping.
- Ddf1Disk.Disk.CheckAllCrcs: the numbers in the log lines.
- DsoProtocol.ListIsAlwaysSound: the handlers' own lookups without the mutex, and the logging of register_device after it has released the mutex.
- AsrUpdate.UpdateMetadata: sets of other types than RAID 0 and 1, spare arrays and drives without a set; the random number is one for all drives, as within one second; a table without a line of a logical drive, for which the source uses a line before its array.
- CircularList.ListAddSorted: sort functions that do not compare keys.
- The other vendor handlers, DOS partition chains, the command line, display and naming.
