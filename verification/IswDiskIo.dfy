/** Writing an Intel Software RAID image to the end of a disk and reading it back,
    isw_write, set_metadata_sizoff, isw_read_metadata and isw_read_extended of
    lib/format/ataraid/isw.c. A disk is the array of its bytes. The first sector
    of the image is the last but one of the disk; what is longer lies before it.
 */
module IswDiskIo {
  import opened Bits
  import ByteOrder
  import opened Buffers
  import opened Rounding
  import opened IswLayout
  import opened IswChecksum
  import IswEdits

  const BLOCK := 512

  predicate DiskOk(disk: Octets) {
    |disk| >= 3 * BLOCK && |disk| % BLOCK == 0
  }

  // ISW_CONFIGSECTOR in bytes
  function ConfigOffset(size: nat): nat
    requires size >= 2 * BLOCK
  {
    size - 2 * BLOCK
  }

  // An area of whole sectors with an image of at most two of them.
  predicate AreaOk(area: Octets) {
    |area| >= IswLayout.HEADER_SIZE && 0 < MpbSize(area) <= 2 * BLOCK && |area| == RoundUp(MpbSize(area), BLOCK)
  }

  function Flipped(area: Octets): (r: Octets)
    requires |area| == 2 * BLOCK
    ensures |r| == 2 * BLOCK
  {
    area[BLOCK..] + area[..BLOCK]
  }

  function Written(disk: Octets, area: Octets): (r: Octets)
    requires DiskOk(disk) && AreaOk(area)
    ensures |r| == |disk|
  {
    AreaSize(area);
    if MpbSize(area) > BLOCK then Splice(disk, ConfigOffset(|disk|) - BLOCK, Flipped(area))
    else Splice(disk, ConfigOffset(|disk|), area)
  }

  lemma AreaSize(area: Octets)
    requires AreaOk(area)
    ensures |area| == (if MpbSize(area) > BLOCK then 2 * BLOCK else BLOCK)
  {
    hide PowerOfTwo, RoundUp, DivUp;
    BlockIsPowerOfTwo();
    RoundsUp(MpbSize(area), BLOCK);
  }

  lemma BlockIsPowerOfTwo()
    ensures PowerOfTwo(BLOCK)
  {
    assert PowerOfTwo(2) && PowerOfTwo(4) && PowerOfTwo(8) && PowerOfTwo(16);
    assert PowerOfTwo(32) && PowerOfTwo(64) && PowerOfTwo(128) && PowerOfTwo(256);
  }

  method Flip(area: array<byte>) returns (dst: array<byte>)
    requires area.Length == 2 * BLOCK
    ensures fresh(dst) && dst[..] == Flipped(area[..])
  {
    dst := new byte[2 * BLOCK](k => 0);
    Overwrite(dst, 0, area[BLOCK..2 * BLOCK]);
    Overwrite(dst, BLOCK, area[..BLOCK]);
  }

  // isw_write: the sectors change places, and the area goes to its offset.
  method Write(disk: array<byte>, area: array<byte>)
    requires disk != area && DiskOk(disk[..]) && AreaOk(area[..])
    modifies disk
    ensures disk[..] == Written(old(disk[..]), area[..])
  {
    hide ByteOrder.Number, RoundUp, Flipped;
    AreaSize(area[..]);
    assert area[MPB_SIZE..MPB_SIZE + 4] == Part(area[..], MPB_SIZE, 4);
    var mpb := ByteOrder.Number(area[MPB_SIZE..MPB_SIZE + 4]);
    var size := RoundUp(mpb, BLOCK);
    var sector := disk.Length / BLOCK - 2 - size / BLOCK + 1;
    if mpb > BLOCK {
      var dst := Flip(area);
      Overwrite(disk, sector * BLOCK, dst[..size]);
    } else {
      Overwrite(disk, sector * BLOCK, area[..size]);
    }
  }

  predicate Readable(disk: Octets) {
    DiskOk(disk) && var mpb := MpbSize(disk[ConfigOffset(|disk|)..]); 0 < mpb && RoundUp(mpb, BLOCK) + BLOCK <= |disk|
  }

  function ReadBack(disk: Octets): Octets
    requires Readable(disk)
  {
    var at := ConfigOffset(|disk|);
    var size := RoundUp(MpbSize(disk[at..]), BLOCK);
    if size > BLOCK then disk[at..at + BLOCK] + disk[at + BLOCK - size..at] else disk[at..at + BLOCK]
  }

  lemma BlocksOf(mpb: nat)
    requires mpb > 0
    ensures RoundUp(mpb, BLOCK) == BLOCK * DivUp(mpb, BLOCK) >= BLOCK
  {
    hide PowerOfTwo, RoundUp, DivUp;
    BlockIsPowerOfTwo();
    RoundsUp(mpb, BLOCK);
  }

  // As many sectors as the stored length needs, and at least one.
  lemma ReadBackLength(disk: Octets)
    requires Readable(disk)
    ensures var n := |ReadBack(disk)|; n % 512 == 0 && n - 512 < MpbSize(disk[ConfigOffset(|disk|)..]) <= n
  {
    hide PowerOfTwo, RoundUp, DivUp, MpbSize;
    var mpb := MpbSize(disk[ConfigOffset(|disk|)..]);
    BlockIsPowerOfTwo();
    RoundsUp(mpb, BLOCK);
    BlocksOf(mpb);
  }

  // isw_read_metadata and isw_read_extended: the last sector first.
  method Read(disk: array<byte>) returns (image: array<byte>)
    requires Readable(disk[..])
    ensures fresh(image) && image[..] == ReadBack(disk[..])
  {
    hide ByteOrder.Number, RoundUp, DivUp;
    var offset := (disk.Length / BLOCK - 2) * BLOCK;
    var first := disk[offset..offset + BLOCK];
    assert offset == ConfigOffset(disk.Length);
    SliceOfSlice(disk[..], offset, BLOCK, MPB_SIZE, MPB_SIZE + 4);
    SliceOfSlice(disk[..], offset, disk.Length - offset, MPB_SIZE, MPB_SIZE + 4);
    assert first == disk[..][offset..offset + BLOCK];
    assert first[MPB_SIZE..MPB_SIZE + 4] == Part(disk[..][offset..], MPB_SIZE, 4);
    var mpb := ByteOrder.Number(first[MPB_SIZE..MPB_SIZE + 4]);
    BlocksOf(mpb);
    var blocks := DivUp(mpb, BLOCK);
    var size := blocks * BLOCK;
    offset := offset - (size - BLOCK);
    image := new byte[size](k => 0);
    Overwrite(image, 0, first);
    if blocks > 1 {
      Overwrite(image, BLOCK, disk[offset..offset + size - BLOCK]);
    }
  }

  lemma FlippedHalves(area: Octets)
    requires |area| == 2 * BLOCK
    ensures Flipped(area)[..BLOCK] == area[BLOCK..] && Flipped(area)[BLOCK..2 * BLOCK] == area[..BLOCK]
  {
    var a, b := area[BLOCK..], area[..BLOCK];
    assert (a + b)[..|a|] == a;
    assert (a + b)[|a|..] == b;
  }

  // Where the sectors of the image are on the disk.
  lemma WrittenSectors(disk: Octets, area: Octets)
    requires DiskOk(disk) && AreaOk(area) && BLOCK <= |area| <= 2 * BLOCK
    ensures var r, at := Written(disk, area), ConfigOffset(|disk|);
      && r[at..at + BLOCK] == area[..BLOCK]
      && (MpbSize(area) > BLOCK ==> r[at - BLOCK..at] == area[BLOCK..])
  {
    hide ByteOrder.Number, RoundUp, Splice, Flipped;
    AreaSize(area);
    var r, at := Written(disk, area), ConfigOffset(|disk|);
    if MpbSize(area) > BLOCK {
      SliceOfSplice(disk, at - BLOCK, Flipped(area));
      FlippedHalves(area);
      SliceOfSlice(r, at - BLOCK, 2 * BLOCK, 0, BLOCK);
      SliceOfSlice(r, at - BLOCK, 2 * BLOCK, BLOCK, 2 * BLOCK);
    } else {
      SliceOfSplice(disk, at, area);
      assert area[..BLOCK] == area;
    }
  }

  lemma OtherSectors(disk: Octets, area: Octets)
    requires DiskOk(disk) && AreaOk(area) && BLOCK <= |area| <= 2 * BLOCK
    ensures var r, from, to := Written(disk, area), ConfigOffset(|disk|) + BLOCK - |area|, ConfigOffset(|disk|) + BLOCK;
      r[..from] == disk[..from] && r[to..] == disk[to..]
  {
    hide ByteOrder.Number, RoundUp, Splice, Flipped;
    AreaSize(area);
    if MpbSize(area) > BLOCK {
      SliceOfSplice(disk, ConfigOffset(|disk|) - BLOCK, Flipped(area));
    } else {
      SliceOfSplice(disk, ConfigOffset(|disk|), area);
    }
  }

  /** An image of at most two sectors comes back byte for byte, and no other sector
      of the disk is touched.
   */
  lemma {:induction false} ReadAfterWrite(disk: Octets, area: Octets)
    requires DiskOk(disk) && AreaOk(area)
    ensures Readable(Written(disk, area)) && ReadBack(Written(disk, area)) == area
    ensures var r, from, to := Written(disk, area), ConfigOffset(|disk|) + BLOCK - |area|, ConfigOffset(|disk|) + BLOCK;
      r[..from] == disk[..from] && r[to..] == disk[to..]
  {
    hide ByteOrder.Number, RoundUp, Written;
    AreaSize(area);
    WrittenSectors(disk, area);
    OtherSectors(disk, area);
    var r, at := Written(disk, area), ConfigOffset(|disk|);
    SliceOfSlice(r, at, BLOCK, MPB_SIZE, MPB_SIZE + 4);
    SliceOfSlice(r, at, |r| - at, MPB_SIZE, MPB_SIZE + 4);
    SliceOfPrefix(area, BLOCK, MPB_SIZE, MPB_SIZE + 4);
    assert Part(r[at..], MPB_SIZE, 4) == Part(area, MPB_SIZE, 4);
    if MpbSize(area) > BLOCK {
      assert area[..BLOCK] + area[BLOCK..] == area;
    } else {
      assert area[..BLOCK] == area;
    }
  }

  /** Every image an editor produces, if it fits two sectors, is read back from the
      disk and accepted by the checksum test of the reader.
   */
  lemma {:induction false} GoodImageIsReadBack(disk: Octets, x: Isw, pad: Octets)
    requires DiskOk(disk) && IswEdits.Good(x) && |Encode(x)| <= 2 * BLOCK
      && |Encode(x) + pad| == RoundUp(|Encode(x)|, BLOCK)
    ensures AreaOk(Encode(x) + pad) && Readable(Written(disk, Encode(x) + pad))
    ensures var r := ReadBack(Written(disk, Encode(x) + pad));
      Encode(x) <= r && MpbSize(r) <= |r| && Accepted(r)
  {
    hide ByteOrder.Number, RoundUp, Encode, Checksum;
    var area := Encode(x) + pad;
    IswEdits.OkOfGood(x);
    IswEdits.OkSize(x);
    ChecksumOfPrefix(Encode(x), pad);
    ReadAfterWrite(disk, area);
    assert Part(area, CHECK_SUM, 4) == Part(Encode(x), CHECK_SUM, 4);
  }

  /** On the disk the first sector of the image is the last but one, a second sector lies just
      before it, and every other sector is as it was.
   */
  lemma PlaceOnDisk(disk: Octets, area: Octets)
    requires DiskOk(disk) && AreaOk(area)
    ensures var n, w := |disk|, Written(disk, area);
      && |area| >= 512 && n >= 1536 && w[n - 1024..n - 512] == area[..512] && w[n - 512..] == disk[n - 512..]
      && (MpbSize(area) <= 512 ==> w[..n - 1024] == disk[..n - 1024])
      && (MpbSize(area) > 512 ==>
            |area| == 1024 && w[n - 1536..n - 1024] == area[512..] && w[..n - 1536] == disk[..n - 1536])
  {
    hide RoundUp;
    AreaSize(area);
    var n, w := |disk|, Written(disk, area);
    if MpbSize(area) > BLOCK {
      SliceOfSplice(disk, n - 1536, Flipped(area));
      assert w[n - 1536..n - 1024] == w[n - 1536..n - 512][..512] == area[512..];
      assert w[n - 1024..n - 512] == w[n - 1536..n - 512][512..] == area[..512];
    } else {
      SliceOfSplice(disk, n - 1024, area);
    }
  }
}
