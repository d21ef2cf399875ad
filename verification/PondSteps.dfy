/** How the elementary device writes of PondFS act on a volume, and what they leave alone. */
module PondSteps {
  import opened Prelude
  import opened Bits
  import opened PondLayout
  import opened PondDir
  import opened PondVolume

  // ---------------------------------------------------------------------
  // Frames

  /** The inode table region is untouched. */
  ghost predicate SameSlots(sb: Superblock, disk: Disk, disk': Disk) {
    && |disk| == |disk'|
    && forall b :: sb.inodeTableStart <= b < sb.inodeTableStart + sb.inodeTableBlocks && b < |disk| ==>
         disk[b] == disk'[b]
  }

  /** The data region is untouched. */
  ghost predicate SameData(sb: Superblock, disk: Disk, disk': Disk) {
    && |disk| == |disk'|
    && forall b :: sb.dataStart <= b < |disk| ==> disk[b] == disk'[b]
  }

  /** All inodes but one keep their record and their bytes. */
  ghost predicate OthersKept(v: Volume, v': Volume, ino: nat) {
    && v.sb == v'.sb
    && |v.table| == |v'.table|
    && SameSlots(v.sb, v.disk, v'.disk)
    && forall j :: 0 <= j < |v.table| && j != ino ==>
         v'.table[j] == v.table[j] && Image(v'.disk, v.table[j]) == Image(v.disk, v.table[j])
  }

  lemma KeptSelf(v: Volume, ino: nat)
    ensures OthersKept(v, v, ino)
  {
  }

  lemma OthersKeptTransitive(v0: Volume, v1: Volume, v2: Volume, ino: nat)
    requires OthersKept(v0, v1, ino) && OthersKept(v1, v2, ino)
    ensures OthersKept(v0, v2, ino)
  {
    forall j | 0 <= j < |v0.table| && j != ino
      ensures v2.table[j] == v0.table[j] && Image(v2.disk, v0.table[j]) == Image(v0.disk, v0.table[j])
    {
      assert v1.table[j] == v0.table[j];
    }
  }

  lemma SlotsKept(sb: Superblock, disk: Disk, disk': Disk)
    requires Layout(sb, |disk|) && SameSlots(sb, disk, disk')
    ensures DiskTable(sb, disk') == DiskTable(sb, disk)
  {
    forall j: nat | j < sb.inodeCount
      ensures Slot(sb, disk', j) == Slot(sb, disk, j)
    {
      SlotInRange(sb, |disk|, j);
    }
  }

  // ---------------------------------------------------------------------
  // Bitmap

  lemma BitmapIndex(sb: Superblock, disk: Disk, bitmap: seq<byte>, b: nat)
    requires Layout(sb, |disk|) && |bitmap| == sb.bitmapBlocks * BLOCK_SIZE
    requires InData(sb, b)
    ensures b - sb.dataStart < 8 * |bitmap|
    ensures sb.bitmapStart + (b - sb.dataStart) / 8 / BLOCK_SIZE < sb.bitmapStart + sb.bitmapBlocks <= sb.dataStart
  {
  }

  lemma UsedAfterSet(sb: Superblock, bitmap: seq<byte>, nb: nat)
    requires InData(sb, nb) && nb - sb.dataStart < 8 * |bitmap|
    ensures forall b :: Used(sb, SetBitAt(bitmap, nb - sb.dataStart), b) <==> b == nb || Used(sb, bitmap, b)
  {
    var i := nb - sb.dataStart;
    SetBitMeaning(bitmap, i);
    forall b: nat ensures Used(sb, SetBitAt(bitmap, i), b) <==> b == nb || Used(sb, bitmap, b) {
      if InData(sb, b) && b - sb.dataStart < 8 * |bitmap| {
        assert BitAt(SetBitAt(bitmap, i), b - sb.dataStart) <==>
            b - sb.dataStart == i || BitAt(bitmap, b - sb.dataStart);
      }
    }
  }

  lemma UsedAfterClear(sb: Superblock, bitmap: seq<byte>, nb: nat)
    requires InData(sb, nb) && nb - sb.dataStart < 8 * |bitmap|
    ensures forall b :: Used(sb, ClearBitAt(bitmap, nb - sb.dataStart), b) <==> b != nb && Used(sb, bitmap, b)
  {
    var i := nb - sb.dataStart;
    ClearBitMeaning(bitmap, i);
    forall b: nat ensures Used(sb, ClearBitAt(bitmap, i), b) <==> b != nb && Used(sb, bitmap, b) {
      if InData(sb, b) && b - sb.dataStart < 8 * |bitmap| {
        assert BitAt(ClearBitAt(bitmap, i), b - sb.dataStart) <==>
            b - sb.dataStart != i && BitAt(bitmap, b - sb.dataStart);
      }
    }
  }

  /** Read-modify-write of the one bitmap block that holds byte i. */
  function FlushByte(sb: Superblock, disk: Disk, i: nat, x: byte): (disk': Disk)
    requires sb.bitmapStart + i / BLOCK_SIZE < |disk|
    ensures |disk'| == |disk|
  {
    var blk := sb.bitmapStart + i / BLOCK_SIZE;
    disk[blk := disk[blk][i % BLOCK_SIZE := x]]
  }

  lemma FlushSyncs(sb: Superblock, disk: Disk, bitmap: seq<byte>, i: nat, x: byte)
    requires Layout(sb, |disk|) && Synced(sb, disk, bitmap) && i < |bitmap|
    ensures sb.bitmapStart + i / BLOCK_SIZE < sb.bitmapStart + sb.bitmapBlocks
    ensures Synced(sb, FlushByte(sb, disk, i, x), bitmap[i := x])
    ensures SameSlots(sb, disk, FlushByte(sb, disk, i, x))
    ensures SameData(sb, disk, FlushByte(sb, disk, i, x))
  {
    var disk' := FlushByte(sb, disk, i, x);
    var bitmap' := bitmap[i := x];
    forall j | 0 <= j < |bitmap| ensures disk'[sb.bitmapStart + j / BLOCK_SIZE][j % BLOCK_SIZE] == bitmap'[j] {
      assert disk[sb.bitmapStart + j / BLOCK_SIZE][j % BLOCK_SIZE] == bitmap[j];
      if j != i && j / BLOCK_SIZE == i / BLOCK_SIZE {
        assert j % BLOCK_SIZE != i % BLOCK_SIZE;
      }
    }
  }

  lemma BitmapFrame(sb: Superblock, disk: Disk, disk': Disk, bitmap: seq<byte>)
    requires Layout(sb, |disk|) && BitmapSynced(sb, disk, bitmap) && |disk| == |disk'|
    requires forall b :: sb.bitmapStart <= b < sb.bitmapStart + sb.bitmapBlocks ==> disk'[b] == disk[b]
    ensures BitmapSynced(sb, disk', bitmap)
  {
    forall i | 0 <= i < |bitmap| ensures disk'[sb.bitmapStart + i / BLOCK_SIZE][i % BLOCK_SIZE] == bitmap[i] {
      var b := sb.bitmapStart + i / BLOCK_SIZE;
      assert disk'[b] == disk[b];
    }
  }

  lemma SyncedFrame(sb: Superblock, disk: Disk, disk': Disk, bitmap: seq<byte>)
    requires Layout(sb, |disk|) && Synced(sb, disk, bitmap) && |disk| == |disk'| && disk'[0] == disk[0]
    requires forall b :: sb.bitmapStart <= b < sb.bitmapStart + sb.bitmapBlocks ==> disk'[b] == disk[b]
    ensures Synced(sb, disk', bitmap)
  {
    hide BitmapSynced;
    BitmapFrame(sb, disk, disk', bitmap);
  }

  /** The volume with one inode record replaced. */
  function WithInode(v: Volume, ino: nat, raw: RawInode): (v': Volume)
    requires ino < |v.table|
  {
    v.(table := v.table[ino := raw])
  }

  // ---------------------------------------------------------------------
  // Attaching a freshly allocated, zeroed block

  function Attached(v: Volume, ino: nat, k: nat, nb: u64, disk': Disk): (v': Volume)
    requires ino < |v.table| && k < DIRECT_BLOCKS && InData(v.sb, nb) && nb - v.sb.dataStart < 8 * |v.bitmap|
  {
    WithInode(v.(disk := disk', bitmap := SetBitAt(v.bitmap, nb - v.sb.dataStart)), ino,
              v.table[ino].(direct := v.table[ino].direct[k := nb]))
  }

  ghost predicate AttachPre(v: Volume, ino: nat, k: nat, nb: u64) {
    && Owned(v)
    && ino < |v.table| && k < DIRECT_BLOCKS
    && v.table[ino].direct[k] == 0 && v.table[ino].kind != KIND_UNUSED
    && InData(v.sb, nb) && nb - v.sb.dataStart < 8 * |v.bitmap| && !Used(v.sb, v.bitmap, nb)
  }

  lemma AttachNames(v: Volume, ino: nat, k: nat, nb: u64, disk': Disk)
    requires AttachPre(v, ino, k, nb)
    ensures forall i, j, b ::
              Names(Attached(v, ino, k, nb, disk').table, i, j, b) <==>
                Names(v.table, i, j, b) || (i == ino && j == k && b == nb)
  {
  }

  lemma AttachOwnership(v: Volume, ino: nat, k: nat, nb: u64, disk': Disk)
    requires AttachPre(v, ino, k, nb)
    ensures var v' := Attached(v, ino, k, nb, disk'); Ownership(v.sb, v'.bitmap, v'.table)
  {
    var v' := Attached(v, ino, k, nb, disk');
    UsedAfterSet(v.sb, v.bitmap, nb);
    AttachNames(v, ino, k, nb, disk');
    forall b | Used(v.sb, v'.bitmap, b) ensures Named(v'.table, b) {
      if b == nb {
        assert Names(v'.table, ino, k, nb);
      } else {
        assert Named(v.table, b);
        var i, j :| Names(v.table, i, j, b);
        assert Names(v'.table, i, j, b);
      }
    }
  }

  /** Allocation changes no byte of any file: a missing block already reads as zeros. */
  lemma AttachImages(v: Volume, ino: nat, k: nat, nb: u64, disk': Disk)
    requires AttachPre(v, ino, k, nb)
    requires |disk'| == |v.disk|
    requires forall b :: v.sb.dataStart <= b < |v.disk| && b != nb ==> disk'[b] == v.disk[b]
    requires disk'[nb] == Zeros(BLOCK_SIZE)
    ensures forall j :: 0 <= j < |v.table| ==>
              Image(disk', Attached(v, ino, k, nb, disk').table[j]) == Image(v.disk, v.table[j])
  {
    var v' := Attached(v, ino, k, nb, disk');
    forall j | 0 <= j < |v.table| ensures Image(disk', v'.table[j]) == Image(v.disk, v.table[j]) {
      forall i | 0 <= i < MAX_FILE ensures ByteAt(disk', v'.table[j], i) == ByteAt(v.disk, v.table[j], i) {
        var q := i / BLOCK_SIZE;
        if v.table[j].direct[q] != 0 {
          DataInRange(v, j, q);
        }
      }
    }
  }

  lemma AttachOwned(v: Volume, ino: nat, k: nat, nb: u64, disk': Disk)
    requires AttachPre(v, ino, k, nb)
    requires |disk'| == |v.disk| && SameSlots(v.sb, v.disk, disk')
    requires forall b :: v.sb.dataStart <= b < |v.disk| && b != nb ==> disk'[b] == v.disk[b]
    requires disk'[nb] == Zeros(BLOCK_SIZE)
    ensures Owned(Attached(v, ino, k, nb, disk'))
    ensures OthersKept(v, Attached(v, ino, k, nb, disk'), ino)
    ensures Image(disk', Attached(v, ino, k, nb, disk').table[ino]) == Image(v.disk, v.table[ino])
  {
    var v' := Attached(v, ino, k, nb, disk');
    AttachOwnership(v, ino, k, nb, disk');
    AttachImages(v, ino, k, nb, disk');
    assert Covered(v.table[ino]);
    assert Covered(v'.table[ino]);
    forall j | 0 <= j < |v.table| && j != ino
      ensures v'.table[j] == v.table[j] && Image(disk', v.table[j]) == Image(v.disk, v.table[j])
    {
      assert Image(disk', v'.table[j]) == Image(v.disk, v.table[j]);
    }
  }

  // ---------------------------------------------------------------------
  // Writing inside an owned block

  /** `img` with the bytes from `off` on replaced by `s`. */
  function Splice(img: seq<byte>, off: nat, s: seq<byte>): (r: seq<byte>)
    requires off + |s| <= |img|
    ensures |r| == |img|
  {
    img[..off] + s + img[off + |s|..]
  }

  lemma SpliceAt(img: seq<byte>, off: nat, s: seq<byte>, i: nat)
    requires off + |s| <= |img| && i < |img|
    ensures Splice(img, off, s)[i] == if off <= i < off + |s| then s[i - off] else img[i]
  {
  }

  lemma SpliceNone(img: seq<byte>, off: nat)
    requires off <= |img|
    ensures Splice(img, off, []) == img
  {
  }

  lemma SpliceTwice(img: seq<byte>, off: nat, s: seq<byte>, t: seq<byte>)
    requires off + |s| + |t| <= |img|
    ensures Splice(Splice(img, off, s), off + |s|, t) == Splice(img, off, s + t)
  {
  }

  ghost predicate ChunkPre(v: Volume, ino: nat, k: nat, p: nat, s: seq<byte>) {
    && Owned(v) && ino < |v.table| && k < DIRECT_BLOCKS
    && v.table[ino].direct[k] != 0
    && p + |s| <= BLOCK_SIZE
  }

  function ChunkDisk(disk: Disk, b: nat, p: nat, s: seq<byte>): (disk': Disk)
    requires b < |disk| && p + |s| <= BLOCK_SIZE
    ensures |disk'| == |disk|
  {
    disk[b := Splice(disk[b], p, s)]
  }

  lemma ChunkImage(v: Volume, ino: nat, k: nat, p: nat, s: seq<byte>)
    requires ChunkPre(v, ino, k, p, s)
    requires v.table[ino].direct[k] < |v.disk|
    ensures Image(ChunkDisk(v.disk, v.table[ino].direct[k], p, s), v.table[ino])
         == Splice(Image(v.disk, v.table[ino]), k * BLOCK_SIZE + p, s)
  {
    var raw := v.table[ino];
    var b := raw.direct[k];
    var disk' := ChunkDisk(v.disk, b, p, s);
    var img, at := Image(v.disk, raw), k * BLOCK_SIZE + p;
    forall i | 0 <= i < MAX_FILE ensures ByteAt(disk', raw, i) == Splice(img, at, s)[i] {
      SpliceAt(img, at, s, i);
      var q := i / BLOCK_SIZE;
      if q == k {
        SpliceAt(v.disk[b], p, s, i % BLOCK_SIZE);
      } else if raw.direct[q] != 0 {
        DataInRange(v, ino, q);
        assert Names(v.table, ino, q, raw.direct[q]);
        assert Names(v.table, ino, k, b);
      }
    }
  }

  lemma ChunkOwned(v: Volume, ino: nat, k: nat, p: nat, s: seq<byte>)
    requires ChunkPre(v, ino, k, p, s)
    ensures v.sb.dataStart <= v.table[ino].direct[k] < |v.disk|
    ensures var v' := v.(disk := ChunkDisk(v.disk, v.table[ino].direct[k], p, s)); Owned(v') && OthersKept(v, v', ino)
  {
    var b := v.table[ino].direct[k];
    DataInRange(v, ino, k);
    var disk' := ChunkDisk(v.disk, b, p, s);
    forall j | 0 <= j < |v.table| && j != ino ensures Image(disk', v.table[j]) == Image(v.disk, v.table[j]) {
      forall q | 0 <= q < DIRECT_BLOCKS && 0 < v.table[j].direct[q] < |v.disk|
        ensures v.disk[v.table[j].direct[q]] == disk'[v.table[j].direct[q]]
      {
        assert Names(v.table, j, q, v.table[j].direct[q]);
        assert Names(v.table, ino, k, b);
      }
      ImageFrame(v.disk, disk', v.table[j]);
    }
  }

  lemma ChunkSound(v: Volume, ino: nat, k: nat, p: nat, s: seq<byte>)
    requires Sound(v) && ChunkPre(v, ino, k, p, s)
    ensures v.table[ino].direct[k] < |v.disk|
    ensures var v' := v.(disk := ChunkDisk(v.disk, v.table[ino].direct[k], p, s)); Sound(v') && OthersKept(v, v', ino)
  {
    ChunkOwned(v, ino, k, p, s);
    SyncedFrame(v.sb, v.disk, ChunkDisk(v.disk, v.table[ino].direct[k], p, s), v.bitmap);
  }

  // ---------------------------------------------------------------------
  // Changing the size, releasing a block, replacing an unused record

  /** Changing anything in a record but its block pointers. */
  lemma PutRecordOwned(v: Volume, ino: nat, raw: RawInode)
    requires Owned(v) && ino < |v.table| && raw.direct == v.table[ino].direct && Covered(raw)
    ensures var v' := WithInode(v, ino, raw); Owned(v') && OthersKept(v, v', ino)
  {
    var v' := WithInode(v, ino, raw);
    assert forall i, j, b :: Names(v'.table, i, j, b) <==> Names(v.table, i, j, b);
    forall b | Used(v.sb, v.bitmap, b) ensures Named(v'.table, b) {
      assert Named(v.table, b);
      var i, j :| Names(v.table, i, j, b);
      assert Names(v'.table, i, j, b);
    }
  }

  lemma ResizeSound(v: Volume, ino: nat, size: u64)
    requires Sound(v) && ino < |v.table| && size <= MAX_FILE
    requires forall k :: 0 <= k < DIRECT_BLOCKS && k * BLOCK_SIZE < size ==> v.table[ino].direct[k] != 0
    ensures var v' := WithInode(v, ino, v.table[ino].(size := size)); Sound(v') && OthersKept(v, v', ino)
  {
    assert Covered(v.table[ino]);
    PutRecordOwned(v, ino, v.table[ino].(size := size));
  }

  function Released(v: Volume, ino: nat, k: nat, disk': Disk): (v': Volume)
    requires ino < |v.table| && k < DIRECT_BLOCKS
    requires Used(v.sb, v.bitmap, v.table[ino].direct[k])
  {
    WithInode(v.(disk := disk', bitmap := ClearBitAt(v.bitmap, v.table[ino].direct[k] - v.sb.dataStart)), ino,
              v.table[ino].(direct := v.table[ino].direct[k := 0]))
  }

  lemma ReleaseOwnership(v: Volume, ino: nat, k: nat, disk': Disk)
    requires Sound(v) && ino < |v.table| && k < DIRECT_BLOCKS && v.table[ino].direct[k] != 0
    requires Used(v.sb, v.bitmap, v.table[ino].direct[k])
    ensures var v' := Released(v, ino, k, disk'); Ownership(v.sb, v'.bitmap, v'.table)
  {
    var v' := Released(v, ino, k, disk');
    var nb := v.table[ino].direct[k];
    UsedAfterClear(v.sb, v.bitmap, nb);
    assert Names(v.table, ino, k, nb);
    assert forall i, j, b :: Names(v'.table, i, j, b) <==> Names(v.table, i, j, b) && !(i == ino && j == k);
    forall b | Used(v.sb, v'.bitmap, b) ensures Named(v'.table, b) {
      assert Named(v.table, b);
      var i, j :| Names(v.table, i, j, b);
      assert Names(v'.table, i, j, b);
    }
  }

  lemma KeptBySameData(v: Volume, disk': Disk, j: nat)
    requires Owned(v) && j < |v.table| && SameData(v.sb, v.disk, disk')
    ensures Image(disk', v.table[j]) == Image(v.disk, v.table[j])
  {
    forall q | 0 <= q < DIRECT_BLOCKS && 0 < v.table[j].direct[q] < |v.disk|
      ensures v.disk[v.table[j].direct[q]] == disk'[v.table[j].direct[q]]
    {
      DataInRange(v, j, q);
    }
    ImageFrame(v.disk, disk', v.table[j]);
  }

  lemma ReleaseSound(v: Volume, ino: nat, k: nat, disk': Disk)
    requires Sound(v) && ino < |v.table| && k < DIRECT_BLOCKS && v.table[ino].direct[k] != 0
    requires k * BLOCK_SIZE >= v.table[ino].size
    requires Used(v.sb, v.bitmap, v.table[ino].direct[k])
    requires SameSlots(v.sb, v.disk, disk') && SameData(v.sb, v.disk, disk')
    requires Synced(v.sb, disk', ClearBitAt(v.bitmap, v.table[ino].direct[k] - v.sb.dataStart))
    ensures Sound(Released(v, ino, k, disk')) && OthersKept(v, Released(v, ino, k, disk'), ino)
  {
    ReleaseOwnership(v, ino, k, disk');
    assert Covered(v.table[ino]);
    forall j | 0 <= j < |v.table| && j != ino ensures Image(disk', v.table[j]) == Image(v.disk, v.table[j]) {
      KeptBySameData(v, disk', j);
    }
  }
}
