/**
  A PondFS volume as a value: superblock, device blocks, in-memory bitmap and inode table,
  with the invariants every operation keeps. The table is the one the kernel acts on: cached
  inodes where cached, on-disk slots elsewhere.
 */
module PondVolume {
  import opened Prelude
  import opened Bits
  import opened PondLayout
  import opened PondDir

  datatype Volume = Volume(sb: Superblock, disk: Disk, bitmap: seq<byte>, table: seq<RawInode>)

  /** The regions of the device follow one another and the bitmap covers the data region. */
  ghost predicate Layout(sb: Superblock, blocks: nat) {
    && 0 < sb.bitmapStart
    && sb.bitmapStart + sb.bitmapBlocks <= sb.inodeTableStart
    && sb.inodeTableStart + sb.inodeTableBlocks <= sb.dataStart <= sb.totalBlocks <= blocks
    && sb.inodeCount == INODES_PER_BLOCK * sb.inodeTableBlocks
    && ROOT_INO < sb.inodeCount
    && sb.totalBlocks - sb.dataStart <= 8 * BLOCK_SIZE * sb.bitmapBlocks
  }

  // ---------------------------------------------------------------------
  // File bytes

  /** Byte i of an inode's 48 KiB address range; a missing block reads as zeros. */
  function ByteAt(disk: Disk, raw: RawInode, i: nat): (b: byte)
    requires i < MAX_FILE
  {
    var blk := raw.direct[i / BLOCK_SIZE];
    if blk == 0 || blk >= |disk| then 0 else disk[blk][i % BLOCK_SIZE]
  }

  function Image(disk: Disk, raw: RawInode): (s: seq<byte>)
    ensures |s| == MAX_FILE
    ensures forall i :: 0 <= i < MAX_FILE ==> s[i] == ByteAt(disk, raw, i)
  {
    seq(MAX_FILE, i requires 0 <= i < MAX_FILE => ByteAt(disk, raw, i))
  }

  /** The readable bytes of an inode. */
  function Content(disk: Disk, raw: RawInode): (s: seq<byte>)
    requires raw.size <= MAX_FILE
    ensures |s| == raw.size
  {
    Image(disk, raw)[..raw.size]
  }

  /** Bytes past the end of a file are zero, so that growing it exposes zeros only. */
  ghost predicate TailZero(disk: Disk, raw: RawInode) {
    forall i :: raw.size <= i < MAX_FILE ==> ByteAt(disk, raw, i) == 0
  }

  /** An image depends only on the blocks the inode names. */
  lemma ImageFrame(disk: Disk, disk': Disk, raw: RawInode)
    requires |disk| == |disk'|
    requires forall k :: 0 <= k < DIRECT_BLOCKS && 0 < raw.direct[k] < |disk| ==>
               disk[raw.direct[k]] == disk'[raw.direct[k]]
    ensures Image(disk, raw) == Image(disk', raw)
  {
    forall i | 0 <= i < MAX_FILE ensures ByteAt(disk, raw, i) == ByteAt(disk', raw, i) {
      assert 0 <= i / BLOCK_SIZE < DIRECT_BLOCKS;
    }
  }

  lemma ImageIgnoresSize(disk: Disk, raw: RawInode, size: u64)
    ensures Image(disk, raw.(size := size)) == Image(disk, raw)
  {
    assert forall i :: 0 <= i < MAX_FILE ==> ByteAt(disk, raw.(size := size), i) == ByteAt(disk, raw, i);
  }

  // ---------------------------------------------------------------------
  // Block ownership

  /** Slot k of inode `ino` names block b. */
  ghost predicate Names(table: seq<RawInode>, ino: nat, k: nat, b: nat) {
    ino < |table| && k < DIRECT_BLOCKS && b != 0 && table[ino].direct[k] == b
  }

  ghost predicate Named(table: seq<RawInode>, b: nat) {
    exists ino, k :: Names(table, ino, k, b)
  }

  predicate InData(sb: Superblock, b: nat) {
    sb.dataStart <= b < sb.totalBlocks
  }

  /** The bitmap marks data block b as allocated. */
  predicate Used(sb: Superblock, bitmap: seq<byte>, b: nat) {
    InData(sb, b) && b - sb.dataStart < 8 * |bitmap| && BitAt(bitmap, b - sb.dataStart)
  }

  /** Every data block is named by exactly one slot if its bit is set and by none otherwise. */
  ghost predicate Ownership(sb: Superblock, bitmap: seq<byte>, table: seq<RawInode>) {
    && (forall ino, k, b :: Names(table, ino, k, b) ==> Used(sb, bitmap, b))
    && (forall ino, k, ino', k', b :: Names(table, ino, k, b) && Names(table, ino', k', b) ==> ino == ino' && k == k')
    && (forall b :: Used(sb, bitmap, b) ==> Named(table, b))
  }

  /** Every block index below the size is allocated. */
  ghost predicate Covered(raw: RawInode) {
    && raw.size <= MAX_FILE
    && (forall k :: 0 <= k < DIRECT_BLOCKS && k * BLOCK_SIZE < raw.size ==> raw.direct[k] != 0)
    && (raw.kind == KIND_UNUSED ==> forall k :: 0 <= k < DIRECT_BLOCKS ==> raw.direct[k] == 0)
  }

  ghost predicate AllCovered(table: seq<RawInode>) {
    forall ino :: 0 <= ino < |table| ==> Covered(table[ino])
  }

  ghost predicate FilesZero(disk: Disk, table: seq<RawInode>) {
    forall ino :: 0 <= ino < |table| && table[ino].kind == KIND_FILE ==> TailZero(disk, table[ino])
  }

  /** The bitmap in memory is the bitmap on disk. */
  ghost predicate BitmapSynced(sb: Superblock, disk: Disk, bitmap: seq<byte>) {
    && |bitmap| == sb.bitmapBlocks * BLOCK_SIZE
    && sb.bitmapStart + sb.bitmapBlocks <= |disk|
    && forall i :: 0 <= i < |bitmap| ==> disk[sb.bitmapStart + i / BLOCK_SIZE][i % BLOCK_SIZE] == bitmap[i]
  }

  /** The superblock in memory, too, is the one on disk. */
  ghost predicate Synced(sb: Superblock, disk: Disk, bitmap: seq<byte>) {
    && |disk| > 0 && DecodeSuperblock(disk[0]) == sb && sb.magic == POND_MAGIC && sb.version == POND_VERSION
    && BitmapSynced(sb, disk, bitmap)
  }

  // ---------------------------------------------------------------------
  // Directories

  ghost predicate LinksOk(table: seq<RawInode>, es: seq<DirEntry>) {
    && (forall j :: 0 <= j < |es| ==>
           0 < es[j].ino < |table| && table[es[j].ino].kind == KindCode(es[j].kind) && Storable(es[j]))
    && (forall i, j :: 0 <= i < j < |es| ==> es[i].name != es[j].name)
  }

  /** A directory decodes, its names are distinct and its entries name inodes of the stated kind. */
  ghost predicate DirOk(disk: Disk, table: seq<RawInode>, raw: RawInode)
    requires raw.size <= MAX_FILE
  {
    && Decode(Content(disk, raw)).Ok?
    && LinksOk(table, Decode(Content(disk, raw)).value)
  }

  ghost predicate DirsOk(disk: Disk, table: seq<RawInode>)
    requires AllCovered(table)
  {
    forall ino :: 0 <= ino < |table| && table[ino].kind == KIND_DIR ==> DirOk(disk, table, table[ino])
  }

  // ---------------------------------------------------------------------
  // The invariant

  /** Layout and block ownership. */
  ghost predicate Owned(v: Volume) {
    && Layout(v.sb, |v.disk|)
    && |v.table| == v.sb.inodeCount
    && |v.bitmap| == v.sb.bitmapBlocks * BLOCK_SIZE
    && Ownership(v.sb, v.bitmap, v.table)
    && AllCovered(v.table)
  }

  /** Everything but the contents of files and directories. */
  ghost predicate Sound(v: Volume) {
    Owned(v) && Synced(v.sb, v.disk, v.bitmap)
  }

  lemma SoundParts(v: Volume)
    requires Sound(v)
    ensures Owned(v) && Layout(v.sb, |v.disk|) && |v.table| == v.sb.inodeCount
    ensures Synced(v.sb, v.disk, v.bitmap)
    ensures forall ino :: 0 <= ino < |v.table| ==> Covered(v.table[ino])
  {
  }

  ghost predicate Consistent(v: Volume) {
    && Sound(v)
    && FilesZero(v.disk, v.table)
    && DirsOk(v.disk, v.table)
  }

  lemma DataInRange(v: Volume, ino: nat, k: nat)
    requires Owned(v) && ino < |v.table| && k < DIRECT_BLOCKS && v.table[ino].direct[k] != 0
    ensures Used(v.sb, v.bitmap, v.table[ino].direct[k])
    ensures v.table[ino].direct[k] < |v.disk|
  {
    assert Names(v.table, ino, k, v.table[ino].direct[k]);
  }

  // ---------------------------------------------------------------------
  // Inode slots on disk

  function SlotBlock(sb: Superblock, ino: nat): (b: nat) {
    sb.inodeTableStart + ino / INODES_PER_BLOCK
  }

  function SlotOffset(ino: nat): (o: nat)
    ensures o + INODE_SIZE <= BLOCK_SIZE
  {
    ino % INODES_PER_BLOCK * INODE_SIZE
  }

  lemma SlotInRange(sb: Superblock, blocks: nat, ino: nat)
    requires Layout(sb, blocks) && ino < sb.inodeCount
    ensures sb.inodeTableStart <= SlotBlock(sb, ino) < sb.inodeTableStart + sb.inodeTableBlocks
    ensures SlotBlock(sb, ino) < blocks
  {
  }

  /** `write_inode`: patch one record into its inode-table block. */
  function PutSlot(blk: Block, ino: nat, raw: RawInode): (r: Block) {
    var o := SlotOffset(ino);
    blk[..o] + EncodeInode(raw) + blk[o + INODE_SIZE..]
  }

  function SlotInBlock(blk: Block, ino: nat): (r: RawInode) {
    DecodeInode(blk[SlotOffset(ino)..SlotOffset(ino) + INODE_SIZE])
  }

  function Slot(sb: Superblock, disk: Disk, ino: nat): (r: RawInode) {
    if SlotBlock(sb, ino) < |disk| then SlotInBlock(disk[SlotBlock(sb, ino)], ino) else DEFAULT_INODE
  }

  /** The inode table as stored on the device. */
  function DiskTable(sb: Superblock, disk: Disk): (t: seq<RawInode>)
    ensures |t| == sb.inodeCount
  {
    seq(sb.inodeCount, i requires 0 <= i => Slot(sb, disk, i))
  }

  lemma PutSlotSame(blk: Block, ino: nat, raw: RawInode)
    ensures SlotInBlock(PutSlot(blk, ino, raw), ino) == raw
  {
    var o := SlotOffset(ino);
    assert PutSlot(blk, ino, raw)[o..o + INODE_SIZE] == EncodeInode(raw);
    InodeRoundTrip(raw);
  }

  lemma PutSlotOther(blk: Block, ino: nat, raw: RawInode, ino': nat)
    requires ino / INODES_PER_BLOCK == ino' / INODES_PER_BLOCK && ino != ino'
    ensures SlotInBlock(PutSlot(blk, ino, raw), ino') == SlotInBlock(blk, ino')
  {
    var o, o' := SlotOffset(ino), SlotOffset(ino');
    assert o' + INODE_SIZE <= o || o + INODE_SIZE <= o';
    assert PutSlot(blk, ino, raw)[o'..o' + INODE_SIZE] == blk[o'..o' + INODE_SIZE];
  }

  /** Writing one inode record changes that slot and no other. */
  lemma WriteSlot(sb: Superblock, disk: Disk, ino: nat, raw: RawInode)
    requires Layout(sb, |disk|) && ino < sb.inodeCount
    ensures SlotBlock(sb, ino) < |disk|
    ensures DiskTable(sb, disk[SlotBlock(sb, ino) := PutSlot(disk[SlotBlock(sb, ino)], ino, raw)])
         == DiskTable(sb, disk)[ino := raw]
  {
    SlotInRange(sb, |disk|, ino);
    var disk' := disk[SlotBlock(sb, ino) := PutSlot(disk[SlotBlock(sb, ino)], ino, raw)];
    forall j: nat | j < sb.inodeCount
      ensures Slot(sb, disk', j) == if j == ino then raw else Slot(sb, disk, j)
    {
      SlotInRange(sb, |disk|, j);
      if j == ino {
        PutSlotSame(disk[SlotBlock(sb, ino)], ino, raw);
      } else if SlotBlock(sb, j) == SlotBlock(sb, ino) {
        PutSlotOther(disk[SlotBlock(sb, ino)], ino, raw, j);
      }
    }
  }
}
