/** What the vocabulary of the PondFS specifications comes to in bytes and bits of the device. */
module PondMeaning {
  import opened Prelude
  import opened Bits
  import opened PondLayout
  import opened PondDir
  import opened PondVolume
  import F = PondFs
  import M = Mkpondfs

  /** A device holds a PondFS when block 0 starts with "POND" and version 1. */
  lemma SuperBytes(disk: Disk)
    ensures F.SuperOk(disk) <==> |disk| > 0 && disk[0][0..8] == [0x50, 0x4F, 0x4E, 0x44, 1, 0, 0, 0]
  {
    if |disk| > 0 {
      var s := disk[0];
      Word32Bytes(s, 4);
      assert s[0..8] == s[0..4] + s[4..8];
      assert s[0..4] == [s[0], s[1], s[2], s[3]] && s[4..8] == [s[4], s[5], s[6], s[7]];
    }
  }

  /** Inode records lie 32 to a block, 128 bytes apart. */
  lemma SlotBytes(sb: Superblock, disk: Disk, ino: nat)
    requires ino < sb.inodeCount && sb.inodeTableStart + ino / 32 < |disk|
    ensures DiskTable(sb, disk)[ino]
         == DecodeInode(disk[sb.inodeTableStart + ino / 32][128 * (ino % 32)..128 * (ino % 32) + 128])
  {
  }

  /** Byte i of a file is byte i % 4096 of its block number i / 4096. */
  lemma FileByte(disk: Disk, raw: RawInode, i: nat)
    requires i < raw.size <= 49152 && 0 < raw.direct[i / 4096] < |disk|
    ensures |Content(disk, raw)| == raw.size && Content(disk, raw)[i] == disk[raw.direct[i / 4096]][i % 4096]
  {
  }

  /** Data block number i from `dataStart` on has bit i % 8 of bitmap byte i / 8. */
  lemma BlockBit(sb: Superblock, bitmap: seq<byte>, b: nat)
    requires sb.dataStart <= b < sb.totalBlocks && (b - sb.dataStart) / 8 < |bitmap|
    ensures var i := b - sb.dataStart;
            Used(sb, bitmap, b) <==> bitmap[i / 8] / [1, 2, 4, 8, 16, 32, 64, 128][i % 8] % 2 == 1
  {
    var i := b - sb.dataStart;
    BitWeight(bitmap[i / 8], i % 8);
    hide Bit;
    assert Used(sb, bitmap, b) <==> Bit(bitmap[i / 8], i % 8);
  }

  /** The bitmap is stored from `bitmapStart` on. */
  lemma BitmapByte(sb: Superblock, disk: Disk, i: nat)
    requires sb.bitmapStart + sb.bitmapBlocks <= |disk| && i < 4096 * sb.bitmapBlocks
    ensures i < |F.DiskBitmap(sb, disk)|
    ensures F.DiskBitmap(sb, disk)[i] == disk[sb.bitmapStart + i / 4096][i % 4096]
  {
  }

  /** There is room up to `end` when every block index that starts below it has a block or can get one. */
  lemma RoomBlocks(raw: RawInode, end: nat, sb: Superblock, bitmap: seq<byte>)
    requires end <= 49152
    ensures F.Room(raw, end, sb, bitmap) <==>
              |set k: nat | k < 12 && 4096 * k < end && raw.direct[k] == 0| <=
              |set b: nat | sb.dataStart <= b < sb.totalBlocks && !Used(sb, bitmap, b)|
  {
    var n := DivCeil(end, BLOCK_SIZE);
    assert forall k: nat :: k < n <==> 4096 * k < end;
    assert (set k: nat | k < 12 && 4096 * k < end && raw.direct[k] == 0) == F.Missing(raw, n);
  }

  /** A new inode: kind 1 for a file and 2 for a directory, one link, no bytes and no blocks. */
  lemma NewRecord(kind: InodeKind)
    ensures var r := F.EmptyInode(kind);
            && r.kind == (if kind == File then 1 else 2) && r.linkCount == 1 && r.size == 0 && r.mtime == 0
            && r.direct == [0, 0, 0, 0, 0, 0, 0, 0, 0, 0, 0, 0]
  {
  }

  /** In a consistent volume a block number stands in one place only, in the data region, and its bit is set. */
  lemma OneOwner(v: Volume, i: nat, k: nat, j: nat, l: nat)
    requires Consistent(v) && i < |v.table| && k < 12 && j < |v.table| && l < 12
    requires v.table[i].direct[k] == v.table[j].direct[l] != 0
    ensures i == j && k == l && v.sb.dataStart <= v.table[i].direct[k] < v.sb.totalBlocks
    ensures Used(v.sb, v.bitmap, v.table[i].direct[k])
  {
    var b := v.table[i].direct[k];
    assert Names(v.table, i, k, b) && Names(v.table, j, l, b);
    DataInRange(v, i, k);
  }

  /** Every set bit of a consistent volume is that of a block some inode names. */
  lemma NoBlockLost(v: Volume, b: nat) returns (i: nat, k: nat)
    requires Consistent(v) && Used(v.sb, v.bitmap, b)
    ensures i < |v.table| && k < 12 && v.table[i].direct[k] == b
  {
    i, k :| Names(v.table, i, k, b);
  }

  /** Data blocks of a fresh image: all but the superblock, the bitmap and two blocks of inodes, where
      one bitmap block serves 32768 data blocks. */
  lemma FreshDataBlocks(blocks: nat)
    requires blocks >= 64
    ensures M.DataBlocks(blocks) == blocks - 3 - if blocks <= 32772 then 1 else (blocks - 4 + 32767) / 32768
  {
    var need := M.Need(blocks, 2, 1);
    assert need == (blocks - 4 + 32767) / 32768;
    if need > 1 {
      assert M.Need(blocks, 2, need) <= need;
      assert M.BitmapSize(blocks, 2, need) == need;
    }
    assert M.BitmapSize(blocks, 2, 1) == if need <= 1 then 1 else need;
  }
}
