/** PondFS on-disk records and their byte layouts (kernel/src/fs/pondfs/layout.rs). */
module PondLayout {
  import opened Prelude

  const BLOCK_SIZE: nat := 4096
  const INODE_SIZE: nat := 128
  const INODES_PER_BLOCK: nat := 32
  const DIRECT_BLOCKS: nat := 12
  const MAX_FILE: nat := 49152 // DIRECT_BLOCKS * BLOCK_SIZE
  const KIND_UNUSED: u16 := 0
  const KIND_FILE: u16 := 1
  const KIND_DIR: u16 := 2
  const ROOT_INO: nat := 1
  const POND_MAGIC: seq<byte> := [0x50, 0x4F, 0x4E, 0x44] // "POND"
  const POND_VERSION: u32 := 1

  type Block = b: seq<byte> | |b| == BLOCK_SIZE witness Zeros(BLOCK_SIZE)

  type Disk = seq<Block>

  datatype Superblock = Superblock(
    magic: seq<byte>, version: u32, totalBlocks: u64, inodeCount: u64,
    bitmapStart: u64, bitmapBlocks: u64,
    inodeTableStart: u64, inodeTableBlocks: u64, dataStart: u64)

  type Direct = d: seq<u64> | |d| == DIRECT_BLOCKS witness seq(DIRECT_BLOCKS, _ => 0)

  const NO_BLOCKS: Direct := [0, 0, 0, 0, 0, 0, 0, 0, 0, 0, 0, 0]

  datatype RawInode = RawInode(
    kind: u16, pad0: u16, linkCount: u32, size: u64, mtime: u64, pad1: u64, direct: Direct)

  const DEFAULT_INODE := RawInode(0, 0, 0, 0, 0, 0, NO_BLOCKS)

  // ---------------------------------------------------------------------
  // Inode records

  function EncodeWords(ws: seq<u64>): (s: seq<byte>)
    ensures |s| == 8 * |ws|
  {
    if ws == [] then [] else LittleEndian(ws[0], 8) + EncodeWords(ws[1..])
  }

  function EncodeInode(r: RawInode): (s: seq<byte>)
    ensures |s| == INODE_SIZE
  {
    LittleEndian(r.kind, 2) + LittleEndian(r.pad0, 2) + LittleEndian(r.linkCount, 4)
    + EncodeWords([r.size, r.mtime, r.pad1] + r.direct)
  }

  function Word(s: seq<byte>, off: nat, w: nat): (n: nat)
    requires off + w <= |s|
  {
    FromLittleEndian(s[off..off + w])
  }

  function Word16(s: seq<byte>, off: nat): (n: u16)
    requires off + 2 <= |s|
    ensures n == Word(s, off, 2)
  {
    var t := s[off..off + 2];
    assert FromLittleEndian(t[1..]) == t[1] as int by {
      assert t[1..][1..] == [];
    }
    Word(s, off, 2)
  }

  lemma Word32Bound(t: seq<byte>)
    requires |t| == 4
    ensures FromLittleEndian(t) < 0x1_0000_0000
  {
    assert FromLittleEndian(t[1..][1..]) < 0x1_0000 by {
      var v := Word16(t[1..][1..], 0);
      assert t[1..][1..][0..2] == t[1..][1..];
    }
  }

  lemma Word64Bound(t: seq<byte>)
    requires |t| == 8
    ensures FromLittleEndian(t) < 0x1_0000_0000_0000_0000
  {
    var u := t[1..][1..];
    var v := u[1..][1..];
    Word32Bound(v);
    assert FromLittleEndian(u) < 0x1_0000_0000_0000;
  }

  function Word32(s: seq<byte>, off: nat): (n: u32)
    requires off + 4 <= |s|
    ensures n == Word(s, off, 4)
  {
    Word32Bound(s[off..off + 4]);
    Word(s, off, 4)
  }

  function Word64(s: seq<byte>, off: nat): (n: u64)
    requires off + 8 <= |s|
    ensures n == Word(s, off, 8)
  {
    Word64Bound(s[off..off + 8]);
    Word(s, off, 8)
  }

  function DecodeInode(s: seq<byte>): (r: RawInode)
    requires |s| == INODE_SIZE
  {
    RawInode(Word16(s, 0), Word16(s, 2), Word32(s, 4), Word64(s, 8), Word64(s, 16), Word64(s, 24),
             seq(DIRECT_BLOCKS, i requires 0 <= i < DIRECT_BLOCKS => Word64(s, 32 + 8 * i)))
  }

  lemma {:induction false} EncodedWord(ws: seq<u64>, i: nat)
    requires i < |ws|
    ensures EncodeWords(ws)[8 * i..8 * i + 8] == LittleEndian(ws[i], 8)
  {
    var s := EncodeWords(ws);
    if i > 0 {
      EncodedWord(ws[1..], i - 1);
      var t := EncodeWords(ws[1..]);
      assert s[8 * i..8 * i + 8] == t[8 * (i - 1)..8 * (i - 1) + 8];
    }
  }

  lemma WordRoundTrip(t: seq<byte>, n: u64)
    requires t == LittleEndian(n, 8)
    ensures FromLittleEndian(t) == n
  {
    FitsU64(n);
    LittleEndianRoundTrip(n, 8);
  }

  lemma {:induction false} WordAfter(s: seq<byte>, pre: seq<byte>, e: seq<byte>, off: nat, n: u64)
    requires s == pre + e
    requires off + 8 <= |e|
    requires e[off..off + 8] == LittleEndian(n, 8)
    ensures Word64(s, |pre| + off) == n
  {
    assert s[|pre| + off..|pre| + off + 8] == e[off..off + 8];
    WordRoundTrip(e[off..off + 8], n);
  }

  /** Word i of an encoded word list, read back from the middle of a record. */
  lemma {:induction false} DecodedWord(s: seq<byte>, pre: seq<byte>, ws: seq<u64>, i: nat)
    requires s == pre + EncodeWords(ws)
    requires i < |ws|
    ensures Word64(s, |pre| + 8 * i) == ws[i]
  {
    EncodedWord(ws, i);
    WordAfter(s, pre, EncodeWords(ws), 8 * i, ws[i]);
  }

  lemma InodeHeaderRoundTrip(r: RawInode)
    ensures Word16(EncodeInode(r), 0) == r.kind
    ensures Word16(EncodeInode(r), 2) == r.pad0
    ensures Word32(EncodeInode(r), 4) == r.linkCount
  {
    var s := EncodeInode(r);
    FitsU16(r.kind);
    FitsU16(r.pad0);
    FitsU32(r.linkCount);
    LittleEndianRoundTrip(r.kind, 2);
    LittleEndianRoundTrip(r.pad0, 2);
    LittleEndianRoundTrip(r.linkCount, 4);
    assert s[0..2] == LittleEndian(r.kind, 2);
    assert s[2..4] == LittleEndian(r.pad0, 2);
    assert s[4..8] == LittleEndian(r.linkCount, 4);
  }

  /** Reading back a written inode record gives the same inode. */
  lemma InodeRoundTrip(r: RawInode)
    ensures DecodeInode(EncodeInode(r)) == r
  {
    var s := EncodeInode(r);
    var pre := LittleEndian(r.kind, 2) + LittleEndian(r.pad0, 2) + LittleEndian(r.linkCount, 4);
    var ws := [r.size, r.mtime, r.pad1] + r.direct;
    assert s == pre + EncodeWords(ws);
    InodeHeaderRoundTrip(r);
    DecodedWord(s, pre, ws, 0);
    DecodedWord(s, pre, ws, 1);
    DecodedWord(s, pre, ws, 2);
    var d := DecodeInode(s);
    forall i | 0 <= i < DIRECT_BLOCKS ensures d.direct[i] == r.direct[i] {
      DecodedWord(s, pre, ws, i + 3);
      assert |pre| + 8 * (i + 3) == 32 + 8 * i;
    }
    assert d.direct == r.direct;
  }

  lemma {:induction false} ZeroWord(w: nat)
    ensures forall i :: 0 <= i < w ==> LittleEndian(0, w)[i] == 0
  {
    if w > 0 {
      ZeroWord(w - 1);
    }
  }

  lemma {:induction false} ZeroWords(ws: seq<u64>)
    requires forall i :: 0 <= i < |ws| ==> ws[i] == 0
    ensures forall i :: 0 <= i < 8 * |ws| ==> EncodeWords(ws)[i] == 0
  {
    if ws != [] {
      ZeroWords(ws[1..]);
      ZeroWord(8);
    }
  }

  /** An all-zero record is an unused inode without blocks. */
  lemma ZeroInode()
    ensures DecodeInode(Zeros(INODE_SIZE)) == DEFAULT_INODE
  {
    hide DecodeInode, LittleEndian, EncodeWords;
    InodeRoundTrip(DEFAULT_INODE);
    var s, ws := EncodeInode(DEFAULT_INODE), [0, 0, 0] + NO_BLOCKS;
    ZeroWord(2);
    ZeroWord(4);
    ZeroWords(ws);
    assert s == LittleEndian(0, 2) + LittleEndian(0, 2) + LittleEndian(0, 4) + EncodeWords(ws);
    hide EncodeInode;
    assert s == Zeros(INODE_SIZE);
  }

  // ---------------------------------------------------------------------
  // Superblock

  function SuperWords(sb: Superblock): (ws: seq<u64>)
    ensures |ws| == 7
  {
    [sb.totalBlocks, sb.inodeCount, sb.bitmapStart, sb.bitmapBlocks,
     sb.inodeTableStart, sb.inodeTableBlocks, sb.dataStart]
  }

  function EncodeSuperblock(sb: Superblock): (s: seq<byte>)
    requires |sb.magic| == 4
    ensures |s| == BLOCK_SIZE
  {
    sb.magic + LittleEndian(sb.version, 4) + EncodeWords(SuperWords(sb)) + Zeros(BLOCK_SIZE - 64)
  }

  function DecodeSuperblock(s: Block): (sb: Superblock)
    ensures |sb.magic| == 4
  {
    Superblock(s[0..4], Word32(s, 4), Word64(s, 8), Word64(s, 16), Word64(s, 24), Word64(s, 32),
               Word64(s, 40), Word64(s, 48), Word64(s, 56))
  }

  lemma SuperWord(sb: Superblock, i: nat)
    requires |sb.magic| == 4 && i < 7
    ensures Word64(EncodeSuperblock(sb), 8 + 8 * i) == SuperWords(sb)[i]
  {
    var s := EncodeSuperblock(sb);
    var pre := sb.magic + LittleEndian(sb.version, 4);
    var t := pre + EncodeWords(SuperWords(sb));
    DecodedWord(t, pre, SuperWords(sb), i);
    assert s[8 + 8 * i..8 + 8 * i + 8] == t[8 + 8 * i..8 + 8 * i + 8];
  }

  /** Reading back a written superblock gives the same superblock. */
  lemma SuperblockRoundTrip(sb: Superblock)
    requires |sb.magic| == 4
    ensures DecodeSuperblock(EncodeSuperblock(sb)) == sb
  {
    var s := EncodeSuperblock(sb);
    FitsU32(sb.version);
    LittleEndianRoundTrip(sb.version, 4);
    assert s[0..4] == sb.magic;
    assert s[4..8] == LittleEndian(sb.version, 4);
    SuperWord(sb, 0);
    SuperWord(sb, 1);
    SuperWord(sb, 2);
    SuperWord(sb, 3);
    SuperWord(sb, 4);
    SuperWord(sb, 5);
    SuperWord(sb, 6);
  }

  // ---------------------------------------------------------------------
  // The byte layout, field by field

  function Le16(s: seq<byte>, off: nat): (n: nat)
    requires off + 2 <= |s|
  {
    s[off] as int + 0x100 * s[off + 1] as int
  }

  function Le32(s: seq<byte>, off: nat): (n: nat)
    requires off + 4 <= |s|
  {
    Le16(s, off) + 0x1_0000 * Le16(s, off + 2)
  }

  function Le64(s: seq<byte>, off: nat): (n: nat)
    requires off + 8 <= |s|
  {
    Le32(s, off) + 0x1_0000_0000 * Le32(s, off + 4)
  }

  lemma TwoMore(t: seq<byte>)
    requires |t| >= 2
    ensures FromLittleEndian(t) == Le16(t, 0) + 0x1_0000 * FromLittleEndian(t[2..])
  {
    assert t[1..][1..] == t[2..];
  }

  lemma Word16Bytes(s: seq<byte>, off: nat)
    requires off + 2 <= |s|
    ensures Word16(s, off) == Le16(s, off)
  {
    TwoMore(s[off..off + 2]);
  }

  lemma Word32Bytes(s: seq<byte>, off: nat)
    requires off + 4 <= |s|
    ensures Word32(s, off) == Le32(s, off)
  {
    var t := s[off..off + 4];
    TwoMore(t);
    assert t[2..] == s[off + 2..off + 4];
    Word16Bytes(s, off + 2);
  }

  lemma Word64Bytes(s: seq<byte>, off: nat)
    requires off + 8 <= |s|
    ensures Word64(s, off) == Le64(s, off)
  {
    hide Word32;
    var t := s[off..off + 8];
    TwoMore(t);
    TwoMore(t[2..]);
    assert t[2..][2..] == s[off + 4..off + 8];
    Word32Bytes(s, off + 4);
  }

  /** An inode record: every field at its offset, little endian, the twelve block numbers last. */
  lemma InodeLayout(s: seq<byte>)
    requires |s| == 128
    ensures var r := DecodeInode(s);
            && r.kind == Le16(s, 0) && r.pad0 == Le16(s, 2) && r.linkCount == Le32(s, 4)
            && r.size == Le64(s, 8) && r.mtime == Le64(s, 16) && r.pad1 == Le64(s, 24)
            && |r.direct| == 12 && forall i :: 0 <= i < 12 ==> r.direct[i] == Le64(s, 32 + 8 * i)
  {
    Word16Bytes(s, 0);
    Word16Bytes(s, 2);
    Word32Bytes(s, 4);
    Word64Bytes(s, 8);
    Word64Bytes(s, 16);
    Word64Bytes(s, 24);
    hide Word16, Word32, Word64, Le64;
    forall i | 0 <= i < 12 ensures DecodeInode(s).direct[i] == Le64(s, 32 + 8 * i) {
      Word64Bytes(s, 32 + 8 * i);
    }
  }

  /** The superblock, field by field. */
  lemma SuperblockLayout(s: Block)
    ensures DecodeSuperblock(s) == Superblock(s[0..4], Le32(s, 4), Le64(s, 8), Le64(s, 16), Le64(s, 24),
                                              Le64(s, 32), Le64(s, 40), Le64(s, 48), Le64(s, 56))
  {
    Word32Bytes(s, 4);
    Word64Bytes(s, 8);
    Word64Bytes(s, 16);
    Word64Bytes(s, 24);
    Word64Bytes(s, 32);
    Word64Bytes(s, 40);
    Word64Bytes(s, 48);
    Word64Bytes(s, 56);
  }
}
