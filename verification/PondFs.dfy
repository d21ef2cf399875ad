/** The mounted filesystem: block allocator, inode cache, file and directory operations
    (kernel/src/fs/pondfs/mod.rs). The device does not fail. */
module PondFs {
  import opened Prelude
  import opened Bits
  import opened PondLayout
  import opened PondDir
  import opened PondVolume
  import opened PondSteps
  import RamFile
  import Utf8

  /** The inode table as the kernel sees it: cached records shadow the on-disk slots. */
  ghost function Overlay(slots: seq<RawInode>, raws: map<nat, RawInode>): (t: seq<RawInode>)
    ensures |t| == |slots|
  {
    seq(|slots|, i requires 0 <= i < |slots| => if i in raws then raws[i] else slots[i])
  }

  /** Slot i is in use, with the given kind. */
  ghost predicate InUse(slots: seq<RawInode>, i: nat, kind: u16) {
    i < |slots| && slots[i].kind == kind && kind != KIND_UNUSED
  }

  /** Free data blocks of a volume. */
  ghost function FreeBlocks(sb: Superblock, bitmap: seq<byte>): (s: set<nat>) {
    set b: nat | sb.dataStart <= b < sb.totalBlocks && !Used(sb, bitmap, b)
  }

  lemma FreeInData(sb: Superblock, bitmap: seq<byte>, b: nat)
    requires b in FreeBlocks(sb, bitmap)
    ensures InData(sb, b) && !Used(sb, bitmap, b)
  {
  }

  /** Indexes below n that have no block yet. */
  ghost function Missing(raw: RawInode, n: nat): (s: set<nat>)
    requires n <= DIRECT_BLOCKS
  {
    set k: nat | k < n && raw.direct[k] == 0
  }

  lemma OverlayLoad(slots: seq<RawInode>, raws: map<nat, RawInode>, ino: nat)
    requires ino < |slots| && ino !in raws
    ensures Overlay(slots, raws[ino := slots[ino]]) == Overlay(slots, raws)
  {
  }

  /** Writing back a cached record leaves the kernel's table as it was. */
  lemma OverlayStore(slots: seq<RawInode>, raws: map<nat, RawInode>, ino: nat)
    requires ino < |slots| && ino in raws
    ensures Overlay(slots[ino := raws[ino]], raws) == Overlay(slots, raws)
  {
  }

  /** All inodes but one keep their record and their contents. */
  ghost predicate OthersUnchanged(v: Volume, v': Volume, ino: nat) {
    && v.sb == v'.sb && |v.table| == |v'.table|
    && forall j :: 0 <= j < |v.table| && j != ino ==>
         && v'.table[j] == v.table[j] && v.table[j].size <= MAX_FILE
         && Content(v'.disk, v.table[j]) == Content(v.disk, v.table[j])
  }

  lemma UnchangedTransitive(v0: Volume, v1: Volume, v2: Volume, ino: nat)
    requires OthersUnchanged(v0, v1, ino) && OthersUnchanged(v1, v2, ino)
    ensures OthersUnchanged(v0, v2, ino)
  {
  }

  /** Inodes whose record in memory differs from the one on disk. */
  ghost function Stale(table: seq<RawInode>, slots: seq<RawInode>): (s: set<nat>) {
    set i: nat | i < |table| && i < |slots| && table[i] != slots[i]
  }

  /** Only the inode itself may have become newer in memory than on disk; if it was not before, it
      did exactly when its record changed. */
  ghost predicate Soiled(dirty: set<nat>, dirty': set<nat>, ino: nat, changed: bool) {
    && dirty' - {ino} == dirty - {ino} && (!changed ==> dirty' == dirty) && (changed && ino !in dirty ==> ino in dirty')
  }

  lemma StaleAfterWrite(v: Volume, v': Volume, ino: nat, slots: seq<RawInode>)
    requires OthersUnchanged(v, v', ino) && |slots| == |v.table| && ino < |slots|
    ensures Soiled(Stale(v.table, slots), Stale(v'.table, slots), ino, v'.table[ino] != v.table[ino])
    ensures Stale(v'.table, slots[ino := v'.table[ino]]) == Stale(v.table, slots) - {ino}
  {
  }

  lemma StaleNew(table: seq<RawInode>, slots: seq<RawInode>, ino: nat, raw: RawInode)
    requires ino < |table| == |slots| && table[ino] == slots[ino]
    ensures Stale(table[ino := raw], slots[ino := raw]) == Stale(table, slots)
  {
  }

  lemma SameDataContent(v: Volume, disk': Disk, ino: nat)
    requires Sound(v) && ino < |v.table| && SameData(v.sb, v.disk, disk')
    ensures v.table[ino].size <= MAX_FILE && Content(disk', v.table[ino]) == Content(v.disk, v.table[ino])
  {
    assert Covered(v.table[ino]);
    KeptBySameData(v, disk', ino);
  }

  lemma KeptUnchanged(v: Volume, v': Volume, ino: nat)
    requires Sound(v) && OthersKept(v, v', ino)
    ensures OthersUnchanged(v, v', ino)
  {
    assert forall j :: 0 <= j < |v.table| ==> Covered(v.table[j]);
  }

  /** `s` is what the inode holds from `off` on. */
  ghost predicate BytesFrom(disk: Disk, raw: RawInode, off: nat, s: seq<byte>) {
    forall i :: 0 <= i < |s| ==> off + i < MAX_FILE && s[i] == ByteAt(disk, raw, off + i)
  }

  lemma ContentRead(disk: Disk, raw: RawInode, off: nat, len: nat, s: seq<byte>)
    requires raw.size <= MAX_FILE
    requires |s| == Max(0, Min(raw.size, off + len) - off) && BytesFrom(disk, raw, off, s)
    ensures s == RamFile.Read(Content(disk, raw), off, len)
  {
  }

  /** A patch of a zero-tailed image is a write to the file it holds. */
  lemma FileWriteRefines(disk: Disk, raw: RawInode, disk': Disk, raw': RawInode, off: nat, buf: seq<byte>)
    requires raw.size <= MAX_FILE && TailZero(disk, raw) && off + |buf| <= MAX_FILE
    requires Image(disk', raw') == Splice(Image(disk, raw), off, buf)
    requires raw'.size == Max(raw.size, off + |buf|)
    ensures Content(disk', raw') == RamFile.Write(Content(disk, raw), off, buf)
    ensures TailZero(disk', raw')
  {
    var img, img' := Image(disk, raw), Image(disk', raw');
    var w := RamFile.Write(Content(disk, raw), off, buf);
    forall i | 0 <= i < raw'.size ensures img'[i] == w[i] {
      SpliceAt(img, off, buf, i);
      RamFile.WriteByte(Content(disk, raw), off, buf, i);
    }
    forall i | raw'.size <= i < MAX_FILE ensures ByteAt(disk', raw', i) == 0 {
      SpliceAt(img, off, buf, i);
      assert ByteAt(disk', raw', i) == img'[i];
      assert img[i] == ByteAt(disk, raw, i);
    }
  }

  lemma SameImageSameFile(disk: Disk, raw: RawInode, disk': Disk, raw': RawInode)
    requires raw.size == raw'.size <= MAX_FILE
    requires Image(disk', raw') == Image(disk, raw)
    ensures Content(disk', raw') == Content(disk, raw)
    ensures TailZero(disk, raw) ==> TailZero(disk', raw')
  {
    if TailZero(disk, raw) {
      forall i | raw.size <= i < MAX_FILE ensures ByteAt(disk', raw', i) == 0 {
        assert ByteAt(disk', raw', i) == Image(disk', raw')[i] == Image(disk, raw)[i] == ByteAt(disk, raw, i);
      }
    }
  }

  lemma SameKindsLinks(table: seq<RawInode>, table': seq<RawInode>, es: seq<DirEntry>)
    requires LinksOk(table, es) && |table| <= |table'|
    requires forall i :: 0 <= i < |table| && table[i].kind != KIND_UNUSED ==> table'[i].kind == table[i].kind
    ensures LinksOk(table', es)
  {
  }

  /** Writing one file keeps the volume consistent: no other file, and no directory, sees it. */
  lemma FileKeepsConsistent(v: Volume, v': Volume, ino: nat)
    requires Consistent(v) && Sound(v') && OthersKept(v, v', ino) && ino < |v.table|
    requires v.table[ino].kind == KIND_FILE == v'.table[ino].kind && TailZero(v'.disk, v'.table[ino])
    ensures Consistent(v')
  {
    forall j | 0 <= j < |v.table| && j != ino
      ensures v'.table[j] == v.table[j]
      ensures v.table[j].kind == KIND_FILE ==> TailZero(v'.disk, v'.table[j])
      ensures v.table[j].kind == KIND_DIR ==> DirOk(v'.disk, v'.table, v'.table[j])
    {
      assert Covered(v.table[j]);
      SameImageSameFile(v.disk, v.table[j], v'.disk, v'.table[j]);
      if v.table[j].kind == KIND_DIR {
        assert DirOk(v.disk, v.table, v.table[j]);
        SameKindsLinks(v.table, v'.table, Decode(Content(v.disk, v.table[j])).value);
      }
    }
  }

  lemma FileWriteConsistent(v: Volume, v': Volume, ino: nat, off: nat, buf: seq<byte>, done: bool)
    requires Consistent(v) && Sound(v') && OthersKept(v, v', ino) && ino < |v.table|
    requires v.table[ino].kind == KIND_FILE == v'.table[ino].kind
    requires done ==> off + |buf| <= MAX_FILE && v'.table[ino].size == Max(v.table[ino].size, off + |buf|)
                      && Image(v'.disk, v'.table[ino]) == Splice(Image(v.disk, v.table[ino]), off, buf)
    requires !done ==>
               v'.table[ino].size == v.table[ino].size && Image(v'.disk, v'.table[ino]) == Image(v.disk, v.table[ino])
    ensures Consistent(v') && OthersUnchanged(v, v', ino)
    ensures v.table[ino].size <= MAX_FILE && v'.table[ino].size <= MAX_FILE
    ensures Content(v'.disk, v'.table[ino]) == if done then RamFile.Write(Content(v.disk, v.table[ino]), off, buf)
              else Content(v.disk, v.table[ino])
  {
    var raw, raw' := v.table[ino], v'.table[ino];
    assert Covered(raw) && Covered(raw');
    if done {
      FileWriteRefines(v.disk, raw, v'.disk, raw', off, buf);
    } else {
      SameImageSameFile(v.disk, raw, v'.disk, raw');
    }
    FileKeepsConsistent(v, v', ino);
    KeptUnchanged(v, v', ino);
  }

  /** Consistency depends on the table and on the images only. */
  lemma SameImagesConsistent(v: Volume, v': Volume)
    requires Consistent(v) && Sound(v') && v'.table == v.table
    requires forall j :: 0 <= j < |v.table| ==> Image(v'.disk, v.table[j]) == Image(v.disk, v.table[j])
    ensures Consistent(v')
  {
    forall j | 0 <= j < |v.table|
      ensures v.table[j].kind == KIND_FILE ==> TailZero(v'.disk, v.table[j])
      ensures v.table[j].kind == KIND_DIR ==> DirOk(v'.disk, v.table, v.table[j])
    {
      assert Covered(v.table[j]);
      SameImageSameFile(v.disk, v.table[j], v'.disk, v.table[j]);
    }
  }

  /** Writing an inode record afterwards moves no file bytes. */
  lemma SlotWriteKeeps(v: Volume, v1: Volume, disk': Disk, ino: nat)
    requires Consistent(v1) && OthersUnchanged(v, v1, ino) && ino < |v1.table|
    requires SameData(v1.sb, v1.disk, disk') && Synced(v1.sb, disk', v1.bitmap)
    ensures var v2 := v1.(disk := disk');
            && Consistent(v2) && OthersUnchanged(v, v2, ino)
            && Content(v2.disk, v2.table[ino]) == Content(v1.disk, v1.table[ino])
  {
    var v2 := v1.(disk := disk');
    forall j | 0 <= j < |v1.table|
      ensures Covered(v1.table[j]) && Image(disk', v1.table[j]) == Image(v1.disk, v1.table[j])
    {
      KeptBySameData(v1, disk', j);
    }
    SameImagesConsistent(v1, v2);
  }

  /** Allocating block nb (device then `disk1`), zeroing it and attaching it to slot k of `ino`. */
  lemma AddBlockEffect(v: Volume, ino: nat, k: nat, nb: u64, disk1: Disk)
    requires Sound(v)
    requires ino < |v.table| && k < DIRECT_BLOCKS
    requires v.table[ino].direct[k] == 0 && v.table[ino].kind != KIND_UNUSED
    requires nb in FreeBlocks(v.sb, v.bitmap) && nb - v.sb.dataStart < 8 * |v.bitmap|
    requires SameSlots(v.sb, v.disk, disk1) && SameData(v.sb, v.disk, disk1)
    requires Synced(v.sb, disk1, SetBitAt(v.bitmap, nb - v.sb.dataStart))
    ensures 0 < nb < |disk1| && InData(v.sb, nb)
    ensures
      var disk := disk1[nb := Zeros(BLOCK_SIZE)];
      var v' := Attached(v, ino, k, nb, disk);
      && Sound(v') && OthersKept(v, v', ino) && Image(disk, v'.table[ino]) == Image(v.disk, v.table[ino])
      && SameSlots(v.sb, v.disk, disk)
  {
    hide Image, SetBitAt, Names;
    var disk := disk1[nb := Zeros(BLOCK_SIZE)];
    SyncedFrame(v.sb, disk1, disk, SetBitAt(v.bitmap, nb - v.sb.dataStart));
    AttachOwned(v, ino, k, nb, disk);
  }

  /** With block nb in slot k of the inode the volume is sound, and every file reads as before. */
  ghost predicate FitsIn(v: Volume, ino: nat, k: nat, nb: u64, disk: Disk, bitmap: seq<byte>) {
    && ino < |v.table| && k < DIRECT_BLOCKS && InData(v.sb, nb) && nb - v.sb.dataStart < 8 * |v.bitmap|
    && var v' := Attached(v, ino, k, nb, disk);
    && bitmap == v'.bitmap && Sound(v') && OthersKept(v, v', ino)
    && Image(disk, v'.table[ino]) == Image(v.disk, v.table[ino])
  }

  lemma SlotsSame(sb: Superblock, disk: Disk)
    ensures SameSlots(sb, disk, disk)
  {
  }

  lemma OneBlockLess(sb: Superblock, bitmap: seq<byte>, nb: u64)
    requires nb in FreeBlocks(sb, bitmap) && nb - sb.dataStart < 8 * |bitmap|
    ensures |FreeBlocks(sb, bitmap)| > 0
    ensures |FreeBlocks(sb, SetBitAt(bitmap, nb - sb.dataStart))| == |FreeBlocks(sb, bitmap)| - 1
  {
    UsedAfterSet(sb, bitmap, nb);
    assert FreeBlocks(sb, SetBitAt(bitmap, nb - sb.dataStart)) == FreeBlocks(sb, bitmap) - {nb as nat};
  }

  lemma OverlayAt(slots: seq<RawInode>, raws: map<nat, RawInode>, ino: nat)
    requires ino < |slots|
    ensures Overlay(slots, raws)[ino] == if ino in raws then raws[ino] else slots[ino]
  {
  }

  lemma OverlayPut(slots: seq<RawInode>, raws: map<nat, RawInode>, ino: nat, raw: RawInode)
    requires ino < |slots|
    ensures Overlay(slots, raws[ino := raw]) == Overlay(slots, raws)[ino := raw]
  {
  }

  /** Enough free blocks to cover the first `end` bytes. */
  ghost predicate Room(raw: RawInode, end: nat, sb: Superblock, bitmap: seq<byte>)
    requires end <= MAX_FILE
  {
    |Missing(raw, DivCeil(end, BLOCK_SIZE))| <= |FreeBlocks(sb, bitmap)|
  }

  /** Freeing blocks beyond those a listing needs does not change whether it fits. */
  lemma RoomKept(v: Volume, ino: nat, raw: RawInode, bitmap: seq<byte>, n: nat)
    requires Sound(v) && ino < |v.table|
    requires forall k :: 0 <= k < DivCeil(n, BLOCK_SIZE) && k < DIRECT_BLOCKS ==>
               raw.direct[k] == v.table[ino].direct[k]
    requires DivCeil(n, BLOCK_SIZE) * BLOCK_SIZE >= v.table[ino].size ==> bitmap == v.bitmap
    ensures n <= MAX_FILE ==> (Room(raw, n, v.sb, bitmap) <==> Room(v.table[ino], n, v.sb, v.bitmap))
    ensures n <= MAX_FILE ==> (Room(raw.(size := 0), n, v.sb, bitmap) <==> Room(v.table[ino], n, v.sb, v.bitmap))
  {
    if n <= MAX_FILE {
      var lo := DivCeil(n, BLOCK_SIZE);
      hide DivCeil, FreeBlocks;
      assert Missing(raw, lo) == Missing(v.table[ino], lo) == Missing(raw.(size := 0), lo);
      if lo * BLOCK_SIZE < v.table[ino].size {
        assert Missing(v.table[ino], lo) == {};
      }
    }
  }

  /** Size of a listing once an entry was appended. */
  function ListingSize(es: seq<DirEntry>, name: seq<byte>): (n: nat) {
    EncodedSize(es) + Align4(HEADER_SIZE + |name|)
  }

  /** Same record, except that missing blocks may have been added. */
  ghost predicate Extends(raw: RawInode, raw': RawInode) {
    && raw' == raw.(direct := raw'.direct)
    && forall k :: 0 <= k < DIRECT_BLOCKS && raw.direct[k] != 0 ==> raw'.direct[k] == raw.direct[k]
  }

  /** Block b is one of those the inode names from index lo up to hi. */
  ghost predicate NamedFrom(raw: RawInode, lo: nat, hi: nat, b: nat) {
    exists k :: lo <= k < hi && k < DIRECT_BLOCKS && raw.direct[k] == b && b != 0
  }

  /** The blocks from index lo up to hi were released, and no others. */
  ghost predicate Freed(sb: Superblock, raw: RawInode, bitmap: seq<byte>, raw': RawInode, bitmap': seq<byte>, lo: nat,
                        hi: nat) {
    && raw' == raw.(direct := raw'.direct)
    && (forall k :: 0 <= k < DIRECT_BLOCKS ==> raw'.direct[k] == if lo <= k < hi then 0 else raw.direct[k])
    && forall b :: Used(sb, bitmap', b) <==> Used(sb, bitmap, b) && !NamedFrom(raw, lo, hi, b)
  }

  lemma FreedNone(sb: Superblock, raw: RawInode, bitmap: seq<byte>, lo: nat, hi: nat)
    requires hi <= lo
    ensures Freed(sb, raw, bitmap, raw, bitmap, lo, hi)
  {
    hide Used;
  }

  lemma FreedStep(sb: Superblock, raw: RawInode, bitmap: seq<byte>, raw1: RawInode, bitmap1: seq<byte>, raw2: RawInode,
                  bitmap2: seq<byte>, lo: nat, i: nat)
    requires lo <= i < DIRECT_BLOCKS && Freed(sb, raw, bitmap, raw1, bitmap1, lo, i)
    requires raw2 == raw1.(direct := raw1.direct[i := 0])
    requires forall b :: Used(sb, bitmap2, b) <==> Used(sb, bitmap1, b) && (raw1.direct[i] != 0 ==> b != raw1.direct[i])
    ensures Freed(sb, raw, bitmap, raw2, bitmap2, lo, i + 1)
  {
    hide Used;
    forall b: nat ensures NamedFrom(raw, lo, i + 1, b) <==> NamedFrom(raw, lo, i, b) || (raw.direct[i] == b && b != 0) {
      if NamedFrom(raw, lo, i, b) {
        var k :| lo <= k < i && k < DIRECT_BLOCKS && raw.direct[k] == b && b != 0;
      }
    }
  }

  /** A file of n bytes put in place of this one: blocks needed for n bytes are there, excess ones are gone. */
  ghost predicate Refitted(raw: RawInode, raw': RawInode, n: nat) {
    forall k :: 0 <= k < DIRECT_BLOCKS ==>
      (raw'.direct[k] == 0 <==>
         k >= DivCeil(n, BLOCK_SIZE) && (k < DivCeil(raw.size, BLOCK_SIZE) || raw.direct[k] == 0))
  }

  /** Rewriting a listing fails only if it needs more blocks than it had, so nothing was released before. */
  lemma NoneReleased(v: Volume, ino: nat, raw: RawInode, n: nat)
    requires Sound(v) && ino < |v.table| && raw == v.table[ino].(direct := raw.direct)
    requires n <= MAX_FILE ==> !Room(v.table[ino], n, v.sb, v.bitmap)
    requires forall k :: 0 <= k < DIRECT_BLOCKS ==>
               raw.direct[k] == if DivCeil(n, BLOCK_SIZE) <= k < DivCeil(v.table[ino].size, BLOCK_SIZE) then 0
                                else v.table[ino].direct[k]
    ensures raw == v.table[ino] && DivCeil(n, BLOCK_SIZE) * BLOCK_SIZE >= v.table[ino].size
  {
    var lo, old_ := DivCeil(n, BLOCK_SIZE), v.table[ino];
    assert Covered(old_);
    if n <= MAX_FILE && lo * BLOCK_SIZE < old_.size {
      assert false;
    }
    assert raw.direct == old_.direct;
  }

  /** The missing blocks among the first n were added, and taken from the free ones. */
  ghost predicate Filled(raw: RawInode, raw': RawInode, n: nat, sb: Superblock, bitmap: seq<byte>, bitmap': seq<byte>) {
    && n <= DIRECT_BLOCKS
    && (forall k :: 0 <= k < DIRECT_BLOCKS ==> (raw'.direct[k] == 0 <==> raw.direct[k] == 0 && k >= n))
    && |FreeBlocks(sb, bitmap')| == |FreeBlocks(sb, bitmap)| - |Missing(raw, n)|
  }

  /** A write that fits leaves room for exactly the writes there was room for. */
  lemma RoomAfter(raw: RawInode, raw': RawInode, end: nat, sb: Superblock, bitmap: seq<byte>,
      bitmap': seq<byte>, m: nat)
    requires end <= MAX_FILE && m <= MAX_FILE && Filled(raw, raw', DivCeil(end, BLOCK_SIZE), sb, bitmap, bitmap')
    ensures Room(raw', m, sb, bitmap') <==> Room(raw, m, sb, bitmap)
  {
    hide FreeBlocks;
    var n, k := DivCeil(end, BLOCK_SIZE), DivCeil(m, BLOCK_SIZE);
    if k <= n {
      assert Missing(raw', k) == {} && Missing(raw, k) <= Missing(raw, n);
      assert Missing(raw, n) == Missing(raw, k) + (Missing(raw, n) - Missing(raw, k));
    } else {
      assert Missing(raw, k) == Missing(raw, n) + Missing(raw', k);
      assert Missing(raw, n) !! Missing(raw', k);
    }
  }

  lemma MissingSome(raw: RawInode, k: nat, n: nat)
    requires k < n <= DIRECT_BLOCKS && raw.direct[k] == 0
    ensures |Missing(raw, n)| > 0
  {
    assert k in Missing(raw, n);
  }

  lemma MissingNone(raw: RawInode, n: nat)
    requires n <= DIRECT_BLOCKS && forall k :: 0 <= k < n ==> raw.direct[k] != 0
    ensures |Missing(raw, n)| == 0
  {
    assert Missing(raw, n) == {};
  }

  lemma OneMissingLess(raw: RawInode, raw': RawInode, k: nat, n: nat)
    requires k < n <= DIRECT_BLOCKS && raw.direct[k] == 0 && raw'.direct[k] != 0
    requires raw'.direct == raw.direct[k := raw'.direct[k]]
    ensures |Missing(raw', n)| == |Missing(raw, n)| - 1
  {
    assert Missing(raw', n) == Missing(raw, n) - {k};
  }

  /** What happens to the record of `ino` itself does not matter to the others. */
  lemma KeptThroughSize(v: Volume, v': Volume, ino: nat, raw: RawInode, raw': RawInode)
    requires ino < |v.table| == |v'.table|
    requires OthersKept(WithInode(v, ino, raw), WithInode(v', ino, raw'), ino)
    ensures OthersKept(v, v', ino)
  {
    var z, z' := WithInode(v, ino, raw), WithInode(v', ino, raw');
    forall j | 0 <= j < |v.table| && j != ino
      ensures v'.table[j] == v.table[j] && Image(v'.disk, v.table[j]) == Image(v.disk, v.table[j])
    {
      assert z.table[j] == v.table[j] && z'.table[j] == v'.table[j];
    }
  }

  ghost predicate SoundWithout(v: Volume, ino: nat) {
    ino < |v.table| && Sound(WithInode(v, ino, v.table[ino].(size := 0)))
  }

  lemma EmptiedUsed(z: Volume, ino: nat, k: nat)
    requires Sound(z) && ino < |z.table| && k < DIRECT_BLOCKS && z.table[ino].direct[k] != 0
    ensures Used(z.sb, z.bitmap, z.table[ino].direct[k])
  {
    DataInRange(z, ino, k);
  }

  /** Releasing a block and forgetting the size commute. */
  lemma SameReleased(v: Volume, ino: nat, k: nat, disk': Disk)
    requires ino < |v.table| && k < DIRECT_BLOCKS && Used(v.sb, v.bitmap, v.table[ino].direct[k])
    ensures var raw := v.table[ino];
            var v' := WithInode(v.(disk := disk', bitmap := ClearBitAt(v.bitmap, raw.direct[k] - v.sb.dataStart)), ino,
                raw.(direct := raw.direct[k := 0]));
            v'.table[ino].(size := 0) == raw.(direct := raw.direct[k := 0], size := 0) &&
            WithInode(v', ino, v'.table[ino].(size := 0)) == Released(WithInode(v, ino, raw.(size := 0)), ino, k, disk')
  {
    hide ClearBitAt;
  }

  lemma ReleaseEmptied(z: Volume, ino: nat, k: nat, disk': Disk)
    requires Sound(z) && ino < |z.table| && z.table[ino].size == 0 && k < DIRECT_BLOCKS && z.table[ino].direct[k] != 0
    requires Used(z.sb, z.bitmap, z.table[ino].direct[k]) && SameSlots(z.sb, z.disk, disk')
    requires SameData(z.sb, z.disk, disk')
    requires 0 <= z.table[ino].direct[k] - z.sb.dataStart < 8 * |z.bitmap|
    requires Synced(z.sb, disk', ClearBitAt(z.bitmap, z.table[ino].direct[k] - z.sb.dataStart))
    ensures Sound(Released(z, ino, k, disk')) && OthersKept(z, Released(z, ino, k, disk'), ino)
  {
    hide Sound, Used, OthersKept, Image, ClearBitAt, SameSlots, SameData, Synced;
    ReleaseSound(z, ino, k, disk');
  }

  lemma ReleaseEffect(v: Volume, ino: nat, k: nat, disk': Disk)
    requires SoundWithout(v, ino) && k < DIRECT_BLOCKS && v.table[ino].direct[k] != 0
    requires SameSlots(v.sb, v.disk, disk') && SameData(v.sb, v.disk, disk')
    requires 0 <= v.table[ino].direct[k] - v.sb.dataStart < 8 * |v.bitmap|
    requires Synced(v.sb, disk', ClearBitAt(v.bitmap, v.table[ino].direct[k] - v.sb.dataStart))
    ensures
      var raw := v.table[ino];
      var v' := WithInode(v.(disk := disk', bitmap := ClearBitAt(v.bitmap, raw.direct[k] - v.sb.dataStart)), ino,
                          raw.(direct := raw.direct[k := 0]));
      SoundWithout(v', ino) && OthersKept(v, v', ino)
  {
    hide Sound, OthersKept, Image, ClearBitAt, SameSlots, SameData, Synced, Used, InData;
    var raw, z := v.table[ino], WithInode(v, ino, v.table[ino].(size := 0));
    EmptiedUsed(z, ino, k);
    ReleaseEmptied(z, ino, k, disk');
    SameReleased(v, ino, k, disk');
    KeptThroughSize(v, WithInode(v.(disk := disk', bitmap := ClearBitAt(v.bitmap, raw.direct[k] - v.sb.dataStart)),
        ino, raw.(direct := raw.direct[k := 0])),
                    ino, raw.(size := 0), raw.(direct := raw.direct[k := 0], size := 0));
  }

  lemma SizeCovered(v: Volume, ino: nat)
    requires Sound(v) && ino < |v.table|
    ensures DivCeil(v.table[ino].size, BLOCK_SIZE) <= DIRECT_BLOCKS
  {
    assert Covered(v.table[ino]);
  }

  lemma SoundDropsSize(v: Volume, ino: nat)
    requires Sound(v) && ino < |v.table|
    ensures SoundWithout(v, ino)
  {
    ResizeSound(v, ino, 0);
  }

  lemma EmptiedSound(v: Volume, v1: Volume, ino: nat)
    requires OthersKept(v, v1, ino) && SoundWithout(v1, ino)
    ensures var v2 := WithInode(v1, ino, v1.table[ino].(size := 0)); Sound(v2) && OthersKept(v, v2, ino)
  {
  }

  /** A buffer spliced in at offset 0 is the whole content of a file of its length. */
  lemma SplicedPrefix(disk: Disk, raw: RawInode, disk': Disk, raw': RawInode, buf: seq<byte>)
    requires |buf| <= MAX_FILE && raw'.size == |buf|
    requires Image(disk', raw') == Splice(Image(disk, raw), 0, buf)
    ensures Content(disk', raw') == buf
  {
  }

  lemma EmptyParts(v: Volume, ino: nat, k: nat)
    requires SoundWithout(v, ino) && k < DIRECT_BLOCKS && v.table[ino].direct[k] != 0
    ensures Layout(v.sb, |v.disk|) && Synced(v.sb, v.disk, v.bitmap)
    ensures InData(v.sb, v.table[ino].direct[k])
  {
    DataInRange(WithInode(v, ino, v.table[ino].(size := 0)), ino, k);
  }

  /** A failed write added no block. */
  ghost predicate Spotless(e: FsError, sb: Superblock, bitmap: seq<byte>) {
    e == Unsupported || |FreeBlocks(sb, bitmap)| == 0
  }

  /** A listing that cannot be rewritten changes the record in memory, unless it was empty and stays without a block. */
  ghost predicate Spoilt(e: FsError, raw: RawInode, sb: Superblock, bitmap: seq<byte>) {
    !(raw.size == 0 && Spotless(e, sb, bitmap))
  }

  ghost predicate HasName(es: seq<DirEntry>, name: seq<byte>) {
    exists k :: 0 <= k < |es| && es[k].name == name
  }

  /** Entry k has this name and leads to this inode, of this kind. */
  ghost predicate IsEntry(es: seq<DirEntry>, k: nat, name: seq<byte>, ino: nat, kind: u16) {
    k < |es| && es[k].name == name && es[k].ino == ino && KindCode(es[k].kind) == kind
  }

  /** The record of a newly created inode. */
  function EmptyInode(kind: InodeKind): (r: RawInode) {
    RawInode(KindCode(kind), 0, 1, 0, 0, 0, NO_BLOCKS)
  }

  ghost predicate AllInUse(table: seq<RawInode>) {
    forall i :: 0 < i < |table| ==> table[i].kind != KIND_UNUSED
  }

  /** The lowest unused inode number from 1 on. */
  ghost predicate FreshSlot(table: seq<RawInode>, ino: nat) {
    0 < ino < |table| && table[ino].kind == KIND_UNUSED && forall i :: 0 < i < ino ==> table[i].kind != KIND_UNUSED
  }

  ghost predicate RawsInUse(slots: seq<RawInode>, raws: map<nat, RawInode>) {
    forall i :: i in raws ==> InUse(slots, i, raws[i].kind)
  }

  lemma ScanAllInUse(slots: seq<RawInode>, raws: map<nat, RawInode>)
    requires RawsInUse(slots, raws)
    requires forall i :: 0 < i < |slots| ==> slots[i].kind != KIND_UNUSED
    ensures AllInUse(Overlay(slots, raws))
  {
  }

  lemma ScanFresh(slots: seq<RawInode>, raws: map<nat, RawInode>, ino: nat)
    requires RawsInUse(slots, raws) && 0 < ino < |slots| && slots[ino].kind == KIND_UNUSED
    requires forall i :: 0 < i < ino ==> slots[i].kind != KIND_UNUSED
    ensures FreshSlot(Overlay(slots, raws), ino) && ino !in raws && !AllInUse(Overlay(slots, raws))
  {
  }

  lemma OverlaySlot(slots: seq<RawInode>, raws: map<nat, RawInode>, ino: nat, raw: RawInode)
    requires ino < |slots| && ino !in raws
    ensures Overlay(slots[ino := raw], raws) == Overlay(slots, raws)[ino := raw]
  {
  }

  /** Two inodes changed; every other record and every other content is as before. */
  ghost predicate TwoChanged(v: Volume, v': Volume, a: nat, b: nat) {
    && v.sb == v'.sb && |v.table| == |v'.table|
    && forall j :: 0 <= j < |v.table| && j != a && j != b ==>
         && v'.table[j] == v.table[j] && v.table[j].size <= MAX_FILE
         && Content(v'.disk, v.table[j]) == Content(v.disk, v.table[j])
  }

  /** A slot that was unused now holds an empty inode; besides it only the directory changed. */
  ghost predicate Claimed(v: Volume, v': Volume, dir: nat, ino: nat, kind: InodeKind) {
    FreshSlot(v.table, ino) && ino != dir && TwoChanged(v, v', dir, ino) && ino < |v'.table| && v'.table[ino] ==
        EmptyInode(kind)
  }

  lemma ClaimedNow(v: Volume, v1: Volume, v2: Volume, dir: nat, ino: nat, kind: InodeKind)
    requires FreshSlot(v.table, ino) && ino != dir && TwoChanged(v, v2, dir, ino) && OthersUnchanged(v1, v2, dir)
    requires v1 == WithInode(v.(disk := v1.disk), ino, EmptyInode(kind))
    ensures Claimed(v, v2, dir, ino, kind)
  {
    hide Content, EmptyInode;
  }

  lemma NewInodeSound(v: Volume, disk': Disk, ino: nat, kind: InodeKind)
    requires Sound(v) && ino < |v.table| && v.table[ino].kind == KIND_UNUSED
    requires SameData(v.sb, v.disk, disk') && Synced(v.sb, disk', v.bitmap)
    ensures Sound(WithInode(v.(disk := disk'), ino, EmptyInode(kind)))
  {
    var v' := WithInode(v.(disk := disk'), ino, EmptyInode(kind));
    assert Covered(v.table[ino]);
    assert forall i, j, b :: Names(v'.table, i, j, b) <==> Names(v.table, i, j, b);
    forall b | Used(v.sb, v.bitmap, b) ensures Named(v'.table, b) {
      assert Named(v.table, b);
      var i, j :| Names(v.table, i, j, b);
      assert Names(v'.table, i, j, b);
    }
  }

  lemma EmptyFile(disk: Disk, kind: InodeKind)
    ensures TailZero(disk, EmptyInode(kind))
    ensures Content(disk, EmptyInode(kind)) == []
  {
  }

  lemma EmptyListing(table: seq<RawInode>)
    ensures Decode([]) == Ok([]) && LinksOk(table, [])
  {
    assert DecodeFrom([], 0) == Ok([]);
  }

  /** Filling an unused slot with an empty inode disturbs nothing. */
  lemma NewInodeConsistent(v: Volume, disk': Disk, ino: nat, kind: InodeKind)
    requires Consistent(v) && ino < |v.table| && v.table[ino].kind == KIND_UNUSED
    requires SameData(v.sb, v.disk, disk') && Synced(v.sb, disk', v.bitmap)
    ensures Consistent(WithInode(v.(disk := disk'), ino, EmptyInode(kind)))
  {
    var v' := WithInode(v.(disk := disk'), ino, EmptyInode(kind));
    NewInodeSound(v, disk', ino, kind);
    EmptyFile(disk', kind);
    EmptyListing(v'.table);
    forall j | 0 <= j < |v.table| && j != ino
      ensures v.table[j].kind == KIND_FILE ==> TailZero(disk', v.table[j])
      ensures v.table[j].kind == KIND_DIR ==> DirOk(disk', v'.table, v.table[j])
    {
      assert Covered(v.table[j]);
      KeptBySameData(v, disk', j);
      SameImageSameFile(v.disk, v.table[j], disk', v.table[j]);
      if v.table[j].kind == KIND_DIR {
        assert DirOk(v.disk, v.table, v.table[j]);
        SameKindsLinks(v.table, v'.table, Decode(Content(v.disk, v.table[j])).value);
      }
    }
  }

  /** Rewriting one directory keeps the volume consistent if the new listing is in order. */
  lemma DirKeepsConsistent(v: Volume, v': Volume, ino: nat)
    requires Consistent(v) && Sound(v') && OthersKept(v, v', ino) && ino < |v.table|
    requires v.table[ino].kind == KIND_DIR == v'.table[ino].kind
    requires v'.table[ino].size <= MAX_FILE && DirOk(v'.disk, v.table, v'.table[ino])
    ensures Consistent(v') && OthersUnchanged(v, v', ino)
  {
    KeptUnchanged(v, v', ino);
    SameKindsLinks(v.table, v'.table, Decode(Content(v'.disk, v'.table[ino])).value);
    forall j | 0 <= j < |v.table| && j != ino
      ensures v'.table[j] == v.table[j]
      ensures v.table[j].kind == KIND_FILE ==> TailZero(v'.disk, v'.table[j])
      ensures v.table[j].kind == KIND_DIR ==> DirOk(v'.disk, v'.table, v'.table[j])
    {
      assert Covered(v.table[j]);
      SameImageSameFile(v.disk, v.table[j], v'.disk, v'.table[j]);
      if v.table[j].kind == KIND_DIR {
        assert DirOk(v.disk, v.table, v.table[j]);
        SameKindsLinks(v.table, v'.table, Decode(Content(v.disk, v.table[j])).value);
      }
    }
  }

  lemma LinksAppend(table: seq<RawInode>, es: seq<DirEntry>, e: DirEntry)
    requires LinksOk(table, es) && !HasName(es, e.name) && Storable(e)
    requires 0 < e.ino < |table| && table[e.ino].kind == KindCode(e.kind)
    ensures LinksOk(table, es + [e])
  {
    var fs := es + [e];
    forall i, j | 0 <= i < j < |fs| ensures fs[i].name != fs[j].name {
      if j == |es| {
        assert fs[i] == es[i];
      }
    }
  }

  /** What a directory lists after one more entry has been serialized behind the old ones. */
  lemma {:induction false} ListingAfterCreate(table: seq<RawInode>, es: seq<DirEntry>, e: DirEntry, pads: seq<Padding>)
    requires LinksOk(table, es) && !HasName(es, e.name) && Utf8.Valid(e.name)
    requires 0 < e.ino < |table| && table[e.ino].kind == KindCode(e.kind)
    requires |pads| == |es| + 1 && EncodedSize(es + [e]) <= MAX_FILE
    ensures Decode(EncodeEntries(es + [e], pads)) == Ok(es + if e.name == [] then [] else [e])
    ensures LinksOk(table, es + if e.name == [] then [] else [e])
  {
    NamesFit(es + [e]);
    if e.name == [] {
      assert pads == pads[..|es|] + [pads[|es|]];
      EmptyNameVanishes(es, pads[..|es|], e, pads[|es|]);
      assert es + [] == es;
    } else {
      assert (es + [e])[|es|] == e;
      DirRoundTrip(es + [e], pads);
      LinksAppend(table, es, e);
    }
  }

  lemma CreateChanges(v: Volume, v1: Volume, v2: Volume, ino: nat, new_: nat, raw: RawInode)
    requires Sound(v) && new_ < |v.table| && ino < |v.table|
    requires v1 == WithInode(v.(disk := v1.disk), new_, raw) && SameData(v.sb, v.disk, v1.disk)
    requires OthersUnchanged(v1, v2, ino)
    ensures TwoChanged(v, v2, ino, new_)
  {
    forall j | 0 <= j < |v.table| && j != ino && j != new_
      ensures v2.table[j] == v.table[j] && v.table[j].size <= MAX_FILE
      ensures Content(v2.disk, v.table[j]) == Content(v.disk, v.table[j])
    {
      assert Covered(v.table[j]);
      KeptBySameData(v, v1.disk, j);
    }
  }

  function Prepend(es: seq<DirEntry>, r: Result<seq<DirEntry>, FsError>): (p: Result<seq<DirEntry>, FsError>) {
    match r
    case Ok(rest) => Ok(es + rest)
    case Err(e) => Err(e)
  }

  lemma PrependNone(r: Result<seq<DirEntry>, FsError>)
    ensures Prepend([], r) == r
  {
    if r.Ok? {
      assert [] + r.value == r.value;
    }
  }

  lemma {:induction false} PrependStep(es: seq<DirEntry>, bytes: seq<byte>, i: nat, e: DirEntry, next: nat)
    requires DecodeAt(bytes, i) == Entry(e, next)
    ensures Prepend(es, DecodeFrom(bytes, i)) == Prepend(es + [e], DecodeFrom(bytes, next))
  {
    match DecodeFrom(bytes, next)
    case Ok(rest) => assert es + ([e] + rest) == es + [e] + rest;
    case Err(_) =>
  }

  /** Header fields read from the 16-byte header are those at absolute offsets. */
  lemma HeaderSlices(bytes: seq<byte>, i: nat)
    requires i + HEADER_SIZE <= |bytes|
    ensures var hdr := bytes[i..i + HEADER_SIZE];
            Word64(hdr, 0) == Word64(bytes, i) && Word16(hdr, 8) == Word16(bytes, i + 8) && Word16(hdr, 10) ==
                Word16(bytes, i + 10)
  {
    var hdr := bytes[i..i + HEADER_SIZE];
    SubSlice(bytes, i, i + HEADER_SIZE, hdr, 0, 8);
    SubSlice(bytes, i, i + HEADER_SIZE, hdr, 8, 10);
    SubSlice(bytes, i, i + HEADER_SIZE, hdr, 10, 12);
  }

  /** An inode in memory; every handle to an inode shares it. */
  class InodeState {
    const ino: nat

    var raw: RawInode

    constructor (ino: nat, raw: RawInode)
      ensures this.ino == ino && this.raw == raw
    {
      this.ino, this.raw := ino, raw;
    }
  }

  /** The bytes of a chunk that starts at `cursor` and stays in its block. */
  lemma ChunkRange(cursor: nat, take: nat)
    requires cursor % BLOCK_SIZE + take <= BLOCK_SIZE
    ensures forall i :: cursor <= i < cursor + take ==>
              i / BLOCK_SIZE == cursor / BLOCK_SIZE && i % BLOCK_SIZE == cursor % BLOCK_SIZE + (i - cursor)
  {
  }

  lemma NoBytes(disk: Disk, raw: RawInode, off: nat)
    ensures BytesFrom(disk, raw, off, [])
  {
  }

  /** One block's worth of a file copied into a buffer. */
  lemma ChunkRead(disk: Disk, raw: RawInode, off: nat, before: seq<byte>, after: seq<byte>, block: Block, written: nat,
                  take: nat)
    requires written + take <= |before| == |after| && BytesFrom(disk, raw, off, before[..written])
    requires (off + written) % BLOCK_SIZE + take <= BLOCK_SIZE && (off + written) / BLOCK_SIZE < DIRECT_BLOCKS
    requires 0 < raw.direct[(off + written) / BLOCK_SIZE] < |disk|
    requires disk[raw.direct[(off + written) / BLOCK_SIZE]] == block
    requires forall i :: 0 <= i < |after| ==>
        after[i] == if written <= i < written + take then block[(off + written) % BLOCK_SIZE + (i - written)]
        else before[i]
    ensures BytesFrom(disk, raw, off, after[..written + take]) && after[written + take..] == before[written + take..]
  {
    ChunkRange(off + written, take);
    forall i | 0 <= i < written + take ensures off + i < MAX_FILE && after[i] == ByteAt(disk, raw, off + i) {
      if i < written {
        assert before[..written][i] == before[i];
      }
    }
  }

  class PondFs {
    var sb: Superblock
    var disk: Disk
    var bitmap: seq<byte>
    var cache: map<nat, InodeState>

    constructor (sb: Superblock, disk: Disk, bitmap: seq<byte>)
      ensures this.sb == sb && this.disk == disk && this.bitmap == bitmap && cache == map[]
    {
      this.sb, this.disk, this.bitmap, this.cache := sb, disk, bitmap, map[];
    }

    ghost function Raws(): (m: map<nat, RawInode>)
      reads `cache, cache.Values
    {
      map i | i in cache :: cache[i].raw
    }

    ghost function View(): (v: Volume)
      reads this, cache.Values
    {
      Volume(sb, disk, bitmap, Overlay(DiskTable(sb, disk), Raws()))
    }

    /** A cached inode is filed under its number and has the kind its slot records. */
    ghost predicate CacheOk()
      reads this, cache.Values
    {
      forall i :: i in cache ==> cache[i].ino == i && InUse(DiskTable(sb, disk), i, cache[i].raw.kind)
    }

    ghost predicate Mounted()
      reads this, cache.Values
    {
      CacheOk() && Sound(View())
    }

    ghost predicate Valid()
      reads this, cache.Values
    {
      CacheOk() && Consistent(View())
    }

    /** `st` is the shared state behind every handle to its inode. */
    ghost predicate Handle(st: InodeState)
      reads this
    {
      st.ino in cache && cache[st.ino] == st
    }

    // -------------------------------------------------------------------
    // Data-block allocator

    /** Store one bitmap byte in memory and flush the bitmap block it lives in. */
    method StoreBitmapByte(i: nat, x: byte)
      requires Layout(sb, |disk|) && Synced(sb, disk, bitmap) && i < |bitmap|
      modifies `bitmap, `disk
      ensures bitmap == old(bitmap)[i := x]
      ensures |disk| == |old(disk)| && Synced(sb, disk, bitmap)
      ensures SameSlots(sb, old(disk), disk) && SameData(sb, old(disk), disk)
    {
      FlushSyncs(sb, disk, bitmap, i, x);
      bitmap := bitmap[i := x];
      disk := FlushByte(sb, disk, i, bitmap[i]);
    }

    /** The lowest clear bit of the data bitmap, as a block number. */
    method FindFreeBlock() returns (r: Option<u64>)
      requires Layout(sb, |disk|) && |bitmap| == sb.bitmapBlocks * BLOCK_SIZE
      ensures r.None? ==> FreeBlocks(sb, bitmap) == {}
      ensures r.Some? ==> r.value in FreeBlocks(sb, bitmap) && forall b :: b in FreeBlocks(sb, bitmap) ==> r.value <= b
    {
      var dataBlocks := sb.totalBlocks - sb.dataStart;
      for i := 0 to dataBlocks
        invariant forall b :: sb.dataStart <= b < sb.dataStart + i ==> Used(sb, bitmap, b)
      {
        BitmapIndex(sb, disk, bitmap, sb.dataStart + i);
        var byteIdx, bit := i / 8, i % 8;
        if !Bit(bitmap[byteIdx], bit) {
          assert !Used(sb, bitmap, sb.dataStart + i);
          return Some(sb.dataStart + i);
        }
        assert Used(sb, bitmap, sb.dataStart + i);
      }
      return None;
    }

    method AllocDataBlock() returns (r: Result<u64, FsError>)
      requires Layout(sb, |disk|) && Synced(sb, disk, bitmap)
      modifies `bitmap, `disk
      ensures |disk| == |old(disk)| && Synced(sb, disk, bitmap)
      ensures SameSlots(sb, old(disk), disk) && SameData(sb, old(disk), disk)
      ensures r.Err? ==>
                r.error == NoSpace && bitmap == old(bitmap) && disk == old(disk) && FreeBlocks(sb, bitmap) == {}
      ensures r.Ok? ==>
                && r.value in FreeBlocks(sb, old(bitmap))
                && (forall b :: b in FreeBlocks(sb, old(bitmap)) ==> r.value <= b)
                && 0 <= r.value - sb.dataStart < 8 * |old(bitmap)|
                && bitmap == SetBitAt(old(bitmap), r.value - sb.dataStart)
    {
      hide FreeBlocks;
      var f := FindFreeBlock();
      if f.None? {
        return Err(NoSpace);
      }
      FreeInData(sb, bitmap, f.value);
      BitmapIndex(sb, disk, bitmap, f.value);
      var i := f.value - sb.dataStart;
      ByteWidth();
      StoreBitmapByte(i / 8, OrBit(bitmap[i / 8], i % 8, 8));
      return Ok(f.value);
    }

    method FreeDataBlock(blk: u64) returns (r: Result<(), FsError>)
      requires Layout(sb, |disk|) && Synced(sb, disk, bitmap)
      modifies `bitmap, `disk
      ensures Layout(sb, |disk|) && Synced(sb, disk, bitmap)
      ensures SameSlots(sb, old(disk), disk) && SameData(sb, old(disk), disk)
      ensures r == Ok(()) <==> InData(sb, blk)
      ensures r.Err? ==> r.error == Io && bitmap == old(bitmap) && disk == old(disk)
      ensures r.Ok? ==>
                0 <= blk - sb.dataStart < 8 * |old(bitmap)| && bitmap == ClearBitAt(old(bitmap), blk - sb.dataStart)
    {
      if blk < sb.dataStart || blk >= sb.totalBlocks {
        return Err(Io);
      }
      BitmapIndex(sb, disk, bitmap, blk);
      var i := blk - sb.dataStart;
      var byteIdx, bit := i / 8, i % 8;
      ByteWidth();
      StoreBitmapByte(byteIdx, AndNotBit(bitmap[byteIdx], bit, 8));
      return Ok(());
    }

    // -------------------------------------------------------------------
    // File bytes

    /** The device: a block in range, or an I/O error. */
    function ReadBlock(blk: nat): (r: Result<Block, FsError>)
      reads this
    {
      if blk < |disk| then Ok(disk[blk]) else Err(Io)
    }

    /** Every byte of [off, end) lies in an allocated block on the device. */
    ghost predicate Readable(raw: RawInode, off: nat, end: nat)
      reads this
    {
      forall i :: off <= i < end ==> i / BLOCK_SIZE < DIRECT_BLOCKS && 0 < raw.direct[i / BLOCK_SIZE] < |disk|
    }

    /** The first byte from `off` on that cannot be read is `c`; this is the error it gives. */
    ghost predicate FailsAt(raw: RawInode, off: nat, end: nat, c: nat, e: FsError)
      reads this
    {
      && off <= c < end && Readable(raw, off, c) && !Readable(raw, c, c + 1)
      && e == if c / BLOCK_SIZE >= DIRECT_BLOCKS then Unsupported else Io
    }

    ghost predicate Fails(raw: RawInode, off: nat, end: nat, e: FsError)
      reads this
    {
      exists c :: FailsAt(raw, off, end, c, e)
    }

    lemma NothingUnread(raw: RawInode, off: nat)
      ensures Readable(raw, off, off)
    {
    }

    lemma SizeReadable(raw: RawInode)
      requires Readable(raw, 0, raw.size)
      ensures raw.size <= MAX_FILE
    {
      assert MAX_FILE / BLOCK_SIZE == DIRECT_BLOCKS;
    }

    lemma ReadableChunk(raw: RawInode, off: nat, cursor: nat, take: nat)
      requires Readable(raw, off, cursor) && cursor % BLOCK_SIZE + take <= BLOCK_SIZE
      requires cursor / BLOCK_SIZE < DIRECT_BLOCKS && 0 < raw.direct[cursor / BLOCK_SIZE] < |disk|
      ensures Readable(raw, off, cursor + take)
    {
      ChunkRange(cursor, take);
    }

    /** The block byte `cursor` lies in. */
    method BlockFor(raw: RawInode, ghost off: nat, ghost end: nat, cursor: nat) returns (b: Result<Block, FsError>)
      requires off <= cursor < end && Readable(raw, off, cursor)
      ensures b.Ok? <==> Readable(raw, cursor, cursor + 1)
      ensures b.Err? ==> Fails(raw, off, end, b.error) && !Readable(raw, off, end)
      ensures b.Ok? ==>
                && cursor / BLOCK_SIZE < DIRECT_BLOCKS && 0 < raw.direct[cursor / BLOCK_SIZE] < |disk|
                && b.value == disk[raw.direct[cursor / BLOCK_SIZE]]
    {
      var blkIdx := cursor / BLOCK_SIZE;
      if blkIdx >= DIRECT_BLOCKS {
        assert FailsAt(raw, off, end, cursor, Unsupported);
        return Err(Unsupported);
      }
      var blk := raw.direct[blkIdx];
      if blk == 0 {
        assert FailsAt(raw, off, end, cursor, Io);
        return Err(Io);
      }
      b := ReadBlock(blk);
      assert b.Err? ==> FailsAt(raw, off, end, cursor, Io);
    }

    /** Copy the part of a block that starts at byte `off + written` into the buffer. */
    method CopyOut(raw: RawInode, off: nat, b: Block, buf: array<byte>, written: nat, take: nat)
      requires written + take <= buf.Length && (off + written) % BLOCK_SIZE + take <= BLOCK_SIZE
      requires (off + written) / BLOCK_SIZE < DIRECT_BLOCKS && 0 < raw.direct[(off + written) / BLOCK_SIZE] < |disk|
      requires b == disk[raw.direct[(off + written) / BLOCK_SIZE]]
      requires BytesFrom(disk, raw, off, buf[..written])
      modifies buf
      ensures BytesFrom(disk, raw, off, buf[..written + take]) && buf[written + take..] == old(buf[written..])[take..]
    {
      hide BytesFrom;
      var inBlk := (off + written) % BLOCK_SIZE;
      ghost var before := buf[..];
      forall i | 0 <= i < take {
        buf[written + i] := b[inBlk + i];
      }
      ChunkRead(disk, raw, off, before, buf[..], b, written, take);
    }

    method ReadFileAt(raw: RawInode, off: nat, buf: array<byte>) returns (r: Result<nat, FsError>)
      modifies buf
      ensures r.Ok? <==> Readable(raw, off, Min(raw.size, off + buf.Length))
      ensures r.Err? ==> Fails(raw, off, Min(raw.size, off + buf.Length), r.error)
      ensures r.Ok? ==>
                && r.value == Max(0, Min(raw.size, off + buf.Length) - off) <= buf.Length
                && BytesFrom(disk, raw, off, buf[..r.value])
                && buf[r.value..] == old(buf[r.value..])
    {
      if off >= raw.size {
        return Ok(0);
      }
      hide BytesFrom, Fails, Readable;
      NothingUnread(raw, off);
      var end := Min(raw.size, off + buf.Length);
      var cursor := off;
      var written := 0;
      NoBytes(disk, raw, off);
      assert buf[..0] == [];
      while cursor < end
        invariant off <= cursor <= end && written == cursor - off
        invariant Readable(raw, off, cursor)
        invariant BytesFrom(disk, raw, off, buf[..written])
        invariant buf[written..] == old(buf[written..])
      {
        var b := BlockFor(raw, off, end, cursor);
        if b.Err? {
          return Err(b.error);
        }
        var take := Min(BLOCK_SIZE - cursor % BLOCK_SIZE, end - cursor);
        CopyOut(raw, off, b.value, buf, written, take);
        ReadableChunk(raw, off, cursor, take);
        assert old(buf[written..])[take..] == old(buf[written + take..]);
        written := written + take;
        cursor := cursor + take;
      }
      return Ok(written);
    }

    /** Device and bitmap changed outside the inode table: only those parts of the view change. */
    lemma ViewKept(v: Volume, raws: map<nat, RawInode>)
      requires v.table == Overlay(DiskTable(v.sb, v.disk), raws) && raws == Raws() && v.sb == sb
      requires Layout(sb, |v.disk|) && SameSlots(sb, v.disk, disk)
      ensures View() == v.(disk := disk, bitmap := bitmap)
      ensures DiskTable(sb, disk) == DiskTable(sb, v.disk)
    {
      hide DiskTable, Overlay;
      SlotsKept(sb, v.disk, disk);
    }

    /** Assign through the lock of an inode: every handle sees it, no other inode does. */
    method PutRaw(st: InodeState, raw: RawInode)
      requires CacheOk() && Handle(st) && raw.kind == st.raw.kind
      modifies st`raw
      ensures CacheOk() && st.raw == raw && st.ino < |DiskTable(sb, disk)|
      ensures View() == WithInode(old(View()), st.ino, raw)
    {
      hide DiskTable, Overlay;
      ghost var raws := Raws();
      st.raw := raw;
      assert Raws() == raws[st.ino := raw];
      OverlayPut(DiskTable(sb, disk), raws, st.ino, raw);
    }

    /** A zeroed block, as good as attached to slot k of the inode. */
    method FreshBlock(st: InodeState, k: nat) returns (nb: Result<u64, FsError>)
      requires Mounted() && Handle(st) && k < DIRECT_BLOCKS && st.raw.direct[k] == 0
      modifies `bitmap, `disk
      ensures nb.Ok? <==> |FreeBlocks(sb, old(bitmap))| > 0
      ensures nb.Err? ==> nb.error == NoSpace && disk == old(disk) && bitmap == old(bitmap)
      ensures st.ino < |old(View()).table| && old(View()).table[st.ino] == st.raw && Layout(sb, |old(disk)|)
      ensures SameSlots(sb, old(disk), disk)
      ensures nb.Ok? ==> nb.value != 0 && FitsIn(old(View()), st.ino, k, nb.value, disk, bitmap)
      ensures nb.Ok? ==> |FreeBlocks(sb, bitmap)| == |FreeBlocks(sb, old(bitmap))| - 1
    {
      hide DiskTable, Sound, Synced, Image, Overlay, Layout, SameSlots, SameData, OthersKept, FreeBlocks;
      hide SetBitAt, Covered;
      ghost var v := View();
      SoundParts(v);
      OverlayAt(DiskTable(sb, disk), Raws(), st.ino);
      SlotsSame(sb, disk);
      nb := AllocDataBlock();
      if nb.Err? {
        return;
      }
      ghost var disk1 := disk;
      AddBlockEffect(v, st.ino, k, nb.value, disk1);
      OneBlockLess(sb, v.bitmap, nb.value);
      disk := disk[nb.value := Zeros(BLOCK_SIZE)];
    }

    /** Give one missing direct slot a fresh zeroed block. */
    method AddBlock(st: InodeState, k: nat) returns (r: Result<(), FsError>)
      requires Mounted() && Handle(st) && k < DIRECT_BLOCKS && st.raw.direct[k] == 0
      modifies `bitmap, `disk, st`raw
      ensures Mounted() && OthersKept(old(View()), View(), st.ino)
      ensures Image(disk, st.raw) == Image(old(disk), old(st.raw))
      ensures r.Ok? <==> |FreeBlocks(sb, old(bitmap))| > 0
      ensures r.Err? ==> r.error == NoSpace && disk == old(disk) && bitmap == old(bitmap) && st.raw == old(st.raw)
      ensures r.Ok? ==>
                st.raw == old(st.raw).(direct := old(st.raw).direct[k := st.raw.direct[k]]) && st.raw.direct[k] != 0
      ensures r.Ok? ==> |FreeBlocks(sb, bitmap)| == |FreeBlocks(sb, old(bitmap))| - 1
    {
      hide DiskTable, Sound, Synced, Image, Overlay, Layout, SameSlots, SameData, OthersKept, FreeBlocks;
      hide SetBitAt, Covered;
      ghost var v, raws := View(), Raws();
      OverlayAt(DiskTable(sb, disk), raws, st.ino);
      var nb := FreshBlock(st, k);
      if nb.Err? {
        KeptSelf(v, st.ino);
        return Err(nb.error);
      }
      ViewKept(v, raws);
      PutRaw(st, st.raw.(direct := st.raw.direct[k := nb.value]));
      return Ok(());
    }

    /** Allocate any missing direct blocks below `needed`. */
    method EnsureBlocks(st: InodeState, needed: nat) returns (r: Result<(), FsError>)
      requires Mounted() && Handle(st) && needed <= DIRECT_BLOCKS
      modifies `bitmap, `disk, st`raw
      ensures Mounted() && OthersKept(old(View()), View(), st.ino)
      ensures Image(disk, st.raw) == Image(old(disk), old(st.raw))
      ensures Extends(old(st.raw), st.raw)
      ensures r.Ok? <==> |Missing(old(st.raw), needed)| <= |FreeBlocks(sb, old(bitmap))|
      ensures r.Ok? ==> Filled(old(st.raw), st.raw, needed, sb, old(bitmap), bitmap)
      ensures r.Err? ==> r.error == NoSpace && |FreeBlocks(sb, bitmap)| == 0
      ensures r.Err? ==> (st.raw == old(st.raw) <==> |FreeBlocks(sb, old(bitmap))| == 0)
    {
      hide DiskTable, Sound, Image, Overlay, OthersKept, FreeBlocks, Missing;
      ghost var v := View();
      KeptSelf(v, st.ino);
      for i := 0 to needed
        invariant Mounted() && Handle(st) && OthersKept(v, View(), st.ino)
        invariant Image(disk, st.raw) == Image(v.disk, old(st.raw))
        invariant Extends(old(st.raw), st.raw)
        invariant forall k :: 0 <= k < DIRECT_BLOCKS ==>
                    (st.raw.direct[k] == 0 <==> old(st.raw).direct[k] == 0 && k >= i)
        invariant |FreeBlocks(sb, bitmap)| - |Missing(st.raw, needed)| ==
            |FreeBlocks(sb, old(bitmap))| - |Missing(old(st.raw), needed)|
        invariant if st.raw == old(st.raw) then |FreeBlocks(sb, bitmap)| == |FreeBlocks(sb, old(bitmap))|
                  else |FreeBlocks(sb, old(bitmap))| > 0
      {
        if st.raw.direct[i] == 0 {
          ghost var v1, raw1 := View(), st.raw;
          var a := AddBlock(st, i);
          OthersKeptTransitive(v, v1, View(), st.ino);
          if a.Err? {
            MissingSome(st.raw, i, needed);
            return Err(a.error);
          }
          OneMissingLess(raw1, st.raw, i, needed);
        }
      }
      MissingNone(st.raw, needed);
      return Ok(());
    }

    /** Overwrite bytes [p, p + |s|) of one owned block: read, patch, write back. */
    method PatchBlock(st: InodeState, k: nat, p: nat, s: seq<byte>)
      requires Mounted() && Handle(st) && k < DIRECT_BLOCKS && st.raw.direct[k] != 0 && p + |s| <= BLOCK_SIZE
      modifies `disk
      ensures Mounted() && OthersKept(old(View()), View(), st.ino)
      ensures Image(disk, st.raw) == Splice(Image(old(disk), st.raw), k * BLOCK_SIZE + p, s)
    {
      hide DiskTable, Sound, Owned, Synced, Image, Overlay, Layout, SameData;
      ghost var v, raws := View(), Raws();
      SoundParts(v);
      OverlayAt(DiskTable(sb, disk), raws, st.ino);
      ChunkSound(v, st.ino, k, p, s);
      ChunkImage(v, st.ino, k, p, s);
      var blk := st.raw.direct[k];
      var b := disk[blk];
      b := b[..p] + s + b[p + |s|..];
      disk := disk[blk := b];
      ViewKept(v, raws);
    }

    /** Copy `buf` to file offset `off`, block by block. */
    method CopyIn(st: InodeState, off: nat, buf: seq<byte>)
      requires Mounted() && Handle(st) && off + |buf| <= MAX_FILE
      requires forall k :: 0 <= k < DIRECT_BLOCKS && k * BLOCK_SIZE < off + |buf| ==> st.raw.direct[k] != 0
      modifies `disk
      ensures Mounted() && OthersKept(old(View()), View(), st.ino)
      ensures Image(disk, st.raw) == Splice(Image(old(disk), st.raw), off, buf)
    {
      hide DiskTable, Sound, Image, Overlay, OthersKept, CacheOk, Splice;
      ghost var v, img := View(), Image(disk, st.raw);
      KeptSelf(v, st.ino);
      SpliceNone(img, off);
      var cursor, src := off, 0;
      while src < |buf|
        invariant 0 <= src <= |buf| && cursor == off + src
        invariant Mounted() && OthersKept(v, View(), st.ino)
        invariant Image(disk, st.raw) == Splice(img, off, buf[..src])
      {
        var blkIdx := cursor / BLOCK_SIZE;
        var inBlk := cursor % BLOCK_SIZE;
        var take := Min(BLOCK_SIZE - inBlk, |buf| - src);
        ghost var v1 := View();
        PatchBlock(st, blkIdx, inBlk, buf[src..src + take]);
        OthersKeptTransitive(v, v1, View(), st.ino);
        SpliceTwice(img, off, buf[..src], buf[src..src + take]);
        assert buf[..src] + buf[src..src + take] == buf[..src + take];
        src := src + take;
        cursor := cursor + take;
      }
      assert buf[..src] == buf;
    }

    method SetSize(st: InodeState, size: u64)
      requires Mounted() && Handle(st) && size <= MAX_FILE
      requires forall k :: 0 <= k < DIRECT_BLOCKS && k * BLOCK_SIZE < size ==> st.raw.direct[k] != 0
      modifies st`raw
      ensures Mounted() && OthersKept(old(View()), View(), st.ino)
      ensures st.raw == old(st.raw).(size := size)
      ensures Image(disk, st.raw) == Image(disk, old(st.raw))
    {
      hide DiskTable, Sound, Image, Overlay, OthersKept;
      ghost var v, raws := View(), Raws();
      SoundParts(v);
      OverlayAt(DiskTable(sb, disk), raws, st.ino);
      ResizeSound(v, st.ino, size);
      ImageIgnoresSize(disk, st.raw, size);
      PutRaw(st, st.raw.(size := size));
    }

    method WriteFileAt(st: InodeState, off: nat, buf: seq<byte>) returns (r: Result<nat, FsError>)
      requires Mounted() && Handle(st)
      modifies `bitmap, `disk, st`raw
      ensures Mounted() && OthersKept(old(View()), View(), st.ino)
      ensures r == Err(Unsupported) <==> off + |buf| > MAX_FILE
      ensures r == Err(NoSpace) <==> off + |buf| <= MAX_FILE && !Room(old(st.raw), off + |buf|, sb, old(bitmap))
      ensures r.Err? ==> r.error in {Unsupported, NoSpace}
      ensures r.Err? ==> Extends(old(st.raw), st.raw) && Image(disk, st.raw) == Image(old(disk), old(st.raw))
      ensures r.Err? ==> (st.raw == old(st.raw) <==> r.error == Unsupported || |FreeBlocks(sb, old(bitmap))| == 0)
      ensures r == Err(Unsupported) ==> disk == old(disk) && bitmap == old(bitmap)
      ensures r == Err(NoSpace) ==> |FreeBlocks(sb, bitmap)| == 0
      ensures r.Ok? ==> r.value == |buf| && Image(disk, st.raw) == Splice(Image(old(disk), old(st.raw)), off, buf)
      ensures r.Ok? ==> Extends(old(st.raw).(size := Max(old(st.raw.size), off + |buf|)), st.raw)
      ensures r.Ok? ==> Filled(old(st.raw), st.raw, DivCeil(off + |buf|, BLOCK_SIZE), sb, old(bitmap), bitmap)
    {
      hide DiskTable, Sound, Image, Overlay, OthersKept, CacheOk, Splice, FreeBlocks, Missing;
      ghost var v := View();
      KeptSelf(v, st.ino);
      var end := off + |buf|;
      var needed := DivCeil(end, BLOCK_SIZE);
      if needed > DIRECT_BLOCKS {
        return Err(Unsupported);
      }
      var e := EnsureBlocks(st, needed);
      if e.Err? {
        return Err(e.error);
      }
      ghost var v1 := View();
      CopyIn(st, off, buf);
      ghost var v2 := View();
      OthersKeptTransitive(v, v1, v2, st.ino);
      if end > st.raw.size {
        SetSize(st, end);
        OthersKeptTransitive(v, v2, View(), st.ino);
      }
      return Ok(|buf|);
    }

    // -------------------------------------------------------------------
    // Inode records

    /** `write_inode`: read the inode-table block, patch the record, write the block back. */
    method WriteInode(ino: nat, raw: RawInode)
      requires Layout(sb, |disk|) && ino < sb.inodeCount && Synced(sb, disk, bitmap)
      modifies `disk
      ensures |disk| == |old(disk)| && SameData(sb, old(disk), disk) && Synced(sb, disk, bitmap)
      ensures DiskTable(sb, disk) == DiskTable(sb, old(disk))[ino := raw]
    {
      hide DiskTable;
      WriteSlot(sb, disk, ino, raw);
      SlotInRange(sb, |disk|, ino);
      var blk := SlotBlock(sb, ino);
      var d := disk;
      SyncedFrame(sb, d, d[blk := PutSlot(d[blk], ino, raw)], bitmap);
      disk := disk[blk := PutSlot(disk[blk], ino, raw)];
    }

    /** Write back the record of a live inode. */
    method FlushInode(st: InodeState)
      requires Mounted() && Handle(st)
      modifies `disk
      ensures CacheOk() && st.ino < |DiskTable(sb, old(disk))|
      ensures View() == old(View()).(disk := disk)
      ensures SameData(sb, old(disk), disk) && Synced(sb, disk, bitmap)
      ensures DiskTable(sb, disk) == DiskTable(sb, old(disk))[st.ino := st.raw]
    {
      hide DiskTable, Overlay, Sound, Layout, Synced, SameData;
      ghost var v, raws := View(), Raws();
      SoundParts(v);
      WriteInode(st.ino, st.raw);
      assert Raws() == raws;
      OverlayStore(DiskTable(sb, v.disk), raws, st.ino);
    }

    method LoadInode(ino: nat) returns (r: Result<InodeState, FsError>)
      ensures r.Err? <==> ino == 0 || ino >= sb.inodeCount || SlotBlock(sb, ino) >= |disk|
      ensures r.Err? ==> r.error == if ino == 0 || ino >= sb.inodeCount then NotFound else Io
      ensures r.Ok? ==> fresh(r.value) && r.value.ino == ino && r.value.raw == DiskTable(sb, disk)[ino]
    {
      if ino == 0 || ino >= sb.inodeCount {
        return Err(NotFound);
      }
      var b := ReadBlock(SlotBlock(sb, ino));
      if b.Err? {
        return Err(b.error);
      }
      var st := new InodeState(ino, SlotInBlock(b.value, ino));
      return Ok(st);
    }

    /** The one shared state of an inode, loaded on first use. */
    method GetOrLoad(ino: nat) returns (r: Result<InodeState, FsError>)
      requires CacheOk() && Layout(sb, |disk|)
      requires 0 < ino < sb.inodeCount ==> DiskTable(sb, disk)[ino].kind != KIND_UNUSED
      modifies `cache
      ensures CacheOk() && View() == old(View())
      ensures forall i :: i in old(cache) ==> i in cache && cache[i] == old(cache)[i]
      ensures r.Err? <==> ino !in old(cache) && (ino == 0 || ino >= sb.inodeCount)
      ensures r.Err? ==> r.error == NotFound && cache == old(cache)
      ensures r.Ok? ==> Handle(r.value) && r.value.ino == ino
      ensures forall i :: i in cache && i !in old(cache) ==> i == ino && fresh(cache[i])
    {
      hide DiskTable, Overlay;
      if ino in cache {
        return Ok(cache[ino]);
      }
      if 0 < ino < sb.inodeCount {
        SlotInRange(sb, |disk|, ino);
      }
      var s := LoadInode(ino);
      if s.Err? {
        return s;
      }
      ghost var raws := Raws();
      cache := cache[ino := s.value];
      assert Raws() == raws[ino := DiskTable(sb, disk)[ino]];
      OverlayLoad(DiskTable(sb, disk), raws, ino);
      return s;
    }

    // -------------------------------------------------------------------
    // Files

    /** Inodes whose record in memory is newer than the one on disk. */
    ghost function Dirty(): (s: set<nat>)
      reads this, cache.Values
    {
      Stale(View().table, DiskTable(sb, disk))
    }

    /** A live inode has a block behind every byte below its size. */
    lemma HandleReadable(st: InodeState, off: nat, end: nat)
      requires Mounted() && Handle(st) && end <= st.raw.size
      ensures st.raw.size <= MAX_FILE && Readable(st.raw, off, end)
    {
      hide DiskTable, Overlay;
      var v := View();
      SoundParts(v);
      OverlayAt(DiskTable(sb, disk), Raws(), st.ino);
      forall i | off <= i < end
        ensures i / BLOCK_SIZE < DIRECT_BLOCKS && 0 < st.raw.direct[i / BLOCK_SIZE] < |disk|
      {
        assert i / BLOCK_SIZE * BLOCK_SIZE < st.raw.size;
        DataInRange(v, st.ino, i / BLOCK_SIZE);
      }
    }

    method ReadAt(st: InodeState, off: nat, buf: array<byte>) returns (r: Result<nat, FsError>)
      requires Valid() && Handle(st)
      modifies buf
      ensures st.raw.kind != KIND_FILE ==> r == Err(IsDir) && buf[..] == old(buf[..])
      ensures st.raw.kind == KIND_FILE ==>
                && st.raw.size <= MAX_FILE
                && r.Ok? && r.value <= buf.Length
                && buf[..r.value] == RamFile.Read(Content(disk, st.raw), off, buf.Length)
                && buf[r.value..] == old(buf[r.value..])
    {
      hide DiskTable, Overlay, Sound, FilesZero, DirsOk, Image;
      if st.raw.kind != KIND_FILE {
        return Err(IsDir);
      }
      HandleReadable(st, off, Min(st.raw.size, off + buf.Length));
      r := ReadFileAt(st.raw, off, buf);
      ContentRead(disk, st.raw, off, buf.Length, buf[..r.value]);
    }

    lemma FilesOnly(st: InodeState)
      requires Valid() && Handle(st)
      ensures st.raw.size <= MAX_FILE && OthersUnchanged(View(), View(), st.ino)
    {
      hide DiskTable, Overlay;
      OverlayAt(DiskTable(sb, disk), Raws(), st.ino);
      SoundParts(View());
      KeptSelf(View(), st.ino);
      KeptUnchanged(View(), View(), st.ino);
    }

    method WriteAt(st: InodeState, off: nat, buf: seq<byte>) returns (r: Result<nat, FsError>)
      requires Valid() && Handle(st)
      modifies `bitmap, `disk, st`raw
      ensures Valid() && st.raw.kind == old(st.raw.kind)
      ensures OthersUnchanged(old(View()), View(), st.ino)
      ensures r == Err(IsDir) <==> old(st.raw.kind) != KIND_FILE
      ensures r == Err(Unsupported) <==> old(st.raw.kind) == KIND_FILE && off + |buf| > MAX_FILE
      ensures r == Err(NoSpace) <==>
                && old(st.raw.kind) == KIND_FILE && off + |buf| <= MAX_FILE
                && !Room(old(st.raw), off + |buf|, sb, old(bitmap))
      ensures r.Err? ==> r.error in {IsDir, Unsupported, NoSpace}
      ensures old(st.raw.size) <= MAX_FILE && st.raw.size <= MAX_FILE
      ensures Content(disk, st.raw) == if r.Ok? then RamFile.Write(Content(old(disk), old(st.raw)), off, buf)
                else Content(old(disk), old(st.raw))
      ensures r.Ok? ==> r.value == |buf| && Dirty() == old(Dirty()) - {st.ino}
      // A refused write leaves no free block, and the inode with all of them in memory only.
      ensures r == Err(NoSpace) ==> |FreeBlocks(sb, bitmap)| == 0
      ensures r.Err? && r.error != NoSpace ==> View() == old(View())
      ensures r.Err? ==>
                Soiled(old(Dirty()), Dirty(), st.ino, r.error == NoSpace && |FreeBlocks(sb, old(bitmap))| > 0)
      ensures r.Ok? ==> Filled(old(st.raw), st.raw, DivCeil(off + |buf|, BLOCK_SIZE), sb, old(bitmap), bitmap)
    {
      hide DiskTable, Overlay, Sound, FilesZero, DirsOk, Image, Splice, Room, Layout, Synced, SameData, TailZero;
      hide Stale, OthersUnchanged, Filled;
      ghost var v, raws := View(), Raws();
      SoundParts(v);
      OverlayAt(DiskTable(sb, disk), raws, st.ino);
      if st.raw.kind != KIND_FILE {
        KeptSelf(v, st.ino);
        KeptUnchanged(v, v, st.ino);
        return Err(IsDir);
      }
      var n := WriteFileAt(st, off, buf);
      ghost var v1 := View();
      OverlayAt(DiskTable(sb, disk), Raws(), st.ino);
      FileWriteConsistent(v, v1, st.ino, off, buf, n.Ok?);
      SoundParts(v1);
      SlotsKept(sb, v.disk, disk);
      StaleAfterWrite(v, v1, st.ino, DiskTable(sb, disk));
      if n.Err? {
        return n;
      }
      FlushInode(st);
      SlotWriteKeeps(v, v1, disk, st.ino);
      return n;
    }

    // -------------------------------------------------------------------
    // Directories

    /** One turn of the parse loop: end of list, malformed entry, or an entry and where the next starts. */
    static method ParseAt(ghost bytes: seq<byte>, buf: array<byte>, i: nat) returns (s: Step)
      requires bytes == buf[..]
      ensures s == DecodeAt(bytes, i)
    {
      hide Word64, Word16, Utf8.Valid;
      if i + HEADER_SIZE > buf.Length {
        return End;
      }
      var hdr := buf[i..i + HEADER_SIZE];
      HeaderSlices(bytes, i);
      var len, code := Word16(hdr, 8), Word16(hdr, 10);
      if len == 0 {
        return End;
      }
      var nameStart := i + HEADER_SIZE;
      var nameEnd := nameStart + len;
      if nameEnd > buf.Length {
        return Bad;
      }
      var name := buf[nameStart..nameEnd];
      if !Utf8.Valid(name) {
        return Bad;
      }
      if code != KIND_FILE && code != KIND_DIR {
        return Bad;
      }
      var kind := if code == KIND_FILE then File else Dir;
      return Entry(DirEntry(name, kind, Word64(hdr, 0)), Align4(nameEnd));
    }

    static method ParseEntries(ghost bytes: seq<byte>, buf: array<byte>) returns (r: Result<seq<DirEntry>, FsError>)
      requires bytes == buf[..]
      ensures r == Decode(bytes)
    {
      hide DecodeAt;
      var entries: seq<DirEntry> := [];
      var i := 0;
      PrependNone(Decode(bytes));
      while true
        invariant 0 <= i
        invariant Decode(bytes) == Prepend(entries, DecodeFrom(bytes, i))
        decreases buf.Length - i
      {
        var s := ParseAt(bytes, buf, i);
        if s.Bad? {
          return Err(Io);
        }
        if s.End? {
          assert entries + [] == entries;
          return Ok(entries);
        }
        PrependStep(entries, bytes, i, s.e, s.next);
        entries := entries + [s.e];
        i := s.next;
      }
    }

    method DirReadEntries(raw: RawInode) returns (r: Result<seq<DirEntry>, FsError>)
      ensures Readable(raw, 0, raw.size) ==> raw.size <= MAX_FILE && r == Decode(Content(disk, raw))
      ensures !Readable(raw, 0, raw.size) ==> r.Err? && Fails(raw, 0, raw.size, r.error)
    {
      var buf := new byte[raw.size](_ => 0);
      var n := ReadFileAt(raw, 0, buf);
      if n.Err? {
        return Err(n.error);
      }
      ghost var bytes := buf[..];
      SizeReadable(raw);
      assert bytes == buf[..n.value];
      ContentRead(disk, raw, 0, raw.size, bytes);
      assert bytes == Content(disk, raw);
      r := ParseEntries(bytes, buf);
    }

    /** One record: header, name, and zero bytes up to a multiple of four. */
    static method SerializeEntry(e: DirEntry, pad: Padding) returns (rec: seq<byte>)
      ensures rec == EncodeEntry(e, pad)
    {
      hide EncodeHeader;
      rec := EncodeHeader(e, pad) + e.name;
      while |rec| % 4 != 0
        invariant HEADER_SIZE + |e.name| <= |rec| <= Align4(HEADER_SIZE + |e.name|)
        invariant rec == EncodeHeader(e, pad) + e.name + Zeros(|rec| - HEADER_SIZE - |e.name|)
        decreases Align4(HEADER_SIZE + |e.name|) - |rec|
      {
        rec := rec + [0];
      }
    }

    /** Serialize entries; the padding inside each header is whatever memory held. */
    static method Serialize(entries: seq<DirEntry>) returns (buf: seq<byte>, ghost pads: seq<Padding>)
      ensures |pads| == |entries| && buf == EncodeEntries(entries, pads)
    {
      hide EncodeEntry;
      buf, pads := [], [];
      for j := 0 to |entries|
        invariant |pads| == j && buf == EncodeEntries(entries[..j], pads)
      {
        var e := entries[j];
        var pad: Padding := *;
        var rec := SerializeEntry(e, pad);
        EncodeAppend(entries[..j], pads, e, pad);
        assert entries[..j + 1] == entries[..j] + [e];
        buf, pads := buf + rec, pads + [pad];
      }
      assert entries[..|entries|] == entries;
    }

    /** Release one direct block of a directory that is about to be rewritten. */
    method ReleaseBlock(st: InodeState, k: nat)
      requires CacheOk() && Handle(st) && SoundWithout(View(), st.ino) && k < DIRECT_BLOCKS && st.raw.direct[k] != 0
      modifies `bitmap, `disk, st`raw
      ensures CacheOk() && SoundWithout(View(), st.ino) && OthersKept(old(View()), View(), st.ino)
      ensures st.raw == old(st.raw).(direct := old(st.raw).direct[k := 0])
      ensures forall b :: Used(sb, bitmap, b) <==> Used(sb, old(bitmap), b) && b != old(st.raw).direct[k]
    {
      hide DiskTable, Overlay, SoundWithout, Layout, Synced, SameData, SameSlots, ClearBitAt, Used;
      ghost var v, raws := View(), Raws();
      OverlayAt(DiskTable(sb, disk), raws, st.ino);
      EmptyParts(v, st.ino, k);
      var f := FreeDataBlock(st.raw.direct[k]);
      UsedAfterClear(sb, v.bitmap, st.raw.direct[k]);
      ReleaseEffect(v, st.ino, k, disk);
      ViewKept(v, raws);
      PutRaw(st, st.raw.(direct := st.raw.direct[k := 0]));
    }

    /** Free any blocks from index `lo` up to the last one the old size needed. */
    method FreeExcess(st: InodeState, lo: nat)
      requires Mounted() && Handle(st)
      modifies `bitmap, `disk, st`raw
      ensures CacheOk() && SoundWithout(View(), st.ino) && OthersKept(old(View()), View(), st.ino)
      ensures Freed(sb, old(st.raw), old(bitmap), st.raw, bitmap, lo, DivCeil(old(st.raw.size), BLOCK_SIZE))
      ensures lo * BLOCK_SIZE >= old(st.raw.size) ==> bitmap == old(bitmap)
    {
      hide DiskTable, Overlay, SoundWithout, Sound, OthersKept, Freed, Used;
      ghost var v := View();
      KeptSelf(v, st.ino);
      OverlayAt(DiskTable(sb, disk), Raws(), st.ino);
      SoundDropsSize(v, st.ino);
      var i, hi := lo, Min(DivCeil(st.raw.size, BLOCK_SIZE), DIRECT_BLOCKS);
      assert lo * BLOCK_SIZE >= st.raw.size ==> hi <= lo;
      SizeCovered(v, st.ino);
      FreedNone(sb, st.raw, bitmap, lo, lo);
      if hi <= lo {
        FreedNone(sb, st.raw, bitmap, lo, hi);
      }
      while i < hi
        invariant lo <= i && CacheOk() && Handle(st) && SoundWithout(View(), st.ino) && OthersKept(v, View(), st.ino)
        invariant Freed(sb, old(st.raw), old(bitmap), st.raw, bitmap, lo, i)
        invariant hi <= lo ==> Freed(sb, old(st.raw), old(bitmap), st.raw, bitmap, lo, hi)
        invariant i <= Max(lo, hi)
        invariant (i == lo ==> bitmap == old(bitmap)) && (hi <= lo ==> i == lo)
      {
        ghost var raw1, bitmap1 := st.raw, bitmap;
        if st.raw.direct[i] != 0 {
          ghost var v1 := View();
          ReleaseBlock(st, i);
          OthersKeptTransitive(v, v1, View(), st.ino);
        } else {
          assert raw1.direct[i := 0] == raw1.direct;
        }
        FreedStep(sb, old(st.raw), old(bitmap), raw1, bitmap1, st.raw, bitmap, lo, i);
        i := i + 1;
      }
    }

    /** A directory about to be rewritten counts as empty until it is. */
    method ResetSize(st: InodeState, ghost v: Volume)
      requires CacheOk() && Handle(st) && SoundWithout(View(), st.ino) && Sound(v) && OthersKept(v, View(), st.ino)
      modifies st`raw
      ensures Mounted() && Handle(st) && OthersKept(v, View(), st.ino) && st.raw == old(st.raw).(size := 0)
    {
      hide DiskTable, Overlay, SoundWithout, Sound, OthersKept;
      ghost var v1 := View();
      OverlayAt(DiskTable(sb, disk), Raws(), st.ino);
      PutRaw(st, st.raw.(size := 0));
      EmptiedSound(v, v1, st.ino);
    }

    /** Make way for a listing of n bytes: free the blocks beyond it and count as empty. */
    method ClearListing(st: InodeState, n: nat)
      requires Mounted() && Handle(st)
      modifies `bitmap, `disk, st`raw
      ensures Mounted() && Handle(st) && OthersKept(old(View()), View(), st.ino)
      ensures st.raw == old(st.raw).(size := 0, direct := st.raw.direct)
      ensures var lo, hi := DivCeil(n, BLOCK_SIZE), DivCeil(old(st.raw.size), BLOCK_SIZE);
              forall k :: 0 <= k < DIRECT_BLOCKS ==>
                st.raw.direct[k] == if lo <= k < hi then 0 else old(st.raw).direct[k]
      ensures n <= MAX_FILE ==> (Room(st.raw, n, sb, bitmap) <==> Room(old(st.raw), n, sb, old(bitmap)))
      ensures n > MAX_FILE || !Room(old(st.raw), n, sb, old(bitmap)) ==>
                st.raw == old(st.raw).(size := 0) && bitmap == old(bitmap)
    {
      hide DiskTable, Overlay, SoundWithout, Sound, OthersKept, Room, DivCeil;
      ghost var v, raw := View(), st.raw;
      OverlayAt(DiskTable(sb, disk), Raws(), st.ino);
      FreeExcess(st, DivCeil(n, BLOCK_SIZE));
      RoomKept(v, st.ino, st.raw, bitmap, n);
      if n > MAX_FILE || !Room(raw, n, sb, v.bitmap) {
        NoneReleased(v, st.ino, st.raw, n);
      }
      ResetSize(st, v);
    }

    /** Write a serialized directory into an inode whose size was reset. */
    method WriteListing(st: InodeState, buf: seq<byte>) returns (r: Result<(), FsError>)
      requires Mounted() && Handle(st) && st.raw.size == 0
      modifies `bitmap, `disk, st`raw
      ensures Mounted() && OthersKept(old(View()), View(), st.ino)
      ensures st.raw == old(st.raw).(size := st.raw.size, direct := st.raw.direct)
      ensures r == Err(Unsupported) <==> |buf| > MAX_FILE
      ensures r == Err(NoSpace) <==> |buf| <= MAX_FILE && !Room(old(st.raw), |buf|, sb, old(bitmap))
      ensures r.Err? ==> r.error in {Unsupported, NoSpace} && st.raw.size == 0
      ensures r.Err? ==> (st.raw == old(st.raw) <==> Spotless(r.error, sb, old(bitmap)))
      ensures r == Err(Unsupported) ==> bitmap == old(bitmap)
      ensures r == Err(NoSpace) ==> |FreeBlocks(sb, bitmap)| == 0
      ensures r.Ok? ==> st.raw.size <= MAX_FILE && Content(disk, st.raw) == buf
      ensures r.Ok? ==> forall k :: 0 <= k < DIRECT_BLOCKS ==>
                (st.raw.direct[k] == 0 <==> old(st.raw).direct[k] == 0 && k >= DivCeil(|buf|, BLOCK_SIZE))
    {
      hide DiskTable, Overlay, Sound, OthersKept, Image, Room, Splice, FreeBlocks, DivCeil;
      ghost var disk0, raw0 := disk, st.raw;
      var n := WriteFileAt(st, 0, buf);
      if n.Err? {
        return Err(n.error);
      }
      SplicedPrefix(disk0, raw0, disk, st.raw, buf);
      OverlayAt(DiskTable(sb, disk), Raws(), st.ino);
      ghost var v := View();
      PutRaw(st, st.raw.(size := |buf|));
      assert View() == v;
      return Ok(());
    }

    method DirWriteEntries(st: InodeState, entries: seq<DirEntry>)
      returns (r: Result<(), FsError>, ghost pads: seq<Padding>)
      requires Mounted() && Handle(st)
      modifies `bitmap, `disk, st`raw
      ensures Mounted() && OthersKept(old(View()), View(), st.ino)
      ensures st.raw == old(st.raw).(size := st.raw.size, direct := st.raw.direct)
      ensures |pads| == |entries|
      ensures r == Err(Unsupported) <==> EncodedSize(entries) > MAX_FILE
      ensures r == Err(NoSpace) <==>
                EncodedSize(entries) <= MAX_FILE && !Room(old(st.raw), EncodedSize(entries), sb, old(bitmap))
      ensures r.Err? ==> r.error in {Unsupported, NoSpace} && st.raw.size == 0
      ensures r.Err? ==> (st.raw == old(st.raw) <==> old(st.raw.size) == 0 && Spotless(r.error, sb, old(bitmap)))
      ensures r == Err(Unsupported) ==> bitmap == old(bitmap)
      ensures r == Err(NoSpace) ==> |FreeBlocks(sb, bitmap)| == 0
      ensures r.Ok? ==> st.raw.size <= MAX_FILE && Content(disk, st.raw) == EncodeEntries(entries, pads)
      ensures r.Ok? ==> Refitted(old(st.raw), st.raw, EncodedSize(entries))
    {
      hide DiskTable, Overlay, SoundWithout, Sound, OthersKept, Image, Room, EncodeEntries, EncodedSize, Splice;
      hide DivCeil, FreeBlocks, CacheOk;
      var buf;
      buf, pads := Serialize(entries);
      ghost var v := View();
      ClearListing(st, |buf|);
      ghost var v2 := View();
      r := WriteListing(st, buf);
      OthersKeptTransitive(v, v2, View(), st.ino);
    }

    lemma ListingOk(st: InodeState)
      requires Valid() && Handle(st) && st.raw.kind == KIND_DIR
      ensures st.raw.size <= MAX_FILE && Decode(Content(disk, st.raw)).Ok?
      ensures LinksOk(View().table, Decode(Content(disk, st.raw)).value)
      ensures Readable(st.raw, 0, st.raw.size)
    {
      hide DiskTable, Overlay, Sound, FilesZero, LinksOk;
      var v := View();
      OverlayAt(DiskTable(sb, disk), Raws(), st.ino);
      HandleReadable(st, 0, st.raw.size);
      assert DirOk(v.disk, v.table, v.table[st.ino]);
    }

    /** The entries of a live directory. */
    ghost function Entries(st: InodeState): (es: seq<DirEntry>)
      requires Valid() && Handle(st) && st.raw.kind == KIND_DIR
      reads this, cache.Values, st
    {
      ListingOk(st);
      Decode(Content(disk, st.raw)).value
    }

    method Readdir(st: InodeState) returns (r: Result<seq<(seq<byte>, InodeKind)>, FsError>)
      requires Valid() && Handle(st)
      ensures st.raw.kind != KIND_DIR ==> r == Err(NotDir)
      ensures st.raw.kind == KIND_DIR ==>
                r.Ok? && |r.value| == |Entries(st)| && forall i :: 0 <= i < |r.value| ==>
                    r.value[i] == (Entries(st)[i].name, Entries(st)[i].kind)
    {
      hide Valid, Readable, Decode, Content;
      if st.raw.kind != KIND_DIR {
        return Err(NotDir);
      }
      ListingOk(st);
      var es := DirReadEntries(st.raw);
      var names := seq(|es.value|, i requires 0 <= i < |es.value| => (es.value[i].name, es.value[i].kind));
      return Ok(names);
    }

    /** A live directory entry leads to a used slot. */
    lemma EntryInUse(st: InodeState, j: nat)
      requires Valid() && Handle(st) && st.raw.kind == KIND_DIR && j < |Entries(st)|
      ensures 0 < Entries(st)[j].ino < sb.inodeCount
      ensures DiskTable(sb, disk)[Entries(st)[j].ino].kind == KindCode(Entries(st)[j].kind)
      ensures View().table[Entries(st)[j].ino].kind == KindCode(Entries(st)[j].kind)
    {
      hide DiskTable, Overlay, Sound, FilesZero, DirsOk, Decode, Content;
      ListingOk(st);
      var ino := Entries(st)[j].ino;
      OverlayAt(DiskTable(sb, disk), Raws(), ino);
    }

    method Lookup(st: InodeState, name: seq<byte>) returns (r: Result<InodeState, FsError>)
      requires Valid() && Handle(st)
      modifies `cache
      ensures Valid() && View() == old(View()) && Handle(st)
      ensures forall i :: i in old(cache) ==> i in cache && cache[i] == old(cache)[i]
      ensures r == Err(NotDir) <==> st.raw.kind != KIND_DIR
      ensures r.Err? ==> r.error in {NotDir, NotFound}
      ensures st.raw.kind == KIND_DIR ==> (r.Ok? <==> HasName(Entries(st), name))
      ensures forall i :: i in cache && i !in old(cache) ==> fresh(cache[i])
      ensures r.Ok? ==>
                && st.raw.kind == KIND_DIR && Handle(r.value)
                && exists k :: IsEntry(Entries(st), k, name, r.value.ino, r.value.raw.kind)
    {
      hide DiskTable, Overlay, Sound, FilesZero, DirsOk, Decode, Content, LinksOk, Readable;
      if st.raw.kind != KIND_DIR {
        return Err(NotDir);
      }
      ListingOk(st);
      var entries := DirReadEntries(st.raw);
      var es := entries.value;
      assert es == Entries(st);
      for j := 0 to |es|
        invariant cache == old(cache)
        invariant forall i :: 0 <= i < j ==> es[i].name != name
      {
        if es[j].name == name {
          EntryInUse(st, j);
          assert IsEntry(Entries(st), j, name, es[j].ino, KindCode(es[j].kind));
          ghost var v := View();
          SoundParts(v);
          r := GetOrLoad(es[j].ino);
          assert View() == v;
          OverlayAt(DiskTable(sb, disk), Raws(), es[j].ino);
          return r;
        }
      }
      return Err(NotFound);
    }

    /** The slot is on the device and unused. */
    ghost predicate UnusedSlot(ino: nat)
      reads `sb, `disk
    {
      SlotBlock(sb, ino) < |disk| && SlotInBlock(disk[SlotBlock(sb, ino)], ino).kind == KIND_UNUSED
    }

    /** The lowest unused slot from 1 on, by scanning the on-disk inode table. */
    method AllocInode() returns (r: Result<nat, FsError>)
      ensures r.Ok? ==> 0 < r.value < INODES_PER_BLOCK * sb.inodeTableBlocks && UnusedSlot(r.value)
      ensures r.Ok? ==> forall i :: 0 < i < r.value ==> SlotBlock(sb, i) < |disk| && !UnusedSlot(i)
      ensures r.Err? ==> r.error in {NoSpace, Io}
      ensures r == Err(NoSpace) ==>
                forall i :: 0 < i < INODES_PER_BLOCK * sb.inodeTableBlocks ==>
                  SlotBlock(sb, i) < |disk| && !UnusedSlot(i)
      ensures r == Err(Io) ==> sb.inodeTableStart + sb.inodeTableBlocks > |disk|
    {
      hide SlotInBlock;
      for blkOff := 0 to sb.inodeTableBlocks
        invariant forall i :: 0 < i < INODES_PER_BLOCK * blkOff ==> SlotBlock(sb, i) < |disk| && !UnusedSlot(i)
      {
        var buf := ReadBlock(sb.inodeTableStart + blkOff);
        if buf.Err? {
          return Err(buf.error);
        }
        for i := 0 to INODES_PER_BLOCK
          invariant forall j :: 0 < j < INODES_PER_BLOCK * blkOff + i ==> SlotBlock(sb, j) < |disk| && !UnusedSlot(j)
        {
          var ino := blkOff * INODES_PER_BLOCK + i;
          if ino != 0 {
            var raw := SlotInBlock(buf.value, ino);
            assert SlotBlock(sb, ino) == sb.inodeTableStart + blkOff;
            if raw.kind == KIND_UNUSED {
              return Ok(ino);
            }
          }
        }
      }
      return Err(NoSpace);
    }

    /** On a volume in order, the slots scanned are the table. */
    lemma SlotsOfTable()
      requires Layout(sb, |disk|)
      ensures forall i :: 0 <= i < sb.inodeCount ==> (UnusedSlot(i) <==> DiskTable(sb, disk)[i].kind == KIND_UNUSED)
    {
      hide SlotInBlock;
    }

    /** `alloc_inode` on a volume in order: the lowest unused inode of the table. */
    method FindSlot() returns (r: Result<nat, FsError>)
      requires Layout(sb, |disk|)
      ensures r.Ok? ==> 0 < r.value < |DiskTable(sb, disk)| && DiskTable(sb, disk)[r.value].kind == KIND_UNUSED
      ensures r.Ok? ==> forall i :: 0 < i < r.value ==> DiskTable(sb, disk)[i].kind != KIND_UNUSED
      ensures r.Err? ==> r.error == NoSpace
      ensures r.Err? ==> forall i :: 0 < i < |DiskTable(sb, disk)| ==> DiskTable(sb, disk)[i].kind != KIND_UNUSED
    {
      hide SlotInBlock, UnusedSlot;
      SlotsOfTable();
      r := AllocInode();
    }

    /** Claim an unused slot and write an empty inode of the given kind into it. */
    method AddInode(kind: InodeKind) returns (r: Result<u64, FsError>)
      requires Valid()
      modifies `disk
      ensures Valid()
      ensures r.Err? ==> r.error == NoSpace && disk == old(disk) && AllInUse(View().table)
      ensures r.Ok? ==>
                && 0 < r.value && FreshSlot(old(View()).table, r.value) && r.value !in cache
                && !AllInUse(old(View()).table)
      ensures r.Ok? ==> View() == WithInode(old(View()).(disk := disk), r.value, EmptyInode(kind))
      ensures Dirty() == old(Dirty())
      ensures r.Ok? ==>
                && SameData(sb, old(disk), disk) && r.value < |DiskTable(sb, disk)|
                && DiskTable(sb, disk)[r.value] == EmptyInode(kind)
    {
      hide DiskTable, Overlay, Sound, FilesZero, DirsOk, Layout, Synced, SameData, AllInUse, FreshSlot, Stale;
      ghost var v, raws := View(), Raws();
      SoundParts(v);
      var a := FindSlot();
      if a.Err? {
        ScanAllInUse(DiskTable(sb, disk), raws);
        return Err(a.error);
      }
      ScanFresh(DiskTable(sb, disk), raws, a.value);
      WriteInode(a.value, EmptyInode(kind));
      assert Raws() == raws;
      OverlaySlot(DiskTable(sb, v.disk), raws, a.value, EmptyInode(kind));
      NewInodeConsistent(v, disk, a.value, kind);
      OverlayAt(DiskTable(sb, v.disk), raws, a.value);
      StaleNew(v.table, DiskTable(sb, v.disk), a.value, EmptyInode(kind));
      return Ok(a.value);
    }

    static method NameTaken(entries: seq<DirEntry>, name: seq<byte>) returns (b: bool)
      ensures b <==> HasName(entries, name)
    {
      for j := 0 to |entries|
        invariant forall i :: 0 <= i < j ==> entries[i].name != name
      {
        if entries[j].name == name {
          return true;
        }
      }
      return false;
    }

    /** Append one entry to the listing of `st`, in memory and in its data blocks. */
    method RewriteListing(st: InodeState, es: seq<DirEntry>, e: DirEntry) returns (r: Result<(), FsError>)
      requires Valid() && Handle(st) && st.raw.kind == KIND_DIR && Utf8.Valid(e.name)
      requires es == Entries(st) && !HasName(es, e.name)
      requires 0 < e.ino < |DiskTable(sb, disk)| && e.ino !in cache
      requires DiskTable(sb, disk)[e.ino].kind == KindCode(e.kind)
      modifies `bitmap, `disk, st`raw
      ensures Valid() && Handle(st) && st.raw.kind == KIND_DIR
      ensures DiskTable(sb, disk) == DiskTable(sb, old(disk)) && OthersUnchanged(old(View()), View(), st.ino)
      ensures r == Err(Unsupported) <==> ListingSize(es, e.name) > MAX_FILE
      ensures r == Err(NoSpace) <==>
                ListingSize(es, e.name) <= MAX_FILE && !Room(old(st.raw), ListingSize(es, e.name), sb, old(bitmap))
      ensures r.Err? ==> r.error in {NoSpace, Unsupported} && Entries(st) == []
      ensures r.Err? ==> (st.raw == old(st.raw) <==> old(st.raw.size) == 0 && Spotless(r.error, sb, old(bitmap)))
      ensures r == Err(Unsupported) ==> bitmap == old(bitmap)
      ensures r == Err(NoSpace) ==> |FreeBlocks(sb, bitmap)| == 0
      ensures r.Ok? ==> Entries(st) == es + if e.name == [] then [] else [e]
      ensures r.Ok? ==> Refitted(old(st.raw), st.raw, ListingSize(es, e.name))
    {
      hide DiskTable, Overlay, Sound, FilesZero, DirsOk, Decode, EncodeEntries, EncodedSize, LinksOk, Image;
      hide OthersUnchanged, HasName, Room, Align4, Refitted, Spotless, FreeBlocks;
      ghost var v := View();
      SoundParts(v);
      ListingOk(st);
      OverlayAt(DiskTable(sb, disk), Raws(), e.ino);
      OverlayAt(DiskTable(sb, disk), Raws(), st.ino);
      ghost var pads;
      SizeAppend(es, e);
      r, pads := DirWriteEntries(st, es + [e]);
      SlotsKept(sb, v.disk, disk);
      OverlayAt(DiskTable(sb, disk), Raws(), st.ino);
      if r.Ok? {
        ListingAfterCreate(v.table, es, e, pads);
      } else {
        EmptyListing(v.table);
      }
      DirKeepsConsistent(v, View(), st.ino);
    }

    /** Write back the record of a directory whose listing was rewritten. */
    method FlushListing(st: InodeState, ghost v: Volume)
      requires Valid() && Handle(st) && st.raw.kind == KIND_DIR && OthersUnchanged(v, View(), st.ino)
      modifies `disk
      ensures Valid() && Handle(st) && OthersUnchanged(v, View(), st.ino)
      ensures st.ino < |DiskTable(sb, old(disk))| && View().table == old(View().table)
      ensures DiskTable(sb, disk) == DiskTable(sb, old(disk))[st.ino := st.raw]
      ensures Entries(st) == old(Entries(st))
    {
      hide DiskTable, Overlay, Sound, FilesZero, DirsOk, Decode, OthersUnchanged, SameData, Synced;
      ghost var v1 := View();
      ListingOk(st);
      OverlayAt(DiskTable(sb, disk), Raws(), st.ino);
      FlushInode(st);
      SlotWriteKeeps(v, v1, disk, st.ino);
      ListingOk(st);
    }

    /** Rewrite a listing with one more entry and write the directory's inode back. */
    method ListEntry(st: InodeState, es: seq<DirEntry>, e: DirEntry) returns (r: Result<(), FsError>)
      requires Valid() && Handle(st) && st.raw.kind == KIND_DIR && Utf8.Valid(e.name)
      requires es == Entries(st) && !HasName(es, e.name)
      requires 0 < e.ino < |DiskTable(sb, disk)| && e.ino !in cache
      requires DiskTable(sb, disk)[e.ino].kind == KindCode(e.kind)
      modifies `bitmap, `disk, st`raw
      ensures Valid() && Handle(st) && st.raw.kind == KIND_DIR
      ensures r == Err(Unsupported) <==> ListingSize(es, e.name) > MAX_FILE
      ensures r == Err(NoSpace) <==>
                ListingSize(es, e.name) <= MAX_FILE && !Room(old(st.raw), ListingSize(es, e.name), sb, old(bitmap))
      ensures r.Err? ==> r.error in {NoSpace, Unsupported} && Entries(st) == []
      ensures r.Ok? ==> Entries(st) == es + (if e.name == [] then [] else [e])
      ensures OthersUnchanged(old(View()), View(), st.ino)
      ensures r.Err? ==> DiskTable(sb, disk) == DiskTable(sb, old(disk))
      ensures r.Err? ==> Soiled(old(Dirty()), Dirty(), st.ino, Spoilt(r.error, old(st.raw), sb, old(bitmap)))
      ensures r == Err(Unsupported) ==> bitmap == old(bitmap)
      ensures r == Err(NoSpace) ==> |FreeBlocks(sb, bitmap)| == 0
      ensures r.Ok? ==> Refitted(old(st.raw), st.raw, ListingSize(es, e.name))
      ensures r.Ok? ==>
                st.ino < |DiskTable(sb, old(disk))| && DiskTable(sb, disk) == DiskTable(sb, old(disk))[st.ino := st.raw]
      ensures r.Ok? ==> Dirty() == old(Dirty()) - {st.ino}
    {
      hide DiskTable, Overlay, Consistent, Decode, Content, Stale, OthersUnchanged, HasName, Room, ListingSize;
      hide Spotless, Soiled, FreeBlocks, Refitted;
      ghost var v := View();
      r := RewriteListing(st, es, e);
      ghost var v1, slots := View(), DiskTable(sb, disk);
      OverlayAt(slots, old(Raws()), st.ino);
      OverlayAt(slots, Raws(), st.ino);
      StaleAfterWrite(v, v1, st.ino, slots);
      if r.Err? {
        return;
      }
      FlushListing(st, v);
    }

    /** Cache the state of an inode that was just written to disk. */
    method CacheNew(ino: nat, kind: InodeKind) returns (s: InodeState)
      requires CacheOk() && ino < |DiskTable(sb, disk)| && ino !in cache && DiskTable(sb, disk)[ino] == EmptyInode(kind)
      modifies `cache
      ensures CacheOk() && View() == old(View())
      ensures fresh(s) && s.ino == ino && s.raw == EmptyInode(kind) && cache == old(cache)[ino := s]
    {
      hide DiskTable, Overlay;
      ghost var raws := Raws();
      s := new InodeState(ino, EmptyInode(kind));
      cache := cache[ino := s];
      assert Raws() == raws[ino := EmptyInode(kind)];
      OverlayLoad(DiskTable(sb, disk), raws, ino);
    }

    /** Second half of `create`: rewrite the listing with one more entry, then flush and cache. */
    method AddEntry(st: InodeState, es: seq<DirEntry>, name: seq<byte>, kind: InodeKind, ino: u64)
      returns (r: Result<InodeState, FsError>)
      requires Valid() && Handle(st) && st.raw.kind == KIND_DIR && Utf8.Valid(name)
      requires es == Entries(st) && !HasName(es, name)
      requires 0 < ino < |DiskTable(sb, disk)| && ino !in cache && DiskTable(sb, disk)[ino] == EmptyInode(kind)
      modifies `bitmap, `disk, `cache, st`raw
      ensures Valid() && Handle(st) && st.raw.kind == KIND_DIR
      ensures forall i :: i in old(cache) ==> i in cache && cache[i] == old(cache)[i]
      ensures r == Err(Unsupported) <==> ListingSize(es, name) > MAX_FILE
      ensures r == Err(NoSpace) <==>
                ListingSize(es, name) <= MAX_FILE && !Room(old(st.raw), ListingSize(es, name), sb, old(bitmap))
      ensures r.Err? ==> r.error in {NoSpace, Unsupported} && Entries(st) == []
      ensures r.Ok? ==>
                && Handle(r.value) && fresh(r.value) && r.value.ino == ino && r.value.raw == EmptyInode(kind)
                && Entries(st) == es + (if name == [] then [] else [DirEntry(name, kind, ino)])
                && Dirty() == old(Dirty()) - {st.ino} && Refitted(old(st.raw), st.raw, ListingSize(es, name))
      ensures OthersUnchanged(old(View()), View(), st.ino)
      ensures r.Err? ==> Soiled(old(Dirty()), Dirty(), st.ino, Spoilt(r.error, old(st.raw), sb, old(bitmap)))
      ensures r == Err(Unsupported) ==> bitmap == old(bitmap)
      ensures r == Err(NoSpace) ==> |FreeBlocks(sb, bitmap)| == 0
      ensures forall i :: i in cache && i !in old(cache) ==> fresh(cache[i])
    {
      hide DiskTable, Overlay, Consistent, Decode, Content, Stale, OthersUnchanged, HasName, Room, ListingSize;
      hide Soiled, Spoilt, FreeBlocks, Refitted;
      var w := ListEntry(st, es, DirEntry(name, kind, ino));
      if w.Err? {
        return Err(w.error);
      }
      var s := CacheNew(ino, kind);
      return Ok(s);
    }

    /** `create` once the name is known to be free: claim an inode, then list it. */
    method CreateFresh(st: InodeState, es: seq<DirEntry>, name: seq<byte>, kind: InodeKind)
      returns (r: Result<InodeState, FsError>)
      requires Valid() && Handle(st) && st.raw.kind == KIND_DIR && Utf8.Valid(name)
      requires es == Entries(st) && !HasName(es, name)
      modifies `bitmap, `disk, `cache, st`raw
      ensures Valid() && Handle(st) && st.raw.kind == KIND_DIR
      ensures forall i :: i in old(cache) ==> i in cache && cache[i] == old(cache)[i]
      ensures r == Err(Unsupported) <==> !AllInUse(old(View()).table) && ListingSize(es, name) > MAX_FILE
      ensures r == Err(NoSpace) <==>
                AllInUse(old(View()).table) || (ListingSize(es, name) <= MAX_FILE
                && !Room(old(st.raw), ListingSize(es, name), sb, old(bitmap)))
      ensures r.Err? ==> r.error in {NoSpace, Unsupported}
      ensures r.Err? && AllInUse(old(View()).table) ==> View() == old(View())
      ensures r.Err? && !AllInUse(old(View()).table) ==>
                Entries(st) == [] && exists ino :: Claimed(old(View()), View(), st.ino, ino, kind)
      ensures r.Err? && AllInUse(old(View()).table) ==> Dirty() == old(Dirty())
      ensures r.Err? && !AllInUse(old(View()).table) ==>
                && Soiled(old(Dirty()), Dirty(), st.ino, Spoilt(r.error, old(st.raw), sb, old(bitmap)))
                && (if r.error == NoSpace then |FreeBlocks(sb, bitmap)| == 0 else bitmap == old(bitmap))
      ensures r.Ok? ==> Refitted(old(st.raw), st.raw, ListingSize(es, name))
      ensures forall i :: i in cache && i !in old(cache) ==> fresh(cache[i])
      ensures r.Ok? ==>
                && Handle(r.value) && fresh(r.value) && r.value.raw == EmptyInode(kind)
                && FreshSlot(old(View()).table, r.value.ino) && r.value.ino != st.ino
                && Entries(st) == es + (if name == [] then [] else [DirEntry(name, kind, r.value.ino)])
                && TwoChanged(old(View()), View(), st.ino, r.value.ino)
                && Dirty() == old(Dirty()) - {st.ino}
    {
      hide DiskTable, Overlay, Sound, FilesZero, DirsOk, Decode, Content, LinksOk, SameData, AllInUse, FreshSlot;
      hide TwoChanged, OthersUnchanged, Stale, HasName, Room, ListingSize, Soiled, Spoilt, FreeBlocks, Refitted;
      ghost var v := View();
      SoundParts(v);
      OverlayAt(DiskTable(sb, disk), Raws(), st.ino);
      var a := AddInode(kind);
      if a.Err? {
        return Err(a.error);
      }
      SameDataContent(v, disk, st.ino);
      ghost var v1 := View();
      r := AddEntry(st, es, name, kind, a.value);
      CreateChanges(v, v1, View(), st.ino, a.value, EmptyInode(kind));
      ClaimedNow(v, v1, View(), st.ino, a.value, kind);
    }

    /** Create an entry in directory `st`. */
    method Create(st: InodeState, name: seq<byte>, kind: InodeKind) returns (r: Result<InodeState, FsError>)
      requires Valid() && Handle(st) && Utf8.Valid(name)
      modifies `bitmap, `disk, `cache, st`raw
      ensures Valid() && Handle(st) && st.raw.kind == old(st.raw.kind)
      ensures forall i :: i in old(cache) ==> i in cache && cache[i] == old(cache)[i]
      ensures r == Err(NotDir) <==> st.raw.kind != KIND_DIR
      ensures st.raw.kind == KIND_DIR ==> (r == Err(Exists) <==> HasName(old(Entries(st)), name))
      ensures r.Err? ==> r.error in {NotDir, Exists, NoSpace, Unsupported}
      ensures r == Err(Unsupported) <==>
                && st.raw.kind == KIND_DIR && !HasName(old(Entries(st)), name) && !AllInUse(old(View()).table)
                && ListingSize(old(Entries(st)), name) > MAX_FILE
      ensures r == Err(NoSpace) <==>
                && st.raw.kind == KIND_DIR && !HasName(old(Entries(st)), name)
                && (AllInUse(old(View()).table) ||
                    (ListingSize(old(Entries(st)), name) <= MAX_FILE
                        && !Room(old(st.raw), ListingSize(old(Entries(st)), name), sb, old(bitmap))))
      // A failure before the listing is rewritten changes nothing; a failure while rewriting it empties
      // it and leaves the inode claimed for the new entry in use without an entry.
      ensures r.Err? && (r.error in {NotDir, Exists} || AllInUse(old(View()).table)) ==> View() == old(View())
      ensures r.Err? && r.error !in {NotDir, Exists} && !AllInUse(old(View()).table) ==>
                st.raw.kind == KIND_DIR && Entries(st) == [] && exists ino ::
                    Claimed(old(View()), View(), st.ino, ino, kind)
      ensures r.Err? && (r.error in {NotDir, Exists} || AllInUse(old(View()).table)) ==> Dirty() == old(Dirty())
      ensures r.Err? && r.error !in {NotDir, Exists} && !AllInUse(old(View()).table) ==>
                && Soiled(old(Dirty()), Dirty(), st.ino, Spoilt(r.error, old(st.raw), sb, old(bitmap)))
                && (if r.error == NoSpace then |FreeBlocks(sb, bitmap)| == 0 else bitmap == old(bitmap))
      ensures forall i :: i in cache && i !in old(cache) ==> fresh(cache[i])
      ensures r.Ok? ==> Refitted(old(st.raw), st.raw, ListingSize(old(Entries(st)), name))
      ensures r.Ok? ==>
                && Handle(r.value) && fresh(r.value) && r.value.raw == EmptyInode(kind)
                && FreshSlot(old(View()).table, r.value.ino) && r.value.ino != st.ino
                && Entries(st) == old(Entries(st)) + (if name == [] then [] else [DirEntry(name, kind, r.value.ino)])
                && TwoChanged(old(View()), View(), st.ino, r.value.ino)
                && Dirty() == old(Dirty()) - {st.ino}
    {
      hide DiskTable, Overlay, Sound, FilesZero, DirsOk, Decode, Content, LinksOk, Readable, SameData, AllInUse;
      hide FreshSlot, TwoChanged, OthersKept, Stale, HasName, Room, ListingSize, Soiled, Spoilt, FreeBlocks, Refitted;
      if st.raw.kind != KIND_DIR {
        return Err(NotDir);
      }
      ListingOk(st);
      var entries := DirReadEntries(st.raw);
      var exists_ := NameTaken(entries.value, name);
      if exists_ {
        return Err(Exists);
      }
      r := CreateFresh(st, entries.value, name, kind);
    }
  }

  // ---------------------------------------------------------------------
  // Mounting

  /** The bitmap region of a device. */
  ghost function DiskBitmap(sb: Superblock, disk: Disk): (s: seq<byte>)
    requires sb.bitmapStart + sb.bitmapBlocks <= |disk|
    ensures |s| == sb.bitmapBlocks * BLOCK_SIZE
  {
    seq(sb.bitmapBlocks * BLOCK_SIZE, i requires 0 <= i < sb.bitmapBlocks * BLOCK_SIZE =>
      disk[sb.bitmapStart + i / BLOCK_SIZE][i % BLOCK_SIZE])
  }

  ghost predicate SuperOk(disk: Disk) {
    && |disk| > 0
    && DecodeSuperblock(disk[0]).magic == POND_MAGIC && DecodeSuperblock(disk[0]).version == POND_VERSION
  }

  /** The bitmap and the root inode lie on the device. */
  predicate Mountable(sb: Superblock, blocks: nat) {
    (sb.bitmapBlocks == 0 || sb.bitmapStart + sb.bitmapBlocks <= blocks) && ROOT_INO < sb.inodeCount
        && SlotBlock(sb, ROOT_INO) < blocks
  }

  /** Everything on the device, read as a volume. */
  ghost function DiskVolume(disk: Disk): (v: Volume)
    requires |disk| > 0
  {
    var sb := DecodeSuperblock(disk[0]);
    Volume(sb, disk, if sb.bitmapStart + sb.bitmapBlocks <= |disk| then DiskBitmap(sb, disk)
        else [], DiskTable(sb, disk))
  }

  /** An intact PondFS image with a root directory. */
  ghost predicate Intact(disk: Disk) {
    SuperOk(disk) && Consistent(DiskVolume(disk)) && DiskVolume(disk).table[ROOT_INO].kind == KIND_DIR
  }

  lemma BitmapRead(sb: Superblock, disk: Disk, bitmap: seq<byte>)
    requires BitmapSynced(sb, disk, bitmap)
    ensures DiskBitmap(sb, disk) == bitmap
  {
  }

  lemma NoneStale(table: seq<RawInode>, slots: seq<RawInode>)
    requires |table| == |slots|
    ensures Stale(table, slots) == {} <==> table == slots
  {
    if Stale(table, slots) == {} {
      assert forall i :: 0 <= i < |table| ==> i !in Stale(table, slots) && table[i] == slots[i];
    }
  }

  /** When no inode is newer in memory than on disk, the device alone is the volume. */
  lemma CleanIntact(fs: PondFs)
    requires fs.Valid() && fs.Dirty() == {}
    ensures |fs.disk| > 0 && DiskVolume(fs.disk) == fs.View() && |fs.View().table| > ROOT_INO
    ensures fs.View().table[ROOT_INO].kind == KIND_DIR ==> Intact(fs.disk)
  {
    SoundParts(fs.View());
    hide Sound, FilesZero, DirsOk, DiskTable, Overlay, Stale, DiskBitmap, BitmapSynced, DecodeSuperblock;
    BitmapRead(fs.sb, fs.disk, fs.bitmap);
    NoneStale(fs.View().table, DiskTable(fs.sb, fs.disk));
  }

  method LoadBitmap(sb: Superblock, disk: Disk) returns (r: Result<seq<byte>, FsError>)
    ensures r.Ok? <==> sb.bitmapBlocks == 0 || sb.bitmapStart + sb.bitmapBlocks <= |disk|
    ensures r.Err? ==> r.error == Io
    ensures r.Ok? && sb.bitmapStart + sb.bitmapBlocks <= |disk| ==> r.value == DiskBitmap(sb, disk)
  {
    var bitmap: seq<byte> := [];
    for i := 0 to sb.bitmapBlocks
      invariant i > 0 ==> sb.bitmapStart + i <= |disk|
      invariant |bitmap| == i * BLOCK_SIZE
      invariant forall j :: 0 <= j < |bitmap| ==> bitmap[j] == disk[sb.bitmapStart + j / BLOCK_SIZE][j % BLOCK_SIZE]
    {
      if sb.bitmapStart + i >= |disk| {
        return Err(Io);
      }
      bitmap := bitmap + disk[sb.bitmapStart + i];
    }
    return Ok(bitmap);
  }

  lemma OverlayNone(slots: seq<RawInode>)
    ensures Overlay(slots, map[]) == slots
  {
  }

  method Mount(disk: Disk) returns (r: Result<(PondFs, InodeState), FsError>)
    ensures !SuperOk(disk) ==> r == Err(Io)
    ensures r.Ok? <==> SuperOk(disk) && Mountable(DecodeSuperblock(disk[0]), |disk|)
    ensures r.Ok? ==>
              && fresh(r.value.0) && fresh(r.value.1) && r.value.1.ino == ROOT_INO
              && r.value.0.disk == disk && r.value.0.Handle(r.value.1) && r.value.0.cache.Keys == {ROOT_INO}
    ensures Intact(disk) ==>
              r.Ok? && r.value.0.Valid() && r.value.0.View() == DiskVolume(disk) && r.value.1.raw.kind == KIND_DIR
  {
    hide DiskTable, Overlay, FilesZero, DirsOk, Ownership, AllCovered, Synced, DiskBitmap;
    if |disk| == 0 {
      return Err(Io);
    }
    var sb := DecodeSuperblock(disk[0]);
    if sb.magic != POND_MAGIC {
      return Err(Io);
    }
    if sb.version != POND_VERSION {
      return Err(Io);
    }
    var bitmap := LoadBitmap(sb, disk);
    if bitmap.Err? {
      return Err(bitmap.error);
    }
    var fs := new PondFs(sb, disk, bitmap.value);
    if ROOT_INO < sb.inodeCount && Layout(sb, |disk|) {
      SlotInRange(sb, |disk|, ROOT_INO);
    }
    var root := fs.LoadInode(ROOT_INO);
    if root.Err? {
      return Err(root.error);
    }
    fs.cache := fs.cache[ROOT_INO := root.value];
    ghost var slots := DiskTable(sb, disk);
    assert fs.Raws() == map[ROOT_INO := slots[ROOT_INO]];
    OverlayLoad(slots, map[], ROOT_INO);
    OverlayNone(slots);
    return Ok((fs, root.value));
  }
}
