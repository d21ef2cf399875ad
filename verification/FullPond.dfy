/** A full volume on which `create` empties a directory (kernel/src/fs/pondfs/mod.rs). */
module FullPond {
  import opened Prelude
  import opened Bits
  import opened PondLayout
  import opened PondDir
  import opened PondVolume
  import F = PondFs
  import Utf8

  /** Four blocks: superblock, bitmap, inode table, and one data block. */
  function Super(): (sb: Superblock) {
    Superblock(POND_MAGIC, POND_VERSION, 4, 32, 1, 1, 2, 1, 3)
  }

  function Bitmap(): (bitmap: Block) {
    [1] + Zeros(BLOCK_SIZE - 1)
  }

  function Letters(n: nat): (s: seq<byte>)
    ensures |s| == n
  {
    seq(n, _ => 0x61)
  }

  /** A name whose entry takes a whole block. */
  function LongName(): (s: seq<byte>) {
    Letters(BLOCK_SIZE - HEADER_SIZE)
  }

  function LongEntry(): (e: DirEntry) {
    DirEntry(LongName(), File, 2)
  }

  function Root(): (raw: RawInode) {
    RawInode(KIND_DIR, 0, 1, BLOCK_SIZE, 0, 0, NO_BLOCKS[0 := 3])
  }

  lemma SizeOne()
    ensures EncodedSize([LongEntry()]) == BLOCK_SIZE
  {
    assert [LongEntry()][1..] == [];
  }

  /** The root directory holds one empty file, whose entry fills the only data block. */
  function Device(): (disk: Disk)
    ensures |disk| == 4
  {
    SizeOne();
    [EncodeSuperblock(Super()), Bitmap(), PutSlot(PutSlot(Zeros(BLOCK_SIZE), 1, Root()), 2, F.EmptyInode(File)),
     EncodeEntries([LongEntry()], [Zeros(4)])]
  }

  function Table(): (table: seq<RawInode>)
    ensures |table| == 32
  {
    seq(32, _ => DEFAULT_INODE)[1 := Root()][2 := F.EmptyInode(File)]
  }

  lemma {:induction false} ManyValid(n: nat)
    ensures Utf8.Valid(Letters(n))
  {
    if n > 0 {
      var s := Letters(n);
      ManyValid(n - 1);
      assert s[Utf8.SequenceLength(s)..] == Letters(n - 1);
    }
  }

  lemma EmptyTable(disk: Disk)
    requires |disk| == 4 && disk[2] == Zeros(BLOCK_SIZE)
    ensures DiskTable(Super(), disk) == seq(32, _ => DEFAULT_INODE)
  {
    hide DecodeInode;
    ZeroInode();
    forall i: nat | i < 32 ensures Slot(Super(), disk, i) == DEFAULT_INODE {
      assert disk[2][SlotOffset(i)..SlotOffset(i) + INODE_SIZE] == Zeros(INODE_SIZE);
    }
  }

  lemma DeviceTable()
    ensures DiskTable(Super(), Device()) == Table()
  {
    hide PutSlot, DiskTable, EncodeSuperblock, EncodeEntries;
    var empty: Disk := Device()[2 := Zeros(BLOCK_SIZE)];
    var table: seq<RawInode> := seq(32, _ => DEFAULT_INODE);
    EmptyTable(empty);
    var one := empty[2 := PutSlot(empty[2], 1, Root())];
    WriteSlot(Super(), empty, 1, Root());
    WriteSlot(Super(), one, 2, F.EmptyInode(File));
    assert Device() == one[2 := PutSlot(one[2], 2, F.EmptyInode(File))];
  }

  lemma OneUsed(b: nat)
    ensures Used(Super(), Bitmap(), b) <==> b == 3
  {
    if b == 3 {
      assert Bitmap()[0] == 1;
      assert Bit(1, 0);
    }
  }

  lemma OneNamed(ino: nat, k: nat, b: nat)
    ensures Names(Table(), ino, k, b) <==> ino == 1 && k == 0 && b == 3
  {
  }

  lemma TableOwned()
    ensures Ownership(Super(), Bitmap(), Table()) && AllCovered(Table())
  {
    hide Names, Used;
    forall ino: nat, k: nat, b: nat ensures Names(Table(), ino, k, b) <==> ino == 1 && k == 0 && b == 3 {
      OneNamed(ino, k, b);
    }
    forall b: nat ensures Used(Super(), Bitmap(), b) <==> b == 3 {
      OneUsed(b);
    }
    assert Names(Table(), 1, 0, 3);
  }

  lemma RootBytes(disk: Disk)
    requires |disk| == 4
    ensures Content(disk, Root()) == disk[3]
  {
    forall i | 0 <= i < BLOCK_SIZE ensures Content(disk, Root())[i] == disk[3][i] {
      assert Image(disk, Root())[i] == ByteAt(disk, Root(), i);
    }
  }

  lemma LastBlock()
    ensures Device()[3] == EncodeEntries([LongEntry()], [Zeros(4)])
  {
    hide EncodeEntries, PutSlot, EncodeSuperblock;
  }

  lemma RootListing()
    ensures Content(Device(), Root()) == Device()[3] && Decode(Content(Device(), Root())) == Ok([LongEntry()])
  {
    hide EncodeEntries, Device, Decode, Content, Letters;
    RootBytes(Device());
    LastBlock();
    ManyValid(BLOCK_SIZE - HEADER_SIZE);
    DirRoundTrip([LongEntry()], [Zeros(4)]);
  }

  lemma DeviceParts()
    ensures Device()[0] == EncodeSuperblock(Super()) && Device()[1] == Bitmap()
    ensures BitmapSynced(Super(), Device(), Bitmap()) && F.DiskBitmap(Super(), Device()) == Bitmap()
  {
    hide EncodeEntries, PutSlot, EncodeSuperblock;
  }

  lemma DeviceSound()
    ensures Sound(Volume(Super(), Device(), Bitmap(), Table()))
  {
    hide Device, Ownership, AllCovered, BitmapSynced, Table, EncodeSuperblock, DecodeSuperblock;
    DeviceParts();
    SuperblockRoundTrip(Super());
    TableOwned();
  }

  lemma DeviceFiles()
    ensures FilesZero(Device(), Table())
  {
    hide Device, TailZero;
    F.EmptyFile(Device(), File);
  }

  lemma OnlyRoot(ino: nat)
    requires ino < 32 && Table()[ino].kind == KIND_DIR
    ensures Table()[ino] == Root()
  {
  }

  lemma RootLinks()
    ensures LinksOk(Table(), [LongEntry()])
  {
    hide Letters, Utf8.Valid;
    ManyValid(BLOCK_SIZE - HEADER_SIZE);
  }

  lemma DeviceDirs()
    ensures AllCovered(Table()) && DirsOk(Device(), Table())
  {
    hide Device, Content, Decode, Ownership, Table, LinksOk, AllCovered;
    TableOwned();
    RootListing();
    RootLinks();
    forall ino: nat | ino < 32 && Table()[ino].kind == KIND_DIR ensures Table()[ino] == Root() {
      OnlyRoot(ino);
    }
  }

  lemma DeviceIntact()
    ensures F.Intact(Device()) && F.DiskVolume(Device()) == Volume(Super(), Device(), Bitmap(), Table())
  {
    hide EncodeSuperblock, DecodeSuperblock, DiskTable, F.DiskBitmap, Device, Sound, FilesZero, DirsOk, AllCovered;
    DeviceParts();
    SuperblockRoundTrip(Super());
    DeviceTable();
    DeviceSound();
    DeviceFiles();
    DeviceDirs();
  }

  /** There is a free inode but no free block, and one more entry needs one. */
  lemma NoRoom()
    ensures !F.AllInUse(Table()) && F.FreeBlocks(Super(), Bitmap()) == {}
    ensures var n := F.ListingSize([LongEntry()], [0x62]); n <= MAX_FILE && !F.Room(Root(), n, Super(), Bitmap())
  {
    SizeOne();
    forall b: nat ensures b !in F.FreeBlocks(Super(), Bitmap()) {
      OneUsed(b);
    }
    assert F.ListingSize([LongEntry()], [0x62]) == BLOCK_SIZE + 20;
    assert F.Missing(Root(), 2) == {1};
    assert Table()[3].kind == KIND_UNUSED;
  }

  /** Mount the device, list the root directory, fail to create a file in it, and list it again. */
  method CreateEmpties()
    returns (before: seq<(seq<byte>, InodeKind)>, failure: FsError, after: seq<(seq<byte>, InodeKind)>)
    ensures before == [(LongName(), File)] && failure == NoSpace && after == []
  {
    hide F.Intact, Consistent, Device, Table, F.AllInUse, F.FreeBlocks, F.Room, F.ListingSize, DiskTable, F.Overlay;
    hide Decode, F.Claimed;
    DeviceIntact();
    RootListing();
    NoRoom();
    var m := F.Mount(Device());
    var fs, root := m.value.0, m.value.1;
    F.OverlayAt(DiskTable(fs.sb, fs.disk), fs.Raws(), root.ino);
    assert root.raw == Root();
    var l := fs.Readdir(root);
    before := l.value;
    assert Utf8.Valid([0x62]);
    var c := fs.Create(root, [0x62], File);
    failure := c.error;
    l := fs.Readdir(root);
    after := l.value;
  }
}
