/** The host-side formatter (tools/mkpondfs/src/main.rs). A failed assertion or an exhausted
    allocator ends the program; methods then return `ok == false`. */
module Mkpondfs {
  import opened Prelude
  import opened Bits
  import opened PondLayout
  import opened PondDir
  import opened PondVolume
  import opened PondSteps
  import F = PondFs
  import Utf8

  /** A source directory tree: regular files and directories. */
  datatype Node = FileNode(name: seq<byte>, bytes: seq<byte>) | DirNode(name: seq<byte>, children: seq<Node>)

  function KindOf(n: Node): (k: InodeKind) {
    if n.FileNode? then File else Dir
  }

  /** Names inside each directory are distinct, non-empty UTF-8 strings. */
  ghost predicate WellNamed(n: Node) {
    n.DirNode? ==>
      && (forall i :: 0 <= i < |n.children| ==>
             WellNamed(n.children[i]) && n.children[i].name != [] && Utf8.Valid(n.children[i].name))
      && (forall i, j :: 0 <= i < j < |n.children| ==> n.children[i].name != n.children[j].name)
  }

  // ---------------------------------------------------------------------
  // What it means for an image to hold a tree

  /** Entry e describes node n. */
  ghost predicate Describes(e: DirEntry, n: Node) {
    e.name == n.name && e.kind == KindOf(n)
  }

  /** A listing with one entry per child, in order, each leading to an inode that holds it. */
  ghost predicate HoldsChildren(disk: Disk, table: seq<RawInode>, r: Result<seq<DirEntry>, FsError>,
                                children: seq<Node>, own: set<nat>)
    decreases children
  {
    && r.Ok? && |r.value| == |children|
    && forall i :: 0 <= i < |children| ==>
         Describes(r.value[i], children[i]) && Holds(disk, table, r.value[i].ino, children[i], own)
  }

  /** Inode `ino` holds node n, using only inodes of `own`. */
  ghost predicate Holds(disk: Disk, table: seq<RawInode>, ino: nat, n: Node, own: set<nat>)
    decreases n
  {
    && ino in own && 0 < ino < |table| && table[ino].size <= MAX_FILE
    && table[ino].kind == KindCode(KindOf(n))
    && match n
       case FileNode(_, bytes) => Content(disk, table[ino]) == bytes
       case DirNode(_, children) => HoldsChildren(disk, table, Decode(Content(disk, table[ino])), children, own)
  }

  /** Records and bytes of the inodes in s are the same in both volumes. */
  ghost predicate KeptOn(disk: Disk, table: seq<RawInode>, disk': Disk, table': seq<RawInode>, s: set<nat>) {
    && |table| == |table'|
    && forall i :: i in s && i < |table| ==> table'[i] == table[i] && Image(disk', table[i]) == Image(disk, table[i])
  }

  /** A held tree stays held as long as its own inodes are kept. */
  lemma {:induction false} HoldsFrame(disk: Disk, table: seq<RawInode>, disk': Disk, table': seq<RawInode>, ino: nat,
                                      n: Node, own: set<nat>, own': set<nat>)
    requires Holds(disk, table, ino, n, own) && KeptOn(disk, table, disk', table', own) && own <= own'
    ensures Holds(disk', table', ino, n, own')
    decreases n
  {
    F.SameImageSameFile(disk, table[ino], disk', table'[ino]);
    if n.DirNode? {
      var es := Decode(Content(disk, table[ino])).value;
      forall i | 0 <= i < |n.children| ensures Holds(disk', table', es[i].ino, n.children[i], own') {
        HoldsFrame(disk, table, disk', table', es[i].ino, n.children[i], own, own');
      }
    }
  }

  // ---------------------------------------------------------------------
  // One file body

  function Padded(s: seq<byte>): (r: seq<byte>)
    requires |s| <= MAX_FILE
    ensures |r| == MAX_FILE
  {
    s + Zeros(MAX_FILE - |s|)
  }

  function BlockOf(chunk: seq<byte>): (b: Block)
    requires |chunk| <= BLOCK_SIZE
  {
    chunk + Zeros(BLOCK_SIZE - |chunk|)
  }

  /** Allocating block nb for index k and filling it with a chunk. */
  lemma StoreChunk(w: Volume, ino: nat, k: nat, nb: u64, chunk: seq<byte>)
    requires AttachPre(w, ino, k, nb) && |chunk| <= BLOCK_SIZE
    ensures nb < |w.disk|
    ensures
      var disk := w.disk[nb := BlockOf(chunk)];
      var w' := Attached(w, ino, k, nb, disk);
      && Owned(w') && OthersKept(w, w', ino)
      && Image(disk, w'.table[ino]) == Splice(Image(w.disk, w.table[ino]), k * BLOCK_SIZE, chunk)
  {
    var disk1 := w.disk[nb := Zeros(BLOCK_SIZE)];
    var w1 := Attached(w, ino, k, nb, disk1);
    AttachOwned(w, ino, k, nb, disk1);
    assert w1.table[ino].direct[k] == nb;
    hide Owned, OthersKept, Image;
    ChunkOwned(w1, ino, k, 0, chunk);
    ChunkImage(w1, ino, k, 0, chunk);
    assert Splice(Zeros(BLOCK_SIZE), 0, chunk) == BlockOf(chunk);
    assert ChunkDisk(disk1, nb, 0, chunk) == w.disk[nb := BlockOf(chunk)];
    OthersKeptTransitive(w, w1, w1.(disk := ChunkDisk(disk1, nb, 0, chunk)), ino);
  }

  lemma PaddedGrows(bytes: seq<byte>, i: nat, chunk: seq<byte>)
    requires i * BLOCK_SIZE <= |bytes| <= MAX_FILE && i < DIRECT_BLOCKS
    requires chunk == bytes[i * BLOCK_SIZE..Min((i + 1) * BLOCK_SIZE, |bytes|)]
    ensures Splice(Padded(bytes[..i * BLOCK_SIZE]), i * BLOCK_SIZE, chunk) ==
              Padded(bytes[..Min((i + 1) * BLOCK_SIZE, |bytes|)])
  {
  }

  ghost predicate Blank(raw: RawInode) {
    raw.size == 0 && forall k :: 0 <= k < DIRECT_BLOCKS ==> raw.direct[k] == 0
  }

  lemma BlankImage(disk: Disk, raw: RawInode)
    requires Blank(raw)
    ensures Image(disk, raw) == Padded([])
  {
  }

  lemma PaddedContent(disk: Disk, raw: RawInode, bytes: seq<byte>)
    requires |bytes| <= MAX_FILE && raw.size == |bytes| && Image(disk, raw) == Padded(bytes)
    ensures Content(disk, raw) == bytes && TailZero(disk, raw)
  {
    forall i | raw.size <= i < MAX_FILE ensures ByteAt(disk, raw, i) == 0 {
      assert ByteAt(disk, raw, i) == Image(disk, raw)[i];
    }
  }

  /** Filling in kind, link count and size once all blocks are in place. */
  lemma FileRecord(w: Volume, ino: nat, raw: RawInode, v: Volume)
    requires Owned(w) && ino < |w.table| && OthersKept(v, w, ino)
    requires raw.direct == w.table[ino].direct && raw.kind != KIND_UNUSED
    requires raw.size <= MAX_FILE
    requires forall k :: 0 <= k < DIRECT_BLOCKS && k * BLOCK_SIZE < raw.size ==> raw.direct[k] != 0
    ensures Owned(WithInode(w, ino, raw)) && OthersKept(v, WithInode(w, ino, raw), ino)
    ensures Image(w.disk, raw) == Image(w.disk, w.table[ino])
  {
    PutRecordOwned(w, ino, raw);
    OthersKeptTransitive(v, w, WithInode(w, ino, raw), ino);
    assert forall i :: 0 <= i < MAX_FILE ==> ByteAt(w.disk, raw, i) == ByteAt(w.disk, w.table[ino], i);
  }

  // ---------------------------------------------------------------------
  // Drafts: volumes under construction

  /** Inodes in `done` are finished; the others, reserved or not, have no content yet. */
  ghost predicate Draft(v: Volume, done: set<nat>) {
    && Owned(v)
    && (forall i :: i in done ==> i < |v.table| && v.table[i].kind != KIND_UNUSED)
    && (forall i :: 0 <= i < |v.table| && i !in done ==> Blank(v.table[i]))
    && (forall i :: i in done && v.table[i].kind == KIND_FILE ==> TailZero(v.disk, v.table[i]))
    && (forall i :: i in done && v.table[i].kind == KIND_DIR ==>
           v.table[i].size <= MAX_FILE && DirOk(v.disk, v.table, v.table[i]))
  }

  predicate Reserved(v: Volume, i: nat) {
    i < |v.table| && v.table[i].kind != KIND_UNUSED
  }

  /** Reserved inodes outside `except` keep their record and bytes. */
  ghost predicate KeptReserved(v: Volume, v': Volume, except: set<nat>) {
    && v.sb == v'.sb && |v.table| == |v'.table|
    && forall j: nat :: Reserved(v, j) && j !in except ==>
         v'.table[j] == v.table[j] && Image(v'.disk, v.table[j]) == Image(v.disk, v.table[j])
  }

  /** `done'` is `done` plus every newly reserved inode except the pending ones. */
  ghost predicate Grown(v: Volume, v': Volume, done: set<nat>, done': set<nat>, pend: set<nat>) {
    forall i: nat :: i in done' <==> i in done || (!Reserved(v, i) && Reserved(v', i) && i !in pend)
  }

  /** Reserving an unused inode. */
  lemma ReserveDraft(v: Volume, ino: nat, done: set<nat>, kind: InodeKind)
    requires Draft(v, done) && ino < |v.table| && v.table[ino].kind == KIND_UNUSED
    ensures
      var v' := WithInode(v, ino, v.table[ino].(kind := KindCode(kind), linkCount := 1));
      && Draft(v', done) && KeptReserved(v, v', {}) && Grown(v, v', done, done, {ino}) && Blank(v'.table[ino])
  {
    var raw := v.table[ino].(kind := KindCode(kind), linkCount := 1);
    var v' := WithInode(v, ino, raw);
    assert Blank(v.table[ino]);
    PutRecordOwned(v, ino, raw);
    forall i | i in done && v.table[i].kind == KIND_DIR ensures DirOk(v'.disk, v'.table, v'.table[i]) {
      assert DirOk(v.disk, v.table, v.table[i]);
      F.SameKindsLinks(v.table, v'.table, Decode(Content(v.disk, v.table[i])).value);
    }
  }

  /** Finishing a reserved inode. */
  lemma FinishDraft(v: Volume, v': Volume, ino: nat, done: set<nat>)
    requires Draft(v, done) && ino < |v.table| && ino !in done && v.table[ino].kind != KIND_UNUSED
    requires Owned(v') && OthersKept(v, v', ino) && v'.table[ino].kind == v.table[ino].kind
    requires v'.table[ino].kind == KIND_FILE ==> TailZero(v'.disk, v'.table[ino])
    requires v'.table[ino].size <= MAX_FILE
    requires v'.table[ino].kind == KIND_DIR ==> DirOk(v'.disk, v.table, v'.table[ino])
    ensures Draft(v', done + {ino}) && KeptReserved(v, v', {ino})
  {
    var done' := done + {ino};
    if v'.table[ino].kind == KIND_DIR {
      F.SameKindsLinks(v.table, v'.table, Decode(Content(v'.disk, v'.table[ino])).value);
    }
    forall i | i in done
      ensures v'.table[i] == v.table[i]
      ensures v.table[i].kind == KIND_FILE ==> TailZero(v'.disk, v'.table[i])
      ensures v.table[i].kind == KIND_DIR ==> v.table[i].size <= MAX_FILE && DirOk(v'.disk, v'.table, v'.table[i])
    {
      assert Covered(v.table[i]);
      F.SameImageSameFile(v.disk, v.table[i], v'.disk, v'.table[i]);
      if v.table[i].kind == KIND_DIR {
        assert DirOk(v.disk, v.table, v.table[i]);
        F.SameKindsLinks(v.table, v'.table, Decode(Content(v.disk, v.table[i])).value);
      }
    }
  }

  // ---------------------------------------------------------------------
  // Room

  /** Unused inode numbers. */
  ghost function Spare(table: seq<RawInode>): (s: set<nat>) {
    set i: nat | 0 < i < |table| && table[i].kind == KIND_UNUSED
  }

  function SumInodes(cs: seq<Node>): (k: nat)
    decreases cs, 1
  {
    if cs == [] then 0 else SumInodes(cs[..|cs| - 1]) + 1 + InodesIn(cs[|cs| - 1])
  }

  /** Inodes needed below a node. */
  function InodesIn(n: Node): (k: nat)
    decreases n, 0
  {
    if n.FileNode? then 0 else SumInodes(n.children)
  }

  /** Bytes of a directory listing. */
  function ListingSize(cs: seq<Node>): (k: nat) {
    if cs == [] then 0 else ListingSize(cs[..|cs| - 1]) + Align4(HEADER_SIZE + |cs[|cs| - 1].name|)
  }

  function DirBlocks(cs: seq<Node>): (k: nat)
    decreases cs, 1
  {
    if cs == [] then 0 else DirBlocks(cs[..|cs| - 1]) + if cs[|cs| - 1].DirNode? then BlocksIn(cs[|cs| - 1]) else 0
  }

  /** Data blocks a node needs: its own body or listing, and everything below it. */
  function BlocksIn(n: Node): (k: nat)
    decreases n, 0
  {
    if n.FileNode? then DivCeil(|n.bytes|, BLOCK_SIZE)
    else DirBlocks(n.children) + FileBlocks(n.children) + DivCeil(ListingSize(n.children), BLOCK_SIZE)
  }

  function FileBlocks(cs: seq<Node>): (k: nat)
    decreases cs, 1
  {
    if cs == [] then 0 else FileBlocks(cs[..|cs| - 1]) + if cs[|cs| - 1].FileNode? then BlocksIn(cs[|cs| - 1]) else 0
  }

  /** No body or listing exceeds twelve blocks. */
  ghost predicate Small(n: Node) {
    if n.FileNode? then |n.bytes| <= MAX_FILE
    else ListingSize(n.children) <= MAX_FILE && forall i :: 0 <= i < |n.children| ==> Small(n.children[i])
  }

  /** The tree fits into this many unused inodes and free blocks. */
  ghost predicate TreeFits(n: Node, inodes: nat, blocks: nat) {
    Small(n) && InodesIn(n) <= inodes && BlocksIn(n) <= blocks
  }

  /** The cost of a prefix of children never exceeds the whole. */
  lemma {:induction false} CostGrows(cs: seq<Node>, j: nat)
    requires j <= |cs|
    ensures SumInodes(cs[..j]) <= SumInodes(cs) && DirBlocks(cs[..j]) <= DirBlocks(cs)
    ensures FileBlocks(cs[..j]) <= FileBlocks(cs)
    decreases |cs|
  {
    if j == |cs| {
      assert cs[..j] == cs;
    } else {
      CostGrows(cs[..|cs| - 1], j);
      assert cs[..|cs| - 1][..j] == cs[..j];
    }
  }

  lemma {:induction false} CostStep(cs: seq<Node>, j: nat)
    requires j < |cs|
    ensures SumInodes(cs[..j + 1]) == SumInodes(cs[..j]) + 1 + InodesIn(cs[j])
    ensures DirBlocks(cs[..j + 1]) == DirBlocks(cs[..j]) + if cs[j].DirNode? then BlocksIn(cs[j]) else 0
    ensures FileBlocks(cs[..j + 1]) == FileBlocks(cs[..j]) + if cs[j].FileNode? then BlocksIn(cs[j]) else 0
  {
    assert cs[..j + 1][..j] == cs[..j] && cs[..j + 1][j] == cs[j];
  }

  lemma OneInodeLess(table: seq<RawInode>, ino: nat, raw: RawInode)
    requires 0 < ino < |table| && table[ino].kind == KIND_UNUSED && raw.kind != KIND_UNUSED
    ensures |Spare(table)| > 0 && |Spare(table[ino := raw])| == |Spare(table)| - 1
  {
    assert ino in Spare(table);
    assert Spare(table[ino := raw]) == Spare(table) - {ino};
  }

  lemma SpareKept(table: seq<RawInode>, table': seq<RawInode>)
    requires |table| == |table'|
    requires forall i :: 0 <= i < |table| ==> (table[i].kind == KIND_UNUSED <==> table'[i].kind == KIND_UNUSED)
    ensures Spare(table') == Spare(table)
  {
  }

  lemma SameReserved(v: Volume, v': Volume, ino: nat)
    requires OthersKept(v, v', ino) && ino < |v.table|
    requires v.table[ino].kind != KIND_UNUSED && v'.table[ino].kind != KIND_UNUSED
    ensures forall i: nat :: Reserved(v', i) <==> Reserved(v, i)
    ensures Spare(v'.table) == Spare(v.table)
  {
    SpareKept(v.table, v'.table);
  }

  // ---------------------------------------------------------------------
  // One directory, child by child

  /** Entries that may be written into a directory: named apart, leading to reserved inodes. */
  ghost predicate EntriesReady(table: seq<RawInode>, es: seq<DirEntry>) {
    && (forall j :: 0 <= j < |es| ==>
           && 0 < es[j].ino < |table| && table[es[j].ino].kind == KindCode(es[j].kind) && es[j].name != []
           && Utf8.Valid(es[j].name))
    && (forall i, j :: 0 <= i < j < |es| ==> es[i].name != es[j].name)
  }

  lemma {:induction false} ListingReady(table: seq<RawInode>, es: seq<DirEntry>, pads: seq<Padding>)
    requires |pads| == |es| && |EncodeEntries(es, pads)| <= MAX_FILE
    requires forall j :: 0 <= j < |es| ==> es[j].name != [] && Utf8.Valid(es[j].name)
    ensures Decode(EncodeEntries(es, pads)) == Ok(es)
    ensures forall j :: 0 <= j < |es| ==> Storable(es[j])
  {
    NamesFit(es);
    DirRoundTrip(es, pads);
  }

  lemma ReadyLinks(table: seq<RawInode>, es: seq<DirEntry>)
    requires EntriesReady(table, es) && forall j :: 0 <= j < |es| ==> Storable(es[j])
    ensures LinksOk(table, es)
  {
  }

  lemma RelabelDirectory(v: Volume, v1: Volume, ino: nat)
    requires Owned(v1) && ino < |v1.table| && OthersKept(v, v1, ino) && v1.table[ino].size <= MAX_FILE
    ensures var v2 := WithInode(v1, ino, v1.table[ino].(kind := KIND_DIR));
            && Owned(v2) && OthersKept(v, v2, ino)
            && Content(v2.disk, v2.table[ino]) == Content(v1.disk, v1.table[ino])
  {
    var raw := v1.table[ino].(kind := KIND_DIR);
    assert Covered(v1.table[ino]);
    PutRecordOwned(v1, ino, raw);
    OthersKeptTransitive(v, v1, WithInode(v1, ino, raw), ino);
    assert forall i :: 0 <= i < MAX_FILE ==> ByteAt(v1.disk, raw, i) == ByteAt(v1.disk, v1.table[ino], i);
    assert Image(v1.disk, raw) == Image(v1.disk, v1.table[ino]);
  }

  lemma ReservedNotDone(v: Volume, v1: Volume, done: set<nat>, ino: nat)
    requires Draft(v, done) && !Reserved(v, ino)
    ensures ino !in done
  {
  }

  /** A freshly reserved directory that was visited counts as newly done. */
  lemma VisitedChild(v: Volume, v1: Volume, v2: Volume, done: set<nat>, done': set<nat>, ino: nat)
    requires KeptReserved(v, v1, {}) && Grown(v, v1, done, done, {ino}) && !Reserved(v, ino) && Reserved(v1, ino)
    requires KeptReserved(v1, v2, {ino}) && Grown(v1, v2, done, done' - {ino}, {}) && ino in done' && Reserved(v2, ino)
    ensures KeptReserved(v, v2, {}) && Grown(v, v2, done, done', {}) && done <= done'
  {
    forall j: nat | Reserved(v, j)
      ensures v2.table[j] == v.table[j] && Image(v2.disk, v.table[j]) == Image(v.disk, v.table[j])
    {
      assert Reserved(v1, j) && j != ino;
    }
    forall i: nat ensures i in done' <==> i in done || (!Reserved(v, i) && Reserved(v2, i)) {
      if i != ino {
        assert Reserved(v1, i) ==> Reserved(v2, i);
        assert Reserved(v, i) ==> Reserved(v1, i);
        assert i in done' <==> i in done' - {ino};
        assert i in done <==> i in done || (!Reserved(v, i) && Reserved(v1, i) && i !in {ino});
      }
    }
  }

  /** Inodes of the files from child k on. */
  ghost function PendingFrom(children: seq<Node>, es: seq<DirEntry>, k: nat): (s: set<nat>) {
    set i: nat | k <= i < |children| && i < |es| && children[i].FileNode? :: es[i].ino as nat
  }

  ghost predicate EntriesFor(v: Volume, children: seq<Node>, es: seq<DirEntry>) {
    && |es| == |children|
    && (forall i :: 0 <= i < |es| ==>
         Describes(es[i], children[i]) && 0 < es[i].ino < |v.table| && v.table[es[i].ino].kind == KindCode(es[i].kind))
    && (forall i, j :: 0 <= i < j < |es| ==> es[i].ino != es[j].ino)
  }

  /** After the first pass: every child has an inode that was unused before, directories are complete. */
  ghost predicate Placed(v0: Volume, v: Volume, children: seq<Node>, es: seq<DirEntry>, done: set<nat>,
      pend: set<nat>) {
    && EntriesFor(v, children, es)
    && (forall i :: 0 <= i < |es| ==> !Reserved(v0, es[i].ino))
    && (forall i :: 0 <= i < |es| && children[i].DirNode? ==> Holds(v.disk, v.table, es[i].ino, children[i], done))
    && pend == PendingFrom(children, es, 0)
  }

  /** During the second pass: directories, and files before child k, are held. */
  ghost predicate FilesWritten(v: Volume, children: seq<Node>, es: seq<DirEntry>, k: nat, done: set<nat>) {
    && EntriesFor(v, children, es)
    && (forall i :: 0 <= i < |es| && (children[i].DirNode? || i < k) ==>
           Holds(v.disk, v.table, es[i].ino, children[i], done))
    && (forall i :: k <= i < |es| && children[i].FileNode? ==> es[i].ino !in done)
  }

  /** The inodes and blocks the first j children take are gone. */
  ghost predicate Counts(v0: Volume, v: Volume, children: seq<Node>, j: nat) {
    && j <= |children| && v.sb == v0.sb && (forall i :: 0 <= i < j && children[i].DirNode? ==> Small(children[i]))
    && |Spare(v.table)| == |Spare(v0.table)| - SumInodes(children[..j])
    && |F.FreeBlocks(v.sb, v.bitmap)| == |F.FreeBlocks(v0.sb, v0.bitmap)| - DirBlocks(children[..j])
  }

  /** State of the first pass after j children. */
  ghost predicate FirstPass(v0: Volume, v: Volume, children: seq<Node>, j: nat, es: seq<DirEntry>, done: set<nat>,
                            done': set<nat>, pend: set<nat>) {
    && Counts(v0, v, children, j)
    && Draft(v, done') && KeptReserved(v0, v, {}) && Grown(v0, v, done, done', pend)
    && Placed(v0, v, children[..j], es, done', pend)
  }

  /** There is an inode for the child and, if it is a directory, all that is below it fits. */
  ghost predicate ChildFits(v: Volume, child: Node) {
    && (child.DirNode? ==> Small(child)) && 1 + InodesIn(child) <= |Spare(v.table)|
    && (child.DirNode? ==> BlocksIn(child) <= |F.FreeBlocks(v.sb, v.bitmap)|)
  }

  lemma PlacedNone(v: Volume, done: set<nat>)
    requires Draft(v, done)
    ensures Placed(v, v, [], [], done, {}) && KeptReserved(v, v, {}) && Grown(v, v, done, done, {})
  {
  }

  lemma PassNone(v: Volume, children: seq<Node>, done: set<nat>)
    requires Draft(v, done)
    ensures FirstPass(v, v, children, 0, [], done, done, {})
  {
    hide Draft, Placed, KeptReserved, Grown, Spare, F.FreeBlocks;
    PlacedNone(v, done);
    assert children[..0] == [];
  }

  lemma KeptReservedTransitive(v0: Volume, v1: Volume, v2: Volume, except: set<nat>)
    requires KeptReserved(v0, v1, except) && KeptReserved(v1, v2, except)
    ensures KeptReserved(v0, v2, except)
  {
    forall j: nat | Reserved(v0, j) && j !in except
      ensures v2.table[j] == v0.table[j] && Image(v2.disk, v0.table[j]) == Image(v0.disk, v0.table[j])
    {
      assert Reserved(v1, j);
    }
  }

  lemma GrownTransitive(v0: Volume, v1: Volume, v2: Volume, d0: set<nat>, d1: set<nat>, d2: set<nat>, p1: set<nat>,
                        p2: set<nat>)
    requires Grown(v0, v1, d0, d1, p1) && Grown(v1, v2, d1, d2, p2)
    requires KeptReserved(v0, v1, {}) && KeptReserved(v1, v2, {})
    requires forall i :: i in p1 ==> Reserved(v1, i)
    requires forall i :: i in p2 ==> !Reserved(v1, i)
    ensures Grown(v0, v2, d0, d2, p1 + p2)
  {
    forall i: nat ensures i in d2 <==> i in d0 || (!Reserved(v0, i) && Reserved(v2, i) && i !in p1 + p2) {
      if Reserved(v0, i) {
        assert Reserved(v1, i);
      }
      if Reserved(v1, i) {
        assert Reserved(v2, i);
      }
    }
  }

  lemma PendingGrows(children: seq<Node>, es: seq<DirEntry>, child: Node, e: DirEntry)
    requires |children| == |es|
    ensures PendingFrom(children + [child], es + [e], 0) ==
              PendingFrom(children, es, 0) + if child.FileNode? then {e.ino as nat} else {}
  {
    var cs, fs := children + [child], es + [e];
    var more := if child.FileNode? then {e.ino as nat} else {};
    forall x | x in PendingFrom(cs, fs, 0) ensures x in PendingFrom(children, es, 0) + more {
      var i: nat :| i < |cs| && cs[i].FileNode? && fs[i].ino as nat == x;
      if i < |es| {
        assert children[i].FileNode? && es[i].ino as nat == x;
      }
    }
    forall x | x in PendingFrom(children, es, 0) + more ensures x in PendingFrom(cs, fs, 0) {
      if x in PendingFrom(children, es, 0) {
        var i: nat :| i < |children| && children[i].FileNode? && es[i].ino as nat == x;
        assert cs[i].FileNode? && fs[i].ino as nat == x;
      } else {
        assert cs[|es|].FileNode? && fs[|es|].ino as nat == x;
      }
    }
  }

  lemma PlacedAppend(v0: Volume, v: Volume, children: seq<Node>, es: seq<DirEntry>, done: set<nat>, child: Node,
                     e: DirEntry)
    requires Placed(v0, v, children, es, done, PendingFrom(children, es, 0))
    requires Describes(e, child) && !Reserved(v0, e.ino) && 0 < e.ino < |v.table|
    requires v.table[e.ino].kind == KindCode(e.kind)
    requires forall i :: 0 <= i < |es| ==> es[i].ino != e.ino
    requires child.DirNode? ==> Holds(v.disk, v.table, e.ino, child, done)
    ensures Placed(v0, v, children + [child], es + [e], done,
              PendingFrom(children, es, 0) + if child.FileNode? then {e.ino as nat} else {})
  {
    hide Holds;
    PendingGrows(children, es, child, e);
  }

  /** Trees held by finished inodes survive any step that keeps finished inodes. */
  lemma HoldsLater(v: Volume, v': Volume, except: set<nat>, ino: nat, n: Node, done: set<nat>, done': set<nat>)
    requires Holds(v.disk, v.table, ino, n, done) && KeptReserved(v, v', except) && done <= done'
    requires (forall i :: i in done ==> Reserved(v, i)) && done !! except
    ensures Holds(v'.disk, v'.table, ino, n, done')
  {
    HoldsFrame(v.disk, v.table, v'.disk, v'.table, ino, n, done, done');
  }

  /** Entries placed earlier keep their inodes when another child is added. */
  lemma PlacedBefore(v1: Volume, v2: Volume, children: seq<Node>, es: seq<DirEntry>, d1: set<nat>, d2: set<nat>,
                     e: DirEntry)
    requires EntriesFor(v1, children, es) && KeptReserved(v1, v2, {}) && d1 <= d2 && !Reserved(v1, e.ino)
    requires forall i :: i in d1 ==> Reserved(v1, i)
    requires forall i :: 0 <= i < |es| && children[i].DirNode? ==> Holds(v1.disk, v1.table, es[i].ino, children[i], d1)
    ensures EntriesFor(v2, children, es)
    ensures forall i :: 0 <= i < |es| ==> es[i].ino != e.ino
    ensures forall i :: 0 <= i < |es| && children[i].DirNode? ==> Holds(v2.disk, v2.table, es[i].ino, children[i], d2)
  {
    forall i | 0 <= i < |es|
      ensures v2.table[es[i].ino] == v1.table[es[i].ino] && es[i].ino != e.ino
      ensures children[i].DirNode? ==> Holds(v2.disk, v2.table, es[i].ino, children[i], d2)
    {
      assert Reserved(v1, es[i].ino);
      if children[i].DirNode? {
        HoldsLater(v1, v2, {}, es[i].ino, children[i], d1, d2);
      }
    }
  }

  lemma PlacedStep(v0: Volume, v1: Volume, v2: Volume, children: seq<Node>, es: seq<DirEntry>, d0: set<nat>,
                   d1: set<nat>, d2: set<nat>, pend: set<nat>, child: Node, e: DirEntry)
    requires Placed(v0, v1, children, es, d1, pend) && Draft(v1, d1)
    requires KeptReserved(v0, v1, {}) && KeptReserved(v1, v2, {}) && d1 <= d2
    requires Describes(e, child) && !Reserved(v1, e.ino) && 0 < e.ino < |v2.table|
    requires v2.table[e.ino].kind == KindCode(e.kind)
    requires child.DirNode? ==> Holds(v2.disk, v2.table, e.ino, child, d2)
    requires Grown(v0, v1, d0, d1, pend) && Grown(v1, v2, d1, d2, if child.FileNode? then {e.ino as nat} else {})
    ensures
      var more := if child.FileNode? then {e.ino as nat} else {};
      && Placed(v0, v2, children + [child], es + [e], d2, pend + more)
      && Grown(v0, v2, d0, d2, pend + more) && KeptReserved(v0, v2, {})
  {
    var more := if child.FileNode? then {e.ino as nat} else {};
    KeptReservedTransitive(v0, v1, v2, {});
    forall i | i in pend ensures Reserved(v1, i) {
      var k: nat :| k < |children| && children[k].FileNode? && es[k].ino as nat == i;
    }
    GrownTransitive(v0, v1, v2, d0, d1, d2, pend, more);
    assert !Reserved(v0, e.ino);
    hide Grown, Draft;
    PlacedBefore(v1, v2, children, es, d1, d2, e);
    hide Holds, KeptReserved;
    PlacedAppend(v0, v2, children, es, d2, child, e);
  }

  lemma PassStep(v0: Volume, v1: Volume, v2: Volume, children: seq<Node>, j: nat, es: seq<DirEntry>, done: set<nat>,
                 d1: set<nat>, d2: set<nat>, pend: set<nat>, e: DirEntry)
    requires j < |children| && FirstPass(v0, v1, children, j, es, done, d1, pend) && ChildFits(v1, children[j])
    requires v2.sb == v1.sb && Draft(v2, d2) && KeptReserved(v1, v2, {}) && d1 <= d2
    requires |Spare(v2.table)| == |Spare(v1.table)| - 1 - InodesIn(children[j])
    requires |F.FreeBlocks(v2.sb, v2.bitmap)| ==
        |F.FreeBlocks(v1.sb, v1.bitmap)| - if children[j].DirNode? then BlocksIn(children[j]) else 0
    requires Describes(e, children[j]) && !Reserved(v1, e.ino) && 0 < e.ino < |v2.table|
    requires v2.table[e.ino].kind == KindCode(e.kind)
    requires children[j].DirNode? ==> Holds(v2.disk, v2.table, e.ino, children[j], d2)
    requires Grown(v1, v2, d1, d2, if children[j].FileNode? then {e.ino as nat} else {})
    ensures FirstPass(v0, v2, children, j + 1, es + [e], done, d2,
              pend + if children[j].FileNode? then {e.ino as nat} else {})
  {
    hide Draft, Placed, KeptReserved, Grown, Spare, F.FreeBlocks, Holds, Small, Describes, Reserved, InodesIn, BlocksIn;
    CostStep(children, j);
    PlacedStep(v0, v1, v2, children[..j], es, done, d1, d2, pend, children[j], e);
    assert children[..j + 1] == children[..j] + [children[j]];
  }

  lemma PassStops(v0: Volume, v: Volume, children: seq<Node>, j: nat)
    requires j < |children| && Counts(v0, v, children, j) && !ChildFits(v, children[j])
    ensures !(&& (forall i :: 0 <= i < |children| && children[i].DirNode? ==> Small(children[i]))
              && SumInodes(children) <= |Spare(v0.table)| && DirBlocks(children) <= |F.FreeBlocks(v0.sb, v0.bitmap)|)
  {
    hide Spare, F.FreeBlocks, Small, InodesIn, BlocksIn;
    CostStep(children, j);
    CostGrows(children, j + 1);
  }

  lemma PassAll(v0: Volume, v: Volume, children: seq<Node>, es: seq<DirEntry>, done: set<nat>, done': set<nat>,
                pend: set<nat>)
    requires FirstPass(v0, v, children, |children|, es, done, done', pend)
    ensures Counts(v0, v, children, |children|) && SumInodes(children[..|children|]) == SumInodes(children)
    ensures DirBlocks(children[..|children|]) == DirBlocks(children)
    ensures Draft(v, done') && KeptReserved(v0, v, {}) && Grown(v0, v, done, done', pend)
    ensures Placed(v0, v, children, es, done', pend)
  {
    hide Draft, Placed, KeptReserved, Grown, Spare, F.FreeBlocks;
    assert children[..|children|] == children;
  }

  lemma OwnedLayout(v: Volume)
    requires Owned(v)
    ensures Layout(v.sb, |v.disk|) && |v.bitmap| == v.sb.bitmapBlocks * BLOCK_SIZE
  {
  }

  /** The directory being filled is neither finished nor one of its own files. */
  lemma PlacedOutside(v: Volume, v1: Volume, children: seq<Node>, es: seq<DirEntry>, done: set<nat>, d1: set<nat>,
                      pend: set<nat>, dirIno: nat)
    requires Draft(v, done) && Grown(v, v1, done, d1, pend) && KeptReserved(v, v1, {})
    requires Placed(v, v1, children, es, d1, pend) && Reserved(v, dirIno) && dirIno !in done
    ensures forall i :: i in pend ==> !Reserved(v, i) && Reserved(v1, i)
    ensures dirIno !in d1 && dirIno !in pend && pend !! d1 && |v1.table| == |v.table|
    ensures v1.table[dirIno] == v.table[dirIno]
  {
    forall i | i in pend ensures !Reserved(v, i) && Reserved(v1, i) && i !in d1 {
      var k: nat :| k < |children| && children[k].FileNode? && es[k].ino as nat == i;
    }
  }

  lemma StartFiles(v0: Volume, v: Volume, children: seq<Node>, es: seq<DirEntry>, done: set<nat>, pend: set<nat>)
    requires Placed(v0, v, children, es, done, pend) && pend !! done
    ensures FilesWritten(v, children, es, 0, done) && KeptReserved(v, v, pend) && pend == PendingFrom(children, es, 0)
  {
    forall i | 0 <= i < |es| && children[i].FileNode? ensures es[i].ino !in done {
      assert es[i].ino as nat in pend;
    }
  }

  lemma EntryNamed(v: Volume, children: seq<Node>, es: seq<DirEntry>, k: nat, done: set<nat>)
    requires FilesWritten(v, children, es, k, done) && k < |children|
    ensures |es| == |children| && es[k].name == children[k].name
    ensures forall i :: 0 <= i < |es| ==> Describes(es[i], children[i])
  {
  }

  lemma UniqueName(n: Node, es: seq<DirEntry>, pos: nat, k: nat)
    requires n.DirNode? && WellNamed(n) && |es| == |n.children| && pos < |es| && k < |es|
    requires forall i :: 0 <= i < |es| ==> Describes(es[i], n.children[i])
    requires es[pos].name == n.children[k].name
    ensures pos == k
  {
    assert Describes(es[pos], n.children[pos]);
  }

  lemma PendingNext(children: seq<Node>, es: seq<DirEntry>, k: nat)
    requires |es| == |children| && k < |children|
    requires forall i, j :: 0 <= i < j < |es| ==> es[i].ino != es[j].ino
    ensures PendingFrom(children, es, k + 1) ==
              PendingFrom(children, es, k) - if children[k].FileNode? then {es[k].ino as nat} else {}
  {
    var gone := if children[k].FileNode? then {es[k].ino as nat} else {};
    forall x | x in PendingFrom(children, es, k) - gone ensures x in PendingFrom(children, es, k + 1) {
      var i: nat :| k <= i < |children| && children[i].FileNode? && es[i].ino as nat == x;
    }
  }

  lemma NextFile(v: Volume, children: seq<Node>, es: seq<DirEntry>, k: nat, done: set<nat>)
    requires FilesWritten(v, children, es, k, done) && k < |children| && children[k].FileNode?
    ensures |es| == |children| && 0 < es[k].ino < |v.table| && v.table[es[k].ino].kind == KIND_FILE
    ensures es[k].ino !in done
    ensures es[k].ino as nat in PendingFrom(children, es, k)
    ensures PendingFrom(children, es, k + 1) == PendingFrom(children, es, k) - {es[k].ino as nat}
  {
    assert Describes(es[k], children[k]);
    PendingNext(children, es, k);
  }

  lemma NonePending(children: seq<Node>, es: seq<DirEntry>)
    ensures PendingFrom(children, es, |children|) == {}
  {
  }

  lemma SkipDirectory(v: Volume, children: seq<Node>, es: seq<DirEntry>, k: nat, done: set<nat>)
    requires FilesWritten(v, children, es, k, done) && k < |children| && children[k].DirNode?
    ensures FilesWritten(v, children, es, k + 1, done)
    ensures PendingFrom(children, es, k + 1) == PendingFrom(children, es, k)
  {
    PendingNext(children, es, k);
  }

  lemma KeptReservedWiden(v: Volume, v': Volume, a: set<nat>, b: set<nat>)
    requires KeptReserved(v, v', a) && a <= b
    ensures KeptReserved(v, v', b)
  {
  }

  lemma FileStep(v: Volume, v1: Volume, v2: Volume, children: seq<Node>, es: seq<DirEntry>, k: nat, done: set<nat>,
                 pend: set<nat>)
    requires FilesWritten(v1, children, es, k, done) && k < |children| && children[k].FileNode? && Draft(v1, done)
    requires es[k].ino !in done && es[k].ino as nat in pend
    requires KeptReserved(v, v1, pend) && KeptReserved(v1, v2, {es[k].ino as nat})
    requires Holds(v2.disk, v2.table, es[k].ino, children[k], done + {es[k].ino as nat})
    ensures FilesWritten(v2, children, es, k + 1, done + {es[k].ino as nat}) && KeptReserved(v, v2, pend)
  {
    var ino := es[k].ino as nat;
    forall i | 0 <= i < |es| && i != k
      ensures v2.table[es[i].ino] == v1.table[es[i].ino] && es[i].ino as nat != ino
      ensures children[i].DirNode? || i < k ==> Holds(v2.disk, v2.table, es[i].ino, children[i], done + {ino})
    {
      assert Reserved(v1, es[i].ino);
      if children[i].DirNode? || i < k {
        HoldsLater(v1, v2, {ino}, es[i].ino, children[i], done, done + {ino});
      }
    }
    KeptReservedWiden(v1, v2, {ino}, pend);
    KeptReservedTransitive(v, v1, v2, pend);
  }

  lemma FilesKeepDirectory(v1: Volume, v2: Volume, pend: set<nat>, dirIno: nat)
    requires KeptReserved(v1, v2, pend) && Reserved(v1, dirIno) && dirIno !in pend
    ensures |v2.table| == |v1.table| && v2.table[dirIno] == v1.table[dirIno]
  {
  }

  lemma ReadyEntries(v: Volume, n: Node, es: seq<DirEntry>, done: set<nat>)
    requires n.DirNode? && WellNamed(n) && FilesWritten(v, n.children, es, |n.children|, done)
    ensures EntriesReady(v.table, es)
  {
    forall i | 0 <= i < |es| ensures es[i].name == n.children[i].name && es[i].name != [] && Utf8.Valid(es[i].name) {
      assert Describes(es[i], n.children[i]);
    }
  }

  lemma {:induction false} ListingBytes(cs: seq<Node>, es: seq<DirEntry>)
    requires |es| == |cs| && forall i :: 0 <= i < |es| ==> Describes(es[i], cs[i])
    ensures EncodedSize(es) == ListingSize(cs)
  {
    if cs != [] {
      var k := |cs| - 1;
      ListingBytes(cs[..k], es[..k]);
      SizeAppend(es[..k], es[k]);
      assert es == es[..k] + [es[k]];
      assert Describes(es[k], cs[k]);
    }
  }

  lemma ListingFor(v: Volume, n: Node, es: seq<DirEntry>, done: set<nat>)
    requires n.DirNode? && FilesWritten(v, n.children, es, |n.children|, done)
    ensures EncodedSize(es) == ListingSize(n.children)
  {
    ListingBytes(n.children, es);
  }

  lemma DirectoryHeld(v: Volume, v': Volume, dirIno: nat, n: Node, es: seq<DirEntry>, done: set<nat>)
    requires n.DirNode? && FilesWritten(v, n.children, es, |n.children|, done) && Draft(v, done)
    requires KeptReserved(v, v', {dirIno}) && dirIno !in done
    requires 0 < dirIno < |v'.table| && v'.table[dirIno].kind == KIND_DIR && v'.table[dirIno].size <= MAX_FILE
    requires Decode(Content(v'.disk, v'.table[dirIno])) == Ok(es)
    ensures Holds(v'.disk, v'.table, dirIno, n, done + {dirIno})
  {
    forall i | 0 <= i < |n.children|
      ensures Describes(es[i], n.children[i]) && Holds(v'.disk, v'.table, es[i].ino, n.children[i], done + {dirIno})
    {
      HoldsLater(v, v', {dirIno}, es[i].ino, n.children[i], done, done + {dirIno});
    }
  }

  lemma VisitFrame(v: Volume, v1: Volume, v2: Volume, v3: Volume, done: set<nat>, d1: set<nat>, pend: set<nat>,
                   dirIno: nat)
    requires KeptReserved(v, v1, {}) && KeptReserved(v1, v2, pend) && KeptReserved(v2, v3, {dirIno})
    requires Grown(v, v1, done, d1, pend) && dirIno !in d1 + pend
    requires forall i :: i in pend ==> !Reserved(v, i) && Reserved(v1, i)
    requires forall i: nat :: Reserved(v2, i) <==> Reserved(v1, i)
    requires forall i: nat :: Reserved(v3, i) <==> Reserved(v2, i)
    ensures KeptReserved(v, v3, {dirIno})
    ensures Grown(v, v3, done, d1 + pend + {dirIno} - {dirIno}, {})
  {
    forall j: nat | Reserved(v, j) && j != dirIno
      ensures v3.table[j] == v.table[j] && Image(v3.disk, v.table[j]) == Image(v.disk, v.table[j])
    {
      assert Reserved(v1, j) && j !in pend;
      assert Reserved(v2, j);
    }
    forall i: nat ensures i in d1 + pend + {dirIno} - {dirIno} <==> i in done || (!Reserved(v, i) && Reserved(v3, i)) {
      assert i in d1 <==> i in done || (!Reserved(v, i) && Reserved(v1, i) && i !in pend);
    }
  }

  // ---------------------------------------------------------------------
  // The formatter

  class Formatter {
    var img: Disk

    const totalBlocks: u64
    const inodeCount: u64

    var inodes: seq<RawInode>
    var bitmap: seq<byte>

    const bitmapStart: u64
    const bitmapBlocks: u64
    const inodeTableStart: u64
    const inodeTableBlocks: u64
    const dataStart: u64

    constructor (img: Disk, sb: Superblock)
      ensures Super() == sb.(magic := POND_MAGIC, version := POND_VERSION) && this.img == img
      ensures |inodes| == sb.inodeCount && forall i :: 0 <= i < |inodes| ==> inodes[i] == DEFAULT_INODE
      ensures bitmap == Zeros(sb.bitmapBlocks * BLOCK_SIZE)
    {
      this.img := img;
      totalBlocks, inodeCount, bitmapStart, bitmapBlocks := sb.totalBlocks, sb.inodeCount, sb.bitmapStart,
          sb.bitmapBlocks;
      inodeTableStart, inodeTableBlocks, dataStart := sb.inodeTableStart, sb.inodeTableBlocks, sb.dataStart;
      inodes := seq(sb.inodeCount, _ => DEFAULT_INODE);
      bitmap := Zeros(sb.bitmapBlocks * BLOCK_SIZE);
    }

    /** The superblock written by `finalize`. */
    function Super(): (sb: Superblock)
      ensures |sb.magic| == 4
    {
      Superblock(POND_MAGIC, POND_VERSION, totalBlocks, inodeCount, bitmapStart, bitmapBlocks,
                 inodeTableStart, inodeTableBlocks, dataStart)
    }

    ghost function View(): (v: Volume)
      reads this
    {
      Volume(Super(), img, bitmap, inodes)
    }

    method AllocDataBlock() returns (r: Option<u64>)
      requires Layout(Super(), |img|) && |bitmap| == bitmapBlocks * BLOCK_SIZE
      modifies `bitmap
      ensures r.None? ==> bitmap == old(bitmap) && F.FreeBlocks(Super(), bitmap) == {}
      ensures r.Some? ==>
                && InData(Super(), r.value) && !Used(Super(), old(bitmap), r.value)
                && r.value in F.FreeBlocks(Super(), old(bitmap))
                && (forall b :: b in F.FreeBlocks(Super(), old(bitmap)) ==> r.value <= b)
                && 0 <= r.value - dataStart < 8 * |old(bitmap)|
                && bitmap == SetBitAt(old(bitmap), r.value - dataStart)
    {
      var dataBlocks := totalBlocks - dataStart;
      for i := 0 to dataBlocks
        invariant bitmap == old(bitmap)
        invariant forall b :: dataStart <= b < dataStart + i ==> Used(Super(), bitmap, b)
      {
        BitmapIndex(Super(), img, bitmap, dataStart + i);
        var byteIdx, bit := i / 8, i % 8;
        if !Bit(bitmap[byteIdx], bit) {
          assert !Used(Super(), bitmap, dataStart + i);
          ByteWidth();
          bitmap := bitmap[byteIdx := OrBit(bitmap[byteIdx], bit, 8)];
          return Some(dataStart + i);
        }
        assert Used(Super(), bitmap, dataStart + i);
      }
      return None;
    }

    method AllocInode() returns (r: Option<u64>)
      requires |inodes| <= inodeCount
      ensures r.Some? ==>
                && 0 < r.value < |inodes| && inodes[r.value].kind == KIND_UNUSED
                && forall i :: 0 < i < r.value ==> inodes[i].kind != KIND_UNUSED
      ensures r.None? ==> forall i :: 0 < i < |inodes| ==> inodes[i].kind != KIND_UNUSED
    {
      var i := 1;
      while i < |inodes|
        invariant 1 <= i
        invariant forall j :: 0 < j < i && j < |inodes| ==> inodes[j].kind != KIND_UNUSED
      {
        if inodes[i].kind == KIND_UNUSED {
          return Some(i);
        }
        i := i + 1;
      }
      return None;
    }

    /** Store one 4 KiB chunk of a body in a fresh block. */
    method WriteChunk(ino: nat, direct: Direct, k: nat, chunk: seq<byte>) returns (blk: Option<u64>)
      requires ino < |inodes| && k < DIRECT_BLOCKS && |chunk| <= BLOCK_SIZE
      requires Owned(WithInode(View(), ino, inodes[ino].(direct := direct)))
      requires direct[k] == 0 && inodes[ino].kind != KIND_UNUSED
      modifies `img, `bitmap
      ensures blk.Some? ==> blk.value != 0
      ensures blk.None? <==> |F.FreeBlocks(Super(), old(bitmap))| == 0
      ensures blk.Some? ==> |F.FreeBlocks(Super(), bitmap)| == |F.FreeBlocks(Super(), old(bitmap))| - 1
      ensures blk.Some? ==>
                var w := WithInode(old(View()), ino, inodes[ino].(direct := direct));
                var w' := WithInode(View(), ino, inodes[ino].(direct := direct[k := blk.value]));
                && Owned(w') && OthersKept(w, w', ino)
                && Image(img, w'.table[ino]) == Splice(Image(old(img), w.table[ino]), k * BLOCK_SIZE, chunk)
    {
      hide F.FreeBlocks, Owned, OthersKept, Image, SetBitAt, Layout, Used;
      ghost var w := WithInode(View(), ino, inodes[ino].(direct := direct));
      OwnedLayout(w);
      blk := AllocDataBlock();
      if blk.None? {
        return;
      }
      StoreChunk(w, ino, k, blk.value, chunk);
      F.OneBlockLess(Super(), w.bitmap, blk.value);
      var buf := chunk + Zeros(BLOCK_SIZE - |chunk|);
      img := img[blk.value := buf];
      assert WithInode(View(), ino, inodes[ino].(direct := direct[k := blk.value])) ==
          Attached(w, ino, k, blk.value, img);
    }

    method WriteFileBytes(ino: nat, bytes: seq<byte>) returns (ok: bool)
      requires Owned(View()) && ino < |inodes| && Blank(inodes[ino]) && inodes[ino].kind != KIND_UNUSED
      modifies `img, `bitmap, `inodes
      ensures |inodes| == |old(inodes)|
      ensures ok <==> |bytes| <= MAX_FILE && DivCeil(|bytes|, BLOCK_SIZE) <= |F.FreeBlocks(Super(), old(bitmap))|
      ensures ok ==>
                |F.FreeBlocks(Super(), bitmap)| == |F.FreeBlocks(Super(), old(bitmap))| - DivCeil(|bytes|, BLOCK_SIZE)
      ensures ok ==> |bytes| <= MAX_FILE && Owned(View()) && OthersKept(old(View()), View(), ino)
      ensures ok ==> inodes[ino] == old(inodes)[ino].(kind := KIND_FILE, linkCount := 1, size := |bytes|,
                direct := inodes[ino].direct)
      ensures ok ==> Image(img, inodes[ino]) == Padded(bytes)
    {
      hide Owned, OthersKept, Image, F.FreeBlocks;
      var needed := DivCeil(|bytes|, BLOCK_SIZE);
      if needed > DIRECT_BLOCKS {
        return false;
      }
      var direct: Direct := NO_BLOCKS;
      ghost var v, raw := View(), inodes[ino];
      BlankImage(img, raw);
      assert raw.(direct := direct) == raw by {
        assert raw.direct == direct;
      }
      KeptSelf(v, ino);
      assert WithInode(v, ino, raw) == v;
      for i := 0 to needed
        invariant inodes == old(inodes)
        invariant |F.FreeBlocks(Super(), bitmap)| == |F.FreeBlocks(Super(), old(bitmap))| - i
        invariant forall k :: 0 <= k < DIRECT_BLOCKS ==> (direct[k] != 0 <==> k < i)
        invariant Owned(WithInode(View(), ino, raw.(direct := direct)))
        invariant OthersKept(v, WithInode(View(), ino, raw.(direct := direct)), ino)
        invariant Image(img, raw.(direct := direct)) == Padded(bytes[..Min(i * BLOCK_SIZE, |bytes|)])
      {
        var chunk := bytes[i * BLOCK_SIZE..Min((i + 1) * BLOCK_SIZE, |bytes|)];
        ghost var w := WithInode(View(), ino, raw.(direct := direct));
        var blk := WriteChunk(ino, direct, i, chunk);
        if blk.None? {
          return false;
        }
        direct := direct[i := blk.value];
        OthersKeptTransitive(v, w, WithInode(View(), ino, raw.(direct := direct)), ino);
        PaddedGrows(bytes, i, chunk);
      }
      assert bytes[..Min(needed * BLOCK_SIZE, |bytes|)] == bytes;
      ghost var w := WithInode(View(), ino, raw.(direct := direct));
      ghost var done := raw.(kind := KIND_FILE, linkCount := 1, size := |bytes|, direct := direct);
      FileRecord(w, ino, done, v);
      inodes := inodes[ino := inodes[ino].(kind := KIND_FILE, linkCount := 1, size := |bytes|, direct := direct)];
      assert View() == WithInode(w, ino, done);
      return true;
    }

    /** Reserve the lowest unused inode for a file or directory. */
    method Reserve(kind: InodeKind, ghost done: set<nat>) returns (r: Option<u64>)
      requires Draft(View(), done)
      modifies `inodes
      ensures r.None? <==> |Spare(old(inodes))| == 0
      ensures r.Some? ==> |Spare(inodes)| == |Spare(old(inodes))| - 1
      ensures r.Some? ==>
                && !Reserved(old(View()), r.value) && 0 < r.value < |inodes| && inodes[r.value].kind == KindCode(kind)
                && Draft(View(), done) && KeptReserved(old(View()), View(), {})
                && Grown(old(View()), View(), done, done, {r.value as nat})
    {
      r := AllocInode();
      if r.None? {
        assert Spare(inodes) == {};
        return;
      }
      OneInodeLess(inodes, r.value, inodes[r.value].(kind := KindCode(kind), linkCount := 1));
      ReserveDraft(View(), r.value, done, kind);
      inodes := inodes[r.value := inodes[r.value].(kind := KindCode(kind), linkCount := 1)];
    }

    /** Write the body of a reserved file. */
    method WriteFile(ino: nat, n: Node, ghost done: set<nat>) returns (ok: bool)
      requires n.FileNode? && Draft(View(), done) && 0 < ino < |inodes| && ino !in done && inodes[ino].kind == KIND_FILE
      modifies `img, `bitmap, `inodes
      ensures ok ==> Draft(View(), done + {ino}) && KeptReserved(old(View()), View(), {ino})
      ensures ok ==> Holds(img, inodes, ino, n, done + {ino})
      ensures ok <==> |n.bytes| <= MAX_FILE && DivCeil(|n.bytes|, BLOCK_SIZE) <= |F.FreeBlocks(Super(), old(bitmap))|
      ensures ok ==>
                |F.FreeBlocks(Super(), bitmap)| ==
                |F.FreeBlocks(Super(), old(bitmap))| - DivCeil(|n.bytes|, BLOCK_SIZE)
      ensures ok ==> Spare(inodes) == Spare(old(inodes))
      ensures ok ==> forall i: nat :: Reserved(View(), i) <==> Reserved(old(View()), i)
    {
      hide Owned, OthersKept, Image, DirOk, TailZero, F.FreeBlocks, Spare;
      ghost var v := View();
      ok := WriteFileBytes(ino, n.bytes);
      if ok {
        PaddedContent(img, inodes[ino], n.bytes);
        FinishDraft(v, View(), ino, done);
        SameReserved(v, View(), ino);
      }
    }

    /** Write the listing of a reserved directory; the file writer marks it a file first. */
    method WriteDirectory(ino: nat, entries: seq<DirEntry>, ghost done: set<nat>) returns (ok: bool)
      requires Draft(View(), done) && 0 < ino < |inodes| && ino !in done && inodes[ino].kind == KIND_DIR
      requires EntriesReady(inodes, entries)
      modifies `img, `bitmap, `inodes
      ensures |inodes| == |old(inodes)|
      ensures ok ==> Draft(View(), done + {ino}) && KeptReserved(old(View()), View(), {ino})
      ensures ok <==>
                && EncodedSize(entries) <= MAX_FILE
                && DivCeil(EncodedSize(entries), BLOCK_SIZE) <= |F.FreeBlocks(Super(), old(bitmap))|
      ensures ok ==>
                |F.FreeBlocks(Super(), bitmap)| ==
                |F.FreeBlocks(Super(), old(bitmap))| - DivCeil(EncodedSize(entries), BLOCK_SIZE)
      ensures ok ==> Spare(inodes) == Spare(old(inodes))
      ensures ok ==>
                && inodes[ino].kind == KIND_DIR && inodes[ino].size <= MAX_FILE
                && Decode(Content(img, inodes[ino])) == Ok(entries)
      ensures ok ==> forall i: nat :: Reserved(View(), i) <==> Reserved(old(View()), i)
    {
      hide Owned, OthersKept, Image, TailZero, LinksOk, F.FreeBlocks, Spare;
      ghost var v := View();
      ghost var pads;
      var buf;
      buf, pads := F.PondFs.Serialize(entries);
      ok := WriteFileBytes(ino, buf);
      if ok {
        ghost var v1, raw := View(), inodes[ino];
        PaddedContent(img, raw, buf);
        ListingReady(inodes, entries, pads);
        RelabelDirectory(v, v1, ino);
        inodes := inodes[ino := inodes[ino].(kind := KIND_DIR)];
        ReadyLinks(v.table, entries);
        FinishDraft(v, View(), ino, done);
        SameReserved(v, View(), ino);
      }
    }

    /** The inode of the entry with this name; entries of one directory have distinct names. */
    static method FindByName(entries: seq<DirEntry>, name: seq<byte>) returns (k: nat)
      requires exists i :: 0 <= i < |entries| && entries[i].name == name
      ensures k < |entries| && entries[k].name == name
    {
      k := 0;
      while entries[k].name != name
        invariant k < |entries|
        invariant exists i :: k <= i < |entries| && entries[i].name == name
        decreases |entries| - k
      {
        k := k + 1;
      }
    }

    /** Look up the inode reserved for file child k and write its body. */
    method WriteNextFile(n: Node, entries: seq<DirEntry>, k: nat, ghost done: set<nat>)
      returns (ok: bool, ghost ino: nat)
      requires n.DirNode? && WellNamed(n) && k < |n.children| && n.children[k].FileNode?
      requires Draft(View(), done) && FilesWritten(View(), n.children, entries, k, done)
      modifies `img, `bitmap, `inodes
      ensures k < |entries| && ino == entries[k].ino as nat && ino !in done
      ensures ino in PendingFrom(n.children, entries, k)
      ensures PendingFrom(n.children, entries, k + 1) == PendingFrom(n.children, entries, k) - {ino}
      ensures ok <==> Small(n.children[k]) && BlocksIn(n.children[k]) <= |F.FreeBlocks(Super(), old(bitmap))|
      ensures ok ==>
                && |F.FreeBlocks(Super(), bitmap)| == |F.FreeBlocks(Super(), old(bitmap))| - BlocksIn(n.children[k])
                && Spare(inodes) == Spare(old(inodes))
      ensures ok ==> Draft(View(), done + {ino}) && KeptReserved(old(View()), View(), {ino})
      ensures ok ==> Holds(img, inodes, ino, n.children[k], done + {ino})
      ensures ok ==> forall i: nat :: Reserved(View(), i) <==> Reserved(old(View()), i)
    {
      hide Draft, KeptReserved, Holds, FilesWritten, F.FreeBlocks, Spare, PendingFrom;
      EntryNamed(View(), n.children, entries, k, done);
      var pos := FindByName(entries, n.children[k].name);
      UniqueName(n, entries, pos, k);
      NextFile(View(), n.children, entries, k, done);
      ino := entries[pos].ino;
      ok := WriteFile(entries[pos].ino, n.children[k], done);
    }

    /** Second pass: write the bodies of the files reserved in the first. */
    method WriteFiles(n: Node, entries: seq<DirEntry>, ghost done: set<nat>, ghost pend: set<nat>, ghost v0: Volume)
      returns (ok: bool, ghost done': set<nat>)
      requires n.DirNode? && WellNamed(n) && Draft(View(), done) && Placed(v0, View(), n.children, entries, done, pend)
      requires pend !! done
      modifies `img, `bitmap, `inodes
      ensures ok <==>
                && (forall i :: 0 <= i < |n.children| && n.children[i].FileNode? ==> Small(n.children[i]))
                && FileBlocks(n.children) <= |F.FreeBlocks(Super(), old(bitmap))|
      ensures ok ==> Spare(inodes) == Spare(old(inodes))
      ensures ok ==> |F.FreeBlocks(Super(), bitmap)| == |F.FreeBlocks(Super(), old(bitmap))| - FileBlocks(n.children)
      ensures ok ==>
                && Draft(View(), done') && KeptReserved(old(View()), View(), pend) && done' == done + pend
                && FilesWritten(View(), n.children, entries, |n.children|, done')
                && forall i: nat :: Reserved(View(), i) <==> Reserved(old(View()), i)
    {
      hide Draft, KeptReserved, Holds, Placed, FilesWritten, F.FreeBlocks, Spare, PendingFrom, WellNamed, Small;
      ok, done' := true, done;
      ghost var v := View();
      StartFiles(v0, v, n.children, entries, done, pend);
      ghost var left := pend;
      for k := 0 to |n.children|
        invariant forall i :: 0 <= i < k && n.children[i].FileNode? ==> Small(n.children[i])
        invariant Spare(inodes) == Spare(old(inodes))
        invariant |F.FreeBlocks(Super(), bitmap)| == |F.FreeBlocks(Super(), old(bitmap))| - FileBlocks(n.children[..k])
        invariant Draft(View(), done') && KeptReserved(v, View(), pend)
        invariant FilesWritten(View(), n.children, entries, k, done')
        invariant left == PendingFrom(n.children, entries, k) && done' == done + (pend - left) && left <= pend
        invariant left !! done'
        invariant forall i: nat :: Reserved(View(), i) <==> Reserved(v, i)
      {
        CostStep(n.children, k);
        CostGrows(n.children, k + 1);
        ghost var v1 := View();
        if n.children[k].FileNode? {
          ghost var ino;
          ok, ino := WriteNextFile(n, entries, k, done');
          if !ok {
            return;
          }
          FileStep(v, v1, View(), n.children, entries, k, done', pend);
          done', left := done' + {ino}, left - {ino};
        } else {
          SkipDirectory(v1, n.children, entries, k, done');
        }
      }
      NonePending(n.children, entries);
      assert n.children[..|n.children|] == n.children;
    }

    /** Fill directory `dirIno` from source directory `n`. */
    method Visit(dirIno: nat, n: Node, ghost done: set<nat>) returns (ok: bool, ghost done': set<nat>)
      requires n.DirNode? && WellNamed(n)
      requires Draft(View(), done) && 0 < dirIno < |inodes| && dirIno !in done && inodes[dirIno].kind == KIND_DIR
      modifies `img, `bitmap, `inodes
      ensures ok <==> TreeFits(n, |Spare(old(inodes))|, |F.FreeBlocks(Super(), old(bitmap))|)
      ensures ok ==> |Spare(inodes)| == |Spare(old(inodes))| - InodesIn(n)
      ensures ok ==> |F.FreeBlocks(Super(), bitmap)| == |F.FreeBlocks(Super(), old(bitmap))| - BlocksIn(n)
      ensures ok ==>
                && |inodes| == |old(inodes)| && inodes[dirIno].kind == KIND_DIR
                && Draft(View(), done') && KeptReserved(old(View()), View(), {dirIno})
                && Holds(img, inodes, dirIno, n, done')
                && dirIno in done' && Grown(old(View()), View(), done, done' - {dirIno}, {})
      decreases n, 2
    {
      hide Draft, KeptReserved, Grown, Holds, Placed, FilesWritten, F.FreeBlocks, Spare;
      ok, done' := false, done;
      ghost var v, pend := View(), {};
      var entries;
      ok, entries, done', pend := ReserveChildren(n, done);
      if !ok {
        return;
      }
      ghost var v1, d1 := View(), done';
      PlacedOutside(v, v1, n.children, entries, done, d1, pend, dirIno);
      ok, done' := WriteFiles(n, entries, d1, pend, v);
      if !ok {
        return;
      }
      ghost var v2, d2 := View(), done';
      FilesKeepDirectory(v1, v2, pend, dirIno);
      ReadyEntries(v2, n, entries, d2);
      ListingFor(v2, n, entries, d2);
      ok := WriteDirectory(dirIno, entries, d2);
      if ok {
        done' := d2 + {dirIno};
        DirectoryHeld(v2, View(), dirIno, n, entries, d2);
        VisitFrame(v, v1, v2, View(), done, d1, pend, dirIno);
      }
    }

    /** Reserve an inode for one child; a directory is filled in at once, a file body later. */
    method AddChild(child: Node, ghost done: set<nat>) returns (ok: bool, e: DirEntry, ghost done': set<nat>)
      requires WellNamed(child) && Draft(View(), done)
      modifies `img, `bitmap, `inodes
      ensures ok <==>
                && (child.DirNode? ==> Small(child)) && 1 + InodesIn(child) <= |Spare(old(inodes))|
                && (child.DirNode? ==> BlocksIn(child) <= |F.FreeBlocks(Super(), old(bitmap))|)
      ensures ok ==> |Spare(inodes)| == |Spare(old(inodes))| - 1 - InodesIn(child)
      ensures ok ==>
                |F.FreeBlocks(Super(), bitmap)| ==
                |F.FreeBlocks(Super(), old(bitmap))| - if child.DirNode? then BlocksIn(child) else 0
      ensures ok ==>
                && Describes(e, child) && !Reserved(old(View()), e.ino) && 0 < e.ino < |inodes|
                && inodes[e.ino].kind == KindCode(e.kind)
                && Draft(View(), done') && KeptReserved(old(View()), View(), {}) && done <= done'
                && Grown(old(View()), View(), done, done', if child.FileNode? then {e.ino as nat} else {})
                && (child.DirNode? ==> Holds(img, inodes, e.ino, child, done'))
      decreases child, 3
    {
      hide Draft, KeptReserved, Grown, Holds, F.FreeBlocks, Spare, Small, BlocksIn;
      done', e := done, DirEntry(child.name, KindOf(child), 0);
      ghost var v := View();
      var a := Reserve(KindOf(child), done);
      if a.None? {
        return false, e, done';
      }
      e := DirEntry(child.name, KindOf(child), a.value);
      if child.DirNode? {
        ghost var v1 := View();
        ReservedNotDone(v, v1, done, a.value);
        ok, done' := Visit(a.value, child, done);
        if ok {
          VisitedChild(v, v1, View(), done, done', a.value);
        }
      } else {
        ok := true;
      }
    }

    /** One turn of the first pass. */
    method PlaceChild(n: Node, j: nat, es: seq<DirEntry>, ghost v: Volume, ghost done: set<nat>, ghost d1: set<nat>,
                      ghost p1: set<nat>)
      returns (ok: bool, entries: seq<DirEntry>, ghost d2: set<nat>, ghost p2: set<nat>)
      requires n.DirNode? && WellNamed(n) && j < |n.children| && FirstPass(v, View(), n.children, j, es, done, d1, p1)
      modifies `img, `bitmap, `inodes
      ensures ok <==> ChildFits(old(View()), n.children[j])
      ensures !ok ==> Counts(v, old(View()), n.children, j)
      ensures ok ==> FirstPass(v, View(), n.children, j + 1, entries, done, d2, p2)
      decreases n, 0
    {
      hide Draft, KeptReserved, Grown, Holds, Placed, F.FreeBlocks, Spare, Small, Describes;
      ghost var v1 := View();
      var e;
      ok, e, d2 := AddChild(n.children[j], d1);
      entries, p2 := es, p1;
      if ok {
        PassStep(v, v1, View(), n.children, j, es, done, d1, d2, p1, e);
        entries, p2 := es + [e], p1 + if n.children[j].FileNode? then {e.ino as nat} else {};
      }
    }

    /** First pass over a directory: reserve inodes, descending into subdirectories. */
    method ReserveChildren(n: Node, ghost done: set<nat>)
      returns (ok: bool, entries: seq<DirEntry>, ghost done': set<nat>, ghost pend: set<nat>)
      requires n.DirNode? && WellNamed(n) && Draft(View(), done)
      modifies `img, `bitmap, `inodes
      ensures ok <==>
                && (forall i :: 0 <= i < |n.children| && n.children[i].DirNode? ==> Small(n.children[i]))
                && SumInodes(n.children) <= |Spare(old(inodes))|
                && DirBlocks(n.children) <= |F.FreeBlocks(Super(), old(bitmap))|
      ensures ok ==> |Spare(inodes)| == |Spare(old(inodes))| - SumInodes(n.children)
      ensures ok ==> |F.FreeBlocks(Super(), bitmap)| == |F.FreeBlocks(Super(), old(bitmap))| - DirBlocks(n.children)
      ensures ok ==>
                && Draft(View(), done') && KeptReserved(old(View()), View(), {})
                && Grown(old(View()), View(), done, done', pend)
                && Placed(old(View()), View(), n.children, entries, done', pend)
      decreases n, 1
    {
      hide Draft, KeptReserved, Grown, Holds, Placed, F.FreeBlocks, Spare, Small, FirstPass, ChildFits;
      ok, entries, done', pend := true, [], done, {};
      ghost var v := View();
      PassNone(v, n.children, done);
      for j := 0 to |n.children|
        invariant FirstPass(v, View(), n.children, j, entries, done, done', pend)
      {
        ghost var v1 := View();
        ok, entries, done', pend := PlaceChild(n, j, entries, v, done, done', pend);
        if !ok {
          PassStops(v, v1, n.children, j);
          return;
        }
      }
      PassAll(v, View(), n.children, entries, done, done', pend);
    }

    /** One block of the inode table. */
    method TableBlock(blkOff: nat) returns (buf: Block)
      ensures forall idx: nat ::
                blkOff * INODES_PER_BLOCK <= idx < (blkOff + 1) * INODES_PER_BLOCK && idx < |inodes| ==>
                  SlotInBlock(buf, idx) == inodes[idx]
    {
      hide SlotInBlock, PutSlot;
      buf := Zeros(BLOCK_SIZE);
      var i := 0;
      while i < INODES_PER_BLOCK
        invariant 0 <= i <= INODES_PER_BLOCK
        invariant forall idx: nat ::
                    blkOff * INODES_PER_BLOCK <= idx < blkOff * INODES_PER_BLOCK + i && idx < |inodes| ==>
                      SlotInBlock(buf, idx) == inodes[idx]
      {
        var idx := blkOff * INODES_PER_BLOCK + i;
        if idx >= |inodes| {
          break;
        }
        PutSlotSame(buf, idx, inodes[idx]);
        forall k: nat | blkOff * INODES_PER_BLOCK <= k < idx
          ensures SlotInBlock(PutSlot(buf, idx, inodes[idx]), k) == SlotInBlock(buf, k)
        {
          PutSlotOther(buf, idx, inodes[idx], k);
        }
        buf := PutSlot(buf, idx, inodes[idx]);
        i := i + 1;
      }
    }

    method WriteTable()
      requires Layout(Super(), |img|) && |inodes| == inodeCount
      modifies `img
      ensures |img| == |old(img)| && SameData(Super(), old(img), img) && DiskTable(Super(), img) == inodes
    {
      hide SlotInBlock;
      var d := img;
      for blkOff := 0 to inodeTableBlocks
        invariant |img| == |d| && SameData(Super(), d, img)
        invariant forall i: nat :: i < INODES_PER_BLOCK * blkOff ==> Slot(Super(), img, i) == inodes[i]
      {
        ghost var img0 := img;
        var buf := TableBlock(blkOff);
        img := img[inodeTableStart + blkOff := buf];
        forall i: nat | i < INODES_PER_BLOCK * (blkOff + 1) ensures Slot(Super(), img, i) == inodes[i] {
          if i < INODES_PER_BLOCK * blkOff {
            assert Slot(Super(), img0, i) == inodes[i];
          } else {
            assert SlotInBlock(buf, i) == inodes[i];
          }
        }
      }
    }

    method WriteBitmap()
      requires Layout(Super(), |img|) && |bitmap| == bitmapBlocks * BLOCK_SIZE
      modifies `img
      ensures |img| == |old(img)| && SameData(Super(), old(img), img) && SameSlots(Super(), old(img), img)
      ensures BitmapSynced(Super(), img, bitmap)
    {
      var d := img;
      for blkOff := 0 to bitmapBlocks
        invariant |img| == |d| && SameData(Super(), d, img) && SameSlots(Super(), d, img)
        invariant forall i :: 0 <= i < BLOCK_SIZE * blkOff ==>
                    img[bitmapStart + i / BLOCK_SIZE][i % BLOCK_SIZE] == bitmap[i]
      {
        var src := blkOff * BLOCK_SIZE;
        img := img[bitmapStart + blkOff := bitmap[src..src + BLOCK_SIZE]];
      }
    }

    /** Inode table, bitmap, and the superblock last. */
    method Finalize()
      requires Layout(Super(), |img|) && |inodes| == inodeCount && |bitmap| == bitmapBlocks * BLOCK_SIZE
      modifies `img
      ensures |img| == |old(img)| && SameData(Super(), old(img), img)
      ensures DiskTable(Super(), img) == inodes && BitmapSynced(Super(), img, bitmap)
      ensures DecodeSuperblock(img[0]) == Super()
    {
      hide DiskTable, BitmapSynced, DecodeSuperblock, EncodeSuperblock;
      WriteTable();
      ghost var d := img;
      WriteBitmap();
      SlotsKept(Super(), d, img);
      ghost var d1 := img;
      SuperblockRoundTrip(Super());
      img := img[0 := EncodeSuperblock(Super())];
      SlotsKept(Super(), d1, img);
      BitmapFrame(Super(), d1, img, bitmap);
    }
  }

  // ---------------------------------------------------------------------
  // Layout and the whole program

  const INODE_COUNT: u64 := 64

  function Need(totalBlocks: nat, inodeTableBlocks: nat, bitmapBlocks: nat): (need: nat)
    ensures need <= totalBlocks
  {
    DivCeil(Max(0, totalBlocks - (1 + bitmapBlocks + inodeTableBlocks)), 8 * BLOCK_SIZE)
  }

  /** Where the sizing iteration settles. */
  function BitmapSize(totalBlocks: nat, inodeTableBlocks: nat, bitmapBlocks: nat): (b: nat)
    ensures Need(totalBlocks, inodeTableBlocks, b) <= b && bitmapBlocks <= b <= Max(bitmapBlocks, totalBlocks)
    ensures 1 <= bitmapBlocks && 1 + bitmapBlocks + inodeTableBlocks <= totalBlocks ==>
              1 + b + inodeTableBlocks <= totalBlocks
    decreases totalBlocks - bitmapBlocks
  {
    var need := Need(totalBlocks, inodeTableBlocks, bitmapBlocks);
    if need <= bitmapBlocks then bitmapBlocks else BitmapSize(totalBlocks, inodeTableBlocks, need)
  }

  /** Bitmap sizing: iterate until the bitmap covers what is left for data. */
  method SizeBitmap(totalBlocks: u64, inodeTableBlocks: u64) returns (bitmapBlocks: u64)
    requires totalBlocks > 0
    ensures bitmapBlocks == BitmapSize(totalBlocks, inodeTableBlocks, 1)
  {
    bitmapBlocks := 1;
    while true
      invariant BitmapSize(totalBlocks, inodeTableBlocks, bitmapBlocks) == BitmapSize(totalBlocks, inodeTableBlocks, 1)
      decreases totalBlocks - bitmapBlocks
    {
      var reserved := 1 + bitmapBlocks as int + inodeTableBlocks;
      var dataBlocks := Max(0, totalBlocks - reserved);
      var need := DivCeil(dataBlocks, 8 * BLOCK_SIZE);
      if need <= bitmapBlocks {
        break;
      }
      bitmapBlocks := need;
    }
  }

  /** Data blocks of an image with 64 inodes. */
  function DataBlocks(totalBlocks: nat): (n: nat)
    requires totalBlocks >= 64
  {
    totalBlocks - (1 + BitmapSize(totalBlocks, 2, 1) + 2)
  }

  lemma Covered8(n: nat, b: nat)
    requires DivCeil(n, 8 * BLOCK_SIZE) <= b
    ensures n <= 8 * BLOCK_SIZE * b
  {
  }

  /** The superblock of a fresh image describes a layout that fits it. */
  lemma SizedLayout(blocks: nat, inodeCount: nat)
    requires blocks < 0x8000_0000_0000_0000 && inodeCount < 0x8000_0000_0000_0000
    ensures var t := DivCeil(inodeCount, INODES_PER_BLOCK); var b := BitmapSize(blocks, t, 1);
            b < 0x1_0000_0000_0000_0000 && 1 + b + t < 0x1_0000_0000_0000_0000 &&
            (inodeCount > ROOT_INO && inodeCount % INODES_PER_BLOCK == 0
                && inodeCount / INODES_PER_BLOCK + 3 <= blocks ==>
               Layout(Superblock(POND_MAGIC, POND_VERSION, blocks, inodeCount, 1, b, 1 + b, t, 1 + b + t), blocks))
  {
    var t := DivCeil(inodeCount, INODES_PER_BLOCK);
    var b := BitmapSize(blocks, t, 1);
    hide BitmapSize;
    assert t <= inodeCount + 1 && (inodeCount % INODES_PER_BLOCK == 0 ==> t == inodeCount / INODES_PER_BLOCK);
    Covered8(Max(0, blocks - (1 + b + t)), b);
    hide DivCeil;
  }

  method NewFormatter(img: Disk, inodeCount: u64) returns (r: Option<Formatter>)
    requires |img| < 0x8000_0000_0000_0000 && inodeCount < 0x8000_0000_0000_0000
    ensures r.Some? <==> |img| >= 64
    ensures r.Some? ==>
              && fresh(r.value) && r.value.img == img && r.value.inodeCount == inodeCount == |r.value.inodes|
              && r.value.totalBlocks == |img|
    ensures r.Some? ==> forall i :: 0 <= i < inodeCount ==> r.value.inodes[i] == DEFAULT_INODE
    ensures r.Some? ==> r.value.bitmap == Zeros(r.value.bitmapBlocks * BLOCK_SIZE)
    ensures r.Some? ==>
              && r.value.bitmapBlocks == BitmapSize(|img|, DivCeil(inodeCount, INODES_PER_BLOCK), 1)
              && r.value.dataStart == 1 + r.value.bitmapBlocks + DivCeil(inodeCount, INODES_PER_BLOCK)
    ensures r.Some? && inodeCount > ROOT_INO ==>
              inodeCount % INODES_PER_BLOCK == 0 && inodeCount / INODES_PER_BLOCK + 3 <= |img| ==>
                Layout(r.value.Super(), |img|)
  {
    var totalBlocks := |img|;
    if totalBlocks < 64 {
      return None;
    }
    var inodeTableBlocks := DivCeil(inodeCount, INODES_PER_BLOCK);
    var bitmapBlocks := SizeBitmap(totalBlocks, inodeTableBlocks);
    SizedLayout(totalBlocks, inodeCount);
    hide BitmapSize, Need, Layout, DivCeil;
    var inodeTableStart := 1 + bitmapBlocks;
    var dataStart := inodeTableStart + inodeTableBlocks;
    var fmt := new Formatter(img, Superblock(POND_MAGIC, POND_VERSION, totalBlocks, inodeCount, 1, bitmapBlocks,
        inodeTableStart, inodeTableBlocks, dataStart));
    return Some(fmt);
  }

  ghost function Range(lo: nat, hi: nat): (s: set<nat>)
    requires lo <= hi
    ensures |s| == hi - lo
    ensures forall i :: i in s <==> lo <= i < hi
    decreases hi - lo
  {
    if lo == hi then {} else {lo} + Range(lo + 1, hi)
  }

  lemma SpareAfterRoot(table: seq<RawInode>, root: RawInode)
    requires |table| > ROOT_INO && root.kind != KIND_UNUSED
    requires forall i :: 0 <= i < |table| ==> table[i] == DEFAULT_INODE
    ensures |Spare(table[ROOT_INO := root])| == |table| - 2
  {
    hide Range;
    assert Spare(table[ROOT_INO := root]) == Range(2, |table|);
  }

  /** An all-zero bitmap marks no block. */
  lemma NothingUsed(sb: Superblock, bitmap: seq<byte>, b: nat)
    requires bitmap == Zeros(sb.bitmapBlocks * BLOCK_SIZE)
    ensures !Used(sb, bitmap, b)
  {
    ConstantBytes((b - sb.dataStart) % 8);
  }

  /** Inodes and blocks left after the root was reserved on an empty image. */
  lemma FreshRoom(v: Volume, root: RawInode)
    requires Layout(v.sb, |v.disk|) && |v.table| == v.sb.inodeCount
    requires v.bitmap == Zeros(v.sb.bitmapBlocks * BLOCK_SIZE) && root.kind != KIND_UNUSED
    requires forall i :: 0 <= i < |v.table| ==> v.table[i] == DEFAULT_INODE
    ensures |Spare(v.table[ROOT_INO := root])| == |v.table| - 2
    ensures |F.FreeBlocks(v.sb, v.bitmap)| == v.sb.totalBlocks - v.sb.dataStart
  {
    hide Range, Used;
    SpareAfterRoot(v.table, root);
    forall b: nat ensures !Used(v.sb, v.bitmap, b) {
      NothingUsed(v.sb, v.bitmap, b);
    }
    assert F.FreeBlocks(v.sb, v.bitmap) == Range(v.sb.dataStart, v.sb.totalBlocks);
  }

  lemma EmptyDraft(v: Volume)
    requires Layout(v.sb, |v.disk|) && |v.table| == v.sb.inodeCount
    requires v.bitmap == Zeros(v.sb.bitmapBlocks * BLOCK_SIZE)
    requires forall i :: 0 <= i < |v.table| ==> v.table[i] == DEFAULT_INODE
    ensures Draft(v, {})
  {
    forall b: nat ensures !Used(v.sb, v.bitmap, b) {
      ConstantBytes((b - v.sb.dataStart) % 8);
    }
  }

  /** After the root was visited every reserved inode is finished. */
  lemma AllDone(v: Volume, v': Volume, done: set<nat>)
    requires KeptReserved(v, v', {ROOT_INO}) && Grown(v, v', {}, done - {ROOT_INO}, {}) && ROOT_INO in done
    requires forall i: nat :: Reserved(v, i) ==> i == ROOT_INO
    ensures forall i: nat :: Reserved(v', i) ==> i in done
  {
    forall i: nat | Reserved(v', i) ensures i in done {
      if i != ROOT_INO {
        assert i in done - {ROOT_INO};
      }
    }
  }

  lemma RootKind(disk: Disk, table: seq<RawInode>, n: Node, done: set<nat>)
    requires Holds(disk, table, ROOT_INO, n, done) && n.DirNode?
    ensures ROOT_INO < |table| && table[ROOT_INO].kind == KIND_DIR
  {
  }

  lemma DraftConsistent(v: Volume, v': Volume, done: set<nat>)
    requires Draft(v, done) && forall i: nat :: Reserved(v, i) ==> i in done
    requires v' == v.(disk := v'.disk) && |v'.disk| == |v.disk| && Synced(v.sb, v'.disk, v.bitmap)
    requires forall i: nat :: i < |v.table| ==> Image(v'.disk, v.table[i]) == Image(v.disk, v.table[i])
    ensures Consistent(v')
  {
    forall i | 0 <= i < |v.table|
      ensures v.table[i].kind == KIND_FILE ==> TailZero(v'.disk, v.table[i])
      ensures v.table[i].kind == KIND_DIR ==> DirOk(v'.disk, v.table, v.table[i])
    {
      assert Covered(v.table[i]);
      F.SameImageSameFile(v.disk, v.table[i], v'.disk, v.table[i]);
      if v.table[i].kind != KIND_UNUSED {
        assert Reserved(v, i);
      }
    }
  }

  /** A finished draft, once written out, is an intact image that holds the tree. */
  lemma FinalizedIntact(v: Volume, disk: Disk, done: set<nat>, n: Node)
    requires Draft(v, done) && forall i: nat :: Reserved(v, i) ==> i in done
    requires Holds(v.disk, v.table, ROOT_INO, n, done) && n.DirNode?
    requires SameData(v.sb, v.disk, disk) && |disk| > 0
    requires DiskTable(v.sb, disk) == v.table && BitmapSynced(v.sb, disk, v.bitmap) && DecodeSuperblock(disk[0]) == v.sb
    requires v.sb.magic == POND_MAGIC && v.sb.version == POND_VERSION
    ensures F.Intact(disk) && F.DiskVolume(disk) == v.(disk := disk) && Holds(disk, v.table, ROOT_INO, n, done)
  {
    hide DiskTable, DecodeSuperblock, Image, Consistent, Holds;
    var v' := v.(disk := disk);
    forall i: nat | i < |v.table| ensures Image(disk, v.table[i]) == Image(v.disk, v.table[i]) {
      KeptBySameData(v, disk, i);
    }
    DraftConsistent(v, v', done);
    F.BitmapRead(v.sb, disk, v.bitmap);
    HoldsFrame(v.disk, v.table, disk, v.table, ROOT_INO, n, done, done);
    hide Draft;
    RootKind(v.disk, v.table, n, done);
  }

  lemma DraftParts(v: Volume, done: set<nat>)
    requires Draft(v, done)
    ensures Layout(v.sb, |v.disk|) && |v.table| == v.sb.inodeCount && |v.bitmap| == v.sb.bitmapBlocks * BLOCK_SIZE
  {
  }

  /** Visit the source tree from the reserved root and write everything out. */
  method Fill(fmt: Formatter, n: Node) returns (ok: bool, ghost done: set<nat>)
    requires n.DirNode? && WellNamed(n)
    requires Draft(fmt.View(), {}) && ROOT_INO < |fmt.inodes| && fmt.inodes[ROOT_INO].kind == KIND_DIR
    requires forall i: nat :: Reserved(fmt.View(), i) ==> i == ROOT_INO
    modifies fmt`img, fmt`bitmap, fmt`inodes
    ensures ok <==> TreeFits(n, |Spare(old(fmt.inodes))|, |F.FreeBlocks(fmt.Super(), old(fmt.bitmap))|)
    ensures ok ==>
              && F.Intact(fmt.img) && F.DiskVolume(fmt.img).sb == fmt.Super()
              && Holds(fmt.img, F.DiskVolume(fmt.img).table, ROOT_INO, n, done)
  {
    hide Draft, Holds, DiskTable, KeptReserved, Grown, Layout, BitmapSynced, SameData, Reserved, F.Intact, F.DiskVolume;
    hide TreeFits, F.FreeBlocks, Spare;
    ghost var v := fmt.View();
    ok, done := fmt.Visit(ROOT_INO, n, {});
    if !ok {
      return;
    }
    ghost var v1 := fmt.View();
    AllDone(v, v1, done);
    DraftParts(v1, done);
    fmt.Finalize();
    FinalizedIntact(v1, fmt.img, done, n);
  }

  /** `main`: format an image from a source tree. */
  method Format(img: Disk, n: Node) returns (ok: bool, disk: Disk, ghost done: set<nat>)
    requires n.DirNode? && WellNamed(n) && |img| < 0x8000_0000_0000_0000
    ensures ok <==> |img| >= 64 && TreeFits(n, INODE_COUNT - 2, DataBlocks(|img|))
    ensures ok ==>
              && F.Intact(disk) && F.DiskVolume(disk).sb.totalBlocks == |img|
              && Holds(disk, F.DiskVolume(disk).table, ROOT_INO, n, done)
  {
    hide Draft, Holds, DiskTable, KeptReserved, Grown, Layout, F.Intact, F.DiskVolume, TreeFits, F.FreeBlocks, Spare;
    hide BitmapSize;
    ok, disk, done := false, img, {};
    var f := NewFormatter(img, INODE_COUNT);
    if f.None? {
      return;
    }
    var fmt := f.value;
    EmptyDraft(fmt.View());
    ReserveDraft(fmt.View(), ROOT_INO, {}, Dir);
    FreshRoom(fmt.View(), fmt.inodes[ROOT_INO].(kind := KIND_DIR, linkCount := 1));
    fmt.inodes := fmt.inodes[ROOT_INO := fmt.inodes[ROOT_INO].(kind := KIND_DIR, linkCount := 1)];
    ok, done := Fill(fmt, n);
    disk := fmt.img;
  }
}
