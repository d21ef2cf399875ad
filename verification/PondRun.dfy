/** Whole runs of PondFS operations on many handles, as steps on a table of files and directories. */
module PondRun {
  import opened Prelude
  import opened PondLayout
  import opened PondDir
  import opened PondVolume
  import F = PondFs
  import RamFile
  import Utf8

  /** What an inode is to its users. */
  datatype Node = Unused | Data(bytes: seq<byte>) | Folder(entries: seq<DirEntry>)

  ghost function NodeAt(v: Volume, ino: nat): (n: Node)
    requires ino < |v.table|
  {
    var raw := v.table[ino];
    if raw.size > MAX_FILE then Unused
    else if raw.kind == KIND_FILE then Data(Content(v.disk, raw))
    else if raw.kind == KIND_DIR && Decode(Content(v.disk, raw)).Ok? then Folder(Decode(Content(v.disk, raw)).value)
    else Unused
  }

  ghost function Tree(v: Volume): (t: seq<Node>)
    ensures |t| == |v.table|
  {
    seq(|v.table|, i requires 0 <= i < |v.table| => NodeAt(v, i))
  }

  function NewNode(kind: InodeKind): (n: Node) {
    match kind
    case File => Data([])
    case Dir => Folder([])
  }

  /** An operation on handle number h. */
  datatype Op =
    | Look(h: nat, name: seq<byte>)
    | Make(h: nat, name: seq<byte>, kind: InodeKind)
    | Put(h: nat, off: nat, bytes: seq<byte>)
    | Get(h: nat, off: nat, len: nat)
    | List(h: nat)

  datatype Reply = Opened(ino: nat) | Bytes(bytes: seq<byte>) | Names(names: seq<(seq<byte>,
      InodeKind)>) | Written(n: nat) | Failed(error: FsError)

  /** Names are Rust strings. */
  predicate Proper(op: Op) {
    op.Make? ==> Utf8.Valid(op.name)
  }

  ghost predicate Looked(t: seq<Node>, ino: nat, name: seq<byte>, r: Reply)
    requires ino < |t|
  {
    if !t[ino].Folder? then r == Failed(NotDir)
    else if !F.HasName(t[ino].entries, name) then r == Failed(NotFound)
    else
      var es := t[ino].entries;
      r.Opened? && exists k :: 0 <= k < |es| && es[k].name == name && es[k].ino as nat == r.ino
  }

  /** A listing that could not be rewritten is empty, and the inode claimed for the entry stays in use. */
  ghost predicate Emptied(v: Volume, ino: nat, kind: InodeKind, v': Volume)
    requires ino < |v.table|
  {
    exists new_: nat ::
      F.FreshSlot(v.table, new_) && new_ != ino && Tree(v') == Tree(v)[ino := Folder([])][new_ := NewNode(kind)]
  }

  /** The reply and every change of a `create`, error by error. */
  ghost predicate Made(v: Volume, ino: nat, name: seq<byte>, kind: InodeKind, r: Reply, v': Volume)
    requires ino < |v.table|
  {
    var t := Tree(v);
    if !t[ino].Folder? then r == Failed(NotDir) && v' == v
    else if F.HasName(t[ino].entries, name) then r == Failed(Exists) && v' == v
    else if F.AllInUse(v.table) then r == Failed(NoSpace) && v' == v
    else
      var size := F.ListingSize(t[ino].entries, name);
      if size > MAX_FILE then r == Failed(Unsupported) && Emptied(v, ino, kind, v') && v'.bitmap == v.bitmap
      else if !F.Room(v.table[ino], size, v.sb, v.bitmap) then
        r == Failed(NoSpace) && Emptied(v, ino, kind, v') && |F.FreeBlocks(v'.sb, v'.bitmap)| == 0
      else
        && r.Opened? && F.FreshSlot(v.table, r.ino) && r.ino != ino && r.ino < 0x1_0000_0000_0000_0000
        && Tree(v') == t[ino := Folder(t[ino].entries + if name == [] then [] else [DirEntry(name, kind, r.ino)])]
                        [r.ino := NewNode(kind)]
        && F.Refitted(v.table[ino], v'.table[ino], size)
  }

  /** The reply and every change of a write, error by error. */
  ghost predicate Wrote(v: Volume, ino: nat, off: nat, bytes: seq<byte>, r: Reply, v': Volume)
    requires ino < |v.table|
  {
    var t, end := Tree(v), off + |bytes|;
    if !t[ino].Data? then r == Failed(IsDir) && v' == v
    else if end > MAX_FILE then r == Failed(Unsupported) && v' == v
    else if !F.Room(v.table[ino], end, v.sb, v.bitmap) then
      r == Failed(NoSpace) && Tree(v') == t && |F.FreeBlocks(v'.sb, v'.bitmap)| == 0
    else
      && r == Written(|bytes|) && Tree(v') == t[ino := Data(RamFile.Write(t[ino].bytes, off, bytes))]
      && F.Filled(v.table[ino], v'.table[ino], DivCeil(end, BLOCK_SIZE), v.sb, v.bitmap, v'.bitmap)
  }

  ghost predicate Listed(t: seq<Node>, ino: nat, r: Reply)
    requires ino < |t|
  {
    if !t[ino].Folder? then r == Failed(NotDir)
    else r.Names? && |r.names| == |t[ino].entries| && forall i :: 0 <= i < |r.names| ==>
        r.names[i] == (t[ino].entries[i].name, t[ino].entries[i].kind)
  }

  /** What an operation on the inode `ino` returns and does. */
  ghost predicate Does(v: Volume, ino: nat, op: Op, r: Reply, v': Volume)
    requires ino < |v.table|
  {
    var t := Tree(v);
    && |v'.table| == |v.table|
    && match op
       case Look(_, name) => v' == v && Looked(t, ino, name, r)
       case Make(_, name, kind) => Made(v, ino, name, kind, r, v')
       case Put(_, off, bytes) => Wrote(v, ino, off, bytes, r, v')
       case Get(_, off, len) => v' == v && r == if t[ino].Data? then Bytes(RamFile.Read(t[ino].bytes, off, len))
           else Failed(IsDir)
       case List(_) => v' == v && Listed(t, ino, r)
  }

  /** Which inodes are newer in memory than on disk after an operation on `ino`. */
  ghost predicate Marks(v: Volume, dirty: set<nat>, ino: nat, op: Op, r: Reply, dirty': set<nat>)
    requires ino < |v.table|
  {
    match op
    case Make(_, _, _) =>
      if r.Opened? then dirty' == dirty - {ino}
      else if r in {Failed(NoSpace), Failed(Unsupported)} && !F.AllInUse(v.table) then
        F.Soiled(dirty, dirty', ino, F.Spoilt(r.error, v.table[ino], v.sb, v.bitmap))
      else dirty' == dirty
    case Put(_, _, _) =>
      if r.Written? then dirty' == dirty - {ino}
      else F.Soiled(dirty, dirty', ino, r == Failed(NoSpace) && |F.FreeBlocks(v.sb, v.bitmap)| > 0)
    case _ => dirty' == dirty
  }

  /** The operation failed after it may have changed the inode in memory. */
  predicate Lost(op: Op, r: Reply) {
    (op.Make? || op.Put?) && r in {Failed(NoSpace), Failed(Unsupported)}
  }

  lemma MarksBound(v: Volume, dirty: set<nat>, ino: nat, op: Op, r: Reply, dirty': set<nat>)
    requires ino < |v.table| && Marks(v, dirty, ino, op, r, dirty')
    ensures dirty' <= dirty + if Lost(op, r) then {ino} else {}
  {
    hide F.AllInUse, F.FreeBlocks, F.Spoilt;
    assert dirty' - {ino} == dirty - {ino};
    assert forall i :: i in dirty' && i != ino ==> i in dirty' - {ino};
  }

  // ---------------------------------------------------------------------
  // Changes of the volume as changes of the table

  lemma TreeOne(v: Volume, v': Volume, ino: nat)
    requires F.OthersUnchanged(v, v', ino) && ino < |v.table|
    ensures Tree(v') == Tree(v)[ino := NodeAt(v', ino)]
  {
    hide Content, Decode;
  }

  lemma TreeTwo(v: Volume, v': Volume, a: nat, b: nat)
    requires F.TwoChanged(v, v', a, b) && a < |v.table| && b < |v.table| && a != b
    ensures Tree(v') == Tree(v)[a := NodeAt(v', a)][b := NodeAt(v', b)]
  {
    hide Content, Decode;
  }

  lemma EmptyNode(v: Volume, ino: nat, kind: InodeKind)
    requires ino < |v.table| && v.table[ino] == F.EmptyInode(kind)
    ensures NodeAt(v, ino) == NewNode(kind)
  {
    assert Content(v.disk, v.table[ino]) == [];
    F.EmptyListing(v.table);
  }

  lemma HandleNode(fs: F.PondFs, st: F.InodeState)
    requires fs.Valid() && fs.Handle(st)
    ensures st.ino < |fs.View().table| && st.raw.size <= MAX_FILE
    ensures Tree(fs.View())[st.ino] ==
            if st.raw.kind == KIND_FILE then Data(Content(fs.disk, st.raw))
                else if st.raw.kind == KIND_DIR then Folder(fs.Entries(st)) else Unused
  {
    hide DiskTable, F.Overlay, Consistent;
    F.OverlayAt(DiskTable(fs.sb, fs.disk), fs.Raws(), st.ino);
    fs.FilesOnly(st);
    if st.raw.kind == KIND_DIR {
      fs.ListingOk(st);
    }
  }

  // ---------------------------------------------------------------------
  // Operations

  method DoLook(fs: F.PondFs, st: F.InodeState, name: seq<byte>) returns (r: Reply, handle: Option<F.InodeState>)
    requires fs.Valid() && fs.Handle(st)
    modifies fs`cache
    ensures fs.Valid() && fs.View() == old(fs.View()) && st.ino < |Tree(fs.View())|
    ensures Looked(Tree(fs.View()), st.ino, name, r)
    ensures forall i :: i in old(fs.cache) ==> i in fs.cache && fs.cache[i] == old(fs.cache)[i]
    ensures forall i :: i in fs.cache && i !in old(fs.cache) ==> fresh(fs.cache[i])
    ensures if r.Opened? then handle.Some? && fs.Handle(handle.value) && handle.value.ino == r.ino else handle.None?
  {
    hide Consistent, F.Overlay, DiskTable, Tree, F.HasName;
    HandleNode(fs, st);
    var l := fs.Lookup(st, name);
    HandleNode(fs, st);
    if l.Err? {
      return Failed(l.error), None;
    }
    ghost var es := fs.Entries(st);
    ghost var k: nat :| F.IsEntry(es, k, name, l.value.ino, l.value.raw.kind);
    assert es[k].name == name && es[k].ino as nat == l.value.ino;
    return Opened(l.value.ino), Some(l.value);
  }

  lemma MadeTwo(v: Volume, v': Volume, a: nat, b: nat)
    requires F.TwoChanged(v, v', a, b) && F.FreshSlot(v.table, b) && a < |v.table| && a != b
    ensures b < |v.table| && |v'.table| == |v.table| && Tree(v)[b].Unused?
    ensures Tree(v') == Tree(v)[a := Tree(v')[a]][b := Tree(v')[b]]
  {
    TreeTwo(v, v', a, b);
  }

  lemma TreeAt(v: Volume, ino: nat)
    requires ino < |v.table|
    ensures Tree(v)[ino] == NodeAt(v, ino)
  {
  }

  lemma MadeEmpty(v: Volume, v': Volume, dir: nat, ino: nat, kind: InodeKind)
    requires F.Claimed(v, v', dir, ino, kind) && dir < |v.table| && |v'.table| == |v.table|
    requires Tree(v')[dir] == Folder([])
    ensures Emptied(v, dir, kind, v')
  {
    hide Tree, F.TwoChanged, F.FreshSlot, F.EmptyInode;
    MadeTwo(v, v', dir, ino);
    EmptyNode(v', ino, kind);
    TreeAt(v', ino);
  }

  lemma NewHandle(fs: F.PondFs, st: F.InodeState, kind: InodeKind)
    requires fs.Valid() && fs.Handle(st) && st.raw == F.EmptyInode(kind)
    ensures st.ino < |fs.View().table| && Tree(fs.View())[st.ino] == NewNode(kind)
  {
    hide DiskTable, F.Overlay, Consistent, F.EmptyInode, Tree;
    F.OverlayAt(DiskTable(fs.sb, fs.disk), fs.Raws(), st.ino);
    HandleNode(fs, st);
    EmptyNode(fs.View(), st.ino, kind);
    TreeAt(fs.View(), st.ino);
  }

  lemma HandleRaw(fs: F.PondFs, st: F.InodeState)
    requires fs.Valid() && fs.Handle(st)
    ensures st.ino < |fs.View().table| && fs.View().table[st.ino] == st.raw
  {
    hide DiskTable, F.Overlay, Consistent;
    F.OverlayAt(DiskTable(fs.sb, fs.disk), fs.Raws(), st.ino);
  }

  method DoMake(fs: F.PondFs, st: F.InodeState, name: seq<byte>, kind: InodeKind)
    returns (r: Reply, handle: Option<F.InodeState>)
    requires fs.Valid() && fs.Handle(st) && Utf8.Valid(name)
    modifies fs`bitmap, fs`disk, fs`cache, st`raw
    ensures fs.Valid() && fs.Handle(st) && st.ino < |old(fs.View()).table| == |fs.View().table|
    ensures Made(old(fs.View()), st.ino, name, kind, r, fs.View())
    ensures forall i :: i in old(fs.cache) ==> i in fs.cache && fs.cache[i] == old(fs.cache)[i]
    ensures forall i :: i in fs.cache && i !in old(fs.cache) ==> fresh(fs.cache[i])
    ensures if r.Opened? then handle.Some? && fs.Handle(handle.value) && handle.value.ino == r.ino else handle.None?
    ensures Marks(old(fs.View()), old(fs.Dirty()), st.ino, Make(0, name, kind), r, fs.Dirty())
  {
    hide Consistent, F.Overlay, DiskTable, Tree, F.HasName, F.TwoChanged, F.FreshSlot, F.Stale, F.AllInUse, F.Room;
    hide F.EmptyInode, F.Claimed, Emptied, F.ListingSize, F.Refitted, F.FreeBlocks, F.Soiled, F.Spoilt;
    HandleNode(fs, st);
    HandleRaw(fs, st);
    ghost var v := fs.View();
    var c := fs.Create(st, name, kind);
    HandleNode(fs, st);
    HandleRaw(fs, st);
    if c.Err? {
      if c.error !in {NotDir, Exists} && !F.AllInUse(v.table) {
        ghost var new_: nat :| F.Claimed(v, fs.View(), st.ino, new_, kind);
        MadeEmpty(v, fs.View(), st.ino, new_, kind);
      }
      return Failed(c.error), None;
    }
    HandleNode(fs, c.value);
    MadeTwo(v, fs.View(), st.ino, c.value.ino);
    NewHandle(fs, c.value, kind);
    return Opened(c.value.ino), Some(c.value);
  }

  lemma SameNode(v: Volume, v': Volume, ino: nat)
    requires ino < |v.table| == |v'.table| && v.table[ino].kind == v'.table[ino].kind && v.table[ino].size <= MAX_FILE
    requires v'.table[ino].size <= MAX_FILE
    requires Content(v'.disk, v'.table[ino]) == Content(v.disk, v.table[ino])
    ensures Tree(v)[ino := NodeAt(v', ino)] == Tree(v)
  {
    hide Content, Decode;
  }

  method DoPut(fs: F.PondFs, st: F.InodeState, off: nat, bytes: seq<byte>) returns (r: Reply)
    requires fs.Valid() && fs.Handle(st)
    modifies fs`bitmap, fs`disk, st`raw
    ensures fs.Valid() && fs.Handle(st) && st.ino < |old(fs.View()).table| == |fs.View().table|
    ensures Wrote(old(fs.View()), st.ino, off, bytes, r, fs.View()) && !r.Opened?
    ensures Marks(old(fs.View()), old(fs.Dirty()), st.ino, Put(0, off, bytes), r, fs.Dirty())
  {
    hide Consistent, F.Overlay, DiskTable, Tree, F.OthersUnchanged, F.Stale, F.Room, F.Filled, Content;
    hide F.FreeBlocks, F.Soiled, DivCeil;
    HandleNode(fs, st);
    HandleRaw(fs, st);
    ghost var v := fs.View();
    var w := fs.WriteAt(st, off, bytes);
    HandleNode(fs, st);
    HandleRaw(fs, st);
    TreeOne(v, fs.View(), st.ino);
    if w.Err? {
      SameNode(v, fs.View(), st.ino);
      return Failed(w.error);
    }
    TreeAt(fs.View(), st.ino);
    return Written(w.value);
  }

  method DoGet(fs: F.PondFs, st: F.InodeState, off: nat, len: nat) returns (r: Reply)
    requires fs.Valid() && fs.Handle(st)
    ensures st.ino < |Tree(fs.View())|
    ensures var n := Tree(fs.View())[st.ino]; r == if n.Data? then Bytes(RamFile.Read(n.bytes, off, len))
              else Failed(IsDir)
  {
    hide Consistent, F.Overlay, DiskTable, Tree, Content;
    HandleNode(fs, st);
    var buf := new byte[len](_ => 0);
    var n := fs.ReadAt(st, off, buf);
    r := if n.Ok? then Bytes(buf[..n.value]) else Failed(n.error);
  }

  method DoList(fs: F.PondFs, st: F.InodeState) returns (r: Reply)
    requires fs.Valid() && fs.Handle(st)
    ensures st.ino < |Tree(fs.View())| && Listed(Tree(fs.View()), st.ino, r) && !r.Opened?
  {
    hide Consistent, F.Overlay, DiskTable, Tree, Content, Decode;
    HandleNode(fs, st);
    var n := fs.Readdir(st);
    r := if n.Ok? then Names(n.value) else Failed(n.error);
  }

  /** One operation on one handle. */
  method Do(fs: F.PondFs, st: F.InodeState, op: Op) returns (r: Reply, handle: Option<F.InodeState>)
    requires fs.Valid() && fs.Handle(st) && Proper(op)
    modifies fs`bitmap, fs`disk, fs`cache, st`raw
    ensures fs.Valid() && fs.Handle(st) && st.ino < |old(fs.View()).table|
    ensures Does(old(fs.View()), st.ino, op, r, fs.View())
    ensures Marks(old(fs.View()), old(fs.Dirty()), st.ino, op, r, fs.Dirty())
    ensures forall i :: i in old(fs.cache) ==> i in fs.cache && fs.cache[i] == old(fs.cache)[i]
    ensures forall i :: i in fs.cache && i !in old(fs.cache) ==> fresh(fs.cache[i])
    ensures if r.Opened? then handle.Some? && fs.Handle(handle.value) && handle.value.ino == r.ino else handle.None?
  {
    hide Consistent, F.Overlay, DiskTable, Tree, Content, Decode, Looked, Listed, Made, Wrote, F.Stale;
    hide F.AllInUse, F.Spoilt, F.Soiled, F.FreeBlocks;
    HandleNode(fs, st);
    handle := None;
    match op {
      case Look(_, name) => r, handle := DoLook(fs, st, name);
      case Make(_, name, kind) => r, handle := DoMake(fs, st, name, kind);
      case Put(_, off, bytes) => r := DoPut(fs, st, off, bytes);
      case Get(_, off, len) => r := DoGet(fs, st, off, len);
      case List(_) => r := DoList(fs, st);
    }
  }

  // ---------------------------------------------------------------------
  // Runs

  /** The inodes behind the handles after these replies: every inode opened is a new handle. */
  ghost function Handles(inos: seq<nat>, replies: seq<Option<Reply>>): (r: seq<nat>) {
    if replies == [] then inos
    else
      var rest, last := Handles(inos, replies[..|replies| - 1]), replies[|replies| - 1];
      if last.Some? && last.value.Opened? then rest + [last.value.ino] else rest
  }

  /** The volume as the kernel sees it, and the inodes newer in memory than on disk. */
  datatype Snap = Snap(v: Volume, dirty: set<nat>)

  /** The operation is carried out if its handle exists, and passed over otherwise. */
  ghost predicate Step(s: Snap, inos: seq<nat>, op: Op, r: Option<Reply>, s': Snap) {
    if op.h >= |inos| then r.None? && s' == s
    else
      var ino := inos[op.h];
      && ino < |s.v.table| && r.Some? && Does(s.v, ino, op, r.value, s'.v)
      && Marks(s.v, s.dirty, ino, op, r.value, s'.dirty)
  }

  /** The states a run goes through. */
  ghost predicate Traced(snaps: seq<Snap>, inos: seq<nat>, ops: seq<Op>, replies: seq<Option<Reply>>) {
    && |snaps| == |replies| + 1 && |replies| <= |ops|
    && forall i :: 0 <= i < |replies| ==> Step(snaps[i], Handles(inos, replies[..i]), ops[i], replies[i], snaps[i + 1])
  }

  /** The inodes on which a write or a create failed for want of space, or beyond the largest size. */
  ghost function Losers(inos: seq<nat>, ops: seq<Op>, replies: seq<Option<Reply>>): (s: set<nat>)
    requires |replies| <= |ops|
  {
    if replies == [] then {}
    else
      var n := |replies| - 1;
      var hs, op, r := Handles(inos, replies[..n]), ops[n], replies[n];
      Losers(inos, ops, replies[..n]) + if r.Some? && op.h < |hs| && Lost(op, r.value) then {hs[op.h]} else {}
  }

  ghost function Inos(hs: seq<F.InodeState>): (inos: seq<nat>)
    ensures |inos| == |hs|
  {
    seq(|hs|, i requires 0 <= i < |hs| => hs[i].ino as nat)
  }

  lemma TracedOn(snaps: seq<Snap>, inos: seq<nat>, ops: seq<Op>, replies: seq<Option<Reply>>, r: Option<Reply>,
                 s: Snap)
    requires Traced(snaps, inos, ops, replies) && |replies| < |ops|
    requires Step(snaps[|replies|], Handles(inos, replies), ops[|replies|], r, s)
    ensures Traced(snaps + [s], inos, ops, replies + [r])
  {
    hide Step, Handles;
    var snaps', replies' := snaps + [s], replies + [r];
    forall i | 0 <= i < |replies'|
      ensures Step(snaps'[i], Handles(inos, replies'[..i]), ops[i], replies'[i], snaps'[i + 1])
    {
      if i < |replies| {
        assert replies'[..i] == replies[..i] && snaps'[i] == snaps[i] && snaps'[i + 1] == snaps[i + 1];
      } else {
        assert replies'[..i] == replies;
      }
    }
  }

  lemma TracedNone(snaps: seq<Snap>, inos: seq<nat>, ops: seq<Op>)
    requires |snaps| == 1
    ensures Traced(snaps, inos, ops, [])
  {
  }

  lemma {:induction false} LosersOn(inos: seq<nat>, ops: seq<Op>, replies: seq<Option<Reply>>, r: Option<Reply>,
                                    s: Snap, s': Snap, dirty: set<nat>)
    requires |replies| < |ops| && Step(s, Handles(inos, replies), ops[|replies|], r, s')
    requires s.dirty <= dirty + Losers(inos, ops, replies)
    ensures s'.dirty <= dirty + Losers(inos, ops, replies + [r])
  {
    hide Does, Marks, Handles;
    var hs, op := Handles(inos, replies), ops[|replies|];
    assert (replies + [r])[..|replies|] == replies;
    if op.h < |hs| {
      MarksBound(s.v, s.dirty, hs[op.h], op, r.value, s'.dirty);
    }
  }

  ghost predicate AllHandles(fs: F.PondFs, hs: seq<F.InodeState>)
    reads fs
  {
    forall i :: 0 <= i < |hs| ==> fs.Handle(hs[i])
  }

  ghost function SnapOf(fs: F.PondFs): (s: Snap)
    reads fs, fs.cache.Values
  {
    Snap(fs.View(), fs.Dirty())
  }

  /** One operation, if its handle exists. */
  method Next(fs: F.PondFs, hs: seq<F.InodeState>, op: Op) returns (r: Option<Reply>, all: seq<F.InodeState>)
    requires fs.Valid() && AllHandles(fs, hs) && Proper(op)
    modifies fs`bitmap, fs`disk, fs`cache, hs
    ensures fs.Valid() && hs <= all && AllHandles(fs, all)
    ensures forall i :: i in old(fs.cache) ==> i in fs.cache && fs.cache[i] == old(fs.cache)[i]
    ensures forall i :: i in fs.cache && i !in old(fs.cache) ==> fresh(fs.cache[i])
    ensures Step(old(SnapOf(fs)), Inos(hs), op, r, SnapOf(fs))
    ensures Inos(all) == Inos(hs) + if r.Some? && r.value.Opened? then [r.value.ino] else []
  {
    hide Consistent, F.Overlay, DiskTable, Tree, Does, Marks, F.Stale, Proper;
    if op.h >= |hs| {
      return None, hs;
    }
    var st := hs[op.h];
    assert Inos(hs)[op.h] == st.ino;
    var d, handle := Do(fs, st, op);
    r, all := Some(d), hs + if handle.Some? then [handle.value] else [];
  }

  /** Any run of operations on any handles: the file system stays valid, every reply and every
      change is that of a table of files and directories, refusals included, and an inode in memory
      is newer than on disk only if it was before or if a write or a create on it failed. */
  method Run(fs: F.PondFs, hs: seq<F.InodeState>, ops: seq<Op>)
    returns (replies: seq<Option<Reply>>, all: seq<F.InodeState>, ghost snaps: seq<Snap>)
    requires fs.Valid() && AllHandles(fs, hs) && forall i :: 0 <= i < |ops| ==> Proper(ops[i])
    modifies fs, fs.cache.Values
    ensures fs.Valid() && hs <= all && AllHandles(fs, all)
    ensures |replies| == |ops| && Traced(snaps, Inos(hs), ops, replies) && Inos(all) == Handles(Inos(hs), replies)
    ensures snaps[0] == old(SnapOf(fs)) && snaps[|ops|] == SnapOf(fs)
    ensures forall i :: 0 <= i <= |ops| ==> Consistent(snaps[i].v)
    ensures fs.Dirty() <= old(fs.Dirty()) + Losers(Inos(hs), ops, replies)
  {
    hide Consistent, F.Overlay, DiskTable, Step, F.Stale, Proper, Inos, Traced, Losers;
    ghost var inos := Inos(hs);
    replies, all, snaps := [], hs, [SnapOf(fs)];
    TracedNone(snaps, inos, ops);
    for i := 0 to |ops|
      invariant fs.Valid() && hs <= all && AllHandles(fs, all)
      invariant forall k :: k in fs.cache ==> fs.cache[k] in old(fs.cache.Values) || fresh(fs.cache[k])
      invariant |replies| == i && |snaps| == i + 1 && Traced(snaps, inos, ops, replies)
      invariant Inos(all) == Handles(inos, replies)
      invariant snaps[0] == old(SnapOf(fs)) && snaps[i] == SnapOf(fs)
      invariant forall j :: 0 <= j <= i ==> Consistent(snaps[j].v)
      invariant fs.Dirty() <= old(fs.Dirty()) + Losers(inos, ops, replies)
    {
      ghost var before, s := replies, SnapOf(fs);
      var r;
      r, all := Next(fs, all, ops[i]);
      TracedOn(snaps, inos, ops, replies, r, SnapOf(fs));
      LosersOn(inos, ops, replies, r, s, SnapOf(fs), old(fs.Dirty()));
      replies, snaps := replies + [r], snaps + [SnapOf(fs)];
      assert replies[..i] == before;
    }
  }

  // ---------------------------------------------------------------------
  // Mounting again

  /** A directory stays one. */
  lemma FolderStays(v: Volume, ino: nat, op: Op, r: Reply, v': Volume, i: nat)
    requires ino < |v.table| && Does(v, ino, op, r, v') && i < |v.table| && Tree(v)[i].Folder?
    ensures i < |v'.table| && Tree(v')[i].Folder?
  {
    hide RamFile.Write, F.Room, F.ListingSize, F.HasName, F.Refitted, F.Filled, Decode, Content;
  }

  lemma {:induction false} FolderAlways(snaps: seq<Snap>, inos: seq<nat>, ops: seq<Op>, replies: seq<Option<Reply>>,
                                        i: nat, n: nat)
    requires Traced(snaps, inos, ops, replies) && n <= |replies|
    requires i < |snaps[0].v.table| && Tree(snaps[0].v)[i].Folder?
    ensures i < |snaps[n].v.table| && Tree(snaps[n].v)[i].Folder?
  {
    hide Tree, Does, Marks, Handles;
    if n > 0 {
      FolderAlways(snaps, inos, ops, replies, i, n - 1);
      var s, hs := snaps[n - 1], Handles(inos, replies[..n - 1]);
      assert Step(s, hs, ops[n - 1], replies[n - 1], snaps[n]);
      if ops[n - 1].h < |hs| {
        FolderStays(s.v, hs[ops[n - 1].h], ops[n - 1], replies[n - 1].value, snaps[n].v, i);
      }
    }
  }

  /** After mounting nothing is newer in memory than on disk. */
  lemma CleanMount(fs: F.PondFs, disk: Disk)
    requires fs.disk == disk && |disk| > 0 && fs.View() == F.DiskVolume(disk)
    ensures fs.Dirty() == {}
  {
    hide DiskTable, F.Overlay, DecodeSuperblock, F.Stale;
    F.NoneStale(fs.View().table, DiskTable(fs.sb, disk));
  }

  lemma RootFolder(disk: Disk)
    requires F.Intact(disk)
    ensures |disk| > 0 && ROOT_INO < |F.DiskVolume(disk).table| && Tree(F.DiskVolume(disk))[ROOT_INO].Folder?
  {
    SoundParts(F.DiskVolume(disk));
    hide Sound, FilesZero, Content, Decode, LinksOk, DiskTable, DecodeSuperblock, F.DiskBitmap, F.DiskVolume;
  }

  lemma FolderKind(v: Volume, i: nat)
    requires i < |v.table| && Tree(v)[i].Folder?
    ensures v.table[i].kind == KIND_DIR
  {
  }

  /** Mount an image, work on it, and mount it again: if nothing failed for want of space, the second
      mount shows every file and directory as the first one left it. */
  method Reboot(disk: Disk, ops: seq<Op>)
    returns (replies: seq<Option<Reply>>, again: Result<(F.PondFs, F.InodeState), FsError>, ghost snaps: seq<Snap>)
    requires F.Intact(disk) && forall i :: 0 <= i < |ops| ==> Proper(ops[i])
    ensures |replies| == |ops| && Traced(snaps, [ROOT_INO], ops, replies) && snaps[0] == Snap(F.DiskVolume(disk), {})
    ensures Losers([ROOT_INO], ops, replies) == {} ==>
              && again.Ok? && again.value.0.Valid() && again.value.0.View() == snaps[|ops|].v
              && again.value.0.Dirty() == {} && Tree(again.value.0.View()) == Tree(snaps[|ops|].v)
  {
    hide Consistent, F.Overlay, DiskTable, Step, F.Stale, Proper, Traced, Losers, F.Intact, F.DiskVolume, Tree;
    var m := F.Mount(disk);
    var fs, root := m.value.0, m.value.1;
    CleanMount(fs, disk);
    var all;
    replies, all, snaps := Run(fs, [root], ops);
    assert Inos([root]) == [ROOT_INO];
    again := F.Mount(fs.disk);
    if Losers([ROOT_INO], ops, replies) == {} {
      RootFolder(disk);
      FolderAlways(snaps, [ROOT_INO], ops, replies, ROOT_INO, |ops|);
      FolderKind(fs.View(), ROOT_INO);
      F.CleanIntact(fs);
      CleanMount(again.value.0, fs.disk);
    }
  }
}
