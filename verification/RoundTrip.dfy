/** What mkpondfs writes is what the kernel reads: format, mount, walk, list and read. */
module RoundTrip {
  import opened Prelude
  import opened PondLayout
  import opened PondDir
  import opened PondVolume
  import F = PondFs
  import M = Mkpondfs
  import RamFile
  import Vfs

  /** The child with a given name. */
  function Child(children: seq<M.Node>, name: seq<byte>): (r: Option<M.Node>) {
    if children == [] then None
    else if children[0].name == name then Some(children[0])
    else Child(children[1..], name)
  }

  lemma {:induction false} ChildAt(children: seq<M.Node>, k: nat)
    requires k < |children| && forall i, j :: 0 <= i < j < |children| ==> children[i].name != children[j].name
    ensures Child(children, children[k].name) == Some(children[k])
  {
    if k > 0 {
      ChildAt(children[1..], k - 1);
    }
  }

  lemma {:induction false} ChildNone(children: seq<M.Node>, name: seq<byte>)
    requires forall i :: 0 <= i < |children| ==> children[i].name != name
    ensures Child(children, name) == None
  {
    if children != [] {
      ChildNone(children[1..], name);
    }
  }

  lemma {:induction false} ChildIndex(children: seq<M.Node>, name: seq<byte>) returns (k: nat)
    requires Child(children, name).Some?
    ensures k < |children| && children[k].name == name && Child(children, name) == Some(children[k])
  {
    if children[0].name == name {
      k := 0;
    } else {
      k := ChildIndex(children[1..], name);
      k := k + 1;
    }
  }

  lemma {:induction false} ChildNotNone(children: seq<M.Node>, name: seq<byte>)
    requires Child(children, name).None?
    ensures forall i :: 0 <= i < |children| ==> children[i].name != name
  {
    if children != [] {
      ChildNotNone(children[1..], name);
      assert forall i :: 1 <= i < |children| ==> children[i] == children[1..][i - 1];
    }
  }

  /** Follow path components in the source tree. */
  function Find(n: M.Node, comps: seq<seq<byte>>): (r: Result<M.Node, FsError>)
    decreases |comps|
  {
    if comps == [] then Ok(n)
    else if n.FileNode? then Err(NotDir)
    else match Child(n.children, comps[0])
      case None => Err(NotFound)
      case Some(c) => Find(c, comps[1..])
  }

  /** The node at these child positions. */
  function NodeAt(n: M.Node, at: seq<nat>): (r: Option<M.Node>)
    decreases |at|
  {
    if at == [] then Some(n)
    else if n.FileNode? || at[0] >= |n.children| then None
    else NodeAt(n.children[at[0]], at[1..])
  }

  /** The names on the way there. */
  function NamesTo(n: M.Node, at: seq<nat>): (names: seq<seq<byte>>)
    requires NodeAt(n, at).Some?
    decreases |at|
  {
    if at == [] then [] else [n.children[at[0]].name] + NamesTo(n.children[at[0]], at[1..])
  }

  /** Every node of a tree is found by the names that lead to it. */
  lemma {:induction false} FindsEach(n: M.Node, at: seq<nat>)
    requires M.WellNamed(n) && NodeAt(n, at).Some?
    ensures Find(n, NamesTo(n, at)) == Ok(NodeAt(n, at).value)
    decreases |at|
  {
    if at != [] {
      var c := n.children[at[0]];
      FindsEach(c, at[1..]);
      ChildAt(n.children, at[0]);
      assert NamesTo(n, at)[1..] == NamesTo(c, at[1..]);
    }
  }

  /** And nothing else is found: names lead to a node, or past a file (NotDir), or to a name that
      the directory reached so far does not have (NotFound). */
  lemma {:induction false} FindsOnly(n: M.Node, names: seq<seq<byte>>) returns (at: seq<nat>)
    ensures NodeAt(n, at).Some? && NamesTo(n, at) <= names
    ensures var m := NodeAt(n, at).value;
            match Find(n, names)
            case Ok(found) => NamesTo(n, at) == names && found == m
            case Err(e) =>
              && |NamesTo(n, at)| < |names|
              && (e == NotDir <==> m.FileNode?) && (e == NotFound <==> m.DirNode?)
              && (m.DirNode? ==> forall i :: 0 <= i < |m.children| ==>
                    m.children[i].name != names[|NamesTo(n, at)|])
    decreases |names|
  {
    at := [];
    if names != [] && n.DirNode? {
      var c := Child(n.children, names[0]);
      if c.Some? {
        var k := ChildIndex(n.children, names[0]);
        var rest := FindsOnly(c.value, names[1..]);
        at := [k] + rest;
        assert at[1..] == rest && names == [names[0]] + names[1..];
      } else {
        ChildNotNone(n.children, names[0]);
      }
    }
  }

  lemma HandleRecord(fs: F.PondFs, st: F.InodeState)
    requires fs.Valid() && fs.Handle(st)
    ensures st.ino < |fs.View().table| && fs.View().table[st.ino] == st.raw
    ensures st.raw.kind == KIND_DIR ==>
              st.raw.size <= MAX_FILE && Decode(Content(fs.disk, st.raw)) == Ok(fs.Entries(st))
  {
    hide DiskTable, F.Overlay;
    F.OverlayAt(DiskTable(fs.sb, fs.disk), fs.Raws(), st.ino);
    if st.raw.kind == KIND_DIR {
      fs.ListingOk(st);
    }
  }

  /** One step of the kernel's walk agrees with the tree. */
  method Step(fs: F.PondFs, st: F.InodeState, name: seq<byte>, ghost n: M.Node, ghost own: set<nat>)
    returns (r: Result<F.InodeState, FsError>, ghost c: M.Node)
    requires fs.Valid() && fs.Handle(st) && M.WellNamed(n) && M.Holds(fs.disk, fs.View().table, st.ino, n, own)
    modifies fs`cache
    ensures fs.Valid() && fs.View() == old(fs.View())
    ensures r.Ok? ==> n.DirNode? && Child(n.children, name) == Some(c) && M.WellNamed(c)
    ensures r.Ok? ==> fs.Handle(r.value) && M.Holds(fs.disk, fs.View().table, r.value.ino, c, own)
    ensures r.Err? ==> r.error == if n.FileNode? then NotDir else NotFound
    ensures r.Err? && n.DirNode? ==> Child(n.children, name) == None
  {
    hide Consistent, F.Overlay, Decode, Content, DiskTable, LinksOk, Image;
    c := n;
    HandleRecord(fs, st);
    r := fs.Lookup(st, name);
    if r.Ok? {
      ghost var es := fs.Entries(st);
      ghost var k: nat :| F.IsEntry(es, k, name, r.value.ino, r.value.raw.kind);
      assert M.Describes(es[k], n.children[k]);
      ChildAt(n.children, k);
      c := n.children[k];
    } else if n.DirNode? {
      ghost var es := fs.Entries(st);
      forall i | 0 <= i < |n.children| ensures n.children[i].name != name {
        assert M.Describes(es[i], n.children[i]);
      }
      ChildNone(n.children, name);
    }
  }

  /** `lookup` below a mount point: follow the components from the root. */
  method Walk(fs: F.PondFs, root: F.InodeState, comps: seq<seq<byte>>, ghost n: M.Node, ghost own: set<nat>)
    returns (r: Result<F.InodeState, FsError>)
    requires fs.Valid() && fs.Handle(root) && M.WellNamed(n) && M.Holds(fs.disk, fs.View().table, root.ino, n, own)
    modifies fs`cache
    ensures fs.Valid() && fs.View() == old(fs.View())
    ensures Find(n, comps).Err? ==> r == Err(Find(n, comps).error)
    ensures Find(n, comps).Ok? ==>
              r.Ok? && fs.Handle(r.value) && M.Holds(fs.disk, fs.View().table, r.value.ino, Find(n, comps).value, own)
  {
    hide Consistent, F.Overlay, DiskTable, M.Holds, M.WellNamed;
    var node := root;
    ghost var m := n;
    for i := 0 to |comps|
      invariant fs.Valid() && fs.View() == old(fs.View()) && fs.Handle(node) && M.WellNamed(m)
      invariant M.Holds(fs.disk, fs.View().table, node.ino, m, own)
      invariant Find(n, comps) == Find(m, comps[i..])
    {
      ghost var c;
      var s;
      s, c := Step(fs, node, comps[i], m, own);
      assert comps[i..][0] == comps[i] && comps[i..][1..] == comps[i + 1..];
      if s.Err? {
        return Err(s.error);
      }
      node, m := s.value, c;
    }
    assert comps[|comps|..] == [];
    return Ok(node);
  }

  /** A held file reads back its bytes; a held directory lists exactly its children, in order. */
  method Inspect(fs: F.PondFs, st: F.InodeState, ghost n: M.Node, ghost own: set<nat>)
    returns (bytes: Result<seq<byte>, FsError>, names: Result<seq<(seq<byte>, InodeKind)>, FsError>)
    requires fs.Valid() && fs.Handle(st) && M.Holds(fs.disk, fs.View().table, st.ino, n, own)
    ensures n.FileNode? ==> bytes == Ok(n.bytes) && names == Err(NotDir)
    ensures n.DirNode? ==> bytes == Err(IsDir) && names.Ok? && |names.value| == |n.children|
    ensures n.DirNode? ==>
              forall i :: 0 <= i < |n.children| ==> names.value[i] == (n.children[i].name, M.KindOf(n.children[i]))
  {
    hide Consistent, F.Overlay, DiskTable, Image, Decode;
    HandleRecord(fs, st);
    var buf := new byte[st.raw.size](_ => 0);
    var r := fs.ReadAt(st, 0, buf);
    if n.FileNode? {
      assert RamFile.Read(n.bytes, 0, |n.bytes|) == n.bytes;
    }
    bytes := match r case Ok(k) => Ok(buf[..k]) case Err(e) => Err(e);
    names := fs.Readdir(st);
    if n.DirNode? {
      ghost var es := fs.Entries(st);
      forall i | 0 <= i < |n.children| ensures names.value[i] == (n.children[i].name, M.KindOf(n.children[i])) {
        assert M.Describes(es[i], n.children[i]);
      }
    }
  }

  /** What `lookup` comes to: an inode of the PondFS or an error, or another file system. */
  datatype Opened = Here(result: Result<F.InodeState, FsError>) | Elsewhere(fs: nat)

  predicate Absolute(path: seq<byte>) {
    path != [] && path[0] == Vfs.SLASH
  }

  /** The components of a path below a mount point that covers it. */
  function Below(p: seq<byte>, path: seq<byte>): (cs: seq<seq<byte>>) {
    var k := |Vfs.Components(p)|;
    if k <= |Vfs.Components(path)| then Vfs.Components(path)[k..] else []
  }

  /** The walk came out as the tree says. */
  ghost predicate Found(fs: F.PondFs, want: Result<M.Node, FsError>, r: Result<F.InodeState, FsError>, own: set<nat>)
    reads fs, fs.cache.Values
  {
    if want.Err? then r == Err(want.error)
    else r.Ok? && fs.Valid() && fs.Handle(r.value) && M.Holds(fs.disk, fs.View().table, r.value.ino, want.value, own)
  }

  lemma MakeFound(fs: F.PondFs, want: Result<M.Node, FsError>, r: Result<F.InodeState, FsError>, own: set<nat>)
    requires want.Err? ==> r == Err(want.error)
    requires want.Ok? ==>
               && r.Ok? && fs.Valid() && fs.Handle(r.value)
               && M.Holds(fs.disk, fs.View().table, r.value.ino, want.value, own)
    ensures Found(fs, want, r, own)
  {
  }

  lemma NoMount(m: map<seq<byte>, nat>, path: seq<byte>)
    requires forall p :: p in m ==> !Vfs.Covers(p, path)
    ensures forall p :: !Vfs.MountFor(m, path, p)
  {
    hide Vfs.Covers;
  }

  lemma OneMount(m: map<seq<byte>, nat>, path: seq<byte>, p: seq<byte>)
    requires Vfs.MountFor(m, path, p)
    ensures forall q :: Vfs.MountFor(m, path, q) ==> q == p
    ensures p in m && Vfs.Covers(p, path)
  {
    forall q | Vfs.MountFor(m, path, q) ensures q == p {
      Vfs.MountOnly(m, path, p, q);
    }
  }

  /** The kernel's path lookup with any mount table, in which the PondFS is file system `id`. */
  method Open(mounts: Vfs.Mounts, id: nat, fs: F.PondFs, root: F.InodeState, path: seq<byte>, ghost n: M.Node,
              ghost own: set<nat>)
    returns (r: Opened)
    requires Vfs.LongestFirst(mounts.m)
    requires fs.Valid() && fs.Handle(root) && M.WellNamed(n) && M.Holds(fs.disk, fs.View().table, root.ino, n, own)
    modifies fs`cache
    ensures fs.Valid() && fs.View() == old(fs.View())
    ensures !Absolute(path) ==> r == Here(Err(InvalidPath))
    ensures Absolute(path) && (forall p :: p in Vfs.AsMap(mounts.m) ==> !Vfs.Covers(p, path)) ==>
              r == Here(Err(NotFound))
    ensures forall p :: Absolute(path) && Vfs.MountFor(Vfs.AsMap(mounts.m), path, p) ==>
              if Vfs.AsMap(mounts.m)[p] != id then r == Elsewhere(Vfs.AsMap(mounts.m)[p])
              else r.Here? && Found(fs, Find(n, Below(p, path)), r.result, own)
  {
    hide Consistent, F.Overlay, DiskTable, M.Holds, M.WellNamed, Vfs.Components, Find, Vfs.AsMap, Vfs.Covers;
    hide Vfs.MountFor, Found;
    if !Absolute(path) {
      return Here(Err(InvalidPath));
    }
    var at := mounts.ResolveMount(path);
    if at.None? {
      NoMount(Vfs.AsMap(mounts.m), path);
      return Here(Err(NotFound));
    }
    ghost var p :| p in Vfs.AsMap(mounts.m) && Vfs.MountFor(Vfs.AsMap(mounts.m), path, p) && Vfs.AsMap(mounts.m)[p] ==
        at.value.0 &&
                   Vfs.Components(path) == Vfs.Components(p) + Vfs.Components(at.value.1);
    OneMount(Vfs.AsMap(mounts.m), path, p);
    if at.value.0 != id {
      return Elsewhere(at.value.0);
    }
    var w := Walk(fs, root, Vfs.Components(at.value.1), n, own);
    MakeFound(fs, Find(n, Vfs.Components(at.value.1)), w, own);
    return Here(w);
  }

  /** Where the kernel mounts its RAM file system: "/boot". */
  const BOOT: seq<byte> := [0x2F, 0x62, 0x6F, 0x6F, 0x74]
  const RAM_FS: nat := 0
  const POND_FS: nat := 1

  /** With a RAM file system at /boot and the PondFS at the root, a path belongs to the one exactly
      when it lies at or below /boot, and to the other otherwise. */
  lemma BootMounts(m: map<seq<byte>, nat>, path: seq<byte>)
    requires m == map[][BOOT := RAM_FS][[Vfs.SLASH] := POND_FS] && Absolute(path)
    ensures Vfs.MountFor(m, path, if Vfs.Covers(BOOT, path) then BOOT else [Vfs.SLASH])
    ensures m[[Vfs.SLASH]] == POND_FS && m[BOOT] == RAM_FS
    ensures Below([Vfs.SLASH], path) == Vfs.Components(path)
  {
    assert path[..1] == [Vfs.SLASH];
    assert Vfs.Covers([Vfs.SLASH], path);
    assert Vfs.Components([]) == [] && Vfs.Components([Vfs.SLASH]) == [];
  }

  lemma InBoot(path: seq<byte>)
    ensures Vfs.Covers(BOOT, path) <==> path == BOOT || BOOT + [Vfs.SLASH] <= path
  {
    if BOOT <= path && |path| > 5 {
      assert path[..6] == BOOT + [path[5]];
    }
  }

  lemma BootComponents(ds: seq<seq<byte>>)
    requires Vfs.Plain(ds)
    ensures Vfs.Covers(BOOT, Vfs.Join(ds)) <==> ds != [] && ds[0] == BOOT[1..]
  {
    var boot := [BOOT[1..]];
    assert boot[1..] == [] && Vfs.Join(boot) == BOOT;
    Vfs.CoversJoin(boot, ds);
  }

  method BootTable() returns (mounts: Vfs.Mounts)
    ensures fresh(mounts) && Vfs.LongestFirst(mounts.m)
    ensures Vfs.AsMap(mounts.m) == map[][BOOT := RAM_FS][[Vfs.SLASH] := POND_FS]
  {
    mounts := new Vfs.Mounts();
    mounts.Mount(BOOT, RAM_FS);
    mounts.Mount([Vfs.SLASH], POND_FS);
  }

  /** Format an image from a tree, mount it beside the RAM file system as the kernel does, and open
      a path: below /boot it is the other file system's, and anywhere else what the tree has there. */
  method FormatMountOpen(img: Disk, tree: M.Node, path: seq<byte>)
    returns (formatted: bool, here: bool, bytes: Result<seq<byte>, FsError>, names: Result<seq<(seq<byte>, InodeKind)>,
        FsError>)
    requires tree.DirNode? && M.WellNamed(tree) && |img| < 0x8000_0000_0000_0000
    ensures formatted <==> |img| >= 64 && M.TreeFits(tree, M.INODE_COUNT - 2, M.DataBlocks(|img|))
    // Everything but "/boot" and what starts with "/boot/" is looked up in the image.
    ensures formatted ==>
              (here <==> path != [0x2F, 0x62, 0x6F, 0x6F, 0x74] && !([0x2F, 0x62, 0x6F, 0x6F, 0x74, 0x2F] <= path))
    ensures formatted ==> forall ds :: Vfs.Plain(ds) && path == Vfs.Join(ds) ==>
              (here <==> ds == [] || ds[0] != [0x62, 0x6F, 0x6F, 0x74])
    ensures formatted && here && (path == [] || path[0] != 0x2F) ==>
              bytes == Err(InvalidPath) && names == Err(InvalidPath)
    ensures formatted && here && path != [] && path[0] == 0x2F ==>
              match Find(tree, Vfs.Components(path))
              case Err(e) => bytes == Err(e) && names == Err(e)
              case Ok(n) =>
                if n.FileNode? then bytes == Ok(n.bytes) && names == Err(NotDir)
                else
                  && bytes == Err(IsDir) && names.Ok? && |names.value| == |n.children|
                  && forall i :: 0 <= i < |n.children| ==>
                       names.value[i] == (n.children[i].name, M.KindOf(n.children[i]))
  {
    hide Consistent, M.Holds, M.WellNamed, F.Intact, F.Overlay, DiskTable, Find, M.TreeFits, Vfs.MountFor, Vfs.AsMap;
    hide Vfs.Components, Below;
    here, bytes, names := false, Err(Io), Err(Io);
    ghost var own;
    var disk;
    formatted, disk, own := M.Format(img, tree);
    if !formatted {
      return;
    }
    var mounts := BootTable();
    var m := F.Mount(disk);
    var fs, root := m.value.0, m.value.1;
    if Absolute(path) {
      BootMounts(Vfs.AsMap(mounts.m), path);
    }
    InBoot(path);
    forall ds | Vfs.Plain(ds) && path == Vfs.Join(ds)
      ensures Vfs.Covers(BOOT, path) <==> ds != [] && ds[0] == BOOT[1..]
    {
      BootComponents(ds);
    }
    var node := Open(mounts, POND_FS, fs, root, path, tree, own);
    if node.Elsewhere? {
      return;
    }
    here := true;
    if node.result.Err? {
      bytes, names := Err(node.result.error), Err(node.result.error);
      return;
    }
    bytes, names := Inspect(fs, node.result.value, Find(tree, Vfs.Components(path)).value, own);
  }
}
