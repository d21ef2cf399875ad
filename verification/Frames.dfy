/** Who owns a physical frame: the free bitmap, a page-table node, a user mapping, a queued
    message or the running system call (kernel/src/ipc/port.rs, kernel/src/mm). */
module Frames {
  import opened Prelude
  import opened PageTables
  import opened Vmm
  import Caps

  /** Memory as seen from a point inside a system call; `hand` are the frames the call holds. */
  datatype Mem = Mem(state: State, queues: map<nat, seq<Caps.Message>>, hand: seq<nat>)

  datatype Holder = Leaf(root: nat, vpn: nat) | Queued(port: nat, i: nat, j: nat) | Held(k: nat)

  ghost function FrameAt(m: Mem, h: Holder): (f: Option<nat>) {
    match h
    case Leaf(r, v) => if IsRoot(m.state.places, r)
        && v in Flat(m.state.tables, r) then Some(Flat(m.state.tables, r)[v].frame) else None
    case Queued(p, i, j) => if p in m.queues && i < |m.queues[p]|
        && j < |m.queues[p][i].pages| then Some(PageNo(m.queues[p][i].pages[j])) else None
    case Held(k) => if k < |m.hand| then Some(PageNo(m.hand[k])) else None
  }

  /** No frame has two owners. */
  ghost predicate Exclusive(m: Mem) {
    && m.state.free !! m.state.tables.Keys
    && (forall h :: FrameAt(m, h).Some? ==>
           FrameAt(m, h).value !in m.state.free && FrameAt(m, h).value !in m.state.tables)
    && forall h, h' :: FrameAt(m, h).Some? && FrameAt(m, h) == FrameAt(m, h') ==> h == h'
  }

  ghost predicate Owned(m: Mem, f: nat) {
    f in m.state.free || f in m.state.tables || exists h :: FrameAt(m, h) == Some(f)
  }

  /** No frame was leaked and none appeared. */
  ghost predicate SameFrames(m: Mem, m': Mem) {
    forall f: nat :: Owned(m, f) <==> Owned(m', f)
  }

  lemma SameFramesTransitive(m0: Mem, m1: Mem, m2: Mem)
    requires SameFrames(m0, m1) && SameFrames(m1, m2)
    ensures SameFrames(m0, m2)
  {
    hide Owned;
  }

  /** Frames that change hands one to one keep exactly one owner. */
  lemma Move(m: Mem, m': Mem, back: Holder -> Holder, forth: Holder -> Holder)
    requires Exclusive(m) && m'.state.free !! m'.state.tables.Keys
    requires m'.state.free + m'.state.tables.Keys == m.state.free + m.state.tables.Keys
    requires forall h :: FrameAt(m', h).Some? ==> FrameAt(m, back(h)) == FrameAt(m', h) && forth(back(h)) == h
    requires forall h :: FrameAt(m, h).Some? ==> FrameAt(m', forth(h)) == FrameAt(m, h)
    ensures Exclusive(m') && SameFrames(m, m')
  {
    hide FrameAt;
    forall h | FrameAt(m', h).Some?
      ensures FrameAt(m', h).value !in m'.state.free && FrameAt(m', h).value !in m'.state.tables
    {
      assert FrameAt(m, back(h)).value !in m.state.free + m.state.tables.Keys;
    }
    forall h, h' | FrameAt(m', h).Some? && FrameAt(m', h) == FrameAt(m', h') ensures h == h' {
      assert FrameAt(m, back(h)) == FrameAt(m, back(h'));
    }
    forall f: nat ensures Owned(m, f) <==> Owned(m', f) {
      assert f in m.state.free || f in m.state.tables <==> f in m.state.free + m.state.tables.Keys;
      assert f in m'.state.free || f in m'.state.tables <==> f in m'.state.free + m'.state.tables.Keys;
    }
  }

  /** Only the user pages of `root` can differ between two kept states. */
  lemma KeptLeaf(s: State, s': State, root: nat, r: nat)
    requires Kept(s, s', root)
    ensures IsRoot(s'.places, r) <==> IsRoot(s.places, r)
    ensures IsRoot(s.places, r) && r != root ==> Flat(s'.tables, r) == Flat(s.tables, r)
  {
    hide SameSpace, Flat;
    if IsRoot(s.places, r) && r != root {
      SameSpaceFlat(s.tables, s'.tables, r);
    }
  }

  /** What one holder holds after a steal. */
  lemma StolenHolder(m: Mem, s': State, root: nat, lo: nat, out: seq<nat>, h: Holder)
    requires m.hand == [] && IsRoot(m.state.places, root) && Kept(m.state, s', root)
    requires Stolen(Flat(m.state.tables, root), lo, out)
    requires Flat(s'.tables, root) == Partly(Flat(m.state.tables, root), lo, 0, |out|)
    ensures FrameAt(Mem(s', m.queues, out), h) ==
            if h.Held? && h.k < |out| then FrameAt(m, Leaf(root, lo + h.k))
            else if h.Leaf? && h.root == root && lo <= h.vpn < lo + |out| then None
            else FrameAt(m, h)
    ensures h.Held? ==> FrameAt(m, h).None?
  {
    hide Kept, Flat;
    if h.Leaf? {
      KeptLeaf(m.state, s', root, h.root);
    } else if h.Held? && h.k < |out| {
      var v := lo + h.k;
      assert v in Flat(m.state.tables, root) && out[v - lo] ==
          Flat(m.state.tables, root)[v].frame * PageTables.PAGE_SIZE;
      FrameAddr(Flat(m.state.tables, root)[v].frame);
    }
  }

  /** Stolen pages: from the address space into the hands of the sender. */
  lemma StealMoves(m: Mem, s': State, root: nat, lo: nat, out: seq<nat>)
    requires Exclusive(m) && m.hand == [] && IsRoot(m.state.places, root)
    requires Kept(m.state, s', root) && s'.free !! s'.tables.Keys
    requires Stolen(Flat(m.state.tables, root), lo, out)
    requires Flat(s'.tables, root) == Partly(Flat(m.state.tables, root), lo, 0, |out|)
    ensures Exclusive(Mem(s', m.queues, out)) && SameFrames(m, Mem(s', m.queues, out))
  {
    hide FrameAt, Flat, Stolen, Partly, Exclusive, SameFrames;
    var m' := Mem(s', m.queues, out);
    var back := (h: Holder) => if h.Held? then Leaf(root, lo + h.k) else h;
    var forth := (h: Holder) => if h.Leaf? && h.root == root && lo <= h.vpn < lo + |out| then Held(h.vpn - lo) else h;
    forall h ensures FrameAt(m', h).Some? ==> FrameAt(m, back(h)) == FrameAt(m', h) && forth(back(h)) == h {
      StolenHolder(m, s', root, lo, out, h);
    }
    forall h ensures FrameAt(m, h).Some? ==> FrameAt(m', forth(h)) == FrameAt(m, h) {
      StolenHolder(m, s', root, lo, out, forth(h));
      StolenHolder(m, s', root, lo, out, h);
    }
    Move(m, m', back, forth);
  }

  /** A steal that met a hole: the frames are back where they were. */
  lemma RestoreMoves(m: Mem, s': State, root: nat, lo: nat, hole: nat)
    requires Exclusive(m) && IsRoot(m.state.places, root) && Kept(m.state, s', root) && s'.free !! s'.tables.Keys
    requires Flat(s'.tables, root) == Flat(m.state.tables, root) || Flat(s'.tables, root) ==
        Partly(Flat(m.state.tables, root), lo, hole, hole)
    ensures Exclusive(m.(state := s')) && SameFrames(m, m.(state := s'))
  {
    hide Flat, Exclusive, SameFrames;
    var m' := m.(state := s');
    forall h ensures FrameAt(m', h) == FrameAt(m, h) {
      if h.Leaf? {
        KeptLeaf(m.state, s', root, h.root);
      }
    }
    hide FrameAt, Partly;
    Move(m, m', h => h, h => h);
  }

  lemma InstalledHolder(m: Mem, s': State, root: nat, lo: nat, h: Holder)
    requires IsRoot(m.state.places, root) && Kept(m.state, s', root)
    requires Vacant(Flat(m.state.tables, root), lo, |m.hand|)
    requires Flat(s'.tables, root) == Handed(Flat(m.state.tables, root), lo, m.hand, HANDED_OVER)
    ensures FrameAt(Mem(s', m.queues, []), h) ==
            if h.Held? then None
            else if h.Leaf? && h.root == root && lo <= h.vpn < lo + |m.hand| then FrameAt(m, Held(h.vpn - lo))
            else FrameAt(m, h)
    ensures h.Held? && FrameAt(m, h).Some? ==> h.k < |m.hand|
    ensures h.Leaf? && h.root == root && lo <= h.vpn < lo + |m.hand| ==> FrameAt(m, h).None?
  {
    hide Kept, Flat, Handed;
    if h.Leaf? {
      KeptLeaf(m.state, s', root, h.root);
      HandedAt(Flat(m.state.tables, root), lo, m.hand, HANDED_OVER, h.vpn);
    }
  }

  /** Installed pages: from the hands of the receiver into its address space. */
  lemma InstallMoves(m: Mem, s': State, root: nat, lo: nat)
    requires Exclusive(m) && IsRoot(m.state.places, root) && Kept(m.state, s', root) && s'.free !! s'.tables.Keys
    requires Vacant(Flat(m.state.tables, root), lo, |m.hand|)
    requires Flat(s'.tables, root) == Handed(Flat(m.state.tables, root), lo, m.hand, HANDED_OVER)
    ensures Exclusive(Mem(s', m.queues, [])) && SameFrames(m, Mem(s', m.queues, []))
  {
    hide FrameAt, Flat, Handed, Vacant, Exclusive, SameFrames;
    var m' := Mem(s', m.queues, []);
    var forth := (h: Holder) => if h.Held? then Leaf(root, lo + h.k) else h;
    var back := (h: Holder) => if h.Leaf? && h.root == root && lo <= h.vpn < lo + |m.hand| then Held(h.vpn - lo) else h;
    forall h ensures FrameAt(m', h).Some? ==> FrameAt(m, back(h)) == FrameAt(m', h) && forth(back(h)) == h {
      InstalledHolder(m, s', root, lo, h);
    }
    forall h ensures FrameAt(m, h).Some? ==> FrameAt(m', forth(h)) == FrameAt(m, h) {
      InstalledHolder(m, s', root, lo, forth(h));
      InstalledHolder(m, s', root, lo, h);
    }
    Move(m, m', back, forth);
  }

  /** What the call holds goes into the message at the tail of a queue. */
  lemma PushMoves(m: Mem, p: nat, msg: Caps.Message)
    requires Exclusive(m) && p in m.queues && msg.pages == m.hand
    ensures var m' := Mem(m.state, m.queues[p := m.queues[p] + [msg]], []); Exclusive(m') && SameFrames(m, m')
  {
    assert m.state.free !! m.state.tables.Keys;
    hide Flat, Exclusive, SameFrames;
    var m', n := Mem(m.state, m.queues[p := m.queues[p] + [msg]], []), |m.queues[p]|;
    var forth := (h: Holder) => if h.Held? then Queued(p, n, h.k) else h;
    var back := (h: Holder) => if h.Queued? && h.port == p && h.i == n then Held(h.j) else h;
    forall h ensures FrameAt(m', h) == if h.Held? then None else FrameAt(m, back(h)) {
    }
    forall h ensures FrameAt(m, h).Some? ==> FrameAt(m', forth(h)) == FrameAt(m, h) {
    }
    hide FrameAt;
    Move(m, m', back, forth);
  }

  /** The message at the head of a queue comes into hand. */
  lemma PopMoves(m: Mem, p: nat)
    requires Exclusive(m) && m.hand == [] && p in m.queues && m.queues[p] != []
    ensures var m' := Mem(m.state, m.queues[p := m.queues[p][1..]], m.queues[p][0].pages);
              Exclusive(m') && SameFrames(m, m')
  {
    assert m.state.free !! m.state.tables.Keys;
    hide Flat, Exclusive, SameFrames;
    var m' := Mem(m.state, m.queues[p := m.queues[p][1..]], m.queues[p][0].pages);
    var forth := (h: Holder) => if h.Queued? && h.port ==
        p then (if h.i == 0 then Held(h.j) else Queued(p, h.i - 1, h.j)) else h;
    var back := (h: Holder) => if h.Held? then Queued(p, 0, h.k)
        else if h.Queued? && h.port == p then Queued(p, h.i + 1, h.j) else h;
    forall h ensures FrameAt(m', h) == FrameAt(m, back(h)) {
    }
    forall h ensures FrameAt(m, h).Some? ==> FrameAt(m', forth(h)) == FrameAt(m, h) {
    }
    hide FrameAt;
    Move(m, m', back, forth);
  }

  lemma FreedExclusive(m: Mem, m': Mem, f: nat, back: Holder -> Holder)
    requires Exclusive(m) && FrameAt(m, Held(0)) == Some(f)
    requires m'.state.tables == m.state.tables && m'.state.free == m.state.free + {f}
    requires forall h :: FrameAt(m', h) == FrameAt(m, back(h)) && back(h) != Held(0)
    requires forall h, h' :: back(h) == back(h') ==> h == h'
    ensures Exclusive(m')
  {
    hide FrameAt;
    forall h | FrameAt(m', h).Some?
      ensures FrameAt(m', h).value !in m'.state.free && FrameAt(m', h).value !in m'.state.tables
    {
      assert FrameAt(m, back(h)) != FrameAt(m, Held(0));
    }
    forall h, h' | FrameAt(m', h).Some? && FrameAt(m', h) == FrameAt(m', h') ensures h == h' {
      assert FrameAt(m, back(h)) == FrameAt(m, back(h'));
    }
  }

  /** `free_frame` on the first frame in hand. */
  lemma FreeMoves(m: Mem)
    requires Exclusive(m) && m.hand != []
    ensures var m' := Mem(m.state.(free := m.state.free + {PageNo(m.hand[0])}), m.queues, m.hand[1..]);
              Exclusive(m') && SameFrames(m, m')
    ensures PageNo(m.hand[0]) !in m.state.free
  {
    hide Flat;
    var f := PageNo(m.hand[0]);
    var m' := Mem(m.state.(free := m.state.free + {f}), m.queues, m.hand[1..]);
    var back := (h: Holder) => if h.Held? then Held(h.k + 1) else h;
    var forth := (h: Holder) => if h.Held? && h.k > 0 then Held(h.k - 1) else h;
    assert FrameAt(m, Held(0)) == Some(f);
    forall h ensures FrameAt(m', h) == FrameAt(m, back(h)) {
    }
    hide FrameAt;
    FreedExclusive(m, m', f, back);
    forall g: nat ensures Owned(m, g) <==> Owned(m', g) {
      if h :| FrameAt(m, h) == Some(g) && h != Held(0) {
        assert back(forth(h)) == h;
        assert FrameAt(m', forth(h)) == Some(g);
      }
    }
  }

  lemma PageSetHead(addrs: seq<nat>)
    requires addrs != []
    ensures PageSet(addrs) == {PageNo(addrs[0])} + PageSet(addrs[1..])
  {
    hide PageNo;
    forall x | x in PageSet(addrs) ensures x in {PageNo(addrs[0])} + PageSet(addrs[1..]) {
      var i :| 0 <= i < |addrs| && x == PageNo(addrs[i]);
      if i > 0 {
        assert addrs[1..][i - 1] == addrs[i];
      }
    }
    forall x | x in PageSet(addrs[1..]) ensures x in PageSet(addrs) {
      var i :| 0 <= i < |addrs| - 1 && x == PageNo(addrs[1..][i]);
      assert addrs[i + 1] == addrs[1..][i];
    }
  }

  lemma SameFramesSelf(m: Mem)
    ensures SameFrames(m, m)
  {
  }

  /** Dropping a message frees every frame it holds. */
  lemma {:induction false} FreeAllMoves(m: Mem)
    requires Exclusive(m)
    ensures var m' := Mem(m.state.(free := m.state.free + PageSet(m.hand)), m.queues, []);
            Exclusive(m') && SameFrames(m, m') && |m'.state.free| == |m.state.free| + |m.hand|
    decreases |m.hand|
  {
    hide Exclusive, SameFrames, Owned, FrameAt, PageNo;
    if m.hand == [] {
      assert PageSet(m.hand) == {};
      assert m.state.(free := m.state.free + {}) == m.state;
      SameFramesSelf(m);
    } else {
      var f := PageNo(m.hand[0]);
      var m1 := Mem(m.state.(free := m.state.free + {f}), m.queues, m.hand[1..]);
      FreeMoves(m);
      FreeAllMoves(m1);
      PageSetHead(m.hand);
      assert m1.state.free + PageSet(m1.hand) == m.state.free + PageSet(m.hand);
      SameFramesTransitive(m, m1, Mem(m.state.(free := m.state.free + PageSet(m.hand)), m.queues, []));
    }
  }

  /** Ports come and go with empty queues. */
  lemma PortMoves(m: Mem, p: nat)
    requires Exclusive(m) && (p in m.queues ==> m.queues[p] == [])
    ensures Exclusive(m.(queues := m.queues - {p})) && SameFrames(m, m.(queues := m.queues - {p}))
    ensures Exclusive(m.(queues := m.queues[p := []])) && SameFrames(m, m.(queues := m.queues[p := []]))
  {
    hide Flat;
    assert m.state.free !! m.state.tables.Keys;
    var m1, m2 := m.(queues := m.queues - {p}), m.(queues := m.queues[p := []]);
    forall h ensures FrameAt(m1, h) == FrameAt(m, h) && FrameAt(m2, h) == FrameAt(m, h) {
    }
    hide FrameAt, Exclusive, SameFrames;
    Move(m, m1, h => h, h => h);
    Move(m, m2, h => h, h => h);
  }

  lemma NewUserHolder(m: Mem, s': State, root: nat, h: Holder)
    requires root !in m.state.places && s'.places == m.state.places[root := Place(root, 4, 0)]
    requires SameSpaces(m.state.tables, m.state.places, s'.tables) && Flat(s'.tables, root) == map[]
    ensures FrameAt(m.(state := s'), h) == FrameAt(m, h)
  {
    hide Flat, SameSpace;
    if h.Leaf? && IsRoot(m.state.places, h.root) {
      SameSpaceFlat(m.state.tables, s'.tables, h.root);
    }
  }

  /** A new address space: its PML4 was a free frame, and it maps no user page. */
  lemma NewUserMoves(m: Mem, s': State, root: nat)
    requires Exclusive(m) && root in m.state.free && root !in m.state.places
    requires s'.places == m.state.places[root := Place(root, 4, 0)]
    requires s'.free == m.state.free - {root} && s'.tables.Keys == m.state.tables.Keys + {root}
    requires SameSpaces(m.state.tables, m.state.places, s'.tables) && Flat(s'.tables, root) == map[]
    ensures Exclusive(m.(state := s')) && SameFrames(m, m.(state := s'))
  {
    var m' := m.(state := s');
    forall h ensures FrameAt(m', h) == FrameAt(m, h) {
      NewUserHolder(m, s', root, h);
    }
    hide FrameAt, SameFrames;
    Move(m, m', h => h, h => h);
  }

  ghost predicate Fresh(root: nat, lo: nat, mapped: seq<nat>, h: Holder) {
    h.Leaf? && h.root == root && lo <= h.vpn < lo + |mapped|
  }

  lemma AnonHolder(m: Mem, s': State, root: nat, lo: nat, mapped: seq<nat>, lost: set<nat>, flags: Flags, h: Holder)
    requires IsRoot(m.state.places, root) && AnonKept(m.state, s', root, PageSet(mapped) + lost)
    requires Vacant(Flat(m.state.tables, root), lo, |mapped|)
    requires Flat(s'.tables, root) == Handed(Flat(m.state.tables, root), lo, mapped, flags)
    ensures Fresh(root, lo, mapped, h) ==>
              FrameAt(m.(state := s'), h) == Some(PageNo(mapped[h.vpn - lo])) && FrameAt(m, h).None?
    ensures !Fresh(root, lo, mapped, h) ==> FrameAt(m.(state := s'), h) == FrameAt(m, h)
  {
    hide Flat, Handed, Kept;
    if h.Leaf? {
      KeptLeaf(m.state.(free := m.state.free - (PageSet(mapped) + lost)), s', root, h.root);
      HandedAt(Flat(m.state.tables, root), lo, mapped, flags, h.vpn);
    }
  }

  /** Taking frames away from the free set, as sets. */
  lemma AnonSets(s: State, s': State, root: nat, taken: set<nat>)
    requires AnonKept(s, s', root, taken) && s.free !! s.tables.Keys
    ensures taken <= s.free
    ensures forall f: nat :: (f in s'.free || f in s'.tables) <==> (f in s.free || f in s.tables) && f !in taken
  {
    hide OthersSame, Extended;
    forall f: nat ensures (f in s'.free || f in s'.tables) <==> (f in s.free || f in s.tables) && f !in taken {
      assert f in s'.free + s'.tables.Keys <==> f in (s.free - taken) + s.tables.Keys;
    }
  }

  lemma AnonExclusive(m: Mem, m': Mem, root: nat, lo: nat, mapped: seq<nat>, lost: set<nat>)
    requires Exclusive(m) && m'.state.free !! m'.state.tables.Keys && Distinct(mapped)
    requires PageSet(mapped) + lost <= m.state.free
    requires forall f: nat ::
               (f in m'.state.free || f in m'.state.tables) <==>
                 (f in m.state.free || f in m.state.tables) && f !in PageSet(mapped) + lost
    requires forall h :: if Fresh(root, lo, mapped, h) then FrameAt(m', h) == Some(PageNo(mapped[h.vpn - lo]))
        else FrameAt(m', h) == FrameAt(m, h)
    ensures Exclusive(m')
  {
    hide FrameAt, PageNo;
    forall h ensures Fresh(root, lo, mapped, h) ==> PageNo(mapped[h.vpn - lo]) in PageSet(mapped) {
    }
    forall h, h' | FrameAt(m', h).Some? && FrameAt(m', h) == FrameAt(m', h') ensures h == h' {
      if !Fresh(root, lo, mapped, h) && !Fresh(root, lo, mapped, h') {
        assert FrameAt(m, h) == FrameAt(m, h');
      }
    }
  }

  lemma AnonOwned(m: Mem, m': Mem, root: nat, lo: nat, mapped: seq<nat>, lost: set<nat>)
    requires PageSet(mapped) + lost <= m.state.free && PageSet(mapped) !! lost && Exclusive(m)
    requires forall f: nat ::
               (f in m'.state.free || f in m'.state.tables) <==>
                 (f in m.state.free || f in m.state.tables) && f !in PageSet(mapped) + lost
    requires forall h :: if Fresh(root, lo, mapped, h) then FrameAt(m', h) == Some(PageNo(mapped[h.vpn - lo]))
        && FrameAt(m, h).None? else FrameAt(m', h) == FrameAt(m, h)
    ensures forall f: nat :: Owned(m, f) <==> Owned(m', f) || f in lost
  {
    hide FrameAt, PageNo;
    forall f: nat ensures Owned(m, f) <==> Owned(m', f) || f in lost {
      if f in PageSet(mapped) {
        var i :| 0 <= i < |mapped| && f == PageNo(mapped[i]);
        assert Fresh(root, lo, mapped, Leaf(root, lo + i));
        assert mapped[lo + i - lo] == mapped[i];
      }
      if h :| FrameAt(m', h) == Some(f) {
        if Fresh(root, lo, mapped, h) {
          assert f in PageSet(mapped);
        }
      }
      if h :| FrameAt(m, h) == Some(f) {
        assert FrameAt(m', h) == Some(f);
      }
    }
  }

  /** Anonymous pages: from the free set into an address space. */
  lemma AnonMoves(m: Mem, s': State, root: nat, lo: nat, mapped: seq<nat>, lost: set<nat>, flags: Flags)
    requires Exclusive(m) && IsRoot(m.state.places, root) && s'.free !! s'.tables.Keys
    requires AnonKept(m.state, s', root, PageSet(mapped) + lost) && Distinct(mapped) && PageSet(mapped) !! lost
    requires Vacant(Flat(m.state.tables, root), lo, |mapped|)
    requires Flat(s'.tables, root) == Handed(Flat(m.state.tables, root), lo, mapped, flags)
    ensures Exclusive(m.(state := s')) && forall f: nat :: Owned(m, f) <==> Owned(m.(state := s'), f) || f in lost
  {
    hide FrameAt, Flat, Handed, Vacant, AnonKept, Distinct;
    var m' := m.(state := s');
    forall h ensures Fresh(root, lo, mapped, h) ==>
        FrameAt(m', h) == Some(PageNo(mapped[h.vpn - lo])) && FrameAt(m, h).None?
      ensures !Fresh(root, lo, mapped, h) ==> FrameAt(m', h) == FrameAt(m, h)
    {
      AnonHolder(m, s', root, lo, mapped, lost, flags, h);
    }
    AnonSets(m.state, s', root, PageSet(mapped) + lost);
    AnonExclusive(m, m', root, lo, mapped, lost);
    AnonOwned(m, m', root, lo, mapped, lost);
  }

  /** A frame both mapped and free has two owners. */
  lemma TwoOwners(m: Mem, h: Holder)
    requires FrameAt(m, h).Some? && FrameAt(m, h).value in m.state.free
    ensures !Exclusive(m)
  {
    hide FrameAt;
  }
}
