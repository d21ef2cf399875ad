/** How many tables a range of mappings will take from the frame allocator (kernel/src/mm/vmm.rs). */
module TableGrowth {
  import opened Prelude
  import opened PageTables

  /** The table of level k a walk for vpn passes, starting at table f of level l. */
  function Down(tables: Tables, f: nat, l: nat, k: nat, vpn: nat): (r: Option<nat>)
    requires 1 <= k <= l
    decreases l
  {
    if f !in tables then None
    else if l == k then Some(f)
    else if tables[f][Idx(vpn, l)].Absent? then None
    else Down(tables, tables[f][Idx(vpn, l)].frame, l - 1, k, vpn)
  }

  /** The tables absent from the paths of n pages, each by its level and prefix. */
  ghost function Lack(tables: Tables, root: nat, lo: nat, n: nat): (s: set<(nat, nat)>) {
    set v: nat, k: nat | lo <= v < lo + n && 1 <= k <= 3 && Down(tables, root, 4, k, v).None? :: (k, Up(v, k))
  }

  /** Entry j of a table at `place` lies on the path of vpn from `root`. */
  ghost predicate OnPath(place: Place, j: nat, root: nat, vpn: nat) {
    1 <= place.level <= 4 && place == Place(root, place.level, Up(vpn, place.level)) && j == Idx(vpn, place.level)
  }

  /** An entry with flags b permits whatever one with flags a does. */
  predicate Keeps(a: Flags, b: Flags) {
    (a.write ==> b.write) && (a.user ==> b.user) && (b.nx ==> a.nx)
  }

  ghost predicate GrownEntry(t: Tables, t': Tables, p': Places, root: nat, vpn: nat, g: nat, j: nat)
    requires g in t' && j < ENTRIES
  {
    if g in t && t[g][j].Present? then
      t'[g][j].Present? && t'[g][j].frame == t[g][j].frame && Keeps(t[g][j].flags, t'[g][j].flags)
    else t'[g][j].Present? ==> g in p' && OnPath(p'[g], j, root, vpn) && (p'[g].level > 1 ==> t'[g][j].frame !in t)
  }

  /** Entries were added on the path of one page only, each to a fresh table, and no entry lost a permission. */
  ghost predicate Grown(t: Tables, t': Tables, p': Places, root: nat, vpn: nat) {
    && t.Keys <= t'.Keys
    && forall g, j :: g in t' && 0 <= j < ENTRIES ==> GrownEntry(t, t', p', root, vpn, g, j)
  }

  lemma GrownSelf(t: Tables, p: Places, root: nat, vpn: nat)
    ensures Grown(t, t, p, root, vpn)
  {
  }

  lemma GrownTransitive(t0: Tables, t1: Tables, p1: Places, t2: Tables, p2: Places, root: nat, vpn: nat)
    requires Grown(t0, t1, p1, root, vpn) && Grown(t1, t2, p2, root, vpn)
    requires Extended(p1, p2)
    ensures Grown(t0, t2, p2, root, vpn)
  {
    forall g, j | g in t2 && 0 <= j < ENTRIES ensures GrownEntry(t0, t2, p2, root, vpn, g, j) {
      assert GrownEntry(t1, t2, p2, root, vpn, g, j);
      if g in t1 {
        assert GrownEntry(t0, t1, p1, root, vpn, g, j);
      }
    }
  }

  lemma GraftGrown(t: Tables, p: Places, kernel: nat, root: nat, vpn: nat, f: nat, i: nat, new_: nat, flags: Flags)
    requires f in t && f in p && OnPath(p[f], i, root, vpn) && i < ENTRIES && t[f][i].Absent? && new_ !in t
    requires new_ !in p
    ensures Grown(t, Graft(t, f, i, new_, flags), p[new_ := ChildPlace(p[f], i, kernel)], root, vpn)
  {
    var t', p' := Graft(t, f, i, new_, flags), p[new_ := ChildPlace(p[f], i, kernel)];
    hide OnPath;
    assert p'[f] == p[f];
    forall g, j | g in t' && 0 <= j < ENTRIES ensures GrownEntry(t, t', p', root, vpn, g, j) {
      if g != f && g != new_ {
        assert t'[g] == t[g];
      }
    }
  }

  lemma ReflagGrown(t: Tables, p: Places, root: nat, vpn: nat, f: nat, i: nat, flags: Flags)
    requires f in t && i < ENTRIES && t[f][i].Present? && Keeps(t[f][i].flags, flags)
    ensures Grown(t, Reflag(t, f, i, flags), p, root, vpn)
  {
  }

  lemma PutLeafGrown(t: Tables, p: Places, root: nat, vpn: nat, f: nat, i: nat, e: Pte)
    requires f in t && f in p && OnPath(p[f], i, root, vpn) && p[f].level == 1 && i < ENTRIES && t[f][i].Absent?
    ensures Grown(t, PutLeaf(t, f, i, e), p, root, vpn)
  {
  }

  /** No page table was lost from the user half of an address space. */
  ghost predicate Held(t: Tables, t': Tables, root: nat) {
    forall v: nat :: v < LOW_PAGES && End(t, root, 4, v).Some? ==> End(t', root, 4, v).Some?
  }

  lemma {:induction false} EndKept(t: Tables, t': Tables, p': Places, root: nat, vpn: nat, f: nat, l: nat, v: nat)
    requires Grown(t, t', p', root, vpn) && 1 <= l && End(t, f, l, v).Some?
    ensures End(t', f, l, v).Some?
    decreases l
  {
    if l > 1 {
      assert GrownEntry(t, t', p', root, vpn, f, Idx(v, l));
      EndKept(t, t', p', root, vpn, t[f][Idx(v, l)].frame, l - 1, v);
    }
  }

  lemma GrownHeld(t: Tables, t': Tables, p': Places, root: nat, vpn: nat)
    requires Grown(t, t', p', root, vpn)
    ensures Held(t, t', root)
  {
    forall v: nat | v < LOW_PAGES && End(t, root, 4, v).Some? ensures End(t', root, 4, v).Some? {
      EndKept(t, t', p', root, vpn, root, 4, v);
    }
  }

  lemma PutLeafHeld(t: Tables, p: Places, kernel: nat, root: nat, f: nat, i: nat, e: Pte)
    requires Shape(t, p, kernel) && IsRoot(p, root) && f in t && i < ENTRIES && p[f].level == 1
    ensures Held(t, PutLeaf(t, f, i, e), root)
  {
    forall v: nat | v < LOW_PAGES && End(t, root, 4, v).Some? ensures End(PutLeaf(t, f, i, e), root, 4, v).Some? {
      PutLeafEnd(t, p, kernel, f, i, e, root, 4, v);
    }
  }

  lemma {:induction false} EndMissing(t: Tables, f: nat, l: nat, v: nat)
    requires 1 <= l && End(t, f, l, v).Some?
    ensures Missing(t, f, l, v) == 0
    decreases l
  {
    if l > 1 {
      EndMissing(t, t[f][Idx(v, l)].frame, l - 1, v);
    }
  }

  lemma {:induction false} UpAgree(v: nat, w: nat, k: nat, j: nat)
    requires Up(v, k) == Up(w, k) && k <= j
    ensures Up(v, j) == Up(w, j)
  {
    if k < j {
      UpAgree(v, w, k, j - 1);
    }
  }

  /** Pages with a common prefix share their path down to it. */
  lemma {:induction false} DownPrefix(tables: Tables, f: nat, l: nat, k: nat, v: nat, w: nat)
    requires 1 <= k <= l && Up(v, k) == Up(w, k)
    ensures Down(tables, f, l, k, v) == Down(tables, f, l, k, w)
    decreases l
  {
    if f in tables && l > k {
      UpAgree(v, w, k, l - 1);
      if tables[f][Idx(v, l)].Present? {
        DownPrefix(tables, tables[f][Idx(v, l)].frame, l - 1, k, v, w);
      }
    }
  }

  lemma {:induction false} DownKept(t: Tables, t': Tables, p': Places, root: nat, vpn: nat, f: nat, l: nat, k: nat,
                                    v: nat)
    requires Grown(t, t', p', root, vpn) && 1 <= k <= l && Down(t, f, l, k, v).Some?
    ensures Down(t', f, l, k, v) == Down(t, f, l, k, v)
    decreases l
  {
    if l > k {
      assert GrownEntry(t, t', p', root, vpn, f, Idx(v, l));
      DownKept(t, t', p', root, vpn, t[f][Idx(v, l)].frame, l - 1, k, v);
    }
  }

  lemma NextPrefix(v: nat, w: nat, l: nat)
    requires l > 0 && Up(v, l) == Up(w, l) && Idx(v, l) == Idx(w, l)
    ensures Up(v, l - 1) == Up(w, l - 1)
  {
    assert Up(v, l - 1) == Up(v, l) * ENTRIES + Idx(v, l);
    assert Up(w, l - 1) == Up(w, l) * ENTRIES + Idx(w, l);
  }

  /** A path through a fresh table stays on the path it was added for. */
  lemma {:induction false} DownFresh(t: Tables, t': Tables, p': Places, kernel: nat, root: nat, vpn: nat, f: nat,
                                     l: nat, k: nat, v: nat)
    requires Shape(t', p', kernel) && Grown(t, t', p', root, vpn) && 1 <= k <= l <= 4 && v < LOW_PAGES
    requires f in t' && f !in t && p'[f].level == l && Up(v, l) == Up(vpn, l) && Down(t', f, l, k, v).Some?
    ensures Up(v, k) == Up(vpn, k)
    decreases l
  {
    if l > k {
      var j := Idx(v, l);
      assert GrownEntry(t, t', p', root, vpn, f, j) && EntryOk(t', p', kernel, f, j);
      NextPrefix(v, vpn, l);
      UpBound(v);
      assert ChildPlace(p'[f], j, kernel).level == l - 1;
      DownFresh(t, t', p', kernel, root, vpn, t'[f][j].frame, l - 1, k, v);
    }
  }

  lemma {:induction false} DownGrown(t: Tables, p: Places, t': Tables, p': Places, kernel: nat, root: nat, vpn: nat,
                                     f: nat, l: nat, k: nat, v: nat)
    requires Shape(t, p, kernel) && Shape(t', p', kernel) && Grown(t, t', p', root, vpn) && 1 <= k <= l <= 4
    requires v < LOW_PAGES
    requires Extended(p, p')
    requires f in t && p'[f] == PathPlace(root, kernel, l, v) && Down(t', f, l, k, v).Some?
    ensures Down(t, f, l, k, v).Some? || Up(v, k) == Up(vpn, k)
    decreases l
  {
    if l > k {
      var j := Idx(v, l);
      assert GrownEntry(t, t', p', root, vpn, f, j) && EntryOk(t', p', kernel, f, j);
      PathStep(root, kernel, l, v);
      if t[f][j].Absent? {
        NextPrefix(v, vpn, l);
        DownFresh(t, t', p', kernel, root, vpn, t'[f][j].frame, l - 1, k, v);
      } else {
        assert EntryOk(t, p, kernel, f, j);
        DownGrown(t, p, t', p', kernel, root, vpn, t[f][j].frame, l - 1, k, v);
      }
    }
  }

  lemma {:induction false} EndDown(t: Tables, f: nat, l: nat, k: nat, v: nat)
    requires 1 <= k <= l && End(t, f, l, v).Some?
    ensures Down(t, f, l, k, v).Some?
    decreases l
  {
    if l > k {
      EndDown(t, t[f][Idx(v, l)].frame, l - 1, k, v);
    }
  }

  lemma {:induction false} GrownPath(t: Tables, p: Places, t': Tables, p': Places, kernel: nat, root: nat, lo: nat,
                                     k: nat, v: nat)
    requires Shape(t, p, kernel) && Shape(t', p', kernel) && Grown(t, t', p', root, lo) && IsRoot(p, root)
    requires Extended(p, p')
    requires v < LOW_PAGES && lo < LOW_PAGES && 1 <= k <= 3 && End(t', root, 4, lo).Some?
    ensures Down(t', root, 4, k, v).Some? <==> Down(t, root, 4, k, v).Some? || Up(v, k) == Up(lo, k)
  {
    UpBound(v);
    if Down(t, root, 4, k, v).Some? {
      DownKept(t, t', p', root, lo, root, 4, k, v);
    } else if Up(v, k) == Up(lo, k) {
      DownPrefix(t', root, 4, k, v, lo);
      EndDown(t', root, 4, k, lo);
    } else if Down(t', root, 4, k, v).Some? {
      DownGrown(t, p, t', p', kernel, root, lo, root, 4, k, v);
    }
  }

  /** Adding the path of page `lo` leaves missing what the rest of the range lacked beyond it. */
  lemma {:induction false} LackGrown(t: Tables, p: Places, t': Tables, p': Places, kernel: nat, root: nat, lo: nat,
                                     n: nat)
    requires Shape(t, p, kernel) && Shape(t', p', kernel) && Grown(t, t', p', root, lo) && IsRoot(p, root)
    requires Extended(p, p')
    requires n > 0 && lo + n <= LOW_PAGES && End(t', root, 4, lo).Some?
    ensures Lack(t', root, lo + 1, n - 1) == Lack(t, root, lo, n) - Lack(t, root, lo, 1)
    ensures Lack(t, root, lo, 1) <= Lack(t, root, lo, n)
  {
    hide Shape, Grown, Down, Up, End;
    var a, b, c := Lack(t', root, lo + 1, n - 1), Lack(t, root, lo, n), Lack(t, root, lo, 1);
    forall v: nat, k: nat | lo <= v < lo + n && 1 <= k <= 3
      ensures Down(t', root, 4, k, v).Some? <==> Down(t, root, 4, k, v).Some? || Up(v, k) == Up(lo, k)
    {
      GrownPath(t, p, t', p', kernel, root, lo, k, v);
    }
    forall x | x in a ensures x in b - c {
      var v: nat, k: nat :| lo + 1 <= v < lo + n && 1 <= k <= 3 && Down(t', root, 4, k, v).None? && x == (k, Up(v, k));
      assert Down(t, root, 4, k, v).None?;
    }
    forall x | x in b - c ensures x in a {
      var v: nat, k: nat :| lo <= v < lo + n && 1 <= k <= 3 && Down(t, root, 4, k, v).None? && x == (k, Up(v, k));
      if Up(v, k) == Up(lo, k) {
        DownPrefix(t, root, 4, k, v, lo);
        assert false;
      }
      assert v != lo;
      assert Down(t', root, 4, k, v).None?;
    }
  }

  // ---------------------------------------------------------------------
  // Any set of pages

  /** The tables absent from the paths of the pages ps. */
  ghost function LackOf(tables: Tables, root: nat, ps: set<nat>): (s: set<(nat, nat)>) {
    set v: nat, k: nat | v in ps && 1 <= k <= 3 && Down(tables, root, 4, k, v).None? :: (k, Up(v, k))
  }

  ghost predicate Covered(done: set<nat>, k: nat, w: nat) {
    exists v: nat :: v in done && Up(v, k) == Up(w, k)
  }

  /** The tables on the paths of the pages `done` were added, and no others. */
  ghost predicate Built(t: Tables, t': Tables, root: nat, done: set<nat>) {
    forall k: nat, w: nat :: 1 <= k <= 3 && w < LOW_PAGES ==>
                               (Down(t', root, 4, k, w).Some? <==> Down(t, root, 4, k, w).Some? || Covered(done, k, w))
  }

  lemma BuiltNone(t: Tables, root: nat)
    ensures Built(t, t, root, {})
  {
    hide Down, Up;
  }

  lemma BuiltTransitive(t0: Tables, t1: Tables, t2: Tables, root: nat, a: set<nat>, b: set<nat>)
    requires Built(t0, t1, root, a) && Built(t1, t2, root, b)
    ensures Built(t0, t2, root, a + b)
  {
    hide Down, Up;
    forall k: nat, w: nat ensures Covered(a + b, k, w) <==> Covered(a, k, w) || Covered(b, k, w) {
    }
    hide Covered;
  }

  /** Mapping one page adds the tables of its path. */
  lemma BuiltOne(t: Tables, p: Places, t': Tables, p': Places, kernel: nat, root: nat, v: nat)
    requires Shape(t, p, kernel) && Shape(t', p', kernel) && Grown(t, t', p', root, v) && IsRoot(p, root)
    requires Extended(p, p')
    requires v < LOW_PAGES && End(t', root, 4, v).Some?
    ensures Built(t, t', root, {v})
  {
    hide Shape, Grown, Down, Up, End;
    forall k: nat, w: nat | 1 <= k <= 3 && w < LOW_PAGES
      ensures Down(t', root, 4, k, w).Some? <==> Down(t, root, 4, k, w).Some? || Covered({v}, k, w)
    {
      GrownPath(t, p, t', p', kernel, root, v, k, w);
      assert Covered({v}, k, w) <==> Up(v, k) == Up(w, k);
    }
  }

  /** Once the tables of `done` are there, the pages ps lack what they lacked beyond those. */
  lemma LackBuilt(t: Tables, t': Tables, root: nat, done: set<nat>, ps: set<nat>)
    requires Built(t, t', root, done) && forall v :: v in done + ps ==> v < LOW_PAGES
    ensures LackOf(t', root, ps) == LackOf(t, root, done + ps) - LackOf(t, root, done)
    ensures LackOf(t, root, done) <= LackOf(t, root, done + ps)
  {
    hide Down, Up;
    var a, b, c := LackOf(t', root, ps), LackOf(t, root, done + ps), LackOf(t, root, done);
    forall x | x in a ensures x in b - c {
      var v: nat, k: nat :| v in ps && 1 <= k <= 3 && Down(t', root, 4, k, v).None? && x == (k, Up(v, k));
      assert !Covered(done, k, v) && Down(t, root, 4, k, v).None?;
    }
    forall x | x in b - c ensures x in a {
      var v: nat, k: nat :| v in done + ps && 1 <= k <= 3 && Down(t, root, 4, k, v).None? && x == (k, Up(v, k));
      if Covered(done, k, v) {
        var w: nat :| w in done && Up(w, k) == Up(v, k);
        DownPrefix(t, root, 4, k, v, w);
        assert false;
      }
    }
  }

  lemma LackRange(t: Tables, root: nat, lo: nat, n: nat, ps: set<nat>)
    requires forall v: nat :: v in ps <==> lo <= v < lo + n
    ensures LackOf(t, root, ps) == Lack(t, root, lo, n)
  {
    hide Down, Up;
  }

  /** Every table below the root, for the pages ps. */
  ghost function Prefixes(ps: set<nat>): (s: set<(nat, nat)>) {
    set v: nat, k: nat | v in ps && 1 <= k <= 3 :: (k, Up(v, k))
  }

  /** An empty root table lacks all of them. */
  lemma {:induction false} LackFresh(t: Tables, root: nat, ps: set<nat>)
    requires root in t && forall v :: v in ps ==> t[root][Idx(v, 4)].Absent?
    ensures LackOf(t, root, ps) == Prefixes(ps)
  {
    hide Up;
    forall v: nat, k: nat | v in ps && 1 <= k <= 3 ensures Down(t, root, 4, k, v).None? {
    }
    hide Down;
  }

  /** The first m levels of the path of vpn. */
  ghost function LevelSet(vpn: nat, m: nat): set<(nat, nat)> {
    if m == 0 then {} else LevelSet(vpn, m - 1) + {(m, Up(vpn, m))}
  }

  lemma {:induction false} Levels(vpn: nat, m: nat)
    ensures |LevelSet(vpn, m)| == m
    ensures forall x: (nat, nat) :: x in LevelSet(vpn, m) <==> 1 <= x.0 <= m && x.1 == Up(vpn, x.0)
  {
    hide Up;
    if m > 0 {
      Levels(vpn, m - 1);
      assert (m, Up(vpn, m)) !in LevelSet(vpn, m - 1);
    }
  }

  lemma {:induction false} MissingDown(t: Tables, p: Places, kernel: nat, f: nat, l: nat, k: nat, vpn: nat)
    requires Shape(t, p, kernel) && vpn < LOW_PAGES && 1 <= k <= l <= 4 && f in t
    requires f in p && p[f].level == l
    ensures Missing(t, f, l, vpn) < l
    ensures k < l ==> (Down(t, f, l, k, vpn).None? <==> k <= Missing(t, f, l, vpn))
    ensures k == l ==> Down(t, f, l, k, vpn).Some?
    decreases l
  {
    if l > 1 {
      assert EntryOk(t, p, kernel, f, Idx(vpn, l));
      var e := t[f][Idx(vpn, l)];
      if e.Present? {
        MissingDown(t, p, kernel, e.frame, l - 1, if k < l then k else l - 1, vpn);
      }
    }
  }

  /** What one page lacks is the number of tables `ensure_child` will have to add for it. */
  lemma {:induction false} LackOne(t: Tables, p: Places, kernel: nat, root: nat, vpn: nat)
    requires Shape(t, p, kernel) && IsRoot(p, root) && vpn < LOW_PAGES
    ensures |Lack(t, root, vpn, 1)| == Missing(t, root, 4, vpn)
  {
    hide Up, Missing, Down;
    var m := Missing(t, root, 4, vpn);
    MissingDown(t, p, kernel, root, 4, 1, vpn);
    Levels(vpn, m);
    forall x: (nat, nat) ensures x in Lack(t, root, vpn, 1) <==> x in LevelSet(vpn, m) {
      if 1 <= x.0 <= 3 && x.1 == Up(vpn, x.0) {
        MissingDown(t, p, kernel, root, 4, x.0, vpn);
        assert x in Lack(t, root, vpn, 1) <==> Down(t, root, 4, x.0, vpn).None?;
      }
    }
    assert Lack(t, root, vpn, 1) == LevelSet(vpn, m);
  }
}
