/** Four-level page tables and what a walk through them finds (kernel/src/mm/vmm.rs). */
module PageTables {
  import opened Prelude

  const PAGE_SIZE: nat := 4096
  const ENTRIES: nat := 512
  const LOW_PAGES: nat := 0x8_0000_0000 // pages of the user half: 2^47 / 4096
  const ALL_PAGES: nat := 0x10_0000_0000 // 512^4

  datatype Flags = Flags(write: bool, user: bool, nx: bool, mmio: bool)

  datatype Pte = Absent | Present(frame: nat, flags: Flags)

  type Table = t: seq<Pte> | |t| == ENTRIES witness seq(ENTRIES, _ => Absent)

  function EmptyTable(): (t: Table)
    ensures forall i :: 0 <= i < ENTRIES ==> t[i] == Absent
  {
    seq(ENTRIES, _ => Absent)
  }

  type Tables = map<nat, Table>

  // ---------------------------------------------------------------------
  // Indexes

  /** Page number vpn with l levels of index stripped. */
  function Up(vpn: nat, l: nat): (p: nat) {
    if l == 0 then vpn else Up(vpn, l - 1) / ENTRIES
  }

  /** Index into the table at level l (4 = PML4, 1 = page table). */
  function Idx(vpn: nat, l: nat): (i: nat)
    requires l > 0
    ensures i < ENTRIES
  {
    Up(vpn, l - 1) % ENTRIES
  }

  function Pml4Idx(v: nat): (i: nat) ensures i < ENTRIES { v / 0x80_0000_0000 % ENTRIES }

  function PdptIdx(v: nat): (i: nat) ensures i < ENTRIES { v / 0x4000_0000 % ENTRIES }

  function PdIdx(v: nat): (i: nat) ensures i < ENTRIES { v / 0x20_0000 % ENTRIES }

  function PtIdx(v: nat): (i: nat) ensures i < ENTRIES { v / 0x1000 % ENTRIES }

  /** The shift-and-mask index functions are the base-512 digits of the page number. */
  lemma IndexDigits(v: nat)
    ensures Pml4Idx(v) == Idx(v / PAGE_SIZE, 4) && PdptIdx(v) == Idx(v / PAGE_SIZE, 3)
    ensures PdIdx(v) == Idx(v / PAGE_SIZE, 2) && PtIdx(v) == Idx(v / PAGE_SIZE, 1)
  {
    var p := v / PAGE_SIZE;
    assert Up(p, 0) == p;
    assert Up(p, 1) == p / ENTRIES == v / 0x20_0000;
    assert Up(p, 2) == Up(p, 1) / ENTRIES == v / 0x4000_0000;
    assert Up(p, 3) == Up(p, 2) / ENTRIES == v / 0x80_0000_0000;
  }

  lemma {:induction false} UpBound(vpn: nat)
    requires vpn < ALL_PAGES
    ensures Up(vpn, 4) == 0 && (Idx(vpn, 4) < 256 <==> vpn < LOW_PAGES)
  {
    assert Up(vpn, 1) < 0x800_0000;
    assert Up(vpn, 2) < 0x4_0000;
    assert Up(vpn, 3) < 0x200;
    assert Up(vpn, 3) == vpn / 0x800_0000 by {
      assert Up(vpn, 1) == vpn / 0x200;
      assert Up(vpn, 2) == vpn / 0x4_0000;
    }
  }

  // ---------------------------------------------------------------------
  // Walks

  /** The leaf entry for vpn below table f of level l, if every entry on the way is present. */
  function Walk(tables: Tables, f: nat, l: nat, vpn: nat): (e: Option<Pte>)
    requires l > 0
    ensures e.Some? ==> e.value.Present?
    decreases l
  {
    if f !in tables then None
    else
      var e := tables[f][Idx(vpn, l)];
      if e.Absent? then None
      else if l == 1 then Some(e)
      else Walk(tables, e.frame, l - 1, vpn)
  }

  function Leaf(tables: Tables, root: nat, vpn: nat): (e: Option<Pte>) {
    Walk(tables, root, 4, vpn)
  }

  /** The walk spelled out: nine bits of the address select the entry in each of the four tables. */
  lemma LeafSteps(tables: Tables, root: nat, va: nat)
    ensures Leaf(tables, root, va / 4096) ==
            if root !in tables then None else
            var e4 := tables[root][va / 0x80_0000_0000 % 512];
            if e4.Absent? || e4.frame !in tables then None else
            var e3 := tables[e4.frame][va / 0x4000_0000 % 512];
            if e3.Absent? || e3.frame !in tables then None else
            var e2 := tables[e3.frame][va / 0x20_0000 % 512];
            if e2.Absent? || e2.frame !in tables then None else
            var e1 := tables[e2.frame][va / 0x1000 % 512];
            if e1.Absent? then None else Some(e1)
  {
    IndexDigits(va);
    hide Idx;
  }

  /** The user half of an address space as a flat map from page number to leaf entry. */
  ghost function Flat(tables: Tables, root: nat): (m: map<nat, Pte>)
    ensures forall v :: v in m ==> v < LOW_PAGES && m[v].Present?
  {
    map vpn: nat | vpn < LOW_PAGES && Leaf(tables, root, vpn).Some? :: Leaf(tables, root, vpn).value
  }

  // ---------------------------------------------------------------------
  // Shape

  /** Where a table sits: in whose tree, at which level, under which page-number prefix. */
  datatype Place = Place(space: nat, level: nat, prefix: nat)

  type Places = map<nat, Place>

  /** The upper half of every PML4 shares the kernel's tables. */
  function ChildPlace(p: Place, i: nat, kernel: nat): (c: Place)
    requires p.level > 0
  {
    if p.level == 4 && i >= 256 then Place(kernel, 3, i)
    else Place(p.space, p.level - 1, p.prefix * ENTRIES + i)
  }

  /** Entry i of a table at this place is on the way to user pages. */
  predicate UserSide(p: Place, i: nat) {
    || (p.level == 4 && i < 256)
    || (p.level == 3 && p.prefix < 256)
    || (p.level == 2 && p.prefix < 256 * 512)
  }

  /** A present entry of an inner table leads to the table of the place it stands for, and on the
      way to user pages it does not forbid execution. */
  ghost predicate EntryOk(tables: Tables, places: Places, kernel: nat, f: nat, i: nat)
    requires f in tables && f in places && i < ENTRIES
  {
    tables[f][i].Present? && places[f].level > 1 ==>
      && tables[f][i].frame in tables && tables[f][i].frame in places
      && places[tables[f][i].frame] == ChildPlace(places[f], i, kernel)
      && (UserSide(places[f], i) ==> !tables[f][i].flags.nx)
  }

  /** Every table has one place and every present entry leads to the table of the place it stands for. */
  ghost predicate Shape(tables: Tables, places: Places, kernel: nat) {
    && places.Keys == tables.Keys
    && kernel in tables && places[kernel] == Place(kernel, 4, 0)
    && (forall f :: f in tables ==> 1 <= places[f].level <= 4 && (places[f].level == 4 ==> places[f] == Place(f, 4, 0)))
    && (forall f, i :: f in tables && 0 <= i < ENTRIES ==> EntryOk(tables, places, kernel, f, i))
  }

  ghost predicate IsRoot(places: Places, r: nat) {
    r in places && places[r] == Place(r, 4, 0)
  }

  /** Tables keep their places; new ones may appear below the top level. */
  ghost predicate Extended(places: Places, places': Places) {
    forall f :: if f in places then f in places' && places'[f] == places[f] else f in places' ==> places'[f].level != 4
  }

  /** The place a walk for vpn from `root` passes at level l. */
  function PathPlace(root: nat, kernel: nat, l: nat, vpn: nat): (p: Place) {
    Place(if l == 4 || vpn < LOW_PAGES then root else kernel, l, Up(vpn, l))
  }

  lemma {:induction false} PathStep(root: nat, kernel: nat, l: nat, vpn: nat)
    requires 1 < l <= 4 && vpn < ALL_PAGES
    ensures ChildPlace(PathPlace(root, kernel, l, vpn), Idx(vpn, l), kernel) == PathPlace(root, kernel, l - 1, vpn)
  {
    UpBound(vpn);
    assert Up(vpn, l) == Up(vpn, l - 1) / ENTRIES;
  }

  // ---------------------------------------------------------------------
  // Adding an empty table

  /** `ensure_child` on an absent entry: a zeroed table hung into slot i of table f. */
  function Graft(tables: Tables, f: nat, i: nat, new_: nat, flags: Flags): (t: Tables)
    requires f in tables && i < ENTRIES
  {
    tables[new_ := EmptyTable()][f := tables[f][i := Present(new_, flags)]]
  }

  /** Hanging in an empty table maps nothing. */
  lemma {:induction false} GraftKeeps(tables: Tables, places: Places, kernel: nat, f: nat, i: nat, new_: nat,
                                      flags: Flags, g: nat, vpn: nat)
    requires Shape(tables, places, kernel) && f in tables && i < ENTRIES && tables[f][i].Absent? && new_ !in tables
    requires places[f].level > 1 && g in tables
    ensures Walk(Graft(tables, f, i, new_, flags), g, places[g].level, vpn) == Walk(tables, g, places[g].level, vpn)
    decreases places[g].level
  {
    var l := places[g].level;
    if l > 1 {
      var t := Graft(tables, f, i, new_, flags);
      var j := Idx(vpn, l);
      assert EntryOk(tables, places, kernel, g, j);
      if g == f && j == i {
        assert Walk(t, new_, l - 1, vpn) == None;
      } else if tables[g][j].Present? {
        GraftKeeps(tables, places, kernel, f, i, new_, flags, tables[g][j].frame, vpn);
      }
    }
  }

  lemma GraftShape(tables: Tables, places: Places, kernel: nat, f: nat, i: nat, new_: nat, flags: Flags)
    requires Shape(tables, places, kernel) && f in tables && i < ENTRIES && tables[f][i].Absent? && new_ !in tables
    requires places[f].level > 1 && (places[f].level == 4 ==> i < 256) && !flags.nx
    ensures Shape(Graft(tables, f, i, new_, flags), places[new_ := ChildPlace(places[f], i, kernel)], kernel)
  {
    var t, p := Graft(tables, f, i, new_, flags), places[new_ := ChildPlace(places[f], i, kernel)];
    forall g, j | g in t && 0 <= j < ENTRIES ensures EntryOk(t, p, kernel, g, j) {
      if g in tables {
        assert EntryOk(tables, places, kernel, g, j);
      }
    }
  }

  // ---------------------------------------------------------------------
  // Changing flags of an inner entry

  function Reflag(tables: Tables, f: nat, i: nat, flags: Flags): (t: Tables)
    requires f in tables && i < ENTRIES && tables[f][i].Present?
  {
    tables[f := tables[f][i := Present(tables[f][i].frame, flags)]]
  }

  /** Widening an inner entry changes no leaf. */
  lemma {:induction false} ReflagKeeps(tables: Tables, places: Places, kernel: nat, f: nat, i: nat, flags: Flags,
                                       g: nat, vpn: nat)
    requires Shape(tables, places, kernel) && f in tables && i < ENTRIES && tables[f][i].Present?
    requires places[f].level > 1 && g in tables
    ensures Walk(Reflag(tables, f, i, flags), g, places[g].level, vpn) == Walk(tables, g, places[g].level, vpn)
    decreases places[g].level
  {
    var l := places[g].level;
    if l > 1 {
      var j := Idx(vpn, l);
      assert EntryOk(tables, places, kernel, g, j);
      if tables[g][j].Present? {
        ReflagKeeps(tables, places, kernel, f, i, flags, tables[g][j].frame, vpn);
      }
    }
  }

  lemma ReflagShape(tables: Tables, places: Places, kernel: nat, f: nat, i: nat, flags: Flags)
    requires Shape(tables, places, kernel) && f in tables && i < ENTRIES && tables[f][i].Present?
    requires UserSide(places[f], i) ==> !flags.nx
    ensures Shape(Reflag(tables, f, i, flags), places, kernel)
  {
    var t := Reflag(tables, f, i, flags);
    forall g, j | g in t && 0 <= j < ENTRIES ensures EntryOk(t, places, kernel, g, j) {
      assert EntryOk(tables, places, kernel, g, j);
    }
  }

  // ---------------------------------------------------------------------
  // Writing a leaf entry

  function PutLeaf(tables: Tables, f: nat, i: nat, e: Pte): (t: Tables)
    requires f in tables && i < ENTRIES
  {
    tables[f := tables[f][i := e]]
  }

  lemma PutLeafShape(tables: Tables, places: Places, kernel: nat, f: nat, i: nat, e: Pte)
    requires Shape(tables, places, kernel) && f in tables && i < ENTRIES && places[f].level == 1
    ensures Shape(PutLeaf(tables, f, i, e), places, kernel)
  {
    var t := PutLeaf(tables, f, i, e);
    forall g, j | g in t && 0 <= j < ENTRIES ensures EntryOk(t, places, kernel, g, j) {
      assert EntryOk(tables, places, kernel, g, j);
    }
  }

  /** A walk that does not end in table f at index i does not see the change. */
  lemma {:induction false} PutLeafElsewhere(tables: Tables, places: Places, kernel: nat, f: nat, i: nat, e: Pte,
                                            root: nat, g: nat, l: nat, vpn: nat)
    requires Shape(tables, places, kernel) && f in tables && i < ENTRIES && places[f].level == 1
    requires 1 <= l <= 4 && vpn < ALL_PAGES && g in tables && places[g] == PathPlace(root, kernel, l, vpn)
    requires places[f] != PathPlace(root, kernel, 1, vpn) || i != Idx(vpn, 1)
    ensures Walk(PutLeaf(tables, f, i, e), g, l, vpn) == Walk(tables, g, l, vpn)
    decreases l
  {
    var j := Idx(vpn, l);
    if l > 1 {
      assert EntryOk(tables, places, kernel, g, j);
      if tables[g][j].Present? {
        PathStep(root, kernel, l, vpn);
        PutLeafElsewhere(tables, places, kernel, f, i, e, root, tables[g][j].frame, l - 1, vpn);
      }
    }
  }

  /** The page table (level 1) a walk for vpn ends in. */
  function End(tables: Tables, f: nat, l: nat, vpn: nat): (r: Option<nat>)
    requires l > 0
    decreases l
  {
    if f !in tables then None
    else if l == 1 then Some(f)
    else if tables[f][Idx(vpn, l)].Absent? then None
    else End(tables, tables[f][Idx(vpn, l)].frame, l - 1, vpn)
  }

  lemma {:induction false} EndPlace(tables: Tables, places: Places, kernel: nat, root: nat, g: nat, l: nat, vpn: nat)
    requires Shape(tables, places, kernel) && 1 <= l <= 4 && vpn < ALL_PAGES && g in tables
    requires places[g] == PathPlace(root, kernel, l, vpn)
    ensures var r := End(tables, g, l, vpn); r.Some? ==>
              r.value in tables && places[r.value] == PathPlace(root, kernel, 1, vpn)
    decreases l
  {
    if l > 1 {
      var j := Idx(vpn, l);
      assert EntryOk(tables, places, kernel, g, j);
      PathStep(root, kernel, l, vpn);
      if tables[g][j].Present? {
        EndPlace(tables, places, kernel, root, tables[g][j].frame, l - 1, vpn);
      }
    }
  }

  lemma {:induction false} EndWalk(tables: Tables, places: Places, kernel: nat, root: nat, g: nat, l: nat, vpn: nat)
    requires 1 <= l <= 4
    ensures Walk(tables, g, l, vpn) ==
            match End(tables, g, l, vpn)
            case None => None
            case Some(f) => if f !in tables || tables[f][Idx(vpn, 1)].Absent? then None
                else Some(tables[f][Idx(vpn, 1)])
    decreases l
  {
    if g in tables && l > 1 && tables[g][Idx(vpn, l)].Present? {
      EndWalk(tables, places, kernel, root, tables[g][Idx(vpn, l)].frame, l - 1, vpn);
    }
  }

  lemma {:induction false} PutLeafEnd(tables: Tables, places: Places, kernel: nat, f: nat, i: nat, e: Pte, g: nat,
                                      l: nat, vpn: nat)
    requires Shape(tables, places, kernel) && f in tables && i < ENTRIES && places[f].level == 1
    requires 1 <= l <= 4 && g in tables && places[g].level == l
    ensures End(PutLeaf(tables, f, i, e), g, l, vpn) == End(tables, g, l, vpn)
    decreases l
  {
    if l > 1 {
      assert EntryOk(tables, places, kernel, g, Idx(vpn, l));
      if tables[g][Idx(vpn, l)].Present? {
        PutLeafEnd(tables, places, kernel, f, i, e, tables[g][Idx(vpn, l)].frame, l - 1, vpn);
      }
    }
  }

  /** A walk that ends in table f at index i sees exactly the new entry. */
  lemma {:induction false} PutLeafHere(tables: Tables, places: Places, kernel: nat, f: nat, i: nat, e: Pte, root: nat,
                                       vpn: nat)
    requires Shape(tables, places, kernel) && IsRoot(places, root) && vpn < LOW_PAGES
    requires End(tables, root, 4, vpn) == Some(f) && i == Idx(vpn, 1)
    ensures f in tables && places[f] == Place(root, 1, Up(vpn, 1))
    ensures Leaf(PutLeaf(tables, f, i, e), root, vpn) == if e.Absent? then None else Some(e)
    ensures Leaf(tables, root, vpn) == if tables[f][i].Absent? then None else Some(tables[f][i])
  {
    UpBound(vpn);
    EndPlace(tables, places, kernel, root, root, 4, vpn);
    EndWalk(tables, places, kernel, root, root, 4, vpn);
    PutLeafShape(tables, places, kernel, f, i, e);
    PutLeafEnd(tables, places, kernel, f, i, e, root, 4, vpn);
    EndWalk(PutLeaf(tables, f, i, e), places, kernel, root, root, 4, vpn);
  }

  // ---------------------------------------------------------------------
  // Address spaces as flat maps

  /** Address space r translates every page as before. */
  ghost predicate SameSpace(tables: Tables, tables': Tables, r: nat) {
    forall vpn: nat :: vpn < ALL_PAGES ==> Leaf(tables', r, vpn) == Leaf(tables, r, vpn)
  }

  /** Every address space, and the kernel half of every space, translates as before. */
  ghost predicate SameSpaces(tables: Tables, places: Places, tables': Tables) {
    forall r :: IsRoot(places, r) ==> SameSpace(tables, tables', r)
  }

  /** Only the user pages of `root` may translate differently. */
  ghost predicate OthersSame(tables: Tables, places: Places, tables': Tables, root: nat) {
    && (forall r :: IsRoot(places, r) && r != root ==> SameSpace(tables, tables', r))
    && (forall vpn: nat :: LOW_PAGES <= vpn < ALL_PAGES ==> Leaf(tables', root, vpn) == Leaf(tables, root, vpn))
  }

  lemma SameSpaceFlat(tables: Tables, tables': Tables, r: nat)
    requires SameSpace(tables, tables', r)
    ensures Flat(tables', r) == Flat(tables, r)
  {
  }

  lemma GraftSpaces(tables: Tables, places: Places, kernel: nat, f: nat, i: nat, new_: nat, flags: Flags)
    requires Shape(tables, places, kernel) && f in tables && i < ENTRIES && tables[f][i].Absent? && new_ !in tables
    requires places[f].level > 1
    ensures SameSpaces(tables, places, Graft(tables, f, i, new_, flags))
  {
    forall r, vpn: nat | IsRoot(places, r) && vpn < ALL_PAGES
      ensures Leaf(Graft(tables, f, i, new_, flags), r, vpn) == Leaf(tables, r, vpn)
    {
      GraftKeeps(tables, places, kernel, f, i, new_, flags, r, vpn);
    }
  }

  lemma ReflagSpaces(tables: Tables, places: Places, kernel: nat, f: nat, i: nat, flags: Flags)
    requires Shape(tables, places, kernel) && f in tables && i < ENTRIES && tables[f][i].Present? && places[f].level > 1
    ensures SameSpaces(tables, places, Reflag(tables, f, i, flags))
  {
    forall r, vpn: nat | IsRoot(places, r) && vpn < ALL_PAGES
      ensures Leaf(Reflag(tables, f, i, flags), r, vpn) == Leaf(tables, r, vpn)
    {
      ReflagKeeps(tables, places, kernel, f, i, flags, r, vpn);
    }
  }

  /** Two pages with the same page table and the same index are the same page. */
  lemma SamePage(a: nat, b: nat)
    requires Up(a, 1) == Up(b, 1) && Idx(a, 1) == Idx(b, 1)
    ensures a == b
  {
    assert a == Up(a, 1) * ENTRIES + Idx(a, 1);
  }

  lemma PutLeafOnly(tables: Tables, places: Places, kernel: nat, root: nat, vpn: nat, f: nat, e: Pte, r: nat, p: nat)
    requires Shape(tables, places, kernel) && IsRoot(places, root) && vpn < LOW_PAGES
    requires End(tables, root, 4, vpn) == Some(f)
    requires f in tables && IsRoot(places, r) && p < ALL_PAGES && !(r == root && p == vpn)
    ensures Leaf(PutLeaf(tables, f, Idx(vpn, 1), e), r, p) == Leaf(tables, r, p)
  {
    PutLeafHere(tables, places, kernel, f, Idx(vpn, 1), e, root, vpn);
    UpBound(p);
    if places[f] == PathPlace(r, kernel, 1, p) && Idx(vpn, 1) == Idx(p, 1) {
      SamePage(p, vpn);
    }
    PutLeafElsewhere(tables, places, kernel, f, Idx(vpn, 1), e, r, r, 4, p);
  }

  /** Writing the leaf slot of one user page changes that binding of that space and nothing else. */
  lemma PutLeafFlat(tables: Tables, places: Places, kernel: nat, root: nat, vpn: nat, f: nat, e: Pte)
    requires Shape(tables, places, kernel) && IsRoot(places, root) && vpn < LOW_PAGES
    requires End(tables, root, 4, vpn) == Some(f)
    requires f in tables
    ensures OthersSame(tables, places, PutLeaf(tables, f, Idx(vpn, 1), e), root)
    ensures Flat(PutLeaf(tables, f, Idx(vpn, 1), e), root) == if e.Present? then Flat(tables, root)[vpn := e]
              else Flat(tables, root) - {vpn}
  {
    hide Shape, PutLeaf, Idx, Leaf, End;
    var t := PutLeaf(tables, f, Idx(vpn, 1), e);
    PutLeafHere(tables, places, kernel, f, Idx(vpn, 1), e, root, vpn);
    forall r, p: nat | IsRoot(places, r) && p < ALL_PAGES && !(r == root && p == vpn)
      ensures Leaf(t, r, p) == Leaf(tables, r, p)
    {
      PutLeafOnly(tables, places, kernel, root, vpn, f, e, r, p);
    }
  }

  // ---------------------------------------------------------------------
  // Tables a mapping would have to add

  function Missing(tables: Tables, f: nat, l: nat, vpn: nat): (n: nat)
    requires l > 0
    decreases l
  {
    if l == 1 || f !in tables then 0
    else if tables[f][Idx(vpn, l)].Absent? then l - 1
    else Missing(tables, tables[f][Idx(vpn, l)].frame, l - 1, vpn)
  }

  lemma {:induction false} ReflagMissing(tables: Tables, f: nat, i: nat, flags: Flags, g: nat, l: nat, vpn: nat)
    requires f in tables && i < ENTRIES && tables[f][i].Present? && l > 0
    ensures Missing(Reflag(tables, f, i, flags), g, l, vpn) == Missing(tables, g, l, vpn)
    ensures End(Reflag(tables, f, i, flags), g, l, vpn) == End(tables, g, l, vpn)
    decreases l
  {
    if g in tables && l > 1 && tables[g][Idx(vpn, l)].Present? {
      ReflagMissing(tables, f, i, flags, tables[g][Idx(vpn, l)].frame, l - 1, vpn);
    }
  }
}
