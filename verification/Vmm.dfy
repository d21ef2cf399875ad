/** Address spaces over physical memory: mapping, unmapping, stealing and installing pages, and
    byte access through the tables (kernel/src/mm/vmm.rs). */
module Vmm {
  import opened Prelude
  import opened PageTables
  import opened TableGrowth
  import opened Pmm
  import Bits

  datatype MapError = OutOfMemory | AlreadyMapped | Misaligned | NoVirtualSpace

  const USER_TOP: nat := 0x8000_0000_0000 // end of the user half
  const USER_IPC_BASE: nat := 0x2000_0000
  const USER_IPC_END: nat := 0x6000_0000

  /** Flags of pages handed over by IPC. */
  const HANDED_OVER := Flags(true, true, true, false)

  type Page = p: seq<byte> | |p| == PageTables.PAGE_SIZE witness Zeros(PageTables.PAGE_SIZE)

  /** Intermediate entries grant write, and user access if the leaf is a user page. */
  function Inner(flags: Flags): (f: Flags) {
    Flags(true, flags.user, false, false)
  }

  function Union(a: Flags, b: Flags): (f: Flags) {
    Flags(a.write || b.write, a.user || b.user, a.nx || b.nx, a.mmio || b.mmio)
  }

  function PageNo(addr: nat): (n: nat)
    ensures addr < USER_TOP ==> n < LOW_PAGES
  {
    addr / PageTables.PAGE_SIZE
  }

  predicate Aligned(x: nat) {
    x % PageTables.PAGE_SIZE == 0
  }

  /** An address space while a range is handed back: pages below lo + j are back with the
      flags of a handed-over page, pages from there to lo + n are out. */
  ghost function Partly(m: map<nat, Pte>, lo: nat, j: nat, n: nat): (r: map<nat, Pte>) {
    map v | v in m && !(lo + j <= v < lo + n) :: if lo <= v < lo + j
        && m[v].Present? then Present(m[v].frame, HANDED_OVER) else m[v]
  }

  /** None of the n pages from lo is mapped. */
  ghost predicate Vacant(m: map<nat, Pte>, lo: nat, n: nat) {
    forall v: nat :: lo <= v < lo + n ==> v !in m
  }

  /** An address space with a range of frames added to it. */
  ghost function Handed(m: map<nat, Pte>, lo: nat, frames: seq<nat>, flags: Flags): (r: map<nat, Pte>) {
    if frames == [] then m
    else
      var n := |frames| - 1;
      Handed(m, lo, frames[..n], flags)[lo + n := Present(PageNo(frames[n]), flags)]
  }

  lemma {:induction false} HandedAt(m: map<nat, Pte>, lo: nat, frames: seq<nat>, flags: Flags, v: nat)
    ensures v in Handed(m, lo, frames, flags) <==> v in m || lo <= v < lo + |frames|
    ensures v in Handed(m, lo, frames, flags) ==>
              Handed(m, lo, frames, flags)[v] == if lo <= v < lo + |frames| then Present(PageNo(frames[v - lo]), flags)
                  else m[v]
  {
    if frames != [] {
      HandedAt(m, lo, frames[..|frames| - 1], flags, v);
    }
  }

  /** a grants all that b grants. */
  predicate Wider(a: Flags, b: Flags) {
    (b.write ==> a.write) && (b.user ==> a.user)
  }

  /** Every inner entry on the path of vpn below table f grants `flags`, and none forbids execution: what
      a page may be used for is what its leaf entry says. */
  ghost predicate Grants(tables: Tables, f: nat, l: nat, vpn: nat, flags: Flags)
    requires l > 0
    decreases l
  {
    l == 1 || (f in tables && tables[f][Idx(vpn, l)].Present? && Wider(tables[f][Idx(vpn, l)].flags, flags)
        && !tables[f][Idx(vpn, l)].flags.nx && Grants(tables, tables[f][Idx(vpn, l)].frame, l - 1, vpn, flags))
  }

  lemma {:induction false} PutLeafGrants(tables: Tables, places: Places, kernel: nat, f: nat, i: nat, e: Pte, g: nat,
                                         l: nat, vpn: nat, flags: Flags)
    requires Shape(tables, places, kernel) && f in tables && i < ENTRIES && places[f].level == 1
    requires 1 <= l <= 4 && g in tables && places[g].level == l && Grants(tables, g, l, vpn, flags)
    ensures Grants(PutLeaf(tables, f, i, e), g, l, vpn, flags)
    decreases l
  {
    if l > 1 {
      assert EntryOk(tables, places, kernel, g, Idx(vpn, l));
      PutLeafGrants(tables, places, kernel, f, i, e, tables[g][Idx(vpn, l)].frame, l - 1, vpn, flags);
    }
  }

  /** Mapping a page takes no permission from any other page. */
  lemma {:induction false} GrantsKept(t: Tables, t': Tables, p': Places, root: nat, vpn: nat, f: nat, l: nat, v: nat,
                                      flags: Flags)
    requires Grown(t, t', p', root, vpn) && l > 0 && Grants(t, f, l, v, flags)
    ensures Grants(t', f, l, v, flags)
    decreases l
  {
    if l > 1 {
      assert GrownEntry(t, t', p', root, vpn, f, Idx(v, l));
      GrantsKept(t, t', p', root, vpn, t[f][Idx(v, l)].frame, l - 1, v, flags);
    }
  }

  lemma KernelTable(tables: Tables, places: Places, kernel: nat)
    requires Shape(tables, places, kernel)
    ensures kernel in tables && places.Keys == tables.Keys
  {
  }

  lemma {:induction false} FreshElsewhere(tables: Tables, places: Places, kernel: nat, f: nat, new_: Table, g: nat,
                                          l: nat, v: nat)
    requires Shape(tables, places, kernel) && f !in tables && g in tables && 1 <= l <= 4 && places[g].level == l
    ensures Walk(tables[f := new_], g, l, v) == Walk(tables, g, l, v)
    decreases l
  {
    if l > 1 {
      assert EntryOk(tables, places, kernel, g, Idx(v, l));
      if tables[g][Idx(v, l)].Present? {
        FreshElsewhere(tables, places, kernel, f, new_, tables[g][Idx(v, l)].frame, l - 1, v);
      }
    }
  }

  /** A PML4 with an empty user half and the kernel's upper half. */
  lemma NewSpace(tables: Tables, places: Places, kernel: nat, f: nat, pml4: Table)
    requires Shape(tables, places, kernel) && kernel in tables && f !in tables
    requires forall j :: 0 <= j < ENTRIES ==> pml4[j] == if 256 <= j then tables[kernel][j] else Absent
    ensures var t, p := tables[f := pml4], places[f := Place(f, 4, 0)];
            && Shape(t, p, kernel) && SameSpaces(tables, places, t) && Flat(t, f) == map[]
            && forall v: nat :: LOW_PAGES <= v < ALL_PAGES ==> Leaf(t, f, v) == Leaf(t, kernel, v)
  {
    var t, p := tables[f := pml4], places[f := Place(f, 4, 0)];
    forall g, j | g in t && 0 <= j < ENTRIES ensures EntryOk(t, p, kernel, g, j) {
      if g == f {
        assert EntryOk(tables, places, kernel, kernel, j);
      } else {
        assert EntryOk(tables, places, kernel, g, j);
      }
    }
    forall r, v: nat | IsRoot(places, r) && v < ALL_PAGES ensures Leaf(t, r, v) == Leaf(tables, r, v) {
      UpBound(v);
      FreshElsewhere(tables, places, kernel, f, pml4, r, 4, v);
    }
    forall v: nat | v < ALL_PAGES ensures Leaf(t, f, v) == if v < LOW_PAGES then None else Leaf(t, kernel, v) {
      UpBound(v);
    }
  }

  /** The starts the first-fit search can return: the scan stops n pages before the end of
      the window, so a run must lie n - 1 pages further inside. */
  ghost predicate Accepts(m: map<nat, Pte>, n: nat, s: nat) {
    n > 0 && Aligned(s) && USER_IPC_BASE <= s && s + (2 * n - 1) * PageTables.PAGE_SIZE <= USER_IPC_END
        && Vacant(m, PageNo(s), n)
  }

  /** Before page q: the last `run` pages are vacant, the one before them is not, and no
      vacant run of n pages has ended. */
  ghost predicate Swept(m: map<nat, Pte>, n: nat, q: nat, run: nat) {
    var b := PageNo(USER_IPC_BASE);
    && b <= q - run && (n > 0 ==> run < n) && Vacant(m, q - run, run)
    && (q - run > b ==> q - run - 1 in m)
    && forall s: nat :: b <= s && s + n <= q && n > 0 ==> !Vacant(m, s, n)
  }

  lemma SweepStart(m: map<nat, Pte>, n: nat, q: nat)
    requires q == PageNo(USER_IPC_BASE)
    ensures Swept(m, n, q, 0)
  {
  }

  lemma SweepStep(m: map<nat, Pte>, n: nat, q: nat, run: nat)
    requires Swept(m, n, q, run)
    ensures q in m ==> Swept(m, n, q + 1, 0)
    ensures q !in m && run + 1 != n ==> Swept(m, n, q + 1, run + 1)
    ensures q !in m && run + 1 == n ==>
              Vacant(m, q + 1 - n, n) && forall s: nat :: PageNo(USER_IPC_BASE) <= s < q + 1 - n ==> !Vacant(m, s, n)
  {
    if n > 0 && q !in m && run + 1 != n {
      forall s: nat | PageNo(USER_IPC_BASE) <= s && s + n <= q + 1 ensures !Vacant(m, s, n) {
        if s + n == q + 1 {
          assert s <= q - run - 1 < s + n;
        }
      }
    }
  }

  lemma FrameAddr(f: nat)
    ensures PageNo(f * PageTables.PAGE_SIZE) == f && Aligned(f * PageTables.PAGE_SIZE)
  {
  }

  lemma SweepFound(m: map<nat, Pte>, n: nat, q: nat, start: nat)
    requires n > 0 && q + 1 - n >= PageNo(USER_IPC_BASE) && start == (q + 1 - n) * PageTables.PAGE_SIZE
    requires (q + n) * PageTables.PAGE_SIZE <= USER_IPC_END
    requires Vacant(m, q + 1 - n, n) && forall s: nat :: PageNo(USER_IPC_BASE) <= s < q + 1 - n ==> !Vacant(m, s, n)
    ensures Accepts(m, n, start) && forall s: nat :: s < start ==> !Accepts(m, n, s)
  {
    hide Vacant;
    FrameAddr(q + 1 - n);
    forall s: nat | s < start ensures !Accepts(m, n, s) {
      if Aligned(s) && USER_IPC_BASE <= s {
        assert PageNo(USER_IPC_BASE) <= PageNo(s) < q + 1 - n;
      }
    }
  }

  lemma SweepEnd(m: map<nat, Pte>, n: nat, q: nat, run: nat)
    requires Swept(m, n, q, run) && (q + n) * PageTables.PAGE_SIZE > USER_IPC_END
    ensures forall s: nat :: !Accepts(m, n, s)
  {
    hide Vacant;
    forall s: nat ensures !Accepts(m, n, s) {
      assert s + (2 * n - 1) * PageTables.PAGE_SIZE <= USER_IPC_END ==> PageNo(s) + n <= q;
    }
  }

  function Entry(tables: Tables, f: nat, i: nat): (e: Pte)
    requires i < ENTRIES
  {
    if f in tables then tables[f][i] else Absent
  }

  /** No frame is mapped at two pages. */
  ghost predicate Injective(m: map<nat, Pte>) {
    && (forall v :: v in m ==> m[v].Present?)
    && forall v, w :: v in m && w in m && v != w ==> m[v].frame != m[w].frame
  }

  /** The bytes of a physical frame. */
  function Content(pages: map<nat, Page>, f: nat): (p: Page) {
    if f in pages then pages[f] else Zeros(PageTables.PAGE_SIZE)
  }

  /** The byte at a user address, if its page is mapped. */
  ghost function UserByte(m: map<nat, Pte>, pages: map<nat, Page>, va: nat): (b: Option<byte>) {
    if PageNo(va) in m && m[PageNo(va)].Present?
        then Some(Content(pages, m[PageNo(va)].frame)[va % PageTables.PAGE_SIZE]) else None
  }

  /** The bytes `data` stand at `virt`; no other user byte and no frame outside the space changed. */
  ghost predicate Written(m: map<nat, Pte>, pages: map<nat, Page>, pages': map<nat, Page>, virt: nat, data: seq<byte>) {
    && (forall va: nat :: UserByte(m, pages', va) == if virt <= va < virt + |data| then Some(data[va - virt])
         else UserByte(m, pages, va))
    && (forall f :: (forall v :: v in m && m[v].Present? ==> m[v].frame != f) ==>
           Content(pages', f) == Content(pages, f))
  }

  function Splice(p: Page, off: nat, bytes: seq<byte>): (r: Page)
    requires off + |bytes| <= PageTables.PAGE_SIZE
  {
    p[..off] + bytes + p[off + |bytes|..]
  }

  lemma WrittenNone(m: map<nat, Pte>, pages: map<nat, Page>, virt: nat)
    ensures Written(m, pages, pages, virt, [])
  {
    hide UserByte, Content;
  }

  lemma ZerosSplit(len: nat, k: nat, n: nat)
    requires k + n <= len
    ensures Zeros(len)[..k] == Zeros(k) && Zeros(len)[k..k + n] == Zeros(n) && Zeros(len)[..k + n] == Zeros(k + n)
  {
  }

  lemma WrittenPage(m: map<nat, Pte>, pages: map<nat, Page>, va: nat, bytes: seq<byte>)
    requires Injective(m) && PageNo(va) in m && |bytes| <= PageTables.PAGE_SIZE - va % PageTables.PAGE_SIZE
    ensures var f := m[PageNo(va)].frame;
              Written(m, pages, pages[f := Splice(Content(pages, f), va % PageTables.PAGE_SIZE, bytes)], va, bytes)
  {
    var f, off := m[PageNo(va)].frame, va % PageTables.PAGE_SIZE;
    var pages' := pages[f := Splice(Content(pages, f), off, bytes)];
    forall a: nat
      ensures UserByte(m, pages', a) == if va <= a < va + |bytes| then Some(bytes[a - va]) else UserByte(m, pages, a)
    {
      if PageNo(a) == PageNo(va) {
        assert a - va == a % PageTables.PAGE_SIZE - off;
      }
    }
  }

  lemma WrittenAppend(m: map<nat, Pte>, p0: map<nat, Page>, p1: map<nat, Page>, p2: map<nat, Page>, virt: nat,
                      bytes: seq<byte>, k: nat, n: nat)
    requires k + n <= |bytes| && Written(m, p0, p1, virt, bytes[..k]) && Written(m, p1, p2, virt + k, bytes[k..k + n])
    ensures Written(m, p0, p2, virt, bytes[..k + n])
  {
    hide UserByte, Content;
  }

  ghost function AsSet(o: Option<nat>): set<nat> {
    if o.Some? then {o.value} else {}
  }

  ghost function PageSet(addrs: seq<nat>): (s: set<nat>) {
    set i | 0 <= i < |addrs| :: PageNo(addrs[i])
  }

  ghost predicate Distinct(addrs: seq<nat>) {
    forall i, j :: 0 <= i < j < |addrs| ==> PageNo(addrs[i]) != PageNo(addrs[j])
  }

  /** Page tables and free frames. */
  datatype State = St(tables: Tables, places: Places, free: set<nat>)

  /** Frames moved from the free set to the page tables at most, and only the user pages of `root` changed. */
  ghost predicate Kept(s: State, s': State, root: nat) {
    && Extended(s.places, s'.places) && OthersSame(s.tables, s.places, s'.tables, root)
    && s'.free + s'.tables.Keys == s.free + s.tables.Keys && s.tables.Keys <= s'.tables.Keys
  }

  /** The frames `taken` left the free set; the rest is as after `Kept`. */
  ghost predicate AnonKept(s: State, s': State, root: nat, taken: set<nat>) {
    taken <= s.free && Kept(s.(free := s.free - taken), s', root)
  }

  lemma AnonRoot(s: State, s': State, root: nat, taken: set<nat>)
    requires AnonKept(s, s', root, taken) && IsRoot(s.places, root)
    ensures IsRoot(s'.places, root)
  {
  }

  lemma ExtendedSelf(p: Places)
    ensures Extended(p, p)
  {
  }

  // ---------------------------------------------------------------------
  // How far a list of fresh pages gets

  /** The addresses of consecutive pages. */
  ghost function Vas(virt: nat, count: nat): (vas: seq<nat>)
    ensures |vas| == count
  {
    seq(count, i => virt + i * PageTables.PAGE_SIZE)
  }

  /** Free frames left when the first j pages are mapped, with the tables they lack. */
  ghost function Spare(s: State, root: nat, vas: seq<nat>, j: nat): (n: int)
    requires j <= |vas|
  {
    |s.free| - |LackOf(s.tables, root, PageSet(vas[..j]))| - j
  }

  /** The first j pages can be mapped: aligned, vacant, distinct, and frames for them and their tables. */
  ghost predicate Reach(s: State, root: nat, vas: seq<nat>, j: nat) {
    && j <= |vas| && Distinct(vas[..j])
    && (forall i :: 0 <= i < j ==> Aligned(vas[i]) && PageNo(vas[i]) !in Flat(s.tables, root))
    && Spare(s, root, vas, j) >= 0
  }

  /** j pages can be mapped and no more. */
  ghost predicate MostReached(s: State, root: nat, vas: seq<nat>, j: nat) {
    Reach(s, root, vas, j) && forall i :: j < i <= |vas| ==> !Reach(s, root, vas, i)
  }

  /** The pages were mapped, each on a frame of its own, with the tables they lacked. */
  ghost predicate AnonDone(s0: State, s: State, root: nat, vas: seq<nat>) {
    && Built(s0.tables, s.tables, root, PageSet(vas))
    && |s.free| == |s0.free| - |LackOf(s0.tables, root, PageSet(vas))| - |vas|
    && Flat(s.tables, root).Keys == Flat(s0.tables, root).Keys + PageSet(vas)
  }

  ghost predicate InUser(vas: seq<nat>) {
    forall i :: 0 <= i < |vas| ==> vas[i] < USER_TOP
  }

  lemma InUserPages(virt: nat, count: nat)
    requires virt + count * PageTables.PAGE_SIZE <= USER_TOP
    ensures InUser(Vas(virt, count))
  {
  }

  lemma PageSetJoin(a: seq<nat>, b: seq<nat>)
    ensures PageSet(a + b) == PageSet(a) + PageSet(b)
  {
    hide PageNo;
    forall v | v in PageSet(a) + PageSet(b) ensures v in PageSet(a + b) {
      if v in PageSet(a) {
        var i :| 0 <= i < |a| && v == PageNo(a[i]);
        assert (a + b)[i] == a[i];
      } else {
        var i :| 0 <= i < |b| && v == PageNo(b[i]);
        assert (a + b)[|a| + i] == b[i];
      }
    }
  }

  lemma NoneIn(vas: seq<nat>, x: set<nat>)
    requires forall i :: 0 <= i < |vas| ==> PageNo(vas[i]) !in x
    ensures x !! PageSet(vas)
  {
    hide PageNo;
  }

  lemma DistinctJoin(a: seq<nat>, b: seq<nat>)
    ensures Distinct(a + b) <==> Distinct(a) && Distinct(b) && PageSet(a) !! PageSet(b)
  {
    hide PageNo;
    var c := a + b;
    if Distinct(c) {
      forall i, j | 0 <= i < j < |a| ensures PageNo(a[i]) != PageNo(a[j]) {
        assert c[i] == a[i] && c[j] == a[j];
      }
      forall i, j | 0 <= i < j < |b| ensures PageNo(b[i]) != PageNo(b[j]) {
        assert c[|a| + i] == b[i] && c[|a| + j] == b[j];
      }
      forall j | 0 <= j < |b| ensures PageNo(b[j]) !in PageSet(a) {
        forall i | 0 <= i < |a| ensures PageNo(a[i]) != PageNo(b[j]) {
          assert c[i] == a[i] && c[|a| + j] == b[j];
        }
      }
      NoneIn(b, PageSet(a));
    } else {
      var i, j :| 0 <= i < j < |c| && PageNo(c[i]) == PageNo(c[j]);
      if i < |a| <= j {
        assert PageNo(a[i]) in PageSet(a) && PageNo(b[j - |a|]) in PageSet(b);
      }
    }
  }

  lemma SubsetSize<T>(a: set<T>, b: set<T>)
    requires a <= b
    ensures |b - a| == |b| - |a|
  {
    assert b == a + (b - a);
  }

  /** When more pages can be mapped, so can fewer. */
  lemma ReachLess(s: State, root: nat, vas: seq<nat>, i: nat, j: nat)
    requires i <= j <= |vas|
    ensures Reach(s, root, vas, j) ==> Reach(s, root, vas, i)
  {
    if Reach(s, root, vas, j) {
      assert vas[..j] == vas[..i] + vas[i..j];
      DistinctJoin(vas[..i], vas[i..j]);
      PageSetJoin(vas[..i], vas[i..j]);
      hide PageSet, Flat, PageNo, Aligned, Distinct;
      var few, many := LackOf(s.tables, root, PageSet(vas[..i])), LackOf(s.tables, root, PageSet(vas[..j]));
      assert few <= many;
      SubsetSize(few, many);
    }
  }

  lemma DoneNone(s: State, root: nat)
    ensures AnonDone(s, s, root, []) && PageSet([]) == {}
  {
    hide Flat;
    assert PageSet([]) == {};
    BuiltNone(s.tables, root);
    assert LackOf(s.tables, root, {}) == {};
  }

  lemma VpnAt(virt: nat, i: nat)
    requires Aligned(virt)
    ensures Aligned(virt + i * PageTables.PAGE_SIZE) && PageNo(virt + i * PageTables.PAGE_SIZE) == PageNo(virt) + i
  {
  }

  lemma RangePages(virt: nat, count: nat)
    requires Aligned(virt)
    ensures forall v: nat :: v in PageSet(Vas(virt, count)) <==> PageNo(virt) <= v < PageNo(virt) + count
  {
    var vas := Vas(virt, count);
    forall v: nat ensures v in PageSet(vas) <==> PageNo(virt) <= v < PageNo(virt) + count {
      if v in PageSet(vas) {
        var i :| 0 <= i < |vas| && v == PageNo(vas[i]);
        VpnAt(virt, i);
      }
      if PageNo(virt) <= v < PageNo(virt) + count {
        VpnAt(virt, v - PageNo(virt));
        assert vas[v - PageNo(virt)] == virt + (v - PageNo(virt)) * PageTables.PAGE_SIZE;
      }
    }
  }

  /** Free frames left over once the tables for n pages from lo are there. */
  ghost function Slack(s: State, root: nat, lo: nat, n: nat): int {
    |s.free| - |Lack(s.tables, root, lo, n)|
  }

  /** For consecutive pages: alignment of the first, vacancy, and the tables of the range. */
  lemma ReachRange(s: State, root: nat, virt: nat, count: nat)
    ensures Reach(s, root, Vas(virt, count), count) <==>
            count == 0 || (Aligned(virt) && Vacant(Flat(s.tables, root), PageNo(virt), count)
                && Slack(s, root, PageNo(virt), count) >= count)
  {
    var vas := Vas(virt, count);
    assert vas[..count] == vas;
    if count > 0 {
      assert vas[0] == virt;
      if Aligned(virt) {
        RangePages(virt, count);
        LackRange(s.tables, root, PageNo(virt), count, PageSet(vas));
        hide Flat, PageSet, LackOf, Lack;
        forall i | 0 <= i < count ensures Aligned(vas[i]) && PageNo(vas[i]) == PageNo(virt) + i {
          VpnAt(virt, i);
        }
        assert forall i :: 0 <= i < count ==> PageNo(virt) + i == PageNo(vas[i]);
        if forall i :: 0 <= i < count ==> PageNo(vas[i]) !in Flat(s.tables, root) {
          forall v: nat | PageNo(virt) <= v < PageNo(virt) + count ensures v !in Flat(s.tables, root) {
            assert PageNo(vas[v - PageNo(virt)]) == v;
          }
        }
      }
    } else {
      assert vas == [];
      DoneNone(s, root);
    }
  }

  lemma MostHere(s: State, root: nat, virt: nat, count: nat, j: nat)
    requires j < count && Reach(s, root, Vas(virt, count), j) && !Reach(s, root, Vas(virt, count), j + 1)
    ensures MostReached(s, root, Vas(virt, count), j)
    ensures !(Aligned(virt) && Vacant(Flat(s.tables, root), PageNo(virt), count)
              && Slack(s, root, PageNo(virt), count) >= count)
  {
    hide Reach, Flat, Slack, Vacant, Aligned, PageNo, Vas;
    var vas := Vas(virt, count);
    ReachRange(s, root, virt, count);
    forall i | j < i <= |vas| ensures !Reach(s, root, vas, i) {
      ReachLess(s, root, vas, j + 1, i);
    }
  }

  lemma OnePage(va: nat)
    ensures PageSet([va]) == {PageNo(va)} && [va][..1] == [va] && Distinct([va])
  {
    assert [va][0] == va;
  }

  lemma LackOnePage(s: State, kernel: nat, root: nat, v: nat)
    requires Shape(s.tables, s.places, kernel) && IsRoot(s.places, root) && v < LOW_PAGES
    ensures |LackOf(s.tables, root, {v})| == Missing(s.tables, root, 4, v)
  {
    hide Shape, Missing;
    LackOne(s.tables, s.places, kernel, root, v);
    LackRange(s.tables, root, v, 1, {v});
  }

  /** One page can be mapped when there are frames for it and for the tables on its path. */
  lemma ReachOne(s: State, kernel: nat, root: nat, va: nat)
    requires Shape(s.tables, s.places, kernel) && IsRoot(s.places, root) && va < USER_TOP
    ensures Reach(s, root, [va], 1) <==>
            Aligned(va) && PageNo(va) !in Flat(s.tables, root) && Missing(s.tables, root, 4, PageNo(va)) < |s.free|
  {
    OnePage(va);
    LackOnePage(s, kernel, root, PageNo(va));
    hide Shape, Missing, LackOf, Flat, PageSet, Distinct, PageNo, Aligned;
    assert [va][0] == va;
  }

  lemma DoneOne(s0: State, s: State, kernel: nat, root: nat, va: nat, f: nat, flags: Flags)
    requires Shape(s0.tables, s0.places, kernel) && IsRoot(s0.places, root) && va < USER_TOP
    requires Built(s0.tables, s.tables, root, {PageNo(va)})
    requires |s.free| == |s0.free| - 1 - Missing(s0.tables, root, 4, PageNo(va))
    requires Flat(s.tables, root) == Flat(s0.tables, root)[PageNo(va) := Present(f, flags)]
    ensures AnonDone(s0, s, root, [va])
  {
    OnePage(va);
    LackOnePage(s0, kernel, root, PageNo(va));
    hide Shape, Built, LackOf, Missing, PageNo;
  }

  /** State of `map_anon` after the pages `mapped`. */
  ghost predicate AnonProgress(mapped: seq<nat>, lo: nat, vas: seq<nat>, root: nat, flags: Flags, s0: State, s: State) {
    && |mapped| <= |vas| && Distinct(mapped) && AnonKept(s0, s, root, PageSet(mapped)) && s0.free !! s0.tables.Keys
    && Flat(s.tables, root) == Handed(Flat(s0.tables, root), lo, mapped, flags)
    && Vacant(Flat(s0.tables, root), lo, |mapped|) && InUser(vas)
    && AnonDone(s0, s, root, vas[..|mapped|]) && Reach(s0, root, vas, |mapped|)
  }

  lemma KeptSelf(s: State, root: nat)
    ensures Kept(s, s, root)
  {
  }

  lemma AnonStart(lo: nat, vas: seq<nat>, root: nat, flags: Flags, s: State)
    requires s.free !! s.tables.Keys && InUser(vas)
    ensures AnonProgress([], lo, vas, root, flags, s, s)
    ensures PageSet([]) == {}
  {
    hide Flat, Kept, AnonDone;
    KeptSelf(s, root);
    DoneNone(s, root);
    assert vas[..0] == [];
    assert LackOf(s.tables, root, {}) == {};
    assert s.(free := s.free - {}) == s;
  }

  lemma PageSetIn(vas: seq<nat>, v: nat)
    ensures v in PageSet(vas) <==> exists i :: 0 <= i < |vas| && v == PageNo(vas[i])
    ensures InUser(vas) && v in PageSet(vas) ==> v < LOW_PAGES
  {
  }

  lemma SpareOn(s0: State, s1: State, root: nat, a: seq<nat>, b: seq<nat>, j: nat)
    requires AnonDone(s0, s1, root, a) && InUser(a + b) && j <= |b|
    ensures Spare(s1, root, b, j) == Spare(s0, root, a + b, |a| + j)
  {
    var c := b[..j];
    assert (a + b)[..|a| + j] == a + c;
    PageSetJoin(a, c);
    forall v | v in PageSet(a) + PageSet(c) ensures v < LOW_PAGES {
      PageSetIn(a + c, v);
    }
    hide PageSet, LackOf, Built, Flat;
    LackBuilt(s0.tables, s1.tables, root, PageSet(a), PageSet(c));
    SubsetSize(LackOf(s0.tables, root, PageSet(a)), LackOf(s0.tables, root, PageSet(a) + PageSet(c)));
  }

  /** Where the pages of a list end up, after those of another were mapped. */
  lemma ReachOn(s0: State, s1: State, root: nat, a: seq<nat>, b: seq<nat>, j: nat)
    requires Reach(s0, root, a, |a|) && AnonDone(s0, s1, root, a) && InUser(a + b) && j <= |b|
    ensures Spare(s1, root, b, j) == Spare(s0, root, a + b, |a| + j)
    ensures Reach(s1, root, b, j) <==> Reach(s0, root, a + b, |a| + j)
  {
    var c, d := b[..j], (a + b)[..|a| + j];
    assert d == a + c && a[..|a|] == a;
    PageSetJoin(a, c);
    DistinctJoin(a, c);
    SpareOn(s0, s1, root, a, b, j);
    hide PageSet, Distinct, LackOf, Flat, PageNo, Aligned, Built;
    if Reach(s1, root, b, j) {
      forall i | 0 <= i < |c| ensures PageNo(c[i]) !in PageSet(a) {
        assert c[i] == b[i];
      }
      NoneIn(c, PageSet(a));
      forall i | 0 <= i < |a| + j ensures Aligned((a + b)[i]) && PageNo((a + b)[i]) !in Flat(s0.tables, root) {
        if i >= |a| {
          assert (a + b)[i] == b[i - |a|];
        }
      }
    }
    if Reach(s0, root, a + b, |a| + j) {
      forall i | 0 <= i < j ensures Aligned(b[i]) && PageNo(b[i]) !in Flat(s1.tables, root) {
        assert (a + b)[|a| + i] == b[i] && c[i] == b[i];
        PageSetIn(c, PageNo(b[i]));
      }
    }
  }

  lemma DoneSpare(s0: State, s: State, root: nat, vas: seq<nat>, i: nat)
    requires i <= |vas| && AnonDone(s0, s, root, vas[..i])
    ensures |s.free| == Spare(s0, root, vas, i)
  {
    hide PageSet, LackOf, Built, Flat;
  }

  lemma ReachPrefix(s: State, root: nat, vas: seq<nat>, i: nat, j: nat)
    requires j <= i <= |vas|
    ensures Reach(s, root, vas[..i], j) <==> Reach(s, root, vas, j)
  {
    hide Flat, PageSet, Distinct, LackOf, PageNo, Aligned;
    assert vas[..i][..j] == vas[..j];
    assert forall k :: 0 <= k < j ==> vas[..i][k] == vas[k];
  }

  /** The next page can be mapped when the pages up to it can; the frames left are those spare. */
  lemma AnonNext(mapped: seq<nat>, lo: nat, vas: seq<nat>, root: nat, flags: Flags, s0: State, s: State)
    requires AnonProgress(mapped, lo, vas, root, flags, s0, s) && |mapped| < |vas|
    ensures Reach(s, root, [vas[|mapped|]], 1) <==> Reach(s0, root, vas, |mapped| + 1)
    ensures |s.free| == Spare(s0, root, vas, |mapped|)
  {
    hide Flat, AnonKept, Distinct, Handed, Vacant, Reach, AnonDone, PageSet, LackOf;
    var i := |mapped|;
    var a, b := vas[..i], [vas[i]];
    assert a + b == vas[..i + 1];
    assert InUser(a + b);
    ReachPrefix(s0, root, vas, i, i);
    ReachPrefix(s0, root, vas, i + 1, i + 1);
    ReachOn(s0, s, root, a, b, 1);
    DoneSpare(s0, s, root, vas, i);
  }

  lemma PageSetAppend(addrs: seq<nat>, f: nat)
    requires Distinct(addrs) && f !in PageSet(addrs)
    ensures PageSet(addrs + [f * PageTables.PAGE_SIZE]) == PageSet(addrs) + {f}
    ensures Distinct(addrs + [f * PageTables.PAGE_SIZE])
  {
    hide PageNo;
    FrameAddr(f);
    var b := addrs + [f * PageTables.PAGE_SIZE];
    forall i | 0 <= i < |addrs| ensures PageNo(b[i]) in PageSet(addrs) {
      assert b[i] == addrs[i];
    }
    forall x | x in PageSet(addrs) ensures x in PageSet(b) {
      var i :| 0 <= i < |addrs| && x == PageNo(addrs[i]);
      assert b[i] == addrs[i];
    }
    assert b[|addrs|] == f * PageTables.PAGE_SIZE;
  }

  lemma ExtendedTransitive(p0: Places, p1: Places, p2: Places)
    requires Extended(p0, p1) && Extended(p1, p2)
    ensures Extended(p0, p2)
  {
  }

  lemma MappedSpaces(t0: Tables, p0: Places, t1: Tables, p1: Places, t2: Tables, root: nat)
    requires OthersSame(t0, p0, t1, root) && OthersSame(t1, p1, t2, root) && Extended(p0, p1)
    ensures OthersSame(t0, p0, t2, root)
  {
    forall r | IsRoot(p0, r) && r != root ensures SameSpace(t0, t2, r) {
      assert IsRoot(p1, r);
      assert SameSpace(t0, t1, r) && SameSpace(t1, t2, r);
    }
  }

  lemma AnonTransitive(s0: State, s1: State, s2: State, root: nat, a: set<nat>, b: set<nat>)
    requires AnonKept(s0, s1, root, a) && AnonKept(s1, s2, root, b)
    requires s0.free !! s0.tables.Keys && s1.free !! s1.tables.Keys
    ensures AnonKept(s0, s2, root, a + b) && a !! b
  {
    hide OthersSame, Extended;
    var x, y := s0.(free := s0.free - a), s1.(free := s1.free - b);
    assert b <= s0.free - a by {
      assert s1.free + s1.tables.Keys == x.free + s0.tables.Keys && s0.tables.Keys <= s1.tables.Keys;
    }
    MappedSpaces(s0.tables, s0.places, s1.tables, s1.places, s2.tables, root);
    ExtendedTransitive(s0.places, s1.places, s2.places);
  }

  lemma DoneOn(s0: State, s1: State, s2: State, root: nat, a: seq<nat>, b: seq<nat>)
    requires AnonDone(s0, s1, root, a) && AnonDone(s1, s2, root, b) && InUser(a + b)
    ensures AnonDone(s0, s2, root, a + b)
  {
    hide PageSet, LackOf, Flat, Built, InUser;
    SpareOn(s0, s1, root, a, b, |b|);
    assert b[..|b|] == b && (a + b)[..|a| + |b|] == a + b;
    PageSetJoin(a, b);
    BuiltTransitive(s0.tables, s1.tables, s2.tables, root, PageSet(a), PageSet(b));
  }

  lemma HandedGrow(m: map<nat, Pte>, lo: nat, frames: seq<nat>, flags: Flags, f: nat)
    ensures Handed(m, lo, frames + [f * PageTables.PAGE_SIZE], flags) ==
              Handed(m, lo, frames, flags)[lo + |frames| := Present(f, flags)]
  {
    FrameAddr(f);
    assert (frames + [f * PageTables.PAGE_SIZE])[..|frames|] == frames;
  }

  lemma AnonStep(mapped: seq<nat>, lo: nat, vas: seq<nat>, root: nat, flags: Flags, s0: State, s1: State, s2: State,
                 f: nat, b: seq<nat>)
    requires |mapped| < |vas| && b == mapped + [f * PageTables.PAGE_SIZE]
    requires AnonDone(s1, s2, root, [vas[|mapped|]]) && Reach(s0, root, vas, |b|) && s1.free !! s1.tables.Keys
    requires AnonKept(s1, s2, root, {f})
    requires lo + |mapped| !in Flat(s1.tables, root)
    requires Flat(s2.tables, root) == Flat(s1.tables, root)[lo + |mapped| := Present(f, flags)]
    requires AnonProgress(mapped, lo, vas, root, flags, s0, s1)
    ensures AnonProgress(b, lo, vas, root, flags, s0, s2) && PageSet(b) == PageSet(mapped) + {f}
  {
    hide Flat, AnonKept, PageSet, Distinct, Handed, PageNo, Reach, AnonDone;
    var m := Flat(s0.tables, root);
    AnonTransitive(s0, s1, s2, root, PageSet(mapped), {f});
    PageSetAppend(mapped, f);
    HandedAt(m, lo, mapped, flags, lo + |mapped|);
    HandedGrow(m, lo, mapped, flags, f);
    assert vas[..|mapped|] + [vas[|mapped|]] == vas[..|b|];
    DoneOn(s0, s1, s2, root, vas[..|mapped|], [vas[|mapped|]]);
  }

  lemma AnonStop(mapped: seq<nat>, lo: nat, vas: seq<nat>, root: nat, flags: Flags, s0: State, s1: State, s2: State,
                 lost: set<nat>)
    requires AnonProgress(mapped, lo, vas, root, flags, s0, s1) && s1.free !! s1.tables.Keys
    requires AnonKept(s1, s2, root, lost) && Flat(s2.tables, root) == Flat(s1.tables, root)
    ensures AnonKept(s0, s2, root, PageSet(mapped) + lost) && PageSet(mapped) !! lost && Distinct(mapped)
    ensures Vacant(Flat(s0.tables, root), lo, |mapped|)
    ensures Flat(s2.tables, root) == Handed(Flat(s0.tables, root), lo, mapped, flags)
    ensures Reach(s0, root, vas, |mapped|)
  {
    hide Flat, AnonKept, PageSet, Distinct, Handed, Reach, AnonDone;
    AnonTransitive(s0, s1, s2, root, PageSet(mapped), lost);
  }

  lemma AnonEnd(mapped: seq<nat>, lo: nat, vas: seq<nat>, root: nat, flags: Flags, s0: State, s: State)
    requires AnonProgress(mapped, lo, vas, root, flags, s0, s) && |mapped| == |vas|
    ensures AnonKept(s0, s, root, PageSet(mapped) + {}) && Distinct(mapped) && PageSet(mapped) + {} == PageSet(mapped)
    ensures Flat(s.tables, root) == Handed(Flat(s0.tables, root), lo, mapped, flags)
    ensures Vacant(Flat(s0.tables, root), lo, |mapped|)
    ensures AnonDone(s0, s, root, vas) && Reach(s0, root, vas, |vas|)
  {
    hide Flat, AnonKept, PageSet, Distinct, Handed, Reach, AnonDone;
    assert PageSet(mapped) + {} == PageSet(mapped);
    assert vas[..|vas|] == vas;
  }

  /** The frames `s` were zeroed and no other memory was written. */
  ghost predicate Cleared(pages: map<nat, Page>, pages': map<nat, Page>, s: set<nat>) {
    forall f :: Content(pages', f) == if f in s then Zeros(PageTables.PAGE_SIZE) else Content(pages, f)
  }

  lemma ClearedNone(pages: map<nat, Page>)
    ensures Cleared(pages, pages, {})
  {
  }

  lemma ClearedBoth(p0: map<nat, Page>, p1: map<nat, Page>, p2: map<nat, Page>, a: set<nat>, b: set<nat>)
    requires Cleared(p0, p1, a) && Cleared(p1, p2, b)
    ensures Cleared(p0, p2, a + b)
  {
    hide Content, Zeros;
  }

  lemma KeptRoot(s: State, s': State, root: nat)
    requires Kept(s, s', root) && IsRoot(s.places, root)
    ensures IsRoot(s'.places, root)
  {
  }

  /** j of the n pages from lo can be mapped, with the tables they need, and no more. */
  ghost predicate Fills(s: State, root: nat, lo: nat, n: nat, j: nat) {
    j <= n && Slack(s, root, lo, j) >= 0 && (j < n ==> Slack(s, root, lo, j + 1) < 0)
  }

  /** Not even the first of the pages from lo can be mapped. */
  ghost predicate Short(s: State, root: nat, lo: nat, left: nat) {
    forall m: nat :: 0 < m <= left ==> Slack(s, root, lo, m) < 0
  }

  /** Once page lo is mapped, the pages after it need what all of them needed before, less that. */
  ghost predicate Shifted(s: State, s': State, root: nat, lo: nat, left: nat) {
    forall m: nat :: 0 < m <= left ==> Slack(s', root, lo + 1, m - 1) == Slack(s, root, lo, m)
  }

  /** The same, once i pages are mapped. */
  ghost predicate Offset(s0: State, s: State, root: nat, lo: nat, i: nat, left: nat) {
    forall e: nat :: i <= e <= i + left ==> Slack(s, root, lo + i, e - i) == Slack(s0, root, lo, e)
  }

  /** State of `install_pages` after i pages. */
  ghost predicate Progress(frames: seq<nat>, lo: nat, i: nat, root: nat, s0: State, s: State) {
    && i <= |frames| && Vacant(Flat(s0.tables, root), lo, |frames|) && Kept(s0, s, root)
    && Flat(s.tables, root) == Handed(Flat(s0.tables, root), lo, frames[..i], HANDED_OVER)
    && Offset(s0, s, root, lo, i, |frames| - i)
    && (if i == 0 then s == s0 else Missing(s0.tables, root, 4, lo) <= |s0.free|)
  }

  lemma ProgressStart(frames: seq<nat>, lo: nat, root: nat, s: State)
    requires Vacant(Flat(s.tables, root), lo, |frames|)
    ensures Progress(frames, lo, 0, root, s, s)
  {
    hide Vacant, Flat, Missing, Slack;
    KeptSelf(s, root);
    assert frames[..0] == [] && lo + 0 == lo;
  }

  lemma HandedStep(m: map<nat, Pte>, lo: nat, frames: seq<nat>, flags: Flags, i: nat)
    requires Vacant(m, lo, |frames|) && i < |frames|
    ensures lo + i !in Handed(m, lo, frames[..i], flags)
    ensures Handed(m, lo, frames[..i], flags)[lo + i := Present(PageNo(frames[i]), flags)] ==
              Handed(m, lo, frames[..i + 1], flags)
  {
    HandedAt(m, lo, frames[..i], flags, lo + i);
    assert frames[..i + 1][..i] == frames[..i];
  }

  lemma ProgressVacant(frames: seq<nat>, lo: nat, i: nat, root: nat, s0: State, s: State)
    requires Progress(frames, lo, i, root, s0, s) && i < |frames|
    ensures lo + i !in Flat(s.tables, root)
  {
    hide Flat, Kept, Missing, Offset;
    HandedStep(Flat(s0.tables, root), lo, frames, HANDED_OVER, i);
  }

  lemma KeptTransitive(s0: State, s1: State, s2: State, root: nat)
    requires Kept(s0, s1, root) && Kept(s1, s2, root)
    ensures Kept(s0, s2, root)
  {
    hide OthersSame;
    MappedSpaces(s0.tables, s0.places, s1.tables, s1.places, s2.tables, root);
  }

  lemma OffsetStep(s0: State, s1: State, s2: State, root: nat, lo: nat, i: nat, left: nat)
    requires left > 0 && Offset(s0, s1, root, lo, i, left) && Shifted(s1, s2, root, lo + i, left)
    ensures Offset(s0, s2, root, lo, i + 1, left - 1)
  {
    hide Slack;
    forall e: nat | i + 1 <= e <= i + left
      ensures Slack(s2, root, lo + (i + 1), e - (i + 1)) == Slack(s0, root, lo, e)
    {
      assert Slack(s1, root, lo + i, e - i) == Slack(s0, root, lo, e);
      assert lo + i + 1 == lo + (i + 1) && e - i - 1 == e - (i + 1);
    }
  }

  lemma ProgressStep(frames: seq<nat>, lo: nat, i: nat, root: nat, s0: State, s1: State, s2: State)
    requires Progress(frames, lo, i, root, s0, s1) && i < |frames| && Kept(s1, s2, root)
    requires Flat(s2.tables, root) == Flat(s1.tables, root)[lo + i := Present(PageNo(frames[i]), HANDED_OVER)]
    requires Shifted(s1, s2, root, lo + i, |frames| - i)
    requires i == 0 ==> Missing(s1.tables, root, 4, lo) <= |s1.free|
    ensures Progress(frames, lo, i + 1, root, s0, s2)
  {
    hide Vacant, Flat, Kept, Missing, Offset, Shifted, Handed;
    HandedStep(Flat(s0.tables, root), lo, frames, HANDED_OVER, i);
    KeptTransitive(s0, s1, s2, root);
    OffsetStep(s0, s1, s2, root, lo, i, |frames| - i);
  }

  lemma LackNone(t: Tables, root: nat, lo: nat)
    ensures Lack(t, root, lo, 0) == {}
  {
  }

  lemma ProgressStop(frames: seq<nat>, lo: nat, i: nat, root: nat, s0: State, s1: State, s2: State)
    requires Progress(frames, lo, i, root, s0, s1) && i < |frames| && Kept(s1, s2, root)
    requires Flat(s2.tables, root) == Flat(s1.tables, root)
    requires Short(s1, root, lo + i, |frames| - i) && (i == 0 ==> Missing(s1.tables, root, 4, lo) > |s1.free|)
    ensures Kept(s0, s2, root) && Flat(s2.tables, root) == Handed(Flat(s0.tables, root), lo, frames[..i], HANDED_OVER)
    ensures Slack(s0, root, lo, |frames|) < 0 && (i == 0 <==> Missing(s0.tables, root, 4, lo) > |s0.free|)
    ensures Fills(s0, root, lo, |frames|, i)
  {
    hide Vacant, Flat, Kept, Missing, Lack, Handed;
    KeptTransitive(s0, s1, s2, root);
    LackNone(s1.tables, root, lo + i);
    assert Slack(s0, root, lo, i) == Slack(s1, root, lo + i, i - i);
    assert Slack(s0, root, lo, i + 1) == Slack(s1, root, lo + i, i + 1 - i);
    assert Slack(s0, root, lo, |frames|) == Slack(s1, root, lo + i, |frames| - i);
  }

  lemma ProgressEnd(frames: seq<nat>, lo: nat, root: nat, s0: State, s: State)
    requires Progress(frames, lo, |frames|, root, s0, s)
    ensures Kept(s0, s, root)
    ensures Flat(s.tables, root) == Handed(Flat(s0.tables, root), lo, frames[..|frames|], HANDED_OVER)
    ensures Slack(s0, root, lo, |frames|) >= 0
  {
    hide Vacant, Flat, Kept, Missing, Lack, Handed;
    LackNone(s.tables, root, lo + |frames|);
    assert Slack(s0, root, lo, |frames|) == Slack(s, root, lo + |frames|, |frames| - |frames|);
  }

  lemma LackSplit(t: Tables, p: Places, kernel: nat, root: nat, lo: nat, n: nat)
    requires Shape(t, p, kernel) && IsRoot(p, root) && n > 0 && lo + n <= LOW_PAGES
    ensures Missing(t, root, 4, lo) <= |Lack(t, root, lo, n)|
  {
    hide Shape, Down, Missing;
    LackOne(t, p, kernel, root, lo);
    assert Lack(t, root, lo, 1) <= Lack(t, root, lo, n);
    SubsetSize(Lack(t, root, lo, 1), Lack(t, root, lo, n));
  }

  lemma LackLess(t: Tables, p: Places, t': Tables, p': Places, kernel: nat, root: nat, lo: nat, n: nat)
    requires Shape(t, p, kernel) && Shape(t', p', kernel) && Grown(t, t', p', root, lo) && IsRoot(p, root)
    requires Extended(p, p')
    requires n > 0 && lo + n <= LOW_PAGES && End(t', root, 4, lo).Some?
    ensures |Lack(t', root, lo + 1, n - 1)| == |Lack(t, root, lo, n)| - Missing(t, root, 4, lo)
  {
    hide Shape, Down, Missing, Grown, Lack;
    LackGrown(t, p, t', p', kernel, root, lo, n);
    LackOne(t, p, kernel, root, lo);
    SubsetSize(Lack(t, root, lo, 1), Lack(t, root, lo, n));
  }

  lemma TooShort(s: State, kernel: nat, root: nat, lo: nat, left: nat)
    requires Shape(s.tables, s.places, kernel) && IsRoot(s.places, root) && lo + left <= LOW_PAGES
    requires Missing(s.tables, root, 4, lo) > |s.free|
    ensures Short(s, root, lo, left)
  {
    hide Shape, Missing, Lack;
    forall m: nat | 0 < m <= left ensures Slack(s, root, lo, m) < 0 {
      LackSplit(s.tables, s.places, kernel, root, lo, m);
    }
  }

  lemma ShiftsBy(s: State, s': State, kernel: nat, root: nat, lo: nat, left: nat)
    requires Shape(s.tables, s.places, kernel) && Shape(s'.tables, s'.places, kernel) && IsRoot(s.places, root)
    requires Grown(s.tables, s'.tables, s'.places, root, lo) && Extended(s.places, s'.places)
    requires lo + left <= LOW_PAGES && End(s'.tables, root, 4, lo).Some?
    requires |s'.free| == |s.free| - Missing(s.tables, root, 4, lo)
    ensures Shifted(s, s', root, lo, left)
  {
    hide Shape, Missing, Lack, Grown, End;
    forall m: nat | 0 < m <= left ensures Slack(s', root, lo + 1, m - 1) == Slack(s, root, lo, m) {
      LackLess(s.tables, s.places, s'.tables, s'.places, kernel, root, lo, m);
    }
  }

  /** The frames `out` were mapped at consecutive pages from lo. */
  ghost predicate Stolen(m: map<nat, Pte>, lo: nat, out: seq<nat>) {
    && (forall v :: v in m ==> m[v].Present?)
    && forall v: nat :: lo <= v < lo + |out| ==> v in m && out[v - lo] == m[v].frame * PageTables.PAGE_SIZE
  }

  /** The page tables of n pages from lo are there. */
  ghost predicate Reachable(tables: Tables, root: nat, lo: nat, n: nat) {
    forall v: nat :: lo <= v < lo + n ==> End(tables, root, 4, v).Some?
  }

  lemma HeldRange(t: Tables, t': Tables, root: nat, lo: nat, n: nat)
    requires Reachable(t, root, lo, n) && Held(t, t', root) && lo + n <= LOW_PAGES
    ensures Reachable(t', root, lo, n)
  {
    hide End;
  }

  lemma VpnStep(virt: nat, i: nat)
    ensures PageNo(virt + i * PageTables.PAGE_SIZE) == PageNo(virt) + i
    ensures Aligned(virt) <==> Aligned(virt + i * PageTables.PAGE_SIZE)
  {
  }

  lemma VpnRange(virt: nat, n: nat)
    requires virt + n * PageTables.PAGE_SIZE <= USER_TOP
    ensures PageNo(virt) + n <= LOW_PAGES
  {
  }

  lemma VpnSlot(virt: nat, i: nat, n: nat, va: nat)
    requires virt + n * PageTables.PAGE_SIZE <= USER_TOP && i < n && va == virt + i * PageTables.PAGE_SIZE
    ensures va < USER_TOP && PageNo(va) == PageNo(virt) + i && (Aligned(va) <==> Aligned(virt))
    ensures n - i <= LOW_PAGES - PageNo(va)
  {
    VpnStep(virt, i);
    VpnRange(virt, n);
  }

  lemma StealStep(m: map<nat, Pte>, lo: nat, i: nat)
    requires forall v :: v in m ==> m[v].Present?
    ensures Partly(m, lo, 0, i) - {lo + i} == Partly(m, lo, 0, i + 1)
    ensures lo + i !in m ==> Partly(m, lo, 0, i) - {lo + i} == Partly(m, lo, 0, i)
  {
  }

  lemma StolenStep(m: map<nat, Pte>, lo: nat, out: seq<nat>, phys: nat)
    requires Stolen(m, lo, out) && lo + |out| in m && phys == m[lo + |out|].frame * PageTables.PAGE_SIZE
    ensures Stolen(m, lo, out + [phys])
  {
    assert (out + [phys])[|out|] == phys;
  }

  lemma RestoreStep(m: map<nat, Pte>, lo: nat, j: nat, out: seq<nat>)
    requires Stolen(m, lo, out) && j < |out|
    ensures lo + j !in Partly(m, lo, j, |out|) && Aligned(out[j]) && out[j] == m[lo + j].frame * PageTables.PAGE_SIZE
    ensures Partly(m, lo, j, |out|)[lo + j := Present(PageNo(out[j]), HANDED_OVER)] == Partly(m, lo, j + 1, |out|)
  {
    assert lo + j in m && out[lo + j - lo] == m[lo + j].frame * PageTables.PAGE_SIZE;
  }

  lemma HeldSelf(tables: Tables, root: nat)
    ensures Held(tables, tables, root)
  {
  }

  lemma NoPt(tables: Tables, places: Places, kernel: nat, root: nat, vpn: nat)
    requires End(tables, root, 4, vpn).None?
    ensures vpn !in Flat(tables, root)
  {
    EndWalk(tables, places, kernel, root, root, 4, vpn);
  }

  lemma EndIn(tables: Tables, places: Places, kernel: nat, root: nat, vpn: nat)
    requires Shape(tables, places, kernel) && IsRoot(places, root) && vpn < LOW_PAGES && End(tables, root, 4, vpn).Some?
    ensures End(tables, root, 4, vpn).value in tables
  {
    UpBound(vpn);
    EndPlace(tables, places, kernel, root, root, 4, vpn);
  }

  /** If the free set did not shrink in number, nothing moved out of it. */
  lemma NothingTaken(free: set<nat>, keys: set<nat>, free': set<nat>, keys': set<nat>)
    requires free' + keys' == free + keys && keys <= keys' && free !! keys && free' !! keys' && |free'| == |free|
    ensures free' == free && keys' == keys
  {
    assert free' <= free;
    if x :| x in free && x !in free' {
      SubsetSize(free', free - {x});
      assert false;
    }
    assert free' == free;
  }

  /** What one level of `ensure_child` leaves missing on the path, and where it grew. */
  lemma {:induction false} StepMissing(t: Tables, p: Places, kernel: nat, root: nat, f: nat, l: nat, vpn: nat,
                                       flags: Flags, widened: Flags, child: Option<nat>, t': Tables, p': Places)
    requires 1 < l <= 4 && f in t && f in p && p.Keys == t.Keys && p[f] == PathPlace(root, kernel, l, vpn)
    requires vpn < LOW_PAGES
    requires child.None? ==> t[f][Idx(vpn, l)].Absent?
    requires child.Some? && t[f][Idx(vpn, l)].Present? ==>
               && child.value == t[f][Idx(vpn, l)].frame && t' == Reflag(t, f, Idx(vpn, l), widened) && p' == p
               && Keeps(t[f][Idx(vpn, l)].flags, widened)
    requires child.Some? && t[f][Idx(vpn, l)].Absent? ==>
               && child.value !in t && t' == Graft(t, f, Idx(vpn, l), child.value, flags)
               && child.value in t' && t'[child.value] == EmptyTable()
               && p' == p[child.value := ChildPlace(p[f], Idx(vpn, l), kernel)]
    ensures child.None? ==> Missing(t, f, l, vpn) == l - 1 > 0
    ensures child.Some? ==> Grown(t, t', p', root, vpn)
    ensures child.Some? && t[f][Idx(vpn, l)].Present? ==> Missing(t', child.value, l - 1, vpn) == Missing(t, f, l, vpn)
    ensures child.Some? && t[f][Idx(vpn, l)].Absent? ==>
              Missing(t', child.value, l - 1, vpn) + 1 == Missing(t, f, l, vpn)
  {
    var i := Idx(vpn, l);
    if child.Some? {
      if t[f][i].Present? {
        hide Reflag, Idx;
        ReflagMissing(t, f, i, widened, child.value, l - 1, vpn);
        ReflagGrown(t, p, root, vpn, f, i, widened);
      } else {
        hide Graft, ChildPlace;
        GraftGrown(t, p, kernel, root, vpn, f, i, child.value, flags);
      }
    }
  }

  /** No table but f was written. */
  ghost predicate OnlyTable(tables: Tables, tables': Tables, f: nat) {
    forall g :: g in tables && g != f ==> g in tables' && tables'[g] == tables[g]
  }

  lemma UnchangedSpaces(t0: Tables, p0: Places, t1: Tables, root: nat)
    requires t0 == t1 || SameSpaces(t0, p0, t1)
    requires IsRoot(p0, root)
    ensures OthersSame(t0, p0, t1, root) && Flat(t1, root) == Flat(t0, root)
  {
    if t0 != t1 {
      assert SameSpace(t0, t1, root);
      SameSpaceFlat(t0, t1, root);
    }
  }

  /** The leaf slot decides whether a page is mapped. */
  lemma LeafSlot(tables: Tables, places: Places, kernel: nat, root: nat, vpn: nat, f: nat)
    requires Shape(tables, places, kernel) && IsRoot(places, root) && vpn < LOW_PAGES
    requires End(tables, root, 4, vpn) == Some(f) && f in tables
    ensures vpn in Flat(tables, root) <==> tables[f][Idx(vpn, 1)].Present?
    ensures vpn in Flat(tables, root) ==> Flat(tables, root)[vpn] == tables[f][Idx(vpn, 1)]
  {
    PutLeafHere(tables, places, kernel, f, Idx(vpn, 1), Absent, root, vpn);
  }

  lemma PutLeafValid(tables: Tables, places: Places, kernel: nat, root: nat, vpn: nat, f: nat, e: Pte)
    requires Shape(tables, places, kernel) && IsRoot(places, root) && vpn < LOW_PAGES
    requires End(tables, root, 4, vpn) == Some(f) && f in tables
    ensures var t := PutLeaf(tables, f, Idx(vpn, 1), e);
              Shape(t, places, kernel) && t.Keys == tables.Keys && End(t, root, 4, vpn) == Some(f)
              && Held(tables, t, root)
    ensures tables[f][Idx(vpn, 1)].Absent? ==> Grown(tables, PutLeaf(tables, f, Idx(vpn, 1), e), places, root, vpn)
  {
    UpBound(vpn);
    PutLeafHere(tables, places, kernel, f, Idx(vpn, 1), e, root, vpn);
    PutLeafEnd(tables, places, kernel, f, Idx(vpn, 1), e, root, 4, vpn);
    PutLeafHeld(tables, places, kernel, root, f, Idx(vpn, 1), e);
    if tables[f][Idx(vpn, 1)].Absent? {
      PutLeafGrown(tables, places, root, vpn, f, Idx(vpn, 1), e);
    }
    PutLeafShape(tables, places, kernel, f, Idx(vpn, 1), e);
  }

  lemma LeafGrants(tables: Tables, places: Places, kernel: nat, root: nat, vpn: nat, f: nat, e: Pte, flags: Flags)
    requires Shape(tables, places, kernel) && IsRoot(places, root) && vpn < LOW_PAGES
    requires End(tables, root, 4, vpn) == Some(f) && f in tables
    requires Grants(tables, root, 4, vpn, flags)
    ensures Grants(PutLeaf(tables, f, Idx(vpn, 1), e), root, 4, vpn, flags)
  {
    PutLeafHere(tables, places, kernel, f, Idx(vpn, 1), e, root, vpn);
    PutLeafGrants(tables, places, kernel, f, Idx(vpn, 1), e, root, 4, vpn, flags);
  }

  lemma RootPlace(tables: Tables, places: Places, kernel: nat, root: nat)
    requires Shape(tables, places, kernel) && IsRoot(places, root)
    ensures root in tables
  {
  }

  lemma SameSpacesTransitive(t0: Tables, p0: Places, t1: Tables, p1: Places, t2: Tables)
    requires SameSpaces(t0, p0, t1) && SameSpaces(t1, p1, t2) && Extended(p0, p1)
    ensures SameSpaces(t0, p0, t2)
  {
    forall r | IsRoot(p0, r) ensures SameSpace(t0, t2, r) {
      assert IsRoot(p1, r);
      assert SameSpace(t0, t1, r) && SameSpace(t1, t2, r);
    }
  }

  lemma {:induction false} PathEnd(tables: Tables, root: nat, pdpt: nat, pd: nat, pt: nat, vpn: nat)
    requires root in tables && tables[root][Idx(vpn, 4)].Present? && tables[root][Idx(vpn, 4)].frame == pdpt
    requires pdpt in tables && tables[pdpt][Idx(vpn, 3)].Present? && tables[pdpt][Idx(vpn, 3)].frame == pd
    requires pd in tables && tables[pd][Idx(vpn, 2)].Present? && tables[pd][Idx(vpn, 2)].frame == pt
    requires pt in tables
    ensures End(tables, root, 4, vpn) == Some(pt) && Missing(tables, pt, 1, vpn) == 0
  {
    assert End(tables, pd, 2, vpn) == Some(pt);
    assert End(tables, pdpt, 3, vpn) == Some(pt);
  }

  lemma {:induction false} PathGrants(tables: Tables, root: nat, pdpt: nat, pd: nat, pt: nat, vpn: nat, flags: Flags)
    requires root in tables && tables[root][Idx(vpn, 4)].Present? && tables[root][Idx(vpn, 4)].frame == pdpt
    requires Wider(tables[root][Idx(vpn, 4)].flags, flags) && !tables[root][Idx(vpn, 4)].flags.nx
    requires pdpt in tables && tables[pdpt][Idx(vpn, 3)].Present? && tables[pdpt][Idx(vpn, 3)].frame == pd
    requires Wider(tables[pdpt][Idx(vpn, 3)].flags, flags) && !tables[pdpt][Idx(vpn, 3)].flags.nx
    requires pd in tables && tables[pd][Idx(vpn, 2)].Present? && tables[pd][Idx(vpn, 2)].frame == pt
    requires Wider(tables[pd][Idx(vpn, 2)].flags, flags) && !tables[pd][Idx(vpn, 2)].flags.nx
    ensures Grants(tables, root, 4, vpn, flags)
  {
    hide Wider;
    assert Grants(tables, pt, 1, vpn, flags);
    assert Grants(tables, pd, 2, vpn, flags);
    assert Grants(tables, pdpt, 3, vpn, flags);
  }

  lemma SameSpacesSelf(tables: Tables, places: Places)
    ensures SameSpaces(tables, places, tables)
  {
  }

  lemma GraftKeys(tables: Tables, f: nat, i: nat, new_: nat, flags: Flags)
    requires f in tables && i < ENTRIES && new_ !in tables
    ensures var t := Graft(tables, f, i, new_, flags);
            t.Keys == tables.Keys + {new_} && t[new_] == EmptyTable() && t[f][i] == Present(new_, flags)
                && OnlyTable(tables, t, f)
  {
  }

  lemma SameTable(tables: Tables, f: nat)
    ensures OnlyTable(tables, tables, f)
  {
  }

  lemma OneMoves(free: set<nat>, keys: set<nat>, f: nat)
    requires f in free && f !in keys
    ensures (free - {f}) + (keys + {f}) == free + keys && keys <= keys + {f}
    ensures free !! keys ==> free - {f} !! keys + {f}
  {
  }

  lemma GraftExtends(places: Places, f: nat, i: nat, new_: nat, kernel: nat)
    requires f in places && new_ !in places && 1 < places[f].level <= 4
    ensures Extended(places, places[new_ := ChildPlace(places[f], i, kernel)])
  {
  }

  lemma ShapeEntry(tables: Tables, places: Places, kernel: nat, f: nat, i: nat)
    requires Shape(tables, places, kernel) && f in tables && i < ENTRIES
    ensures places.Keys == tables.Keys && EntryOk(tables, places, kernel, f, i) && 1 <= places[f].level <= 4
  {
  }

  // ---------------------------------------------------------------------
  // The memory manager

  class Vmm {
    const pmm: FrameAllocator
    const kernel: nat

    var tables: Tables

    ghost var places: Places

    var pages: map<nat, Page> // contents of frames used as memory

    constructor (pmm: FrameAllocator, kernel: nat, tables: Tables, ghost places: Places, pages: map<nat, Page>)
      ensures this.pmm == pmm && this.kernel == kernel && this.tables == tables && this.places == places
      ensures this.pages == pages
    {
      this.pmm, this.kernel, this.tables, this.places, this.pages := pmm, kernel, tables, places, pages;
    }

    ghost predicate Valid()
      reads this, pmm, pmm.bitmap
    {
      && pmm.Valid() && (pmm.nextHint > 0 || pmm.Free() != {}) && 0 !in pmm.Free()
      && Shape(tables, places, kernel) && pmm.Free() !! tables.Keys
    }

    /** A present entry: widen its flags if they are more restrictive than the request. */
    method FollowChild(f: nat, i: nat, flags: Flags) returns (child: nat, ghost widened: Flags)
      requires Valid() && f in tables && i < ENTRIES && places[f].level > 1 && tables[f][i].Present? && !flags.nx
      modifies `tables
      ensures Valid() && SameSpaces(old(tables), places, tables) && tables.Keys == old(tables.Keys)
      ensures child == old(tables)[f][i].frame && child in tables && child in places
      ensures places[child] == ChildPlace(places[f], i, kernel)
      ensures widened == Union(old(tables)[f][i].flags, flags) && tables == Reflag(old(tables), f, i, widened)
      ensures UserSide(places[f], i) ==> !widened.nx
    {
      hide Shape;
      var e := tables[f][i];
      ghost var t := tables;
      ShapeEntry(t, places, kernel, f, i);
      var union := Union(e.flags, flags);
      widened := union;
      ReflagShape(t, places, kernel, f, i, union);
      ReflagSpaces(t, places, kernel, f, i, union);
      if union != e.flags {
        tables := tables[f := tables[f][i := Present(e.frame, union)]];
      }
      assert union == e.flags ==> t[f][i := Present(e.frame, union)] == t[f];
      assert tables == Reflag(t, f, i, union);
      child := e.frame;
    }

    method TakeFrame() returns (r: Option<nat>)
      requires Valid()
      modifies pmm`nextHint, pmm`freeFrames, pmm.bitmap
      ensures Valid()
      ensures r.None? <==> old(pmm.Free()) == {}
      ensures r.None? ==> pmm.Free() == {}
      ensures r.Some? ==> r.value in old(pmm.Free()) && r.value !in tables && r.value > 0
      ensures r.Some? ==> pmm.Free() == old(pmm.Free()) - {r.value} && |pmm.Free()| == |old(pmm.Free())| - 1
      ensures old(pmm.freeFrames == |pmm.Free()|) ==> pmm.freeFrames == |pmm.Free()|
    {
      hide Shape, Bits.ClearSet;
      r := pmm.AllocFrame();
    }

    /** An absent entry: allocate a frame, zero it, hang it in. */
    method NewChild(f: nat, i: nat, flags: Flags) returns (r: Result<nat, MapError>)
      requires Valid() && f in tables && i < ENTRIES && places[f].level > 1 && (places[f].level == 4 ==> i < 256)
      requires tables[f][i].Absent? && !flags.nx
      modifies `tables, `places, pmm`nextHint, pmm`freeFrames, pmm.bitmap
      ensures Valid() && Extended(old(places), places) && SameSpaces(old(tables), old(places), tables)
      ensures pmm.Free() + tables.Keys == old(pmm.Free() + tables.Keys) && old(tables.Keys) <= tables.Keys
      ensures old(pmm.freeFrames == |pmm.Free()|) ==> pmm.freeFrames == |pmm.Free()|
      ensures OnlyTable(old(tables), tables, f)
      ensures r.Err? <==> old(pmm.Free()) == {}
      ensures r.Err? ==> r.error == OutOfMemory && tables == old(tables) && places == old(places)
      ensures r.Ok? ==>
                && f in tables && tables[f][i] == Present(r.value, flags) && r.value in tables && r.value in places
                && places[r.value] == ChildPlace(places[f], i, kernel)
      ensures r.Ok? ==> |pmm.Free()| == |old(pmm.Free())| - 1 && tables[r.value] == EmptyTable()
      ensures r.Ok? && old(tables)[f][i].Absent? ==>
                && r.value !in old(tables) && tables == Graft(old(tables), f, i, r.value, flags)
                && places == old(places)[r.value := ChildPlace(old(places)[f], i, kernel)]
    {
      hide Shape, SameSpaces, EmptyTable, Bits.ClearSet, Graft, ChildPlace, Extended, OnlyTable;
      ghost var t, free := tables, pmm.Free();
      ShapeEntry(t, places, kernel, f, i);
      var new_ := TakeFrame();
      if new_.None? {
        SameSpacesSelf(t, places);
        ExtendedSelf(places);
        SameTable(t, f);
        return Err(OutOfMemory);
      }
      GraftShape(t, places, kernel, f, i, new_.value, flags);
      GraftSpaces(t, places, kernel, f, i, new_.value, flags);
      GraftKeys(t, f, i, new_.value, flags);
      OneMoves(free, t.Keys, new_.value);
      GraftExtends(places, f, i, new_.value, kernel);
      tables := Graft(tables, f, i, new_.value, flags);
      places := places[new_.value := ChildPlace(places[f], i, kernel)];
      return Ok(new_.value);
    }

    /** `ensure_child`: follow the entry, or hang in a zeroed table. */
    method EnsureChild(f: nat, i: nat, flags: Flags) returns (r: Result<nat, MapError>, ghost widened: Flags)
      requires Valid() && f in tables && i < ENTRIES && places[f].level > 1 && (places[f].level == 4 ==> i < 256)
      requires !flags.nx
      modifies `tables, `places, pmm`nextHint, pmm`freeFrames, pmm.bitmap
      ensures Valid() && Extended(old(places), places) && SameSpaces(old(tables), old(places), tables)
      ensures pmm.Free() + tables.Keys == old(pmm.Free() + tables.Keys) && old(tables.Keys) <= tables.Keys
      ensures old(pmm.freeFrames == |pmm.Free()|) ==> pmm.freeFrames == |pmm.Free()|
      ensures OnlyTable(old(tables), tables, f)
      ensures r.Err? <==> old(tables)[f][i].Absent? && old(pmm.Free()) == {}
      ensures r.Err? ==> r.error == OutOfMemory && tables == old(tables)
      ensures r.Ok? ==>
                && f in tables && tables[f][i].Present? && tables[f][i].frame == r.value && r.value in tables
                && r.value in places && places[r.value] == ChildPlace(places[f], i, kernel)
      ensures r.Ok? ==> Wider(tables[f][i].flags, flags) && (UserSide(old(places)[f], i) ==> !tables[f][i].flags.nx)
      ensures r.Ok? && old(tables)[f][i].Absent? ==>
                |pmm.Free()| == |old(pmm.Free())| - 1 && tables[r.value] == EmptyTable()
      ensures r.Ok? && old(tables)[f][i].Absent? ==>
                && r.value !in old(tables) && tables == Graft(old(tables), f, i, r.value, flags)
                && places == old(places)[r.value := ChildPlace(old(places)[f], i, kernel)]
      ensures r.Ok? && old(tables)[f][i].Present? ==>
                pmm.Free() == old(pmm.Free()) && r.value == old(tables)[f][i].frame && places == old(places) &&
                widened == Union(old(tables)[f][i].flags, flags) && tables == Reflag(old(tables), f, i, widened)
    {
      hide Shape, SameSpaces, Bits.ClearSet;
      widened := flags;
      ShapeEntry(tables, places, kernel, f, i);
      if tables[f][i].Present? {
        var child;
        child, widened := FollowChild(f, i, flags);
        return Ok(child), widened;
      } else {
        r := NewChild(f, i, flags);
      }
    }

    /** One level down the path of a page, counting off the tables still missing. */
    method StepDown(ghost root: nat, f: nat, ghost l: nat, i: nat, flags: Flags, ghost vpn: nat)
      returns (r: Result<nat, MapError>)
      requires Valid() && 1 < l <= 4 && vpn < LOW_PAGES && f in tables && places[f] == PathPlace(root, kernel, l, vpn)
      requires i == Idx(vpn, l) && !flags.nx
      modifies `tables, `places, pmm`nextHint, pmm`freeFrames, pmm.bitmap
      ensures Valid() && Extended(old(places), places) && SameSpaces(old(tables), old(places), tables)
      ensures OnlyTable(old(tables), tables, f)
      ensures pmm.Free() + tables.Keys == old(pmm.Free() + tables.Keys) && old(tables.Keys) <= tables.Keys
      ensures old(pmm.freeFrames == |pmm.Free()|) ==> pmm.freeFrames == |pmm.Free()|
      ensures r.Err? ==> r.error == OutOfMemory && Missing(old(tables), f, l, vpn) > |old(pmm.Free())|
      ensures r.Ok? ==>
                && f in tables && tables[f][i].Present? && tables[f][i].frame == r.value
                && Wider(tables[f][i].flags, flags) && !tables[f][i].flags.nx
      ensures r.Ok? ==> Grown(old(tables), tables, places, root, vpn)
      ensures r.Ok? ==> r.value in tables && r.value in places && places[r.value] == PathPlace(root, kernel, l - 1, vpn)
      ensures r.Ok? ==>
                |pmm.Free()| - Missing(tables, r.value, l - 1, vpn) ==
                |old(pmm.Free())| - Missing(old(tables), f, l, vpn)
    {
      hide Shape, SameSpaces, Bits.ClearSet, OnlyTable, Grown, Graft, Reflag, Missing, Extended, EmptyTable, ChildPlace;
      ghost var t, p := tables, places;
      UpBound(vpn);
      PathStep(root, kernel, l, vpn);
      ShapeEntry(t, places, kernel, f, i);
      assert places[f].level == l && (l == 4 ==> i < 256) && UserSide(places[f], i);
      hide PathPlace, Idx;
      ghost var widened;
      r, widened := EnsureChild(f, i, flags);
      StepMissing(t, p, kernel, root, f, l, vpn, flags, widened, if r.Ok? then Some(r.value) else None, tables, places);
    }

    /** The first two levels of the path. */
    method EnsurePd(root: nat, virt: nat, flags: Flags) returns (r: Result<nat, MapError>, ghost pdpt: nat)
      requires Valid() && IsRoot(places, root) && virt < USER_TOP && !flags.nx
      modifies `tables, `places, pmm`nextHint, pmm`freeFrames, pmm.bitmap
      ensures Valid() && Extended(old(places), places) && SameSpaces(old(tables), old(places), tables)
      ensures pmm.Free() + tables.Keys == old(pmm.Free() + tables.Keys) && old(tables.Keys) <= tables.Keys
      ensures old(pmm.freeFrames == |pmm.Free()|) ==> pmm.freeFrames == |pmm.Free()|
      ensures r.Err? ==> r.error == OutOfMemory && Missing(old(tables), root, 4, PageNo(virt)) > |old(pmm.Free())|
      ensures r.Ok? ==> Grown(old(tables), tables, places, root, PageNo(virt))
      ensures r.Ok? ==>
                var vpn := PageNo(virt);
                && IsRoot(places, root) && root in tables && tables[root][Idx(vpn, 4)].Present?
                && tables[root][Idx(vpn, 4)].frame == pdpt && Wider(tables[root][Idx(vpn, 4)].flags, flags)
                && !tables[root][Idx(vpn, 4)].flags.nx
                && pdpt in tables && pdpt in places && places[pdpt] == PathPlace(root, kernel, 3, vpn)
                && tables[pdpt][Idx(vpn, 3)].Present? && tables[pdpt][Idx(vpn, 3)].frame == r.value
                && Wider(tables[pdpt][Idx(vpn, 3)].flags, flags) && !tables[pdpt][Idx(vpn, 3)].flags.nx
                && r.value in tables && r.value in places && places[r.value] == PathPlace(root, kernel, 2, vpn)
                && |pmm.Free()| - Missing(tables, r.value, 2, vpn) ==
                     |old(pmm.Free())| - Missing(old(tables), root, 4, vpn)
    {
      hide Shape, Bits.ClearSet, SameSpaces, Idx, Grown;
      ghost var vpn := PageNo(virt);
      ghost var t0, p0 := tables, places;
      IndexDigits(virt);
      UpBound(vpn);
      RootPlace(tables, places, kernel, root);
      pdpt := 0;
      r := StepDown(root, root, 4, Pml4Idx(virt), flags, vpn);
      if r.Err? {
        return;
      }
      pdpt := r.value;
      ghost var t1, p1 := tables, places;
      r := StepDown(root, r.value, 3, PdptIdx(virt), flags, vpn);
      SameSpacesTransitive(t0, p0, t1, p1, tables);
      if r.Ok? {
        GrownTransitive(t0, t1, p1, tables, places, root, vpn);
      }
    }

    /** Walk down to the page table of `virt`, adding missing tables. */
    method EnsurePath(root: nat, virt: nat, flags: Flags) returns (r: Result<nat, MapError>)
      requires Valid() && IsRoot(places, root) && virt < USER_TOP && !flags.nx
      modifies `tables, `places, pmm`nextHint, pmm`freeFrames, pmm.bitmap
      ensures Valid() && Extended(old(places), places) && SameSpaces(old(tables), old(places), tables)
      ensures pmm.Free() + tables.Keys == old(pmm.Free() + tables.Keys) && old(tables.Keys) <= tables.Keys
      ensures old(pmm.freeFrames == |pmm.Free()|) ==> pmm.freeFrames == |pmm.Free()|
      ensures r.Err? <==> Missing(old(tables), root, 4, PageNo(virt)) > |old(pmm.Free())|
      ensures r.Err? ==> r.error == OutOfMemory
      ensures r.Ok? ==>
                && End(tables, root, 4, PageNo(virt)) == Some(r.value) && r.value in tables
                && Grants(tables, root, 4, PageNo(virt), flags)
      ensures r.Ok? ==> Grown(old(tables), tables, places, root, PageNo(virt))
      ensures r.Ok? ==> |pmm.Free()| == |old(pmm.Free())| - Missing(old(tables), root, 4, PageNo(virt))
    {
      hide Shape, Bits.ClearSet, SameSpaces, Idx, Grown, Missing, End, Grants, Wider, Bits.BitAt;
      ghost var vpn := PageNo(virt);
      ghost var t0, p0 := tables, places;
      IndexDigits(virt);
      ghost var pdpt;
      var pd;
      pd, pdpt := EnsurePd(root, virt, flags);
      if pd.Err? {
        return pd;
      }
      ghost var t2, p2 := tables, places;
      r := StepDown(root, pd.value, 2, PdIdx(virt), flags, vpn);
      SameSpacesTransitive(t0, p0, t2, p2, tables);
      if r.Ok? {
        PathEnd(tables, root, pdpt, pd.value, r.value, vpn);
        PathGrants(tables, root, pdpt, pd.value, r.value, vpn, flags);
        GrownTransitive(t0, t2, p2, tables, places, root, vpn);
      }
    }

    /** The user pages of an address space. */
    ghost function Space(root: nat): (m: map<nat, Pte>)
      reads `tables
    {
      Flat(tables, root)
    }

    /** The leaf slot of `virt` in its page table: written unless it is in use. */
    method FillSlot(ghost root: nat, virt: nat, pt: nat, e: Pte, ghost inner: Flags) returns (r: Result<(), MapError>)
      requires Valid() && IsRoot(places, root) && virt < USER_TOP && e.Present?
      requires Grants(tables, root, 4, PageNo(virt), inner)
      requires End(tables, root, 4, PageNo(virt)) == Some(pt) && pt in tables
      modifies `tables
      ensures Shape(tables, places, kernel) && tables.Keys == old(tables.Keys)
      ensures if PageNo(virt) in old(Space(root)) then r == Err(AlreadyMapped) && Space(root) == old(Space(root))
              else r.Ok? && Space(root) == old(Space(root))[PageNo(virt) := e]
      ensures OthersSame(old(tables), places, tables, root) && Grown(old(tables), tables, places, root, PageNo(virt))
      ensures End(tables, root, 4, PageNo(virt)).Some? && Grants(tables, root, 4, PageNo(virt), inner)
    {
      hide Shape, Bits.ClearSet, OthersSame, Flat, PutLeaf, End, Grown, Grants;
      ghost var vpn := PageNo(virt);
      ghost var t := tables;
      IndexDigits(virt);
      LeafSlot(t, places, kernel, root, vpn, pt);
      if tables[pt][PtIdx(virt)].Present? {
        UnchangedSpaces(t, places, t, root);
        GrownSelf(t, places, root, vpn);
        return Err(AlreadyMapped);
      }
      PutLeafFlat(t, places, kernel, root, vpn, pt, e);
      PutLeafValid(t, places, kernel, root, vpn, pt, e);
      LeafGrants(t, places, kernel, root, vpn, pt, e, inner);
      tables := PutLeaf(tables, pt, PtIdx(virt), e);
      return Ok(());
    }

    method Map4k(root: nat, virt: nat, phys: nat, flags: Flags) returns (r: Result<(), MapError>)
      requires Valid() && IsRoot(places, root) && virt < USER_TOP
      modifies `tables, `places, pmm`nextHint, pmm`freeFrames, pmm.bitmap
      ensures Valid() && Extended(old(places), places)
      ensures pmm.Free() + tables.Keys == old(pmm.Free() + tables.Keys) && old(tables.Keys) <= tables.Keys
      ensures old(pmm.freeFrames == |pmm.Free()|) ==> pmm.freeFrames == |pmm.Free()|
      ensures r.Err? ==> r.error in {Misaligned, AlreadyMapped, OutOfMemory}
      ensures r == Err(Misaligned) <==> !Aligned(virt) || !Aligned(phys)
      ensures r == Err(OutOfMemory) <==>
                Aligned(virt) && Aligned(phys) && Missing(old(tables), root, 4, PageNo(virt)) > |old(pmm.Free())|
      ensures r == Err(AlreadyMapped) ==> PageNo(virt) in old(Space(root))
      ensures r.Ok? ==> PageNo(virt) !in old(Space(root))
      ensures r.Ok? ==> Space(root) == old(Space(root))[PageNo(virt) := Present(PageNo(phys), flags)]
      ensures r.Ok? ==> |pmm.Free()| == |old(pmm.Free())| - Missing(old(tables), root, 4, PageNo(virt))
      ensures r.Ok? ==>
                Grown(old(tables), tables, places, root, PageNo(virt)) && End(tables, root, 4, PageNo(virt)).Some?
      ensures r.Ok? ==> Held(old(tables), tables, root)
      ensures r.Ok? ==> Grants(tables, root, 4, PageNo(virt), Flags(true, flags.user, false, false))
      ensures r.Ok? && End(old(tables), root, 4, PageNo(virt)).Some? ==>
                pmm.Free() == old(pmm.Free()) && tables.Keys == old(tables.Keys)
      ensures r.Err? ==> Space(root) == old(Space(root))
      ensures OthersSame(old(tables), old(places), tables, root)
    {
      hide Shape, Bits.ClearSet, SameSpaces, OthersSame, Flat, PutLeaf, End, Grown, Missing, Held, Grants, Bits.BitAt;
      ghost var vpn := PageNo(virt);
      ghost var t0, p0 := tables, places;
      UnchangedSpaces(t0, p0, t0, root);
      if !Aligned(virt) || !Aligned(phys) {
        return Err(Misaligned);
      }
      var pt := EnsurePath(root, virt, Inner(flags));
      ghost var t1 := tables;
      UnchangedSpaces(t0, p0, t1, root);
      if pt.Err? {
        return Err(pt.error);
      }
      ghost var p1, free1 := places, pmm.Free();
      r := FillSlot(root, virt, pt.value, Present(PageNo(phys), flags), Inner(flags));
      MappedSpaces(t0, p0, t1, p1, tables, root);
      GrownTransitive(t0, t1, p1, tables, places, root, vpn);
      GrownHeld(t0, tables, places, root, vpn);
      if End(t0, root, 4, vpn).Some? {
        EndMissing(t0, root, 4, vpn);
        NothingTaken(old(pmm.Free()), t0.Keys, free1, tables.Keys);
      }
    }

    /** The page table of `virt`, if the tables on the way are there. */
    method FindPt(root: nat, virt: nat) returns (r: Option<nat>)
      requires Valid() && IsRoot(places, root) && virt < USER_TOP
      ensures r == End(tables, root, 4, PageNo(virt))
    {
      var vpn := PageNo(virt);
      IndexDigits(virt);
      UpBound(vpn);
      var e1 := tables[root][Pml4Idx(virt)];
      assert EntryOk(tables, places, kernel, root, Pml4Idx(virt));
      if e1.Absent? {
        return None;
      }
      var e2 := tables[e1.frame][PdptIdx(virt)];
      assert EntryOk(tables, places, kernel, e1.frame, PdptIdx(virt));
      if e2.Absent? {
        return None;
      }
      var e3 := tables[e2.frame][PdIdx(virt)];
      assert EntryOk(tables, places, kernel, e2.frame, PdIdx(virt));
      if e3.Absent? {
        return None;
      }
      return Some(e3.frame);
    }

    method Unmap4k(root: nat, virt: nat) returns (r: Option<nat>)
      requires Valid() && IsRoot(places, root) && virt < USER_TOP
      modifies `tables
      ensures Valid() && tables.Keys == old(tables.Keys) && Held(old(tables), tables, root)
      ensures OthersSame(old(tables), places, tables, root)
      ensures PageNo(virt) in old(Space(root)) <==> r.Some?
      ensures r.Some? ==> r.value == old(Space(root))[PageNo(virt)].frame * PageTables.PAGE_SIZE
      ensures r.Some? ==> End(tables, root, 4, PageNo(virt)).Some?
      ensures Space(root) == old(Space(root)) - {PageNo(virt)}
    {
      hide Shape, Bits.ClearSet, OthersSame, Flat, PutLeaf, End, Held;
      ghost var vpn := PageNo(virt);
      ghost var t := tables;
      UnchangedSpaces(t, places, t, root);
      HeldSelf(t, root);
      var pt := FindPt(root, virt);
      if pt.None? {
        NoPt(t, places, kernel, root, vpn);
        return None;
      }
      IndexDigits(virt);
      EndIn(t, places, kernel, root, vpn);
      LeafSlot(t, places, kernel, root, vpn, pt.value);
      var slot := tables[pt.value][PtIdx(virt)];
      if slot.Absent? {
        return None;
      }
      PutLeafFlat(t, places, kernel, root, vpn, pt.value, Absent);
      PutLeafValid(t, places, kernel, root, vpn, pt.value, Absent);
      tables := PutLeaf(tables, pt.value, PtIdx(virt), Absent);
      return Some(slot.frame * PageTables.PAGE_SIZE);
    }

    /** A page that was just unmapped can be mapped again. */
    method PutBack(root: nat, va: nat, phys: nat)
      requires Valid() && IsRoot(places, root) && va < USER_TOP && Aligned(va) && Aligned(phys)
      requires End(tables, root, 4, PageNo(va)).Some? && PageNo(va) !in Space(root)
      modifies `tables, `places, pmm`nextHint, pmm`freeFrames, pmm.bitmap
      ensures Valid() && Extended(old(places), places) && tables.Keys == old(tables.Keys)
      ensures pmm.Free() == old(pmm.Free())
      ensures old(pmm.freeFrames == |pmm.Free()|) ==> pmm.freeFrames == |pmm.Free()|
      ensures OthersSame(old(tables), old(places), tables, root) && Held(old(tables), tables, root)
      ensures Space(root) == old(Space(root))[PageNo(va) := Present(PageNo(phys), HANDED_OVER)]
    {
      hide Shape, Bits.ClearSet, OthersSame, Flat, End, Held, Grown, Missing;
      EndMissing(tables, root, 4, PageNo(va));
      var _ := Map4k(root, va, phys, HANDED_OVER);
    }

    /** Map stolen frames back where they came from. */
    method Restore(root: nat, virt: nat, out: seq<nat>, ghost m0: map<nat, Pte>, ghost t0: Tables)
      requires Valid() && IsRoot(places, root) && virt + |out| * PageTables.PAGE_SIZE <= USER_TOP && Aligned(virt)
      requires Stolen(m0, PageNo(virt), out) && Space(root) == Partly(m0, PageNo(virt), 0, |out|)
      requires Reachable(tables, root, PageNo(virt), |out|)
      requires OthersSame(t0, places, tables, root)
      modifies `tables, `places, pmm`nextHint, pmm`freeFrames, pmm.bitmap
      ensures Valid() && Extended(old(places), places) && tables.Keys == old(tables.Keys)
      ensures pmm.Free() == old(pmm.Free())
      ensures old(pmm.freeFrames == |pmm.Free()|) ==> pmm.freeFrames == |pmm.Free()|
      ensures OthersSame(t0, old(places), tables, root) && Space(root) == Partly(m0, PageNo(virt), |out|, |out|)
    {
      hide Shape, Bits.ClearSet, OthersSame, Flat, End, Held, Grown, Missing, Partly;
      ghost var lo, p0 := PageNo(virt), places;
      for j := 0 to |out|
        invariant Valid() && Extended(p0, places) && tables.Keys == old(tables.Keys) && pmm.Free() == old(pmm.Free())
        invariant old(pmm.freeFrames == |pmm.Free()|) ==> pmm.freeFrames == |pmm.Free()|
        invariant OthersSame(t0, p0, tables, root) && Reachable(tables, root, lo, |out|)
        invariant Space(root) == Partly(m0, lo, j, |out|)
      {
        ghost var t1, p1 := tables, places;
        VpnStep(virt, j);
        RestoreStep(m0, lo, j, out);
        PutBack(root, virt + j * PageTables.PAGE_SIZE, out[j]);
        MappedSpaces(t0, p0, t1, p1, tables, root);
        HeldRange(t1, tables, root, lo, |out|);
      }
    }

    /** Detach a range of pages; if it has a hole, hand back what was detached. */
    method StealPages(root: nat, virt: nat, pages: nat) returns (r: Result<seq<nat>, MapError>, ghost hole: nat)
      requires Valid() && IsRoot(places, root) && virt + pages * PageTables.PAGE_SIZE <= USER_TOP
      modifies `tables, `places, pmm`nextHint, pmm`freeFrames, pmm.bitmap
      ensures Valid() && Extended(old(places), places) && tables.Keys == old(tables.Keys)
      ensures pmm.Free() == old(pmm.Free())
      ensures old(pmm.freeFrames == |pmm.Free()|) ==> pmm.freeFrames == |pmm.Free()|
      ensures OthersSame(old(tables), old(places), tables, root)
      ensures r.Err? ==> r.error in {Misaligned, AlreadyMapped}
      ensures r == Err(Misaligned) <==> !Aligned(virt)
      ensures r == Err(Misaligned) ==> Space(root) == old(Space(root))
      ensures r.Ok? ==> |r.value| == pages && Space(root) == Partly(old(Space(root)), PageNo(virt), 0, pages)
      ensures r.Ok? ==> Stolen(old(Space(root)), PageNo(virt), r.value)
      ensures r == Err(AlreadyMapped) ==>
                && hole < pages && PageNo(virt) + hole !in old(Space(root))
                && Space(root) == Partly(old(Space(root)), PageNo(virt), hole, hole)
    {
      hide Shape, Bits.ClearSet, OthersSame, Flat, End, Held;
      ghost var lo, m0, t0, p0 := PageNo(virt), Space(root), tables, places;
      UnchangedSpaces(t0, p0, t0, root);
      hole := 0;
      if !Aligned(virt) {
        return Err(Misaligned), hole;
      }
      var out: seq<nat> := [];
      assert Partly(m0, lo, 0, 0) == m0;
      for i := 0 to pages
        invariant |out| == i && Valid() && places == p0 && tables.Keys == t0.Keys && pmm.Free() == old(pmm.Free())
        invariant pmm.freeFrames == old(pmm.freeFrames)
        invariant OthersSame(t0, p0, tables, root)
        invariant Stolen(m0, lo, out)
        invariant Reachable(tables, root, lo, i)
        invariant Space(root) == Partly(m0, lo, 0, i)
      {
        ghost var t1 := tables;
        var phys := Unmap4k(root, virt + i * PageTables.PAGE_SIZE);
        VpnStep(virt, i);
        MappedSpaces(t0, p0, t1, p0, tables, root);
        StealStep(m0, lo, i);
        if phys.None? {
          hole := i;
          HeldRange(t1, tables, root, lo, i);
          Restore(root, virt, out, m0, t0);
          return Err(AlreadyMapped), hole;
        }
        HeldRange(t1, tables, root, lo, i);
        StolenStep(m0, lo, out, phys.value);
        out := out + [phys.value];
      }
      return Ok(out), hole;
    }

    ghost function State(): (s: State)
      requires pmm.Valid()
      reads this, pmm, pmm.bitmap
    {
      St(tables, places, pmm.Free())
    }

    /** `map_4k` for the first of `left` pages still to map, keeping count of the tables they need. */
    method MapNext(root: nat, va: nat, phys: nat, flags: Flags, ghost left: nat) returns (r: Result<(), MapError>)
      requires Valid() && IsRoot(places, root) && va < USER_TOP && Aligned(phys) && 0 < left <= LOW_PAGES - PageNo(va)
      modifies `tables, `places, pmm`nextHint, pmm`freeFrames, pmm.bitmap
      ensures Valid() && Kept(old(State()), State(), root)
      ensures old(pmm.freeFrames == |pmm.Free()|) ==> pmm.freeFrames == |pmm.Free()|
      ensures r.Err? ==> (!Aligned(va) || PageNo(va) in old(Space(root)) || r.error == OutOfMemory)
      ensures r == Err(OutOfMemory) <==> Aligned(va) && Missing(old(tables), root, 4, PageNo(va)) > |old(pmm.Free())|
      ensures r == Err(OutOfMemory) ==> Short(old(State()), root, PageNo(va), left)
      ensures r.Ok? ==>
                && Aligned(va) && PageNo(va) !in old(Space(root))
                && Shifted(old(State()), State(), root, PageNo(va), left)
      ensures Space(root) == if r.Ok? then old(Space(root))[PageNo(va) := Present(PageNo(phys), flags)]
                else old(Space(root))
    {
      hide Shape, Bits.ClearSet, OthersSame, Flat, End, Held, Grown, Missing, Lack, PageNo, Aligned, Grants, Short;
      hide Shifted;
      ghost var s := State();
      r := Map4k(root, va, phys, flags);
      if r == Err(OutOfMemory) {
        TooShort(s, kernel, root, PageNo(va), left);
      } else if r.Ok? {
        ShiftsBy(s, State(), kernel, root, PageNo(va), left);
      }
    }

    /** Map frames at consecutive pages, stopping at the first failure; `done` pages were mapped. */
    method InstallPages(root: nat, virt: nat, frames: seq<nat>) returns (r: Result<(), MapError>, done: nat)
      requires Valid() && IsRoot(places, root) && virt + |frames| * PageTables.PAGE_SIZE <= USER_TOP
      requires Aligned(virt) && forall i :: 0 <= i < |frames| ==> Aligned(frames[i])
      requires Vacant(Space(root), PageNo(virt), |frames|)
      modifies `tables, `places, pmm`nextHint, pmm`freeFrames, pmm.bitmap
      ensures Valid() && Kept(old(State()), State(), root)
      ensures old(pmm.freeFrames == |pmm.Free()|) ==> pmm.freeFrames == |pmm.Free()|
      ensures r.Ok? <==> Slack(old(State()), root, PageNo(virt), |frames|) >= 0
      ensures r.Ok? ==> done == |frames|
      ensures Fills(old(State()), root, PageNo(virt), |frames|, done)
      ensures r.Err? ==>
                && r.error == OutOfMemory && done < |frames|
                && (done == 0 <==> Missing(old(tables), root, 4, PageNo(virt)) > |old(pmm.Free())|)
      ensures done <= |frames|
      ensures Space(root) ==
                Handed(old(Space(root)), PageNo(virt), frames[..done], Flags(true, true, true, false))
    {
      hide Kept, Shape, Bits.ClearSet, Flat, Missing, Slack, Vacant, Handed, PageNo, Aligned, Progress, Short, Shifted;
      ghost var lo, s0 := PageNo(virt), State();
      ProgressStart(frames, lo, root, s0);
      done := 0;
      for i := 0 to |frames|
        invariant Valid() && IsRoot(places, root) && done == i
        invariant old(pmm.freeFrames == |pmm.Free()|) ==> pmm.freeFrames == |pmm.Free()|
        invariant Progress(frames, lo, i, root, s0, State())
      {
        ghost var s1 := State();
        var va := virt + i * PageTables.PAGE_SIZE;
        VpnSlot(virt, i, |frames|, va);
        ProgressVacant(frames, lo, i, root, s0, s1);
        r := MapNext(root, va, frames[i], HANDED_OVER, |frames| - i);
        KeptRoot(s1, State(), root);
        if r.Err? {
          ProgressStop(frames, lo, i, root, s0, s1, State());
          return;
        }
        ProgressStep(frames, lo, i, root, s0, s1, State());
        done := done + 1;
      }
      ProgressEnd(frames, lo, root, s0, State());
      return Ok(()), done;
    }

    /** `map_4k` with what it adds to the page tables. */
    method MapOne(root: nat, va: nat, phys: nat, flags: Flags) returns (r: Result<(), MapError>)
      requires Valid() && IsRoot(places, root) && va < USER_TOP && Aligned(phys)
      modifies `tables, `places, pmm`nextHint, pmm`freeFrames, pmm.bitmap
      ensures Valid() && Kept(old(State()), State(), root)
      ensures old(pmm.freeFrames == |pmm.Free()|) ==> pmm.freeFrames == |pmm.Free()|
      ensures r.Ok? <==>
                && Aligned(va) && PageNo(va) !in old(Space(root))
                && Missing(old(tables), root, 4, PageNo(va)) <= |old(pmm.Free())|
      ensures r.Ok? ==>
                && Built(old(tables), tables, root, {PageNo(va)})
                && |pmm.Free()| == |old(pmm.Free())| - Missing(old(tables), root, 4, PageNo(va))
      ensures Space(root) == if r.Ok? then old(Space(root))[PageNo(va) := Present(PageNo(phys), flags)]
                else old(Space(root))
    {
      hide Shape, Bits.ClearSet, OthersSame, Flat, End, Held, Grown, Missing, PageNo, Aligned, Built, Grants;
      ghost var t, p := tables, places;
      r := Map4k(root, va, phys, flags);
      if r.Ok? {
        BuiltOne(t, p, tables, places, kernel, root, PageNo(va));
      }
    }

    /** One page of `map_anon`: the frame is lost if it cannot be mapped. */
    method AnonPage(root: nat, va: nat, flags: Flags) returns (r: Result<(), MapError>, ghost taken: Option<nat>)
      requires Valid() && IsRoot(places, root) && va < USER_TOP
      modifies `tables, `places, `pages, pmm`nextHint, pmm`freeFrames, pmm.bitmap
      ensures Valid() && AnonKept(old(State()), State(), root, AsSet(taken))
      ensures old(pmm.freeFrames == |pmm.Free()|) ==> pmm.freeFrames == |pmm.Free()|
      ensures Cleared(old(pages), pages, AsSet(taken))
      ensures taken.None? <==> old(pmm.Free()) == {}
      ensures r.Ok? <==> Reach(old(State()), root, [va], 1)
      ensures r.Err? ==> Space(root) == old(Space(root))
      ensures r.Ok? ==> taken.Some? && PageNo(va) !in old(Space(root)) && AnonDone(old(State()), State(), root, [va])
      ensures r.Ok? ==> Space(root) == old(Space(root))[PageNo(va) := Present(taken.value, flags)]
    {
      hide Shape, Bits.ClearSet, Kept, Flat, Missing, PageNo, Aligned, Reach, AnonDone, Built;
      ghost var s0 := State();
      KeptSelf(s0, root);
      ReachOne(s0, kernel, root, va);
      var frame := TakeFrame();
      taken := frame;
      if frame.None? {
        assert s0.(free := s0.free - {}) == s0;
        return Err(OutOfMemory), taken;
      }
      pages := pages[frame.value := Zeros(PageTables.PAGE_SIZE)];
      assert State() == s0.(free := s0.free - {frame.value});
      FrameAddr(frame.value);
      r := MapOne(root, va, frame.value * PageTables.PAGE_SIZE, flags);
      if r.Ok? {
        DoneOne(s0, State(), kernel, root, va, frame.value, flags);
      }
    }

    /** Map fresh zeroed frames at consecutive pages; on failure the pages mapped so far stay. As
        many pages are mapped as can be, and a frame is lost unless none was left. */
    method MapAnon(root: nat, virt: nat, count: nat, flags: Flags)
      returns (r: Result<(), MapError>, ghost mapped: seq<nat>, ghost lost: set<nat>)
      requires Valid() && IsRoot(places, root) && virt + count * PageTables.PAGE_SIZE <= USER_TOP
      modifies `tables, `places, `pages, pmm`nextHint, pmm`freeFrames, pmm.bitmap
      ensures Valid() && AnonKept(old(State()), State(), root, PageSet(mapped) + lost)
      ensures old(pmm.freeFrames == |pmm.Free()|) ==> pmm.freeFrames == |pmm.Free()|
      ensures r.Ok? <==>
                || count == 0
                || (&& Aligned(virt) && Vacant(old(Space(root)), PageNo(virt), count)
                    && Slack(old(State()), root, PageNo(virt), count) >= count)
      ensures MostReached(old(State()), root, Vas(virt, count), |mapped|) && |mapped| <= count
      ensures (r.Ok? <==> |mapped| == count)
      ensures |lost| <= 1 && (lost == {} <==> r.Ok? || Spare(old(State()), root, Vas(virt, count), |mapped|) == 0)
      ensures r.Ok? ==> AnonDone(old(State()), State(), root, Vas(virt, count))
      ensures Distinct(mapped) && PageSet(mapped) !! lost && Vacant(old(Space(root)), PageNo(virt), |mapped|)
      ensures Space(root) == Handed(old(Space(root)), PageNo(virt), mapped, flags)
      ensures Cleared(old(pages), pages, PageSet(mapped) + lost)
    {
      hide AnonKept, Kept, Shape, Bits.ClearSet, Flat, Missing, Slack, Vacant, Handed, PageNo, Aligned, AnonProgress;
      hide Distinct, PageSet, Cleared, Reach, AnonDone, Spare;
      ghost var lo, s0, vas := PageNo(virt), State(), Vas(virt, count);
      mapped, lost := [], {};
      InUserPages(virt, count);
      AnonStart(lo, vas, root, flags, s0);
      ClearedNone(pages);
      for i := 0 to count
        invariant Valid() && IsRoot(places, root) && |mapped| == i && lost == {}
        invariant old(pmm.freeFrames == |pmm.Free()|) ==> pmm.freeFrames == |pmm.Free()|
        invariant AnonProgress(mapped, lo, vas, root, flags, s0, State())
        invariant Cleared(old(pages), pages, PageSet(mapped))
      {
        ghost var s1, pages1 := State(), pages;
        var va := virt + i * PageTables.PAGE_SIZE;
        VpnSlot(virt, i, count, va);
        ghost var taken;
        AnonNext(mapped, lo, vas, root, flags, s0, s1);
        r, taken := AnonPage(root, va, flags);
        AnonRoot(s1, State(), root, AsSet(taken));
        ClearedBoth(old(pages), pages1, pages, PageSet(mapped), AsSet(taken));
        if r.Err? {
          lost := AsSet(taken);
          AnonStop(mapped, lo, vas, root, flags, s0, s1, State(), lost);
          MostHere(s0, root, virt, count, i);
          return;
        }
        ghost var more := mapped + [taken.value * PageTables.PAGE_SIZE];
        AnonStep(mapped, lo, vas, root, flags, s0, s1, State(), taken.value, more);
        mapped := more;
      }
      AnonEnd(mapped, lo, vas, root, flags, s0, State());
      ReachRange(s0, root, virt, count);
      r := Ok(());
    }

    /** The walk of `phys_for_virt`: four present entries, then the page offset. */
    function PhysForVirt(root: nat, virt: nat): (r: Option<nat>)
      reads `tables
    {
      var e1 := Entry(tables, root, Pml4Idx(virt));
      if e1.Absent? then None
      else
        var e2 := Entry(tables, e1.frame, PdptIdx(virt));
        if e2.Absent? then None
        else
          var e3 := Entry(tables, e2.frame, PdIdx(virt));
          if e3.Absent? then None
          else
            var e4 := Entry(tables, e3.frame, PtIdx(virt));
            if e4.Absent? then None else Some(e4.frame * PageTables.PAGE_SIZE + virt % PageTables.PAGE_SIZE)
    }

    predicate IsMapped4k(root: nat, virt: nat)
      reads `tables
    {
      var e1 := Entry(tables, root, Pml4Idx(virt));
      if e1.Absent? then false
      else
        var e2 := Entry(tables, e1.frame, PdptIdx(virt));
        if e2.Absent? then false
        else
          var e3 := Entry(tables, e2.frame, PdIdx(virt));
          e3.Present? && Entry(tables, e3.frame, PtIdx(virt)).Present?
    }

    /** The read-only walks see exactly the flat map. */
    lemma {:induction false} WalksAgree(root: nat, virt: nat)
      requires virt < USER_TOP
      ensures IsMapped4k(root, virt) <==> PageNo(virt) in Space(root)
      ensures PhysForVirt(root, virt) ==
              if PageNo(virt) in Space(root)
                  then Some(Space(root)[PageNo(virt)].frame * PageTables.PAGE_SIZE + virt % PageTables.PAGE_SIZE)
                  else None
    {
      hide Idx, Pml4Idx, PdptIdx, PdIdx, PtIdx;
      IndexDigits(virt);
      var v := PageNo(virt);
      var e1 := Entry(tables, root, Idx(v, 4));
      assert e1.Present? ==> Walk(tables, root, 4, v) == Walk(tables, e1.frame, 3, v);
      if e1.Present? {
        var e2 := Entry(tables, e1.frame, Idx(v, 3));
        assert e2.Present? ==> Walk(tables, e1.frame, 3, v) == Walk(tables, e2.frame, 2, v);
        if e2.Present? {
          var e3 := Entry(tables, e2.frame, Idx(v, 2));
          assert e3.Present? ==> Walk(tables, e2.frame, 2, v) == Walk(tables, e3.frame, 1, v);
        }
      }
    }

    /** Bytes stored at a physical address, inside one page. */
    method WritePhys(ghost m: map<nat, Pte>, ghost va: nat, phys: nat, bytes: seq<byte>)
      requires Injective(m) && PageNo(va) in m
      requires phys == m[PageNo(va)].frame * PageTables.PAGE_SIZE + va % PageTables.PAGE_SIZE
      requires |bytes| <= PageTables.PAGE_SIZE - va % PageTables.PAGE_SIZE
      modifies `pages
      ensures Written(m, old(pages), pages, va, bytes)
    {
      hide Written;
      var f, off := phys / PageTables.PAGE_SIZE, phys % PageTables.PAGE_SIZE;
      assert f == m[PageNo(va)].frame && off == va % PageTables.PAGE_SIZE;
      WrittenPage(m, pages, va, bytes);
      pages := pages[f := Splice(Content(pages, f), off, bytes)];
    }

    /** Copy bytes into user memory page by page, stopping at an unmapped page. */
    method CopyToUser(root: nat, virt: nat, bytes: seq<byte>) returns (r: Result<(), MapError>, ghost done: nat)
      requires virt + |bytes| <= USER_TOP && Injective(Space(root))
      modifies `pages
      ensures done <= |bytes| && Written(Space(root), old(pages), pages, virt, bytes[..done])
      ensures r == if done == |bytes| then Ok(()) else Err(NoVirtualSpace)
      ensures r.Err? ==> PageNo(virt + done) !in Space(root)
    {
      hide Written, Flat, PageNo, Injective, PhysForVirt;
      ghost var m := Space(root);
      var written := 0;
      done := 0;
      WrittenNone(m, pages, virt);
      assert bytes[..0] == [];
      while written < |bytes|
        invariant done == written <= |bytes| && Space(root) == m
        invariant Written(m, old(pages), pages, virt, bytes[..written])
      {
        var va := virt + written;
        WalksAgree(root, va);
        var phys := PhysForVirt(root, va);
        if phys.None? {
          return Err(NoVirtualSpace), done;
        }
        var pageLeft := PageTables.PAGE_SIZE - va % PageTables.PAGE_SIZE;
        var n := Min(pageLeft, |bytes| - written);
        ghost var before := pages;
        WritePhys(m, va, phys.value, bytes[written..written + n]);
        WrittenAppend(m, old(pages), before, pages, virt, bytes, written, n);
        written := written + n;
        done := written;
      }
      assert bytes[..|bytes|] == bytes;
      return Ok(()), done;
    }

    method ZeroUser(root: nat, virt: nat, len: nat) returns (r: Result<(), MapError>, ghost done: nat)
      requires virt + len <= USER_TOP && Injective(Space(root))
      modifies `pages
      ensures done <= len && Written(Space(root), old(pages), pages, virt, Zeros(done))
      ensures r == if done == len then Ok(()) else Err(NoVirtualSpace)
      ensures r.Err? ==> PageNo(virt + done) !in Space(root)
    {
      hide Written, Flat, PageNo, Injective, PhysForVirt;
      ghost var m := Space(root);
      var cleared := 0;
      done := 0;
      WrittenNone(m, pages, virt);
      while cleared < len
        invariant done == cleared <= len && Space(root) == m
        invariant Written(m, old(pages), pages, virt, Zeros(cleared))
      {
        var va := virt + cleared;
        WalksAgree(root, va);
        var phys := PhysForVirt(root, va);
        if phys.None? {
          return Err(NoVirtualSpace), done;
        }
        var pageLeft := PageTables.PAGE_SIZE - va % PageTables.PAGE_SIZE;
        var n := Min(pageLeft, len - cleared);
        ghost var before := pages;
        WritePhys(m, va, phys.value, Zeros(n));
        ZerosSplit(len, cleared, n);
        WrittenAppend(m, old(pages), before, pages, virt, Zeros(len), cleared, n);
        cleared := cleared + n;
        done := cleared;
      }
      return Ok(()), done;
    }

    /** First-fit search of the IPC window, one page at a time. */
    method FindUserVmRange(root: nat, pages: nat) returns (r: Option<nat>)
      ensures r.Some? ==>
                Accepts(Space(root), pages, r.value) && forall s: nat :: s < r.value ==> !Accepts(Space(root), pages, s)
      ensures r.None? ==> forall s: nat :: !Accepts(Space(root), pages, s)
    {
      hide Flat, Vacant, IsMapped4k;
      ghost var m := Space(root);
      var runStart: Option<nat> := None;
      var run, va := 0, USER_IPC_BASE;
      ghost var q := PageNo(va);
      SweepStart(m, pages, q);
      while va + pages * PageTables.PAGE_SIZE <= USER_IPC_END
        invariant va == q * PageTables.PAGE_SIZE && q >= PageNo(USER_IPC_BASE) && Space(root) == m
        invariant Swept(m, pages, q, run)
        invariant run > 0 ==> runStart == Some((q - run) * PageTables.PAGE_SIZE)
        decreases USER_IPC_END - va
      {
        WalksAgree(root, va);
        SweepStep(m, pages, q, run);
        if IsMapped4k(root, va) {
          runStart, run := None, 0;
        } else {
          if run == 0 {
            runStart := Some(va);
          }
          run := run + 1;
          if run == pages {
            SweepFound(m, pages, q, runStart.value);
            return runStart;
          }
        }
        va := va + PageTables.PAGE_SIZE;
        q := q + 1;
      }
      SweepEnd(m, pages, q, run);
      return None;
    }

    /** A fresh address space sharing the kernel half. */
    method NewUser() returns (r: Option<nat>)
      requires Valid()
      modifies `tables, `places, pmm`nextHint, pmm`freeFrames, pmm.bitmap
      ensures Valid() && SameSpaces(old(tables), old(places), tables)
      ensures r.None? <==> old(pmm.Free()) == {}
      ensures r.None? ==> tables == old(tables) && places == old(places) && pmm.Free() == {}
      ensures r.Some? ==> r.value in old(pmm.Free()) && pmm.Free() == old(pmm.Free()) - {r.value}
      ensures r.Some? ==>
                places == old(places)[r.value := Place(r.value, 4, 0)] && tables.Keys == old(tables.Keys) + {r.value}
      ensures r.Some? ==> r.value in tables && forall i :: 0 <= i < 256 ==> tables[r.value][i].Absent?
      ensures r.Some? ==>
                && Space(r.value) == map[]
                && forall v: nat :: LOW_PAGES <= v < ALL_PAGES ==> Leaf(tables, r.value, v) == Leaf(tables, kernel, v)
      ensures old(pmm.freeFrames == |pmm.Free()|) ==> pmm.freeFrames == |pmm.Free()|
    {
      hide Shape, Bits.ClearSet, SameSpaces, Flat, Leaf;
      ghost var t0, p0 := tables, places;
      SameSpacesSelf(t0, p0);
      var frame := TakeFrame();
      if frame.None? {
        return None;
      }
      KernelTable(t0, p0, kernel);
      var pml4 := EmptyTable();
      for i := 256 to ENTRIES
        invariant forall j :: 0 <= j < ENTRIES ==> pml4[j] == if 256 <= j < i then tables[kernel][j] else Absent
      {
        pml4 := pml4[i := tables[kernel][i]];
      }
      NewSpace(t0, p0, kernel, frame.value, pml4);
      tables := tables[frame.value := pml4];
      places := places[frame.value := Place(frame.value, 4, 0)];
      return frame;
    }
  }

  /** What the search accepts, in addresses. */
  lemma WindowMeaning(m: map<nat, Pte>, n: nat, s: nat)
    ensures Accepts(m, n, s) <==>
              && n > 0 && s % 4096 == 0 && 0x2000_0000 <= s && s + (2 * n - 1) * 4096 <= 0x6000_0000
              && forall v: nat :: s / 4096 <= v < s / 4096 + n ==> v !in m
  {
  }

  /** Even in an empty window the search refuses a run of more than half the window. */
  lemma EmptyWindow(n: nat)
    ensures (exists s: nat :: Accepts(map[], n, s)) <==> 0 < n <= 0x2_0000
  {
    if 0 < n <= 0x2_0000 {
      assert Accepts(map[], n, USER_IPC_BASE);
    }
  }

  /** The frames of an address space are neither free nor page tables. */
  ghost predicate Apart(m: map<nat, Pte>, s: State) {
    forall v :: v in m && m[v].Present? ==> m[v].frame !in s.free && m[v].frame !in s.tables
  }

  lemma AnonParts(s: State, s': State, root: nat, taken: set<nat>)
    requires AnonKept(s, s', root, taken) && s.free !! s.tables.Keys && s'.free !! s'.tables.Keys
    ensures taken <= s.free
    ensures forall f :: f in s'.free || f in s'.tables ==> (f in s.free || f in s.tables) && f !in taken
  {
    hide OthersSame;
    forall f | f in s'.free || f in s'.tables ensures (f in s.free || f in s.tables) && f !in taken {
      assert f in s'.free + s'.tables.Keys;
    }
  }

  /** Pages added on fresh frames share no frame with anything. */
  lemma AnonApart(m: map<nat, Pte>, lo: nat, mapped: seq<nat>, flags: Flags, root: nat, s: State, s': State)
    requires Injective(m) && Apart(m, s) && Distinct(mapped) && s.free !! s.tables.Keys
    requires AnonKept(s, s', root, PageSet(mapped))
    requires s'.free !! s'.tables.Keys && Vacant(m, lo, |mapped|)
    ensures Injective(Handed(m, lo, mapped, flags)) && Apart(Handed(m, lo, mapped, flags), s')
  {
    hide Handed, Kept, PageNo, Vacant;
    var h := Handed(m, lo, mapped, flags);
    AnonParts(s, s', root, PageSet(mapped));
    forall v
      ensures v in h ==>
                && h[v].Present?
                && (if lo <= v < lo + |mapped| then h[v].frame in PageSet(mapped) else v in m && h[v] == m[v])
    {
      if v in h {
        HandedAt(m, lo, mapped, flags, v);
      }
    }
    forall v, w | v in h && w in h && v != w ensures h[v].frame != h[w].frame {
      HandedAt(m, lo, mapped, flags, v);
      HandedAt(m, lo, mapped, flags, w);
    }
  }

  // ---------------------------------------------------------------------
  // Inputs that lose a frame or change flags

  /** Page 1 of address space 2 is mapped; its page table is frame 5. Frame 8 is free. */
  ghost function OneMapped(): (s: State) {
    var e, u := EmptyTable(), Flags(true, true, false, false);
    St(map[1 := e, 2 := e[0 := Present(3, u)], 3 := e[0 := Present(4, u)], 4 := e[0 := Present(5, u)],
        5 := e[1 := Present(7, u)]],
       map[1 := Place(1, 4, 0), 2 := Place(2, 4, 0), 3 := Place(2, 3, 0), 4 := Place(2, 2, 0),
           5 := Place(2, 1, 0)], {8})
  }

  lemma NothingLacks(t: Tables, root: nat)
    ensures LackOf(t, root, {}) == {}
  {
    hide Down, Up;
  }

  lemma MappedAlready(s: State, root: nat, va: nat)
    requires PageNo(va) in Flat(s.tables, root)
    ensures MostReached(s, root, Vas(va, 1), 0) && Spare(s, root, Vas(va, 1), 0) == |s.free|
  {
    hide Flat, LackOf, PageNo, Aligned;
    var vas := Vas(va, 1);
    assert vas[..0] == [] && vas[0] == va;
    DoneNone(s, root);
    NothingLacks(s.tables, root);
  }

  lemma OneMappedShape()
    ensures var s := OneMapped(); Shape(s.tables, s.places, 1) && IsRoot(s.places, 2) && |s.free| == 1
  {
    var s := OneMapped();
    forall f, i | f in s.tables && 0 <= i < ENTRIES ensures EntryOk(s.tables, s.places, 1, f, i) {
    }
  }

  lemma {:induction false} FirstIndexes()
    ensures Idx(1, 1) == 1 && Idx(1, 2) == 0 && Idx(1, 3) == 0 && Idx(1, 4) == 0
  {
    assert Up(1, 0) == 1;
    assert Up(1, 1) == 0;
    assert Up(1, 2) == 0;
    assert Up(1, 3) == 0;
  }

  lemma OneMappedLeaf()
    ensures 1 in Flat(OneMapped().tables, 2)
  {
    var t := OneMapped().tables;
    FirstIndexes();
    hide Idx;
    assert Walk(t, 5, 1, 1).Some?;
    assert Walk(t, 4, 2, 1) == Walk(t, 5, 1, 1);
    assert Walk(t, 3, 3, 1) == Walk(t, 4, 2, 1);
    assert Walk(t, 2, 4, 1) == Walk(t, 3, 3, 1);
  }

  /** Mapping a page that is mapped already takes the free frame, fails, and loses it. */
  lemma LosesFrame()
    ensures var s := OneMapped();
            && Shape(s.tables, s.places, 1) && IsRoot(s.places, 2)
            && MostReached(s, 2, Vas(PageTables.PAGE_SIZE, 1), 0) && Spare(s, 2, Vas(PageTables.PAGE_SIZE, 1), 0) == 1
  {
    hide Shape, OneMapped, Flat, MostReached, Spare, Vas;
    OneMappedShape();
    OneMappedLeaf();
    MappedAlready(OneMapped(), 2, PageTables.PAGE_SIZE);
  }

  /** A failed `steal_pages` restores the translation of every page; it restores the mapping
      itself exactly when the pages before the hole already had the flags of a handed-over page. */
  lemma RolledBack(m: map<nat, Pte>, lo: nat, hole: nat)
    requires forall v :: v in m ==> m[v].Present?
    ensures var r := Partly(m, lo, hole, hole);
            && r.Keys == m.Keys && (forall v :: v in m ==> r[v].frame == m[v].frame)
            && (r == m <==>
                forall v :: v in m && lo <= v < lo + hole ==> m[v].flags == Flags(true, true, true, false))
  {
    var r := Partly(m, lo, hole, hole);
    if r == m {
      forall v | v in m && lo <= v < lo + hole ensures m[v].flags == HANDED_OVER {
        assert r[v] == m[v];
      }
    }
    if forall v :: v in m && lo <= v < lo + hole ==> m[v].flags == HANDED_OVER {
      assert forall v :: v in m ==> r[v] == m[v];
      assert r == m;
    }
  }

  /** A read-only page next to a hole comes back writable. */
  lemma RolledBackWritable()
    ensures var ro := map[1 := Present(7, Flags(false, true, true, false))];
            Partly(ro, 1, 1, 1) == map[1 := Present(7, Flags(true, true, true, false))] && Partly(ro, 1, 1, 1) != ro
  {
    var ro := map[1 := Present(7, Flags(false, true, true, false))];
    assert Partly(ro, 1, 1, 1)[1] == Present(7, HANDED_OVER);
    assert ro[1] != Present(7, HANDED_OVER);
  }
}
