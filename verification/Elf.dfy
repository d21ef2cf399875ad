/** Loading program segments into an address space (kernel/src/fs/elf.rs). */
module Elf {
  import opened Prelude
  import opened PageTables
  import opened Vmm
  import opened Ranges

  datatype ElfError = Parse | Map | Copy

  /** A loadable program header. */
  datatype Segment = Segment(virt: nat, offset: nat, fileSize: nat, memSize: nat, write: bool, exec: bool)

  /** The page-aligned range a segment is mapped at. */
  function Base(g: Segment): (b: nat)
    ensures Aligned(b) && b <= g.virt < b + PageTables.PAGE_SIZE
  {
    g.virt - g.virt % PageTables.PAGE_SIZE
  }

  function Pages(g: Segment): (n: nat)
    ensures g.virt + g.memSize <= Base(g) + n * PageTables.PAGE_SIZE
    ensures n > 0 ==> Base(g) + (n - 1) * PageTables.PAGE_SIZE < g.virt + g.memSize
  {
    (g.virt % PageTables.PAGE_SIZE + g.memSize + PageTables.PAGE_SIZE - 1) / PageTables.PAGE_SIZE
  }

  ghost predicate InRange(g: Segment, input: seq<byte>) {
    g.fileSize <= g.memSize && g.offset + g.fileSize <= |input| && Base(g) + Pages(g) * PageTables.PAGE_SIZE <= USER_TOP
  }

  /** The byte a segment puts at an address: file bytes, then zeros to the end of its last page. */
  ghost function Image(g: Segment, input: seq<byte>, va: nat): (b: byte)
    requires InRange(g, input)
  {
    if g.virt <= va < g.virt + g.fileSize then input[g.offset + (va - g.virt)] else 0
  }

  ghost predicate OnPages(g: Segment, va: nat) {
    Base(g) <= va < Base(g) + Pages(g) * PageTables.PAGE_SIZE
  }

  /** User memory after a segment was loaded: its pages hold its image, all other bytes are unchanged. */
  ghost predicate Loaded(g: Segment, input: seq<byte>, m: map<nat, Pte>, pages: map<nat, Page>, m': map<nat, Pte>,
                         pages': map<nat, Page>)
    requires InRange(g, input)
  {
    forall va: nat :: UserByte(m', pages', va) == if OnPages(g, va) then Some(Image(g, input, va))
        else UserByte(m, pages, va)
  }

  lemma CoveredByPages(g: Segment, k: nat)
    ensures k < g.memSize ==> OnPages(g, g.virt + k)
  {
  }

  /** The flags of a segment's pages: always writable, executable if the segment is. */
  function SegmentFlags(g: Segment): (f: Flags) {
    Flags(true, true, !g.exec, false)
  }

  ghost predicate Mapped(m: map<nat, Pte>, g: Segment) {
    forall va: nat :: OnPages(g, va) ==>
        PageNo(va) in m && m[PageNo(va)].Present? && m[PageNo(va)].flags == SegmentFlags(g)
  }

  /** What a loaded segment looks like to its program. */
  lemma SegmentMeaning(g: Segment, input: seq<byte>, m: map<nat, Pte>, pages: map<nat, Page>, m': map<nat, Pte>,
                       pages': map<nat, Page>)
    requires InRange(g, input) && Loaded(g, input, m, pages, m', pages') && Mapped(m', g)
    ensures forall va: nat :: g.virt <= va < g.virt + g.memSize ==>
              && UserByte(m', pages', va) ==
                   Some(if va < g.virt + g.fileSize then input[g.offset + (va - g.virt)] else 0)
              && va / 4096 in m'
              && var flags := m'[va / 4096].flags; flags.user && flags.write && (flags.nx <==> !g.exec)
  {
    hide UserByte;
    forall va: nat | g.virt <= va < g.virt + g.memSize ensures OnPages(g, va) && va / 4096 == PageNo(va) {
      CoveredByPages(g, va - g.virt);
    }
    hide OnPages;
  }

  /** Clear and copy. The pages just mapped cover the segment, so neither call finds a hole. */
  method Fill(vmm: Vmm, root: nat, input: seq<byte>, g: Segment) returns (ghost zeroed: map<nat, Page>)
    requires InRange(g, input) && Injective(vmm.Space(root)) && Mapped(vmm.Space(root), g)
    modifies vmm`pages
    ensures Written(vmm.Space(root), old(vmm.pages), zeroed, g.virt, Zeros(g.memSize))
    ensures Written(vmm.Space(root), zeroed, vmm.pages, g.virt, input[g.offset..g.offset + g.fileSize])
  {
    hide Flat, Injective, Written, PageNo, Pages;
    var r;
    ghost var k;
    r, k := vmm.ZeroUser(root, g.virt, g.memSize);
    CoveredByPages(g, k);
    assert r.Ok?;
    zeroed := vmm.pages;
    r, k := vmm.CopyToUser(root, g.virt, input[g.offset..g.offset + g.fileSize]);
    CoveredByPages(g, k);
    assert r.Ok?;
    assert input[g.offset..g.offset + g.fileSize][..g.fileSize] == input[g.offset..g.offset + g.fileSize];
  }

  lemma AnonOthers(s: State, s': State, root: nat, taken: set<nat>)
    requires AnonKept(s, s', root, taken) && IsRoot(s.places, root)
    ensures OthersSame(s.tables, s.places, s'.tables, root) && IsRoot(s'.places, root)
  {
    hide OthersSame;
  }

  lemma PageOfSegment(g: Segment, va: nat)
    ensures OnPages(g, va) <==> PageNo(Base(g)) <= PageNo(va) < PageNo(Base(g)) + Pages(g)
  {
  }

  lemma SegmentMapped(g: Segment, m: map<nat, Pte>, mapped: seq<nat>)
    requires |mapped| == Pages(g) && (Pages(g) > 0 ==> Vacant(m, PageNo(Base(g)), Pages(g)))
    ensures var h := Handed(m, PageNo(Base(g)), mapped, SegmentFlags(g)); Mapped(h, g) && forall v :: v in m ==>
              v in h && h[v] == m[v]
  {
    hide Handed, PageNo, Base, Pages, OnPages, SegmentFlags;
    var flags := SegmentFlags(g);
    var h := Handed(m, PageNo(Base(g)), mapped, flags);
    forall va: nat | OnPages(g, va) ensures PageNo(va) in h && h[PageNo(va)].Present? && h[PageNo(va)].flags == flags {
      PageOfSegment(g, va);
      HandedAt(m, PageNo(Base(g)), mapped, flags, PageNo(va));
    }
    forall v | v in m ensures v in h && h[v] == m[v] {
      HandedAt(m, PageNo(Base(g)), mapped, flags, v);
    }
  }

  lemma SegmentApart(g: Segment, root: nat, s: State, s': State, m: map<nat, Pte>, mapped: seq<nat>, flags: Flags)
    requires |mapped| == Pages(g) && (Pages(g) > 0 ==> Vacant(m, PageNo(Base(g)), Pages(g)))
    requires Injective(m) && Apart(m, s) && Distinct(mapped) && AnonKept(s, s', root, PageSet(mapped) + {})
    requires s.free !! s.tables.Keys && s'.free !! s'.tables.Keys
    ensures Injective(Handed(m, PageNo(Base(g)), mapped, flags)) && Apart(Handed(m, PageNo(Base(g)), mapped, flags), s')
    ensures PageSet(mapped) <= s.free
  {
    hide Handed, Injective, Apart, Distinct, Kept, PageSet;
    assert PageSet(mapped) + {} == PageSet(mapped);
    AnonApart(m, PageNo(Base(g)), mapped, flags, root, s, s');
  }

  lemma AnonByte(g: Segment, m: map<nat, Pte>, pages0: map<nat, Page>, mapped: seq<nat>, flags: Flags, s: State,
                 pages1: map<nat, Page>, va: nat)
    requires |mapped| == Pages(g) && Apart(m, s) && PageSet(mapped) <= s.free
    requires Cleared(pages0, pages1, PageSet(mapped) + {})
    requires forall v :: v in m ==> m[v].Present?
    ensures UserByte(Handed(m, PageNo(Base(g)), mapped, flags), pages1, va) == if OnPages(g, va) then Some(0)
              else UserByte(m, pages0, va)
  {
    hide Handed, PageNo, Base, Pages, OnPages;
    PageOfSegment(g, va);
    HandedAt(m, PageNo(Base(g)), mapped, flags, PageNo(va));
  }

  lemma SegmentBytes(g: Segment, input: seq<byte>, m: map<nat, Pte>, pages0: map<nat, Page>, mapped: seq<nat>,
      flags: Flags, s: State,
                     pages1: map<nat, Page>, pages2: map<nat, Page>, pages3: map<nat, Page>)
    requires InRange(g, input) && |mapped| == Pages(g) && Apart(m, s) && PageSet(mapped) <= s.free
    requires Cleared(pages0, pages1, PageSet(mapped) + {})
    requires (forall v :: v in m ==> m[v].Present?) && (Pages(g) > 0 ==> Vacant(m, PageNo(Base(g)), Pages(g)))
    requires var h := Handed(m, PageNo(Base(g)), mapped, flags);
             Written(h, pages1, pages2, g.virt, Zeros(g.memSize))
                 && Written(h, pages2, pages3, g.virt, input[g.offset..g.offset + g.fileSize])
    ensures Loaded(g, input, m, pages0, Handed(m, PageNo(Base(g)), mapped, flags), pages3)
  {
    hide Handed, PageNo, Base, Pages, OnPages, Vacant, UserByte;
    var h := Handed(m, PageNo(Base(g)), mapped, flags);
    forall va: nat
      ensures UserByte(h, pages3, va) == if OnPages(g, va) then Some(Image(g, input, va)) else UserByte(m, pages0, va)
    {
      AnonByte(g, m, pages0, mapped, flags, s, pages1, va);
      if g.virt <= va {
        CoveredByPages(g, va - g.virt);
      }
    }
  }

  lemma AllReached(s: State, root: nat, vas: seq<nat>, j: nat)
    requires MostReached(s, root, vas, j)
    ensures Reach(s, root, vas, j)
  {
  }

  /** `load_seg`: map zeroed pages, clear the memory range, copy the file bytes. */
  method LoadSeg(vmm: Vmm, root: nat, input: seq<byte>, g: Segment) returns (r: Result<(), ElfError>, ghost done: nat)
    requires vmm.Valid() && IsRoot(vmm.places, root) && InRange(g, input)
    requires Injective(vmm.Space(root)) && Apart(vmm.Space(root), vmm.State())
    modifies vmm`tables, vmm`places, vmm`pages, vmm.pmm`nextHint, vmm.pmm`freeFrames, vmm.pmm.bitmap
    ensures vmm.Valid() && IsRoot(vmm.places, root)
    ensures r.Ok? <==>
              || Pages(g) == 0
              || (&& Vacant(old(vmm.Space(root)), PageNo(Base(g)), Pages(g))
                  && Slack(old(vmm.State()), root, PageNo(Base(g)), Pages(g)) >= Pages(g))
    ensures r.Err? ==> r.error == Map
    ensures r.Ok? ==> Injective(vmm.Space(root)) && Apart(vmm.Space(root), vmm.State())
    ensures r.Ok? ==> Loaded(g, input, old(vmm.Space(root)), old(vmm.pages), vmm.Space(root), vmm.pages)
    ensures r.Ok? ==> Mapped(vmm.Space(root), g) && forall v :: v in old(vmm.Space(root)) ==>
              v in vmm.Space(root) && vmm.Space(root)[v] == old(vmm.Space(root))[v]
    ensures r.Ok? ==>
              && Reach(old(vmm.State()), root, Vas(Base(g), Pages(g)), Pages(g))
              && AnonDone(old(vmm.State()), vmm.State(), root, Vas(Base(g), Pages(g)))
    ensures r.Err? ==> done < Pages(g) && MostReached(old(vmm.State()), root, Vas(Base(g), Pages(g)), done)
    // Byte by byte: the file's bytes at the segment's address, then zeros; the pages are the user's,
    // writable, and executable exactly if the segment is.
    ensures r.Ok? ==> forall va: nat :: g.virt <= va < g.virt + g.memSize ==>
              && UserByte(vmm.Space(root), vmm.pages, va) ==
                   Some(if va < g.virt + g.fileSize then input[g.offset + (va - g.virt)] else 0)
              && va / 4096 in vmm.Space(root)
              && var flags := vmm.Space(root)[va / 4096].flags; flags.user && flags.write && (flags.nx <==> !g.exec)
    ensures OthersSame(old(vmm.tables), old(vmm.places), vmm.tables, root)
  {
    hide Flat, Injective, Apart, Vacant, Slack, Handed, AnonKept, Distinct, PageSet, Cleared, Written, OthersSame;
    hide Loaded, PageNo, Image, Pages, Mapped, SegmentFlags, MostReached, Reach, AnonDone, Spare, Vas;
    ghost var m0, pages0, s0 := vmm.Space(root), vmm.pages, vmm.State();
    var mapFlags := SegmentFlags(g);
    var anon;
    ghost var mapped, lost;
    anon, mapped, lost := vmm.MapAnon(root, Base(g), Pages(g), mapFlags);
    AnonOthers(s0, vmm.State(), root, PageSet(mapped) + lost);
    ghost var pages1 := vmm.pages;
    if anon.Err? {
      return Err(Map), |mapped|;
    }
    assert Reach(s0, root, Vas(Base(g), Pages(g)),
        Pages(g)) by { AllReached(s0, root, Vas(Base(g), Pages(g)), |mapped|); }
    SegmentMapped(g, m0, mapped);
    SegmentApart(g, root, s0, vmm.State(), m0, mapped, mapFlags);
    ghost var pages2 := Fill(vmm, root, input, g);
    SegmentBytes(g, input, m0, pages0, mapped, mapFlags, s0, pages1, pages2, vmm.pages);
    SegmentMeaning(g, input, m0, pages0, vmm.Space(root), vmm.pages);
    return Ok(()), |mapped|;
  }

  function RangeOf(g: Segment): (r: Range) {
    Range(Base(g), Pages(g), SegmentFlags(g))
  }

  /** The page ranges of all segments. */
  ghost function RangesOf(segments: seq<Segment>): (rs: seq<Range>)
    ensures |rs| == |segments|
  {
    seq(|segments|, i requires 0 <= i < |segments| => RangeOf(segments[i]))
  }

  lemma SegmentsInUser(segments: seq<Segment>, input: seq<byte>)
    requires forall i :: 0 <= i < |segments| ==> InRange(segments[i], input)
    ensures InUser(AllVas(RangesOf(segments)))
  {
    hide Base, Pages;
    AllInUser(RangesOf(segments));
  }

  /** Where one segment stops, all of them do. */
  lemma SegmentStops(s0: State, s: State, root: nat, segments: seq<Segment>, i: nat, j: nat)
    requires i < |segments| && Sofar(s0, s, root, RangesOf(segments), i)
    requires j < Pages(segments[i]) && MostReached(s, root, Vas(Base(segments[i]), Pages(segments[i])), j)
    ensures var vas := AllVas(RangesOf(segments)); !Reach(s0, root, vas, |vas|)
  {
    hide Reach, Sofar, Vas, AllVas, Base, Pages;
    assert RangesOf(segments)[i] == RangeOf(segments[i]);
    SofarStop(s0, s, root, RangesOf(segments), i, j);
  }

  /** Every byte of every segment is in place. */
  ghost predicate AllLoaded(segments: seq<Segment>, input: seq<byte>, m: map<nat, Pte>, pages: map<nat, Page>) {
    forall i, va: nat :: 0 <= i < |segments| && OnPages(segments[i], va) && InRange(segments[i], input) ==>
                           UserByte(m, pages, va) == Some(Image(segments[i], input, va))
  }

  lemma AllMeaning(segments: seq<Segment>, input: seq<byte>, m: map<nat, Pte>, pages: map<nat, Page>)
    requires AllLoaded(segments, input, m, pages) && forall i :: 0 <= i < |segments| ==> InRange(segments[i], input)
    ensures forall g, va: nat :: g in segments && InRange(g, input) && g.virt <= va < g.virt + g.memSize ==>
              UserByte(m, pages, va) == Some(if va < g.virt + g.fileSize then input[g.offset + (va - g.virt)] else 0)
  {
    hide UserByte;
    forall g, va: nat | g in segments && InRange(g, input) && g.virt <= va < g.virt + g.memSize
      ensures UserByte(m, pages, va) == Some(if va < g.virt + g.fileSize then input[g.offset + (va - g.virt)] else 0)
    {
      CoveredByPages(g, va - g.virt);
    }
  }

  /** What was mapped before reads the same. */
  ghost predicate SameBytes(m: map<nat, Pte>, pages: map<nat, Page>, m': map<nat, Pte>, pages': map<nat, Page>) {
    forall va: nat :: UserByte(m, pages, va).Some? ==> UserByte(m', pages', va) == UserByte(m, pages, va)
  }

  lemma SameBytesSelf(m: map<nat, Pte>, pages: map<nat, Page>)
    ensures SameBytes(m, pages, m, pages)
  {
  }

  lemma SameBytesTransitive(m0: map<nat, Pte>, p0: map<nat, Page>, m1: map<nat, Pte>, p1: map<nat, Page>,
                            m2: map<nat, Pte>, p2: map<nat, Page>)
    requires SameBytes(m0, p0, m1, p1) && SameBytes(m1, p1, m2, p2)
    ensures SameBytes(m0, p0, m2, p2)
  {
    hide UserByte;
  }

  lemma LoadedSame(m: map<nat, Pte>, pages: map<nat, Page>, m': map<nat, Pte>, pages': map<nat, Page>)
    requires SameBytes(m, pages, m', pages') && forall v :: v in m ==> m[v].Present?
    ensures forall va: nat :: PageNo(va) in m ==> UserByte(m', pages', va) == UserByte(m, pages, va)
  {
    forall va: nat | PageNo(va) in m ensures UserByte(m', pages', va) == UserByte(m, pages, va) {
      assert UserByte(m, pages, va).Some?;
    }
  }

  lemma NoneLoaded(segments: seq<Segment>, input: seq<byte>, m: map<nat, Pte>, pages: map<nat, Page>)
    ensures AllLoaded(segments[..0], input, m, pages)
  {
  }

  /** A segment lands on pages that were not mapped, so it changes no byte that was. */
  lemma LoadedKeeps(g: Segment, input: seq<byte>, m: map<nat, Pte>, pages: map<nat, Page>, m': map<nat, Pte>,
                    pages': map<nat, Page>)
    requires InRange(g, input) && Loaded(g, input, m, pages, m', pages')
    requires (Pages(g) > 0 ==> Vacant(m, PageNo(Base(g)), Pages(g)))
    ensures SameBytes(m, pages, m', pages')
  {
    hide Pages, Base, PageNo, OnPages, Image;
    forall va: nat | UserByte(m, pages, va).Some? ensures !OnPages(g, va) {
      PageOfSegment(g, va);
    }
  }

  lemma LoadedNext(segments: seq<Segment>, i: nat, input: seq<byte>, m: map<nat, Pte>, pages: map<nat, Page>,
                   m': map<nat, Pte>, pages': map<nat, Page>)
    requires i < |segments| && InRange(segments[i], input) && AllLoaded(segments[..i], input, m, pages)
    requires SameBytes(m, pages, m', pages') && Loaded(segments[i], input, m, pages, m', pages')
    ensures AllLoaded(segments[..i + 1], input, m', pages')
  {
    hide UserByte, OnPages, Image, InRange;
    forall j, va: nat | 0 <= j < i + 1 && OnPages(segments[j], va) && InRange(segments[j], input)
      ensures UserByte(m', pages', va) == Some(Image(segments[j], input, va))
    {
      if j < i {
        assert segments[..i][j] == segments[j];
      }
    }
  }

  /** `load`: every segment in turn, stopping at the first that cannot be mapped. All load exactly
      when all their pages together can be mapped. */
  method Load(vmm: Vmm, root: nat, input: seq<byte>, segments: seq<Segment>) returns (r: Result<(), ElfError>)
    requires vmm.Valid() && IsRoot(vmm.places, root) && forall i :: 0 <= i < |segments| ==> InRange(segments[i], input)
    requires Injective(vmm.Space(root)) && Apart(vmm.Space(root), vmm.State())
    modifies vmm`tables, vmm`places, vmm`pages, vmm.pmm`nextHint, vmm.pmm`freeFrames, vmm.pmm.bitmap
    ensures vmm.Valid() && IsRoot(vmm.places, root)
    ensures var vas := AllVas(RangesOf(segments)); r.Ok? <==> Reach(old(vmm.State()), root, vas, |vas|)
    ensures r.Err? ==> r.error == Map
    ensures r.Ok? ==> AllLoaded(segments, input, vmm.Space(root), vmm.pages)
    ensures r.Ok? ==> forall g, va: nat :: g in segments && InRange(g, input) && g.virt <= va < g.virt + g.memSize ==>
              UserByte(vmm.Space(root), vmm.pages, va) ==
                Some(if va < g.virt + g.fileSize then input[g.offset + (va - g.virt)] else 0)
    ensures r.Ok? ==> forall va: nat :: PageNo(va) in old(vmm.Space(root)) ==>
                        UserByte(vmm.Space(root), vmm.pages, va) == UserByte(old(vmm.Space(root)), old(vmm.pages), va)
  {
    hide Flat, Injective, Apart, Vacant, Slack, OthersSame, Loaded, AllLoaded, SameBytes, InRange, Mapped, Reach;
    hide AnonDone, Sofar, AllVas, Vas, Pages, Base, MostReached;
    ghost var m0, pages0, s0, rs := vmm.Space(root), vmm.pages, vmm.State(), RangesOf(segments);
    SegmentsInUser(segments, input);
    SofarNone(s0, root, rs);
    SameBytesSelf(m0, pages0);
    NoneLoaded(segments, input, m0, pages0);
    for i := 0 to |segments|
      invariant vmm.Valid() && IsRoot(vmm.places, root) && Injective(vmm.Space(root))
      invariant Apart(vmm.Space(root), vmm.State())
      invariant AllLoaded(segments[..i], input, vmm.Space(root), vmm.pages)
      invariant SameBytes(m0, pages0, vmm.Space(root), vmm.pages)
      invariant Sofar(s0, vmm.State(), root, rs, i)
    {
      ghost var m1, pages1, s1 := vmm.Space(root), vmm.pages, vmm.State();
      ghost var done;
      r, done := LoadSeg(vmm, root, input, segments[i]);
      if r.Err? {
        SegmentStops(s0, s1, root, segments, i, done);
        return;
      }
      SofarStep(s0, s1, vmm.State(), root, rs, i);
      LoadedKeeps(segments[i], input, m1, pages1, vmm.Space(root), vmm.pages);
      SameBytesTransitive(m0, pages0, m1, pages1, vmm.Space(root), vmm.pages);
      LoadedNext(segments, i, input, m1, pages1, vmm.Space(root), vmm.pages);
    }
    assert segments[..|segments|] == segments;
    AllMeaning(segments, input, vmm.Space(root), vmm.pages);
    LoadedSame(m0, pages0, vmm.Space(root), vmm.pages);
    SofarAll(s0, vmm.State(), root, rs);
    return Ok(());
  }
}
