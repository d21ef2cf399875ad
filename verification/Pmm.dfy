/** Physical frame allocator: one bitmap, indexed by page frame number (kernel/src/mm/pmm.rs). */
module Pmm {
  import opened Prelude
  import opened Bits

  const PAGE_SIZE: nat := 4096

  // ---------------------------------------------------------------------
  // Searching the bitmap from a hint

  /** The search loop of `alloc_one`: at a frame number, or finished. */
  datatype Probe = At(pfn: nat) | Found(pfn: nat) | Exhausted

  /** One turn of the loop that started at `start`. */
  function ProbeStep(bm: seq<byte>, total: nat, start: nat, pfn: nat): (p: Probe)
    requires 0 < total <= 8 * |bm|
  {
    var q := if pfn >= total then 0 else pfn;
    if !BitAt(bm, q) then Found(q)
    else if q + 1 == start then Exhausted
    else At(q + 1)
  }

  function ProbeRun(bm: seq<byte>, total: nat, start: nat, n: nat): (p: Probe)
    requires 0 < total <= 8 * |bm|
  {
    if n == 0 then At(start)
    else
      match ProbeRun(bm, total, start, n - 1)
      case At(pfn) => ProbeStep(bm, total, start, pfn)
      case done => done
  }

  /** With hint 0 and no free frame the exit test never fires. */
  lemma {:induction false} ProbeDiverges(bm: seq<byte>, total: nat, n: nat)
    requires 0 < total <= 8 * |bm| && ClearSet(bm, total) == {}
    ensures ProbeRun(bm, total, 0, n).At?
  {
    if n > 0 {
      ProbeDiverges(bm, total, n - 1);
      var pfn := ProbeRun(bm, total, 0, n - 1).pfn;
      var q := if pfn >= total then 0 else pfn;
      assert q !in ClearSet(bm, total);
    }
  }

  /** Frames already found taken when the search stands at pfn, before or after wrapping. */
  ghost predicate Scanned(bm: seq<byte>, total: nat, start: nat, pfn: nat, wrapped: bool)
    requires 0 < total <= 8 * |bm|
  {
    if wrapped then
      0 < pfn < start <= total && (forall i :: 0 <= i < pfn || start <= i < total ==> BitAt(bm, i))
    else
      start <= pfn <= total && forall i :: start <= i < pfn ==> BitAt(bm, i)
  }

  lemma SomeFree(bm: seq<byte>, total: nat)
    requires total <= 8 * |bm| && ClearSet(bm, total) != {}
    ensures exists f :: 0 <= f < total && !BitAt(bm, f)
  {
    var f :| f in ClearSet(bm, total);
  }

  /** Otherwise at most one round over the bitmap decides. */
  lemma {:induction false} ProbeEnds(bm: seq<byte>, total: nat, start: nat, n: nat, pfn: nat, wrapped: bool)
    returns (m: nat)
    requires 0 < total <= 8 * |bm| && ProbeRun(bm, total, start, n) == At(pfn)
    requires Scanned(bm, total, start, pfn, wrapped)
    requires start > 0 || ClearSet(bm, total) != {}
    ensures !ProbeRun(bm, total, start, m).At?
    decreases !wrapped, total - pfn
  {
    m := n + 1;
    match ProbeRun(bm, total, start, m) {
      case At(next) =>
        if start == 0 {
          SomeFree(bm, total);
        }
        m := ProbeEnds(bm, total, start, m, next, wrapped || pfn == total);
      case _ =>
    }
  }

  /** The search ends if and only if the hint is not 0 or some frame is free. */
  lemma {:induction false} ProbeHaltsExactly(bm: seq<byte>, total: nat, start: nat)
    requires 0 < total <= 8 * |bm| && start <= total
    ensures (exists n :: !ProbeRun(bm, total, start, n).At?) <==> start > 0 || ClearSet(bm, total) != {}
  {
    if start > 0 || ClearSet(bm, total) != {} {
      var m := ProbeEnds(bm, total, start, 0, start, false);
    } else {
      forall n: nat ensures ProbeRun(bm, total, start, n).At? {
        ProbeDiverges(bm, total, n);
      }
    }
  }

  // ---------------------------------------------------------------------
  // The allocator

  /** n frames from s on are all free. */
  ghost predicate FreeRun(free: set<nat>, s: nat, n: nat) {
    forall i: nat :: s <= i < s + n ==> i in free
  }

  ghost function Frames(s: nat, n: nat): (r: set<nat>)
    ensures |r| == n
    ensures forall i: nat :: i in r <==> s <= i < s + n
  {
    if n == 0 then {} else Frames(s, n - 1) + {s + n - 1}
  }

  /** Exactly `run` free frames end just below `end`. */
  ghost predicate Streak(free: set<nat>, end: nat, run: nat) {
    run <= end && (run < end ==> end - run - 1 !in free) && FreeRun(free, end - run, run)
  }

  lemma StreakStarts(free: set<nat>)
    ensures Streak(free, 0, 0)
  {
  }

  /** A taken frame rules out every run through it. */
  lemma StreakBreaks(free: set<nat>, pfn: nat, n: nat)
    requires pfn !in free
    ensures Streak(free, pfn + 1, 0)
    ensures n > 0 ==> forall s: nat :: s <= pfn < s + n ==> !FreeRun(free, s, n)
  {
  }

  /** One more free frame; a run of n ends here only if the streak is n long, and then it is the lowest. */
  lemma StreakGrows(free: set<nat>, pfn: nat, run: nat, n: nat)
    requires Streak(free, pfn, run) && pfn in free && (n > 0 ==> run < n)
    requires n > 0 ==> forall s: nat :: s + n <= pfn ==> !FreeRun(free, s, n)
    ensures Streak(free, pfn + 1, run + 1)
    ensures n > run + 1 ==> forall s: nat :: s + n <= pfn + 1 ==> !FreeRun(free, s, n)
    ensures n == run + 1 ==> FreeRun(free, pfn - run, n) && forall s: nat :: s < pfn - run ==> !FreeRun(free, s, n)
  {
    if n > run + 1 {
      forall s: nat | s + n == pfn + 1 ensures !FreeRun(free, s, n) {
        assert s <= pfn - run - 1 < s + n;
      }
    }
  }

  lemma RunSize(free: set<nat>, start: nat, n: nat)
    requires FreeRun(free, start, n)
    ensures |free - Frames(start, n)| == |free| - n
  {
    assert Frames(start, n) <= free;
    assert free == (free - Frames(start, n)) + Frames(start, n);
  }

  lemma FoundFirst(bm: seq<byte>, total: nat, start: nat, pfn: nat, wrapped: bool)
    requires 0 < total <= 8 * |bm| && pfn < total && !BitAt(bm, pfn)
    requires if wrapped then start <= total && pfn < start && forall i :: 0 <= i < pfn || start <= i < total ==>
               BitAt(bm, i)
             else start <= pfn && forall i :: start <= i < pfn ==> BitAt(bm, i)
    ensures pfn in ClearSet(bm, total)
    ensures forall f :: f in ClearSet(bm, total) ==> pfn <= f || f < start <= pfn
  {
  }

  lemma AllTaken(bm: seq<byte>, total: nat)
    requires total <= 8 * |bm| && forall i :: 0 <= i < total ==> BitAt(bm, i)
    ensures ClearSet(bm, total) == {}
  {
  }

  /** A memory-map entry; `usable` covers Usable and BootloaderReclaimable. */
  datatype Region = Region(base: u64, length: u64, usable: bool) {
    function FirstPfn(): (p: nat) {
      base / PAGE_SIZE
    }

    /** Whole pages counted in the entry; entries that are not usable offer none. */
    function Pages(): (n: nat) {
      if usable then length / PAGE_SIZE else 0
    }

    ghost function Pfns(): (s: set<nat>) {
      Frames(FirstPfn(), Pages())
    }
  }

  function SumPages(rs: seq<Region>): (n: nat) {
    if rs == [] then 0 else SumPages(rs[..|rs| - 1]) + rs[|rs| - 1].Pages()
  }

  ghost function UsablePfns(rs: seq<Region>): (s: set<nat>) {
    if rs == [] then {} else UsablePfns(rs[..|rs| - 1]) + rs[|rs| - 1].Pfns()
  }

  /** End of the highest region. */
  function MaxPhys(rs: seq<Region>): (m: nat) {
    if rs == [] then 0 else Max(MaxPhys(rs[..|rs| - 1]), rs[|rs| - 1].base + rs[|rs| - 1].length)
  }

  lemma {:induction false} UsableWithin(rs: seq<Region>, i: nat)
    requires i < |rs|
    ensures rs[i].base + rs[i].length <= MaxPhys(rs) && rs[i].Pfns() <= UsablePfns(rs)
    decreases |rs|
  {
    if i < |rs| - 1 {
      UsableWithin(rs[..|rs| - 1], i);
    }
  }

  lemma RegionInRange(rs: seq<Region>, i: nat)
    requires i < |rs|
    ensures rs[i].FirstPfn() + rs[i].Pages() <= DivCeil(MaxPhys(rs), PAGE_SIZE)
  {
    UsableWithin(rs, i);
  }

  class FrameAllocator {
    var bitmap: array<byte>

    const totalPfns: nat

    var nextHint: nat
    var freeFrames: int // FREE_FRAMES

    /** Every frame starts reserved. */
    constructor (totalPfns: nat)
      ensures fresh(bitmap) && this.totalPfns == totalPfns && nextHint == 0 && freeFrames == 0
      ensures bitmap.Length == DivCeil(totalPfns, 8) && bitmap[..] == seq(bitmap.Length, _ => 255)
    {
      bitmap := new byte[DivCeil(totalPfns, 8)](_ => 255);
      this.totalPfns, nextHint, freeFrames := totalPfns, 0, 0;
    }

    ghost predicate Valid()
      reads this, bitmap
    {
      0 < totalPfns <= 8 * bitmap.Length && nextHint <= totalPfns
    }

    /** The free frames. */
    ghost function Free(): (s: set<nat>)
      requires totalPfns <= 8 * bitmap.Length
      reads this, bitmap
    {
      ClearSet(bitmap[..], totalPfns)
    }

    predicate IsSet(pfn: nat)
      requires pfn < 8 * bitmap.Length
      reads this, bitmap
    {
      Bit(bitmap[pfn / 8], pfn % 8)
    }

    method SetBit(pfn: nat)
      requires totalPfns <= 8 * bitmap.Length && pfn < totalPfns
      modifies bitmap
      ensures bitmap[..] == SetBitAt(old(bitmap[..]), pfn)
      ensures Free() == old(Free()) - {pfn}
    {
      SetBitClearSet(bitmap[..], totalPfns, pfn);
      ByteWidth();
      bitmap[pfn / 8] := OrBit(bitmap[pfn / 8], pfn % 8, 8);
    }

    method ClearBit(pfn: nat)
      requires totalPfns <= 8 * bitmap.Length && pfn < totalPfns
      modifies bitmap
      ensures bitmap[..] == ClearBitAt(old(bitmap[..]), pfn)
      ensures Free() == old(Free()) + {pfn}
    {
      ClearBitClearSet(bitmap[..], totalPfns, pfn);
      ByteWidth();
      bitmap[pfn / 8] := AndNotBit(bitmap[pfn / 8], pfn % 8, 8);
    }

    /** First free frame from the hint on, wrapping once; only called when the search ends. */
    method AllocOne() returns (r: Option<nat>)
      requires Valid() && (nextHint > 0 || Free() != {})
      modifies `nextHint, bitmap
      ensures Valid()
      ensures exists n :: ProbeRun(old(bitmap[..]), totalPfns, old(nextHint), n) ==
                match r case Some(f) => Found(f) case None => Exhausted
      ensures r.None? <==> old(Free()) == {}
      ensures r.None? ==> nextHint == old(nextHint) && Free() == {}
      ensures r.Some? ==> r.value in old(Free()) && Free() == old(Free()) - {r.value} && nextHint == r.value + 1
      ensures r.Some? ==> forall f :: f in old(Free()) ==> (r.value <= f || (f < old(nextHint) <= r.value))
    {
      hide ClearSet, SetBitAt, Bit;
      var start := nextHint;
      var pfn: nat := start;
      ghost var n: nat, wrapped := 0, false;
      ghost var bm := bitmap[..];
      while true
        invariant bitmap[..] == bm && nextHint == start && Valid()
        invariant ProbeRun(bm, totalPfns, start, n) == At(pfn) && Scanned(bm, totalPfns, start, pfn, wrapped)
        decreases !wrapped, totalPfns - pfn
      {
        n := n + 1;
        if pfn >= totalPfns {
          if start == 0 {
            AllTaken(bm, totalPfns);
            assert false;
          }
          pfn := 0;
          wrapped := true;
        }
        if !IsSet(pfn) {
          assert ProbeRun(bm, totalPfns, start, n) == Found(pfn);
          FoundFirst(bm, totalPfns, start, pfn, wrapped);
          SetBit(pfn);
          nextHint := pfn + 1;
          return Some(pfn);
        }
        pfn := pfn + 1;
        if pfn == start {
          AllTaken(bm, totalPfns);
          assert ProbeRun(bm, totalPfns, start, n) == Exhausted;
          return None;
        }
      }
    }

    /** `alloc_frame`: a frame number, counted off the free frames. */
    method AllocFrame() returns (r: Option<nat>)
      requires Valid() && (nextHint > 0 || Free() != {})
      modifies `nextHint, `freeFrames, bitmap
      ensures Valid()
      ensures r.None? <==> old(Free()) == {}
      ensures r.None? ==> Free() == {} && freeFrames == old(freeFrames) && nextHint == old(nextHint)
      ensures r.Some? ==> r.value in old(Free()) && Free() == old(Free()) - {r.value} && nextHint > 0
      ensures old(freeFrames == |Free()|) ==> freeFrames == |Free()|
    {
      r := AllocOne();
      if r.Some? {
        freeFrames := freeFrames - 1;
      }
    }

    /** Linear scan for the lowest run of n free frames. */
    method FindRun(n: nat) returns (r: Option<nat>)
      requires Valid()
      ensures r.None? ==> n == 0 || forall s: nat :: s + n <= totalPfns ==> !FreeRun(Free(), s, n)
      ensures r.Some? ==>
                && n > 0 && r.value + n <= totalPfns && FreeRun(Free(), r.value, n)
                && forall s: nat :: s < r.value ==> !FreeRun(Free(), s, n)
    {
      hide FreeRun;
      var run: nat, start: nat := 0, 0;
      ghost var free := Free();
      StreakStarts(free);
      for pfn := 0 to totalPfns
        invariant run <= pfn && (n > 0 ==> run < n) && (run > 0 ==> start == pfn - run)
        invariant Streak(free, pfn, run)
        invariant n > 0 ==> forall s: nat :: s + n <= pfn ==> !FreeRun(free, s, n)
      {
        var taken := IsSet(pfn);
        assert taken <==> pfn !in free by {
          assert BitAt(bitmap[..], pfn) == taken;
        }
        if taken {
          StreakBreaks(free, pfn, n);
          run := 0;
          continue;
        }
        if run == 0 {
          start := pfn;
        }
        StreakGrows(free, pfn, run, n);
        run := run + 1;
        if run == n {
          return Some(start);
        }
      }
      return None;
    }

    method SetRun(start: nat, n: nat)
      requires Valid() && start + n <= totalPfns
      modifies bitmap
      ensures Free() == old(Free()) - Frames(start, n)
    {
      hide ClearSet, SetBitAt;
      for i := 0 to n
        invariant forall f: nat :: f in Free() <==> f in old(Free()) && !(start <= f < start + i)
      {
        SetBit(start + i);
      }
    }

    /** `alloc_contig`: the lowest run of n free frames. */
    method AllocContig(n: nat) returns (r: Option<nat>)
      requires Valid()
      modifies `freeFrames, bitmap
      ensures Valid() && nextHint == old(nextHint)
      ensures r.None? ==> n == 0 || forall s: nat :: s + n <= totalPfns ==> !FreeRun(old(Free()), s, n)
      ensures r.None? ==> Free() == old(Free()) && freeFrames == old(freeFrames)
      ensures r.Some? ==>
                && n > 0 && r.value + n <= totalPfns && FreeRun(old(Free()), r.value, n)
                && (forall s: nat :: s < r.value ==> !FreeRun(old(Free()), s, n))
                && Free() == old(Free()) - Frames(r.value, n)
      ensures old(freeFrames == |Free()|) ==> freeFrames == |Free()|
    {
      hide ClearSet, FreeRun;
      ghost var free := Free();
      r := FindRun(n);
      assert Free() == free;
      if r.Some? {
        SetRun(r.value, n);
        freeFrames := freeFrames - n;
        RunSize(free, r.value, n);
      }
    }

    method FreeRange(start: nat, n: nat)
      requires Valid() && start + n <= totalPfns
      modifies `freeFrames, bitmap
      ensures Valid() && Free() == old(Free()) + Frames(start, n) && freeFrames == old(freeFrames) + n
    {
      hide ClearSet, ClearBitAt;
      for i := 0 to n
        invariant Valid() && freeFrames == old(freeFrames) + i
        invariant forall f: nat :: f in Free() <==> f in old(Free()) || start <= f < start + i
      {
        ClearBit(start + i);
        freeFrames := freeFrames + 1;
      }
    }

    method Taken(pfn: nat) returns (b: bool)
      requires Valid() && pfn < totalPfns
      ensures b <==> pfn !in Free()
    {
      b := IsSet(pfn);
      assert BitAt(bitmap[..], pfn) == b;
    }

    /** Mark every usable region available, counting one frame per page. */
    method FreeRegions(rs: seq<Region>)
      requires Valid() && Free() == {} && freeFrames == 0 && totalPfns == DivCeil(MaxPhys(rs), PAGE_SIZE)
      modifies `freeFrames, bitmap
      ensures Valid() && Free() == UsablePfns(rs) && freeFrames == SumPages(rs)
    {
      hide ClearSet, Frames;
      for k := 0 to |rs|
        invariant Valid() && Free() == UsablePfns(rs[..k]) && freeFrames == SumPages(rs[..k])
      {
        RegionInRange(rs, k);
        assert rs[..k + 1][..k] == rs[..k];
        FreeRange(rs[k].FirstPfn(), rs[k].Pages());
      }
      assert rs[..|rs|] == rs;
    }

    /** Take frames back out, counting only those that were free. */
    method ReserveRange(start: nat, n: nat)
      requires Valid() && start + n <= totalPfns
      modifies `freeFrames, bitmap
      ensures Valid() && Free() == old(Free()) - Frames(start, n)
      ensures freeFrames - |Free()| == old(freeFrames - |Free()|)
    {
      hide SetBitAt, ClearSet;
      for i := 0 to n
        invariant Valid() && freeFrames - |Free()| == old(freeFrames - |Free()|)
        invariant forall f: nat :: f in Free() <==> f in old(Free()) && !(start <= f < start + i)
      {
        var taken := Taken(start + i);
        if !taken {
          SetBit(start + i);
          freeFrames := freeFrames - 1;
        }
      }
    }

    /** `free_frame`: return a frame; freeing a frame twice would count it twice. */
    method FreeFrame(pfn: nat)
      requires Valid() && pfn < totalPfns
      modifies `nextHint, `freeFrames, bitmap
      ensures Valid() && Free() == old(Free()) + {pfn} && nextHint == Min(old(nextHint), pfn)
      ensures freeFrames == old(freeFrames) + 1
      ensures old(freeFrames == |Free()|) ==> (freeFrames == |Free()| <==> pfn !in old(Free()))
    {
      ClearBit(pfn);
      if pfn < nextHint {
        nextHint := pfn;
      }
      freeFrames := freeFrames + 1;
    }
  }

  /** Freeing frame 3 of an all-free map of eight leaves the free set as it is, and is counted. */
  lemma {:induction false} DoubleFree()
    ensures 3 in ClearSet([0], 8) && ClearSet(ClearBitAt([0], 3), 8) == ClearSet([0], 8)
  {
    ClearBitMeaning([0], 3);
    hide ClearBitAt;
    assert !Bit(0, 0) && !Bit(0, 1) && !Bit(0, 2) && !Bit(0, 3);
  }

  // ---------------------------------------------------------------------
  // Taking over the boot memory map

  ghost predicate Disjoint(rs: seq<Region>) {
    forall i, j :: 0 <= i < j < |rs| ==> rs[i].Pfns() !! rs[j].Pfns()
  }

  lemma UnionSize(a: set<nat>, b: set<nat>)
    ensures |a + b| <= |a| + |b|
    ensures |a + b| == |a| + |b| <==> a !! b
  {
    assert a + b == a + (b - a);
    assert b == (b - a) + (b * a);
  }

  lemma {:induction false} WhichRegion(rs: seq<Region>, x: nat) returns (i: nat)
    requires x in UsablePfns(rs)
    ensures i < |rs| && x in rs[i].Pfns()
  {
    i := |rs| - 1;
    if x !in rs[i].Pfns() {
      i := WhichRegion(rs[..i], x);
    }
  }

  /** A frame is usable exactly when it is one of the whole pages of a usable region. */
  lemma UsableMeaning(rs: seq<Region>, f: nat)
    ensures f in UsablePfns(rs) <==>
              exists i ::
                0 <= i < |rs| && rs[i].usable && rs[i].base / 4096 <= f < rs[i].base / 4096 + rs[i].length / 4096
  {
    hide UsablePfns;
    if f in UsablePfns(rs) {
      var i := WhichRegion(rs, f);
    }
    forall i | 0 <= i < |rs| && rs[i].usable && rs[i].base / 4096 <= f < rs[i].base / 4096 + rs[i].length / 4096
      ensures f in UsablePfns(rs)
    {
      UsableWithin(rs, i);
    }
  }

  lemma FreeMeaning(rs: seq<Region>, bitmapPfn: nat, bitmapPages: nat, free: set<nat>)
    requires free == UsablePfns(rs) - Frames(bitmapPfn, bitmapPages) - {0}
    ensures forall f: nat ::
              f in free <==>
                && f != 0 && !(bitmapPfn <= f < bitmapPfn + bitmapPages)
                && exists i ::
                     0 <= i < |rs| && rs[i].usable && rs[i].base / 4096 <= f < rs[i].base / 4096 + rs[i].length / 4096
  {
    hide UsablePfns;
    forall f: nat
      ensures f in UsablePfns(rs) <==>
                exists i ::
                  0 <= i < |rs| && rs[i].usable && rs[i].base / 4096 <= f < rs[i].base / 4096 + rs[i].length / 4096
    {
      UsableMeaning(rs, f);
    }
  }

  /** The highest address is the end of a region. */
  lemma {:induction false} SomeEnd(rs: seq<Region>) returns (i: nat)
    requires MaxPhys(rs) > 0
    ensures i < |rs| && rs[i].base + rs[i].length == MaxPhys(rs)
  {
    i := |rs| - 1;
    if rs[i].base + rs[i].length < MaxPhys(rs) {
      i := SomeEnd(rs[..i]);
    }
  }

  /** Counting pages region by region overcounts exactly when regions share a page. */
  lemma {:induction false} CountExact(rs: seq<Region>)
    ensures |UsablePfns(rs)| <= SumPages(rs)
    ensures |UsablePfns(rs)| == SumPages(rs) <==> Disjoint(rs)
  {
    if rs != [] {
      var k := |rs| - 1;
      var a, b := UsablePfns(rs[..k]), rs[k].Pfns();
      CountExact(rs[..k]);
      UnionSize(a, b);
      if Disjoint(rs) {
        assert Disjoint(rs[..k]);
        forall x | x in a ensures x !in b {
          var i := WhichRegion(rs[..k], x);
        }
      } else if |UsablePfns(rs)| == SumPages(rs) {
        forall i, j | 0 <= i < j < |rs| ensures rs[i].Pfns() !! rs[j].Pfns() {
          if j == k {
            UsableWithin(rs[..k], i);
          } else {
            assert rs[..k][i] == rs[i] && rs[..k][j] == rs[j];
          }
        }
      }
    }
  }

  method TakeOver(p: FrameAllocator, rs: seq<Region>, bitmapPfn: nat, bitmapPages: nat)
    requires p.Valid() && p.Free() == {} && p.freeFrames == 0 && p.totalPfns == DivCeil(MaxPhys(rs), PAGE_SIZE)
    requires bitmapPfn + bitmapPages <= p.totalPfns
    modifies p`freeFrames, p.bitmap
    ensures p.Valid() && p.Free() == UsablePfns(rs) - Frames(bitmapPfn, bitmapPages) - {0}
    ensures p.freeFrames == |p.Free()| + (SumPages(rs) - |UsablePfns(rs)|)
  {
    hide ClearSet, UsablePfns, SumPages;
    p.FreeRegions(rs);
    p.ReserveRange(bitmapPfn, bitmapPages);
    p.ReserveRange(0, 1);
    assert Frames(0, 1) == {0};
  }

  function BitmapPages(rs: seq<Region>): (n: nat) {
    DivCeil(DivCeil(DivCeil(MaxPhys(rs), PAGE_SIZE), 8), PAGE_SIZE)
  }

  lemma MapExtent(rs: seq<Region>)
    requires MaxPhys(rs) > 0
    ensures var total, pages := DivCeil(MaxPhys(rs), 4096), BitmapPages(rs);
            && (forall i :: 0 <= i < |rs| ==> rs[i].base + rs[i].length <= total * 4096)
            && (exists i :: 0 <= i < |rs| && rs[i].base + rs[i].length > (total - 1) * 4096)
            && 0 < pages && (pages - 1) * 4096 * 8 < total <= pages * 4096 * 8
  {
    forall i | 0 <= i < |rs| ensures rs[i].base + rs[i].length <= MaxPhys(rs) {
      UsableWithin(rs, i);
    }
    var i := SomeEnd(rs);
    hide MaxPhys;
    assert rs[i].base + rs[i].length > (DivCeil(MaxPhys(rs), 4096) - 1) * 4096;
  }

  predicate HoldsBitmap(rs: seq<Region>, i: nat)
    requires i < |rs|
  {
    rs[i].usable && rs[i].Pages() >= BitmapPages(rs)
  }

  method FindMaxPhys(rs: seq<Region>) returns (m: nat)
    ensures m == MaxPhys(rs)
  {
    m := 0;
    for i := 0 to |rs|
      invariant m == MaxPhys(rs[..i])
    {
      var end: nat := rs[i].base as int + rs[i].length;
      assert rs[..i + 1][..i] == rs[..i];
      if end > m {
        m := end;
      }
    }
    assert rs[..|rs|] == rs;
  }

  method FindBitmapRegion(rs: seq<Region>) returns (k: Option<nat>)
    ensures k.None? ==> forall i :: 0 <= i < |rs| ==> !HoldsBitmap(rs, i)
    ensures k.Some? ==>
              k.value < |rs| && HoldsBitmap(rs, k.value) && forall j :: 0 <= j < k.value ==> !HoldsBitmap(rs, j)
  {
    for i := 0 to |rs|
      invariant forall j :: 0 <= j < i ==> !HoldsBitmap(rs, j)
    {
      if HoldsBitmap(rs, i) {
        return Some(i);
      }
    }
    return None;
  }

  lemma NothingFree(bm: seq<byte>, total: nat)
    requires total <= 8 * |bm| && forall i :: 0 <= i < |bm| ==> bm[i] == 255
    ensures ClearSet(bm, total) == {}
  {
    forall i: nat | i < total ensures BitAt(bm, i) {
      ConstantBytes(i % 8);
    }
  }

  /** `init`: build the bitmap, free the usable regions, keep the bitmap's own pages and frame 0.
      None stands for a boot panic: no region for the bitmap, or no memory at all. */
  method Init(rs: seq<Region>) returns (r: Option<FrameAllocator>, ghost bitmapPfn: nat, ghost bitmapPages: nat)
    ensures r.None? <==> MaxPhys(rs) == 0 || forall i :: 0 <= i < |rs| ==> !HoldsBitmap(rs, i)
    ensures r.Some? ==>
              && fresh(r.value) && fresh(r.value.bitmap) && r.value.Valid()
              && r.value.totalPfns == DivCeil(MaxPhys(rs), PAGE_SIZE)
              && (exists i ::
                     && 0 <= i < |rs| && HoldsBitmap(rs, i) && (forall j :: 0 <= j < i ==> !HoldsBitmap(rs, j))
                     && bitmapPfn == rs[i].FirstPfn())
              && bitmapPages == BitmapPages(rs)
              && r.value.Free() == UsablePfns(rs) - Frames(bitmapPfn, bitmapPages) - {0}
              && r.value.freeFrames == |r.value.Free()| + (SumPages(rs) - |UsablePfns(rs)|)
    // The same in terms of the memory map: which frames are free, how many frames there are, and
    // where the bitmap is.
    ensures r.Some? ==> forall f: nat ::
              f in r.value.Free() <==>
                && f != 0 && !(bitmapPfn <= f < bitmapPfn + bitmapPages)
                && exists i ::
                     0 <= i < |rs| && rs[i].usable && rs[i].base / 4096 <= f < rs[i].base / 4096 + rs[i].length / 4096
    ensures r.Some? ==>
              && (forall i :: 0 <= i < |rs| ==> rs[i].base + rs[i].length <= r.value.totalPfns * 4096)
              && exists i :: 0 <= i < |rs| && rs[i].base + rs[i].length > (r.value.totalPfns - 1) * 4096
    ensures r.Some? ==>
              && 0 < bitmapPages && (bitmapPages - 1) * 4096 * 8 < r.value.totalPfns <= bitmapPages * 4096 * 8
              && exists i ::
                   && 0 <= i < |rs| && rs[i].usable && rs[i].length / 4096 >= bitmapPages
                   && bitmapPfn == rs[i].base / 4096
                   && forall j :: 0 <= j < i ==> !(rs[j].usable && rs[j].length / 4096 >= bitmapPages)
  {
    hide ClearSet, UsablePfns, SumPages, MaxPhys, BitmapPages, Bit;
    bitmapPfn, bitmapPages := 0, BitmapPages(rs);
    var maxPhys := FindMaxPhys(rs);
    var k := FindBitmapRegion(rs);
    if k.None? || maxPhys == 0 {
      return None, bitmapPfn, bitmapPages;
    }
    bitmapPfn := rs[k.value].FirstPfn();
    var p := new FrameAllocator(DivCeil(maxPhys, PAGE_SIZE));
    NothingFree(p.bitmap[..], p.totalPfns);
    RegionInRange(rs, k.value);
    TakeOver(p, rs, rs[k.value].FirstPfn(), BitmapPages(rs));
    FreeMeaning(rs, bitmapPfn, bitmapPages, p.Free());
    MapExtent(rs);
    forall j | 0 <= j < k.value ensures !(rs[j].usable && rs[j].length / 4096 >= bitmapPages) {
      assert !HoldsBitmap(rs, j);
    }
    return Some(p), bitmapPfn, bitmapPages;
  }
}
