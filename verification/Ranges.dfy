/** Several ranges of fresh pages one after the other: how far they get, seen from the state before
    the first (kernel/src/fs/elf.rs, kernel/src/user/mod.rs). */
module Ranges {
  import opened PageTables
  import opened TableGrowth
  import opened Vmm

  /** A range of fresh pages: a program segment or a stack. */
  datatype Range = Range(virt: nat, count: nat, flags: Flags)

  /** The addresses of all pages, in the order they are mapped. */
  ghost function AllVas(rs: seq<Range>): (vas: seq<nat>) {
    if rs == [] then [] else AllVas(rs[..|rs| - 1]) + Vas(rs[|rs| - 1].virt, rs[|rs| - 1].count)
  }

  predicate UserRange(r: Range) {
    r.virt + r.count * PageTables.PAGE_SIZE <= USER_TOP
  }

  lemma {:induction false} AllInUser(rs: seq<Range>)
    requires forall i :: 0 <= i < |rs| ==> UserRange(rs[i])
    ensures InUser(AllVas(rs))
    decreases |rs|
  {
    if rs != [] {
      var n := |rs| - 1;
      AllInUser(rs[..n]);
      InUserPages(rs[n].virt, rs[n].count);
      var a, b := AllVas(rs[..n]), Vas(rs[n].virt, rs[n].count);
      forall i | 0 <= i < |a + b| ensures (a + b)[i] < USER_TOP {
        if i >= |a| {
          assert (a + b)[i] == b[i - |a|];
        }
      }
    }
  }

  /** The pages of the first i ranges come first. */
  lemma {:induction false} AllVasSplit(rs: seq<Range>, i: nat) returns (rest: seq<nat>)
    requires i <= |rs|
    ensures AllVas(rs) == AllVas(rs[..i]) + rest
    decreases |rs|
  {
    if i == |rs| {
      assert rs[..i] == rs;
      rest := [];
    } else {
      var n := |rs| - 1;
      rest := AllVasSplit(rs[..n], i);
      assert rs[..n][..i] == rs[..i];
      rest := rest + Vas(rs[n].virt, rs[n].count);
    }
  }

  /** The first i ranges are mapped. */
  ghost predicate Sofar(s0: State, s: State, root: nat, rs: seq<Range>, i: nat) {
    && i <= |rs| && InUser(AllVas(rs)) && |AllVas(rs[..i])| <= |AllVas(rs)|
    && AnonDone(s0, s, root, AllVas(rs[..i])) && Reach(s0, root, AllVas(rs), |AllVas(rs[..i])|)
  }

  lemma SofarNone(s: State, root: nat, rs: seq<Range>)
    requires InUser(AllVas(rs))
    ensures Sofar(s, s, root, rs, 0)
  {
    hide Flat, Built;
    assert rs[..0] == [];
    DoneNone(s, root);
    assert AllVas(rs)[..0] == [];
    assert LackOf(s.tables, root, {}) == {};
  }

  lemma UserPart(a: seq<nat>, b: seq<nat>)
    requires InUser(a + b)
    ensures InUser(a)
  {
    assert forall i :: 0 <= i < |a| ==> (a + b)[i] == a[i];
  }

  lemma ReachIn(s: State, root: nat, a: seq<nat>, b: seq<nat>, j: nat)
    requires j <= |a|
    ensures Reach(s, root, a, j) <==> Reach(s, root, a + b, j)
    ensures Spare(s, root, a, j) == Spare(s, root, a + b, j)
  {
    hide Reach;
    assert (a + b)[..|a|] == a && (a + b)[..j] == a[..j];
    ReachPrefix(s, root, a + b, |a|, j);
  }

  /** Range i after the ranges before it: how far it gets is how far all of them get. */
  lemma SofarStop(s0: State, s: State, root: nat, rs: seq<Range>, i: nat, j: nat)
    requires Sofar(s0, s, root, rs, i) && i < |rs| && j < rs[i].count
    requires MostReached(s, root, Vas(rs[i].virt, rs[i].count), j)
    ensures var n := |AllVas(rs[..i])| + j;
            n < |AllVas(rs)| && MostReached(s0, root, AllVas(rs), n) && Spare(s0, root, AllVas(rs), n) ==
                Spare(s, root, Vas(rs[i].virt, rs[i].count), j)
  {
    hide Reach, AnonDone, Spare, Vas;
    var rest := AllVasSplit(rs, i + 1);
    assert rs[..i + 1][..i] == rs[..i];
    var a, b, all := AllVas(rs[..i]), Vas(rs[i].virt, rs[i].count), AllVas(rs);
    assert all == a + b + rest;
    UserPart(a + b, rest);
    ReachIn(s0, root, a, b + rest, |a|);
    assert a + (b + rest) == all;
    ReachOn(s0, s, root, a, b, j);
    ReachOn(s0, s, root, a, b, j + 1);
    ReachIn(s0, root, a + b, rest, |a| + j);
    ReachIn(s0, root, a + b, rest, |a| + j + 1);
    forall k | |a| + j < k <= |all| ensures !Reach(s0, root, all, k) {
      ReachLess(s0, root, all, |a| + j + 1, k);
    }
  }

  lemma SofarStep(s0: State, s1: State, s2: State, root: nat, rs: seq<Range>, i: nat)
    requires Sofar(s0, s1, root, rs, i) && i < |rs| && AnonDone(s1, s2, root, Vas(rs[i].virt, rs[i].count))
    requires Reach(s1, root, Vas(rs[i].virt, rs[i].count), rs[i].count)
    ensures Sofar(s0, s2, root, rs, i + 1)
  {
    hide Reach, AnonDone, Spare, Vas;
    var rest := AllVasSplit(rs, i + 1);
    assert rs[..i + 1][..i] == rs[..i];
    var a, b, all := AllVas(rs[..i]), Vas(rs[i].virt, rs[i].count), AllVas(rs);
    assert all == a + b + rest;
    UserPart(a + b, rest);
    ReachIn(s0, root, a, b + rest, |a|);
    assert a + (b + rest) == all;
    ReachOn(s0, s1, root, a, b, |b|);
    ReachIn(s0, root, a + b, rest, |a| + |b|);
    DoneOn(s0, s1, s2, root, a, b);
  }

  lemma SofarAll(s0: State, s: State, root: nat, rs: seq<Range>)
    requires Sofar(s0, s, root, rs, |rs|)
    ensures Reach(s0, root, AllVas(rs), |AllVas(rs)|)
  {
    assert rs[..|rs|] == rs;
  }

  // ---------------------------------------------------------------------
  // A new address space

  /** Free frames left when the first j pages are mapped in an empty address space. */
  ghost function FreshSpare(free: nat, vas: seq<nat>, j: nat): (n: int)
    requires j <= |vas|
  {
    free - |Prefixes(PageSet(vas[..j]))| - j
  }

  /** The first j pages fit into an empty address space, with `free` frames. */
  ghost predicate FreshReach(free: nat, vas: seq<nat>, j: nat) {
    && j <= |vas| && Distinct(vas[..j]) && (forall i :: 0 <= i < j ==> Aligned(vas[i]))
    && FreshSpare(free, vas, j) >= 0
  }

  ghost predicate MostFresh(free: nat, vas: seq<nat>, j: nat) {
    FreshReach(free, vas, j) && forall i :: j < i <= |vas| ==> !FreshReach(free, vas, i)
  }

  /** The mapping stops at page j for want of any free frame. */
  ghost predicate DryAt(free: nat, vas: seq<nat>, j: nat) {
    j < |vas| && MostFresh(free, vas, j) && FreshSpare(free, vas, j) == 0
  }

  ghost predicate RunsDry(free: nat, vas: seq<nat>) {
    exists j: nat :: DryAt(free, vas, j)
  }

  lemma MostOnly(free: nat, vas: seq<nat>, i: nat, j: nat)
    requires MostFresh(free, vas, i) && MostFresh(free, vas, j)
    ensures i == j
  {
    hide FreshSpare, Distinct, Aligned;
  }

  /** No user table hangs below the root yet. */
  ghost predicate FreshRoot(s: State, root: nat) {
    root in s.tables && Flat(s.tables, root) == map[] && forall i :: 0 <= i < 256 ==> s.tables[root][i].Absent?
  }

  lemma FreshAgrees(s: State, root: nat, vas: seq<nat>, j: nat)
    requires FreshRoot(s, root) && InUser(vas) && j <= |vas|
    ensures Spare(s, root, vas, j) == FreshSpare(|s.free|, vas, j)
    ensures Reach(s, root, vas, j) <==> FreshReach(|s.free|, vas, j)
  {
    var ps := PageSet(vas[..j]);
    forall v | v in ps ensures s.tables[root][Idx(v, 4)].Absent? {
      UserPart(vas[..j], vas[j..]);
      assert vas[..j] + vas[j..] == vas;
      PageSetIn(vas[..j], v);
      UpBound(v);
    }
    LackFresh(s.tables, root, ps);
  }

  lemma MostAgrees(s: State, root: nat, vas: seq<nat>, j: nat)
    requires FreshRoot(s, root) && InUser(vas) && j <= |vas|
    ensures MostReached(s, root, vas, j) <==> MostFresh(|s.free|, vas, j)
  {
    hide Reach, FreshReach, FreshRoot;
    forall i | 0 <= i <= |vas| ensures Reach(s, root, vas, i) <==> FreshReach(|s.free|, vas, i) {
      FreshAgrees(s, root, vas, i);
    }
  }
}
