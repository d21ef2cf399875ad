/** Whole runs of the IPC system calls: who owns what after any sequence of them. */
module IpcRun {
  import opened Prelude
  import opened Caps
  import opened Frames
  import opened Ipc
  import opened CapsRun
  import V = Vmm
  import R = Ranges
  import PageTables
  import G = TableGrowth
  import Bits
  import Utf8

  /** What a run can be asked about: the capability state, the page tables with the free frames,
      which address space is whose, and the bytes in memory. */
  datatype Snapshot = Snapshot(sys: Sys, vm: V.State, spaces: map<nat, nat>, pages: map<nat, V.Page>)

  /** What a call returns: a code, the result of a receive, or whether a task was started. */
  datatype Outcome = Code(code: int) | Got(got: Received) | Started(ok: bool)

  ghost function Snap(k: Kernel): (s: Snapshot)
    requires k.vmm.pmm.Valid()
    reads k, k.vmm, k.vmm.pmm, k.vmm.pmm.bitmap
  {
    Snapshot(k.sys, k.vmm.State(), k.spaces, k.vmm.pages)
  }

  ghost function RootIn(s: Snapshot, pid: nat): (r: Option<nat>) {
    if pid in s.spaces then Some(s.spaces[pid]) else None
  }

  ghost function FlatIn(s: Snapshot, pid: nat): (m: Option<map<nat, PageTables.Pte>>) {
    if pid in s.spaces then Some(PageTables.Flat(s.vm.tables, s.spaces[pid])) else None
  }

  ghost function MemoryIn(s: Snapshot): (m: Mem) {
    Mem(s.vm, s.sys.queues, [])
  }

  predicate InUser(ranges: seq<R.Range>) {
    forall i :: 0 <= i < |ranges| ==> R.UserRange(ranges[i])
  }

  /** The caller runs, and passes addresses of the user half. */
  predicate Possible(s: Sys, spaces: map<nat, nat>, c: Call) {
    && Able(s, c)
    && match c
       case Start(pid, ranges, _) => pid !in spaces && InUser(ranges)
       case Send(_, _, msg) => msg.Some? ==> msg.value.va + msg.value.len <= V.USER_TOP
       case Publish(pid, _, _) => s.tables[pid].next <= 0x7fff_ffff
       case Store(_, va, bytes) => va + |bytes| <= V.USER_TOP
       case _ => true
  }

  /** The one way a call can give a frame a second owner: a receive whose payload runs out of
      page-table frames after its first page. */
  ghost predicate CallBreaks(s: Snapshot, c: Call)
    requires Able(s.sys, c)
  {
    match c
    case Recv(pid, id, out) => RecvBreaks(RecvPort(s.sys, pid, id, out), out, s.sys, s.vm, RootIn(s, pid))
    case Wake(pid, out) => RecvBreaks(Ok(s.sys.parked[pid]), Some(out), s.sys, s.vm, RootIn(s, pid))
    case _ => false
  }

  /** A call changes nothing of any other task: not its address space, not a mapping in it. */
  ghost predicate Elsewhere(s: Snapshot, c: Call, s': Snapshot) {
    && (forall t :: t in s.spaces && t != c.pid ==>
           t in s'.spaces && s'.spaces[t] == s.spaces[t] && FlatIn(s', t) == FlatIn(s, t))
    && (forall t :: t in s'.spaces && t != c.pid ==> t in s.spaces) && (!c.Start? ==> s'.spaces == s.spaces)
  }

  /** Nor a byte of its memory; and bytes in a queued message stay what they were. */
  ghost predicate BytesKept(s: Snapshot, pid: nat, s': Snapshot) {
    forall h :: FrameAt(MemoryIn(s), h).Some? && (h.Leaf? ==> RootIn(s, pid) != Some(h.root)) ==>
      V.Content(s'.pages, FrameAt(MemoryIn(s), h).value) == V.Content(s.pages, FrameAt(MemoryIn(s), h).value)
  }

  ghost predicate StoredUpTo(flat: map<nat, PageTables.Pte>, pages: map<nat, V.Page>, pages': map<nat, V.Page>, va: nat,
                             bytes: seq<byte>, n: nat) {
    n <= |bytes| && V.Written(flat, pages, pages', va, bytes[..n]) && (n < |bytes| ==> V.PageNo(va + n) !in flat)
  }

  /** The task's own bytes, up to the first page it does not have. */
  ghost predicate Stored(s: Snapshot, pid: nat, va: nat, bytes: seq<byte>, s': Snapshot) {
    if pid !in s.spaces then s'.pages == s.pages
    else exists n :: StoredUpTo(FlatIn(s, pid).value, s.pages, s'.pages, va, bytes, n)
  }

  /** The code of a call that only touches capabilities and names. */
  ghost function Returns(s: Sys, c: Call): (r: int)
    requires Able(s, c) && !c.Send? && !c.Recv? && !c.Wake? && !c.Start? && !c.Store?
  {
    var t := s.tables[c.pid];
    match c
    case Create(_) => t.next
    case Drop(_, id) => if id in t.slots then 0 else EBADF
    case Dup(_, id, _) =>
      if id !in t.slots then EBADF else if !t.slots[id].rights.dup then EPERM
          else if !t.slots[id].target.Port? then EINVAL else t.next
    case Publish(pid, name, id) => PublishResult(s, pid, name, id)
    case Lookup(_, name) =>
      if |name| == 0 || |name| > NAME_MAX || !Utf8.Valid(name) then EINVAL else if name !in s.names then ENOENT
          else t.next
  }

  ghost predicate SendReturns(s: Snapshot, pid: nat, id: int, msg: Option<SendMsg>, r: int, s': Snapshot)
    requires pid in s.sys.tables
  {
    var refusal := Refusal(s.sys, pid, id, msg);
    if refusal != 0 then r == refusal && FlatIn(s', pid) == FlatIn(s, pid)
    else
      && r == PayloadResult(s.sys, s.sys.tables[pid].slots[id].target.port, msg.value, FlatIn(s, pid))
      && SendEffect(r, s.sys, s'.sys, pid, id, msg.value, FlatIn(s, pid), FlatIn(s', pid))
  }

  /** What a call returns and does to the caller's mappings. */
  ghost predicate Does(s: Snapshot, c: Call, o: Outcome, s': Snapshot)
    requires Able(s.sys, c)
  {
    match c
    case Send(pid, id, msg) => o.Code? && SendReturns(s, pid, id, msg, o.code, s')
    case Recv(pid, id, out) =>
      o.Got? && RecvEffect(RecvPort(s.sys, pid, id, out), pid, out, s.sys, s.vm, FlatIn(s, pid), o.got, s'.sys,
          FlatIn(s', pid), RootIn(s, pid))
    case Wake(pid, out) =>
      && o.Got? && pid in s.sys.tables
      && RecvEffect(Ok(s.sys.parked[pid]), pid, Some(out), s.sys, s.vm, FlatIn(s, pid), o.got, s'.sys, FlatIn(s', pid),
           RootIn(s, pid))
    case Start(pid, ranges, _) =>
      o == Started(Startable(|s.vm.free|, ranges)) && (o.ok <==> pid in s'.sys.tables) && (o.ok ==> pid in s'.spaces)
    case Store(pid, va, bytes) => o == Code(0) && s'.vm == s.vm && Stored(s, pid, va, bytes, s')
    case _ => o == Code(Returns(s.sys, c)) && FlatIn(s', c.pid) == FlatIn(s, c.pid)
  }

  /** What a call returns, and what it does to mappings and memory. */
  ghost predicate Effect(s: Snapshot, c: Call, o: Outcome, s': Snapshot)
    requires Able(s.sys, c)
  {
    && Does(s, c, o, s') && Elsewhere(s, c, s') && BytesKept(s, c.pid, s')
    && (!c.Start? && !c.Store? ==> s'.pages == s.pages)
  }

  lemma ElsewhereUntouched(s: Snapshot, c: Call, s': Snapshot, root: Option<nat>)
    requires Rooted(s.spaces, s.vm.places) && Untouched(s.vm.tables, s.vm.places, s'.vm.tables, root)
    requires root.Some? ==> c.pid in s.spaces && root == Some(s.spaces[c.pid])
    requires s'.spaces == s.spaces
             || (c.Start? && c.pid in s'.spaces && s'.spaces == s.spaces[c.pid := s'.spaces[c.pid]])
    requires c.Start? ==> c.pid !in s.spaces
    ensures Elsewhere(s, c, s')
  {
    hide PageTables.Flat;
  }

  lemma SameBytes(s: Snapshot, pid: nat, s': Snapshot)
    requires s'.pages == s.pages
    ensures BytesKept(s, pid, s')
  {
  }

  lemma SpawnBytes(s: Snapshot, pid: nat, s': Snapshot)
    requires Exclusive(MemoryIn(s)) && Unwritten(s.pages, s'.pages, s.vm.free)
    ensures BytesKept(s, pid, s')
  {
    hide FrameAt, V.Content;
  }

  /** A store reaches only frames mapped in the task's own address space. */
  lemma StoreBytes(s: Snapshot, pid: nat, va: nat, bytes: seq<byte>, n: nat, s': Snapshot)
    requires Exclusive(MemoryIn(s)) && Rooted(s.spaces, s.vm.places) && n <= |bytes|
    requires if pid !in s.spaces then s'.pages == s.pages
             else StoredUpTo(FlatIn(s, pid).value, s.pages, s'.pages, va, bytes, n)
    ensures BytesKept(s, pid, s') && Stored(s, pid, va, bytes, s')
  {
    if pid in s.spaces {
      var flat, m := FlatIn(s, pid).value, MemoryIn(s);
      hide PageTables.Flat, V.Content, V.UserByte;
      forall h | FrameAt(m, h).Some? && (h.Leaf? ==> h.root != s.spaces[pid])
        ensures V.Content(s'.pages, FrameAt(m, h).value) == V.Content(s.pages, FrameAt(m, h).value)
      {
        forall v | v in flat && flat[v].Present? ensures flat[v].frame != FrameAt(m, h).value {
          assert FrameAt(m, Leaf(s.spaces[pid], v)) == Some(flat[v].frame);
        }
      }
    }
  }

  lemma SendEffectStep(r: int, s: Sys, s': Sys, pid: nat, id: int, msg: SendMsg, flat: Option<map<nat, PageTables.Pte>>,
                       flat': Option<map<nat, PageTables.Pte>>)
    requires pid in s.tables && id in s.tables[pid].slots && s.tables[pid].slots[id].target.Port?
    requires s.tables[pid].slots[id].target.port in s.queues
    requires r == PayloadResult(s, s.tables[pid].slots[id].target.port, msg, flat)
    requires SendEffect(r, s, s', pid, id, msg, flat, flat')
    ensures SendStep(s, pid, id, msg, s')
  {
    hide Collect, InstallAll, Reaped, V.Stolen, V.Partly, V.PageNo, Backed, SameTranslation;
    if r == 0 {
      if msg.len != 0 {
        var s1 := Without(s, pid, msg.ids);
        var pages :| s' == Push(s1, s.tables[pid].slots[id].target.port,
            Message(msg.regs, Collect(s.tables[pid].slots, msg.ids), pages, msg.len));
      }
    }
  }

  lemma RecvEffectStep(port: Result<nat, int>, pid: nat, out: Option<RecvOut>, s: Snapshot, r: Received, s': Sys,
                       flat': Option<map<nat, PageTables.Pte>>)
    requires pid in s.sys.tables
    requires RecvEffect(port, pid, out, s.sys, s.vm, FlatIn(s, pid), r, s', flat', RootIn(s, pid))
    ensures RecvStep(s.sys, pid, port, s')
  {
    hide InstallAll, Reaped, Payload, DeliverResult;
  }

  /** One call by one task. `broken` is the receive that ran out of page-table frames halfway. */
  method Do(k: Kernel, c: Call) returns (o: Outcome, broken: bool, ghost lost: set<nat>)
    requires k.Valid() && Possible(k.sys, k.spaces, c)
    modifies k, k.vmm`tables, k.vmm`places, k.vmm`pages, k.vmm.pmm`nextHint, k.vmm.pmm`freeFrames, k.vmm.pmm.bitmap
    ensures k.vmm.Valid() && Step(old(k.sys), c, k.sys) && Effect(old(Snap(k)), c, o, Snap(k)) && Good(k.sys)
    ensures broken <==> CallBreaks(old(Snap(k)), c)
    ensures if broken then !Exclusive(k.Memory([])) else k.Valid() && LostOnly(old(k.Memory([])), k.Memory([]), lost)
    ensures lost == {} <==>
              (c.Start? ==> Startable(|old(k.vmm.pmm.Free())|, c.ranges) || StopsDry(|old(k.vmm.pmm.Free())|, c.ranges))
  {
    hide Sound, Exclusive, Whole, Rooted, Real, PageTables.Shape, Bits.ClearSet, PageTables.Flat, NoGarbage, LostOnly;
    hide SameFrames;
    hide RecvEffect, RecvBreaks, SendEffect, PayloadResult, Reaped, Refusal, PublishResult, SendStep, TakeStep;
    hide Startable, StopsDry, Untouched, Unwritten, BytesKept, Elsewhere, V.Written, FrameAt;
    ghost var m, s := k.Memory([]), Snap(k);
    broken, lost := false, {};
    ghost var root := if c.Start? then None else RootIn(s, c.pid);
    UntouchedSelf(s.vm.tables, s.vm.places, root);
    match c {
      case Create(pid) =>
        var r := k.SysPortCreate(pid);
        o := Code(r);
      case Drop(pid, id) =>
        var r := k.SysCapDrop(pid, id);
        o := Code(r);
      case Dup(pid, id, mask) =>
        var r := k.SysCapDup(pid, id, mask);
        o := Code(r);
      case Send(pid, id, msg) =>
        var r := k.SysSend(pid, id, msg);
        o := Code(r);
        if Refusal(s.sys, pid, id, msg) == 0 {
          SlotLive(s.sys, pid, id);
          SendEffectStep(r, s.sys, k.sys, pid, id, msg.value, FlatIn(s, pid), k.FlatOf(pid));
        }
      case Recv(pid, id, out) =>
        var r;
        r, broken := k.SysRecv(pid, id, out);
        o := Got(r);
        RecvEffectStep(RecvPort(s.sys, pid, id, out), pid, out, s, r, k.sys, k.FlatOf(pid));
      case Wake(pid, out) =>
        var r;
        r, broken := k.ResumeRecv(pid, out);
        o := Got(r);
        RecvEffectStep(Ok(s.sys.parked[pid]), pid, Some(out), s, r, k.sys, k.FlatOf(pid));
      case Publish(pid, name, id) =>
        var r := k.SysPublish(pid, name, id);
        o := Code(r);
      case Lookup(pid, name) =>
        FreshId(s.sys, pid);
        var r := k.SysLookup(pid, name);
        o := Code(r);
      case Start(pid, ranges, init) =>
        var ok;
        ok, lost := k.Spawn(pid, ranges, init);
        o := Started(ok);
        SpawnBytes(s, pid, Snap(k));
      case Store(pid, va, bytes) =>
        ghost var n := k.UserStore(pid, va, bytes);
        o := Code(0);
        SameFramesSelf(m);
        StoreBytes(s, pid, va, bytes, n, Snap(k));
    }
    ElsewhereUntouched(s, c, Snap(k), root);
    if !c.Start? && !c.Store? {
      SameBytes(s, c.pid, Snap(k));
    }
    if !broken && !c.Start? {
      LostSame(m, k.Memory([]));
    }
  }

  /** A call that is possible is made; one that is not is passed over. */
  ghost predicate Made(s: Snapshot, c: Call, o: Option<Outcome>, s': Snapshot) {
    if Possible(s.sys, s.spaces, c) then o.Some? && Step(s.sys, c, s'.sys) && Effect(s, c, o.value, s')
    else o.None? && s' == s
  }

  /** The call is made and breaks ownership. */
  ghost predicate Breaking(s: Snapshot, c: Call) {
    Possible(s.sys, s.spaces, c) && CallBreaks(s, c)
  }

  /** A run as far as it got: the states between the calls and what each call returned. */
  ghost predicate Traced(trace: seq<Snapshot>, calls: seq<Call>, outcomes: seq<Option<Outcome>>) {
    && |trace| == |outcomes| + 1 && |outcomes| <= |calls|
    && forall i :: 0 <= i < |outcomes| ==> Made(trace[i], calls[i], outcomes[i], trace[i + 1])
  }

  lemma TracedNone(s: Snapshot, calls: seq<Call>)
    ensures Traced([s], calls, [])
  {
  }

  lemma TracedOn(trace: seq<Snapshot>, calls: seq<Call>, outcomes: seq<Option<Outcome>>, o: Option<Outcome>,
      s: Snapshot)
    requires Traced(trace, calls, outcomes) && |outcomes| < |calls| && Made(trace[|outcomes|], calls[|outcomes|], o, s)
    ensures Traced(trace + [s], calls, outcomes + [o])
  {
    hide Made;
    var trace', outcomes' := trace + [s], outcomes + [o];
    forall i | 0 <= i < |outcomes'| ensures Made(trace'[i], calls[i], outcomes'[i], trace'[i + 1]) {
      if i < |outcomes| {
        assert trace'[i] == trace[i] && trace'[i + 1] == trace[i + 1] && outcomes'[i] == outcomes[i];
      }
    }
  }

  lemma LostBoth(m0: Mem, m1: Mem, m2: Mem, a: set<nat>, b: set<nat>)
    requires LostOnly(m0, m1, a) && LostOnly(m1, m2, b)
    ensures LostOnly(m0, m2, a + b)
  {
    hide Owned;
  }

  /** Any run. It ends early exactly at the first receive that runs out of page-table frames after
      its first page. Up to there, in every state, no frame has two owners, none was lost but by a
      failed start of a task, and the frame counter is exact. Receive rights and the registrar are
      unique in every state, that last one included. */
  method Run(k: Kernel, calls: seq<Call>)
    returns (outcomes: seq<Option<Outcome>>, broken: bool, ghost lost: set<nat>, ghost trace: seq<Snapshot>)
    requires k.Valid()
    modifies k, k.vmm`tables, k.vmm`places, k.vmm`pages, k.vmm.pmm`nextHint, k.vmm.pmm`freeFrames, k.vmm.pmm.bitmap
    ensures k.vmm.Valid() && Traced(trace, calls, outcomes) && trace[0] == old(Snap(k)) && trace[|outcomes|] == Snap(k)
    ensures if broken then |outcomes| > 0 && Breaking(trace[|outcomes| - 1], calls[|outcomes| - 1])
              else |outcomes| == |calls|
    ensures forall i :: 0 <= i < |outcomes| && Breaking(trace[i], calls[i]) ==> broken && i == |outcomes| - 1
    ensures forall i :: 0 <= i <= |outcomes| ==> Good(trace[i].sys) && Unique(trace[i].sys, [])
    ensures forall i :: 0 <= i < |outcomes| ==> Exclusive(MemoryIn(trace[i]))
    ensures if broken then !Exclusive(k.Memory([]))
            else
              && k.Valid() && Exclusive(k.Memory([])) && LostOnly(old(k.Memory([])), k.Memory([]), lost)
              && k.vmm.pmm.freeFrames == |k.vmm.pmm.Free()|
    ensures (forall i :: 0 <= i < |calls| ==> !calls[i].Start?) ==> lost == {}
  {
    hide Exclusive, Whole, Rooted, Real, PageTables.Shape, Bits.ClearSet, NoGarbage, LostOnly, Sound, Unique, Possible;
    hide Step, Effect, CallBreaks, Traced;
    TracedNone(Snap(k), calls);
    ghost var m := k.Memory([]);
    outcomes, broken, lost, trace := [], false, {}, [Snap(k)];
    LostSelf(m);
    SoundUnique(k.sys);
    for i := 0 to |calls|
      invariant !broken && k.Valid() && LostOnly(m, k.Memory([]), lost) && |outcomes| == i
      invariant |trace| == i + 1 && Traced(trace, calls, outcomes) && trace[0] == old(Snap(k)) && trace[i] == Snap(k)
      invariant forall j :: 0 <= j < i ==> !Breaking(trace[j], calls[j])
      invariant forall j :: 0 <= j <= i ==>
                  Good(trace[j].sys) && Unique(trace[j].sys, []) && Exclusive(MemoryIn(trace[j]))
      invariant (forall j :: 0 <= j < i ==> !calls[j].Start?) ==> lost == {}
    {
      ghost var m1 := k.Memory([]);
      if Possible(k.sys, k.spaces, calls[i]) {
        var o;
        ghost var more;
        o, broken, more := Do(k, calls[i]);
        TracedOn(trace, calls, outcomes, Some(o), Snap(k));
        outcomes, trace := outcomes + [Some(o)], trace + [Snap(k)];
        SoundUnique(k.sys);
        if broken {
          return;
        }
        LostBoth(m, m1, k.Memory([]), lost, more);
        lost := lost + more;
      } else {
        TracedOn(trace, calls, outcomes, None, Snap(k));
        outcomes, trace := outcomes + [None], trace + [Snap(k)];
      }
    }
  }

  /** The state before the first task: kernel tables only, no user page mapped. */
  method Boot(vmm: V.Vmm) returns (k: Kernel)
    requires vmm.Valid() && vmm.pmm.freeFrames == |vmm.pmm.Free()|
    requires forall r :: PageTables.IsRoot(vmm.places, r) ==> PageTables.Flat(vmm.tables, r) == map[]
    requires forall f: nat :: f in vmm.pmm.Free() || f in vmm.tables ==> 0 < f < vmm.pmm.totalPfns
    ensures fresh(k) && k.vmm == vmm && k.Valid() && k.sys.tables == map[] && k.sys.queues == map[]
  {
    hide PageTables.Shape, Bits.ClearSet, Sound, NoGarbage, PageTables.Flat;
    EmptySound();
    k := new Kernel(vmm, Sys(map[], map[], map[], 0, map[]), map[]);
    forall h ensures FrameAt(k.Memory([]), h).None? {
    }
  }

  /** The receiver reads at `va` what the sender had at page `lo`: the frames arrive in order. */
  lemma PayloadArrives(sender: map<nat, PageTables.Pte>, lo: nat, out: seq<nat>, flat: map<nat, PageTables.Pte>,
                       va: nat, pages: map<nat, V.Page>, pages': map<nat, V.Page>, k: nat)
    requires V.Stolen(sender, lo, out) && V.Aligned(va) && k < |out| * PageTables.PAGE_SIZE
    requires forall i :: 0 <= i < |out| ==> V.Content(pages', V.PageNo(out[i])) == V.Content(pages, V.PageNo(out[i]))
    ensures V.UserByte(V.Handed(flat, V.PageNo(va), out, V.HANDED_OVER), pages', va + k) ==
              V.UserByte(sender, pages, lo * PageTables.PAGE_SIZE + k)
    ensures V.UserByte(sender, pages, lo * PageTables.PAGE_SIZE + k).Some?
  {
    hide V.Handed, V.Content;
    var i, off := k / PageTables.PAGE_SIZE, k % PageTables.PAGE_SIZE;
    assert V.PageNo(va + k) == V.PageNo(va) + i && (va + k) % PageTables.PAGE_SIZE == off;
    assert V.PageNo(lo * PageTables.PAGE_SIZE + k) == lo + i
        && (lo * PageTables.PAGE_SIZE + k) % PageTables.PAGE_SIZE == off;
    var v := lo + i;
    assert v in sender && out[v - lo] == sender[v].frame * PageTables.PAGE_SIZE;
    V.FrameAddr(sender[v].frame);
    V.HandedAt(flat, V.PageNo(va), out, V.HANDED_OVER, V.PageNo(va) + i);
  }

  /** A message with these pages is queued somewhere. */
  ghost predicate InFlight(s: Sys, out: seq<nat>) {
    exists p: nat, i: nat :: p in s.queues && i < |s.queues[p]| && s.queues[p][i].pages == out
  }

  lemma TracedMade(trace: seq<Snapshot>, calls: seq<Call>, outcomes: seq<Option<Outcome>>, i: nat)
    requires Traced(trace, calls, outcomes) && i < |outcomes|
    ensures |trace| == |outcomes| + 1 && |outcomes| <= |calls|
    ensures Made(trace[i], calls[i], outcomes[i], trace[i + 1])
  {
  }

  /** As long as a message is queued nobody can change its bytes, whatever is called and stored. */
  lemma {:induction false} BytesInFlight(trace: seq<Snapshot>, calls: seq<Call>, outcomes: seq<Option<Outcome>>, a: nat,
                                         b: nat, out: seq<nat>, i: nat)
    requires Traced(trace, calls, outcomes) && a <= b < |trace| && i < |out|
    requires forall t :: a <= t < b ==> InFlight(trace[t].sys, out)
    ensures V.Content(trace[b].pages, V.PageNo(out[i])) == V.Content(trace[a].pages, V.PageNo(out[i]))
    decreases b - a
  {
    hide V.Content, V.PageNo, Does, Elsewhere, Step, Possible;
    if a < b {
      BytesInFlight(trace, calls, outcomes, a, b - 1, out, i);
      var s := trace[b - 1];
      assert InFlight(s.sys, out);
      var p: nat, j: nat :| p in s.sys.queues && j < |s.sys.queues[p]| && s.sys.queues[p][j].pages == out;
      assert FrameAt(MemoryIn(s), Queued(p, j, i)) == Some(V.PageNo(out[i]));
      assert Made(s, calls[b - 1], outcomes[b - 1], trace[b - 1 + 1]);
    }
  }

  /** The port a send that was not refused goes to. */
  ghost function SendTo(s: Sys, c: Call): (p: Option<nat>) {
    if c.Send? && Able(s, c) && Refusal(s, c.pid, c.id, c.msg) == 0
        then Some(s.tables[c.pid].slots[c.id].target.port) else None
  }

  /** The port a receive, or a woken receiver, looks at. */
  ghost function RecvFrom(s: Sys, c: Call): (p: Result<nat, int>) {
    if c.Recv? && Able(s, c) then RecvPort(s, c.pid, c.id, c.out)
    else if c.Wake? && Able(s, c) then Ok(s.parked[c.pid]) else Err(0)
  }

  /** The call queued a message with these pages. */
  ghost predicate Sends(s: Snapshot, c: Call, o: Option<Outcome>, s': Snapshot, out: seq<nat>) {
    && c.Send? && c.msg.Some? && SendTo(s.sys, c).Some? && o == Some(Code(0)) && c.msg.value.len > 0
    && var p := SendTo(s.sys, c).value;
    && p in s'.sys.queues && s'.sys.queues[p] != [] && s'.sys.queues[p][|s'.sys.queues[p]| - 1].pages == out
  }

  /** The call took a message with these pages. */
  ghost predicate Receives(s: Snapshot, c: Call, o: Option<Outcome>, out: seq<nat>) {
    && Arrived(s.sys, RecvFrom(s.sys, c)) && s.sys.queues[RecvFrom(s.sys, c).value][0].pages == out
    && o.Some? && o.value.Got? && o.value.got.Done? && o.value.got.code == 0 && c.pid in s.spaces
  }

  lemma SendsStolen(s: Snapshot, c: Call, o: Option<Outcome>, s': Snapshot, out: seq<nat>)
    requires Made(s, c, o, s') && Sends(s, c, o, s', out)
    ensures var msg := c.msg.value;
            && c.pid in s.spaces && FlatIn(s, c.pid).Some? && V.Stolen(FlatIn(s, c.pid).value, V.PageNo(msg.va), out)
            && msg.va == V.PageNo(msg.va) * PageTables.PAGE_SIZE && msg.len == |out| * PageTables.PAGE_SIZE
            && s'.pages == s.pages
  {
    hide V.Stolen, V.Partly, Refusal, Without, Collect, PageTables.Flat, Backed, Step, Elsewhere, BytesKept;
    var msg, p := c.msg.value, SendTo(s.sys, c).value;
    var pages :| s'.sys == Push(Without(s.sys, c.pid, msg.ids), p,
                     Message(msg.regs, Collect(s.sys.tables[c.pid].slots, msg.ids), pages, msg.len))
                 && V.Stolen(FlatIn(s, c.pid).value, V.PageNo(msg.va), pages) && |pages| == V.PageNo(msg.len);
    WholeLen(msg);
  }

  lemma ReceivesHanded(s: Snapshot, c: Call, o: Option<Outcome>, s': Snapshot, out: seq<nat>)
    requires Made(s, c, o, s') && Receives(s, c, o, out) && out != []
    ensures var va := o.value.got.va;
            && c.pid in s'.spaces && FlatIn(s, c.pid).Some? && FlatIn(s', c.pid).Some? && V.Aligned(va)
            && s'.pages == s.pages
            && FlatIn(s', c.pid).value == V.Handed(FlatIn(s, c.pid).value, V.PageNo(va), out, V.HANDED_OVER)
  {
    hide V.Handed, PageTables.Flat, Step, BytesKept, InstallAll, Reaped, V.Accepts, Installable;
    AcceptedRange(FlatIn(s, c.pid).value, |out|, o.value.got.va);
  }

  /** A payload sent by call a and received by call b of a run: the receiver reads, at the address
      it is given, the bytes the sender had when it sent them, whatever happened in between. */
  lemma Delivered(trace: seq<Snapshot>, calls: seq<Call>, outcomes: seq<Option<Outcome>>, a: nat, b: nat,
                  out: seq<nat>, k: nat)
    requires Traced(trace, calls, outcomes) && a < b < |outcomes|
    requires Sends(trace[a], calls[a], outcomes[a], trace[a + 1], out) && k < calls[a].msg.value.len
    requires forall t :: a < t <= b ==> InFlight(trace[t].sys, out)
    requires Receives(trace[b], calls[b], outcomes[b], out)
    ensures calls[a].pid in trace[a].spaces && calls[b].pid in trace[b + 1].spaces
    ensures var sent := V.UserByte(FlatIn(trace[a], calls[a].pid).value, trace[a].pages, calls[a].msg.value.va + k);
            && sent.Some?
            && V.UserByte(FlatIn(trace[b + 1], calls[b].pid).value, trace[b + 1].pages, outcomes[b].value.got.va + k) ==
                 sent
  {
    hide V.Content, Made, Traced, V.Handed, V.UserByte, FlatIn, V.Stolen, InFlight, SendTo, RecvFrom, V.PageNo;
    hide V.Aligned, Arrived;
    TracedMade(trace, calls, outcomes, a);
    TracedMade(trace, calls, outcomes, b);
    SendsStolen(trace[a], calls[a], outcomes[a], trace[a + 1], out);
    ReceivesHanded(trace[b], calls[b], outcomes[b], trace[b + 1], out);
    forall i | 0 <= i < |out|
      ensures V.Content(trace[b + 1].pages, V.PageNo(out[i])) == V.Content(trace[a].pages, V.PageNo(out[i]))
    {
      BytesInFlight(trace, calls, outcomes, a + 1, b, out, i);
    }
    PayloadArrives(FlatIn(trace[a], calls[a].pid).value, V.PageNo(calls[a].msg.value.va), out,
        FlatIn(trace[b], calls[b].pid).value, outcomes[b].value.got.va, trace[a].pages, trace[b + 1].pages, k);
  }

  /** A kernel and a task's address space, both without tables below the root, and three free frames. */
  ghost function Scarce(): (s: V.State) {
    V.St(map[1 := PageTables.EmptyTable(), 2 := PageTables.EmptyTable()],
        map[1 := PageTables.Place(1, 4, 0), 2 := PageTables.Place(2, 4, 0)], {3, 4, 5})
  }

  /** A payload of 513 pages, more than one page table has room for. */
  ghost function Bulky(): (m: Message) {
    Message([], [], seq(513, i requires 0 <= i => (10 + i) * PageTables.PAGE_SIZE), 513 * PageTables.PAGE_SIZE)
  }

  lemma ScarceShape()
    ensures PageTables.Shape(Scarce().tables, Scarce().places, 1)
    ensures PageTables.Flat(Scarce().tables, 1) == map[] && PageTables.Flat(Scarce().tables, 2) == map[]
  {
  }

  lemma BulkyWhole()
    ensures Whole(map[0 := [Bulky()]])
  {
  }

  /** Frame 10 + j is page j of the payload, and nobody else has a frame. */
  lemma ScarceHolder(h: Holder)
    ensures FrameAt(Mem(Scarce(), map[0 := [Bulky()]], []), h) ==
            if h.Queued? && h.port == 0 && h.i == 0 && h.j < 513 then Some(10 + h.j) else None
  {
    ScarceShape();
    hide PageTables.Flat;
    if h.Queued? {
      V.FrameAddr(10 + h.j);
    }
  }

  lemma ScarceExclusive()
    ensures Exclusive(Mem(Scarce(), map[0 := [Bulky()]], []))
  {
    var m := Mem(Scarce(), map[0 := [Bulky()]], []);
    hide FrameAt, Bulky;
    forall h
      ensures FrameAt(m, h) == if h.Queued? && h.port == 0 && h.i == 0 && h.j < 513 then Some(10 + h.j) else None
    {
      ScarceHolder(h);
    }
  }

  lemma {:induction false} Prefixes()
    ensures PageTables.Up(0x2_0000, 1) == 0x100 && PageTables.Up(0x2_0000, 2) == 0 && PageTables.Up(0x2_0000, 3) == 0
    ensures PageTables.Up(0x2_0200, 1) == 0x101
  {
    assert PageTables.Up(0x2_0000, 0) == 0x2_0000 && PageTables.Up(0x2_0200, 0) == 0x2_0200;
  }

  lemma {:induction false} FourLacking(t: PageTables.Tables, pml4: PageTables.Table)
    requires 2 in t && t[2] == pml4 == PageTables.EmptyTable()
    ensures |G.Lack(t, 2, 0x2_0000, 513)| >= 4
  {
    var lo, l := 0x2_0000, G.Lack(t, 2, 0x2_0000, 513);
    forall k: nat, v: nat | 1 <= k <= 3 ensures G.Down(t, 2, 4, k, v).None? {
    }
    Prefixes();
    var some := {(1, 0x100), (1, 0x101), (2, 0), (3, 0)};
    assert (1, 0x100) in l && (2, 0) in l && (3, 0) in l by {
      assert G.Down(t, 2, 4, 1, lo).None? && G.Down(t, 2, 4, 2, lo).None? && G.Down(t, 2, 4, 3, lo).None?;
    }
    assert (1, 0x101) in l by {
      assert G.Down(t, 2, 4, 1, lo + 512).None?;
    }
    assert some <= l;
    V.SubsetSize(some, l);
    assert |some| == 4;
  }

  lemma ScarceBreaks()
    ensures Breaks(Scarce(), 2, 513)
  {
    var s, pml4 := Scarce(), PageTables.EmptyTable();
    assert PageTables.Flat(s.tables, 2) == map[];
    var va, lo := V.USER_IPC_BASE, 0x2_0000;
    assert V.PageNo(va) == lo;
    assert Lowest(PageTables.Flat(s.tables, 2), 513, va);
    assert PageTables.Missing(s.tables, 2, 4, lo) == 3;
    FourLacking(s.tables, pml4);
  }

  /** The tables of the first page of the payload fit, the second page table does not. */
  lemma BreaksExample()
    ensures PageTables.Shape(Scarce().tables, Scarce().places, 1)
    ensures Whole(map[0 := [Bulky()]]) && Exclusive(Mem(Scarce(), map[0 := [Bulky()]], []))
    ensures DeliveryBreaks(Bulky(), RecvOut(true, 0), Scarce(), Some(2))
  {
    ScarceShape();
    BulkyWhole();
    ScarceExclusive();
    ScarceBreaks();
  }
}
