/** The IPC system calls as operations on the capability state and on memory
    (kernel/src/ipc/syscalls.rs, with cap_table.rs, port.rs and registry.rs). */
module Ipc {
  import opened Prelude
  import opened Caps
  import opened Frames
  import V = Vmm
  import R = Ranges
  import PageTables
  import Bits
  import Utf8

  const EPERM := -1
  const ENOENT := -2
  const EBADF := -9
  const E2BIG := -7
  const EAGAIN := -11
  const ENOMEM := -12
  const EFAULT := -14
  const EEXIST := -17
  const EINVAL := -22

  /** Owned frames are frames the allocator manages, and never frame 0. */
  ghost predicate Real(m: Mem, total: nat) {
    forall f: nat :: Owned(m, f) ==> 0 < f < total
  }

  ghost predicate AllAligned(pages: seq<nat>) {
    forall k :: 0 <= k < |pages| ==> V.Aligned(pages[k])
  }

  /** Messages carry whole pages. */
  ghost predicate Whole(queues: map<nat, seq<Message>>) {
    forall p, i :: p in queues && 0 <= i < |queues[p]| ==>
        AllAligned(queues[p][i].pages) && queues[p][i].len == |queues[p][i].pages| * PageTables.PAGE_SIZE
  }

  /** Every task has an address space of its own. */
  ghost predicate Rooted(spaces: map<nat, nat>, places: PageTables.Places) {
    && (forall t :: t in spaces ==> PageTables.IsRoot(places, spaces[t]))
    && forall t, u :: t in spaces && u in spaces && spaces[t] == spaces[u] ==> t == u
  }

  /** Every address space but `root` translates as before. */
  ghost predicate Untouched(t: PageTables.Tables, p: PageTables.Places, t': PageTables.Tables, root: Option<nat>) {
    forall r: nat :: PageTables.IsRoot(p, r) && root != Some(r) ==> PageTables.Flat(t', r) == PageTables.Flat(t, r)
  }

  lemma UntouchedSelf(t: PageTables.Tables, p: PageTables.Places, root: Option<nat>)
    ensures Untouched(t, p, t, root)
  {
  }

  lemma UntouchedKept(s: V.State, s': V.State, root: nat)
    requires V.Kept(s, s', root)
    ensures Untouched(s.tables, s.places, s'.tables, Some(root))
  {
    hide PageTables.Flat, V.Kept;
    forall r | PageTables.IsRoot(s.places, r) && r != root
      ensures PageTables.Flat(s'.tables, r) == PageTables.Flat(s.tables, r)
    {
      KeptLeaf(s, s', root, r);
    }
  }

  lemma UntouchedSpaces(t: PageTables.Tables, p: PageTables.Places, t': PageTables.Tables)
    requires PageTables.SameSpaces(t, p, t')
    ensures Untouched(t, p, t', None)
  {
    hide PageTables.Flat, PageTables.SameSpace;
    forall r | PageTables.IsRoot(p, r) ensures PageTables.Flat(t', r) == PageTables.Flat(t, r) {
      PageTables.SameSpaceFlat(t, t', r);
    }
  }

  ghost predicate RootsKept(p: PageTables.Places, p': PageTables.Places) {
    forall r: nat :: PageTables.IsRoot(p, r) ==> PageTables.IsRoot(p', r)
  }

  /** A change to a space that was not there before touches none that was. */
  lemma UntouchedNew(t0: PageTables.Tables, p0: PageTables.Places, s1: V.State, s2: V.State, root: nat)
    requires Untouched(t0, p0, s1.tables, None) && Untouched(s1.tables, s1.places, s2.tables, Some(root)) && root !in p0
    requires RootsKept(p0, s1.places)
    ensures Untouched(t0, p0, s2.tables, None)
  {
    hide PageTables.Flat;
  }

  /** Memory outside the frames that were free is as it was. */
  ghost predicate Unwritten(pages: map<nat, V.Page>, pages': map<nat, V.Page>, free: set<nat>) {
    forall f: nat :: f !in free ==> V.Content(pages', f) == V.Content(pages, f)
  }

  lemma UnwrittenSelf(pages: map<nat, V.Page>, free: set<nat>)
    ensures Unwritten(pages, pages, free)
  {
  }

  lemma UnwrittenBoth(p0: map<nat, V.Page>, p1: map<nat, V.Page>, p2: map<nat, V.Page>, free: set<nat>, less: set<nat>)
    requires Unwritten(p0, p1, free) && Unwritten(p1, p2, less) && less <= free
    ensures Unwritten(p0, p2, free)
  {
    hide V.Content;
  }

  /** A run of fresh pages was zeroed, each on a frame that was free, and every other space is as before. */
  lemma AnonUntouched(s: V.State, s': V.State, root: nat, taken: set<nat>, pages: map<nat, V.Page>,
                  pages': map<nat, V.Page>)
    requires V.AnonKept(s, s', root, taken) && V.Cleared(pages, pages', taken) && s'.free !! s'.tables.Keys
    requires s.free !! s.tables.Keys
    ensures Untouched(s.tables, s.places, s'.tables, Some(root)) && RootsKept(s.places, s'.places)
    ensures s'.free <= s.free && Unwritten(pages, pages', s.free)
  {
    hide PageTables.Flat, Untouched, PageTables.OthersSame, V.Content;
    UntouchedKept(s.(free := s.free - taken), s', root);
    forall f | f in s'.free ensures f in s.free {
      assert f in s'.free + s'.tables.Keys;
    }
  }

  const NAME_MAX: nat := 64

  /** `from_bits_truncate` of a rights mask. */
  function RightsOf(mask: nat): (r: Rights) {
    Rights(mask % 2 == 1, mask / 2 % 2 == 1, mask / 4 % 2 == 1)
  }

  /** What `ipc_cap_dup` grants: never more than asked or held, and never the right to receive. */
  function DupRights(held: Rights, mask: nat): (r: Rights)
    ensures !r.recv && (r.send <==> held.send && mask % 2 == 1) && (r.dup <==> held.dup && mask / 4 % 2 == 1)
  {
    var asked := RightsOf(mask);
    Rights(held.send && asked.send, false, held.dup && asked.dup)
  }

  /** The registrar is in the table and no id from 33 up to it is vacant. */
  ghost predicate SeesRegistrar(slots: map<int, Cap>) {
    exists id :: id >= 1 && id in slots && slots[id].target.Registrar? && forall k :: 32 < k < id ==> k in slots
  }

  /** A registrar alone at id 34 is not seen: id 33 is vacant. */
  lemma RegistrarUnseen()
    ensures var slots := map[34 := Cap(Registrar, Rights(false, false, false))];
            !SeesRegistrar(slots) && slots[34].target.Registrar?
  {
    assert 33 !in map[34 := Cap(Registrar, Rights(false, false, false))];
  }

  /** `ipc_name publish` succeeds for a holder of the registrar and of a port, under an unused name. */
  ghost function PublishResult(s: Sys, pid: nat, name: seq<byte>, id: int): (r: int)
    requires pid in s.tables
    ensures r == 0 ==> id in s.tables[pid].slots && s.tables[pid].slots[id].target.Port? && name !in s.names
  {
    if |name| == 0 || |name| > NAME_MAX || !Utf8.Valid(name) then EINVAL
    else if id !in s.tables[pid].slots then EBADF
    else if !s.tables[pid].slots[id].target.Port? then EINVAL
    else if !SeesRegistrar(s.tables[pid].slots) then EPERM
    else if name in s.names then EEXIST
    else 0
  }

  /** A registrar at id 33 is seen whatever is vacant below it. */
  lemma RegistrarSeen(slots: map<int, Cap>)
    requires 33 in slots && slots[33].target.Registrar?
    ensures SeesRegistrar(slots)
  {
  }

  /** When a name can be published, and what each refusal means. */
  lemma PublishCases(s: Sys, pid: nat, name: seq<byte>, id: int)
    requires pid in s.tables
    ensures var r, slots, named := PublishResult(s, pid, name, id), s.tables[pid].slots,
              0 < |name| <= 64 && Utf8.Valid(name);
            && (!named ==> r == -22)
            && (named && id !in slots ==> r == -9)
            && (named && id in slots && !slots[id].target.Port? ==> r == -22)
            && (named && id in slots && slots[id].target.Port? && !SeesRegistrar(slots) ==> r == -1)
            && (named && id in slots && slots[id].target.Port? && SeesRegistrar(slots) ==>
                  r == if name in s.names then -17 else 0)
  {
  }

  /** The message a caller passes to `ipc_send`. */
  datatype SendMsg = SendMsg(regs: seq<u64>, capsNull: bool, ids: seq<int>, va: nat, len: nat)

  /** The payload range is well formed. */
  predicate GoodRange(msg: SendMsg) {
    msg.va != 0 && V.Aligned(msg.va) && V.Aligned(msg.len)
  }

  /** Why a send is refused before anything moves; 0 if it is not. */
  ghost function Refusal(s: Sys, pid: nat, id: int, msg: Option<SendMsg>): (r: int)
    requires pid in s.tables
    ensures r == 0 ==> msg.Some? && id in s.tables[pid].slots && s.tables[pid].slots[id].target.Port?
  {
    if msg.None? then EFAULT
    else if |msg.value.ids| > MAX_CAPS then E2BIG
    else if id !in s.tables[pid].slots then EBADF
    else if !s.tables[pid].slots[id].rights.send then EPERM
    else if !s.tables[pid].slots[id].target.Port? then EINVAL
    else if msg.value.ids != [] && msg.value.capsNull then EFAULT
    else if exists k :: 0 <= k < |msg.value.ids| && msg.value.ids[k] !in s.tables[pid].slots then EBADF
    else 0
  }

  /** All n pages from lo are mapped. */
  ghost predicate Backed(m: map<nat, PageTables.Pte>, lo: nat, n: nat) {
    forall v: nat :: lo <= v < lo + n ==> v in m
  }

  /** Only a holder of the right to send gets past the checks, with at most eight capabilities, all its own. */
  lemma SendCases(s: Sys, pid: nat, id: int, msg: Option<SendMsg>)
    requires pid in s.tables
    ensures var r, slots := Refusal(s, pid, id, msg), s.tables[pid].slots;
            && (r == 0 <==>
                  && msg.Some? && |msg.value.ids| <= 8 && id in slots && slots[id].rights.send && slots[id].target.Port?
                  && (msg.value.ids == [] || !msg.value.capsNull)
                  && forall k :: 0 <= k < |msg.value.ids| ==> msg.value.ids[k] in slots)
            && (msg.None? ==> r == -14)
            && (msg.Some? && |msg.value.ids| > 8 ==> r == -7)
            && (msg.Some? && |msg.value.ids| <= 8 && id !in slots ==> r == -9)
            && (msg.Some? && |msg.value.ids| <= 8 && id in slots && !slots[id].rights.send ==> r == -1)
            && (msg.Some? && |msg.value.ids| <= 8 && id in slots && slots[id].rights.send && !slots[id].target.Port? ==>
                  r == -22)
            && (r == -14 ==> msg.None? || (msg.value.ids != [] && msg.value.capsNull))
  {
  }

  /** What a send that was not refused returns. `flat` is the sender's address space, if it has one. */
  ghost function PayloadResult(s: Sys, p: nat, msg: SendMsg, flat: Option<map<nat, PageTables.Pte>>): (r: int) {
    if msg.len > 0 && !GoodRange(msg) then EINVAL
    else if msg.len > 0 && flat.None? then EPERM
    else if msg.len > 0 && !Backed(flat.value, V.PageNo(msg.va), V.PageNo(msg.len)) then EFAULT
    else if p in s.queues && |s.queues[p]| >= MAX_IN_FLIGHT then EAGAIN
    else 0
  }

  /** The payload must be whole pages at a page address, all mapped; a port has room for sixteen messages. */
  lemma PayloadCases(s: Sys, p: nat, msg: SendMsg, flat: Option<map<nat, PageTables.Pte>>)
    ensures var r := PayloadResult(s, p, msg, flat);
            if msg.len > 0 && (msg.va == 0 || msg.va % 4096 != 0 || msg.len % 4096 != 0) then r == -22
            else if msg.len > 0 && flat.None? then r == -1
            else if msg.len > 0 && (exists v :: msg.va / 4096 <= v < (msg.va + msg.len) / 4096 && v !in flat.value)
            then r == -14
            else r == if p in s.queues && |s.queues[p]| >= 16 then -11 else 0
  {
    if msg.len > 0 && msg.va % 4096 == 0 && msg.len % 4096 == 0 {
      assert (msg.va + msg.len) / 4096 == msg.va / 4096 + msg.len / 4096;
    }
  }

  /** A receive either parks the task or ends with a result and what is written back to it: the
      address of the payload, the control words and the ids of the new capabilities. */
  datatype Received = Blocked | Done(code: int, va: nat, regs: seq<u64>, ids: seq<int>)

  /** Where `ipc_recv` puts capability ids. */
  datatype RecvOut = RecvOut(capsNull: bool, capsMax: nat)

  predicate NoRoom(message: Message, out: RecvOut) {
    message.caps != [] && (out.capsNull || out.capsMax < |message.caps|)
  }

  /** The address the search of the IPC window returns. */
  ghost predicate Lowest(m: map<nat, PageTables.Pte>, n: nat, va: nat) {
    V.Accepts(m, n, va) && forall s: nat :: s < va ==> !V.Accepts(m, n, s)
  }

  /** There is a place for n pages and there are frames for the tables they need. */
  ghost predicate Installable(s: V.State, root: nat, n: nat) {
    exists va :: Lowest(PageTables.Flat(s.tables, root), n, va) && V.Slack(s, root, V.PageNo(va), n) >= 0
  }

  /** The result of handing message `m` to a task whose address space, if any, is `root`. */
  ghost function DeliverResult(m: Message, out: RecvOut, s: V.State, root: Option<nat>): (r: int) {
    if NoRoom(m, out) then E2BIG
    else if m.pages == [] then 0
    else if root.None? then EPERM
    else if Installable(s, root.value, |m.pages|) then 0
    else ENOMEM
  }

  /** Installing n pages runs out of page-table frames after at least one page was mapped. */
  ghost predicate Breaks(s: V.State, root: nat, n: nat) {
    exists va :: Lowest(PageTables.Flat(s.tables, root), n, va) && V.Slack(s, root, V.PageNo(va), n) < 0
        && PageTables.Missing(s.tables, root, 4, V.PageNo(va)) <= |s.free|
  }

  lemma DeliverCases(m: Message, out: RecvOut, s: V.State, root: Option<nat>)
    ensures var r := DeliverResult(m, out, s, root);
            if m.caps != [] && (out.capsNull || out.capsMax < |m.caps|) then r == -7
            else if m.pages != [] && root.None? then r == -1
            else r == if m.pages == [] || Installable(s, root.value, |m.pages|) then 0 else -12
  {
  }

  /** Delivery is the one place where a frame can get a second owner. */
  ghost predicate DeliveryBreaks(m: Message, out: RecvOut, s: V.State, root: Option<nat>) {
    !NoRoom(m, out) && m.pages != [] && root.Some? && Breaks(s, root.value, |m.pages|)
  }

  /** The payload of a delivered message: its frames, in order, at the lowest address the search accepts. */
  ghost predicate Payload(m: Message, va: nat, flat: map<nat, PageTables.Pte>, flat': map<nat, PageTables.Pte>) {
    if m.pages == [] then va == 0 && flat' == flat
    else Lowest(flat, |m.pages|, va) && flat' == V.Handed(flat, V.PageNo(va), m.pages, V.HANDED_OVER)
  }

  ghost predicate StrandedAt(pages: seq<nat>, s: V.State, root: nat, va: nat, flat: map<nat, PageTables.Pte>,
                             flat': map<nat, PageTables.Pte>) {
    exists j: nat :: V.Fills(s, root, V.PageNo(va), |pages|, j) &&
      flat' == V.Handed(flat, V.PageNo(va), pages[..j], V.HANDED_OVER)
  }

  /** What a delivery that ran out of page-table frames left mapped: as many pages as there were
      tables for, from the lowest address the search accepts; nothing if it accepts none. */
  ghost predicate Stranded(pages: seq<nat>, s: V.State, root: nat, flat: map<nat, PageTables.Pte>,
                           flat': map<nat, PageTables.Pte>) {
    if exists va :: Lowest(flat, |pages|, va) then
      exists va :: Lowest(flat, |pages|, va) && StrandedAt(pages, s, root, va, flat, flat')
    else flat' == flat
  }

  function NewTable(init: bool): (t: Table) {
    if init then Table(map[1 := Cap(Registrar, Rights(false, false, false))], 2) else Table(map[], 1)
  }

  /** A task whose pages are `ranges` can be started: one frame for the root, then all pages, aligned
      and distinct, with every table above them. */
  ghost predicate Startable(free: nat, ranges: seq<R.Range>) {
    free > 0 && R.FreshReach(free - 1, R.AllVas(ranges), |R.AllVas(ranges)|)
  }

  /** Starting it stops when no frame is left at all: not even one to lose. */
  ghost predicate StopsDry(free: nat, ranges: seq<R.Range>) {
    free == 0 || R.RunsDry(free - 1, R.AllVas(ranges))
  }

  lemma NoFrameLeft(ranges: seq<R.Range>)
    ensures !Startable(0, ranges) && StopsDry(0, ranges)
  {
  }

  lemma StartStops(s0: V.State, s: V.State, root: nat, ranges: seq<R.Range>, i: nat, n: nat)
    requires i < |ranges| && R.Sofar(s0, s, root, ranges, i) && R.FreshRoot(s0, root)
    requires n < ranges[i].count && V.MostReached(s, root, V.Vas(ranges[i].virt, ranges[i].count), n)
    ensures !Startable(|s0.free| + 1, ranges)
    ensures StopsDry(|s0.free| + 1, ranges) <==> V.Spare(s, root, V.Vas(ranges[i].virt, ranges[i].count), n) == 0
  {
    assert V.InUser(R.AllVas(ranges));
    hide R.FreshReach, R.FreshSpare, V.Spare, V.Reach, R.AllVas, V.Vas, R.FreshRoot, R.Sofar, V.MostReached;
    var vas, j := R.AllVas(ranges), |R.AllVas(ranges[..i])| + n;
    R.SofarStop(s0, s, root, ranges, i, n);
    R.MostAgrees(s0, root, vas, j);
    R.FreshAgrees(s0, root, vas, j);
    assert R.DryAt(|s0.free|, vas, j) <==> R.FreshSpare(|s0.free|, vas, j) == 0;
    forall k: nat | R.DryAt(|s0.free|, vas, k) ensures k == j {
      R.MostOnly(|s0.free|, vas, k, j);
    }
  }

  lemma StartsAll(s0: V.State, s: V.State, root: nat, ranges: seq<R.Range>)
    requires R.Sofar(s0, s, root, ranges, |ranges|) && R.FreshRoot(s0, root)
    ensures Startable(|s0.free| + 1, ranges)
  {
    R.SofarAll(s0, s, root, ranges);
    R.FreshAgrees(s0, root, R.AllVas(ranges), |R.AllVas(ranges)|);
  }

  /** Every frame is still owned, except those lost. */
  ghost predicate LostOnly(m: Mem, m': Mem, lost: set<nat>) {
    forall f: nat :: Owned(m, f) <==> Owned(m', f) || f in lost
  }

  lemma LostSelf(m: Mem)
    ensures LostOnly(m, m, {})
  {
  }

  lemma LostSame(m: Mem, m': Mem)
    requires SameFrames(m, m')
    ensures LostOnly(m, m', {})
  {
    hide Owned;
  }

  lemma LostMore(m0: Mem, m1: Mem, m2: Mem, lost: set<nat>)
    requires LostOnly(m0, m1, {}) && LostOnly(m1, m2, lost)
    ensures LostOnly(m0, m2, lost)
  {
    hide Owned;
  }

  lemma LostReal(m: Mem, m': Mem, lost: set<nat>, total: nat)
    requires Real(m, total) && forall f: nat :: Owned(m, f) <==> Owned(m', f) || f in lost
    ensures Real(m', total) && LostOnly(m, m', lost)
  {
    hide Owned;
  }

  lemma ShapeKeys(tables: PageTables.Tables, places: PageTables.Places, kernel: nat)
    requires PageTables.Shape(tables, places, kernel)
    ensures places.Keys == tables.Keys
  {
  }

  lemma RootedGrows(spaces: map<nat, nat>, places: PageTables.Places, root: nat)
    requires Rooted(spaces, places)
    ensures Rooted(spaces, places[root := PageTables.Place(root, 4, 0)])
  {
  }

  lemma RootedNew(spaces: map<nat, nat>, before: PageTables.Places, places: PageTables.Places, pid: nat, root: nat)
    requires Rooted(spaces, before) && root !in before && Rooted(spaces, places) && PageTables.IsRoot(places, root)
    ensures Rooted(spaces[pid := root], places)
  {
  }

  lemma RootedKept(spaces: map<nat, nat>, s: V.State, s': V.State, root: nat)
    requires Rooted(spaces, s.places) && PageTables.Extended(s.places, s'.places)
    ensures Rooted(spaces, s'.places)
  {
  }

  lemma AnonRooted(spaces: map<nat, nat>, s: V.State, s': V.State, root: nat, taken: set<nat>)
    requires Rooted(spaces, s.places) && V.AnonKept(s, s', root, taken) && PageTables.IsRoot(s.places, root)
    ensures Rooted(spaces, s'.places) && PageTables.IsRoot(s'.places, root)
  {
    hide PageTables.OthersSame;
    RootedKept(spaces, s, s', root);
  }

  /** The port a receive is about, or why it is refused. */
  ghost function RecvPort(s: Sys, pid: nat, id: int, out: Option<RecvOut>): (p: Result<nat, int>)
    requires pid in s.tables
  {
    if out.None? then Err(EFAULT)
    else if id !in s.tables[pid].slots then Err(EBADF)
    else if !s.tables[pid].slots[id].rights.recv then Err(EPERM)
    else if !s.tables[pid].slots[id].target.Port? then Err(EINVAL)
    else Ok(s.tables[pid].slots[id].target.port)
  }

  /** Only the holder of the right to receive gets to a port. */
  lemma RecvCases(s: Sys, pid: nat, id: int, out: Option<RecvOut>)
    requires pid in s.tables
    ensures var p, slots := RecvPort(s, pid, id, out), s.tables[pid].slots;
            && (p.Ok? ==> out.Some? && TokenAt(s, [], InTable(pid, id)) == Some(Receiver(p.value)))
            && (out.Some? && id in slots && slots[id].rights.recv && slots[id].target.Port? ==>
                  p == Ok(slots[id].target.port))
            && (out.None? ==> p == Err(-14))
            && (out.Some? && id !in slots ==> p == Err(-9))
            && (out.Some? && id in slots && !slots[id].rights.recv ==> p == Err(-1))
            && (out.Some? && id in slots && slots[id].rights.recv && !slots[id].target.Port? ==> p == Err(-22))
  {
  }

  ghost predicate Arrived(s: Sys, port: Result<nat, int>) {
    port.Ok? && port.value in s.queues && s.queues[port.value] != []
  }

  ghost predicate RecvBreaks(port: Result<nat, int>, out: Option<RecvOut>, s: Sys, st: V.State, root: Option<nat>) {
    Arrived(s, port) && out.Some? && DeliveryBreaks(s.queues[port.value][0], out.value, st, root)
  }

  ghost function InstallAll(s: Sys, pid: nat, caps: seq<Cap>): (s': Sys)
    requires pid in s.tables
    ensures pid in s'.tables && s'.queues == s.queues
  {
    if caps == [] then s else Caps.Install(InstallAll(s, pid, caps[..|caps| - 1]), pid, caps[|caps| - 1])
  }

  /** The ids that n installs in a row hand out. */
  ghost function NextIds(next: int, n: nat): (ids: seq<int>)
    ensures |ids| == n && forall k :: 0 <= k < n ==> ids[k] == next + k
  {
    if n == 0 then [] else NextIds(next, n - 1) + [next + n - 1]
  }

  /** What a receive does: nothing when refused, park when the queue is empty, otherwise hand
      over the message at the head: its capabilities under fresh ids and its frames. */
  ghost predicate RecvEffect(port: Result<nat, int>, pid: nat, out: Option<RecvOut>, s: Sys, st: V.State,
      flat: Option<map<nat, PageTables.Pte>>,
                             r: Received, s': Sys, flat': Option<map<nat, PageTables.Pte>>, root: Option<nat>)
    requires pid in s.tables
  {
    if port.Err? then r == Done(port.error, 0, [], []) && s' == s && flat' == flat
    else if !Arrived(s, port) then r == Blocked && s' == s.(parked := s.parked[pid := port.value]) && flat' == flat
    else
      var m, s1 := s.queues[port.value][0], Pop(s.(parked := s.parked - {pid}), port.value);
      && r.Done? && out.Some? && r.code == DeliverResult(m, out.value, st, root)
      && (if r.code == E2BIG then Reaped(s1, s') else s' == InstallAll(s1, pid, m.caps))
      && (r.code == 0 ==> r.regs == m.regs && r.ids == NextIds(s.tables[pid].next, |m.caps|))
      && (r.code == 0 ==> if flat.Some? then flat'.Some? && Payload(m, r.va, flat.value, flat'.value) else flat'.None?)
      && (r.code == ENOMEM ==>
            root.Some? && flat.Some? && flat'.Some? && Stranded(m.pages, st, root.value, flat.value, flat'.value))
      && (r.code != 0 && r.code != ENOMEM ==> flat' == flat)
  }

  lemma ParkedOk(s: Sys, pid: nat, id: int)
    requires Sound(s, []) && pid in s.tables && id in s.tables[pid].slots && s.tables[pid].slots[id].target.Port?
    requires s.tables[pid].slots[id].rights.recv
    ensures var parked := s.parked[pid := s.tables[pid].slots[id].target.port];
            forall t :: t in parked ==> t in s.tables && Holds(s.tables[t], parked[t])
    ensures forall t :: t in s.parked - {pid} ==> t in s.tables && Holds(s.tables[t], s.parked[t])
  {
  }

  lemma ParkedSlot(s: Sys, pid: nat) returns (id: int)
    requires Sound(s, []) && pid in s.parked
    ensures pid in s.tables && id in s.tables[pid].slots && s.tables[pid].slots[id].target == Port(s.parked[pid])
    ensures s.tables[pid].slots[id].rights.recv
  {
    assert Holds(s.tables[pid], s.parked[pid]);
    id :| id in s.tables[pid].slots && TokenOf(s.tables[pid].slots[id]) == Some(Receiver(s.parked[pid]));
  }

  /** At most one address is the lowest. */
  lemma LowestOnly(s: V.State, root: nat, n: nat, start: Option<nat>)
    requires start.Some? ==> Lowest(PageTables.Flat(s.tables, root), n, start.value)
    requires start.None? ==> forall v: nat :: !V.Accepts(PageTables.Flat(s.tables, root), n, v)
    ensures start.None? ==> !Installable(s, root, n) && !Breaks(s, root, n)
    ensures start.Some? ==> (Installable(s, root, n) <==> V.Slack(s, root, V.PageNo(start.value), n) >= 0)
    ensures start.Some? ==> (Breaks(s, root, n) <==>
              V.Slack(s, root, V.PageNo(start.value), n) < 0
              && PageTables.Missing(s.tables, root, 4, V.PageNo(start.value)) <= |s.free|)
  {
    hide V.Accepts, V.Slack, PageTables.Missing, V.PageNo, PageTables.Flat;
    forall va: nat | Lowest(PageTables.Flat(s.tables, root), n, va) ensures start == Some(va) {
    }
  }

  lemma NoneStranded(pages: seq<nat>, s: V.State, root: nat)
    requires forall v: nat :: !V.Accepts(PageTables.Flat(s.tables, root), |pages|, v)
    ensures Stranded(pages, s, root, PageTables.Flat(s.tables, root), PageTables.Flat(s.tables, root))
  {
    hide V.Accepts, PageTables.Flat;
  }

  lemma MakeStranded(pages: seq<nat>, s: V.State, s': V.State, root: nat, va: nat, j: nat)
    requires Lowest(PageTables.Flat(s.tables, root), |pages|, va) && V.Fills(s, root, V.PageNo(va), |pages|, j)
    requires j <= |pages| && PageTables.Flat(s'.tables, root) ==
               V.Handed(PageTables.Flat(s.tables, root), V.PageNo(va), pages[..j], V.HANDED_OVER)
    ensures Stranded(pages, s, root, PageTables.Flat(s.tables, root), PageTables.Flat(s'.tables, root))
  {
    hide V.Accepts, PageTables.Flat, V.Handed, V.Slack, V.PageNo;
    assert StrandedAt(pages, s, root, va, PageTables.Flat(s.tables, root), PageTables.Flat(s'.tables, root));
  }

  lemma AcceptedRange(m: map<nat, PageTables.Pte>, n: nat, va: nat)
    requires V.Accepts(m, n, va)
    ensures va + n * PageTables.PAGE_SIZE <= V.USER_TOP && V.Aligned(va) && V.Vacant(m, V.PageNo(va), n)
  {
  }

  lemma HeldAligned(pages: seq<nat>)
    requires AllAligned(pages)
    ensures forall i :: 0 <= i < |pages| ==> V.Aligned(pages[i])
  {
  }

  lemma NoneAligned()
    ensures AllAligned([])
  {
  }

  lemma KeptRooted(spaces: map<nat, nat>, s: V.State, s': V.State, root: nat)
    requires Rooted(spaces, s.places) && V.Kept(s, s', root)
    ensures Rooted(spaces, s'.places)
  {
    RootedKept(spaces, s, s', root);
  }

  /** Frames that may be handed to `free_frame`: managed by the allocator, and not page tables. */
  ghost predicate Freeable(pages: seq<nat>, s: V.State, total: nat) {
    forall k :: 0 <= k < |pages| ==> 0 < V.PageNo(pages[k]) < total && V.PageNo(pages[k]) !in s.tables
  }

  lemma HeldFreeable(m: Mem, total: nat)
    requires Real(m, total) && Exclusive(m)
    ensures Freeable(m.hand, m.state, total)
  {
    forall k | 0 <= k < |m.hand| ensures 0 < V.PageNo(m.hand[k]) < total && V.PageNo(m.hand[k]) !in m.state.tables {
      assert FrameAt(m, Held(k)) == Some(V.PageNo(m.hand[k]));
      assert Owned(m, V.PageNo(m.hand[k]));
    }
  }

  /** Frames in hand were no page tables and did not become any. */
  lemma StillFreeable(m: Mem, s': V.State, root: nat, total: nat)
    requires Real(m, total) && Exclusive(m) && V.Kept(m.state, s', root)
    ensures Freeable(m.hand, s', total)
  {
    hide PageTables.OthersSame;
    HeldFreeable(m, total);
    forall k | 0 <= k < |m.hand| ensures V.PageNo(m.hand[k]) !in s'.tables {
      assert FrameAt(m, Held(k)) == Some(V.PageNo(m.hand[k]));
      assert V.PageNo(m.hand[k]) !in m.state.free + m.state.tables.Keys;
      assert V.PageNo(m.hand[k]) !in s'.free + s'.tables.Keys;
    }
  }

  /** No page was mapped: the payload is freed and nothing else happened. */
  lemma Returned(m: Mem, s': V.State, root: nat, lo: nat)
    requires Exclusive(m) && PageTables.IsRoot(m.state.places, root) && V.Kept(m.state, s', root)
    requires s'.free !! s'.tables.Keys
    requires PageTables.Flat(s'.tables, root) ==
        V.Handed(PageTables.Flat(m.state.tables, root), lo, m.hand[..0], V.HANDED_OVER)
    ensures var m' := Mem(s'.(free := s'.free + V.PageSet(m.hand)), m.queues, []);
            Exclusive(m') && SameFrames(m, m') && |m'.state.free| == |s'.free| + |m.hand|
  {
    hide Exclusive, SameFrames, V.Kept, PageTables.Flat, V.PageSet;
    assert m.hand[..0] == [];
    RestoreMoves(m, s', root, 0, 0);
    FreeAllMoves(m.(state := s'));
    SameFramesTransitive(m, m.(state := s'), Mem(s'.(free := s'.free + V.PageSet(m.hand)), m.queues, []));
  }

  /** The first page was mapped and then its frame was freed. */
  lemma BothOwners(m: Mem, s: V.State, s': V.State, root: nat, lo: nat, pages: seq<nat>, count: nat)
    requires PageTables.IsRoot(s'.places, root) && 0 < count <= |pages|
    requires PageTables.Flat(s'.tables, root) ==
        V.Handed(PageTables.Flat(s.tables, root), lo, pages[..count], V.HANDED_OVER)
    requires m.state == s'.(free := s'.free + V.PageSet(pages))
    ensures !Exclusive(m)
  {
    hide Exclusive, PageTables.Flat, V.Handed, V.PageNo;
    V.HandedAt(PageTables.Flat(s.tables, root), lo, pages[..count], V.HANDED_OVER, lo);
    assert FrameAt(m, Leaf(root, lo)) == Some(V.PageNo(pages[0]));
    TwoOwners(m, Leaf(root, lo));
  }

  /** The capabilities named by ids, each once, in order of first mention. */
  ghost function Collect(slots: map<int, Cap>, ids: seq<int>): (caps: seq<Cap>) {
    if ids == [] then []
    else
      var n := |ids| - 1;
      var rest := Collect(slots, ids[..n]);
      if ids[n] in slots && ids[n] !in ids[..n] then rest + [slots[ids[n]]] else rest
  }

  ghost function Without(s: Sys, pid: nat, ids: seq<int>): (s': Sys)
    requires pid in s.tables
  {
    var t := s.tables[pid];
    s.(tables := s.tables[pid := Table(map id | id in t.slots && id !in ids :: t.slots[id], t.next)])
  }

  /** What a successful send did: the message at the tail of the queue carries the named
      capabilities and the frames of the payload pages, which the sender no longer has. */
  ghost predicate Sent(s: Sys, s': Sys, pid: nat, id: int, msg: SendMsg, flat: Option<map<nat, PageTables.Pte>>,
                       flat': Option<map<nat, PageTables.Pte>>)
    requires pid in s.tables && id in s.tables[pid].slots && s.tables[pid].slots[id].target.Port?
  {
    var p := s.tables[pid].slots[id].target.port;
    var s1 := Without(s, pid, msg.ids);
    && p in s1.queues
    && if msg.len == 0 then
         s' == Push(s1, p, Message(msg.regs, Collect(s.tables[pid].slots, msg.ids), [], 0)) && flat' == flat
       else
         && flat.Some? && flat'.Some? && exists pages ::
              && s' == Push(s1, p, Message(msg.regs, Collect(s.tables[pid].slots, msg.ids), pages, msg.len))
              && V.Stolen(flat.value, V.PageNo(msg.va), pages) && |pages| == V.PageNo(msg.len)
              && flat'.value == V.Partly(flat.value, V.PageNo(msg.va), 0, V.PageNo(msg.len))
  }

  /** Every page translates to the same frame. */
  ghost predicate SameTranslation(m: map<nat, PageTables.Pte>, m': map<nat, PageTables.Pte>) {
    m'.Keys == m.Keys && forall v :: v in m ==> m[v].Present? && m'[v].Present? && m'[v].frame == m[v].frame
  }

  /** What became of the capabilities and pages of a send that was not refused: delivered;
      or given back, the capabilities under fresh ids; or, on a full queue, lost. */
  ghost predicate SendEffect(r: int, s: Sys, s': Sys, pid: nat, id: int, msg: SendMsg,
                             flat: Option<map<nat, PageTables.Pte>>, flat': Option<map<nat, PageTables.Pte>>)
    requires pid in s.tables && id in s.tables[pid].slots && s.tables[pid].slots[id].target.Port?
  {
    var s1, caps := Without(s, pid, msg.ids), Collect(s.tables[pid].slots, msg.ids);
    && (r == 0 ==> Sent(s, s', pid, id, msg, flat, flat'))
    && (r == EINVAL || r == EFAULT ==> s' == InstallAll(s1, pid, caps))
    && (r == EPERM || r == EAGAIN ==> Reaped(s1, s'))
    && (r == EINVAL || r == EPERM ==> flat' == flat)
    && (r == EFAULT ==> flat.Some? && flat'.Some? && SameTranslation(flat.value, flat'.value))
    && (r == EAGAIN ==> if msg.len == 0 then flat' == flat
                        else flat.Some? && flat' == Some(V.Partly(flat.value, V.PageNo(msg.va), 0, V.PageNo(msg.len))))
  }

  lemma MakeSent(s: Sys, s': Sys, pid: nat, id: int, msg: SendMsg, flat: Option<map<nat, PageTables.Pte>>,
                 flat': Option<map<nat, PageTables.Pte>>, pages: seq<nat>)
    requires pid in s.tables && id in s.tables[pid].slots && s.tables[pid].slots[id].target.Port?
    requires var p := s.tables[pid].slots[id].target.port; var s1 := Without(s, pid, msg.ids);
             p in s1.queues && s' == Push(s1, p,
                 Message(msg.regs, Collect(s.tables[pid].slots, msg.ids), pages, msg.len))
    requires if msg.len == 0 then pages == [] && flat' == flat
             else flat.Some? && flat'.Some? && V.Stolen(flat.value, V.PageNo(msg.va), pages) &&
                  |pages| == V.PageNo(msg.len) &&
                  flat'.value == V.Partly(flat.value, V.PageNo(msg.va), 0, V.PageNo(msg.len))
    ensures Sent(s, s', pid, id, msg, flat, flat')
  {
    hide Without, Collect, V.Stolen, V.Partly, V.PageNo, Push;
  }

  lemma WholeLen(msg: SendMsg)
    requires GoodRange(msg)
    ensures msg.len == V.PageNo(msg.len) * PageTables.PAGE_SIZE
  {
  }

  lemma StolenBacked(m: map<nat, PageTables.Pte>, lo: nat, out: seq<nat>)
    requires V.Stolen(m, lo, out)
    ensures Backed(m, lo, |out|)
  {
  }

  lemma NotBacked(m: map<nat, PageTables.Pte>, lo: nat, n: nat, hole: nat)
    requires hole < n && lo + hole !in m
    ensures !Backed(m, lo, n)
  {
  }

  lemma SameAfter(m: map<nat, PageTables.Pte>, m': map<nat, PageTables.Pte>, lo: nat, hole: nat)
    requires forall v :: v in m ==> m[v].Present?
    requires m' == m || m' == V.Partly(m, lo, hole, hole)
    ensures SameTranslation(m, m')
  {
  }

  /** No frame is mapped twice in an address space. */
  lemma OwnFrames(m: Mem, root: nat)
    requires Exclusive(m) && PageTables.IsRoot(m.state.places, root)
    ensures V.Injective(PageTables.Flat(m.state.tables, root))
  {
    var flat := PageTables.Flat(m.state.tables, root);
    hide PageTables.Flat;
    forall v, w | v in flat && w in flat && flat[v].Present? && flat[w].Present? && flat[v].frame == flat[w].frame
      ensures v == w
    {
      assert FrameAt(m, Leaf(root, v)) == Some(flat[v].frame) && FrameAt(m, Leaf(root, w)) == Some(flat[w].frame);
    }
  }

  lemma TaskRoot(spaces: map<nat, nat>, places: PageTables.Places, pid: nat)
    requires Rooted(spaces, places) && pid in spaces
    ensures PageTables.IsRoot(places, spaces[pid])
  {
  }

  lemma StolenAligned(m: map<nat, PageTables.Pte>, lo: nat, out: seq<nat>)
    requires V.Stolen(m, lo, out)
    ensures AllAligned(out)
  {
    forall k | 0 <= k < |out| ensures V.Aligned(out[k]) {
      var v := lo + k;
      assert v in m && out[v - lo] == m[v].frame * PageTables.PAGE_SIZE;
    }
  }

  lemma {:induction false} NextAfter(s: Sys, pid: nat, caps: seq<Cap>)
    requires pid in s.tables
    ensures InstallAll(s, pid, caps).tables[pid].next == s.tables[pid].next + |caps|
    decreases |caps|
  {
    if caps != [] {
      NextAfter(s, pid, caps[..|caps| - 1]);
    }
  }

  lemma NextId(s: Sys, pid: nat, caps: seq<Cap>, i: nat)
    requires pid in s.tables && i < |caps|
    ensures var next := s.tables[pid].next;
            && InstallAll(s, pid, caps[..i]).tables[pid].next == next + i
            && NextIds(next, i + 1) == NextIds(next, i) + [next + i]
  {
    NextAfter(s, pid, caps[..i]);
  }

  lemma CollectNone(s: Sys, pid: nat, ids: seq<int>)
    requires pid in s.tables
    ensures Without(s, pid, ids[..0]) == s && Collect(s.tables[pid].slots, ids[..0]) == []
  {
    assert Without(s, pid, ids[..0]).tables[pid].slots == s.tables[pid].slots;
    assert Without(s, pid, ids[..0]).tables == s.tables;
  }

  lemma CollectStep(s: Sys, pid: nat, ids: seq<int>, i: nat)
    requires pid in s.tables && i < |ids| && ids[i] in s.tables[pid].slots
    ensures var s1, caps := Without(s, pid, ids[..i]), Collect(s.tables[pid].slots, ids[..i]);
            if ids[i] in s1.tables[pid].slots then
              && s1.tables[pid].slots[ids[i]] == s.tables[pid].slots[ids[i]]
              && Remove(s1, pid, ids[i]) == Without(s, pid, ids[..i + 1])
              && Collect(s.tables[pid].slots, ids[..i + 1]) == caps + [s.tables[pid].slots[ids[i]]]
            else Without(s, pid, ids[..i + 1]) == s1 && Collect(s.tables[pid].slots, ids[..i + 1]) == caps
  {
    var s1, s2 := Without(s, pid, ids[..i]), Without(s, pid, ids[..i + 1]);
    assert ids[..i + 1][..i] == ids[..i];
    assert ids[..i + 1] == ids[..i] + [ids[i]];
    assert s2.tables[pid].slots == s1.tables[pid].slots - {ids[i]};
    if ids[i] !in s1.tables[pid].slots {
      assert s2.tables[pid].slots == s1.tables[pid].slots;
    }
  }

  lemma SlotLive(s: Sys, pid: nat, id: int)
    requires Sound(s, []) && pid in s.tables && id in s.tables[pid].slots && s.tables[pid].slots[id].target.Port?
    ensures s.tables[pid].slots[id].target.port in s.queues && s.tables[pid].next >= 1
  {
    assert CapAt(s, [], InTable(pid, id)) == Some(s.tables[pid].slots[id]);
  }

  lemma SoundBounded(s: Sys)
    requires Sound(s, [])
    ensures Bounded(s)
  {
  }

  lemma NameLive(s: Sys, name: seq<byte>)
    requires Sound(s, []) && name in s.names
    ensures s.names[name] in s.queues
  {
  }

  lemma FreshId(s: Sys, pid: nat)
    requires Sound(s, []) && pid in s.tables
    ensures s.tables[pid].next !in s.tables[pid].slots && s.tables[pid].next >= 1 && s.nextPort !in s.queues
  {
  }

  lemma NewPortWhole(s: Sys)
    requires Whole(s.queues)
    ensures Whole(NewPort(s).queues)
  {
  }

  lemma PushWhole(queues: map<nat, seq<Message>>, p: nat, message: Message)
    requires Whole(queues) && p in queues && AllAligned(message.pages)
    requires message.len == |message.pages| * PageTables.PAGE_SIZE
    ensures Whole(queues[p := queues[p] + [message]])
  {
  }

  lemma PopWhole(queues: map<nat, seq<Message>>, p: nat)
    requires Whole(queues) && p in queues && queues[p] != []
    ensures Whole(queues[p := queues[p][1..]]) && AllAligned(queues[p][0].pages)
    ensures queues[p][0].len == |queues[p][0].pages| * PageTables.PAGE_SIZE
  {
  }

  lemma CloseWhole(queues: map<nat, seq<Message>>, p: nat)
    requires Whole(queues)
    ensures Whole(queues - {p})
  {
  }

  lemma FewerPorts(s: Sys, p: nat)
    requires p in s.queues
    ensures |ClosePort(s, p).queues| < |s.queues|
  {
    assert s.queues.Keys == ClosePort(s, p).queues.Keys + {p};
    assert |s.queues| == |s.queues.Keys| && |ClosePort(s, p).queues| == |ClosePort(s, p).queues.Keys|;
  }

  lemma NothingNamed(s: Sys)
    ensures NoGarbage(s, []) <==> !exists p :: p in s.queues && !Named(s, p)
  {
    hide Named, Refers;
    forall p ensures Named(s, p) <==> Refers(s, [], p) {
      NamedRefers(s, p);
    }
  }

  lemma PopNamed(s: Sys, p: nat)
    requires p in s.queues && s.queues[p] != [] && !Named(s, p)
    ensures !Named(Pop(s, p), p) && ClosePort(Pop(s, p), p) == ClosePort(s, p)
  {
  }

  lemma RealSame(m: Mem, m': Mem, total: nat)
    requires SameFrames(m, m') && Real(m, total)
    ensures Real(m', total)
  {
    hide Owned;
  }

  lemma NoFrames()
    ensures V.PageSet([]) == {}
  {
  }

  lemma PageSetNext(pages: seq<nat>, i: nat)
    requires i < |pages|
    ensures V.PageSet(pages[..i + 1]) == V.PageSet(pages[..i]) + {V.PageNo(pages[i])}
  {
    hide V.PageNo;
    var a, b := pages[..i], pages[..i + 1];
    forall x | x in V.PageSet(b) ensures x in V.PageSet(a) + {V.PageNo(pages[i])} {
      var k :| 0 <= k < |b| && x == V.PageNo(b[k]);
      if k < i {
        assert a[k] == b[k];
      }
    }
    forall x | x in V.PageSet(a) ensures x in V.PageSet(b) {
      var k :| 0 <= k < |a| && x == V.PageNo(a[k]);
      assert b[k] == a[k];
    }
    assert b[i] == pages[i];
  }

  class Kernel {
    const vmm: V.Vmm

    var sys: Sys
    var spaces: map<nat, nat> // task to its address space

    constructor (vmm: V.Vmm, sys: Sys, spaces: map<nat, nat>)
      ensures this.vmm == vmm && this.sys == sys && this.spaces == spaces
    {
      this.vmm, this.sys, this.spaces := vmm, sys, spaces;
    }

    ghost function Memory(hand: seq<nat>): (m: Mem)
      requires vmm.pmm.Valid()
      reads this, vmm, vmm.pmm, vmm.pmm.bitmap
    {
      Mem(vmm.State(), sys.queues, hand)
    }

    /** The state inside a call that holds `caps` and the frames `pages`. */
    ghost predicate Mid(caps: seq<Cap>, pages: seq<nat>)
      reads this, vmm, vmm.pmm, vmm.pmm.bitmap
    {
      && vmm.Valid() && vmm.pmm.freeFrames == |vmm.pmm.Free()|
      && Sound(sys, caps) && Exclusive(Memory(pages)) && Real(Memory(pages), vmm.pmm.totalPfns)
      && Whole(sys.queues) && AllAligned(pages) && Rooted(spaces, vmm.places)
    }

    /** The state between calls. */
    ghost predicate Valid()
      reads this, vmm, vmm.pmm, vmm.pmm.bitmap
    {
      Mid([], []) && NoGarbage(sys, [])
    }

    /** `Drop` of a message: every frame it still holds goes back to the allocator. */
    method FreePages(pages: seq<nat>)
      requires vmm.Valid() && Freeable(pages, vmm.State(), vmm.pmm.totalPfns)
      modifies vmm.pmm`nextHint, vmm.pmm`freeFrames, vmm.pmm.bitmap
      ensures vmm.Valid() && vmm.pmm.Free() == old(vmm.pmm.Free()) + V.PageSet(pages)
      ensures vmm.pmm.freeFrames == old(vmm.pmm.freeFrames) + |pages|
    {
      hide PageTables.Shape, Bits.ClearSet, V.PageNo, V.PageSet;
      ghost var free := vmm.pmm.Free();
      assert pages[..0] == [];
      assert V.PageSet([]) == {} by { NoFrames(); }
      for i := 0 to |pages|
        invariant vmm.Valid() && vmm.pmm.Free() == free + V.PageSet(pages[..i])
        invariant vmm.pmm.freeFrames == old(vmm.pmm.freeFrames) + i
      {
        PageSetNext(pages, i);
        vmm.pmm.FreeFrame(V.PageNo(pages[i]));
      }
      assert pages[..|pages|] == pages;
    }

    /** Dropping an undelivered message inside a call. */
    method DropPages(ghost caps: seq<Cap>, pages: seq<nat>)
      requires Mid(caps, pages)
      modifies vmm.pmm`nextHint, vmm.pmm`freeFrames, vmm.pmm.bitmap
      ensures Mid(caps, []) && SameFrames(old(Memory(pages)), Memory([]))
    {
      hide Sound, Exclusive, SameFrames, Whole, Rooted, Real, PageTables.Shape, Bits.ClearSet, V.PageSet, Freeable;
      ghost var m := Memory(pages);
      HeldFreeable(m, vmm.pmm.totalPfns);
      FreeAllMoves(m);
      FreePages(pages);
      RealSame(m, Memory([]), vmm.pmm.totalPfns);
    }

    /** The messages of a port nothing refers to are dropped, then the port. */
    method CloseUnreferenced(p: nat)
      requires Mid([], []) && p in sys.queues && !Named(sys, p)
      modifies `sys, vmm.pmm`nextHint, vmm.pmm`freeFrames, vmm.pmm.bitmap
      ensures Mid([], []) && SameFrames(old(Memory([])), Memory([])) && sys == ClosePort(old(sys), p)
    {
      hide Sound, Exclusive, SameFrames, Whole, Rooted, Real, PageTables.Shape, Bits.ClearSet, Named;
      ghost var m0, s0 := Memory([]), sys;
      SameFramesSelf(m0);
      while sys.queues[p] != []
        invariant Mid([], []) && SameFrames(m0, Memory([])) && p in sys.queues && !Named(sys, p)
        invariant ClosePort(sys, p) == ClosePort(s0, p)
        decreases |sys.queues[p]|
      {
        ghost var s1, m1 := sys, Memory([]);
        var message := sys.queues[p][0];
        PopSound(s1, p);
        PopMoves(m1, p);
        PopWhole(s1.queues, p);
        PopNamed(s1, p);
        sys := Pop(sys, p);
        ghost var m2 := Memory(message.pages);
        RealSame(m1, m2, vmm.pmm.totalPfns);
        DropSound(sys, message.caps);
        DropPages([], message.pages);
        SameFramesTransitive(m1, m2, Memory([]));
        SameFramesTransitive(m0, m1, Memory([]));
      }
      ghost var s1, m1 := sys, Memory([]);
      CloseSound(s1, p);
      PortMoves(m1, p);
      sys := ClosePort(sys, p);
      CloseWhole(s1.queues, p);
      RealSame(m1, Memory([]), vmm.pmm.totalPfns);
      SameFramesTransitive(m0, m1, Memory([]));
    }

    /** Release every port that nothing refers to any more, as the last reference to it is dropped. */
    method Reap()
      requires Mid([], [])
      modifies `sys, vmm.pmm`nextHint, vmm.pmm`freeFrames, vmm.pmm.bitmap
      ensures Valid() && SameFrames(old(Memory([])), Memory([])) && Reaped(old(sys), sys)
      ensures old(NoGarbage(sys, [])) ==> sys == old(sys) && vmm.pmm.Free() == old(vmm.pmm.Free())
    {
      hide Sound, Exclusive, SameFrames, Whole, Rooted, Real, PageTables.Shape, Bits.ClearSet, Named, NoGarbage;
      hide Closable;
      ghost var m0, s0 := Memory([]), sys;
      SameFramesSelf(m0);
      ghost var closed := [];
      CloseNone(s0);
      NothingNamed(s0);
      while exists p :: p in sys.queues && !Named(sys, p)
        invariant Mid([], []) && SameFrames(m0, Memory([])) && Closable(s0, closed) && sys == CloseAll(s0, closed)
        invariant NoGarbage(s0, []) ==> sys == s0 && vmm.pmm.Free() == old(vmm.pmm.Free())
        decreases |sys.queues|
      {
        var p :| p in sys.queues && !Named(sys, p);
        ghost var s1, m1 := sys, Memory([]);
        CloseUnreferenced(p);
        SameFramesTransitive(m0, m1, Memory([]));
        CloseNext(s0, closed, p);
        FewerPorts(s1, p);
        closed := closed + [p];
      }
      NothingNamed(sys);
    }

    method SysPortCreate(pid: nat) returns (r: int)
      requires Valid() && pid in sys.tables && pid !in sys.parked
      modifies `sys
      ensures Valid() && SameFrames(old(Memory([])), Memory([]))
      ensures sys == Caps.Install(NewPort(old(sys)), pid, Cap(Port(old(sys.nextPort)), Rights(true, true, true)))
      ensures r == old(sys.tables[pid].next) && r !in old(sys.tables[pid].slots)
    {
      hide Sound, Exclusive, SameFrames, Whole, Rooted, Real, PageTables.Shape, Bits.ClearSet, NoGarbage;
      ghost var s, m := sys, Memory([]);
      var c := Cap(Port(sys.nextPort), Rights(true, true, true));
      NewPortSound(s, c.rights);
      NewPortWhole(s);
      FreshId(s, pid);
      PortMoves(m, s.nextPort);
      InstallSound(NewPort(s), [c], pid);
      assert [c][1..] == [];
      r := sys.tables[pid].next;
      sys := Caps.Install(NewPort(sys), pid, c);
      RealSame(m, Memory([]), vmm.pmm.totalPfns);
    }

    method SysCapDrop(pid: nat, id: int) returns (r: int)
      requires Valid() && pid in sys.tables && pid !in sys.parked
      modifies `sys, vmm.pmm`nextHint, vmm.pmm`freeFrames, vmm.pmm.bitmap
      ensures Valid() && SameFrames(old(Memory([])), Memory([]))
      ensures r == if id in old(sys.tables[pid].slots) then 0 else -9
      ensures if r == 0 then Reaped(Remove(old(sys), pid, id), sys)
                else sys == old(sys) && vmm.pmm.Free() == old(vmm.pmm.Free())
    {
      hide Sound, Exclusive, SameFrames, Whole, Rooted, Real, PageTables.Shape, Bits.ClearSet, NoGarbage, Reaped;
      ghost var s, m := sys, Memory([]);
      SameFramesSelf(m);
      if id !in sys.tables[pid].slots {
        return EBADF;
      }
      RemoveSound(s, [], pid, id);
      DropSound(Remove(s, pid, id), [] + [s.tables[pid].slots[id]]);
      sys := Remove(sys, pid, id);
      assert Memory([]) == m;
      Reap();
      return 0;
    }

    /** A new capability without a token goes into a table. */
    method GrantTo(pid: nat, c: Cap) returns (id: int)
      requires Valid() && pid in sys.tables && pid !in sys.parked && TokenOf(c).None? && c.target.Port?
      requires c.target.port in sys.queues
      modifies `sys
      ensures Valid() && Memory([]) == old(Memory([])) && sys == Caps.Install(old(sys), pid, c)
      ensures id == old(sys.tables[pid].next) && id !in old(sys.tables[pid].slots) && id >= 1
    {
      hide Sound, Exclusive, SameFrames, Whole, Rooted, Real, PageTables.Shape, Bits.ClearSet, NoGarbage;
      ghost var s := sys;
      GrantSound(s, c);
      InstallSound(s, [c], pid);
      assert [c][1..] == [];
      FreshId(s, pid);
      id := sys.tables[pid].next;
      sys := Caps.Install(sys, pid, c);
    }

    method SysCapDup(pid: nat, id: int, mask: nat) returns (r: int)
      requires Valid() && pid in sys.tables && pid !in sys.parked
      modifies `sys
      ensures Valid() && SameFrames(old(Memory([])), Memory([]))
      ensures r < 0 ==> sys == old(sys)
      ensures r >= 0 <==>
                && id in old(sys.tables[pid].slots) && old(sys.tables[pid].slots)[id].rights.dup
                && old(sys.tables[pid].slots)[id].target.Port?
      ensures id !in old(sys.tables[pid].slots) ==> r == -9
      ensures id in old(sys.tables[pid].slots) && !old(sys.tables[pid].slots)[id].rights.dup ==> r == -1
      ensures var slots := old(sys.tables[pid].slots);
              id in slots && slots[id].rights.dup && !slots[id].target.Port? ==> r == -22
      ensures r >= 0 ==> r == old(sys.tables[pid].next) && r !in old(sys.tables[pid].slots) &&
                         var c := old(sys.tables[pid].slots)[id];
                         sys == Caps.Install(old(sys), pid, Cap(c.target, DupRights(c.rights, mask)))
    {
      hide Sound, Exclusive, SameFrames, Whole, Rooted, Real, PageTables.Shape, Bits.ClearSet, NoGarbage, RightsOf;
      ghost var s, m := sys, Memory([]);
      SameFramesSelf(m);
      if id !in sys.tables[pid].slots {
        return EBADF;
      }
      var c := sys.tables[pid].slots[id];
      if !c.rights.dup {
        return EPERM;
      }
      if !c.target.Port? {
        return EINVAL;
      }
      var granted := Cap(c.target, DupRights(c.rights, mask));
      SlotLive(s, pid, id);
      r := GrantTo(pid, granted);
    }

    /** Scan for the registrar from id 1, giving up at the first vacant id above 32. */
    method FindRegistrar(pid: nat) returns (found: bool)
      requires pid in sys.tables && Bounded(sys) && sys.tables[pid].next <= 0x7fff_ffff
      ensures found <==> SeesRegistrar(sys.tables[pid].slots)
    {
      var slots := sys.tables[pid].slots;
      for id := 1 to 0x7fff_ffff
        invariant forall k :: 32 < k < id ==> k in slots
        invariant forall k :: 1 <= k < id && k in slots ==> !slots[k].target.Registrar?
      {
        if id in slots {
          if slots[id].target.Registrar? {
            return true;
          }
        } else if id > 32 {
          return false;
        }
      }
      return false;
    }

    method SysPublish(pid: nat, name: seq<byte>, id: int) returns (r: int)
      requires Valid() && pid in sys.tables && pid !in sys.parked && sys.tables[pid].next <= 0x7fff_ffff
      modifies `sys
      ensures Valid() && SameFrames(old(Memory([])), Memory([]))
      ensures r == PublishResult(old(sys), pid, name, id)
      ensures sys == if r == 0 then old(sys).(names :=
                old(sys.names)[name := old(sys.tables[pid].slots)[id].target.port]) else old(sys)
    {
      hide Sound, Exclusive, SameFrames, Whole, Rooted, Real, PageTables.Shape, Bits.ClearSet, NoGarbage, Utf8.Valid;
      hide SeesRegistrar;
      ghost var s, m := sys, Memory([]);
      SameFramesSelf(m);
      if |name| == 0 || |name| > NAME_MAX || !Utf8.Valid(name) {
        return EINVAL;
      }
      if id !in sys.tables[pid].slots {
        return EBADF;
      }
      var c := sys.tables[pid].slots[id];
      if !c.target.Port? {
        return EINVAL;
      }
      SoundBounded(s);
      var registrar := FindRegistrar(pid);
      if !registrar {
        return EPERM;
      }
      if name in sys.names {
        return EEXIST;
      }
      SlotLive(s, pid, id);
      PublishSound(s, name, c.target.port);
      sys := sys.(names := sys.names[name := c.target.port]);
      return 0;
    }

    method SysLookup(pid: nat, name: seq<byte>) returns (r: int)
      requires Valid() && pid in sys.tables && pid !in sys.parked
      modifies `sys
      ensures Valid() && SameFrames(old(Memory([])), Memory([]))
      ensures r == if |name| == 0 || |name| > 64 || !Utf8.Valid(name) then -22
                else if name !in old(sys.names) then -2 else old(sys.tables[pid].next)
      ensures r < 0 ==> sys == old(sys)
      ensures r >= 0 ==>
                && r !in old(sys.tables[pid].slots)
                && sys == Caps.Install(old(sys), pid, Cap(Port(old(sys.names)[name]), Rights(true, false, false)))
    {
      hide Sound, Exclusive, SameFrames, Whole, Rooted, Real, PageTables.Shape, Bits.ClearSet, NoGarbage, Utf8.Valid;
      SameFramesSelf(Memory([]));
      if |name| == 0 || |name| > NAME_MAX || !Utf8.Valid(name) {
        return EINVAL;
      }
      if name !in sys.names {
        return ENOENT;
      }
      NameLive(sys, name);
      r := GrantTo(pid, Cap(Port(sys.names[name]), Rights(true, false, false)));
    }

    /** Move the named capabilities out of the caller's table; an id named twice counts once. */
    method TakeCaps(pid: nat, ids: seq<int>) returns (caps: seq<Cap>)
      requires Valid() && pid in sys.tables && pid !in sys.parked
      requires forall k :: 0 <= k < |ids| ==> ids[k] in sys.tables[pid].slots
      modifies `sys
      ensures Mid(caps, []) && NoGarbage(sys, caps) && Memory([]) == old(Memory([]))
      ensures sys == Without(old(sys), pid, ids) && caps == Collect(old(sys.tables[pid].slots), ids) && |caps| <= |ids|
      ensures pid in sys.tables && sys.queues == old(sys.queues)
    {
      hide Sound, Exclusive, Whole, Rooted, Real, PageTables.Shape, Bits.ClearSet, NoGarbage, Collect;
      ghost var s0 := sys;
      caps := [];
      CollectNone(s0, pid, ids);
      for i := 0 to |ids|
        invariant pid in sys.tables && pid !in sys.parked && Mid(caps, []) && NoGarbage(sys, caps)
        invariant Memory([]) == old(Memory([]))
        invariant sys == Without(s0, pid, ids[..i]) && caps == Collect(s0.tables[pid].slots, ids[..i]) && |caps| <= i
      {
        CollectStep(s0, pid, ids, i);
        if ids[i] in sys.tables[pid].slots {
          RemoveSound(sys, caps, pid, ids[i]);
          caps := caps + [sys.tables[pid].slots[ids[i]]];
          sys := Remove(sys, pid, ids[i]);
        }
      }
      assert ids[..|ids|] == ids;
    }

    /** Install capabilities in order, each under a fresh id. */
    method InstallCaps(pid: nat, caps: seq<Cap>, ghost pages: seq<nat>) returns (ids: seq<int>)
      requires Mid(caps, pages) && pid in sys.tables
      modifies `sys
      ensures Mid([], pages) && sys == InstallAll(old(sys), pid, caps) && Memory(pages) == old(Memory(pages))
      ensures pid in sys.tables
      ensures old(NoGarbage(sys, caps)) ==> NoGarbage(sys, [])
      ensures ids == NextIds(old(sys.tables[pid].next), |caps|)
    {
      hide Sound, Exclusive, Whole, Rooted, Real, PageTables.Shape, Bits.ClearSet, NoGarbage, AllAligned, NextIds;
      ghost var s0 := sys;
      ids := [];
      assert caps[0..] == caps && caps[..0] == [];
      for i := 0 to |caps|
        invariant pid in sys.tables && Mid(caps[i..], pages) && Memory(pages) == old(Memory(pages))
        invariant sys == InstallAll(s0, pid, caps[..i])
        invariant ids == NextIds(s0.tables[pid].next, i)
        invariant NoGarbage(s0, caps) ==> NoGarbage(sys, caps[i..])
      {
        InstallSound(sys, caps[i..], pid);
        assert caps[i..][0] == caps[i] && caps[i..][1..] == caps[i + 1..] && caps[..i + 1][..i] == caps[..i];
        NextId(s0, pid, caps, i);
        ids := ids + [sys.tables[pid].next];
        sys := Caps.Install(sys, pid, caps[i]);
      }
      assert caps[..|caps|] == caps && caps[|caps|..] == [];
    }

    /** Steal the payload pages of a message being sent. */
    method Steal(pid: nat, ghost caps: seq<Cap>, va: nat, n: nat) returns (r: Result<seq<nat>, V.MapError>)
      requires Mid(caps, []) && pid in spaces && va + n * PageTables.PAGE_SIZE <= V.USER_TOP
      modifies vmm`tables, vmm`places, vmm.pmm`nextHint, vmm.pmm`freeFrames, vmm.pmm.bitmap
      ensures Mid(caps, if r.Ok? then r.value else [])
      ensures SameFrames(old(Memory([])), Memory(if r.Ok? then r.value else []))
      ensures r.Ok? ==> |r.value| == n && V.Stolen(old(vmm.Space(spaces[pid])), V.PageNo(va), r.value)
      ensures r.Ok? ==> vmm.Space(spaces[pid]) == V.Partly(old(vmm.Space(spaces[pid])), V.PageNo(va), 0, n)
      ensures r.Ok? <==> V.Aligned(va) && Backed(old(vmm.Space(spaces[pid])), V.PageNo(va), n)
      ensures r.Err? ==> SameTranslation(old(vmm.Space(spaces[pid])), vmm.Space(spaces[pid]))
      ensures V.Kept(old(vmm.State()), vmm.State(), spaces[pid])
    {
      hide Sound, Exclusive, Whole, Rooted, Real, PageTables.Shape, Bits.ClearSet, PageTables.Flat, V.Stolen, V.Partly;
      hide SameFrames, PageTables.OthersSame, SameTranslation, V.PageNo, V.Aligned, AllAligned, Backed;
      var root := spaces[pid];
      ghost var m, s, flat := Memory([]), vmm.State(), vmm.Space(root);
      TaskRoot(spaces, vmm.places, pid);
      ghost var hole;
      r, hole := vmm.StealPages(root, va, n);
      RootedKept(spaces, s, vmm.State(), root);
      if r.Ok? {
        StealMoves(m, vmm.State(), root, V.PageNo(va), r.value);
        StolenAligned(flat, V.PageNo(va), r.value);
        StolenBacked(flat, V.PageNo(va), r.value);
        RealSame(m, Memory(r.value), vmm.pmm.totalPfns);
      } else {
        RestoreMoves(m, vmm.State(), root, V.PageNo(va), hole);
        SameAfter(flat, vmm.Space(root), V.PageNo(va), hole);
        if r.error.AlreadyMapped? {
          NotBacked(flat, V.PageNo(va), n, hole);
        }
        RealSame(m, Memory([]), vmm.pmm.totalPfns);
      }
    }

    /** The user mappings of a task, if it has an address space. */
    ghost function FlatOf(pid: nat): (m: Option<map<nat, PageTables.Pte>>)
      reads this, vmm
    {
      if pid in spaces then Some(vmm.Space(spaces[pid])) else None
    }

    /** `try_push`; a message that does not fit is dropped with all it carries. */
    method Post(p: nat, message: Message) returns (r: int)
      requires Mid(message.caps, message.pages) && NoGarbage(sys, message.caps) && p in sys.queues
      requires |message.caps| <= MAX_CAPS
      requires message.len == |message.pages| * PageTables.PAGE_SIZE
      modifies `sys, vmm.pmm`nextHint, vmm.pmm`freeFrames, vmm.pmm.bitmap
      ensures Valid() && SameFrames(old(Memory(message.pages)), Memory([]))
      ensures r == if |old(sys.queues[p])| >= MAX_IN_FLIGHT then EAGAIN else 0
      ensures if r == 0 then sys == Push(old(sys), p, message) && vmm.pmm.Free() == old(vmm.pmm.Free())
                else Reaped(old(sys), sys)
    {
      hide Sound, Exclusive, Whole, Rooted, Real, PageTables.Shape, Bits.ClearSet, SameFrames, NoGarbage, Reaped;
      ghost var s, m := sys, Memory(message.pages);
      if |sys.queues[p]| >= MAX_IN_FLIGHT {
        DropPages(message.caps, message.pages);
        DropSound(sys, message.caps);
        ghost var m1 := Memory([]);
        Reap();
        SameFramesTransitive(m, m1, Memory([]));
        return EAGAIN;
      }
      PushSound(s, p, message);
      PushMoves(m, p, message);
      PushWhole(s.queues, p, message);
      sys := Push(sys, p, message);
      RealSame(m, Memory([]), vmm.pmm.totalPfns);
      return 0;
    }

    ghost function RootOf(pid: nat): (r: Option<nat>)
      reads `spaces
    {
      if pid in spaces then Some(spaces[pid]) else None
    }

    /** The part of `ipc_send` that moves things: capabilities, then pages, then the message. */
    method SendPayload(pid: nat, ghost id: int, p: nat, msg: SendMsg) returns (r: int)
      requires Valid() && pid in sys.tables && pid !in sys.parked && p in sys.queues && msg.va + msg.len <= V.USER_TOP
      requires |msg.ids| <= MAX_CAPS
      requires forall k :: 0 <= k < |msg.ids| ==> msg.ids[k] in sys.tables[pid].slots
      requires id in sys.tables[pid].slots && sys.tables[pid].slots[id].target == Port(p)
      modifies `sys, vmm`tables, vmm`places, vmm.pmm`nextHint, vmm.pmm`freeFrames, vmm.pmm.bitmap
      ensures Valid() && SameFrames(old(Memory([])), Memory([]))
      ensures Untouched(old(vmm.tables), old(vmm.places), vmm.tables, RootOf(pid))
      ensures r == PayloadResult(old(sys), p, msg, old(FlatOf(pid)))
      ensures SendEffect(r, old(sys), sys, pid, id, msg, old(FlatOf(pid)), FlatOf(pid))
    {
      hide Sound, Exclusive, Whole, Rooted, Real, PageTables.Shape, Bits.ClearSet, PageTables.Flat, SameFrames;
      hide NoGarbage, Sent, SameTranslation, V.Partly, Without, InstallAll, Collect, V.Aligned, V.PageNo, V.Kept;
      hide Reaped, Backed, Untouched;
      ghost var s0, m0, flat0, vm := sys, Memory([]), FlatOf(pid), vmm.State();
      SameFramesSelf(m0);
      UntouchedSelf(vmm.tables, vmm.places, RootOf(pid));
      var caps := TakeCaps(pid, msg.ids);
      var pages: seq<nat> := [];
      if msg.len > 0 {
        if !GoodRange(msg) {
          var _ := InstallCaps(pid, caps, []);
          return EINVAL;
        }
        if pid !in spaces {
          DropSound(sys, caps);
          Reap();
          return EPERM;
        }
        WholeLen(msg);
        var stolen := Steal(pid, caps, msg.va, V.PageNo(msg.len));
        UntouchedKept(vm, vmm.State(), spaces[pid]);
        if stolen.Err? {
          var _ := InstallCaps(pid, caps, []);
          return EFAULT;
        }
        pages := stolen.value;
      }
      ghost var m1 := Memory(pages);
      r := Post(p, Message(msg.regs, caps, pages, msg.len));
      SameFramesTransitive(m0, m1, Memory([]));
      if r == 0 {
        MakeSent(s0, sys, pid, id, msg, flat0, FlatOf(pid), pages);
      }
    }

    /** `ipc_send`. */
    method SysSend(pid: nat, id: int, msg: Option<SendMsg>) returns (r: int)
      requires Valid() && pid in sys.tables && pid !in sys.parked
      requires (msg.Some? ==> msg.value.va + msg.value.len <= V.USER_TOP)
      modifies `sys, vmm`tables, vmm`places, vmm.pmm`nextHint, vmm.pmm`freeFrames, vmm.pmm.bitmap
      ensures Valid() && SameFrames(old(Memory([])), Memory([]))
      ensures Untouched(old(vmm.tables), old(vmm.places), vmm.tables, RootOf(pid))
      // Nothing moves but by the right to send, and then to the port the capability names.
      ensures sys != old(sys) ==>
                id in old(sys.tables[pid].slots) && old(sys.tables[pid].slots)[id].rights.send
                && old(sys.tables[pid].slots)[id].target.Port?
      ensures var refusal := Refusal(old(sys), pid, id, msg);
              if refusal != 0 then r == refusal && sys == old(sys) && FlatOf(pid) == old(FlatOf(pid))
              else
                && r == PayloadResult(old(sys), old(sys.tables[pid].slots)[id].target.port, msg.value, old(FlatOf(pid)))
                && SendEffect(r, old(sys), sys, pid, id, msg.value, old(FlatOf(pid)), FlatOf(pid))
    {
      hide Sound, Exclusive, Whole, Rooted, Real, PageTables.Shape, Bits.ClearSet, PageTables.Flat, SameFrames;
      hide NoGarbage, SendEffect, PayloadResult, Untouched;
      SendCases(sys, pid, id, msg);
      ghost var m := Memory([]);
      SameFramesSelf(m);
      UntouchedSelf(vmm.tables, vmm.places, RootOf(pid));
      if msg.None? {
        return EFAULT;
      }
      var ids := msg.value.ids;
      if |ids| > MAX_CAPS {
        return E2BIG;
      }
      var slots := sys.tables[pid].slots;
      if id !in slots {
        return EBADF;
      }
      if !slots[id].rights.send {
        return EPERM;
      }
      if !slots[id].target.Port? {
        return EINVAL;
      }
      SlotLive(sys, pid, id);
      if ids != [] && msg.value.capsNull {
        return EFAULT;
      }
      for k := 0 to |ids|
        invariant forall j :: 0 <= j < k ==> ids[j] in slots
      {
        if ids[k] !in slots {
          return EBADF;
        }
      }
      r := SendPayload(pid, id, slots[id].target.port, msg.value);
    }

    /** Map the payload of a message into the receiver, or free it. If the page tables run out
        after some pages were mapped, those frames end up mapped and free; `broken` tells. */
    method InstallPayload(pid: nat, pages: seq<nat>) returns (r: int, va: nat, broken: bool)
      requires Mid([], pages) && pages != [] && pid in sys.tables
      modifies vmm`tables, vmm`places, vmm.pmm`nextHint, vmm.pmm`freeFrames, vmm.pmm.bitmap
      ensures pid !in spaces ==> r == EPERM && vmm.tables == old(vmm.tables)
      ensures pid in spaces ==> r == if Installable(old(vmm.State()), spaces[pid], |pages|) then 0 else ENOMEM
      ensures broken <==> pid in spaces && Breaks(old(vmm.State()), spaces[pid], |pages|)
      ensures if broken then vmm.Valid() && !Exclusive(Memory([]))
              else Mid([], []) && SameFrames(old(Memory(pages)), Memory([]))
      ensures r == 0 ==> Lowest(old(vmm.Space(spaces[pid])), |pages|, va) &&
                         vmm.Space(spaces[pid]) == V.Handed(old(vmm.Space(spaces[pid])), V.PageNo(va), pages,
                             V.HANDED_OVER)
      ensures r == ENOMEM ==>
                Stranded(pages, old(vmm.State()), spaces[pid], old(vmm.Space(spaces[pid])), vmm.Space(spaces[pid]))
      ensures Untouched(old(vmm.tables), old(vmm.places), vmm.tables, RootOf(pid))
    {
      hide Sound, Exclusive, Whole, Rooted, Real, PageTables.Shape, Bits.ClearSet, PageTables.Flat, SameFrames;
      hide V.Handed, V.Accepts, V.Kept, V.Slack, PageTables.Missing, V.PageNo, V.Aligned, AllAligned, Freeable;
      hide V.PageSet, Untouched, Stranded, V.Fills;
      UntouchedSelf(vmm.tables, vmm.places, RootOf(pid));
      va, broken := 0, false;
      if pid !in spaces {
        DropPages([], pages);
        return EPERM, va, false;
      }
      var root := spaces[pid];
      ghost var s, m := vmm.State(), Memory(pages);
      TaskRoot(spaces, vmm.places, pid);
      var start := vmm.FindUserVmRange(root, |pages|);
      assert vmm.Space(root) == PageTables.Flat(s.tables, root);
      LowestOnly(s, root, |pages|, start);
      if start.None? {
        NoneStranded(pages, s, root);
        DropPages([], pages);
        return ENOMEM, va, false;
      }
      va := start.value;
      AcceptedRange(vmm.Space(root), |pages|, va);
      HeldAligned(pages);
      var installed, count := vmm.InstallPages(root, va, pages);
      ghost var s1 := vmm.State();
      KeptRooted(spaces, s, s1, root);
      UntouchedKept(s, s1, root);
      MakeStranded(pages, s, s1, root, va, count);
      if installed.Ok? {
        assert pages[..|pages|] == pages;
        InstallMoves(m, s1, root, V.PageNo(va));
        RealSame(m, Memory([]), vmm.pmm.totalPfns);
        NoneAligned();
        return 0, va, false;
      }
      StillFreeable(m, s1, root, vmm.pmm.totalPfns);
      FreePages(pages);
      if count == 0 {
        Returned(m, s1, root, V.PageNo(va));
        RealSame(m, Memory([]), vmm.pmm.totalPfns);
        NoneAligned();
      } else {
        BothOwners(Memory([]), s, s1, root, V.PageNo(va), pages, count);
      }
      return ENOMEM, va, count > 0;
    }

    /** `ipc_recv` once a message is there. */
    method Deliver(pid: nat, p: nat, out: RecvOut)
      returns (r: int, va: nat, regs: seq<u64>, ids: seq<int>, broken: bool)
      requires Valid() && pid in sys.tables && p in sys.queues && sys.queues[p] != []
      modifies `sys, vmm`tables, vmm`places, vmm.pmm`nextHint, vmm.pmm`freeFrames, vmm.pmm.bitmap
      ensures r == DeliverResult(old(sys.queues[p][0]), out, old(vmm.State()), RootOf(pid))
      ensures broken <==> DeliveryBreaks(old(sys.queues[p][0]), out, old(vmm.State()), RootOf(pid))
      ensures Sound(sys, []) && NoGarbage(sys, [])
      ensures if broken then vmm.Valid() && !Exclusive(Memory([]))
              else Valid() && SameFrames(old(Memory([])), Memory([]))
      ensures if r == E2BIG then Reaped(Pop(old(sys), p), sys)
                else sys == InstallAll(Pop(old(sys), p), pid, old(sys.queues[p][0].caps))
      ensures r == 0 ==>
                && regs == old(sys.queues[p][0].regs)
                && ids == NextIds(old(sys.tables[pid].next), |old(sys.queues[p][0].caps)|)
      ensures r == 0 && pid in spaces ==>
                Payload(old(sys.queues[p][0]), va, old(vmm.Space(spaces[pid])), vmm.Space(spaces[pid]))
      ensures r == ENOMEM ==>
                && pid in spaces
                && Stranded(old(sys.queues[p][0].pages), old(vmm.State()), spaces[pid], old(vmm.Space(spaces[pid])),
                            vmm.Space(spaces[pid]))
      ensures r != 0 && r != ENOMEM ==> vmm.tables == old(vmm.tables)
      ensures Untouched(old(vmm.tables), old(vmm.places), vmm.tables, RootOf(pid))
    {
      hide Sound, Exclusive, Whole, Rooted, Real, PageTables.Shape, Bits.ClearSet, PageTables.Flat, SameFrames;
      hide NoGarbage, Reaped, InstallAll, Breaks, Installable, Lowest, V.Handed, V.PageNo, AllAligned, Untouched;
      hide Stranded;
      UntouchedSelf(vmm.tables, vmm.places, RootOf(pid));
      ghost var s, m := sys, Memory([]);
      var message := sys.queues[p][0];
      PopSound(s, p);
      PopMoves(m, p);
      PopWhole(s.queues, p);
      sys := Pop(sys, p);
      ghost var m1 := Memory(message.pages);
      RealSame(m, m1, vmm.pmm.totalPfns);
      va, broken := 0, false;
      if NoRoom(message, out) {
        DropPages(message.caps, message.pages);
        DropSound(sys, message.caps);
        SameFramesTransitive(m, m1, Memory([]));
        ghost var m2 := Memory([]);
        Reap();
        SameFramesTransitive(m, m2, Memory([]));
        return E2BIG, va, [], [], false;
      }
      regs := message.regs;
      ids := InstallCaps(pid, message.caps, message.pages);
      r := 0;
      if message.len > 0 {
        r, va, broken := InstallPayload(pid, message.pages);
        if !broken {
          SameFramesTransitive(m, m1, Memory([]));
        }
      }
    }

    /** One turn of the receive loop: deliver, or park until the next wake-up. */
    method Take(pid: nat, ghost id: int, p: nat, out: RecvOut) returns (r: Received, broken: bool)
      requires Valid() && pid in sys.tables && p in sys.queues && id in sys.tables[pid].slots
      requires sys.tables[pid].slots[id].target == Port(p) && sys.tables[pid].slots[id].rights.recv
      requires pid in sys.parked ==> sys.parked[pid] == p
      modifies `sys, vmm`tables, vmm`places, vmm.pmm`nextHint, vmm.pmm`freeFrames, vmm.pmm.bitmap
      ensures RecvEffect(Ok(p), pid, Some(out), old(sys), old(vmm.State()), old(FlatOf(pid)), r, sys, FlatOf(pid),
                RootOf(pid))
      ensures broken <==> RecvBreaks(Ok(p), Some(out), old(sys), old(vmm.State()), RootOf(pid))
      ensures Sound(sys, []) && NoGarbage(sys, [])
      ensures if broken then vmm.Valid() && !Exclusive(Memory([]))
              else Valid() && SameFrames(old(Memory([])), Memory([]))
      ensures Untouched(old(vmm.tables), old(vmm.places), vmm.tables, RootOf(pid))
    {
      hide Sound, Exclusive, Whole, Rooted, Real, PageTables.Shape, Bits.ClearSet, PageTables.Flat, SameFrames;
      hide NoGarbage, Reaped, InstallAll, Breaks, Installable, Payload, Untouched, Stranded;
      UntouchedSelf(vmm.tables, vmm.places, RootOf(pid));
      ghost var s, m := sys, Memory([]);
      SameFramesSelf(m);
      ParkedOk(s, pid, id);
      if sys.queues[p] == [] {
        ParkSound(s, s.parked[pid := p]);
        sys := sys.(parked := sys.parked[pid := p]);
        return Blocked, false;
      }
      ParkSound(s, s.parked - {pid});
      sys := sys.(parked := sys.parked - {pid});
      var code, va, regs, ids;
      code, va, regs, ids, broken := Deliver(pid, p, out);
      r := Done(code, va, regs, ids);
    }

    /** `ipc_recv`: take the message at the head of the port's queue, or park. */
    method SysRecv(pid: nat, id: int, out: Option<RecvOut>) returns (r: Received, broken: bool)
      requires Valid() && pid in sys.tables && pid !in sys.parked
      modifies `sys, vmm`tables, vmm`places, vmm.pmm`nextHint, vmm.pmm`freeFrames, vmm.pmm.bitmap
      ensures RecvEffect(RecvPort(old(sys), pid, id, out), pid, out, old(sys), old(vmm.State()), old(FlatOf(pid)), r,
                sys, FlatOf(pid), RootOf(pid))
      ensures broken <==> RecvBreaks(RecvPort(old(sys), pid, id, out), out, old(sys), old(vmm.State()), RootOf(pid))
      // Who parks or takes a message holds the right to receive on that port.
      ensures r.Blocked? || sys != old(sys) ==>
                exists p ::
                  && TokenAt(old(sys), [], InTable(pid, id)) == Some(Receiver(p))
                  && (r.Blocked? ==> pid in sys.parked && sys.parked[pid] == p)
      ensures Sound(sys, []) && NoGarbage(sys, [])
      ensures if broken then vmm.Valid() && !Exclusive(Memory([]))
              else Valid() && SameFrames(old(Memory([])), Memory([]))
      ensures Untouched(old(vmm.tables), old(vmm.places), vmm.tables, RootOf(pid))
    {
      hide Sound, Exclusive, Whole, Rooted, Real, PageTables.Shape, Bits.ClearSet, PageTables.Flat, SameFrames;
      hide NoGarbage, Reaped, InstallAll, Breaks, Installable, Payload, Untouched, Stranded;
      UntouchedSelf(vmm.tables, vmm.places, RootOf(pid));
      SameFramesSelf(Memory([]));
      if out.None? {
        return Done(EFAULT, 0, [], []), false;
      }
      var slots := sys.tables[pid].slots;
      if id !in slots {
        return Done(EBADF, 0, [], []), false;
      }
      if !slots[id].rights.recv {
        return Done(EPERM, 0, [], []), false;
      }
      if !slots[id].target.Port? {
        return Done(EINVAL, 0, [], []), false;
      }
      SlotLive(sys, pid, id);
      RecvCases(sys, pid, id, out);
      r, broken := Take(pid, id, slots[id].target.port, out.value);
    }

    /** A woken receiver looks at the queue again. */
    method ResumeRecv(pid: nat, out: RecvOut) returns (r: Received, broken: bool)
      requires Valid() && pid in sys.parked
      modifies `sys, vmm`tables, vmm`places, vmm.pmm`nextHint, vmm.pmm`freeFrames, vmm.pmm.bitmap
      ensures pid in old(sys.tables)
      ensures RecvEffect(Ok(old(sys.parked)[pid]), pid, Some(out), old(sys), old(vmm.State()), old(FlatOf(pid)), r,
                sys, FlatOf(pid), RootOf(pid))
      ensures broken <==> RecvBreaks(Ok(old(sys.parked)[pid]), Some(out), old(sys), old(vmm.State()), RootOf(pid))
      ensures exists id :: TokenAt(old(sys), [], InTable(pid, id)) == Some(Receiver(old(sys.parked)[pid]))
      ensures Sound(sys, []) && NoGarbage(sys, [])
      ensures if broken then vmm.Valid() && !Exclusive(Memory([]))
              else Valid() && SameFrames(old(Memory([])), Memory([]))
      ensures Untouched(old(vmm.tables), old(vmm.places), vmm.tables, RootOf(pid))
    {
      hide Sound, Exclusive, Whole, Rooted, Real, PageTables.Shape, Bits.ClearSet, PageTables.Flat, SameFrames;
      hide NoGarbage, RecvEffect, RecvBreaks, Untouched;
      ghost var id := ParkedSlot(sys, pid);
      assert TokenAt(sys, [], InTable(pid, id)) == Some(Receiver(sys.parked[pid]));
      SlotLive(sys, pid, id);
      r, broken := Take(pid, id, sys.parked[pid], out);
    }

    /** A running task stores bytes through its own mappings, up to the first page it does not have. */
    method UserStore(pid: nat, va: nat, bytes: seq<byte>) returns (ghost done: nat)
      requires Valid() && pid in sys.tables && pid !in sys.parked && va + |bytes| <= V.USER_TOP
      modifies vmm`pages
      ensures Valid() && Memory([]) == old(Memory([])) && done <= |bytes|
      ensures pid !in spaces ==> done == 0 && vmm.pages == old(vmm.pages)
      ensures pid in spaces ==>
                && V.Written(vmm.Space(spaces[pid]), old(vmm.pages), vmm.pages, va, bytes[..done])
                && (done < |bytes| ==> V.PageNo(va + done) !in vmm.Space(spaces[pid]))
    {
      hide Sound, Exclusive, Whole, Rooted, Real, PageTables.Shape, Bits.ClearSet, PageTables.Flat, NoGarbage;
      hide V.Written;
      done := 0;
      if pid in spaces {
        TaskRoot(spaces, vmm.places, pid);
        OwnFrames(Memory([]), spaces[pid]);
        var r;
        r, done := vmm.CopyToUser(spaces[pid], va, bytes);
      }
    }

    method NewSpace() returns (root: Option<nat>)
      requires Mid([], [])
      modifies vmm`tables, vmm`places, vmm.pmm`nextHint, vmm.pmm`freeFrames, vmm.pmm.bitmap
      ensures Mid([], []) && LostOnly(old(Memory([])), Memory([]), {})
      ensures root.None? <==> old(vmm.pmm.Free()) == {}
      ensures root.Some? ==>
                && PageTables.IsRoot(vmm.places, root.value) && R.FreshRoot(vmm.State(), root.value)
                && |vmm.pmm.Free()| == |old(vmm.pmm.Free())| - 1 && root.value !in old(vmm.places)
      ensures Untouched(old(vmm.tables), old(vmm.places), vmm.tables, None) && RootsKept(old(vmm.places), vmm.places)
      ensures vmm.pmm.Free() <= old(vmm.pmm.Free())
    {
      hide Sound, Exclusive, Whole, Rooted, Real, PageTables.Shape, Bits.ClearSet, PageTables.Flat, LostOnly;
      hide PageTables.SameSpaces, SameFrames;
      ghost var m := Memory([]);
      LostSelf(m);
      ShapeKeys(vmm.tables, vmm.places, vmm.kernel);
      root := vmm.NewUser();
      UntouchedSpaces(m.state.tables, m.state.places, vmm.tables);
      if root.Some? {
        NewUserMoves(m, vmm.State(), root.value);
        LostSame(m, Memory([]));
        RealSame(m, Memory([]), vmm.pmm.totalPfns);
        RootedGrows(spaces, m.state.places, root.value);
      }
    }

    method AnonRange(root: nat, range: R.Range) returns (done: bool, ghost lost: set<nat>, ghost n: nat)
      requires Mid([], []) && PageTables.IsRoot(vmm.places, root) && R.UserRange(range)
      modifies vmm`tables, vmm`places, vmm`pages, vmm.pmm`nextHint, vmm.pmm`freeFrames, vmm.pmm.bitmap
      ensures Mid([], []) && LostOnly(old(Memory([])), Memory([]), lost) && |lost| <= 1
      ensures PageTables.IsRoot(vmm.places, root)
      ensures Untouched(old(vmm.tables), old(vmm.places), vmm.tables, Some(root))
      ensures RootsKept(old(vmm.places), vmm.places)
      ensures vmm.pmm.Free() <= old(vmm.pmm.Free()) && Unwritten(old(vmm.pages), vmm.pages, old(vmm.pmm.Free()))
      ensures n <= range.count && (done <==> n == range.count)
      ensures V.MostReached(old(vmm.State()), root, V.Vas(range.virt, range.count), n)
      ensures lost == {} <==> done || V.Spare(old(vmm.State()), root, V.Vas(range.virt, range.count), n) == 0
      ensures done ==>
                && V.AnonDone(old(vmm.State()), vmm.State(), root, V.Vas(range.virt, range.count))
                && V.Reach(old(vmm.State()), root, V.Vas(range.virt, range.count), range.count)
    {
      hide Sound, Exclusive, Whole, Rooted, Real, PageTables.Shape, Bits.ClearSet, PageTables.Flat, LostOnly;
      hide V.AnonKept, V.Handed, V.Vacant, V.Distinct, V.PageSet, V.Slack, V.Cleared, V.Aligned, V.PageNo;
      hide V.Reach, V.AnonDone, V.Spare, V.Vas, Untouched, Unwritten, RootsKept;
      ghost var m, pages := Memory([]), vmm.pages;
      var r;
      ghost var mapped;
      r, mapped, lost := vmm.MapAnon(root, range.virt, range.count, range.flags);
      AnonMoves(m, vmm.State(), root, V.PageNo(range.virt), mapped, lost, range.flags);
      AnonRooted(spaces, m.state, vmm.State(), root, V.PageSet(mapped) + lost);
      AnonUntouched(m.state, vmm.State(), root, V.PageSet(mapped) + lost, pages, vmm.pages);
      LostReal(m, Memory([]), lost, vmm.pmm.totalPfns);
      done, n := r.Ok?, |mapped|;
    }

    /** Start a task in a fresh address space: every range in turn, its stack last. If one cannot
        be mapped the address space is abandoned, and a frame is lost unless none was left. `init`
        is the first task, which gets the registrar. */
    method Spawn(pid: nat, ranges: seq<R.Range>, init: bool) returns (ok: bool, ghost lost: set<nat>)
      requires Valid() && pid !in sys.tables && pid !in spaces && (init ==> sys.tables == map[] && sys.queues == map[])
      requires forall i :: 0 <= i < |ranges| ==> R.UserRange(ranges[i])
      modifies `sys, `spaces, vmm`tables, vmm`places, vmm`pages, vmm.pmm`nextHint, vmm.pmm`freeFrames, vmm.pmm.bitmap
      ensures Valid() && LostOnly(old(Memory([])), Memory([]), lost) && |lost| <= 1
      ensures ok <==> Startable(|old(vmm.pmm.Free())|, ranges)
      ensures lost == {} <==> ok || StopsDry(|old(vmm.pmm.Free())|, ranges)
      ensures if ok then
                && sys == old(sys).(tables := old(sys.tables)[pid := NewTable(init)])
                && sys.tables[pid] == (if init then Table(map[1 := Cap(Registrar, Rights(false, false, false))], 2)
                                       else Table(map[], 1))
                && pid in spaces && spaces == old(spaces)[pid := spaces[pid]]
              else sys == old(sys) && spaces == old(spaces)
      ensures Untouched(old(vmm.tables), old(vmm.places), vmm.tables, None)
      ensures Unwritten(old(vmm.pages), vmm.pages, old(vmm.pmm.Free()))
    {
      hide Sound, Exclusive, Whole, Rooted, Real, PageTables.Shape, Bits.ClearSet, PageTables.Flat, NoGarbage, LostOnly;
      hide PageTables.SameSpaces, Untouched, Unwritten;
      hide R.Sofar, R.AllVas, V.Reach, V.AnonDone, V.Spare, V.Vas, V.MostReached, R.FreshRoot, Startable, StopsDry;
      ghost var m, free, vm := Memory([]), |vmm.pmm.Free()|, vmm.State();
      UnwrittenSelf(vmm.pages, vm.free);
      lost := {};
      LostSelf(m);
      var root := NewSpace();
      if root.None? {
        NoFrameLeft(ranges);
        return false, lost;
      }
      ghost var s1 := vmm.State();
      R.AllInUser(ranges);
      R.SofarNone(s1, root.value, ranges);
      for i := 0 to |ranges|
        invariant sys == old(sys) && spaces == old(spaces) && Mid([], []) && NoGarbage(sys, [])
        invariant LostOnly(m, Memory([]), {}) && PageTables.IsRoot(vmm.places, root.value)
        invariant R.Sofar(s1, vmm.State(), root.value, ranges, i)
        invariant Untouched(vm.tables, vm.places, vmm.tables, None) && RootsKept(vm.places, vmm.places)
        invariant vmm.pmm.Free() <= vm.free && Unwritten(old(vmm.pages), vmm.pages, vm.free)
      {
        ghost var m1, s2, pages := Memory([]), vmm.State(), vmm.pages;
        var done;
        ghost var n;
        done, lost, n := AnonRange(root.value, ranges[i]);
        UntouchedNew(vm.tables, vm.places, s2, vmm.State(), root.value);
        UnwrittenBoth(old(vmm.pages), pages, vmm.pages, vm.free, s2.free);
        LostMore(m, m1, Memory([]), lost);
        if !done {
          StartStops(s1, s2, root.value, ranges, i, n);
          return false, lost;
        }
        R.SofarStep(s1, s2, vmm.State(), root.value, ranges, i);
      }
      StartsAll(s1, vmm.State(), root.value, ranges);
      ghost var s := sys;
      if init {
        InitSound(s, pid);
        assert map[][pid := NewTable(true)] == map[pid := NewTable(true)];
      } else {
        SpawnSound(s, pid);
      }
      sys := sys.(tables := sys.tables[pid := NewTable(init)]);
      RootedNew(spaces, vm.places, vmm.places, pid, root.value);
      spaces := spaces[pid := root.value];
      return true, {};
    }
  }

  /** Task 1 may send on port 0, whose queue is full, and may receive on port 1. */
  ghost function FullPort(): (s: Sys) {
    Sys(map[1 := Table(map[1 := Cap(Port(0), Rights(true, false, false)),
        2 := Cap(Port(1), Rights(false, true, false))], 3)],
        map[0 := seq(MAX_IN_FLIGHT, _ => Message([], [], [], 0)), 1 := []], map[], 2, map[])
  }

  lemma FullPortCaps(a: Slot)
    ensures CapAt(FullPort(), [], a) ==
            if a == InTable(1, 1) then Some(Cap(Port(0), Rights(true, false, false)))
            else if a == InTable(1, 2) then Some(Cap(Port(1), Rights(false, true, false)))
            else None
  {
  }

  lemma FullPortSound()
    ensures Sound(FullPort(), []) && NoGarbage(FullPort(), [])
  {
    hide CapAt;
    forall a
      ensures CapAt(FullPort(), [], a) ==
              if a == InTable(1, 1) then Some(Cap(Port(0), Rights(true, false, false)))
              else if a == InTable(1, 2) then Some(Cap(Port(1), Rights(false, true, false)))
              else None
    {
      FullPortCaps(a);
    }
    assert CapAt(FullPort(), [], InTable(1, 1)).Some? && CapAt(FullPort(), [], InTable(1, 2)).Some?;
  }

  lemma FullPortSend()
    ensures Refusal(FullPort(), 1, 1, Some(SendMsg([], false, [2], 0, 0))) == 0
    ensures PayloadResult(FullPort(), 0, SendMsg([], false, [2], 0, 0), None) == EAGAIN
  {
  }

  lemma FullPortTokens()
    ensures forall a :: TokenAt(FullPort(), [], a) == Some(Receiver(1)) <==> a == InTable(1, 2)
    ensures forall a :: TokenAt(Without(FullPort(), 1, [2]), [], a) != Some(Receiver(1))
  {
  }

  /** What is left of the capabilities when ports go away. */
  lemma ReapedSlot(s: Sys, s': Sys, a: Slot)
    requires Reaped(s, s')
    ensures CapAt(s', [], a).None? || CapAt(s', [], a) == CapAt(s, [], a)
  {
    hide Closable, NoGarbage;
    var ports :| Closable(s, ports) && s' == CloseAll(s, ports);
    CloseAllKeeps(s, ports);
    hide CloseAll;
  }

  /** Sending the right to receive on a full queue returns EAGAIN, and the right is nowhere any more. */
  lemma RightLost(s': Sys)
    requires SendEffect(EAGAIN, FullPort(), s', 1, 1, SendMsg([], false, [2], 0, 0), None, None)
    ensures Sound(FullPort(), []) && NoGarbage(FullPort(), [])
    ensures Refusal(FullPort(), 1, 1, Some(SendMsg([], false, [2], 0, 0))) == 0
    ensures PayloadResult(FullPort(), 0, SendMsg([], false, [2], 0, 0), None) == EAGAIN
    ensures forall a :: TokenAt(FullPort(), [], a) == Some(Receiver(1)) <==> a == InTable(1, 2)
    ensures forall a :: TokenAt(s', [], a) != Some(Receiver(1))
  {
    hide Reaped, Collect, InstallAll, CapAt, PayloadResult, Refusal, Without;
    FullPortSound();
    FullPortSend();
    FullPortTokens();
    var s1 := Without(FullPort(), 1, [2]);
    assert Reaped(s1, s');
    hide FullPort;
    forall a ensures TokenAt(s', [], a) != Some(Receiver(1)) {
      ReapedSlot(s1, s', a);
      assert TokenAt(s1, [], a) != Some(Receiver(1));
    }
  }

  /** Installing capabilities in a row gives each its own id and leaves the other slots and tables alone. */
  lemma {:induction false} Installed(s: Sys, pid: nat, caps: seq<Cap>)
    requires pid in s.tables
    ensures var s' := InstallAll(s, pid, caps); var ids := NextIds(s.tables[pid].next, |caps|);
            && s' == s.(tables := s'.tables) && s'.tables == s.tables[pid := s'.tables[pid]]
            && s'.tables[pid].next == s.tables[pid].next + |caps|
            && (forall k :: 0 <= k < |caps| ==>
                   ids[k] in s'.tables[pid].slots && s'.tables[pid].slots[ids[k]] == caps[k])
            && forall id :: id !in ids ==>
                 && (id in s'.tables[pid].slots <==> id in s.tables[pid].slots)
                 && (id in s.tables[pid].slots ==> s'.tables[pid].slots[id] == s.tables[pid].slots[id])
    decreases |caps|
  {
    if caps != [] {
      var n := |caps| - 1;
      Installed(s, pid, caps[..n]);
      var ids, ids' := NextIds(s.tables[pid].next, n), NextIds(s.tables[pid].next, |caps|);
      assert ids' == ids + [s.tables[pid].next + n];
      var t1, t2 := InstallAll(s, pid, caps[..n]).tables, InstallAll(s, pid, caps).tables;
      assert t2 == t1[pid := Table(t1[pid].slots[s.tables[pid].next + n := caps[n]], s.tables[pid].next + |caps|)];
      assert t2 == s.tables[pid := t2[pid]];
      hide InstallAll, NextIds;
      forall k | 0 <= k < |caps|
        ensures ids'[k] in InstallAll(s, pid, caps).tables[pid].slots
        ensures InstallAll(s, pid, caps).tables[pid].slots[ids'[k]] == caps[k]
      {
        if k < n {
          assert ids[k] == ids'[k] && caps[..n][k] == caps[k];
        }
      }
    }
  }
}
