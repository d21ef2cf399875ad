/** Capabilities: what tables, queues and names hold, and the invariant that receive rights and
    the registrar are never duplicated (kernel/src/ipc: cap.rs, cap_table.rs, port.rs, registry.rs). */
module Caps {
  import opened Prelude

  const MAX_IN_FLIGHT: nat := 16
  const MAX_CAPS: nat := 8

  datatype Rights = Rights(send: bool, recv: bool, dup: bool)

  datatype Target = Port(port: nat) | Vm | Registrar

  datatype Cap = Cap(target: Target, rights: Rights)

  /** `pages` are physical addresses of frames the message owns. */
  datatype Message = Message(regs: seq<u64>, caps: seq<Cap>, pages: seq<nat>, len: nat)

  /** A task's capability table. */
  datatype Table = Table(slots: map<int, Cap>, next: int)

  /** All capability state: tables by task, queues by live port, the name registry, and the
      port each task parked in a receive waits on. */
  datatype Sys = Sys(tables: map<nat, Table>, queues: map<nat, seq<Message>>, names: map<seq<byte>, nat>,
      nextPort: nat, parked: map<nat, nat>)

  // ---------------------------------------------------------------------
  // Where capabilities are

  /** A place that can hold a capability: a table slot, a queued message, or the hands of the
      running system call. */
  datatype Slot = InTable(pid: nat, id: int) | InQueue(port: nat, i: nat, j: nat) | InHand(k: nat)

  ghost function CapAt(s: Sys, hand: seq<Cap>, a: Slot): (c: Option<Cap>) {
    match a
    case InTable(pid, id) => if pid in s.tables && id in s.tables[pid].slots then Some(s.tables[pid].slots[id])
        else None
    case InQueue(p, i, j) => if p in s.queues && i < |s.queues[p]|
        && j < |s.queues[p][i].caps| then Some(s.queues[p][i].caps[j]) else None
    case InHand(k) => if k < |hand| then Some(hand[k]) else None
  }

  /** What may exist only once: the right to receive on a port, and the registrar. */
  datatype Token = Receiver(port: nat) | TheRegistrar

  function TokenOf(c: Cap): (t: Option<Token>) {
    match c.target
    case Port(p) => if c.rights.recv then Some(Receiver(p)) else None
    case Vm => None
    case Registrar => Some(TheRegistrar)
  }

  ghost function TokenAt(s: Sys, hand: seq<Cap>, a: Slot): (t: Option<Token>) {
    var c := CapAt(s, hand, a);
    if c.Some? then TokenOf(c.value) else None
  }

  /** Over all tables, all queued messages and the running call: no token is held twice. */
  ghost predicate Unique(s: Sys, hand: seq<Cap>) {
    forall a, b :: TokenAt(s, hand, a).Some? && TokenAt(s, hand, a) == TokenAt(s, hand, b) ==> a == b
  }

  /** Every port that is named anywhere is live. */
  ghost predicate Live(s: Sys, hand: seq<Cap>) {
    && (forall a :: CapAt(s, hand, a).Some? && CapAt(s, hand, a).value.target.Port? ==>
           CapAt(s, hand, a).value.target.port in s.queues)
    && (forall n :: n in s.names ==> s.names[n] in s.queues)
    && (forall p :: p in s.queues ==> p < s.nextPort)
  }

  ghost predicate Bounded(s: Sys) {
    && (forall t, id :: t in s.tables && id in s.tables[t].slots ==> 1 <= id < s.tables[t].next)
    && (forall t :: t in s.tables ==> s.tables[t].next >= 1)
    && (forall p :: p in s.queues ==> |s.queues[p]| <= MAX_IN_FLIGHT)
    && (forall p, i :: p in s.queues && 0 <= i < |s.queues[p]| ==> |s.queues[p][i].caps| <= MAX_CAPS)
  }

  ghost predicate Holds(t: Table, p: nat) {
    exists id :: id in t.slots && TokenOf(t.slots[id]) == Some(Receiver(p))
  }

  /** A task parked in a receive still has the right to receive on the port it waits on. */
  ghost predicate Waiting(s: Sys) {
    forall t :: t in s.parked ==> t in s.tables && Holds(s.tables[t], s.parked[t])
  }

  ghost predicate Sound(s: Sys, hand: seq<Cap>) {
    Unique(s, hand) && Live(s, hand) && Bounded(s) && Waiting(s)
  }

  /** A capability or a name refers to port p. */
  ghost predicate Refers(s: Sys, hand: seq<Cap>, p: nat) {
    || (exists a :: CapAt(s, hand, a).Some? && CapAt(s, hand, a).value.target == Port(p))
    || p in s.names.Values
  }

  /** Ports nothing refers to are gone. */
  ghost predicate NoGarbage(s: Sys, hand: seq<Cap>) {
    forall p :: p in s.queues ==> Refers(s, hand, p)
  }

  // ---------------------------------------------------------------------
  // Steps

  function Install(s: Sys, pid: nat, c: Cap): (s': Sys)
    requires pid in s.tables
  {
    var t := s.tables[pid];
    s.(tables := s.tables[pid := Table(t.slots[t.next := c], t.next + 1)])
  }

  function Remove(s: Sys, pid: nat, id: int): (s': Sys)
    requires pid in s.tables
  {
    var t := s.tables[pid];
    s.(tables := s.tables[pid := Table(t.slots - {id}, t.next)])
  }

  function Push(s: Sys, p: nat, m: Message): (s': Sys)
    requires p in s.queues
  {
    s.(queues := s.queues[p := s.queues[p] + [m]])
  }

  function Pop(s: Sys, p: nat): (s': Sys)
    requires p in s.queues && s.queues[p] != []
  {
    s.(queues := s.queues[p := s.queues[p][1..]])
  }

  function NewPort(s: Sys): (s': Sys) {
    s.(queues := s.queues[s.nextPort := []], nextPort := s.nextPort + 1)
  }

  function ClosePort(s: Sys, p: nat): (s': Sys) {
    s.(queues := s.queues - {p})
  }

  /** Tokens that can be traced back to distinct slots stay unique. */
  lemma Transport(s: Sys, hand: seq<Cap>, s': Sys, hand': seq<Cap>, back: Slot -> Slot)
    requires Unique(s, hand)
    requires forall a :: TokenAt(s', hand', a).Some? ==> TokenAt(s, hand, back(a)) == TokenAt(s', hand', a)
    requires forall a, b :: TokenAt(s', hand', a).Some? && TokenAt(s', hand', b).Some? && back(a) == back(b) ==> a == b
    ensures Unique(s', hand')
  {
    forall a, b | TokenAt(s', hand', a).Some? && TokenAt(s', hand', a) == TokenAt(s', hand', b) ensures a == b {
      assert TokenAt(s, hand, back(a)) == TokenAt(s, hand, back(b));
    }
  }

  /** Capabilities that move one to one keep every port referred to. */
  lemma Carry(s: Sys, hand: seq<Cap>, s': Sys, hand': seq<Cap>, forth: Slot -> Slot)
    requires NoGarbage(s, hand) && s'.queues.Keys == s.queues.Keys && s'.names == s.names
    requires forall a :: CapAt(s, hand, a).Some? ==> CapAt(s', hand', forth(a)) == CapAt(s, hand, a)
    ensures NoGarbage(s', hand')
  {
    hide CapAt;
    forall p | p in s'.queues ensures Refers(s', hand', p) {
      assert Refers(s, hand, p);
      if a :| CapAt(s, hand, a).Some? && CapAt(s, hand, a).value.target == Port(p) {
        assert CapAt(s', hand', forth(a)).value.target == Port(p);
      }
    }
  }

  ghost function RemoveBack(pid: nat, id: int, n: nat, a: Slot): Slot {
    if a == InHand(n) then InTable(pid, id) else a
  }

  ghost function RemoveForth(pid: nat, id: int, n: nat, a: Slot): Slot {
    if a == InTable(pid, id) then InHand(n) else a
  }

  lemma RemoveSlot(s: Sys, hand: seq<Cap>, pid: nat, id: int, a: Slot)
    requires pid in s.tables && id in s.tables[pid].slots
    ensures var s', hand', n := Remove(s, pid, id), hand + [s.tables[pid].slots[id]], |hand|;
            && CapAt(s', hand', a) == (if a == InTable(pid, id) then None
                 else CapAt(s, hand, RemoveBack(pid, id, n, a)))
            && (CapAt(s, hand, a).Some? ==> CapAt(s', hand', RemoveForth(pid, id, n, a)) == CapAt(s, hand, a))
  {
  }

  /** Taking a capability out of a table, into the hands of the call. */
  lemma RemoveSound(s: Sys, hand: seq<Cap>, pid: nat, id: int)
    requires Sound(s, hand) && pid in s.tables && pid !in s.parked && id in s.tables[pid].slots
    ensures Sound(Remove(s, pid, id), hand + [s.tables[pid].slots[id]])
    ensures NoGarbage(s, hand) ==> NoGarbage(Remove(s, pid, id), hand + [s.tables[pid].slots[id]])
  {
    var s', hand', n := Remove(s, pid, id), hand + [s.tables[pid].slots[id]], |hand|;
    hide CapAt;
    forall a
      ensures CapAt(s', hand', a) == (if a == InTable(pid, id) then None else CapAt(s, hand, RemoveBack(pid, id, n, a)))
      ensures (CapAt(s, hand, a).Some? ==> CapAt(s', hand', RemoveForth(pid, id, n, a)) == CapAt(s, hand, a))
    {
      RemoveSlot(s, hand, pid, id, a);
    }
    Transport(s, hand, s', hand', a => RemoveBack(pid, id, n, a));
    if NoGarbage(s, hand) {
      Carry(s, hand, s', hand', a => RemoveForth(pid, id, n, a));
    }
  }

  lemma InstallWaiting(s: Sys, pid: nat, c: Cap)
    requires Waiting(s) && pid in s.tables && Bounded(s)
    ensures Waiting(Install(s, pid, c))
  {
    var s' := Install(s, pid, c);
    forall t | t in s'.parked ensures t in s'.tables && Holds(s'.tables[t], s'.parked[t]) {
      assert Holds(s.tables[t], s.parked[t]);
      var id :| id in s.tables[t].slots && TokenOf(s.tables[t].slots[id]) == Some(Receiver(s.parked[t]));
      assert id in s'.tables[t].slots && TokenOf(s'.tables[t].slots[id]) == Some(Receiver(s.parked[t]));
    }
  }

  lemma InstallBounded(s: Sys, pid: nat, c: Cap)
    requires Bounded(s) && pid in s.tables
    ensures Bounded(Install(s, pid, c))
  {
  }

  ghost function InstallBack(pid: nat, id: int, a: Slot): Slot {
    if a == InTable(pid, id) then InHand(0) else if a.InHand? then InHand(a.k + 1) else a
  }

  ghost function InstallForth(pid: nat, id: int, a: Slot): Slot {
    if a == InHand(0) then InTable(pid, id) else if a.InHand? then InHand(a.k - 1) else a
  }

  lemma InstallSlot(s: Sys, hand: seq<Cap>, pid: nat, a: Slot)
    requires Bounded(s) && pid in s.tables && hand != []
    ensures var s', id := Install(s, pid, hand[0]), s.tables[pid].next;
            && CapAt(s', hand[1..], a) == CapAt(s, hand, InstallBack(pid, id, a))
            && (CapAt(s, hand, a).Some? ==> CapAt(s', hand[1..], InstallForth(pid, id, a)) == CapAt(s, hand, a))
  {
  }

  /** Installing the first capability in hand under a fresh id. */
  lemma InstallSound(s: Sys, hand: seq<Cap>, pid: nat)
    requires Sound(s, hand) && pid in s.tables && hand != []
    ensures Sound(Install(s, pid, hand[0]), hand[1..])
    ensures NoGarbage(s, hand) ==> NoGarbage(Install(s, pid, hand[0]), hand[1..])
  {
    var s', hand', id := Install(s, pid, hand[0]), hand[1..], s.tables[pid].next;
    InstallWaiting(s, pid, hand[0]);
    InstallBounded(s, pid, hand[0]);
    hide CapAt, Waiting, Bounded;
    forall a
      ensures CapAt(s', hand', a) == CapAt(s, hand, InstallBack(pid, id, a))
      ensures (CapAt(s, hand, a).Some? ==> CapAt(s', hand', InstallForth(pid, id, a)) == CapAt(s, hand, a))
    {
      InstallSlot(s, hand, pid, a);
    }
    Transport(s, hand, s', hand', a => InstallBack(pid, id, a));
    if NoGarbage(s, hand) {
      Carry(s, hand, s', hand', a => InstallForth(pid, id, a));
    }
  }

  /** Letting go of what is in hand. */
  lemma DropSound(s: Sys, hand: seq<Cap>)
    requires Sound(s, hand)
    ensures Sound(s, [])
  {
    forall a ensures CapAt(s, [], a) == if a.InHand? then None else CapAt(s, hand, a) {
    }
    hide CapAt;
    Transport(s, hand, s, [], a => a);
  }

  ghost function PushBack(p: nat, n: nat, a: Slot): Slot {
    if a.InQueue? && a.port == p && a.i == n then InHand(a.j) else a
  }

  ghost function PushForth(p: nat, n: nat, a: Slot): Slot {
    if a.InHand? then InQueue(p, n, a.k) else a
  }

  lemma PushSlot(s: Sys, p: nat, m: Message, a: Slot)
    requires p in s.queues
    ensures var s', n := Push(s, p, m), |s.queues[p]|;
            && CapAt(s', [], a) == (if a.InHand? then None else CapAt(s, m.caps, PushBack(p, n, a)))
            && (CapAt(s, m.caps, a).Some? ==> CapAt(s', [], PushForth(p, n, a)) == CapAt(s, m.caps, a))
  {
  }

  lemma PushBounded(s: Sys, p: nat, m: Message)
    requires Bounded(s) && p in s.queues && |s.queues[p]| < MAX_IN_FLIGHT && |m.caps| <= MAX_CAPS
    ensures Bounded(Push(s, p, m))
  {
  }

  /** Everything in hand goes into a message at the tail of a queue. */
  lemma PushSound(s: Sys, p: nat, m: Message)
    requires Sound(s, m.caps) && p in s.queues && |s.queues[p]| < MAX_IN_FLIGHT && |m.caps| <= MAX_CAPS
    ensures Sound(Push(s, p, m), [])
    ensures NoGarbage(s, m.caps) ==> NoGarbage(Push(s, p, m), [])
  {
    hide Bounded, CapAt;
    var s', n := Push(s, p, m), |s.queues[p]|;
    PushBounded(s, p, m);
    forall a
      ensures CapAt(s', [], a) == (if a.InHand? then None else CapAt(s, m.caps, PushBack(p, n, a)))
      ensures (CapAt(s, m.caps, a).Some? ==> CapAt(s', [], PushForth(p, n, a)) == CapAt(s, m.caps, a))
    {
      PushSlot(s, p, m, a);
    }
    Transport(s, m.caps, s', [], a => PushBack(p, n, a));
    if NoGarbage(s, m.caps) {
      Carry(s, m.caps, s', [], a => PushForth(p, n, a));
    }
  }

  lemma PopBounded(s: Sys, p: nat)
    requires Bounded(s) && p in s.queues && s.queues[p] != []
    ensures Bounded(Pop(s, p))
  {
  }

  /** Where the capability in a slot was before the head of queue p was taken, and where it goes. */
  ghost function PopBack(p: nat, a: Slot): Slot {
    if a.InHand? then InQueue(p, 0, a.k) else if a.InQueue? && a.port == p then InQueue(p, a.i + 1, a.j) else a
  }

  ghost function PopForth(p: nat, a: Slot): Slot {
    if a.InQueue? && a.port == p then (if a.i == 0 then InHand(a.j) else InQueue(p, a.i - 1, a.j)) else a
  }

  lemma PopSlot(s: Sys, p: nat, a: Slot)
    requires p in s.queues && s.queues[p] != []
    ensures CapAt(Pop(s, p), s.queues[p][0].caps, a) == CapAt(s, [], PopBack(p, a))
    ensures CapAt(s, [], a).Some? ==> CapAt(Pop(s, p), s.queues[p][0].caps, PopForth(p, a)) == CapAt(s, [], a)
  {
  }

  /** The message at the head of a queue comes into hand. */
  lemma PopSound(s: Sys, p: nat)
    requires Sound(s, []) && p in s.queues && s.queues[p] != []
    ensures Sound(Pop(s, p), s.queues[p][0].caps)
    ensures NoGarbage(s, []) ==> NoGarbage(Pop(s, p), s.queues[p][0].caps)
  {
    hide Bounded, CapAt;
    var s', hand := Pop(s, p), s.queues[p][0].caps;
    PopBounded(s, p);
    forall a
      ensures CapAt(s', hand, a) == CapAt(s, [], PopBack(p, a))
      ensures (CapAt(s, [], a).Some? ==> CapAt(s', hand, PopForth(p, a)) == CapAt(s, [], a))
    {
      PopSlot(s, p, a);
    }
    Transport(s, [], s', hand, a => PopBack(p, a));
    if NoGarbage(s, []) {
      Carry(s, [], s', hand, a => PopForth(p, a));
    }
  }

  /** A capability without a token may be made at will. */
  lemma GrantSound(s: Sys, c: Cap)
    requires Sound(s, []) && TokenOf(c).None? && (c.target.Port? ==> c.target.port in s.queues)
    ensures Sound(s, [c])
    ensures NoGarbage(s, []) ==> NoGarbage(s, [c])
  {
    forall a ensures CapAt(s, [c], a) == if a == InHand(0) then Some(c) else CapAt(s, [], a) {
    }
    hide CapAt;
    Transport(s, [], s, [c], a => a);
    if NoGarbage(s, []) {
      Carry(s, [], s, [c], a => a);
    }
  }

  /** The receive right of a new port is the first one for that port. */
  lemma NewPortSound(s: Sys, rights: Rights)
    requires Sound(s, [])
    ensures Sound(NewPort(s), [Cap(Port(s.nextPort), rights)])
    ensures NoGarbage(s, []) ==> NoGarbage(NewPort(s), [Cap(Port(s.nextPort), rights)])
  {
    var s', c := NewPort(s), Cap(Port(s.nextPort), rights);
    forall a ensures CapAt(s', [c], a) == if a == InHand(0) then Some(c) else CapAt(s, [], a) {
    }
    hide CapAt;
    forall a ensures TokenAt(s, [], a) != Some(Receiver(s.nextPort)) {
    }
    forall a, b | TokenAt(s', [c], a).Some? && TokenAt(s', [c], a) == TokenAt(s', [c], b) ensures a == b {
      assert TokenAt(s', [c], a) == if a == InHand(0) then TokenOf(c) else TokenAt(s, [], a);
      assert TokenAt(s', [c], b) == if b == InHand(0) then TokenOf(c) else TokenAt(s, [], b);
    }
    if NoGarbage(s, []) {
      forall p | p in s'.queues ensures Refers(s', [c], p) {
        if p == s.nextPort {
          assert CapAt(s', [c], InHand(0)).value.target == Port(p);
        } else {
          assert Refers(s, [], p);
        }
      }
    }
  }

  /** A port some capability or name still refers to. */
  predicate Named(s: Sys, p: nat) {
    || (exists t, id :: t in s.tables && id in s.tables[t].slots && s.tables[t].slots[id].target == Port(p))
    || (exists q, i, j ::
          && q in s.queues && 0 <= i < |s.queues[q]| && 0 <= j < |s.queues[q][i].caps|
          && s.queues[q][i].caps[j].target == Port(p))
    || p in s.names.Values
  }

  lemma NamedRefers(s: Sys, p: nat)
    ensures Named(s, p) <==> Refers(s, [], p)
  {
    if Named(s, p) && p !in s.names.Values {
      if t, id :| t in s.tables && id in s.tables[t].slots && s.tables[t].slots[id].target == Port(p) {
        assert CapAt(s, [], InTable(t, id)).value.target == Port(p);
      } else {
        var q, i, j :| q in s.queues && 0 <= i < |s.queues[q]| && 0 <= j < |s.queues[q][i].caps|
            && s.queues[q][i].caps[j].target == Port(p);
        assert CapAt(s, [], InQueue(q, i, j)).value.target == Port(p);
      }
    }
  }

  /** A port nothing refers to goes away with its messages. */
  lemma CloseSound(s: Sys, p: nat)
    requires Sound(s, []) && p in s.queues && !Named(s, p)
    ensures Sound(ClosePort(s, p), [])
  {
    var s' := ClosePort(s, p);
    forall a ensures CapAt(s', [], a) == if a.InQueue? && a.port == p then None else CapAt(s, [], a) {
    }
    forall a ensures CapAt(s, [], a).Some? ==> CapAt(s, [], a).value.target != Port(p) {
    }
    hide CapAt;
    Transport(s, [], s', [], a => a);
    assert forall n :: n in s.names ==> s.names[n] in s.names.Values;
  }

  // ---------------------------------------------------------------------
  // Ports go away with the last reference to them

  ghost function CloseAll(s: Sys, ports: seq<nat>): (s': Sys) {
    if ports == [] then s else ClosePort(CloseAll(s, ports[..|ports| - 1]), ports[|ports| - 1])
  }

  /** When its turn comes, each port is live and nothing refers to it. */
  ghost predicate Closable(s: Sys, ports: seq<nat>) {
    forall i :: 0 <= i < |ports| ==> var t := CloseAll(s, ports[..i]); ports[i] in t.queues && !Named(t, ports[i])
  }

  /** Ports nothing refers to went away one after the other until every port left is referred to. */
  ghost predicate Reaped(s: Sys, s': Sys) {
    NoGarbage(s', []) && exists ports :: Closable(s, ports) && s' == CloseAll(s, ports)
  }

  lemma CloseNone(s: Sys)
    ensures Closable(s, []) && CloseAll(s, []) == s
  {
  }

  lemma CloseNext(s: Sys, ports: seq<nat>, p: nat)
    requires Closable(s, ports)
    requires var t := CloseAll(s, ports); p in t.queues && !Named(t, p)
    ensures Closable(s, ports + [p]) && CloseAll(s, ports + [p]) == ClosePort(CloseAll(s, ports), p)
  {
    hide Named;
    var more := ports + [p];
    assert more[..|ports|] == ports;
    forall i | 0 <= i < |more| ensures var t := CloseAll(s, more[..i]); more[i] in t.queues && !Named(t, more[i]) {
      if i < |ports| {
        assert more[..i] == ports[..i];
      }
    }
  }

  lemma {:induction false} CloseAllSound(s: Sys, ports: seq<nat>)
    requires Sound(s, []) && Closable(s, ports)
    ensures Sound(CloseAll(s, ports), [])
    decreases |ports|
  {
    hide Sound, Named;
    if ports != [] {
      var n := |ports| - 1;
      forall i | 0 <= i < n
        ensures var t := CloseAll(s, ports[..n][..i]); ports[..n][i] in t.queues && !Named(t, ports[..n][i])
      {
        assert ports[..n][..i] == ports[..i];
      }
      CloseAllSound(s, ports[..n]);
      CloseSound(CloseAll(s, ports[..n]), ports[n]);
    }
  }

  lemma ReapedSound(s: Sys, s': Sys)
    requires Sound(s, []) && Reaped(s, s')
    ensures Sound(s', []) && NoGarbage(s', [])
  {
    hide Sound, NoGarbage, Closable;
    var ports :| Closable(s, ports) && s' == CloseAll(s, ports);
    CloseAllSound(s, ports);
  }

  /** What is left of the queues is as it was, and nothing but queues is gone. */
  lemma {:induction false} CloseAllKeeps(s: Sys, ports: seq<nat>)
    ensures CloseAll(s, ports) == s.(queues := s.queues - (set p | p in ports))
    decreases |ports|
  {
    if ports == [] {
      assert s.queues - (set p | p in ports) == s.queues;
    } else {
      var n := |ports| - 1;
      CloseAllKeeps(s, ports[..n]);
      assert ports == ports[..n] + [ports[n]];
      assert s.queues - (set p | p in ports) == s.queues - (set p | p in ports[..n]) - {ports[n]};
    }
  }

  /** A new task starts with an empty table. */
  lemma SpawnSound(s: Sys, pid: nat)
    requires Sound(s, []) && pid !in s.tables
    ensures Sound(s.(tables := s.tables[pid := Table(map[], 1)]), [])
    ensures NoGarbage(s, []) ==> NoGarbage(s.(tables := s.tables[pid := Table(map[], 1)]), [])
  {
    var s' := s.(tables := s.tables[pid := Table(map[], 1)]);
    forall a ensures CapAt(s', [], a) == CapAt(s, [], a) {
    }
    hide CapAt;
    Transport(s, [], s', [], a => a);
    if NoGarbage(s, []) {
      Carry(s, [], s', [], a => a);
    }
  }

  /** Publishing a name only records a live port. */
  lemma PublishSound(s: Sys, name: seq<byte>, p: nat)
    requires Sound(s, []) && p in s.queues && name !in s.names
    ensures Sound(s.(names := s.names[name := p]), [])
    ensures NoGarbage(s, []) ==> NoGarbage(s.(names := s.names[name := p]), [])
  {
    var s' := s.(names := s.names[name := p]);
    forall a ensures CapAt(s', [], a) == CapAt(s, [], a) {
    }
    hide CapAt;
    Transport(s, [], s', [], a => a);
    if NoGarbage(s, []) {
      forall q | q in s'.queues ensures Refers(s', [], q) {
        assert Refers(s, [], q);
        if n :| n in s.names && s.names[n] == q {
          assert n in s'.names && s'.names[n] == q;
        }
      }
    }
  }

  /** Parking and waking a receiver moves no capability. */
  lemma ParkSound(s: Sys, parked: map<nat, nat>)
    requires Sound(s, []) && forall t :: t in parked ==> t in s.tables && Holds(s.tables[t], parked[t])
    ensures Sound(s.(parked := parked), [])
    ensures NoGarbage(s, []) ==> NoGarbage(s.(parked := parked), [])
  {
    var s' := s.(parked := parked);
    forall a ensures CapAt(s', [], a) == CapAt(s, [], a) {
    }
    hide CapAt;
    Transport(s, [], s', [], a => a);
    if NoGarbage(s, []) {
      Carry(s, [], s', [], a => a);
    }
  }

  /** The first task starts with the only registrar. */
  lemma InitSound(s: Sys, pid: nat)
    requires Sound(s, []) && s.tables == map[] && s.queues == map[]
    ensures var s' := s.(tables := map[pid := Table(map[1 := Cap(Registrar, Rights(false, false, false))], 2)]);
              Sound(s', []) && NoGarbage(s', [])
  {
    var c := Cap(Registrar, Rights(false, false, false));
    var s' := s.(tables := map[pid := Table(map[1 := c], 2)]);
    forall a ensures CapAt(s', [], a) == if a == InTable(pid, 1) then Some(c) else None {
    }
    assert Waiting(s);
    assert forall t :: t !in s.parked;
  }

  /** Before any task runs there is nothing to go wrong. */
  lemma EmptySound()
    ensures var s := Sys(map[], map[], map[], 0, map[]); Sound(s, []) && NoGarbage(s, [])
  {
    var s := Sys(map[], map[], map[], 0, map[]);
    forall a ensures CapAt(s, [], a).None? {
    }
  }
}
