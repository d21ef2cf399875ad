/** The capability side of every IPC call, with nothing said about memory: whatever becomes of a
    payload, receive rights and the registrar stay unique over any run. */
module CapsRun {
  import opened Prelude
  import opened Caps
  import opened Ipc
  import R = Ranges
  import Utf8

  datatype Call =
    | Create(pid: nat)
    | Drop(pid: nat, id: int)
    | Dup(pid: nat, id: int, mask: nat)
    | Send(pid: nat, id: int, msg: Option<SendMsg>)
    | Recv(pid: nat, id: int, out: Option<RecvOut>)
    | Wake(pid: nat, wakeOut: RecvOut)
    | Publish(pid: nat, name: seq<byte>, id: int)
    | Lookup(pid: nat, name: seq<byte>)
    | Start(pid: nat, ranges: seq<R.Range>, init: bool)
    | Store(pid: nat, va: nat, bytes: seq<byte>) // no call: the task writes to its own memory

  /** The task exists and is not parked; only a parked one can be woken, only a new one started. */
  predicate Able(s: Sys, c: Call) {
    match c
    case Wake(pid, _) => pid in s.parked
    case Start(pid, _, init) => pid !in s.tables && (init ==> s.tables == map[] && s.queues == map[])
    case _ => c.pid in s.tables && c.pid !in s.parked
  }

  /** A send that was not refused: delivered with some pages, or given back, or lost. */
  ghost predicate SendStep(s: Sys, pid: nat, id: int, msg: SendMsg, s': Sys)
    requires pid in s.tables && id in s.tables[pid].slots && s.tables[pid].slots[id].target.Port?
  {
    var p, s1, caps := s.tables[pid].slots[id].target.port, Without(s, pid, msg.ids),
        Collect(s.tables[pid].slots, msg.ids);
    || (&& p in s.queues && |s.queues[p]| < MAX_IN_FLIGHT
        && exists pages :: s' == Push(s1, p, Message(msg.regs, caps, pages, msg.len)))
    || s' == InstallAll(s1, pid, caps)
    || Reaped(s1, s')
  }

  /** A receive on a port: parked, or the capabilities of the message installed, or lost with it. */
  ghost predicate TakeStep(s: Sys, pid: nat, p: nat, s': Sys)
    requires pid in s.tables
  {
    if p !in s.queues || s.queues[p] == [] then s' == s.(parked := s.parked[pid := p])
    else
      var m, s1 := s.queues[p][0], Pop(s.(parked := s.parked - {pid}), p);
      s' == InstallAll(s1, pid, m.caps) || Reaped(s1, s')
  }

  ghost predicate RecvStep(s: Sys, pid: nat, port: Result<nat, int>, s': Sys)
    requires pid in s.tables
  {
    if port.Err? then s' == s else TakeStep(s, pid, port.value, s')
  }

  ghost predicate WakeStep(s: Sys, pid: nat, s': Sys) {
    pid in s.parked && pid in s.tables && TakeStep(s, pid, s.parked[pid], s')
  }

  ghost predicate DropStep(s: Sys, pid: nat, id: int, s': Sys)
    requires pid in s.tables
  {
    if id in s.tables[pid].slots then Reaped(Remove(s, pid, id), s') else s' == s
  }

  ghost predicate DupStep(s: Sys, pid: nat, id: int, mask: nat, s': Sys)
    requires pid in s.tables
  {
    if id in s.tables[pid].slots && s.tables[pid].slots[id].rights.dup && s.tables[pid].slots[id].target.Port? then
      var c := s.tables[pid].slots[id];
      s' == Install(s, pid, Cap(c.target, DupRights(c.rights, mask)))
    else s' == s
  }

  ghost predicate PublishStep(s: Sys, pid: nat, name: seq<byte>, id: int, s': Sys)
    requires pid in s.tables
  {
    s' == if PublishResult(s, pid, name, id) ==
        0 then s.(names := s.names[name := s.tables[pid].slots[id].target.port]) else s
  }

  ghost predicate Published(s: Sys, name: seq<byte>) {
    0 < |name| <= NAME_MAX && Utf8.Valid(name) && name in s.names
  }

  ghost predicate LookupStep(s: Sys, pid: nat, name: seq<byte>, s': Sys)
    requires pid in s.tables
  {
    s' == if Published(s, name) then Install(s, pid, Cap(Port(s.names[name]), Rights(true, false, false))) else s
  }

  /** What one call may do to the capability state. */
  ghost predicate Step(s: Sys, c: Call, s': Sys)
    requires Able(s, c)
  {
    match c
    case Create(pid) => s' == Install(NewPort(s), pid, Cap(Port(s.nextPort), Rights(true, true, true)))
    case Drop(pid, id) => DropStep(s, pid, id, s')
    case Dup(pid, id, mask) => DupStep(s, pid, id, mask, s')
    case Send(pid, id, msg) => if Refusal(s, pid, id, msg) != 0 then s' == s else SendStep(s, pid, id, msg.value, s')
    case Recv(pid, id, out) => RecvStep(s, pid, RecvPort(s, pid, id, out), s')
    case Wake(pid, _) => WakeStep(s, pid, s')
    case Publish(pid, name, id) => PublishStep(s, pid, name, id, s')
    case Lookup(pid, name) => LookupStep(s, pid, name, s')
    case Start(pid, _, init) => s' == s || s' == s.(tables := s.tables[pid := NewTable(init)])
    case Store(_, _, _) => s' == s
  }

  /** Between calls: tokens unique, every reference live, no port without a reference. */
  ghost predicate Good(s: Sys) {
    Sound(s, []) && NoGarbage(s, [])
  }

  // ---------------------------------------------------------------------
  // Every call keeps it

  lemma {:induction false} TakenGood(s: Sys, pid: nat, ids: seq<int>)
    requires Good(s) && pid in s.tables && pid !in s.parked
    requires forall k :: 0 <= k < |ids| ==> ids[k] in s.tables[pid].slots
    ensures var s1, caps := Without(s, pid, ids), Collect(s.tables[pid].slots, ids);
            Sound(s1, caps) && NoGarbage(s1, caps) && |caps| <= |ids|
    decreases |ids|
  {
    hide Sound, NoGarbage;
    if ids == [] {
      CollectNone(s, pid, ids);
      assert ids[..0] == ids;
    } else {
      var n := |ids| - 1;
      TakenGood(s, pid, ids[..n]);
      CollectStep(s, pid, ids, n);
      assert ids[..n + 1] == ids;
      var s1, caps := Without(s, pid, ids[..n]), Collect(s.tables[pid].slots, ids[..n]);
      if ids[n] in s1.tables[pid].slots {
        RemoveSound(s1, caps, pid, ids[n]);
      }
    }
  }

  lemma {:induction false} InstalledGood(s: Sys, pid: nat, caps: seq<Cap>, i: nat)
    requires Sound(s, caps) && NoGarbage(s, caps) && pid in s.tables && i <= |caps|
    ensures Sound(InstallAll(s, pid, caps[..i]), caps[i..]) && NoGarbage(InstallAll(s, pid, caps[..i]), caps[i..])
    decreases i
  {
    hide Sound, NoGarbage;
    if i == 0 {
      assert caps[..0] == [] && caps[0..] == caps;
    } else {
      InstalledGood(s, pid, caps, i - 1);
      InstallSound(InstallAll(s, pid, caps[..i - 1]), caps[i - 1..], pid);
      assert caps[i - 1..][0] == caps[i - 1] && caps[i - 1..][1..] == caps[i..] && caps[..i][..i - 1] == caps[..i - 1];
    }
  }

  lemma AllInstalled(s: Sys, pid: nat, caps: seq<Cap>)
    requires Sound(s, caps) && NoGarbage(s, caps) && pid in s.tables
    ensures Good(InstallAll(s, pid, caps))
  {
    hide Sound, NoGarbage, InstallAll;
    InstalledGood(s, pid, caps, |caps|);
    assert caps[..|caps|] == caps && caps[|caps|..] == [];
  }

  /** What was in hand is let go, and with it the ports it was the last to refer to. */
  lemma LetGo(s: Sys, hand: seq<Cap>, s': Sys)
    requires Sound(s, hand) && Reaped(s, s')
    ensures Good(s')
  {
    hide Sound, NoGarbage, Reaped;
    DropSound(s, hand);
    ReapedSound(s, s');
  }

  lemma GrantGood(s: Sys, pid: nat, c: Cap)
    requires Good(s) && pid in s.tables && TokenOf(c).None? && c.target.Port? && c.target.port in s.queues
    ensures Good(Install(s, pid, c))
  {
    hide Sound, NoGarbage;
    GrantSound(s, c);
    InstallSound(s, [c], pid);
    assert [c][1..] == [];
  }

  lemma CreateGood(s: Sys, pid: nat)
    requires Good(s) && pid in s.tables
    ensures Good(Install(NewPort(s), pid, Cap(Port(s.nextPort), Rights(true, true, true))))
  {
    hide Sound, NoGarbage;
    var c := Cap(Port(s.nextPort), Rights(true, true, true));
    NewPortSound(s, c.rights);
    InstallSound(NewPort(s), [c], pid);
    assert [c][1..] == [];
  }

  lemma SameQueues(s: Sys, pid: nat, ids: seq<int>)
    requires pid in s.tables
    ensures Without(s, pid, ids).queues == s.queues && pid in Without(s, pid, ids).tables
  {
  }

  lemma SendGood(s: Sys, pid: nat, id: int, msg: Option<SendMsg>, s': Sys)
    requires Good(s) && pid in s.tables && pid !in s.parked && Refusal(s, pid, id, msg) == 0
    requires SendStep(s, pid, id, msg.value, s')
    ensures Good(s')
  {
    hide Sound, NoGarbage, Reaped, InstallAll, Collect, Without;
    var m := msg.value;
    var p, s1, caps := s.tables[pid].slots[id].target.port, Without(s, pid, m.ids), Collect(s.tables[pid].slots, m.ids);
    TakenGood(s, pid, m.ids);
    SameQueues(s, pid, m.ids);
    if Reaped(s1, s') {
      LetGo(s1, caps, s');
    } else if s' == InstallAll(s1, pid, caps) {
      AllInstalled(s1, pid, caps);
    } else {
      var pages :| s' == Push(s1, p, Message(m.regs, caps, pages, m.len));
      PushSound(s1, p, Message(m.regs, caps, pages, m.len));
    }
  }

  lemma TakeGood(s: Sys, pid: nat, id: int, p: nat, s': Sys)
    requires Good(s) && pid in s.tables && id in s.tables[pid].slots && s.tables[pid].slots[id].target == Port(p)
    requires s.tables[pid].slots[id].rights.recv && TakeStep(s, pid, p, s')
    ensures Good(s')
  {
    hide Sound, NoGarbage, Reaped, InstallAll;
    ParkedOk(s, pid, id);
    SlotLive(s, pid, id);
    if s.queues[p] == [] {
      ParkSound(s, s.parked[pid := p]);
    } else {
      ParkSound(s, s.parked - {pid});
      var m, s0 := s.queues[p][0], s.(parked := s.parked - {pid});
      PopSound(s0, p);
      if Reaped(Pop(s0, p), s') {
        LetGo(Pop(s0, p), m.caps, s');
      } else {
        AllInstalled(Pop(s0, p), pid, m.caps);
      }
    }
  }

  lemma StartGood(s: Sys, pid: nat, init: bool)
    requires Good(s) && pid !in s.tables && (init ==> s.tables == map[] && s.queues == map[])
    ensures Good(s.(tables := s.tables[pid := NewTable(init)]))
  {
    hide Sound, NoGarbage;
    if init {
      InitSound(s, pid);
      assert map[][pid := NewTable(true)] == map[pid := NewTable(true)];
    } else {
      SpawnSound(s, pid);
    }
  }

  lemma StepGood(s: Sys, c: Call, s': Sys)
    requires Good(s) && Able(s, c) && Step(s, c, s')
    ensures Good(s')
  {
    hide Sound, NoGarbage, SendStep, TakeStep, Reaped, Refusal, PublishResult, Utf8.Valid, DupRights;
    match c {
      case Create(pid) => CreateGood(s, pid);
      case Drop(pid, id) =>
        if id in s.tables[pid].slots {
          RemoveSound(s, [], pid, id);
          LetGo(Remove(s, pid, id), [] + [s.tables[pid].slots[id]], s');
        }
      case Dup(pid, id, mask) =>
        if s' != s {
          SlotLive(s, pid, id);
          GrantGood(s, pid, Cap(s.tables[pid].slots[id].target, DupRights(s.tables[pid].slots[id].rights, mask)));
        }
      case Send(pid, id, msg) =>
        if Refusal(s, pid, id, msg) == 0 {
          SendGood(s, pid, id, msg, s');
        }
      case Recv(pid, id, out) =>
        if RecvPort(s, pid, id, out).Ok? {
          TakeGood(s, pid, id, s.tables[pid].slots[id].target.port, s');
        }
      case Wake(pid, _) =>
        var id := ParkedSlot(s, pid);
        TakeGood(s, pid, id, s.parked[pid], s');
      case Publish(pid, name, id) =>
        if PublishResult(s, pid, name, id) == 0 {
          SlotLive(s, pid, id);
          PublishSound(s, name, s.tables[pid].slots[id].target.port);
        }
      case Lookup(pid, name) =>
        if Published(s, name) {
          NameLive(s, name);
          GrantGood(s, pid, Cap(Port(s.names[name]), Rights(true, false, false)));
        }
      case Start(pid, _, init) =>
        if s' != s {
          StartGood(s, pid, init);
        }
      case Store(_, _, _) =>
    }
  }

  lemma ReapedQueues(s: Sys, s': Sys)
    requires Reaped(s, s')
    ensures s'.parked == s.parked && forall q :: q in s'.queues ==> q in s.queues && s'.queues[q] == s.queues[q]
  {
    hide Closable, NoGarbage;
    var ports :| Closable(s, ports) && s' == CloseAll(s, ports);
    CloseAllKeeps(s, ports);
    hide CloseAll;
  }

  lemma {:induction false} InstalledQueues(s: Sys, pid: nat, caps: seq<Cap>)
    requires pid in s.tables
    ensures InstallAll(s, pid, caps).parked == s.parked && InstallAll(s, pid, caps).queues == s.queues
    decreases |caps|
  {
    if caps != [] {
      InstalledQueues(s, pid, caps[..|caps| - 1]);
    }
  }

  /** Taking from a port, or parking on it, touches no other queue. */
  lemma TakeQueues(s: Sys, pid: nat, p: nat, s': Sys)
    requires pid in s.tables && TakeStep(s, pid, p, s')
    ensures pid in s'.parked ==> s'.parked[pid] == p
    ensures forall q :: q in s'.queues && q != p ==> q in s.queues && s'.queues[q] == s.queues[q]
    ensures p in s'.queues ==> p in s.queues && s'.queues[p] == if s.queues[p] == [] then [] else s.queues[p][1..]
  {
    hide Reaped, InstallAll;
    if p in s.queues && s.queues[p] != [] {
      var s1 := Pop(s.(parked := s.parked - {pid}), p);
      if Reaped(s1, s') {
        ReapedQueues(s1, s');
      } else {
        InstalledQueues(s1, pid, s.queues[p][0].caps);
      }
    }
  }

  lemma SoundUnique(s: Sys)
    requires Sound(s, [])
    ensures Unique(s, [])
  {
  }

  /** A receive that parks or takes a message, and a receiver that is woken: its task holds the right to
      receive on the port, nobody else does, and no other port's queue changes. */
  lemma OnlyReceiver(s: Sys, c: Call, s': Sys) returns (id: int, p: nat)
    requires Good(s) && Able(s, c) && Step(s, c, s') && (c.Wake? || (c.Recv? && s' != s))
    ensures TokenAt(s, [], InTable(c.pid, id)) == Some(Receiver(p)) && (c.Recv? ==> id == c.id)
    ensures forall a :: TokenAt(s, [], a) == Some(Receiver(p)) ==> a == InTable(c.pid, id)
    ensures c.pid in s'.parked ==> s'.parked[c.pid] == p
    ensures forall q :: q in s'.queues && q != p ==> q in s.queues && s'.queues[q] == s.queues[q]
    ensures p in s'.queues ==> p in s.queues && s'.queues[p] == if s.queues[p] == [] then [] else s.queues[p][1..]
  {
    SoundUnique(s);
    if c.Recv? {
      id := c.id;
      RecvCases(s, c.pid, id, c.out);
      p := RecvPort(s, c.pid, id, c.out).value;
    } else {
      id := ParkedSlot(s, c.pid);
      p := s.parked[c.pid];
    }
    assert TokenAt(s, [], InTable(c.pid, id)) == Some(Receiver(p));
    hide TakeStep, Sound, NoGarbage, CapAt;
    TakeQueues(s, c.pid, p, s');
  }

  /** A message is queued only by a task with the right to send to that port, and at the tail. */
  lemma OnlySender(s: Sys, c: Call, s': Sys, p: nat)
    requires Good(s) && Able(s, c) && Step(s, c, s') && p in s.queues && p in s'.queues
    requires |s'.queues[p]| > |s.queues[p]|
    ensures c.Send? && c.id in s.tables[c.pid].slots
    ensures s.tables[c.pid].slots[c.id].target == Port(p) && s.tables[c.pid].slots[c.id].rights.send
    ensures s'.queues[p][..|s.queues[p]|] == s.queues[p] && |s'.queues[p]| == |s.queues[p]| + 1
  {
    hide Sound, NoGarbage, TakeStep, Reaped, Refusal, PublishResult, Utf8.Valid, DupRights, InstallAll, Collect;
    match c {
      case Create(_) => FreshId(s, c.pid);
      case Drop(pid, id) =>
        if id in s.tables[pid].slots {
          ReapedQueues(Remove(s, pid, id), s');
        }
      case Send(pid, id, msg) =>
        SendCases(s, pid, id, msg);
        var s1, caps := Without(s, pid, msg.value.ids), Collect(s.tables[pid].slots, msg.value.ids);
        InstalledQueues(s1, pid, caps);
        if Reaped(s1, s') {
          ReapedQueues(s1, s');
        }
      case Recv(pid, id, out) =>
        if RecvPort(s, pid, id, out).Ok? {
          TakeQueues(s, pid, RecvPort(s, pid, id, out).value, s');
        }
      case Wake(pid, _) => TakeQueues(s, pid, s.parked[pid], s');
      case _ =>
    }
  }

  /** A run of calls on the capability state; calls nobody can make change nothing. */
  ghost predicate Runs(trace: seq<Sys>, calls: seq<Call>) {
    && |trace| == |calls| + 1
    && forall i :: 0 <= i < |calls| ==>
         if Able(trace[i], calls[i]) then Step(trace[i], calls[i], trace[i + 1]) else trace[i + 1] == trace[i]
  }

  /** In every state of every run, at most one capability may receive on a port and at most one
      is the registrar, among all tables and all queued messages. */
  lemma {:induction false} AlwaysUnique(trace: seq<Sys>, calls: seq<Call>, i: nat)
    requires Runs(trace, calls) && Good(trace[0]) && i <= |calls|
    ensures Good(trace[i]) && Unique(trace[i], [])
    decreases i
  {
    if i > 0 {
      AlwaysUnique(trace, calls, i - 1);
      hide Sound, NoGarbage, Step;
      if Able(trace[i - 1], calls[i - 1]) {
        StepGood(trace[i - 1], calls[i - 1], trace[i]);
      }
      SoundUnique(trace[i]);
    }
  }

  /** In every run, a message leaves a queue, and a task waits on a port, only by the hand of the one
      holder of the right to receive there. */
  lemma AlwaysReceiver(trace: seq<Sys>, calls: seq<Call>, i: nat) returns (id: int, p: nat)
    requires Runs(trace, calls) && Good(trace[0]) && i < |calls| && Able(trace[i], calls[i])
    requires calls[i].Wake? || (calls[i].Recv? && trace[i + 1] != trace[i])
    ensures TokenAt(trace[i], [], InTable(calls[i].pid, id)) == Some(Receiver(p))
    ensures forall a :: TokenAt(trace[i], [], a) == Some(Receiver(p)) ==> a == InTable(calls[i].pid, id)
    ensures forall q :: q in trace[i + 1].queues && q != p ==>
              q in trace[i].queues && trace[i + 1].queues[q] == trace[i].queues[q]
  {
    hide Sound, NoGarbage, Step, TokenAt, Good;
    AlwaysUnique(trace, calls, i);
    id, p := OnlyReceiver(trace[i], calls[i], trace[i + 1]);
  }

  /** And one joins a queue only by the hand of a holder of the right to send there. */
  lemma AlwaysSender(trace: seq<Sys>, calls: seq<Call>, i: nat, p: nat)
    requires Runs(trace, calls) && Good(trace[0]) && i < |calls|
    requires p in trace[i].queues && p in trace[i + 1].queues && |trace[i + 1].queues[p]| > |trace[i].queues[p]|
    ensures Able(trace[i], calls[i]) && calls[i].Send? && calls[i].id in trace[i].tables[calls[i].pid].slots
    ensures var c := trace[i].tables[calls[i].pid].slots[calls[i].id]; c.target == Port(p) && c.rights.send
  {
    hide Sound, NoGarbage, Step, Good;
    AlwaysUnique(trace, calls, i);
    assert Able(trace[i], calls[i]);
    OnlySender(trace[i], calls[i], trace[i + 1], p);
  }
}
