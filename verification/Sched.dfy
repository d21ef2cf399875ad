/** Scheduler, wait queues and process lifecycle, one atomic kernel step at a time
    (kernel/src/sched/mod.rs, kernel/src/sched/task.rs, kernel/src/syscall.rs). */
module Sched {
  import opened Prelude

  const IDLE: nat := 1
  const SPRING: nat := 2
  const MAX_IN_FLIGHT: nat := 16

  datatype TaskState = Ready | Running | Dead | Blocked

  datatype Task = Task(state: TaskState, parent: nat, code: int)

  /** What a task is parked on: a port, or the exit of a child. */
  datatype Key = PortKey(port: nat) | ChildKey(parent: nat)

  // ---------------------------------------------------------------------
  // Queues

  /** `swap_remove`: the last element takes the place of the one removed. */
  function SwapRemove<T>(s: seq<T>, i: nat): (r: seq<T>)
    requires i < |s|
    ensures |r| == |s| - 1
  {
    if i == |s| - 1 then s[..i] else s[..i] + [s[|s| - 1]] + s[i + 1..|s| - 1]
  }

  lemma SwapRemoveBag<T>(s: seq<T>, i: nat)
    requires i < |s|
    ensures multiset(SwapRemove(s, i)) + multiset{s[i]} == multiset(s)
  {
    var n := |s| - 1;
    assert s == s[..n] + [s[n]];
    if i < n {
      assert s[..n] == s[..i] + [s[i]] + s[i + 1..n];
    }
  }

  /** Task t is among the first n of the queue. */
  ghost predicate Ahead(q: seq<nat>, t: nat, n: nat) {
    exists j :: 0 <= j < n && j < |q| && q[j] == t
  }

  /** Nobody but `gone` was moved back. */
  ghost predicate Keeps(q: seq<nat>, q': seq<nat>, gone: Option<nat>) {
    forall t: nat, n: nat :: gone != Some(t) && Ahead(q, t, n) ==> Ahead(q', t, n)
  }

  /** Everybody but the first moved up; the first is taken out. */
  ghost predicate MovesUp(q: seq<nat>, q': seq<nat>, gone: Option<nat>) {
    forall t: nat, n: nat :: gone != Some(t) && Ahead(q, t, n) && n > 0 && q != [] && t != q[0] ==> Ahead(q', t, n - 1)
  }

  lemma AppendKeeps(q: seq<nat>, more: seq<nat>)
    ensures Keeps(q, q + more, None)
  {
    forall t: nat, n: nat | Ahead(q, t, n) ensures Ahead(q + more, t, n) {
      var j :| 0 <= j < n && j < |q| && q[j] == t;
      assert (q + more)[j] == t;
    }
  }

  lemma SwapRemoveKeeps(q: seq<nat>, i: nat)
    requires i < |q|
    ensures Keeps(q, SwapRemove(q, i), Some(q[i]))
  {
    forall t: nat, n: nat | t != q[i] && Ahead(q, t, n) ensures Ahead(SwapRemove(q, i), t, n) {
      var j :| 0 <= j < n && j < |q| && q[j] == t;
      assert SwapRemove(q, i)[if j == |q| - 1 then i else j] == t;
    }
  }

  lemma KeepsTransitive(q0: seq<nat>, q1: seq<nat>, q2: seq<nat>, gone: Option<nat>)
    requires (Keeps(q0, q1, gone) || Keeps(q0, q1, None)) && (Keeps(q1, q2, gone) || Keeps(q1, q2, None))
    ensures Keeps(q0, q2, gone)
  {
    hide Ahead;
  }

  lemma TailMovesUp(q: seq<nat>, more: seq<nat>)
    requires q != []
    ensures MovesUp(q, q[1..] + more, None)
  {
    forall t: nat, n: nat | Ahead(q, t, n) && n > 0 && t != q[0] ensures Ahead(q[1..] + more, t, n - 1) {
      var j :| 0 <= j < n && j < |q| && q[j] == t;
      assert (q[1..] + more)[j - 1] == t;
    }
  }

  /** The tasks parked on a key, as wait-queue entries. */
  ghost function Keyed(key: Key, tasks: seq<nat>): (s: seq<(Key, nat)>) {
    seq(|tasks|, i requires 0 <= i < |tasks| => (key, tasks[i]))
  }

  // ---------------------------------------------------------------------
  // States

  datatype State = State(run: seq<nat>, current: Option<nat>, tasks: seq<nat>, info: map<nat, Task>,
      waits: seq<(Key, nat)>,
                         nextId: nat, pending: map<nat, nat>, wanted: map<nat, nat>)

  ghost predicate NoDup(s: seq<nat>) {
    forall i, j :: 0 <= i < j < |s| ==> s[i] != s[j]
  }

  /** Each task is parked at most once. */
  ghost predicate ParkedOnce(waits: seq<(Key, nat)>) {
    forall i, j :: 0 <= i < j < |waits| ==> waits[i].1 != waits[j].1
  }

  ghost predicate Parked(s: State, t: nat) {
    exists i :: 0 <= i < |s.waits| && s.waits[i].1 == t
  }

  /** Where a task in each state is. */
  ghost predicate InPlace(s: State, t: nat)
    requires t in s.info
  {
    match s.info[t].state
    case Ready => t in s.run || s.current == Some(t)
    case Running => s.current == Some(t)
    case Blocked => Parked(s, t)
    case Dead => t !in s.run && !Parked(s, t)
  }

  /** Every task is in the place its state says, once, and in no other. */
  ghost predicate Partition(s: State) {
    && s.info.Keys == (set t | t in s.tasks) && (forall t :: t in s.info ==> 0 < t < s.nextId && s.info[t].parent < t)
    && NoDup(s.run) && ParkedOnce(s.waits)
    && (forall i :: 0 <= i < |s.run| ==>
           s.run[i] in s.info && s.info[s.run[i]].state == Ready && s.current != Some(s.run[i]))
    && (forall i :: 0 <= i < |s.waits| ==> s.waits[i].1 in s.info && s.info[s.waits[i].1].state == Blocked)
    && (forall t :: t in s.info ==> InPlace(s, t))
    && (s.current.Some? ==> s.current.value in s.info)
  }

  /** Every id in a queue, and the current one, is that of a registered task. This holds whatever is killed. */
  ghost predicate Known(s: State) {
    && s.info.Keys == (set t | t in s.tasks) && (forall t :: t in s.info ==> 0 < t < s.nextId && s.info[t].parent < t)
    && (forall i :: 0 <= i < |s.run| ==> s.run[i] in s.info)
    && (forall i :: 0 <= i < |s.waits| ==> s.waits[i].1 in s.info)
    && (s.current.Some? ==> s.current.value in s.info)
  }

  /** The idle task is always ready to run or running. */
  ghost predicate IdleAlive(s: State) {
    IDLE in s.info && s.info[IDLE].state in {Ready, Running}
  }

  function Pending(s: State, p: nat): (n: nat) {
    if p in s.pending then s.pending[p] else 0
  }

  /** No child of `parent` that matches `want` (0 for any) has exited. */
  ghost predicate NoneExited(info: map<nat, Task>, parent: nat, want: nat) {
    forall c :: c in info && info[c].parent == parent && (want == 0 || c == want) ==> info[c].state != Dead
  }

  /** What a parked task waits for has not happened yet. */
  ghost predicate StillWaits(s: State, e: (Key, nat)) {
    match e.0
    case PortKey(p) => Pending(s, p) == 0
    case ChildKey(parent) => e.1 == parent && parent in s.wanted && NoneExited(s.info, parent, s.wanted[parent])
  }

  ghost predicate NoLostWakeup(s: State) {
    forall i :: 0 <= i < |s.waits| ==> StillWaits(s, s.waits[i])
  }

  /** Between kernel steps. */
  ghost predicate Inv(s: State) {
    Partition(s) && IdleAlive(s) && NoLostWakeup(s) && s.current.Some?
        && s.info[s.current.value].state in {Ready, Running}
  }

  /** Exited tasks stay exited. */
  ghost predicate DeadStays(info: map<nat, Task>, info': map<nat, Task>) {
    forall t :: t in info ==> t in info' && (info[t].state == Dead ==> info'[t].state == Dead)
  }

  // ---------------------------------------------------------------------
  // Switching

  predicate Requeues(s: State) {
    s.current.Some? && s.current.value in s.info && s.info[s.current.value].state in {Ready, Running}
  }

  /** `schedule`: the head of the run queue becomes current, the previous task goes to its tail
      unless it is blocked or dead. */
  function Switched(s: State): (s': State)
    requires s.run == [] || s.run[0] in s.info
  {
    if s.run == [] then s
    else
      var back := Requeues(s);
      var info := if back then s.info[s.current.value := s.info[s.current.value].(state := Ready)] else s.info;
      var next := s.run[0];
      s.(run := s.run[1..] + if back then [s.current.value]
          else [], current := Some(next), info := info[next := info[next].(state := Running)])
  }

  lemma SwitchInPlace(s: State, t: nat)
    requires Partition(s) && s.run != [] && t in s.info
    ensures InPlace(Switched(s), t)
  {
    var s' := Switched(s);
    assert InPlace(s, t);
    if t in s.run && t != s.run[0] {
      assert t in s.run[1..];
    }
    assert Parked(s', t) <==> Parked(s, t);
  }

  lemma SwitchPartition(s: State)
    requires Partition(s) && s.run != []
    ensures var s' := Switched(s); Partition(s') && s'.current == Some(s.run[0]) && s'.info[s.run[0]].state == Running
  {
    var s' := Switched(s);
    forall t | t in s'.info ensures InPlace(s', t) {
      SwitchInPlace(s, t);
    }
    hide InPlace;
  }

  // ---------------------------------------------------------------------
  // What each step does to the state, and what it keeps

  ghost predicate Child(s: State, pid: nat) {
    s.current.Some? && exists t :: t in s.info && s.info[t].parent == s.current.value && (pid == 0 || t == pid)
  }

  ghost predicate MayKill(s: State, pid: nat) {
    pid in s.info && (s.current == Some(SPRING) || s.current == Some(s.info[pid].parent))
  }

  lemma KnownParts(s: State)
    requires Known(s)
    ensures s.current.Some? ==> s.current.value in s.info
    ensures s.run != [] ==> s.run[0] in s.info
    ensures forall i :: 0 <= i < |s.waits| ==> s.waits[i].1 in s.info
    ensures forall i :: 0 <= i < |s.tasks| ==> s.tasks[i] in s.info
    ensures forall t :: t in s.tasks <==> t in s.info
    ensures forall t :: t in s.info ==> 0 < t
  {
    forall t ensures t in s.tasks <==> t in s.info {
      assert t in s.info <==> t in (set x | x in s.tasks);
    }
  }

  lemma MarkKnown(s: State, t: nat, task: Task)
    requires Known(s) && t in s.info && task.parent == s.info[t].parent
    ensures Known(s.(info := s.info[t := task]))
  {
  }

  /** The entries of `key`, holding the tasks `woken`, and no others were taken out. */
  ghost predicate Unparked(waits: seq<(Key, nat)>, waits': seq<(Key, nat)>, key: Key, woken: seq<nat>) {
    && multiset(waits') + multiset(Keyed(key, woken)) == multiset(waits)
    && forall i :: 0 <= i < |waits'| ==> waits'[i].0 != key
  }

  lemma WaitsSubset(waits: seq<(Key, nat)>, waits': seq<(Key, nat)>, key: Key, woken: seq<nat>)
    requires Unparked(waits, waits', key, woken)
    ensures forall i :: 0 <= i < |waits'| ==> waits'[i] in waits && waits'[i].0 != key
  {
    forall i | 0 <= i < |waits'| ensures waits'[i] in waits {
      assert waits'[i] in multiset(waits');
      assert waits'[i] in multiset(waits);
    }
  }

  /** `wake_all` on the wait queue from index i on: what stays, and the tasks taken out, after those in `up`. */
  ghost function Sweep(waits: seq<(Key, nat)>, key: Key, i: nat, up: seq<nat>): (r: (seq<(Key, nat)>, seq<nat>))
    requires i <= |waits|
    decreases |waits| - i
  {
    if i == |waits| then (waits, up)
    else if waits[i].0 == key then Sweep(SwapRemove(waits, i), key, i, up + [waits[i].1])
    else Sweep(waits, key, i + 1, up)
  }

  ghost function Kept(waits: seq<(Key, nat)>, key: Key): (r: seq<(Key, nat)>) {
    Sweep(waits, key, 0, []).0
  }

  ghost function Woken(waits: seq<(Key, nat)>, key: Key): (r: seq<nat>) {
    Sweep(waits, key, 0, []).1
  }

  /** The given tasks made ready. */
  ghost function Readied(info: map<nat, Task>, up: seq<nat>): (r: map<nat, Task>) {
    map t | t in info :: if t in up then info[t].(state := Ready) else info[t]
  }

  ghost function Waking(s: State, key: Key): (s': State) {
    var woken := Woken(s.waits, key);
    s.(waits := Kept(s.waits, key), run := s.run + woken, info := Readied(s.info, woken))
  }

  /** The wait queue up to index i has been cleared of `key`. */
  ghost predicate Partway(waits: seq<(Key, nat)>, waits': seq<(Key, nat)>, key: Key, up: seq<nat>, i: nat,
      ids: set<nat>) {
    && i <= |waits'| && multiset(waits') + multiset(Keyed(key, up)) == multiset(waits)
    && (forall j :: 0 <= j < i ==> waits'[j].0 != key)
    && (forall j :: 0 <= j < |waits'| ==> waits'[j].1 in ids)
    && (forall j :: 0 <= j < |up| ==> up[j] in ids)
  }

  lemma PartwayStart(waits: seq<(Key, nat)>, key: Key, ids: set<nat>)
    requires forall i :: 0 <= i < |waits| ==> waits[i].1 in ids
    ensures Partway(waits, waits, key, [], 0, ids)
  {
    assert Keyed(key, []) == [];
  }

  lemma BagShift<T>(r: multiset<T>, k: multiset<T>, e: multiset<T>, w': multiset<T>, w: multiset<T>, k': multiset<T>)
    requires r + e == w' && w' + k == w && k' == k + e
    ensures r + k' == w
  {
  }

  lemma SwapRemoveAll(waits: seq<(Key, nat)>, i: nat, ids: set<nat>)
    requires i < |waits| && forall j :: 0 <= j < |waits| ==> waits[j].1 in ids
    ensures var r := SwapRemove(waits, i); (forall j :: 0 <= j < |r| ==> r[j].1 in ids) && forall j :: 0 <= j < i ==>
              r[j] == waits[j]
  {
  }

  lemma KeyedAppend(key: Key, up: seq<nat>, t: nat)
    ensures multiset(Keyed(key, up + [t])) == multiset(Keyed(key, up)) + multiset{(key, t)}
  {
    assert Keyed(key, up + [t]) == Keyed(key, up) + [(key, t)];
  }

  lemma PartwayStep(waits: seq<(Key, nat)>, waits': seq<(Key, nat)>, key: Key, up: seq<nat>, i: nat, ids: set<nat>)
    requires Partway(waits, waits', key, up, i, ids) && i < |waits'|
    ensures waits'[i].0 == key ==> Partway(waits, SwapRemove(waits', i), key, up + [waits'[i].1], i, ids)
    ensures waits'[i].0 != key ==> Partway(waits, waits', key, up, i + 1, ids)
  {
    hide Keyed, SwapRemove;
    if waits'[i].0 == key {
      var t, r := waits'[i].1, SwapRemove(waits', i);
      SwapRemoveBag(waits', i);
      KeyedAppend(key, up, t);
      assert waits'[i] == (key, t);
      SwapRemoveAll(waits', i, ids);
      BagShift(multiset(r), multiset(Keyed(key, up)), multiset{(key, t)}, multiset(waits'), multiset(waits),
          multiset(Keyed(key, up + [t])));
    }
  }

  lemma {:induction false} SweepFrom(waits0: seq<(Key, nat)>, waits: seq<(Key, nat)>, key: Key, i: nat, up: seq<nat>,
                                     ids: set<nat>)
    requires i <= |waits| && Partway(waits0, waits, key, up, i, ids)
    ensures var (waits', up') := Sweep(waits, key, i, up); Partway(waits0, waits', key, up', |waits'|, ids)
    decreases |waits| - i
  {
    hide Partway, SwapRemove;
    if i < |waits| {
      PartwayStep(waits0, waits, key, up, i, ids);
      if waits[i].0 == key {
        SweepFrom(waits0, SwapRemove(waits, i), key, i, up + [waits[i].1], ids);
      } else {
        SweepFrom(waits0, waits, key, i + 1, up, ids);
      }
    }
  }

  lemma SweepUnparks(waits: seq<(Key, nat)>, key: Key, ids: set<nat>)
    requires forall i :: 0 <= i < |waits| ==> waits[i].1 in ids
    ensures Unparked(waits, Kept(waits, key), key, Woken(waits, key))
    ensures forall j :: 0 <= j < |Woken(waits, key)| ==> Woken(waits, key)[j] in ids
  {
    hide Sweep;
    PartwayStart(waits, key, ids);
    SweepFrom(waits, waits, key, 0, [], ids);
  }

  lemma SweepMembers(waits: seq<(Key, nat)>, key: Key, ids: set<nat>)
    requires forall i :: 0 <= i < |waits| ==> waits[i].1 in ids
    ensures forall e :: e in Kept(waits, key) <==> e in waits && e.0 != key
    ensures forall t: nat :: t in Woken(waits, key) <==> (key, t) in waits
  {
    hide Sweep;
    SweepUnparks(waits, key, ids);
    var left, woken := Kept(waits, key), Woken(waits, key);
    var k := Keyed(key, woken);
    forall e: (Key, nat) ensures e in left <==> e in waits && e.0 != key {
      assert e in waits <==> e in multiset(waits);
      assert e in left <==> e in multiset(left);
      assert e in k <==> e in multiset(k);
    }
    forall t: nat ensures t in woken <==> (key, t) in waits {
      assert (key, t) in waits <==> (key, t) in multiset(waits);
      assert (key, t) in k <==> (key, t) in multiset(k);
      assert (key, t) !in multiset(left);
      if t in woken {
        var i :| 0 <= i < |woken| && woken[i] == t;
        assert k[i] == (key, t);
      }
    }
  }

  lemma WakeKnown(s: State, key: Key)
    requires Known(s)
    ensures Known(Waking(s, key)) && Unparked(s.waits, Kept(s.waits, key), key, Woken(s.waits, key))
    ensures Keeps(s.run, Waking(s, key).run, None) && Waking(s, key).info.Keys == s.info.Keys
  {
    hide Unparked, Sweep, Keeps;
    var s', woken := Waking(s, key), Woken(s.waits, key);
    SweepUnparks(s.waits, key, s.info.Keys);
    AppendKeeps(s.run, woken);
    WaitsSubset(s.waits, s'.waits, key, woken);
    forall i | 0 <= i < |s'.waits| ensures s'.waits[i].1 in s'.info {
      assert s'.waits[i] in s.waits;
    }
  }

  /** A step either only keeps everybody's place in the run queue, or runs the first and moves the others up. */
  ghost predicate Fair(q: seq<nat>, q': seq<nat>, current': Option<nat>, switched: bool, gone: Option<nat>) {
    if switched then (q != [] ==> current' == Some(q[0])) && MovesUp(q, q', gone) else Keeps(q, q', gone)
  }

  lemma KeepsSelf(q: seq<nat>)
    ensures Keeps(q, q, None)
  {
  }

  lemma SwitchKnown(s: State)
    requires Known(s)
    ensures s.run != [] ==> s.run[0] in s.info
    ensures var s' := Switched(s);
            && Known(s') && Fair(s.run, s'.run, s'.current, s.run != [], None)
            && s'.tasks == s.tasks && s'.nextId == s.nextId && s'.pending == s.pending
  {
    hide MovesUp, Keeps;
    if s.run == [] {
      KeepsSelf(s.run);
    } else {
      TailMovesUp(s.run, if Requeues(s) then [s.current.value] else []);
    }
  }

  lemma MakeFair(q: seq<nat>, q': seq<nat>, current: Option<nat>, gone: Option<nat>)
    requires Keeps(q, q', gone) || Keeps(q, q', None)
    ensures Fair(q, q', current, false, gone)
  {
    hide Ahead;
  }

  ghost function Spawning(s: State): (s': State)
    requires s.current.Some?
  {
    var id := s.nextId;
    s.(nextId := id + 1, info := s.info[id := Task(Ready, s.current.value, 0)], tasks := s.tasks + [id],
        run := s.run + [id])
  }

  lemma SpawnKnown(s: State)
    requires Known(s) && s.current.Some?
    ensures var s' := Spawning(s); s.nextId !in s.info && Known(s') && Fair(s.run, s'.run, s'.current, false, None)
  {
    var id := s.nextId;
    assert (set t | t in s.tasks + [id]) == (set t | t in s.tasks) + {id};
    AppendKeeps(s.run, [id]);
    MakeFair(s.run, s.run + [id], s.current, None);
  }

  lemma DeadSelf(info: map<nat, Task>)
    ensures DeadStays(info, info)
  {
  }

  /** No task has died except children of `parent`. */
  ghost predicate OnlyDies(info: map<nat, Task>, info': map<nat, Task>, parent: Option<nat>) {
    forall c :: c in info' && info'[c].state == Dead ==>
                  (c in info && info[c].state == Dead && info[c].parent == info'[c].parent) || parent ==
                      Some(info'[c].parent)
  }

  /** What the remaining parked tasks wait for still has not happened, if every task parked on
      what did happen (`key`) was woken. */
  lemma WaitsKept(s: State, s': State, key: Option<Key>, parent: Option<nat>)
    requires NoLostWakeup(s) && s'.wanted == s.wanted && (parent.Some? ==> key == Some(ChildKey(parent.value)))
    requires forall i :: 0 <= i < |s'.waits| ==> s'.waits[i] in s.waits && key != Some(s'.waits[i].0)
    requires forall p: nat :: key != Some(PortKey(p)) && Pending(s, p) == 0 ==> Pending(s', p) == 0
    requires OnlyDies(s.info, s'.info, parent)
    ensures NoLostWakeup(s')
  {
    forall i | 0 <= i < |s'.waits| ensures StillWaits(s', s'.waits[i]) {
      var e := s'.waits[i];
      var j :| 0 <= j < |s.waits| && s.waits[j] == e;
      assert StillWaits(s, s.waits[j]);
    }
  }

  /** Unless it runs, the idle task is in the run queue. */
  lemma IdleQueued(s: State)
    requires Partition(s) && IdleAlive(s) && s.current != Some(IDLE)
    ensures IDLE in s.run && s.run != [] && s.run[0] in s.info
  {
    assert InPlace(s, IDLE);
  }

  lemma PartitionParts(s: State)
    requires Partition(s)
    ensures s.current.Some? ==> s.current.value in s.info
    ensures s.run != [] ==> s.run[0] in s.info
    ensures forall i :: 0 <= i < |s.waits| ==> s.waits[i].1 in s.info
    ensures forall i :: 0 <= i < |s.tasks| ==> s.tasks[i] in s.info
  {
    forall i | 0 <= i < |s.tasks| ensures s.tasks[i] in s.info {
      assert s.tasks[i] in (set t | t in s.tasks);
    }
  }

  /** A switch only touches tasks that are alive. */
  lemma ReadyNotDead(s: State)
    requires Partition(s) && s.run != []
    ensures s.info[s.run[0]].state == Ready && DeadStays(s.info, Switched(s).info)
    ensures OnlyDies(s.info, Switched(s).info, None)
    ensures IdleAlive(s) ==> IdleAlive(Switched(s))
    ensures Switched(s).tasks == s.tasks && Switched(s).nextId == s.nextId && Switched(s).pending == s.pending
    ensures forall t :: t in s.info && s.info[t].state == Dead ==> Switched(s).info[t] == s.info[t]
  {
  }

  lemma TickOutcome(s: State)
    requires Inv(s)
    ensures s.run != [] ==> s.run[0] in s.info
    ensures var s' := Switched(s);
            && Inv(s') && DeadStays(s.info, s'.info) && Fair(s.run, s'.run, s'.current, s.run != [], None)
            && s'.tasks == s.tasks && s'.nextId == s.nextId && s'.pending == s.pending
            && (s.current != Some(IDLE) ==> s'.current != s.current)
  {
    hide NoLostWakeup, OnlyDies, MovesUp;
    PartitionParts(s);
    if s.run == [] {
      KeepsSelf(s.run);
      if s.current != Some(IDLE) {
        IdleQueued(s);
      }
    } else {
      SwitchPartition(s);
      ReadyNotDead(s);
      WaitsKept(s, Switched(s), None, None);
      TailMovesUp(s.run, if Requeues(s) then [s.current.value] else []);
    }
  }

  lemma SpawnPartition(s: State)
    requires Partition(s) && s.current.Some?
    ensures var s' := Spawning(s); s.nextId !in s.info && Partition(s')
  {
    var id := s.nextId;
    var s' := Spawning(s);
    forall c | c in s'.info ensures InPlace(s', c) {
      if c != id {
        assert InPlace(s, c);
        assert Parked(s', c) <==> Parked(s, c);
      }
    }
    assert (set t | t in s'.tasks) == (set t | t in s.tasks) + {id};
  }

  lemma SpawnOutcome(s: State)
    requires Inv(s)
    ensures var s' := Spawning(s);
            && s.nextId !in s.info && Inv(s') && DeadStays(s.info, s'.info)
            && Fair(s.run, s'.run, s'.current, false, None)
  {
    var id := s.nextId;
    var s' := Spawning(s);
    AppendKeeps(s.run, [id]);
    MakeFair(s.run, s'.run, s'.current, None);
    WaitsKept(s, s', None, None);
    SpawnPartition(s);
    hide NoLostWakeup, Fair, Partition;
  }

  /** The history grows by the task switched to. */
  ghost predicate Ran(history: seq<nat>, history': seq<nat>, current': Option<nat>, switched: bool) {
    if switched then current'.Some? && history' == history + [current'.value] else history' == history
  }

  lemma NobodyWaits(q: seq<nat>)
    ensures MovesUp([], q, None) && Keeps([], q, None)
  {
  }

  /** After an exit, whoever was queued before the parent was woken is still served first. */
  lemma LeaveKnown(s: State, q: seq<nat>, woken: seq<nat>)
    requires Known(s) && s.run == q + woken
    ensures s.run != [] ==> s.run[0] in s.info
    ensures var s' := Switched(s.(current := None));
            && Known(s') && Fair(q, s'.run, s'.current, s'.current.Some?, None) && (s'.current.Some? <==> s.run != [])
            && s'.tasks == s.tasks && s'.nextId == s.nextId && s'.pending == s.pending && s'.info.Keys == s.info.Keys
  {
    hide MovesUp, Keeps;
    SwitchKnown(s.(current := None));
    if q == [] {
      KeepsSelf(q);
      NobodyWaits(Switched(s.(current := None)).run);
    } else {
      TailMovesUp(q, woken);
      assert s.run[1..] == q[1..] + woken;
      assert s.run[1..] + [] == s.run[1..];
    }
  }

  lemma ExitPartition(s: State, code: int)
    requires Inv(s)
    ensures var t := s.current.value; Partition(s.(info := s.info[t := Task(Dead, s.info[t].parent, code)]))
  {
    var t := s.current.value;
    var s' := s.(info := s.info[t := Task(Dead, s.info[t].parent, code)]);
    assert !Parked(s, t);
    forall c | c in s'.info ensures InPlace(s', c) {
      assert InPlace(s, c);
      assert Parked(s', c) <==> Parked(s, c);
    }
  }

  lemma LeavePartition(s: State)
    requires Partition(s) && s.current.Some? && s.info[s.current.value].state == Dead
    ensures Partition(s.(current := None))
  {
    var s' := s.(current := None);
    forall c | c in s'.info ensures InPlace(s', c) {
      assert InPlace(s, c);
      assert Parked(s', c) <==> Parked(s, c);
    }
  }

  lemma {:induction false} TwiceIn<T>(s: seq<T>, e: T) returns (i: nat, j: nat)
    requires multiset(s)[e] >= 2
    ensures i < j < |s| && s[i] == s[j] == e
  {
    var n := |s| - 1;
    assert s == s[..n] + [s[n]];
    if s[n] == e {
      assert e in multiset(s[..n]);
      i :| 0 <= i < n && s[..n][i] == e;
      j := n;
    } else {
      i, j := TwiceIn(s[..n], e);
    }
  }

  lemma {:induction false} TwiceCounts<T>(s: seq<T>, i: nat, j: nat)
    requires i < j < |s| && s[i] == s[j]
    ensures multiset(s)[s[i]] >= 2
  {
    assert s == s[..j] + [s[j]] + s[j + 1..];
    assert s[i] in s[..j];
  }

  lemma OneEntry(waits: seq<(Key, nat)>, waits': seq<(Key, nat)>, k: seq<(Key, nat)>, i: nat, j: nat)
    requires ParkedOnce(waits) && multiset(waits') + multiset(k) == multiset(waits) && i < j < |waits'|
    ensures waits'[i].1 != waits'[j].1
  {
    if waits'[i] == waits'[j] {
      TwiceCounts(waits', i, j);
      var a, b := TwiceIn(waits, waits'[i]);
      assert false;
    } else {
      assert waits'[i] in multiset(waits) && waits'[j] in multiset(waits);
      assert waits'[i] in waits && waits'[j] in waits;
    }
  }

  /** What unparking did, for tasks parked at most once. */
  lemma UnparkedFacts(waits: seq<(Key, nat)>, waits': seq<(Key, nat)>, key: Key, woken: seq<nat>)
    requires ParkedOnce(waits) && Unparked(waits, waits', key, woken)
    ensures ParkedOnce(waits') && NoDup(woken)
    ensures forall t: nat :: t in woken <==> (key, t) in waits
    ensures forall e :: e in waits' <==> e in waits && e.0 != key
  {
    var k := Keyed(key, woken);
    forall e: (Key, nat) ensures e in waits <==> e in waits' || e in k {
      assert e in waits <==> e in multiset(waits);
      assert e in waits' <==> e in multiset(waits');
      assert e in k <==> e in multiset(k);
    }
    forall t: nat ensures (key, t) in k <==> t in woken {
      if t in woken {
        var i :| 0 <= i < |woken| && woken[i] == t;
        assert k[i] == (key, t);
      }
    }
    forall i, j | 0 <= i < j < |waits'| ensures waits'[i].1 != waits'[j].1 {
      OneEntry(waits, waits', k, i, j);
    }
    forall i, j | 0 <= i < j < |woken| ensures woken[i] != woken[j] {
      if woken[i] == woken[j] {
        TwiceCounts(k, i, j);
        var a, b := TwiceIn(waits, k[i]);
        assert false;
      }
    }
  }

  /** A task that is not blocked is not woken. */
  lemma NotWoken(s: State, waits': seq<(Key, nat)>, key: Key, woken: seq<nat>, t: nat)
    requires Partition(s) && Unparked(s.waits, waits', key, woken) && t in s.info && s.info[t].state != Blocked
    ensures t !in woken
  {
    hide Unparked;
    UnparkedFacts(s.waits, waits', key, woken);
    assert forall i :: 0 <= i < |s.waits| ==> s.waits[i].1 != t;
  }

  lemma StillParked(s: State, s': State, key: Key, woken: seq<nat>, t: nat)
    requires ParkedOnce(s.waits) && (forall t: nat :: t in woken <==> (key, t) in s.waits)
    requires forall e :: e in s'.waits <==> e in s.waits && e.0 != key
    ensures Parked(s', t) <==> Parked(s, t) && t !in woken
  {
    if Parked(s', t) {
      var i :| 0 <= i < |s'.waits| && s'.waits[i].1 == t;
      assert s'.waits[i] in s.waits;
    }
    if Parked(s, t) {
      var i :| 0 <= i < |s.waits| && s.waits[i].1 == t;
      assert s.waits[i] in s'.waits || t in woken;
    }
  }

  lemma WakePartition(s: State, s': State, key: Key, woken: seq<nat>)
    requires Partition(s) && Unparked(s.waits, s'.waits, key, woken)
    requires (s.current.Some? ==> s.info[s.current.value].state != Blocked)
    requires s' == s.(waits := s'.waits, run := s.run + woken, info := Readied(s.info, woken))
    ensures Partition(s') && DeadStays(s.info, s'.info)
  {
    hide Unparked;
    UnparkedFacts(s.waits, s'.waits, key, woken);
    forall t: nat | t in woken ensures t in s.info && s.info[t].state == Blocked && Parked(s, t) {
      assert (key, t) in s.waits;
    }
    forall t: nat ensures Parked(s', t) <==> Parked(s, t) && t !in woken {
      StillParked(s, s', key, woken, t);
    }
    forall t | t in s'.info ensures InPlace(s', t) {
      assert InPlace(s, t);
    }
    forall i | 0 <= i < |s'.waits| ensures s'.waits[i].1 in s'.info && s'.info[s'.waits[i].1].state == Blocked {
      assert s'.waits[i] in s.waits;
      assert Parked(s', s'.waits[i].1);
    }
    forall i, j | 0 <= i < j < |s'.run| ensures s'.run[i] != s'.run[j] {
      if i < |s.run| && j >= |s.run| {
        assert s'.run[j] == woken[j - |s.run|];
      }
    }
  }

  /** The exiting task has left: everybody else is in place. */
  lemma ExitLeaves(s0: State, s1: State, s2: State, code: int, woken: seq<nat>)
    requires Inv(s0) && s0.current != Some(IDLE)
    requires var t := s0.current.value; s1 == s0.(info := s0.info[t := Task(Dead, s0.info[t].parent, code)])
    requires Unparked(s1.waits, s2.waits, ChildKey(s0.info[s0.current.value].parent), woken)
    requires s2 == s1.(waits := s2.waits, run := s1.run + woken, info := Readied(s1.info, woken))
    ensures Partition(s2.(current := None)) && IdleAlive(s2.(current := None)) && s2.run != [] && s2.run[0] in s2.info
    ensures s0.current.value in s2.info && s2.info[s0.current.value] == s1.info[s0.current.value]
    ensures DeadStays(s0.info, s2.info)
  {
    PartitionParts(s0);
    hide Partition, Unparked, NoLostWakeup;
    var t := s0.current.value;
    ExitPartition(s0, code);
    WakePartition(s1, s2, ChildKey(s0.info[t].parent), woken);
    NotWoken(s0, s2.waits, ChildKey(s0.info[t].parent), woken, t);
    NotWoken(s0, s2.waits, ChildKey(s0.info[t].parent), woken, IDLE);
    LeavePartition(s2);
    IdleQueued(s2.(current := None));
  }

  lemma ExitWaits(s0: State, s1: State, s2: State, s4: State, t: nat, woken: seq<nat>)
    requires Inv(s0) && s0.current == Some(t) && s1.waits == s0.waits
    requires Unparked(s1.waits, s2.waits, ChildKey(s0.info[t].parent), woken)
    requires s1.info.Keys == s0.info.Keys && s1.info[t].parent == s0.info[t].parent
    requires (forall c :: c in s1.info && c != t ==> s1.info[c] == s0.info[c])
    requires s2.info == Readied(s1.info, woken) && s2.run != [] && s2.run[0] in s2.info
    requires s4 == Switched(s2.(current := None)) && s2.pending == s0.pending && s2.wanted == s0.wanted
    ensures NoLostWakeup(s4)
  {
    PartitionParts(s0);
    hide Partition, NoLostWakeup, NoneExited;
    WaitsSubset(s1.waits, s2.waits, ChildKey(s0.info[t].parent), woken);
    WaitsKept(s0, s4, Some(ChildKey(s0.info[t].parent)), Some(s0.info[t].parent));
  }

  lemma ExitFair(s0: State, s2: State, s3: State)
    requires Partition(s0) && IdleAlive(s0) && s0.current.Some? && s0.current != Some(IDLE) && s0.run <= s2.run
    requires s3 == s2.(current := None) && s2.run != [] && s2.run[0] in s2.info
    ensures Fair(s0.run, Switched(s3).run, Switched(s3).current, true, None)
  {
    hide Partition, Keeps, MovesUp;
    IdleQueued(s0);
    var more := s2.run[|s0.run|..];
    assert s2.run == s0.run + more;
    assert s2.run[1..] == s0.run[1..] + more;
    TailMovesUp(s0.run, more);
    assert Switched(s3).run == s2.run[1..] + [];
    assert s2.run[1..] + [] == s2.run[1..];
  }

  lemma DeadTransitive(a: map<nat, Task>, b: map<nat, Task>, c: map<nat, Task>)
    requires DeadStays(a, b) && DeadStays(b, c)
    ensures DeadStays(a, c)
  {
  }

  /** An exit, from the current task being marked dead to the next one running. */
  lemma ExitOutcome(s0: State, s1: State, s2: State, code: int, woken: seq<nat>)
    requires Inv(s0) && s0.current != Some(IDLE)
    requires var t := s0.current.value; s1 == s0.(info := s0.info[t := Task(Dead, s0.info[t].parent, code)])
    requires Unparked(s1.waits, s2.waits, ChildKey(s0.info[s0.current.value].parent), woken)
    requires s2 == s1.(waits := s2.waits, run := s1.run + woken, info := Readied(s1.info, woken))
    ensures s2.run != [] && s2.run[0] in s2.info
    ensures var s4 := Switched(s2.(current := None));
            && Inv(s4) && DeadStays(s0.info, s4.info) && Fair(s0.run, s4.run, s4.current, true, None)
            && s0.current.value in s4.info && s4.info[s0.current.value] == s1.info[s0.current.value]
            && s4.tasks == s0.tasks && s4.nextId == s0.nextId && s4.pending == s0.pending
  {
    PartitionParts(s0);
    hide Partition, Unparked, NoLostWakeup, Fair, OnlyDies, Switched, IdleAlive, DeadStays;
    var t, s3 := s0.current.value, s2.(current := None);
    ExitLeaves(s0, s1, s2, code, woken);
    SwitchPartition(s3);
    ExitWaits(s0, s1, s2, Switched(s3), t, woken);
    ExitFair(s0, s2, s3);
    ReadyNotDead(s3);
    DeadTransitive(s0.info, s3.info, Switched(s3).info);
  }

  /** The current task is dead and its parent woken. */
  ghost function Ending(s: State, code: int): (s': State)
    requires s.current.Some? && s.current.value in s.info
  {
    var t := s.current.value;
    Waking(s.(info := s.info[t := Task(Dead, s.info[t].parent, code)]), ChildKey(s.info[t].parent))
  }

  lemma EndingKnown(s: State, code: int)
    requires Known(s) && s.current.Some?
    ensures Known(Ending(s, code))
  {
    hide Waking;
    var t := s.current.value;
    var task := Task(Dead, s.info[t].parent, code);
    MarkKnown(s, t, task);
    WakeKnown(s.(info := s.info[t := task]), ChildKey(s.info[t].parent));
  }

  ghost function Exiting(s: State, code: int): (s': State)
    requires Known(s) && s.current.Some?
  {
    EndingKnown(s, code);
    Switched(Ending(s, code).(current := None))
  }

  lemma ExitKept(s: State, code: int)
    requires Known(s) && s.current.Some?
    ensures var s' := Exiting(s, code);
            && Known(s') && Fair(s.run, s'.run, s'.current, s'.current.Some?, None) && s.current.value in s'.info
            && (Inv(s) && s.current != Some(IDLE) ==>
                  && Inv(s') && DeadStays(s.info, s'.info)
                  && s'.info[s.current.value] == Task(Dead, s.info[s.current.value].parent, code))
  {
    hide Inv, Fair, DeadStays, Sweep, Switched, Unparked, Keeps;
    var t := s.current.value;
    var task := Task(Dead, s.info[t].parent, code);
    var s1, key := s.(info := s.info[t := task]), ChildKey(s.info[t].parent);
    MarkKnown(s, t, task);
    WakeKnown(s1, key);
    LeaveKnown(Waking(s1, key), s.run, Woken(s.waits, key));
    if Inv(s) && s.current != Some(IDLE) {
      ExitOutcome(s, s1, Waking(s1, key), code, Woken(s.waits, key));
    }
  }

  lemma FewerKnown(s: State, s': State)
    requires Known(s) && s' == s.(run := s'.run) && forall t: nat :: t in s'.run ==> t in s.run
    ensures Known(s')
  {
    forall i | 0 <= i < |s'.run| ensures s'.run[i] in s'.info {
      assert s'.run[i] in s'.run;
    }
  }

  lemma InvParkedOnce(s: State)
    requires Inv(s)
    ensures ParkedOnce(s.waits)
  {
  }

  /** The state after the killed task was marked dead and taken out of the run queue. */
  ghost predicate Struck(s0: State, s1: State, pid: nat, code: int) {
    && pid in s0.info && s1 == s0.(run := s1.run, info := s0.info[pid := Task(Dead, s0.info[pid].parent, code)])
    && (NoDup(s0.run) ==> NoDup(s1.run)) && forall t: nat :: t in s1.run <==> t in s0.run && t != pid
  }

  /** Killing wakes only the parent. */
  lemma OnlyParents(s: State, waits': seq<(Key, nat)>, pid: nat, woken: seq<nat>)
    requires Inv(s) && pid in s.info && Unparked(s.waits, waits', ChildKey(s.info[pid].parent), woken)
    ensures pid !in woken
  {
    hide Unparked;
    UnparkedFacts(s.waits, waits', ChildKey(s.info[pid].parent), woken);
    assert forall i :: 0 <= i < |s.waits| && s.waits[i].0 == ChildKey(s.info[pid].parent) ==> s.waits[i].1 != pid by {
      assert forall i :: 0 <= i < |s.waits| ==> StillWaits(s, s.waits[i]);
    }
  }

  lemma StruckPartition(s0: State, s1: State, pid: nat, code: int)
    requires Partition(s0) && s0.current != Some(pid) && Struck(s0, s1, pid, code) && !Parked(s0, pid)
    ensures Partition(s1)
  {
    forall c | c in s1.info ensures InPlace(s1, c) {
      assert InPlace(s0, c);
      assert Parked(s1, c) <==> Parked(s0, c);
    }
    forall i | 0 <= i < |s1.run|
      ensures s1.run[i] in s1.info && s1.info[s1.run[i]].state == Ready && s1.current != Some(s1.run[i])
    {
      assert s1.run[i] in s1.run;
      assert s1.run[i] in s0.run;
    }
  }

  /** A parked task that was killed is still parked, now dead. */
  lemma StillThere(s0: State, s2: State, parent: nat, pid: nat, woken: seq<nat>)
    requires Inv(s0) && Parked(s0, pid) && pid !in woken && Unparked(s0.waits, s2.waits, ChildKey(parent), woken)
    requires pid in s2.info && s2.info[pid].state == Dead
    ensures Parked(s2, pid) && !Partition(s2)
  {
    hide Unparked;
    UnparkedFacts(s0.waits, s2.waits, ChildKey(parent), woken);
    StillParked(s0, s2, ChildKey(parent), woken, pid);
    var i :| 0 <= i < |s2.waits| && s2.waits[i].1 == pid;
    assert s2.info[s2.waits[i].1].state != Blocked;
  }

  lemma KillOutcome(s0: State, s1: State, s2: State, pid: nat, code: int, woken: seq<nat>)
    requires Inv(s0) && s0.current != Some(pid) && Struck(s0, s1, pid, code)
    requires Unparked(s1.waits, s2.waits, ChildKey(s0.info[pid].parent), woken)
    requires s2 == s1.(waits := s2.waits, run := s1.run + woken, info := Readied(s1.info, woken))
    ensures Inv(s2) <==> !Parked(s0, pid) && pid != IDLE
    ensures pid in s2.info && s2.info[pid] == Task(Dead, s0.info[pid].parent, code) && pid !in s2.run
    ensures !Parked(s0, pid) ==> DeadStays(s0.info, s2.info)
  {
    hide Unparked, NoLostWakeup, NoDup, ParkedOnce, Partition;
    var parent := s0.info[pid].parent;
    OnlyParents(s0, s2.waits, pid, woken);
    if Parked(s0, pid) {
      StillThere(s0, s2, parent, pid, woken);
    } else {
      StruckPartition(s0, s1, pid, code);
      WakePartition(s1, s2, ChildKey(parent), woken);
      WaitsSubset(s1.waits, s2.waits, ChildKey(parent), woken);
      WaitsKept(s0, s2, Some(ChildKey(parent)), Some(parent));
      NotWoken(s0, s2.waits, ChildKey(parent), woken, s0.current.value);
      if pid != IDLE {
        NotWoken(s0, s2.waits, ChildKey(parent), woken, IDLE);
      }
    }
  }

  /** `kill` on the run queue from index i on. */
  ghost function Purge(q: seq<nat>, pid: nat, i: nat): (r: seq<nat>)
    requires i <= |q|
    decreases |q| - i
  {
    if i == |q| then q else if q[i] == pid then Purge(SwapRemove(q, i), pid, i) else Purge(q, pid, i + 1)
  }

  lemma SwapRemoveMembers(q: seq<nat>, i: nat)
    requires i < |q|
    ensures var r := SwapRemove(q, i);
            && (NoDup(q) ==> NoDup(r)) && (forall t: nat :: t != q[i] ==> (t in r <==> t in q))
            && forall j :: 0 <= j < i ==> r[j] == q[j]
  {
    var r := SwapRemove(q, i);
    assert forall j :: 0 <= j < |r| ==> r[j] == q[if j == i then |q| - 1 else j];
    forall t: nat | t != q[i] && t in q ensures t in r {
      var j :| 0 <= j < |q| && q[j] == t;
      assert r[if j == |q| - 1 then i else j] == t;
    }
  }

  lemma {:induction false} PurgeFrom(q0: seq<nat>, q: seq<nat>, pid: nat, i: nat)
    requires i <= |q| && Keeps(q0, q, Some(pid)) && (NoDup(q0) ==> NoDup(q)) && forall j :: 0 <= j < i ==> q[j] != pid
    requires forall t: nat :: t != pid ==> (t in q <==> t in q0)
    ensures var r := Purge(q, pid, i);
            && Keeps(q0, r, Some(pid)) && (NoDup(q0) ==> NoDup(r)) && forall t: nat :: t in r <==> t in q0 && t != pid
    decreases |q| - i
  {
    hide Keeps, SwapRemove, NoDup;
    if i == |q| {
    } else if q[i] == pid {
      SwapRemoveKeeps(q, i);
      SwapRemoveMembers(q, i);
      KeepsTransitive(q0, q, SwapRemove(q, i), Some(pid));
      PurgeFrom(q0, SwapRemove(q, i), pid, i);
    } else {
      PurgeFrom(q0, q, pid, i + 1);
    }
  }

  lemma PurgeFacts(q: seq<nat>, pid: nat)
    ensures var r := Purge(q, pid, 0);
            && Keeps(q, r, Some(pid)) && (NoDup(q) ==> NoDup(r)) && forall t: nat :: t in r <==> t in q && t != pid
  {
    hide Keeps;
    KeepsSelf(q);
    KeepsTransitive(q, q, q, Some(pid));
    PurgeFrom(q, q, pid, 0);
  }

  ghost function Killing(s: State, pid: nat, code: int): (s': State)
    requires pid in s.info
  {
    var parent := s.info[pid].parent;
    Waking(s.(info := s.info[pid := Task(Dead, parent, code)], run := Purge(s.run, pid, 0)), ChildKey(parent))
  }

  lemma KillKept(s: State, pid: nat, code: int)
    requires Known(s) && pid in s.info && s.current != Some(pid)
    ensures var s' := Killing(s, pid, code);
            && Known(s') && Keeps(s.run, s'.run, Some(pid)) && pid in s'.info
            && (Inv(s) ==>
                  && (Inv(s') <==> !Parked(s, pid) && pid != IDLE) && (!Parked(s, pid) ==> DeadStays(s.info, s'.info))
                  && s'.info[pid] == Task(Dead, s.info[pid].parent, code) && pid !in s'.run
                  && forall e :: e in s'.waits <==> e in s.waits && e.0 != ChildKey(s.info[pid].parent))
  {
    hide Known, Inv, Keeps, DeadStays, Parked, Sweep, Unparked, Purge, NoDup, Readied;
    var task, key := Task(Dead, s.info[pid].parent, code), ChildKey(s.info[pid].parent);
    var s1 := s.(info := s.info[pid := task], run := Purge(s.run, pid, 0));
    PurgeFacts(s.run, pid);
    MarkKnown(s, pid, task);
    FewerKnown(s.(info := s.info[pid := task]), s1);
    WakeKnown(s1, key);
    KeepsTransitive(s.run, s1.run, Waking(s1, key).run, Some(pid));
    if Inv(s) {
      KillOutcome(s, s1, Waking(s1, key), pid, code, Woken(s.waits, key));
      InvParkedOnce(s);
      UnparkedFacts(s.waits, Kept(s.waits, key), key, Woken(s.waits, key));
    }
  }

  lemma PendingKnown(s: State, pending: map<nat, nat>)
    requires Known(s)
    ensures Known(s.(pending := pending))
  {
  }

  lemma PendingPartition(s: State, pending: map<nat, nat>)
    requires Partition(s)
    ensures Partition(s.(pending := pending))
  {
    var s' := s.(pending := pending);
    forall c | c in s'.info ensures InPlace(s', c) {
      assert InPlace(s, c);
      assert Parked(s', c) <==> Parked(s, c);
    }
  }

  lemma SendOutcome(s: State, s': State, p: nat, woken: seq<nat>)
    requires Inv(s) && Unparked(s.waits, s'.waits, PortKey(p), woken)
    requires s' == s.(pending := s'.pending, waits := s'.waits, run := s.run + woken, info := Readied(s.info, woken))
    requires s'.pending == s.pending[p := Pending(s, p) + 1]
    ensures Inv(s') && DeadStays(s.info, s'.info) && forall t: nat :: (PortKey(p), t) in s.waits ==> t in s'.run
  {
    hide NoLostWakeup, Unparked;
    var s1 := s.(pending := s'.pending);
    PendingPartition(s, s'.pending);
    WakePartition(s1, s', PortKey(p), woken);
    WaitsSubset(s.waits, s'.waits, PortKey(p), woken);
    UnparkedFacts(s.waits, s'.waits, PortKey(p), woken);
    NotWoken(s, s'.waits, PortKey(p), woken, s.current.value);
    NotWoken(s, s'.waits, PortKey(p), woken, IDLE);
    hide Partition;
    WaitsKept(s, s', Some(PortKey(p)), None);
  }

  ghost function Sending(s: State, p: nat): (s': State) {
    if Pending(s, p) >= MAX_IN_FLIGHT then s else Waking(s.(pending := s.pending[p := Pending(s, p) + 1]), PortKey(p))
  }

  lemma SendKept(s: State, p: nat)
    requires Known(s)
    ensures var s' := Sending(s, p);
            && Known(s') && Fair(s.run, s'.run, s'.current, false, None)
            && (Inv(s) ==> Inv(s') && DeadStays(s.info, s'.info))
  {
    hide Known, Inv, Fair, DeadStays, Sweep, Unparked, Keeps;
    KeepsSelf(s.run);
    DeadSelf(s.info);
    MakeFair(s.run, s.run, s.current, None);
    if Pending(s, p) < MAX_IN_FLIGHT {
      var s1 := s.(pending := s.pending[p := Pending(s, p) + 1]);
      PendingKnown(s, s1.pending);
      WakeKnown(s1, PortKey(p));
      MakeFair(s.run, Waking(s1, PortKey(p)).run, s.current, None);
      if Inv(s) {
        SendOutcome(s, Waking(s1, PortKey(p)), p, Woken(s.waits, PortKey(p)));
      }
    }
  }

  ghost function Parking(s: State, key: Key): (s': State)
    requires s.current.Some? && s.current.value in s.info
  {
    var t := s.current.value;
    s.(info := s.info[t := s.info[t].(state := Blocked)], waits := s.waits + [(key, t)])
  }

  lemma ParkKnown(s: State, key: Key)
    requires Known(s) && s.current.Some?
    ensures s.current.value in s.info && (s.run != [] ==> s.run[0] in s.info && s.run[0] in Parking(s, key).info)
    ensures var s' := Switched(Parking(s, key));
            && Known(s') && Fair(s.run, s'.run, s'.current, s.run != [], None)
            && s'.tasks == s.tasks && s'.nextId == s.nextId && s'.pending == s.pending && Parked(s', s.current.value)
  {
    hide Fair;
    var s1 := Parking(s, key);
    assert s1.waits[|s.waits|].1 == s.current.value;
    assert Known(s1);
    SwitchKnown(s1);
    assert Switched(s1).waits == s1.waits;
  }

  lemma InvQueued(s: State)
    requires Inv(s) && s.current != Some(IDLE)
    ensures s.run != []
  {
    IdleQueued(s);
  }

  /** Only the current task changed what it waits for. */
  ghost predicate OwnWish(s: State, s1: State) {
    s1 == s.(wanted := s1.wanted) && forall t :: t in s.wanted && s.current != Some(t) ==>
        t in s1.wanted && s1.wanted[t] == s.wanted[t]
  }

  lemma SelfWish(s: State)
    ensures OwnWish(s, s)
  {
  }

  lemma RecvOutcome(s: State, p: nat)
    requires Inv(s) && p in s.pending && s.pending[p] > 0
    ensures Inv(s.(pending := s.pending[p := s.pending[p] - 1]))
  {
    hide NoLostWakeup;
    PendingPartition(s, s.pending[p := s.pending[p] - 1]);
    hide Partition;
    WaitsKept(s, s.(pending := s.pending[p := s.pending[p] - 1]), None, None);
  }

  lemma CurrentNotParked(s: State)
    requires Inv(s)
    ensures !Parked(s, s.current.value)
  {
  }

  lemma ParkPartition(s: State, s1: State, key: Key)
    requires Inv(s) && OwnWish(s, s1)
    ensures s.current.value in s1.info && Partition(Parking(s1, key))
  {
    CurrentNotParked(s);
    var s' := Parking(s1, key);
    forall c: nat ensures Parked(s', c) <==> Parked(s, c) || s.current == Some(c) {
      if Parked(s, c) {
        var i :| 0 <= i < |s.waits| && s.waits[i].1 == c;
        assert s'.waits[i].1 == c;
      }
      assert s'.waits[|s.waits|].1 == s.current.value;
    }
    forall c | c in s'.info ensures InPlace(s', c) {
      assert InPlace(s, c);
    }
  }

  lemma ParkWaits(s: State, s1: State, key: Key)
    requires Inv(s) && OwnWish(s, s1) && StillWaits(s1, (key, s.current.value)) && s.run != []
    requires s.current.value in s1.info && s1.run[0] in Parking(s1, key).info
    requires OnlyDies(Parking(s1, key).info, Switched(Parking(s1, key)).info, None)
    ensures NoLostWakeup(Switched(Parking(s1, key)))
  {
    var s2 := Parking(s1, key);
    var s' := Switched(s2);
    forall i | 0 <= i < |s'.waits| ensures StillWaits(s', s'.waits[i]) {
      assert s'.waits == s.waits + [(key, s.current.value)];
      if i < |s.waits| {
        assert StillWaits(s, s.waits[i]) && s.waits[i].1 != s.current.value;
        assert StillWaits(s1, s.waits[i]);
      }
      assert StillWaits(s1, s'.waits[i]);
      assert OnlyDies(s1.info, s'.info, None);
    }
  }

  /** Parking on something that has not happened, and switching. */
  lemma ParkOutcome(s: State, s1: State, key: Key)
    requires Inv(s) && s.current != Some(IDLE) && OwnWish(s, s1)
    requires StillWaits(s1, (key, s.current.value))
    ensures s1.current.Some? && s1.current.value in s1.info && s1.run != [] && s1.run[0] in s1.info
    ensures Parking(s1, key).run[0] in Parking(s1, key).info
    ensures var s' := Switched(Parking(s1, key));
            && Inv(s') && DeadStays(s.info, s'.info) && Fair(s.run, s'.run, s'.current, true, None)
            && s'.tasks == s.tasks && s'.nextId == s.nextId && s'.pending == s.pending && Parked(s', s.current.value)
            && s'.current != s.current
  {
    hide NoLostWakeup, OnlyDies, MovesUp;
    PartitionParts(s);
    IdleQueued(s);
    ParkPartition(s, s1, key);
    var s2 := Parking(s1, key);
    SwitchPartition(s2);
    ReadyNotDead(s2);
    hide Partition;
    ParkWaits(s, s1, key);
    TailMovesUp(s.run, []);
    assert Switched(s2).run == s.run[1..] + [];
    assert s2.waits[|s.waits|].1 == s.current.value;
  }

  ghost function Receiving(s: State, p: nat): (s': State)
    requires Known(s) && s.current.Some?
  {
    if Pending(s, p) > 0 then s.(pending := s.pending[p := Pending(s, p) - 1])
    else Switched(Parking(s, PortKey(p)))
  }

  lemma RecvKept(s: State, p: nat)
    requires Known(s) && s.current.Some?
    ensures var s', got := Receiving(s, p), Pending(s, p) > 0;
            && Known(s') && Fair(s.run, s'.run, s'.current, !got && s.run != [], None)
            && (!got ==> Parked(s', s.current.value))
            && (Inv(s) && s.current != Some(IDLE) ==>
                  Inv(s') && DeadStays(s.info, s'.info) && s.run != [] && (!got ==> s'.current != s.current))
  {
    hide Inv, Fair, DeadStays, Switched, Keeps, Parked;
    KeepsSelf(s.run);
    DeadSelf(s.info);
    MakeFair(s.run, s.run, s.current, None);
    if Inv(s) && s.current != Some(IDLE) {
      InvQueued(s);
    }
    if Pending(s, p) > 0 {
      PendingKnown(s, s.pending[p := Pending(s, p) - 1]);
      if Inv(s) {
        RecvOutcome(s, p);
      }
    } else {
      ParkKnown(s, PortKey(p));
      if Inv(s) && s.current != Some(IDLE) {
        SelfWish(s);
        ParkOutcome(s, s, PortKey(p));
      }
    }
  }

  lemma WishKnown(s: State, wanted: map<nat, nat>)
    requires Known(s)
    ensures Known(s.(wanted := wanted))
  {
  }

  lemma NewWish(s: State, pid: nat)
    requires Inv(s) && NoneExited(s.info, s.current.value, pid)
    ensures var s1 := s.(wanted := s.wanted[s.current.value := pid]);
            OwnWish(s, s1) && StillWaits(s1, (ChildKey(s.current.value), s.current.value))
  {
    hide Partition, NoLostWakeup;
  }

  /** A waitpid has to wait. */
  ghost predicate Parks(s: State, pid: nat, nohang: bool)
    requires s.current.Some?
  {
    !nohang && Child(s, pid) && NoneExited(s.info, s.current.value, pid)
  }

  ghost function Awaiting(s: State, pid: nat, nohang: bool): (s': State)
    requires Known(s) && s.current.Some?
  {
    var t := s.current.value;
    if Parks(s, pid, nohang) then Switched(Parking(s.(wanted := s.wanted[t := pid]), ChildKey(t))) else s
  }

  lemma WaitKept(s: State, pid: nat, nohang: bool)
    requires Known(s) && s.current.Some?
    ensures var s', parks := Awaiting(s, pid, nohang), Parks(s, pid, nohang);
            && Known(s') && Fair(s.run, s'.run, s'.current, parks && s.run != [], None)
            && (parks ==> Parked(s', s.current.value))
            && (Inv(s) && s.current != Some(IDLE) ==>
                  Inv(s') && DeadStays(s.info, s'.info) && s.run != [] && (parks ==> s'.current != s.current))
  {
    hide Inv, Fair, DeadStays, Switched, Keeps, Parked, StillWaits, OwnWish;
    KeepsSelf(s.run);
    DeadSelf(s.info);
    MakeFair(s.run, s.run, s.current, None);
    if Inv(s) && s.current != Some(IDLE) {
      InvQueued(s);
    }
    if Parks(s, pid, nohang) {
      var t := s.current.value;
      var s1 := s.(wanted := s.wanted[t := pid]);
      WishKnown(s, s1.wanted);
      ParkKnown(s1, ChildKey(t));
      if Inv(s) && s.current != Some(IDLE) {
        NewWish(s, pid);
        ParkOutcome(s, s1, ChildKey(t));
      }
    }
  }

  predicate Exited(task: Task, id: nat, parent: nat, pid: nat) {
    task.parent == parent && (pid == 0 || id == pid) && task.state == Dead
  }

  lemma ReadiedStep(info: map<nat, Task>, up: seq<nat>, k: nat)
    requires k < |up| && up[k] in info
    ensures up[..k + 1] == up[..k] + [up[k]]
    ensures Readied(info, up[..k])[up[k] := Readied(info, up[..k])[up[k]].(state := Ready)] ==
              Readied(info, up[..k + 1])
  {
    assert up[..k + 1] == up[..k] + [up[k]];
  }

  lemma WokenByKey(waits: seq<(Key, nat)>, waits': seq<(Key, nat)>, key: Key, woken: seq<nat>, t: nat)
    requires Unparked(waits, waits', key, woken) && (key, t) in waits
    ensures t in woken
  {
    assert (key, t) in multiset(waits);
    assert (key, t) !in multiset(waits');
    assert (key, t) in multiset(Keyed(key, woken));
    assert (key, t) in Keyed(key, woken);
  }

  // ---------------------------------------------------------------------
  // The scheduler

  class Scheduler {
    var run: seq<nat>              // RUN_QUEUE
    var current: Option<nat>       // CURRENT
    var tasks: seq<nat>            // TASKS, in order of registration
    var info: map<nat, Task>
    var waits: seq<(Key, nat)>     // WAIT_QUEUES
    var nextId: nat
    var pending: map<nat, nat>     // messages queued per port

    ghost var wanted: map<nat, nat> // child a task in waitpid waits for, 0 for any
    ghost var history: seq<nat>    // the tasks switched to, in order

    constructor (run: seq<nat>, current: Option<nat>, tasks: seq<nat>, info: map<nat, Task>, nextId: nat,
                 pending: map<nat, nat>)
      ensures this.run == run && this.current == current && this.tasks == tasks && this.info == info
      ensures this.nextId == nextId && this.pending == pending
      ensures waits == [] && wanted == map[] && history == []
    {
      this.run, this.current, this.tasks, this.info, this.waits, this.nextId, this.pending, this.wanted,
          this.history := run, current, tasks, info, [], nextId, pending, map[], [];
    }

    method SetState(t: nat, s: TaskState)
      requires t in info
      modifies `info
      ensures info == old(info)[t := old(info)[t].(state := s)]
    {
      info := info[t := info[t].(state := s)];
    }

    ghost function S(): (s: State)
      reads this
    {
      State(run, current, tasks, info, waits, nextId, pending, wanted)
    }

    /** Take the entries of a key out of the wait queue. */
    method Unpark(key: Key) returns (up: seq<nat>)
      modifies `waits
      ensures (waits, up) == Sweep(old(waits), key, 0, [])
    {
      hide SwapRemove;
      up := [];
      var i := 0;
      while i < |waits|
        invariant 0 <= i <= |waits| && Sweep(waits, key, i, up) == Sweep(old(waits), key, 0, [])
        decreases |waits| - i
      {
        if waits[i].0 == key {
          up := up + [waits[i].1];
          waits := SwapRemove(waits, i);
        } else {
          i := i + 1;
        }
      }
    }

    /** Wake every task parked on a key. */
    method WakeAll(key: Key)
      requires forall i :: 0 <= i < |waits| ==> waits[i].1 in info
      modifies `waits, `run, `info
      ensures S() == Waking(old(S()), key) && Keeps(old(run), run, None)
      ensures Unparked(old(waits), waits, key, Woken(old(waits), key))
      ensures forall e :: e in waits <==> e in old(waits) && e.0 != key
      ensures forall t: nat :: t in run <==> t in old(run) || (key, t) in old(waits)
      ensures info.Keys == old(info.Keys)
      ensures forall t :: t in info ==>
                info[t] == if (key, t) in old(waits) then old(info)[t].(state := Ready) else old(info)[t]
    {
      hide Unparked, Keeps, Sweep;
      SweepUnparks(waits, key, info.Keys);
      SweepMembers(waits, key, info.Keys);
      var up := Unpark(key);
      for k := 0 to |up|
        invariant run == old(run) + up[..k] && info == Readied(old(info), up[..k]) && waits == Kept(old(waits), key)
      {
        ReadiedStep(old(info), up, k);
        SetState(up[k], Ready);
        run := run + [up[k]];
      }
      assert up[..|up|] == up;
      AppendKeeps(old(run), up);
    }

    method Schedule()
      requires run == [] || run[0] in info
      modifies `run, `current, `info, `history
      ensures S() == Switched(old(S())) && Ran(old(history), history, current, old(run) != [])
      ensures old(run) == [] ==> S() == old(S())
      ensures old(run) != [] ==>
                var next, back := old(run)[0],
                  old(current.Some? && current.value in info && info[current.value].state in {Ready, Running});
                && current == Some(next) && run == old(run)[1..] + (if back then [old(current).value] else [])
                && info.Keys == old(info.Keys) && info[next] == old(info)[next].(state := Running)
                && forall t :: t in info && t != next ==>
                     info[t] == if back && old(current) == Some(t) then old(info)[t].(state := Ready) else old(info)[t]
    {
      if run == [] {
        return;
      }
      var next := run[0];
      run := run[1..];
      if current.Some? && current.value in info && info[current.value].state in {Ready, Running} {
        SetState(current.value, Ready);
        run := run + [current.value];
      }
      SetState(next, Running);
      current := Some(next);
      history := history + [next];
    }

    /** Park the current task and switch. */
    method BlockOn(key: Key)
      requires current.Some? && current.value in info && (run == [] || run[0] in info)
      modifies `run, `current, `info, `waits, `history
      ensures S() == Switched(Parking(old(S()), key)) && Ran(old(history), history, current, old(run) != [])
      ensures waits == old(waits) + [(key, old(current).value)] && old(current).value in info
      ensures if old(run) == [] then current == old(current) && run == []
              else current == Some(old(run)[0]) && run == old(run)[1..]
      ensures current == old(current) || info[old(current).value].state == Blocked
    {
      SetState(current.value, Blocked);
      waits := waits + [(key, current.value)];
      Schedule();
    }

    /** Take a killed task out of the run queue. */
    method Unqueue(pid: nat)
      modifies `run
      ensures run == Purge(old(run), pid, 0) && Keeps(old(run), run, Some(pid)) && (NoDup(old(run)) ==> NoDup(run))
      ensures forall t: nat :: t in run <==> t in old(run) && t != pid
    {
      hide SwapRemove;
      var i := 0;
      while i < |run|
        invariant 0 <= i <= |run| && Purge(run, pid, i) == Purge(old(run), pid, 0)
        decreases |run| - i
      {
        if run[i] == pid {
          run := SwapRemove(run, i);
        } else {
          i := i + 1;
        }
      }
      PurgeFacts(old(run), pid);
    }

    /** `find_task`: the registered task with this id. */
    method FindTask(pid: nat) returns (found: bool)
      ensures found <==> pid in tasks
    {
      for i := 0 to |tasks|
        invariant pid !in tasks[..i]
      {
        if tasks[i] == pid {
          return true;
        }
      }
      assert tasks[..|tasks|] == tasks;
      return false;
    }

    /** `find_exited_child`: the first registered child that matches and has exited. */
    method FindExitedChild(parent: nat, pid: nat) returns (r: Option<(nat, int)>)
      requires forall i :: 0 <= i < |tasks| ==> tasks[i] in info
      ensures r.None? <==> forall t :: t in tasks ==> !Exited(info[t], t, parent, pid)
      ensures r.Some? ==>
                exists i ::
                  && 0 <= i < |tasks| && tasks[i] == r.value.0 && Exited(info[tasks[i]], tasks[i], parent, pid)
                  && r.value.1 == info[tasks[i]].code &&
                                      forall j :: 0 <= j < i ==> !Exited(info[tasks[j]], tasks[j], parent, pid)
    {
      for i := 0 to |tasks|
        invariant forall j :: 0 <= j < i ==> !Exited(info[tasks[j]], tasks[j], parent, pid)
      {
        if Exited(info[tasks[i]], tasks[i], parent, pid) {
          return Some((tasks[i], info[tasks[i]].code));
        }
      }
      return None;
    }

    method HasChild(parent: nat, pid: nat) returns (r: bool)
      requires forall i :: 0 <= i < |tasks| ==> tasks[i] in info
      ensures r <==> exists t :: t in tasks && info[t].parent == parent && (pid == 0 || t == pid)
    {
      for i := 0 to |tasks|
        invariant forall j :: 0 <= j < i ==> !(info[tasks[j]].parent == parent && (pid == 0 || tasks[j] == pid))
      {
        if info[tasks[i]].parent == parent && (pid == 0 || tasks[i] == pid) {
          assert tasks[i] in tasks;
          return true;
        }
      }
      return false;
    }

    /** The current task exits: its parent is woken and another task runs, if there is one. */
    method CurrentExit(code: int)
      requires Known(S()) && current.Some?
      modifies this
      ensures S() == Exiting(old(S()), code) && Ran(old(history), history, current, current.Some?)
      ensures Known(S()) && Fair(old(run), run, current, current.Some?, None) && old(current).value in info
      ensures var key := ChildKey(old(info[current.value].parent));
              && (forall e :: e in waits <==> e in old(waits) && e.0 != key)
              && forall t: nat :: (key, t) in old(waits) ==> t in run || current == Some(t)
      ensures tasks == old(tasks) && nextId == old(nextId) && pending == old(pending)
      ensures old(Inv(S())) && old(current) != Some(IDLE) ==>
                && Inv(S()) && DeadStays(old(info), info)
                && info[old(current).value] == Task(Dead, old(info[current.value].parent), code)
    {
      hide Inv, Fair, DeadStays, Sweep, Unparked, Keeps;
      ghost var s := S();
      ExitKept(s, code);
      var t := current.value;
      var parent := info[t].parent;
      info := info[t := Task(Dead, parent, code)];
      MarkKnown(s, t, info[t]);
      WakeKnown(S(), ChildKey(parent));
      WakeAll(ChildKey(parent));
      KnownParts(S());
      current := None;
      Schedule();
    }

    /** Kill another task. The invariant survives exactly when the task is neither parked nor idle. */
    method Kill(pid: nat, code: int) returns (ok: bool)
      requires Known(S()) && current != Some(pid)
      modifies this
      ensures Known(S()) && (ok <==> pid in old(info)) && history == old(history)
      ensures S() == if ok then Killing(old(S()), pid, code) else old(S())
      ensures old(Inv(S())) ==> (Inv(S()) <==> pid !in old(info) || (!Parked(old(S()), pid) && pid != IDLE))
      ensures old(Inv(S())) && ok ==> pid in info && info[pid] == Task(Dead, old(info)[pid].parent, code) && pid !in run
      ensures old(Inv(S())) && ok && !Parked(old(S()), pid) ==> DeadStays(old(info), info)
      ensures ok ==>
                var key := ChildKey(old(info)[pid].parent);
                && (forall e :: e in waits <==> e in old(waits) && e.0 != key)
                && forall t: nat :: t in run <==> (t in old(run) && t != pid) || (key, t) in old(waits)
      ensures current == old(current) && tasks == old(tasks) && nextId == old(nextId) && pending == old(pending)
      ensures Keeps(old(run), run, if ok then Some(pid) else None)
    {
      hide Known, Inv, Keeps, DeadStays, Parked, Sweep, Unparked, Purge, NoDup;
      ghost var s := S();
      KnownParts(s);
      KeepsSelf(run);
      var found := FindTask(pid);
      if !found {
        return false;
      }
      KillKept(s, pid, code);
      var parent := info[pid].parent;
      info := info[pid := Task(Dead, parent, code)];
      Unqueue(pid);
      WakeAll(ChildKey(parent));
      return true;
    }

    /** A timer tick, or a task giving up the CPU. */
    method Tick()
      requires Known(S())
      modifies this
      ensures S() == Switched(old(S())) && Ran(old(history), history, current, old(run) != [])
      ensures Known(S()) && Fair(old(run), run, current, old(run) != [], None)
      ensures old(Inv(S())) ==>
                Inv(S()) && DeadStays(old(info), info) && (old(current) != Some(IDLE) ==> current != old(current))
    {
      hide Inv, Fair, DeadStays, Switched;
      ghost var s := S();
      KnownParts(s);
      SwitchKnown(s);
      if Inv(s) {
        TickOutcome(s);
      }
      Schedule();
    }

    /** Start a task as a child of the current one. */
    method SysSpawn() returns (id: nat)
      requires Known(S()) && current.Some?
      modifies this
      ensures S() == Spawning(old(S())) && id == old(nextId) && id !in old(info) && history == old(history)
      ensures info == old(info)[id := Task(Ready, old(current).value, 0)] && tasks == old(tasks) + [id]
      ensures run == old(run) + [id] && nextId == id + 1
      ensures current == old(current) && waits == old(waits) && pending == old(pending)
      ensures Known(S()) && Fair(old(run), run, current, false, None)
      ensures old(Inv(S())) ==> Inv(S()) && DeadStays(old(info), info)
    {
      hide Known, Inv, Fair, DeadStays;
      ghost var s := S();
      SpawnKnown(s);
      if Inv(s) {
        SpawnOutcome(s);
      }
      id := nextId;
      nextId := nextId + 1;
      info := info[id := Task(Ready, current.value, 0)];
      tasks := tasks + [id];
      run := run + [id];
    }

    /** Queue a message on a port and wake its receiver. */
    method SysSend(p: nat) returns (ok: bool)
      requires Known(S())
      modifies this
      ensures S() == Sending(old(S()), p) && (ok <==> Pending(old(S()), p) < MAX_IN_FLIGHT) && history == old(history)
      ensures Known(S()) && Fair(old(run), run, current, false, None)
      ensures ok <==> p !in old(pending) || old(pending)[p] < 16
      ensures ok ==> pending == old(pending)[p := (if p in old(pending) then old(pending)[p] else 0) + 1]
      ensures ok ==> forall e :: e in waits <==> e in old(waits) && e.0 != PortKey(p)
      ensures ok ==> forall t: nat :: t in run <==> t in old(run) || (PortKey(p), t) in old(waits)
      ensures !ok ==> S() == old(S())
      ensures current == old(current) && tasks == old(tasks) && nextId == old(nextId)
      ensures old(Inv(S())) ==> Inv(S()) && DeadStays(old(info), info)
    {
      hide Known, Inv, Fair, DeadStays, Sweep, Unparked, Keeps;
      ghost var s := S();
      KnownParts(s);
      SendKept(s, p);
      var n := if p in pending then pending[p] else 0;
      if n >= MAX_IN_FLIGHT {
        return false;
      }
      pending := pending[p := n + 1];
      WakeAll(PortKey(p));
      return true;
    }

    /** Take a message from a port, or park until there is one. */
    method SysRecv(p: nat) returns (got: bool)
      requires Known(S()) && current.Some?
      modifies this
      ensures S() == Receiving(old(S()), p) && (got <==> p in old(pending) && old(pending)[p] > 0)
      ensures if got then
                && pending == old(pending)[p := old(pending)[p] - 1]
                && run == old(run) && current == old(current) && info == old(info) && waits == old(waits)
              else pending == old(pending) && waits == old(waits) + [(PortKey(p), old(current).value)]
      ensures tasks == old(tasks) && nextId == old(nextId)
      ensures Ran(old(history), history, current, !got && old(run) != [])
      ensures Known(S()) && Fair(old(run), run, current, !got && old(run) != [], None)
      ensures !got ==> Parked(S(), old(current).value)
      ensures old(Inv(S())) && old(current) != Some(IDLE) ==>
                Inv(S()) && DeadStays(old(info), info) && old(run) != [] && (!got ==> current != old(current))
    {
      hide Inv, Fair, DeadStays, Switched, Keeps, Parked;
      ghost var s := S();
      RecvKept(s, p);
      KnownParts(s);
      if p in pending && pending[p] > 0 {
        pending := pending[p := pending[p] - 1];
        return true;
      }
      BlockOn(PortKey(p));
      return false;
    }

    /** What `waitpid` can answer at once: a matching child that has exited, -1 without a matching
        child, 0 if the caller will not wait. */
    method CheckChildren(pid: nat, nohang: bool) returns (r: Option<int>, code: int)
      requires Known(S()) && current.Some?
      ensures r.None? <==> Parks(S(), pid, nohang)
      ensures r == Some(-1) <==>
                !exists t :: t in tasks && t in info && info[t].parent == current.value && (pid == 0 || t == pid)
      ensures r == Some(0) <==> nohang && Child(S(), pid) && NoneExited(info, current.value, pid)
      // The first registered matching child that has exited, and its code.
      ensures r.Some? && r.value > 0 ==>
                exists i ::
                  && 0 <= i < |tasks| && tasks[i] == r.value && (pid == 0 || r.value == pid)
                  && r.value in info && info[r.value] == Task(Dead, current.value, code)
                  && forall j :: 0 <= j < i ==>
                       var t := tasks[j];
                       && t in info
                       && !(info[t].parent == current.value && (pid == 0 || t == pid) && info[t].state == Dead)
      ensures r.Some? ==> r.value >= -1
    {
      KnownParts(S());
      var child := HasChild(current.value, pid);
      if !child {
        return Some(-1), 0;
      }
      var exited := FindExitedChild(current.value, pid);
      if exited.Some? {
        return Some(exited.value.0), exited.value.1;
      }
      return if nohang then Some(0) else None, 0;
    }

    /** `waitpid`: the answer, or the caller parks. */
    method SysWaitpid(pid: nat, nohang: bool) returns (r: Option<int>, code: int)
      requires Known(S()) && current.Some?
      modifies this
      ensures S() == Awaiting(old(S()), pid, nohang) && (r.None? <==> Parks(old(S()), pid, nohang))
      ensures Ran(old(history), history, current, r.None? && old(run) != [])
      ensures Known(S()) && Fair(old(run), run, current, r.None? && old(run) != [], None)
      ensures r == Some(-1) <==>
                !exists t ::
                  && t in old(tasks) && t in old(info) && old(info)[t].parent == old(current).value
                  && (pid == 0 || t == pid)
      ensures r == Some(0) <==> nohang && Child(old(S()), pid) && NoneExited(old(info), old(current).value, pid)
      ensures r.Some? && r.value > 0 ==>
                exists i ::
                  && 0 <= i < |old(tasks)| && old(tasks)[i] == r.value && (pid == 0 || r.value == pid)
                  && r.value in old(info) && old(info)[r.value] == Task(Dead, old(current).value, code)
                  && forall j :: 0 <= j < i ==>
                       var t := old(tasks)[j];
                       t in old(info) && !(old(info)[t].parent == old(current).value && (pid == 0 || t == pid)
                         && old(info)[t].state == Dead)
      ensures r.Some? ==> r.value >= -1 && S() == old(S())
      ensures r.None? ==> waits == old(waits) + [(ChildKey(old(current).value), old(current).value)]
      ensures tasks == old(tasks) && nextId == old(nextId) && pending == old(pending)
      ensures r.None? ==> Parked(S(), old(current).value)
      ensures old(Inv(S())) && old(current) != Some(IDLE) ==>
                Inv(S()) && DeadStays(old(info), info) && old(run) != [] && (r.None? ==> current != old(current))
    {
      hide Inv, Fair, DeadStays, Switched, Keeps, Parked, NoneExited, Child;
      ghost var s := S();
      WaitKept(s, pid, nohang);
      KnownParts(s);
      r, code := CheckChildren(pid, nohang);
      if r.Some? {
        return;
      }
      wanted := wanted[current.value := pid];
      BlockOn(ChildKey(current.value));
    }

    /** `kill`: a task may end itself; Spring may end anybody, others their children. */
    method SysKill(pid: nat, code: int) returns (r: Option<int>)
      requires Known(S()) && current.Some?
      modifies this
      ensures r == if old(current) == Some(pid) then None
                   else if pid in old(info) && (old(current) == Some(2) || old(current) == Some(old(info)[pid].parent))
                   then Some(0)
                   else Some(-1)
      ensures S() == if r.None? then Exiting(old(S()), code)
                     else if r == Some(0) then Killing(old(S()), pid, code)
                     else old(S())
      ensures Ran(old(history), history, current, r.None? && current.Some?)
      ensures Known(S())
      ensures Fair(old(run), run, current, r.None? && current.Some?, if r == Some(0) then Some(pid) else None)
      ensures old(Inv(S())) && old(current) != Some(IDLE) ==>
                && (r == Some(0) || r.None? ==> pid in info && info[pid].state == Dead && info[pid].code == code)
                && (Inv(S()) <==> r != Some(0) || (!Parked(old(S()), pid) && pid != IDLE))
                && (r != Some(0) || !Parked(old(S()), pid) ==> DeadStays(old(info), info))
    {
      hide Known, Inv, Fair, DeadStays, Keeps, Parked, Exiting, Killing;
      ghost var s := S();
      KnownParts(s);
      KeepsSelf(run);
      DeadSelf(info);
      MakeFair(run, run, current, None);
      if current == Some(pid) {
        CurrentExit(code);
        return None;
      }
      var found := FindTask(pid);
      if !(current == Some(SPRING) || (found && info[pid].parent == current.value)) {
        return Some(-1);
      }
      var ok := Kill(pid, code);
      MakeFair(s.run, run, current, if ok then Some(pid) else None);
      return Some(if ok then 0 else -1);
    }
  }

  lemma InvKnown(s: State)
    requires Inv(s)
    ensures Known(s)
  {
  }

  lemma TasksInfo(s: State)
    requires Partition(s)
    ensures forall t :: t in s.tasks <==> t in s.info
    ensures forall t :: t in s.info ==> 0 < t
  {
    forall t ensures t in s.tasks <==> t in s.info {
      assert t in s.info <==> t in (set x | x in s.tasks);
    }
  }

  // ---------------------------------------------------------------------
  // Runs

  /** The state `run` starts from: idle first, then Spring; idle is made current without being
      marked running. */
  method Boot() returns (k: Scheduler)
    ensures fresh(k) && Inv(k.S()) && Known(k.S()) && k.current == Some(IDLE) && k.run == [SPRING] && k.nextId == 3
  {
    k := new Scheduler([SPRING], Some(IDLE), [IDLE, SPRING],
        map[IDLE := Task(Ready, 0, 0), SPRING := Task(Ready, 0, 0)], 3, map[]);
    assert k.run[0] == SPRING;
    assert (set t | t in k.tasks) == {IDLE, SPRING} by {
      assert k.tasks[0] == IDLE && k.tasks[1] == SPRING;
    }
    InvKnown(k.S());
  }

  /** No task waits for its own exit. */
  lemma OwnKey(s: State, key: Key, pid: nat)
    requires Inv(s) && (key, pid) in s.waits
    ensures pid in s.info && key != ChildKey(s.info[pid].parent)
  {
    var i :| 0 <= i < |s.waits| && s.waits[i] == (key, pid);
    assert StillWaits(s, s.waits[i]);
  }

  /** A killed task that was parked comes back to life with the next wake-up of its key. */
  method KillThenWake(k: Scheduler, key: Key, pid: nat, code: int)
    requires Inv(k.S()) && (key, pid) in k.waits && k.current != Some(pid)
    modifies k
    ensures pid in k.info && k.info[pid].state == Ready && pid in k.run
  {
    ghost var s := k.S();
    PartitionParts(s);
    TasksInfo(s);
    var i :| 0 <= i < |k.waits| && k.waits[i] == (key, pid);
    assert k.waits[i].1 in k.info;
    var ok := k.Kill(pid, code);
    OwnKey(s, key, pid);
    assert (key, pid) in k.waits;
    ghost var waits := k.waits;
    forall j | 0 <= j < |k.waits| ensures k.waits[j].1 in k.info {
      assert k.waits[j] in k.waits;
      assert k.waits[j] in s.waits;
    }
    k.WakeAll(key);
    WokenByKey(waits, k.waits, key, Woken(waits, key), pid);
  }

  datatype Step =
    | TickStep
    | SpawnStep
    | ExitStep(code: int)
    | KillStep(pid: nat, killCode: int)
    | SendStep(port: nat)
    | RecvStep(from: nat)
    | WaitStep(child: nat, nohang: bool)

  /** System calls are made by a task, and never by the idle one, which only waits for interrupts. */
  predicate Able(current: Option<nat>, step: Step) {
    step.TickStep? || (current.Some? && current != Some(IDLE))
  }

  /** The task a step kills, other than the one that makes it. */
  ghost function Victim(s: State, step: Step): (t: Option<nat>) {
    if step.KillStep? && Able(s.current, step) && s.current != Some(step.pid)
        && MayKill(s, step.pid) then Some(step.pid) else None
  }

  /** The step kills neither a parked task nor the idle one. */
  ghost predicate Harmless(s: State, step: Step) {
    var v := Victim(s, step);
    v.Some? ==> !Parked(s, v.value) && v.value != IDLE
  }

  /** The state after a step of the current task. */
  ghost function After(s: State, step: Step): (s': State)
    requires Known(s)
  {
    if !Able(s.current, step) then s
    else
      match step
      case TickStep => Switched(s)
      case SpawnStep => Spawning(s)
      case ExitStep(code) => Exiting(s, code)
      case KillStep(pid, code) =>
        if s.current == Some(pid) then Exiting(s, code) else if MayKill(s, pid) then Killing(s, pid, code) else s
      case SendStep(p) => Sending(s, p)
      case RecvStep(p) => Receiving(s, p)
      case WaitStep(pid, nohang) => Awaiting(s, pid, nohang)
  }

  /** The step calls `schedule` with somebody in the run queue. */
  ghost predicate Switches(s: State, step: Step)
    requires Known(s)
  {
    && Able(s.current, step)
    && match step
       case TickStep => s.run != []
       case SpawnStep => false
       case ExitStep(code) => Ending(s, code).run != []
       case KillStep(pid, code) => s.current == Some(pid) && Ending(s, code).run != []
       case SendStep(p) => false
       case RecvStep(p) => Pending(s, p) == 0 && s.run != []
       case WaitStep(pid, nohang) => Parks(s, pid, nohang) && s.run != []
  }

  /** Nobody but the victim is moved back in the run queue, whatever was killed before, and the
      invariant is kept exactly by the harmless steps. */
  lemma StepKept(s: State, step: Step)
    requires Known(s)
    ensures var s' := After(s, step);
            && Known(s') && Fair(s.run, s'.run, s'.current, Switches(s, step), Victim(s, step))
            && (Switches(s, step) ==> s'.current.Some?)
            && (Inv(s) ==> (Inv(s') <==> Harmless(s, step)) && (Harmless(s, step) ==> DeadStays(s.info, s'.info)))
  {
    hide Inv, Fair, DeadStays, Parked, Keeps, Sweep, Purge, Unparked;
    KeepsSelf(s.run);
    DeadSelf(s.info);
    MakeFair(s.run, s.run, s.current, None);
    if Able(s.current, step) {
      match step {
        case TickStep =>
          SwitchKnown(s);
          if Inv(s) {
            TickOutcome(s);
          }
        case SpawnStep =>
          SpawnKnown(s);
          if Inv(s) {
            SpawnOutcome(s);
          }
        case ExitStep(code) =>
          ExitKept(s, code);
        case KillStep(pid, code) =>
          if s.current == Some(pid) {
            ExitKept(s, code);
          } else if MayKill(s, pid) {
            KillKept(s, pid, code);
            MakeFair(s.run, After(s, step).run, s.current, Some(pid));
          }
        case SendStep(p) =>
          SendKept(s, p);
        case RecvStep(p) =>
          RecvKept(s, p);
        case WaitStep(pid, nohang) =>
          WaitKept(s, pid, nohang);
      }
    }
  }

  /** Every task is still there, with the parent it had. */
  ghost predicate Lineage(info: map<nat, Task>, info': map<nat, Task>) {
    forall t :: t in info ==> t in info' && info'[t].parent == info[t].parent
  }

  lemma SwitchLineage(s: State)
    requires s.run == [] || s.run[0] in s.info
    ensures Lineage(s.info, Switched(s).info)
  {
  }

  lemma WakeLineage(s: State, key: Key)
    ensures Lineage(s.info, Waking(s, key).info)
  {
    hide Sweep;
  }

  lemma ExitLineage(s: State, code: int)
    requires Known(s) && s.current.Some?
    ensures Lineage(s.info, Exiting(s, code).info)
  {
    hide Waking, Switched;
    var t := s.current.value;
    var task := Task(Dead, s.info[t].parent, code);
    EndingKnown(s, code);
    WakeLineage(s.(info := s.info[t := task]), ChildKey(task.parent));
    SwitchLineage(Ending(s, code).(current := None));
  }

  lemma StepLineage(s: State, step: Step)
    requires Known(s)
    ensures Lineage(s.info, After(s, step).info)
  {
    hide Waking, Switched, Purge, Sweep;
    if Able(s.current, step) {
      match step {
        case TickStep =>
          SwitchLineage(s);
        case ExitStep(code) =>
          ExitLineage(s, code);
        case KillStep(pid, code) =>
          if s.current == Some(pid) {
            ExitLineage(s, code);
          } else if MayKill(s, pid) {
            var task := Task(Dead, s.info[pid].parent, code);
            WakeLineage(s.(info := s.info[pid := task], run := Purge(s.run, pid, 0)), ChildKey(task.parent));
          }
        case SendStep(p) =>
          WakeLineage(s.(pending := s.pending[p := Pending(s, p) + 1]), PortKey(p));
        case RecvStep(p) =>
          SwitchLineage(Parking(s, PortKey(p)));
        case WaitStep(pid, _) =>
          var t := s.current.value;
          SwitchLineage(Parking(s.(wanted := s.wanted[t := pid]), ChildKey(t)));
        case SpawnStep =>
      }
    }
  }

  /** One step of whatever task is current. */
  method Do(k: Scheduler, step: Step)
    requires Known(k.S()) && Able(k.current, step)
    modifies k
    ensures k.S() == After(old(k.S()), step)
    ensures Ran(old(k.history), k.history, k.current, Switches(old(k.S()), step))
    ensures step.TickStep? && old(k.run) != [] ==> k.current == Some(old(k.run)[0])
    ensures step.SpawnStep? ==>
              && k.info == old(k.info)[old(k.nextId) := Task(Ready, old(k.current).value, 0)]
              && k.run == old(k.run) + [old(k.nextId)]
    ensures step.ExitStep? && old(Inv(k.S())) ==>
              && old(k.current).value in k.info && k.info[old(k.current).value].state == Dead
              && k.info[old(k.current).value].code == step.code
    ensures step.KillStep? && old(Inv(k.S())) && (old(k.current) == Some(step.pid) || MayKill(old(k.S()), step.pid)) ==>
              step.pid in k.info && k.info[step.pid].state == Dead && k.info[step.pid].code == step.killCode
    ensures step.SendStep? ==>
              var n := if step.port in old(k.pending) then old(k.pending)[step.port] else 0;
              k.pending == if n < 16 then old(k.pending)[step.port := n + 1] else old(k.pending)
    ensures step.RecvStep? ==>
              var p := step.from;
              if p in old(k.pending) && old(k.pending)[p] > 0
              then k.pending == old(k.pending)[p := old(k.pending)[p] - 1]
              else k.waits == old(k.waits) + [(PortKey(p), old(k.current).value)]
    ensures step.WaitStep? && Parks(old(k.S()), step.child, step.nohang) ==>
              k.waits == old(k.waits) + [(ChildKey(old(k.current).value), old(k.current).value)]
  {
    hide Known, Inv, Fair, DeadStays, Parked, Sweep, Purge;
    match step {
      case TickStep =>
        k.Tick();
      case SpawnStep =>
        var _ := k.SysSpawn();
      case ExitStep(code) =>
        k.CurrentExit(code);
      case KillStep(pid, code) =>
        var _ := k.SysKill(pid, code);
      case SendStep(p) =>
        var _ := k.SysSend(p);
      case RecvStep(p) =>
        var _ := k.SysRecv(p);
      case WaitStep(pid, nohang) =>
        var _, _ := k.SysWaitpid(pid, nohang);
    }
  }

  /** The state after a run of steps. */
  ghost function RunTo(s: State, steps: seq<Step>): (s': State)
    requires Known(s)
    ensures Known(s')
    decreases |steps|
  {
    if steps == [] then s
    else
      var n := |steps| - 1;
      StepKept(RunTo(s, steps[..n]), steps[n]);
      After(RunTo(s, steps[..n]), steps[n])
  }

  /** The tasks switched to in a run, in order. */
  ghost function Served(s: State, steps: seq<Step>): (r: seq<nat>)
    requires Known(s)
    decreases |steps|
  {
    if steps == [] then []
    else
      var n := |steps| - 1;
      var s1, s2 := RunTo(s, steps[..n]), RunTo(s, steps);
      Served(s, steps[..n]) + if Switches(s1, steps[n]) && s2.current.Some? then [s2.current.value] else []
  }

  /** The number of timer ticks in a run. */
  function Ticks(steps: seq<Step>): (n: nat) {
    if steps == [] then 0 else Ticks(steps[..|steps| - 1]) + if steps[|steps| - 1].TickStep? then 1 else 0
  }

  /** Nobody kills t in this run. */
  ghost predicate Spared(s: State, steps: seq<Step>, t: nat)
    requires Known(s)
    decreases |steps|
  {
    steps != [] ==>
      var n := |steps| - 1;
      Spared(s, steps[..n], t) && Victim(RunTo(s, steps[..n]), steps[n]) != Some(t)
  }

  /** No parked task and not the idle one is killed in this run. */
  ghost predicate HarmlessAll(s: State, steps: seq<Step>)
    requires Known(s)
    decreases |steps|
  {
    steps != [] ==>
      var n := |steps| - 1;
      HarmlessAll(s, steps[..n]) && Harmless(RunTo(s, steps[..n]), steps[n])
  }

  /** The invariant holds before, during and after a run. */
  ghost predicate InvAll(s: State, steps: seq<Step>)
    requires Known(s)
    decreases |steps|
  {
    Inv(RunTo(s, steps)) && (steps != [] ==> InvAll(s, steps[..|steps| - 1]))
  }

  /** Task t is among the first n of those served, or fewer than n were, no tick was without effect,
      and it is still in line for the rest. */
  ghost predicate Turn(served: seq<nat>, ticks: nat, q: seq<nat>, t: nat, n: nat) {
    || t in served[..Min(n, |served|)]
    || (ticks <= |served| < n && Ahead(q, t, n - |served|))
  }

  lemma TurnStart(q: seq<nat>, t: nat, n: nat)
    requires Ahead(q, t, n)
    ensures Turn([], 0, q, t, n)
  {
  }

  lemma TurnOver(served: seq<nat>, ticks: nat, q: seq<nat>, t: nat, n: nat)
    requires Turn(served, ticks, q, t, n)
    ensures ticks >= n ==> t in served
  {
  }

  /** A tick with somebody in the run queue is a switch. */
  lemma TurnTick(s: State, step: Step)
    requires Known(s)
    ensures step.TickStep? ==> (Switches(s, step) <==> s.run != [])
  {
  }

  lemma NotNone(q: seq<nat>, t: nat, n: nat)
    requires Ahead(q, t, n)
    ensures n > 0
  {
  }

  lemma TurnStep(served: seq<nat>, ticks: nat, tick: bool, q: seq<nat>, q': seq<nat>, current: Option<nat>,
                 switched: bool, gone: Option<nat>, t: nat, n: nat)
    requires Turn(served, ticks, q, t, n) && Fair(q, q', current, switched, gone) && gone != Some(t)
    requires (switched ==> current.Some?) && (tick && q != [] ==> switched)
    ensures Turn(served + if switched && current.Some? then [current.value] else [],
              ticks + if tick then 1 else 0, q', t, n)
  {
    var served' := served + if switched && current.Some? then [current.value] else [];
    if t in served[..Min(n, |served|)] {
      assert served[..Min(n, |served|)] <= served'[..Min(n, |served'|)];
    } else if switched {
      assert q != [];
      if t == current.value {
        assert served'[|served|] == t;
        assert t in served'[..Min(n, |served'|)];
      } else {
        assert Ahead(q', t, n - |served| - 1);
        NotNone(q', t, n - |served| - 1);
      }
    }
  }

  /** A task among the first n of the run queue that nobody kills is among the first n tasks switched
      to, and that before n ticks are over, whatever else happens and whoever else is killed. */
  lemma {:induction false} BoundedWait(s: State, steps: seq<Step>, t: nat, n: nat)
    requires Known(s) && Ahead(s.run, t, n) && Spared(s, steps, t)
    ensures Turn(Served(s, steps), Ticks(steps), RunTo(s, steps).run, t, n)
    ensures Ticks(steps) >= n ==> t in Served(s, steps)
    decreases |steps|
  {
    hide Known, Ahead, Fair, Turn, Switches, Victim, After;
    if steps == [] {
      TurnStart(s.run, t, n);
    } else {
      var m := |steps| - 1;
      var s1, step := RunTo(s, steps[..m]), steps[m];
      BoundedWait(s, steps[..m], t, n);
      StepKept(s1, step);
      TurnTick(s1, step);
      TurnStep(Served(s, steps[..m]), Ticks(steps[..m]), step.TickStep?, s1.run, After(s1, step).run,
          After(s1, step).current, Switches(s1, step), Victim(s1, step), t, n);
    }
    TurnOver(Served(s, steps), Ticks(steps), RunTo(s, steps).run, t, n);
  }

  /** The invariant holds throughout a run if and only if no parked task and not the idle one is killed. */
  lemma {:induction false} HarmlessRun(s: State, steps: seq<Step>)
    requires Known(s) && Inv(s)
    ensures InvAll(s, steps) <==> HarmlessAll(s, steps)
    ensures HarmlessAll(s, steps) ==> DeadStays(s.info, RunTo(s, steps).info)
    decreases |steps|
  {
    hide Inv, DeadStays, Harmless, Known, Fair, After;
    if steps == [] {
      DeadSelf(s.info);
    } else {
      var m := |steps| - 1;
      var s1 := RunTo(s, steps[..m]);
      HarmlessRun(s, steps[..m]);
      StepKept(s1, steps[m]);
      if HarmlessAll(s, steps) {
        DeadTransitive(s.info, s1.info, RunTo(s, steps).info);
      }
    }
  }

  lemma Unable(s: State, step: Step)
    requires Known(s) && !Able(s.current, step)
    ensures After(s, step) == s && !Switches(s, step)
  {
  }

  lemma {:induction false} RunLineage(s: State, steps: seq<Step>, more: seq<Step>)
    requires Known(s)
    ensures Lineage(RunTo(s, steps).info, RunTo(s, steps + more).info)
    decreases |more|
  {
    hide Known, After;
    if more == [] {
      assert steps + more == steps;
    } else {
      var n := |more| - 1;
      RunLineage(s, steps, more[..n]);
      assert (steps + more)[..|steps| + n] == steps + more[..n];
      StepLineage(RunTo(s, steps + more[..n]), more[n]);
    }
  }

  /** A task that was spawned is its parent's child for good: whenever the parent runs again, a wait
      for it never reports that there is no such child, and the parent may kill it. */
  lemma SpawnedForGood(s: State, steps: seq<Step>, more: seq<Step>)
    requires Known(s) && Able(RunTo(s, steps).current, SpawnStep)
    ensures var s1, s2 := RunTo(s, steps), RunTo(s, steps + [SpawnStep] + more);
            && s1.nextId in s2.info && s2.info[s1.nextId].parent == s1.current.value
            && (s2.current == s1.current ==> Child(s2, s1.nextId) && MayKill(s2, s1.nextId))
  {
    var s1 := RunTo(s, steps);
    assert (steps + [SpawnStep])[..|steps|] == steps;
    assert RunTo(s, steps + [SpawnStep]).info == s1.info[s1.nextId := Task(Ready, s1.current.value, 0)];
    RunLineage(s, steps + [SpawnStep], more);
    hide RunTo;
  }

  /** Any run, whatever is killed on the way. */
  method Run(k: Scheduler, steps: seq<Step>)
    requires Known(k.S())
    modifies k
    ensures k.S() == RunTo(old(k.S()), steps) && k.history == old(k.history) + Served(old(k.S()), steps)
    ensures forall t: nat, n: nat :: Ahead(old(k.run), t, n) && Spared(old(k.S()), steps, t) ==>
              var served := k.history[|old(k.history)|..];
              Turn(served, Ticks(steps), k.run, t, n) && (Ticks(steps) >= n ==> t in served)
    ensures old(Inv(k.S())) ==> (InvAll(old(k.S()), steps) <==> HarmlessAll(old(k.S()), steps))
    ensures old(Inv(k.S())) && HarmlessAll(old(k.S()), steps) ==> DeadStays(old(k.info), k.info)
  {
    hide Known, Inv, DeadStays, Ahead, Turn, After, Switches, Spared, InvAll, HarmlessAll;
    ghost var s, h := k.S(), k.history;
    for i := 0 to |steps|
      invariant k.S() == RunTo(s, steps[..i]) && k.history == h + Served(s, steps[..i])
    {
      assert steps[..i + 1][..i] == steps[..i];
      StepKept(k.S(), steps[i]);
      if Able(k.current, steps[i]) {
        Do(k, steps[i]);
      } else {
        Unable(k.S(), steps[i]);
      }
    }
    assert steps[..|steps|] == steps;
    forall t: nat, n: nat | Ahead(s.run, t, n) && Spared(s, steps, t)
      ensures Turn(k.history[|h|..], Ticks(steps), k.run, t, n) && (Ticks(steps) >= n ==> t in k.history[|h|..])
    {
      BoundedWait(s, steps, t, n);
    }
    if Inv(s) {
      HarmlessRun(s, steps);
    }
  }
}
