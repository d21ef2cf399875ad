/** An NVMe queue pair: the driver's polling submission against a controller that posts
    completions under a phase tag (kernel/src/drivers/nvme/mod.rs; section 4.6 of NVM Express 1.3). */
module Nvme {
  import opened Prelude

  /** A submission entry; `cdw0` holds the opcode below and the command id above bit 16. */
  datatype Command = Command(cdw0: nat, nsid: nat, prp1: nat, prp2: nat, cdw10: nat, cdw11: nat, cdw12: nat)

  /** A completion entry; the lowest bit of `status` is the phase tag. */
  datatype Completion = Completion(cdw0: nat, sqHead: nat, cid: nat, status: nat)

  /** What the controller answers: a result dword and a status without the phase tag. */
  datatype Answer = Answer(cdw0: nat, status: nat)

  function Stamp(cmd: Command, cid: nat): (c: Command)
    ensures c.cdw0 / 0x1_0000 == cid && c.cdw0 % 0x1_0000 == cmd.cdw0 % 0x1_0000 && c == cmd.(cdw0 := c.cdw0)
  {
    cmd.(cdw0 := cmd.cdw0 % 0x1_0000 + cid * 0x1_0000)
  }

  /** The slot of entry number n in a ring of depth d. */
  function Pos(n: nat, d: nat): (i: nat)
    requires d > 0
    ensures i < d
  {
    n % d
  }

  /** The tag a ring of depth d carries while entry number n is written: 1 in the first round. */
  function Tag(n: nat, d: nat): (t: nat)
    requires d > 0
  {
    if n / d % 2 == 0 then 1 else 0
  }

  /** What stands in slot i once n completions were posted: the tag of its last round, 0 if none. */
  function SlotTag(i: nat, n: nat, d: nat): (t: nat)
    requires i < d
  {
    if i < Pos(n, d) then Tag(n, d) else 1 - Tag(n, d)
  }

  lemma TagNext(q: nat, q': nat)
    ensures q' == q + 1 ==> q' % 2 != q % 2
  {
  }

  lemma MulMonotone(a: nat, b: nat, d: nat)
    requires a <= b
    ensures a * d <= b * d
  {
    assert b * d == a * d + (b - a) * d;
  }

  lemma Unique(n: nat, d: nat, q: nat, r: nat)
    requires d > 0 && r < d && n == q * d + r
    ensures n / d == q && n % d == r
  {
    var q', r' := n / d, n % d;
    assert n == q' * d + r';
    var a, b, c, e := q * d, q' * d, (q + 1) * d, (q' + 1) * d;
    assert c == a + d && e == b + d;
    assert n == a + r == b + r';
    if q < q' {
      MulMonotone(q + 1, q', d);
      assert false;
    } else if q' < q {
      MulMonotone(q' + 1, q, d);
      assert false;
    }
  }

  lemma DivNext(n: nat, d: nat)
    requires d >= 2
    ensures if n % d + 1 < d then (n + 1) / d == n / d && (n + 1) % d == n % d + 1
              else (n + 1) / d == n / d + 1 && (n + 1) % d == 0
  {
    var q, r := n / d, n % d;
    assert n == q * d + r;
    if r + 1 < d {
      assert n + 1 == q * d + (r + 1);
      Unique(n + 1, d, q, r + 1);
    } else {
      assert n + 1 == (q + 1) * d;
      Unique(n + 1, d, q + 1, 0);
    }
  }

  /** One more step around a ring, and the tag that goes with it. */
  lemma Next(n: nat, d: nat)
    requires d >= 2
    ensures Pos(n + 1, d) == (Pos(n, d) + 1) % d && Pos(n + 1, d) != Pos(n, d)
    ensures Tag(n + 1, d) == if Pos(n + 1, d) == 0 then 1 - Tag(n, d) else Tag(n, d)
  {
    DivNext(n, d);
    var r := n % d;
    if r + 1 < d {
      Unique(r + 1, d, 0, r + 1);
    } else {
      Unique(r + 1, d, 1, 0);
    }
    TagNext(n / d, (n + 1) / d);
  }

  lemma NextSlot(i: nat, n: nat, d: nat)
    requires d >= 2 && i < d
    ensures SlotTag(i, n + 1, d) == if i == Pos(n, d) then Tag(n, d) else SlotTag(i, n, d)
  {
    DivNext(n, d);
  }

  /** The entry at the head is stale exactly until it is posted. */
  lemma Head(n: nat, d: nat)
    requires d >= 2
    ensures Tag(n, d) <= 1 && SlotTag(Pos(n, d), n, d) == 1 - Tag(n, d) && SlotTag(Pos(n, d), n + 1, d) == Tag(n, d)
  {
    NextSlot(Pos(n, d), n, d);
  }

  class QueuePair {
    const sq: array<Command>
    const cq: array<Completion>

    // Driver
    var sqTail: nat
    var cqHead: nat
    var phase: nat
    var nextCid: nat

    // Doorbell registers
    var sqDoorbell: nat
    var cqDoorbell: nat

    // Controller
    var devHead: nat
    var devTail: nat
    var devPhase: nat
    var executed: nat // commands executed so far; an answer may depend on it

    /** Both rings are zeroed and both sides start at slot 0 with phase 1. */
    constructor (sqDepth: nat, cqDepth: nat)
      requires sqDepth >= 2 && cqDepth >= 2
      ensures fresh(sq) && fresh(cq) && sq.Length == sqDepth && cq.Length == cqDepth && Idle(0)
    {
      sq := new Command[sqDepth](_ => Command(0, 0, 0, 0, 0, 0, 0));
      cq := new Completion[cqDepth](_ => Completion(0, 0, 0, 0));
      sqTail, cqHead, phase, nextCid, sqDoorbell, cqDoorbell := 0, 0, 1, 0, 0, 0;
      devHead, devTail, devPhase, executed := 0, 0, 1, 0;
    }

    /** n commands were issued, executed and acknowledged. */
    ghost predicate Idle(n: nat)
      reads this, cq
    {
      && sq.Length >= 2 && cq.Length >= 2
      && sqTail == sqDoorbell == devHead == Pos(n, sq.Length)
      && cqHead == cqDoorbell == devTail == Pos(n, cq.Length)
      && phase == devPhase == Tag(n, cq.Length) && nextCid == Pos(n, 0x1_0000) && executed == n
      && forall i :: 0 <= i < cq.Length ==> cq[i].status % 2 == SlotTag(i, n, cq.Length)
    }

    /** The controller takes the next submission, if there is one and the completion ring has
        room, and posts its completion under the current phase tag. */
    method ControllerStep(exec: (Command, nat) -> Answer) returns (posted: bool)
      requires sq.Length > 0 && cq.Length > 0 && devHead < sq.Length && devTail < cq.Length && devPhase <= 1
      modifies cq, `devHead, `devTail, `devPhase, `executed
      ensures posted <==> old(devHead) != sqDoorbell && (old(devTail) + 1) % cq.Length != cqDoorbell
      ensures !posted ==>
                && cq[..] == old(cq[..]) && devHead == old(devHead) && devTail == old(devTail)
                && devPhase == old(devPhase) && executed == old(executed)
      ensures posted ==>
                var cmd := old(sq[devHead]);
                && devHead == (old(devHead) + 1) % sq.Length && devTail == (old(devTail) + 1) % cq.Length
                && devPhase == (if devTail == 0 then 1 - old(devPhase) else old(devPhase))
                && executed == old(executed) + 1
                && cq[old(devTail)] == Completion(exec(cmd, old(executed)).cdw0, devHead, cmd.cdw0 / 0x1_0000,
                     exec(cmd, old(executed)).status * 2 + old(devPhase))
                && forall i :: 0 <= i < cq.Length && i != old(devTail) ==> cq[i] == old(cq[i])
    {
      posted := devHead != sqDoorbell && (devTail + 1) % cq.Length != cqDoorbell;
      if posted {
        var cmd := sq[devHead];
        devHead := (devHead + 1) % sq.Length;
        var answer := exec(cmd, executed);
        executed := executed + 1;
        cq[devTail] := Completion(answer.cdw0, devHead, cmd.cdw0 / 0x1_0000, answer.status * 2 + devPhase);
        devTail := (devTail + 1) % cq.Length;
        if devTail == 0 {
          devPhase := 1 - devPhase;
        }
      }
    }

    /** Command number n was issued and not yet taken. */
    ghost predicate Issued(n: nat, cmd: Command)
      reads this, sq, cq
    {
      && sq.Length >= 2 && cq.Length >= 2
      && sqTail == sqDoorbell == Pos(n + 1, sq.Length) && devHead == Pos(n, sq.Length) && sq[devHead] == cmd
      && cqHead == cqDoorbell == devTail == Pos(n, cq.Length)
      && phase == devPhase == Tag(n, cq.Length) && nextCid == Pos(n + 1, 0x1_0000) && executed == n
      && forall i :: 0 <= i < cq.Length ==> cq[i].status % 2 == SlotTag(i, n, cq.Length)
    }

    /** Its completion stands at the head of the completion ring. */
    ghost predicate Answered(n: nat, entry: Completion)
      reads this, cq
    {
      && sq.Length >= 2 && cq.Length >= 2
      && sqTail == sqDoorbell == devHead == Pos(n + 1, sq.Length) && devTail == Pos(n + 1, cq.Length)
      && cqHead == cqDoorbell == Pos(n, cq.Length) && cq[cqHead] == entry
      && phase == Tag(n, cq.Length) && devPhase == Tag(n + 1, cq.Length) && nextCid == Pos(n + 1, 0x1_0000)
      && executed == n + 1
      && forall i :: 0 <= i < cq.Length ==> cq[i].status % 2 == SlotTag(i, n + 1, cq.Length)
    }

    /** Place a command under the next command id and ring the doorbell. */
    method Issue(cmd: Command, ghost n: nat) returns (stamped: Command)
      requires Idle(n)
      modifies sq, `sqTail, `nextCid, `sqDoorbell
      ensures stamped == Stamp(cmd, Pos(n, 0x1_0000)) && Issued(n, stamped)
    {
      hide Tag, SlotTag, Stamp, Pos;
      Next(n, sq.Length);
      Next(n, 0x1_0000);
      stamped := Stamp(cmd, nextCid);
      nextCid := (nextCid + 1) % 0x1_0000;
      sq[sqTail] := stamped;
      sqTail := (sqTail + 1) % sq.Length;
      sqDoorbell := sqTail;
    }

    /** Move past the entry at the head and tell the controller. */
    method Acknowledge(ghost n: nat, ghost entry: Completion)
      requires Answered(n, entry)
      modifies `cqHead, `phase, `cqDoorbell
      ensures Idle(n + 1)
    {
      hide Tag, SlotTag, Pos;
      Next(n, cq.Length);
      cqHead := (cqHead + 1) % cq.Length;
      if cqHead == 0 {
        phase := 1 - phase;
      }
      cqDoorbell := cqHead;
    }

    /** The phase tag at the head tells whether the command was answered: a stale entry never matches. */
    lemma PhaseTells(n: nat, cmd: Command, entry: Completion, status: nat)
      requires Issued(n, cmd) || Answered(n, entry)
      requires cq.Length > 0 && entry.status == status * 2 + Tag(n, cq.Length)
      ensures Answered(n, entry) ==> cq[cqHead].status % 2 == phase && cq[cqHead].status / 2 == status
      ensures Issued(n, cmd) ==> cq[cqHead].status % 2 != phase
      ensures cqHead < cq.Length && !(Issued(n, cmd) && Answered(n, entry))
      ensures (Answered(n, entry) ==> cq[cqHead] == entry)
    {
      hide SlotTag, Pos;
      Head(n, cq.Length);
    }

    /** The controller's turn while command n waits. */
    method Post(exec: (Command, nat) -> Answer, ghost n: nat, ghost cmd: Command, ghost entry: Completion)
      requires Issued(n, cmd) && cmd.cdw0 / 0x1_0000 == Pos(n, 0x1_0000)
      requires entry == Completion(exec(cmd, n).cdw0, Pos(n + 1, sq.Length), Pos(n, 0x1_0000),
          exec(cmd, n).status * 2 + Tag(n, cq.Length))
      modifies cq, `devHead, `devTail, `devPhase, `executed
      ensures Answered(n, entry)
    {
      hide Tag, SlotTag, Pos;
      Next(n, sq.Length);
      Next(n, cq.Length);
      Head(n, cq.Length);
      forall i | 0 <= i < cq.Length ensures SlotTag(i, n + 1, cq.Length) == if i ==
          Pos(n, cq.Length) then Tag(n, cq.Length) else SlotTag(i, n, cq.Length) {
        NextSlot(i, n, cq.Length);
      }
      var _ := ControllerStep(exec);
    }

    /** `submit_sync`: place the command, ring the doorbell, poll until the entry at the head of
        the completion ring shows the expected phase. The controller acts after `delay` polls. */
    method SubmitSync(cmd: Command, exec: (Command, nat) -> Answer, delay: nat, ghost n: nat)
      returns (cdw0: nat, status: nat, ghost entry: Completion)
      requires Idle(n)
      modifies this, sq, cq
      ensures Idle(n + 1)
      ensures var c := Stamp(cmd, Pos(n, 0x1_0000));
                cdw0 == exec(c, n).cdw0 && status == exec(c, n).status && entry.cid == Pos(n, 0x1_0000)
      ensures old(cqHead) < cq.Length && entry == cq[old(cqHead)] && cdw0 == entry.cdw0 && status == entry.status / 2
    {
      hide Tag, Stamp, Pos, Issued, Answered;
      var stamped := Issue(cmd, n);
      entry := Completion(exec(stamped, n).cdw0, Pos(n + 1, sq.Length), Pos(n, 0x1_0000),
          exec(stamped, n).status * 2 + Tag(n, cq.Length));
      var wait: nat := delay;
      ghost var posted := false;
      while true
        invariant if posted then wait == 0 && Answered(n, entry) else Issued(n, stamped)
        invariant cqHead == old(cqHead)
        decreases wait, !posted
      {
        ghost var answer := exec(stamped, n);
        PhaseTells(n, stamped, entry, answer.status);
        var cqe := cq[cqHead];
        if cqe.status % 2 == phase {
          Acknowledge(n, entry);
          return cqe.cdw0, cqe.status / 2, entry;
        }
        if wait > 0 {
          wait := wait - 1;
        } else {
          Post(exec, n, stamped, entry);
          posted := true;
        }
      }
    }
  }

  /** Any number of commands, over any number of wraps: each gets the answer to itself. */
  method SubmitAll(q: QueuePair, cmds: seq<Command>, exec: (Command, nat) -> Answer, delays: seq<nat>, ghost n: nat)
    returns (answers: seq<Answer>)
    requires q.Idle(n) && |delays| == |cmds|
    modifies q, q.sq, q.cq
    ensures q.Idle(n + |cmds|) && |answers| == |cmds|
    ensures forall i :: 0 <= i < |cmds| ==>
              answers[i] == exec(cmds[i].(cdw0 := cmds[i].cdw0 % 0x1_0000 + (n + i) % 0x1_0000 * 0x1_0000), n + i)
    ensures q.sqTail == q.sqDoorbell == (n + |cmds|) % q.sq.Length
    ensures q.cqHead == q.cqDoorbell == (n + |cmds|) % q.cq.Length
    ensures q.phase == 1 - (n + |cmds|) / q.cq.Length % 2
  {
    answers := [];
    for i := 0 to |cmds|
      invariant q.Idle(n + i) && |answers| == i
      invariant forall j :: 0 <= j < i ==> answers[j] == exec(Stamp(cmds[j], Pos(n + j, 0x1_0000)), n + j)
    {
      var cdw0, status;
      ghost var entry;
      cdw0, status, entry := q.SubmitSync(cmds[i], exec, delays[i], n + i);
      answers := answers + [Answer(cdw0, status)];
    }
  }
}
