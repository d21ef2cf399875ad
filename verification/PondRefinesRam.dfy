/** A PondFS file behaves like an in-memory file under any sequence of reads and writes. */
module PondRefinesRam {
  import opened Prelude
  import opened PondLayout
  import opened PondDir
  import opened PondVolume
  import opened PondSteps
  import F = PondFs
  import RamFile

  datatype Op = Read(off: nat, len: nat) | Write(off: nat, bytes: seq<byte>)

  /** What an operation delivers: the count, and the bytes read. */
  datatype Reply = Reply(result: Result<nat, FsError>, bytes: seq<byte>)

  /** The in-memory file's answer and next contents. */
  function RamStep(data: seq<byte>, op: Op): (r: (seq<byte>, Reply)) {
    match op
    case Read(off, len) =>
      var s := RamFile.Read(data, off, len);
      (data, Reply(Ok(|s|), s))
    case Write(off, bytes) => (RamFile.Write(data, off, bytes), Reply(Ok(|bytes|), []))
  }

  function RamRun(data: seq<byte>, ops: seq<Op>): (r: (seq<byte>, seq<Reply>)) {
    if ops == [] then (data, [])
    else
      var p := RamRun(data, ops[..|ops| - 1]);
      var s := RamStep(p.0, ops[|ops| - 1]);
      (s.0, p.1 + [s.1])
  }

  /** The operation is a read, or ends within the largest file and there are blocks for it. */
  ghost predicate Fits(raw: RawInode, op: Op, sb: Superblock, bitmap: seq<byte>) {
    op.Read? || (op.off + |op.bytes| <= MAX_FILE && F.Room(raw, op.off + |op.bytes|, sb, bitmap))
  }

  /** The same operations fit. */
  ghost predicate SameRoom(raw: RawInode, bitmap: seq<byte>, raw': RawInode, bitmap': seq<byte>, sb: Superblock) {
    forall m: nat :: m <= MAX_FILE ==> (F.Room(raw', m, sb, bitmap') <==> F.Room(raw, m, sb, bitmap))
  }

  method PondStep(fs: F.PondFs, st: F.InodeState, op: Op) returns (r: Reply)
    requires fs.Valid() && fs.Handle(st) && st.raw.kind == KIND_FILE
    modifies fs`bitmap, fs`disk, st`raw
    ensures fs.Valid() && fs.Handle(st) && st.raw.kind == KIND_FILE
    ensures F.OthersUnchanged(old(fs.View()), fs.View(), st.ino)
    ensures old(st.raw.size) <= MAX_FILE && st.raw.size <= MAX_FILE
    ensures r.result.Ok? ==> (Content(fs.disk, st.raw), r) == RamStep(Content(old(fs.disk), old(st.raw)), op)
    ensures r.result.Err? ==>
              && op.Write? && r.result.error in {Unsupported, NoSpace}
              && Content(fs.disk, st.raw) == Content(old(fs.disk), old(st.raw))
    ensures r.result == Err(Unsupported) <==> op.Write? && op.off + |op.bytes| > MAX_FILE
    ensures r.result == Err(NoSpace) <==>
              && op.Write? && op.off + |op.bytes| <= MAX_FILE
              && !F.Room(old(st.raw), op.off + |op.bytes|, fs.sb, old(fs.bitmap))
    ensures r.result.Ok? ==> SameRoom(old(st.raw), old(fs.bitmap), st.raw, fs.bitmap, fs.sb)
  {
    hide Consistent, F.Overlay, F.OthersUnchanged, Content, F.Room, F.Filled, DiskTable;
    match op {
      case Read(off, len) =>
        var buf := new byte[len](_ => 0);
        var n := fs.ReadAt(st, off, buf);
        fs.FilesOnly(st);
        r := Reply(n, buf[..n.value]);
      case Write(off, bytes) =>
        var n := fs.WriteAt(st, off, bytes);
        r := Reply(n, []);
        if n.Ok? {
          forall m: nat | m <= MAX_FILE
            ensures F.Room(st.raw, m, fs.sb, fs.bitmap) <==> F.Room(old(st.raw), m, fs.sb, old(fs.bitmap))
          {
            F.RoomAfter(old(st.raw), st.raw, off + |bytes|, fs.sb, old(fs.bitmap), fs.bitmap, m);
          }
        }
    }
  }

  lemma SameRoomSelf(raw: RawInode, bitmap: seq<byte>, sb: Superblock)
    ensures SameRoom(raw, bitmap, raw, bitmap, sb)
  {
  }

  lemma SameRoomTransitive(raw0: RawInode, bitmap0: seq<byte>, raw1: RawInode, bitmap1: seq<byte>, raw2: RawInode,
                           bitmap2: seq<byte>, sb: Superblock)
    requires SameRoom(raw0, bitmap0, raw1, bitmap1, sb) && SameRoom(raw1, bitmap1, raw2, bitmap2, sb)
    ensures SameRoom(raw0, bitmap0, raw2, bitmap2, sb)
  {
    hide F.Room;
  }

  /** Whether an operation is carried out can be told from the state before the run. */
  lemma StepFits(raw0: RawInode, bitmap0: seq<byte>, raw: RawInode, bitmap: seq<byte>, op: Op, sb: Superblock, r: Reply)
    requires SameRoom(raw0, bitmap0, raw, bitmap, sb)
    requires r.result.Err? ==> op.Write? && r.result.error in {Unsupported, NoSpace}
    requires r.result == Err(Unsupported) <==> op.Write? && op.off + |op.bytes| > MAX_FILE
    requires r.result == Err(NoSpace) <==>
               op.Write? && op.off + |op.bytes| <= MAX_FILE && !F.Room(raw, op.off + |op.bytes|, sb, bitmap)
    ensures r.result.Ok? <==> Fits(raw0, op, sb, bitmap0)
  {
    hide F.Room;
  }

  lemma RamNone(data: seq<byte>, ops: seq<Op>)
    ensures RamRun(data, ops[..0]) == (data, [])
  {
  }

  lemma RamNext(data: seq<byte>, ops: seq<Op>, i: nat)
    requires i < |ops|
    ensures var p := RamRun(data, ops[..i]); var s := RamStep(p.0, ops[i]);
            RamRun(data, ops[..i + 1]) == (s.0, p.1 + [s.1])
  {
    hide RamStep;
    assert ops[..i + 1][..i] == ops[..i];
  }

  /** Run operations until one is refused for lack of room: every reply before that, and the
      contents throughout, are those of the in-memory file. It stops at the first operation that
      does not fit, judged by the state before the run. */
  method Run(fs: F.PondFs, st: F.InodeState, ops: seq<Op>) returns (done: nat, replies: seq<Reply>)
    requires fs.Valid() && fs.Handle(st) && st.raw.kind == KIND_FILE
    modifies fs`bitmap, fs`disk, st`raw
    ensures fs.Valid() && fs.Handle(st)
    ensures old(st.raw.size) <= MAX_FILE && st.raw.size <= MAX_FILE
    ensures done <= |ops|
    ensures (Content(fs.disk, st.raw), replies) == RamRun(Content(old(fs.disk), old(st.raw)), ops[..done])
    ensures done == |ops| <==> forall i :: 0 <= i < |ops| ==> Fits(old(st.raw), ops[i], fs.sb, old(fs.bitmap))
    ensures forall i :: 0 <= i < done ==> Fits(old(st.raw), ops[i], fs.sb, old(fs.bitmap))
    ensures done < |ops| ==> !Fits(old(st.raw), ops[done], fs.sb, old(fs.bitmap))
    ensures F.OthersUnchanged(old(fs.View()), fs.View(), st.ino)
  {
    hide Consistent, F.Overlay, F.OthersUnchanged, Content, F.Room, DiskTable, Fits, SameRoom, RamRun, RamStep;
    ghost var v := fs.View();
    fs.FilesOnly(st);
    SameRoomSelf(st.raw, fs.bitmap, fs.sb);
    RamNone(Content(fs.disk, st.raw), ops);
    ghost var data := Content(fs.disk, st.raw);
    replies := [];
    done := 0;
    while done < |ops|
      invariant fs.Valid() && fs.Handle(st) && st.raw.kind == KIND_FILE && st.raw.size <= MAX_FILE
      invariant done <= |ops| && (Content(fs.disk, st.raw), replies) == RamRun(data, ops[..done])
      invariant F.OthersUnchanged(v, fs.View(), st.ino)
      invariant SameRoom(old(st.raw), old(fs.bitmap), st.raw, fs.bitmap, fs.sb)
      invariant forall i :: 0 <= i < done ==> Fits(old(st.raw), ops[i], fs.sb, old(fs.bitmap))
    {
      ghost var v1, raw1, bitmap1 := fs.View(), st.raw, fs.bitmap;
      var r := PondStep(fs, st, ops[done]);
      F.UnchangedTransitive(v, v1, fs.View(), st.ino);
      StepFits(old(st.raw), old(fs.bitmap), raw1, bitmap1, ops[done], fs.sb, r);
      if r.result.Err? {
        return;
      }
      SameRoomTransitive(old(st.raw), old(fs.bitmap), raw1, bitmap1, st.raw, fs.bitmap, fs.sb);
      RamNext(data, ops, done);
      replies := replies + [r];
      done := done + 1;
    }
  }
}
