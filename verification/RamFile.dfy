/** Files of the in-memory filesystem (kernel/src/fs/ramfs.rs): the reference file semantics. */
module RamFile {
  import opened Prelude
  import opened PondDir

  /** Bytes a read of `len` bytes at `off` delivers. */
  function Read(data: seq<byte>, off: nat, len: nat): (s: seq<byte>) {
    if off >= |data| then [] else data[off..Min(|data|, off + len)]
  }

  /** Contents after writing `buf` at `off`: grown with zeros if needed, then overwritten. */
  function Write(data: seq<byte>, off: nat, buf: seq<byte>): (s: seq<byte>)
    ensures |s| == Max(|data|, off + |buf|)
  {
    var end := off + |buf|;
    var grown := if end > |data| then data + Zeros(end - |data|) else data;
    grown[..off] + buf + grown[end..]
  }

  /** Each byte comes from the written buffer, else from the old contents, else it is zero. */
  lemma WriteByte(data: seq<byte>, off: nat, buf: seq<byte>, i: nat)
    requires i < Max(|data|, off + |buf|)
    ensures Write(data, off, buf)[i]
         == if off <= i < off + |buf| then buf[i - off] else if i < |data| then data[i] else 0
  {
  }

  /** A read delivers the bytes from `off` on, as many as asked for and as there are. */
  lemma ReadByte(data: seq<byte>, off: nat, len: nat, i: nat)
    ensures i < |Read(data, off, len)| <==> i < len && off + i < |data|
    ensures i < len && off + i < |data| ==> Read(data, off, len)[i] == data[off + i]
  {
  }

  /** A read returns what was last written there. */
  lemma ReadWritten(data: seq<byte>, off: nat, buf: seq<byte>)
    ensures Read(Write(data, off, buf), off, |buf|) == buf
  {
    var w := Write(data, off, buf);
    forall i | off <= i < off + |buf| ensures w[i] == buf[i - off] {
      WriteByte(data, off, buf, i);
    }
  }

  class RamInode {
    var kind: InodeKind
    var data: seq<byte>

    constructor (kind: InodeKind, data: seq<byte>)
      ensures this.kind == kind && this.data == data
    {
      this.kind, this.data := kind, data;
    }

    method ReadAt(off: nat, buf: array<byte>) returns (r: Result<nat, FsError>)
      modifies buf
      ensures kind == Dir ==> r == Err(IsDir) && buf[..] == old(buf[..])
      ensures kind == File ==>
                && r.Ok? && r.value <= buf.Length && buf[..r.value] == Read(data, off, buf.Length)
                && buf[r.value..] == old(buf[r.value..])
    {
      if kind != File {
        return Err(IsDir);
      }
      if off >= |data| {
        return Ok(0);
      }
      var n := Min(buf.Length, |data| - off);
      forall i | 0 <= i < n {
        buf[i] := data[off + i];
      }
      assert buf[..n] == data[off..off + n];
      return Ok(n);
    }

    method WriteAt(off: nat, buf: seq<byte>) returns (r: Result<nat, FsError>)
      modifies `data
      ensures kind == Dir ==> r == Err(IsDir) && data == old(data)
      ensures kind == File ==> r == Ok(|buf|) && data == Write(old(data), off, buf)
    {
      if kind != File {
        return Err(IsDir);
      }
      var end := off + |buf|;
      if end > |data| {
        data := data + Zeros(end - |data|);
      }
      data := data[..off] + buf + data[end..];
      return Ok(|buf|);
    }
  }
}
