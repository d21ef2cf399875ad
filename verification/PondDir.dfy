/** Directory contents: serialized entries (kernel/src/fs/pondfs/mod.rs, dir_*_entries). */
module PondDir {
  import opened Prelude
  import opened PondLayout
  import Utf8

  datatype InodeKind = File | Dir

  datatype FsError = NotFound | NotDir | NotFile | Exists | InvalidPath | IsDir | Io | NoSpace | BadFd | Unsupported

  /** Names are Rust strings: UTF-8 byte sequences. */
  datatype DirEntry = DirEntry(name: seq<byte>, kind: InodeKind, ino: u64)

  // u64 inode, u16 name length, u16 kind, and four bytes of alignment padding.
  const HEADER_SIZE: nat := 16

  /** The padding inside a header is not initialised by either writer. */
  type Padding = p: seq<byte> | |p| == 4 witness Zeros(4)

  function Align4(x: nat): (r: nat)
    ensures r % 4 == 0 && x <= r < x + 4
  {
    (x + 3) / 4 * 4
  }

  lemma Align4Shift(i: nat, k: nat)
    requires i % 4 == 0
    ensures Align4(i + k) == i + Align4(k) && (i + Align4(k)) % 4 == 0
  {
  }

  function KindCode(k: InodeKind): (c: u16)
    ensures c != KIND_UNUSED
  {
    match k
    case File => KIND_FILE
    case Dir => KIND_DIR
  }

  function EncodeHeader(e: DirEntry, pad: Padding): (s: seq<byte>)
    ensures |s| == HEADER_SIZE
  {
    LittleEndian(e.ino, 8) + LittleEndian(|e.name|, 2) + LittleEndian(KindCode(e.kind), 2) + pad
  }

  function EncodeEntry(e: DirEntry, pad: Padding): (s: seq<byte>)
    ensures |s| == Align4(HEADER_SIZE + |e.name|)
  {
    var used := HEADER_SIZE + |e.name|;
    EncodeHeader(e, pad) + e.name + Zeros(Align4(used) - used)
  }

  function EncodedSize(es: seq<DirEntry>): (n: nat)
    ensures n % 4 == 0
  {
    if es == [] then 0 else Align4(HEADER_SIZE + |es[0].name|) + EncodedSize(es[1..])
  }

  function EncodeEntries(es: seq<DirEntry>, pads: seq<Padding>): (s: seq<byte>)
    requires |pads| == |es|
    ensures |s| == EncodedSize(es)
  {
    if es == [] then [] else EncodeEntry(es[0], pads[0]) + EncodeEntries(es[1..], pads[1..])
  }

  /** The serialization loop appends one encoded entry per step. */
  lemma {:induction false} EncodeAppend(es: seq<DirEntry>, pads: seq<Padding>, e: DirEntry, pad: Padding)
    requires |pads| == |es|
    ensures EncodeEntries(es + [e], pads + [pad]) == EncodeEntries(es, pads) + EncodeEntry(e, pad)
  {
    hide EncodeEntry;
    if es == [] {
      assert EncodeEntries([], []) == [];
      assert (es + [e])[1..] == [] && (pads + [pad])[1..] == [];
    } else {
      EncodeAppend(es[1..], pads[1..], e, pad);
      assert (es + [e])[1..] == es[1..] + [e];
      assert (pads + [pad])[1..] == pads[1..] + [pad];
    }
  }

  lemma {:induction false} SizeAppend(es: seq<DirEntry>, e: DirEntry)
    ensures EncodedSize(es + [e]) == EncodedSize(es) + Align4(HEADER_SIZE + |e.name|)
  {
    hide Align4;
    if es != [] {
      assert (es + [e])[1..] == es[1..] + [e];
      SizeAppend(es[1..], e);
    } else {
      assert (es + [e])[1..] == [];
    }
  }

  /** No name in a directory that fits in twelve blocks overflows its 16-bit length field. */
  lemma {:induction false} NamesFit(es: seq<DirEntry>)
    ensures forall i :: 0 <= i < |es| ==> HEADER_SIZE + |es[i].name| <= EncodedSize(es)
  {
    if es != [] {
      NamesFit(es[1..]);
      assert forall i :: 1 <= i < |es| ==> es[i] == es[1..][i - 1];
    }
  }

  /** One entry at position i of a directory: the entry and the position after it. */
  datatype Step = End | Bad | Entry(e: DirEntry, next: nat)

  function DecodeAt(buf: seq<byte>, i: nat): (s: Step)
    ensures s.Entry? ==> i < s.next && i < |buf|
  {
    if i + HEADER_SIZE > |buf| then End
    else
      var ino := Word64(buf, i);
      var len := Word16(buf, i + 8);
      var kind := Word16(buf, i + 10);
      var start := i + HEADER_SIZE;
      if len == 0 then End
      else if start + len > |buf| then Bad
      else if !Utf8.Valid(buf[start..start + len]) then Bad
      else if kind != KIND_FILE && kind != KIND_DIR then Bad
      else Entry(DirEntry(buf[start..start + len], if kind == KIND_FILE then File else Dir, ino), Align4(start + len))
  }

  function DecodeFrom(buf: seq<byte>, i: nat): (r: Result<seq<DirEntry>, FsError>)
    decreases |buf| - i
  {
    match DecodeAt(buf, i)
    case End => Ok([])
    case Bad => Err(Io)
    case Entry(e, next) =>
      match DecodeFrom(buf, next)
      case Err(x) => Err(x)
      case Ok(es) => Ok([e] + es)
  }

  function Decode(buf: seq<byte>): (r: Result<seq<DirEntry>, FsError>) {
    DecodeFrom(buf, 0)
  }

  // ---------------------------------------------------------------------
  // Round trip

  ghost predicate Storable(e: DirEntry) {
    0 < |e.name| < 0x1_0000 && Utf8.Valid(e.name)
  }

  /** A slice of a slice. */
  lemma SubSlice(s: seq<byte>, a: nat, b: nat, t: seq<byte>, c: nat, d: nat)
    requires a <= b <= |s| && s[a..b] == t
    requires c <= d <= |t|
    ensures s[a + c..a + d] == t[c..d]
  {
    assert forall k :: c <= k < d ==> s[a + k] == t[k];
  }

  lemma {:induction false} HeaderFields(e: DirEntry, pad: Padding)
    requires |e.name| < 0x1_0000
    ensures FromLittleEndian(EncodeHeader(e, pad)[0..8]) == e.ino
    ensures FromLittleEndian(EncodeHeader(e, pad)[8..10]) == |e.name|
    ensures FromLittleEndian(EncodeHeader(e, pad)[10..12]) == KindCode(e.kind)
  {
    var s := EncodeHeader(e, pad);
    assert s[0..8] == LittleEndian(e.ino, 8);
    assert s[8..10] == LittleEndian(|e.name|, 2);
    assert s[10..12] == LittleEndian(KindCode(e.kind), 2);
    FitsU64(e.ino);
    LittleEndianRoundTrip(e.ino, 8);
    FitsU16(|e.name|);
    LittleEndianRoundTrip(|e.name|, 2);
    FitsU16(KindCode(e.kind));
    LittleEndianRoundTrip(KindCode(e.kind), 2);
  }

  /** The header words and the name as they stand in a buffer. */
  lemma {:induction false} EntryFields(buf: seq<byte>, i: nat, e: DirEntry, pad: Padding)
    requires |e.name| < 0x1_0000 && i % 4 == 0
    requires i + |EncodeEntry(e, pad)| <= |buf| && buf[i..i + |EncodeEntry(e, pad)|] == EncodeEntry(e, pad)
    ensures i + HEADER_SIZE + |e.name| <= i + |EncodeEntry(e, pad)| == Align4(i + HEADER_SIZE + |e.name|)
    ensures Word64(buf, i) == e.ino && Word16(buf, i + 8) == |e.name| && Word16(buf, i + 10) == KindCode(e.kind)
    ensures buf[i + HEADER_SIZE..i + HEADER_SIZE + |e.name|] == e.name
  {
    Align4Shift(i, HEADER_SIZE + |e.name|);
    var t := EncodeEntry(e, pad);
    var h := EncodeHeader(e, pad);
    HeaderFields(e, pad);
    hide LittleEndian, FromLittleEndian, EncodeHeader, Align4;
    assert t[0..HEADER_SIZE] == h;
    SubSlice(buf, i, i + |t|, t, 0, HEADER_SIZE);
    SubSlice(buf, i, i + HEADER_SIZE, h, 0, 8);
    SubSlice(buf, i, i + HEADER_SIZE, h, 8, 10);
    SubSlice(buf, i, i + HEADER_SIZE, h, 10, 12);
    SubSlice(buf, i, i + |t|, t, HEADER_SIZE, HEADER_SIZE + |e.name|);
    assert t[HEADER_SIZE..HEADER_SIZE + |e.name|] == e.name;
  }

  /** Decoding where an encoded entry starts yields that entry and the start of the next. */
  lemma {:induction false} DecodeEncoded(buf: seq<byte>, i: nat, e: DirEntry, pad: Padding)
    requires Storable(e) && i % 4 == 0
    requires i + |EncodeEntry(e, pad)| <= |buf|
    requires buf[i..i + |EncodeEntry(e, pad)|] == EncodeEntry(e, pad)
    ensures DecodeAt(buf, i) == Entry(e, i + |EncodeEntry(e, pad)|)
  {
    EntryFields(buf, i, e, pad);
    hide Utf8.Valid, Word64, Word16, EncodeEntry;
  }

  /** What may follow the entries: nothing, or a header with a zero name length. */
  ghost predicate Terminated(tail: seq<byte>) {
    tail == [] || (|tail| >= HEADER_SIZE && tail[8..10] == [0, 0])
  }

  lemma {:induction false} DecodeTerminated(buf: seq<byte>, i: nat)
    requires i <= |buf| && Terminated(buf[i..])
    ensures DecodeAt(buf, i) == End
  {
    if i < |buf| {
      SubSlice(buf, i, |buf|, buf[i..], 8, 10);
      assert FromLittleEndian([0]) == 0;
      assert FromLittleEndian([0, 0]) == 0;
    }
  }

  lemma SplitFront(buf: seq<byte>, i: nat, t: seq<byte>, rest: seq<byte>)
    requires i <= |buf| && buf[i..] == t + rest
    ensures i + |t| <= |buf|
    ensures buf[i..i + |t|] == t && buf[i + |t|..] == rest
  {
    assert |buf[i..]| == |t| + |rest|;
    assert buf[i..i + |t|] == buf[i..][..|t|];
    assert buf[i + |t|..] == buf[i..][|t|..];
  }

  lemma {:induction false} DecodeStep(buf: seq<byte>, i: nat, n: nat, es: seq<DirEntry>)
    requires es != []
    requires DecodeAt(buf, i) == Entry(es[0], n)
    requires DecodeFrom(buf, n) == Ok(es[1..])
    ensures DecodeFrom(buf, i) == Ok(es)
  {
    assert es == [es[0]] + es[1..];
  }

  lemma {:induction false} EncodeSplit(es: seq<DirEntry>, pads: seq<Padding>, tail: seq<byte>)
    requires |pads| == |es| && es != []
    ensures EncodeEntries(es, pads) + tail == EncodeEntry(es[0], pads[0]) + (EncodeEntries(es[1..], pads[1..]) + tail)
  {
  }

  /** The first encoded entry of a buffer, and what follows it. */
  lemma {:induction false} FrontSlice(buf: seq<byte>, i: nat, es: seq<DirEntry>, pads: seq<Padding>, tail: seq<byte>)
    returns (n: nat)
    requires |pads| == |es| && es != [] && i % 4 == 0 && i <= |buf|
    requires buf[i..] == EncodeEntries(es, pads) + tail
    ensures n == i + |EncodeEntry(es[0], pads[0])| <= |buf| && n % 4 == 0
    ensures buf[i..n] == EncodeEntry(es[0], pads[0]) && buf[n..] == EncodeEntries(es[1..], pads[1..]) + tail
  {
    Align4Shift(i, HEADER_SIZE + |es[0].name|);
    EncodeSplit(es, pads, tail);
    hide EncodeEntry, EncodeEntries, Align4, EncodedSize;
    SplitFront(buf, i, EncodeEntry(es[0], pads[0]), EncodeEntries(es[1..], pads[1..]) + tail);
    n := i + |EncodeEntry(es[0], pads[0])|;
  }

  lemma {:induction false} DecodeFront(buf: seq<byte>, i: nat, es: seq<DirEntry>, pads: seq<Padding>, tail: seq<byte>)
    returns (n: nat)
    requires |pads| == |es| && es != [] && i % 4 == 0 && i <= |buf|
    requires buf[i..] == EncodeEntries(es, pads) + tail
    requires Storable(es[0])
    ensures n <= |buf| && n % 4 == 0
    ensures DecodeAt(buf, i) == Entry(es[0], n)
    ensures buf[n..] == EncodeEntries(es[1..], pads[1..]) + tail
  {
    hide DecodeAt, EncodeEntry, EncodeEntries, Utf8.Valid, Align4, EncodedSize;
    n := FrontSlice(buf, i, es, pads, tail);
    DecodeEncoded(buf, i, es[0], pads[0]);
  }

  lemma {:induction false} DecodeSuffix(buf: seq<byte>, i: nat, es: seq<DirEntry>, pads: seq<Padding>, tail: seq<byte>)
    requires |pads| == |es| && i % 4 == 0 && i <= |buf|
    requires buf[i..] == EncodeEntries(es, pads) + tail
    requires forall j :: 0 <= j < |es| ==> Storable(es[j])
    requires Terminated(tail)
    ensures DecodeFrom(buf, i) == Ok(es)
    decreases |es|
  {
    if es == [] {
      assert buf[i..] == tail;
      DecodeTerminated(buf, i);
    } else {
      var n := DecodeFront(buf, i, es, pads, tail);
      DecodeSuffix(buf, n, es[1..], pads[1..], tail);
      DecodeStep(buf, i, n, es);
    }
  }

  /** Directory decoding inverts directory encoding, whatever the header padding holds. */
  lemma {:induction false} DirRoundTrip(es: seq<DirEntry>, pads: seq<Padding>)
    requires |pads| == |es|
    requires forall j :: 0 <= j < |es| ==> Storable(es[j])
    ensures Decode(EncodeEntries(es, pads)) == Ok(es)
  {
    DecodeSuffix(EncodeEntries(es, pads), 0, es, pads, []);
  }

  /** An entry with an empty name ends the listing: it and nothing before it is lost. */
  lemma {:induction false} EmptyNameVanishes(es: seq<DirEntry>, pads: seq<Padding>, e: DirEntry, pad: Padding)
    requires |pads| == |es| && e.name == []
    requires forall j :: 0 <= j < |es| ==> Storable(es[j])
    ensures Decode(EncodeEntries(es + [e], pads + [pad])) == Ok(es)
  {
    var t := EncodeEntry(e, pad);
    assert LittleEndian(0, 2) == [0, 0];
    assert t[8..10] == [0, 0];
    EncodeAppend(es, pads, e, pad);
    DecodeSuffix(EncodeEntries(es + [e], pads + [pad]), 0, es, pads, t);
  }

  /** What one step of the decoder reads where: inode number, length and kind, then the name. */
  lemma EntryLayout(buf: seq<byte>, i: nat)
    ensures DecodeAt(buf, i).End? <==> i + 16 > |buf| || Le16(buf, i + 8) == 0
    ensures DecodeAt(buf, i).Entry? <==>
              && i + 16 <= |buf| && 0 < Le16(buf, i + 8) && i + 16 + Le16(buf, i + 8) <= |buf|
              && Le16(buf, i + 10) in {1, 2} && Utf8.Valid(buf[i + 16..i + 16 + Le16(buf, i + 8)])
    ensures DecodeAt(buf, i).Entry? ==>
              && var len := Le16(buf, i + 8);
              && var kind := if Le16(buf, i + 10) == 1 then File else Dir;
              && DecodeAt(buf, i).e == DirEntry(buf[i + 16..i + 16 + len], kind, Le64(buf, i))
              && DecodeAt(buf, i).next % 4 == 0 && i + 16 + len <= DecodeAt(buf, i).next < i + 16 + len + 4
  {
    if i + 16 <= |buf| {
      Word64Bytes(buf, i);
      Word16Bytes(buf, i + 8);
      Word16Bytes(buf, i + 10);
    }
  }
}
