/** Well-formed UTF-8, the test behind `core::str::from_utf8` (Unicode table 3-7). */
module Utf8 {
  import opened Prelude

  predicate Cont(b: byte) {
    0x80 <= b <= 0xBF
  }

  predicate SecondOfThree(a: byte, b: byte) {
    || (a == 0xE0 && 0xA0 <= b <= 0xBF)
    || ((0xE1 <= a <= 0xEC || 0xEE <= a <= 0xEF) && Cont(b))
    || (a == 0xED && 0x80 <= b <= 0x9F)
  }

  predicate SecondOfFour(a: byte, b: byte) {
    || (a == 0xF0 && 0x90 <= b <= 0xBF)
    || (0xF1 <= a <= 0xF3 && Cont(b))
    || (a == 0xF4 && 0x80 <= b <= 0x8F)
  }

  /** Length of the well-formed sequence at the front of s, or 0 when there is none. */
  function SequenceLength(s: seq<byte>): (n: nat)
    ensures n <= 4 && n <= |s|
  {
    if s == [] then 0
    else if s[0] < 0x80 then 1
    else if 0xC2 <= s[0] <= 0xDF && |s| >= 2 && Cont(s[1]) then 2
    else if |s| >= 3 && Cont(s[2]) && SecondOfThree(s[0], s[1]) then 3
    else if |s| >= 4 && Cont(s[2]) && Cont(s[3]) && SecondOfFour(s[0], s[1]) then 4
    else 0
  }

  predicate Valid(s: seq<byte>) {
    s == [] || (SequenceLength(s) > 0 && Valid(s[SequenceLength(s)..]))
  }

  // ---------------------------------------------------------------------
  // Encodings of Unicode scalar values

  /** Code points other than the surrogates. */
  predicate Scalar(c: nat) {
    c < 0xD800 || 0xE000 <= c < 0x11_0000
  }

  function Encode(c: nat): (s: seq<byte>)
    requires Scalar(c)
  {
    if c < 0x80 then [c]
    else if c < 0x800 then [0xC0 + c / 64, 0x80 + c % 64]
    else if c < 0x1_0000 then [0xE0 + c / 4096, 0x80 + c / 64 % 64, 0x80 + c % 64]
    else [0xF0 + c / 0x4_0000, 0x80 + c / 4096 % 64, 0x80 + c / 64 % 64, 0x80 + c % 64]
  }

  ghost predicate Scalars(cs: seq<nat>) {
    forall i :: 0 <= i < |cs| ==> Scalar(cs[i])
  }

  ghost function EncodeAll(cs: seq<nat>): (s: seq<byte>)
    requires Scalars(cs)
  {
    if cs == [] then [] else Encode(cs[0]) + EncodeAll(cs[1..])
  }

  lemma ThreeEncoded(c: nat)
    requires Scalar(c) && 0x800 <= c < 0x1_0000
    ensures SecondOfThree(Encode(c)[0], Encode(c)[1]) && Cont(Encode(c)[2])
  {
    assert c / 4096 == c / 64 / 64;
  }

  lemma FourEncoded(c: nat)
    requires Scalar(c) && 0x1_0000 <= c
    ensures SecondOfFour(Encode(c)[0], Encode(c)[1]) && Cont(Encode(c)[2]) && Cont(Encode(c)[3])
  {
    assert c / 0x4_0000 == c / 4096 / 64;
  }

  /** The front of a byte string is recognised exactly when it encodes a scalar value. */
  lemma EncodedLength(c: nat, rest: seq<byte>)
    requires Scalar(c)
    ensures SequenceLength(Encode(c) + rest) == |Encode(c)| > 0
  {
    var s := Encode(c) + rest;
    assert forall i :: 0 <= i < |Encode(c)| ==> s[i] == Encode(c)[i];
    if 0x1_0000 <= c {
      FourEncoded(c);
    } else if 0x800 <= c {
      ThreeEncoded(c);
    }
  }

  lemma TwoBytes(x: nat, y: nat) returns (c: nat)
    requires 2 <= x < 32 && y < 64
    ensures Scalar(c) && Encode(c) == [0xC0 + x, 0x80 + y]
  {
    c := x * 64 + y;
  }

  lemma ThreeBytes(x: nat, y: nat, z: nat) returns (c: nat)
    requires x < 16 && y < 64 && z < 64 && (x == 0 ==> y >= 32) && (x == 13 ==> y < 32)
    ensures Scalar(c) && Encode(c) == [0xE0 + x, 0x80 + y, 0x80 + z]
  {
    c := (x * 64 + y) * 64 + z;
    assert c / 64 == x * 64 + y;
  }

  lemma FourBytes(x: nat, y: nat, z: nat, w: nat) returns (c: nat)
    requires x < 5 && y < 64 && z < 64 && w < 64 && (x == 0 ==> y >= 16) && (x == 4 ==> y < 16)
    ensures Scalar(c) && Encode(c) == [0xF0 + x, 0x80 + y, 0x80 + z, 0x80 + w]
  {
    var d := x * 64 + y;
    var e := d * 64 + z;
    c := e * 64 + w;
    assert c / 64 == e && c / 4096 == d && c / 0x4_0000 == x;
  }

  lemma Recognised(s: seq<byte>) returns (c: nat)
    requires SequenceLength(s) > 0
    ensures Scalar(c) && Encode(c) == s[..SequenceLength(s)]
  {
    match SequenceLength(s)
    case 1 => c := s[0];
    case 2 => c := TwoBytes(s[0] - 0xC0, s[1] - 0x80);
    case 3 => c := ThreeBytes(s[0] - 0xE0, s[1] - 0x80, s[2] - 0x80);
    case _ => c := FourBytes(s[0] - 0xF0, s[1] - 0x80, s[2] - 0x80, s[3] - 0x80);
  }

  lemma {:induction false} EncodedValid(cs: seq<nat>)
    requires Scalars(cs)
    ensures Valid(EncodeAll(cs))
  {
    if cs != [] {
      EncodedLength(cs[0], EncodeAll(cs[1..]));
      EncodedValid(cs[1..]);
      assert EncodeAll(cs)[|Encode(cs[0])|..] == EncodeAll(cs[1..]);
    }
  }

  lemma {:induction false} ValidEncodes(s: seq<byte>) returns (cs: seq<nat>)
    requires Valid(s)
    ensures Scalars(cs) && EncodeAll(cs) == s
  {
    cs := [];
    if s != [] {
      var c := Recognised(s);
      var rest := ValidEncodes(s[SequenceLength(s)..]);
      cs := [c] + rest;
      assert cs[1..] == rest;
    }
  }

  /** A byte string is accepted exactly when it encodes some sequence of scalar values. */
  lemma ValidMeaning(s: seq<byte>)
    ensures Valid(s) <==> exists cs: seq<nat> :: Scalars(cs) && EncodeAll(cs) == s
  {
    if Valid(s) {
      var cs := ValidEncodes(s);
    }
    forall cs: seq<nat> | Scalars(cs) && EncodeAll(cs) == s ensures Valid(s) {
      EncodedValid(cs);
    }
  }
}
