/** Parsing a DHCP offer (kernel/src/drivers/e1000.rs; options as in section 2 of RFC 2132). */
module Dhcp {
  import opened Prelude

  const DHCP_XID: nat := 0x706f_7335
  const PAD: byte := 0
  const END: byte := 255
  const ROUTER: byte := 3
  const DNS: byte := 6
  const MESSAGE_TYPE: byte := 53

  datatype Offer = Offer(yiaddr: seq<byte>, router: seq<byte>, dns: seq<byte>)

  datatype Opt = Opt(code: byte, data: seq<byte>)

  function Be16(b: seq<byte>, off: nat): (v: nat)
    requires off + 2 <= |b|
  {
    b[off] as nat * 0x100 + b[off + 1] as nat
  }

  function Be32(b: seq<byte>, off: nat): (v: nat)
    requires off + 4 <= |b|
  {
    Be16(b, off) * 0x1_0000 + Be16(b, off + 2)
  }

  // ---------------------------------------------------------------------
  // Options

  predicate Proper(o: Opt) {
    o.code != PAD && o.code != END && |o.data| < 256
  }

  /** The options of a field: pads are skipped; END or a truncated option ends it. */
  function Options(b: seq<byte>): (opts: seq<Opt>)
    ensures forall i :: 0 <= i < |opts| ==> Proper(opts[i])
  {
    if b == [] || b[0] == END then []
    else if b[0] == PAD then Options(b[1..])
    else if |b| < 2 || |b| < 2 + b[1] as nat then []
    else [Opt(b[0], b[2..2 + b[1] as nat])] + Options(b[2 + b[1] as nat..])
  }

  function Encode(opts: seq<Opt>): (b: seq<byte>)
    requires forall i :: 0 <= i < |opts| ==> Proper(opts[i])
  {
    if opts == [] then []
    else
      assert Proper(opts[0]);
      [opts[0].code, |opts[0].data| as byte] + opts[0].data + Encode(opts[1..])
  }

  /** Any list of options can be written and is read back, whatever follows END. */
  lemma {:induction false} OptionsRoundTrip(opts: seq<Opt>, rest: seq<byte>)
    requires forall i :: 0 <= i < |opts| ==> Proper(opts[i])
    ensures Options(Encode(opts) + [END] + rest) == opts
  {
    if opts != [] {
      var o, n := opts[0], |opts[0].data|;
      var b := Encode(opts) + [END] + rest;
      assert b == [o.code, n as byte] + o.data + (Encode(opts[1..]) + [END] + rest);
      assert b[2..2 + n] == o.data && b[2 + n..] == Encode(opts[1..]) + [END] + rest;
      OptionsRoundTrip(opts[1..], rest);
    } else {
      assert (Encode(opts) + [END] + rest)[0] == END;
    }
  }

  /** Zero bytes between options are skipped, and an option cut short ends the list. */
  lemma {:induction false} OptionsPadded(n: nat, b: seq<byte>, code: byte, len: byte, data: seq<byte>)
    requires code != 0 && code != 255 && |data| < len as nat
    ensures Options(Zeros(n) + b) == Options(b) && Options([code, len] + data) == [] && Options([code]) == []
    decreases n
  {
    if n == 0 {
      assert Zeros(n) + b == b;
    } else {
      assert (Zeros(n) + b)[1..] == Zeros(n - 1) + b;
      OptionsPadded(n - 1, b, code, len, data);
    }
  }

  /** The last option with this code and at least `min` bytes. */
  function Last(opts: seq<Opt>, code: byte, min: nat): (d: Option<seq<byte>>)
    ensures d.Some? ==> |d.value| >= min
  {
    if opts == [] then None
    else
      var o := opts[|opts| - 1];
      if o.code == code && |o.data| >= min then Some(o.data) else Last(opts[..|opts| - 1], code, min)
  }

  lemma LastAppend(opts: seq<Opt>, o: Opt, code: byte, min: nat)
    ensures Last(opts + [o], code, min) == if o.code == code && |o.data| >= min then Some(o.data)
              else Last(opts, code, min)
  {
    assert (opts + [o])[..|opts|] == opts;
  }

  /** It is the last: every later option has another code or is too short. */
  lemma {:induction false} LastMeaning(opts: seq<Opt>, code: byte, min: nat)
    ensures Last(opts, code, min).None? <==>
              forall i :: 0 <= i < |opts| ==> !(opts[i].code == code && |opts[i].data| >= min)
    ensures Last(opts, code, min).Some? ==>
              exists i :: 0 <= i < |opts| && opts[i].code == code && opts[i].data == Last(opts, code, min).value &&
                                                        forall j :: i < j < |opts| ==>
                                                            !(opts[j].code == code && |opts[j].data| >= min)
  {
    if opts != [] {
      var n := |opts| - 1;
      LastMeaning(opts[..n], code, min);
      if !(opts[n].code == code && |opts[n].data| >= min) && Last(opts, code, min).Some? {
        var i :| 0 <= i < n && opts[..n][i].code == code && opts[..n][i].data == Last(opts[..n], code, min).value &&
                 forall j :: i < j < n ==> !(opts[..n][j].code == code && |opts[..n][j].data| >= min);
        forall j | i < j < |opts| ensures !(opts[j].code == code && |opts[j].data| >= min) {
          if j < n {
            assert opts[..n][j] == opts[j];
          }
        }
        assert opts[i] == opts[..n][i];
      } else if Last(opts, code, min).None? {
        forall i | 0 <= i < |opts| ensures !(opts[i].code == code && |opts[i].data| >= min) {
          if i < n {
            assert opts[..n][i] == opts[i];
          }
        }
      }
    }
  }

  function Address(d: Option<seq<byte>>): (a: seq<byte>)
    requires d.Some? ==> |d.value| >= 4
    ensures |a| == 4
  {
    if d.Some? then d.value[..4] else [0, 0, 0, 0]
  }

  // ---------------------------------------------------------------------
  // The packet

  /** Offset of the DHCP message, if the packet is an IPv4 UDP reply to our request. */
  function Header(p: seq<byte>, mac: seq<byte>): (dhcp: Option<nat>)
    ensures dhcp.Some? ==> 42 <= dhcp.value && dhcp.value + 240 <= |p|
  {
    if |p| < 282 || p[12] != 0x08 || p[13] != 0x00 then None
    else
      var ihl := p[14] as nat % 16 * 4;
      if ihl < 20 || |p| < 14 + ihl + 248 || p[23] != 17 then None
      else
        var udp := 14 + ihl;
        var dhcp := udp + 8;
        if Be16(p, udp) == 67 && Be16(p, udp + 2) == 68 && p[dhcp] == 2 && p[dhcp + 1] == 1 && p[dhcp + 2] == 6 &&
           Be32(p, dhcp + 4) == DHCP_XID && p[dhcp + 28..dhcp + 34] == mac && p[dhcp + 236..dhcp + 240] ==
               [99, 130, 83, 99]
        then Some(dhcp)
        else None
  }

  /** An offer is a reply to us whose last message type is 2 (DHCPOFFER). */
  function OfferIn(p: seq<byte>, mac: seq<byte>): (r: Option<Offer>) {
    var dhcp := Header(p, mac);
    if dhcp.None? then None
    else
      var opts := Options(p[dhcp.value + 240..]);
      var kind := Last(opts, MESSAGE_TYPE, 1);
      if kind.Some? && kind.value[0] == 2
      then Some(Offer(p[dhcp.value + 16..dhcp.value + 20], Address(Last(opts, ROUTER, 4)), Address(Last(opts, DNS, 4))))
      else None
  }

  /** The values an option list gives. */
  ghost predicate Gives(opts: seq<Opt>, msgType: byte, router: seq<byte>, dns: seq<byte>) {
    && msgType == (var kind := Last(opts, MESSAGE_TYPE, 1); if kind.Some? then kind.value[0] else 0)
    && router == Address(Last(opts, ROUTER, 4)) && dns == Address(Last(opts, DNS, 4))
  }

  lemma GivesNext(opts: seq<Opt>, o: Opt, msgType: byte, router: seq<byte>, dns: seq<byte>)
    requires Gives(opts, msgType, router, dns)
    ensures Gives(opts + [o], if o.code == MESSAGE_TYPE && |o.data| >= 1 then o.data[0] else msgType,
                  if o.code == ROUTER && |o.data| >= 4 then o.data[..4]
                      else router, if o.code == DNS && |o.data| >= 4 then o.data[..4] else dns)
  {
    LastAppend(opts, o, MESSAGE_TYPE, 1);
    LastAppend(opts, o, ROUTER, 4);
    LastAppend(opts, o, DNS, 4);
  }

  /** The options `seen` stand before position pos. */
  ghost predicate Parsed(p: seq<byte>, start: nat, pos: nat, seen: seq<Opt>) {
    start <= pos <= |p| && seen + Options(p[pos..]) == Options(p[start..])
  }

  lemma ParsedStart(p: seq<byte>, start: nat)
    requires start <= |p|
    ensures Parsed(p, start, start, [])
  {
    hide Options;
  }

  /** What follows position pos, one option at a time. */
  lemma OptionAt(p: seq<byte>, pos: nat)
    requires pos < |p|
    ensures var rest := Options(p[pos..]);
            if p[pos] == END then rest == []
            else if p[pos] == PAD then rest == Options(p[pos + 1..])
            else if pos + 1 >= |p| || pos + 2 + p[pos + 1] as nat > |p| then rest == []
            else var len := p[pos + 1] as nat;
                rest == [Opt(p[pos], p[pos + 2..pos + 2 + len])] + Options(p[pos + 2 + len..])
  {
    var b := p[pos..];
    assert b[1..] == p[pos + 1..];
    if pos + 1 < |p| && pos + 2 + p[pos + 1] as nat <= |p| {
      var len := p[pos + 1] as nat;
      assert b[1] == p[pos + 1];
      assert b[2..2 + len] == p[pos + 2..pos + 2 + len] && b[2 + len..] == p[pos + 2 + len..];
    }
  }

  lemma ParsedStep(p: seq<byte>, start: nat, pos: nat, seen: seq<Opt>)
    requires Parsed(p, start, pos, seen) && pos < |p|
    ensures if p[pos] == END then seen == Options(p[start..])
            else if p[pos] == PAD then Parsed(p, start, pos + 1, seen)
            else if pos + 1 >= |p| || pos + 2 + p[pos + 1] as nat > |p| then seen == Options(p[start..])
            else var len := p[pos + 1] as nat;
                Parsed(p, start, pos + 2 + len, seen + [Opt(p[pos], p[pos + 2..pos + 2 + len])])
  {
    hide Options;
    OptionAt(p, pos);
    assert seen + [] == seen;
    if p[pos] != END && p[pos] != PAD && pos + 1 < |p| && pos + 2 + p[pos + 1] as nat <= |p| {
      var len := p[pos + 1] as nat;
      var o, rest := Opt(p[pos], p[pos + 2..pos + 2 + len]), Options(p[pos + 2 + len..]);
      assert seen + ([o] + rest) == (seen + [o]) + rest;
    }
  }

  lemma ParsedEnd(p: seq<byte>, start: nat, seen: seq<Opt>)
    requires Parsed(p, start, |p|, seen)
    ensures seen == Options(p[start..])
  {
    assert p[|p|..] == [];
  }

  lemma GivesNone()
    ensures Gives([], 0, [0, 0, 0, 0], [0, 0, 0, 0])
  {
  }

  /** The option loop: the last values seen when END, a truncated option or the end of the packet is met. */
  method ParseOptions(p: seq<byte>, start: nat) returns (msgType: byte, router: seq<byte>, dns: seq<byte>)
    requires start <= |p|
    ensures Gives(Options(p[start..]), msgType, router, dns)
  {
    hide Options, Last, Address, Gives, Parsed;
    msgType, router, dns := 0, [0, 0, 0, 0], [0, 0, 0, 0];
    var pos := start;
    ghost var seen: seq<Opt> := [];
    GivesNone();
    ParsedStart(p, start);
    while pos < |p|
      invariant start <= pos <= |p| && Parsed(p, start, pos, seen) && Gives(seen, msgType, router, dns)
    {
      ParsedStep(p, start, pos, seen);
      var opt := p[pos];
      pos := pos + 1;
      if opt == END {
        return;
      }
      if opt == PAD {
        continue;
      }
      if pos >= |p| {
        return;
      }
      var len := p[pos] as nat;
      pos := pos + 1;
      if pos + len > |p| {
        return;
      }
      ghost var o := Opt(opt, p[pos..pos + len]);
      GivesNext(seen, o, msgType, router, dns);
      if opt == MESSAGE_TYPE && len >= 1 {
        msgType := p[pos];
      } else if opt == ROUTER && len >= 4 {
        router := p[pos..pos + 4];
        assert router == o.data[..4];
      } else if opt == DNS && len >= 4 {
        dns := p[pos..pos + 4];
        assert dns == o.data[..4];
      }
      seen := seen + [o];
      pos := pos + len;
    }
    ParsedEnd(p, start, seen);
  }

  /** A reply to us, byte by byte: IPv4 with a header of 20 bytes or more, UDP from port 67 to 68, a
      reply for Ethernet with our transaction id, our address and the DHCP cookie. */
  lemma HeaderBytes(p: seq<byte>, mac: seq<byte>)
    ensures Header(p, mac).Some? <==>
              && |p| >= 282 && p[12..14] == [0x08, 0x00] && p[23] == 17
              && var udp := 14 + 4 * (p[14] % 16);
              && udp >= 34 && |p| >= udp + 248 && p[udp..udp + 4] == [0, 67, 0, 68]
              && var dhcp := udp + 8;
              && p[dhcp..dhcp + 3] == [2, 1, 6] && p[dhcp + 4..dhcp + 8] == [0x70, 0x6F, 0x73, 0x35]
              && p[dhcp + 28..dhcp + 34] == mac && p[dhcp + 236..dhcp + 240] == [99, 130, 83, 99]
    ensures Header(p, mac).Some? ==> Header(p, mac).value == 22 + 4 * (p[14] % 16)
  {
    if |p| >= 282 {
      var udp := 14 + 4 * (p[14] as nat % 16);
      assert p[12..14] == [p[12], p[13]];
      if |p| >= udp + 248 {
        var dhcp := udp + 8;
        assert p[udp..udp + 4] == [p[udp], p[udp + 1], p[udp + 2], p[udp + 3]];
        assert p[dhcp..dhcp + 3] == [p[dhcp], p[dhcp + 1], p[dhcp + 2]];
        assert p[dhcp + 4..dhcp + 8] == [p[dhcp + 4], p[dhcp + 5], p[dhcp + 6], p[dhcp + 7]];
      }
    }
  }

  /** `parse_dhcp_offer`. */
  method ParseOffer(p: seq<byte>, mac: seq<byte>) returns (r: Option<Offer>)
    ensures r == OfferIn(p, mac)
  {
    hide Last;
    if |p| < 14 + 20 + 8 + 240 || p[12] != 0x08 || p[13] != 0x00 {
      return None;
    }
    var ip := 14;
    var ihl := p[ip] as nat % 16 * 4;
    if ihl < 20 || |p| < ip + ihl + 8 + 240 || p[ip + 9] != 17 {
      return None;
    }
    var udp := ip + ihl;
    if Be16(p, udp) != 67 || Be16(p, udp + 2) != 68 {
      return None;
    }
    var dhcp := udp + 8;
    if p[dhcp] != 2 || p[dhcp + 1] != 1 || p[dhcp + 2] != 6 {
      return None;
    }
    if Be32(p, dhcp + 4) != DHCP_XID || p[dhcp + 28..dhcp + 34] != mac {
      return None;
    }
    if p[dhcp + 236..dhcp + 240] != [99, 130, 83, 99] {
      return None;
    }
    assert Header(p, mac) == Some(dhcp);
    var msgType, router, dns := ParseOptions(p, dhcp + 240);
    if msgType != 2 {
      return None;
    }
    return Some(Offer(p[dhcp + 16..dhcp + 20], router, dns));
  }

  /** Any offer a server sends to us is read back: the address offered, and the first four bytes of
      the last router and of the last DNS option; any other message is not an offer. */
  lemma OfferRoundTrip(p: seq<byte>, mac: seq<byte>, opts: seq<Opt>, rest: seq<byte>)
    requires Header(p, mac).Some? && forall i :: 0 <= i < |opts| ==> Proper(opts[i])
    requires p[Header(p, mac).value + 240..] == Encode(opts) + [255] + rest
    ensures var dhcp, kind := 22 + 4 * (p[14] % 16), Last(opts, 53, 1);
            OfferIn(p, mac) ==
              if kind.None? || kind.value[0] != 2 then None
              else Some(Offer(p[dhcp + 16..dhcp + 20],
                              if Last(opts, 3, 4).Some? then Last(opts, 3, 4).value[..4] else [0, 0, 0, 0],
                              if Last(opts, 6, 4).Some? then Last(opts, 6, 4).value[..4] else [0, 0, 0, 0]))
  {
    hide Options, Header, Last;
    HeaderBytes(p, mac);
    OptionsRoundTrip(opts, rest);
  }
}
