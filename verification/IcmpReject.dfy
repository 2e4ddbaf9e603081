/** Turning UDP away with an ICMP message: parse_udp_packet and send_icmp_port_unreachable of hev-socks5-tunnel.c. */
module IcmpReject {
  import opened Bits
  import opened Checksum
  import opened Options

  // The packet is IPv4 and UDP, long enough for the checks made on it.
  predicate IsUdp(data: Bytes) {
    && |data| >= 28
    && data[0] as int / 16 == 4
    && 20 <= HeaderLength(data) && HeaderLength(data) + 4 <= |data|
    && data[9] == 17
  }

  function HeaderLength(data: Bytes): nat
    requires data != []
  {
    data[0] as int % 16 * 4
  }

  function DestinationPort(data: Bytes): nat
    requires IsUdp(data)
  {
    U16(data, HeaderLength(data) + 2)
  }

  // parse_udp_packet: zero for anything else, otherwise the header length, with the port in the out-parameter.
  method ParseUdpPacket(data: Bytes) returns (headerLength: nat, dstPort: nat)
    ensures headerLength != 0 <==> IsUdp(data)
    ensures IsUdp(data) ==> headerLength == HeaderLength(data) && dstPort == DestinationPort(data)
    ensures !IsUdp(data) ==> dstPort == 0
  {
    headerLength, dstPort := 0, 0;
    if |data| < 28 {
      return;
    }
    if data[0] as int / 16 != 4 {
      return;
    }
    assert Pow2(4) == 16;
    AndLowBits(data[0], 4);
    hide And;
    var n := And(data[0], 0x0F) * 4;
    if n < 20 || |data| < n + 4 {
      return;
    }
    if data[9] != 17 {
      return;
    }
    Pow2Byte();
    OrDisjoint(data[n + 2] as int * 256, data[n + 3], 8);
    dstPort := Or(data[n + 2] as int * 256, data[n + 3]);
    headerLength := n;
  }

  // The message before its checksums: the addresses change places, and the ICMP part quotes the packet (RFC 792).
  function IpHeader(orig: Bytes, total: nat): (r: Bytes)
    requires |orig| >= 20 && total < 0x1_0000
    ensures |r| == 20 && U16(r, 10) == 0
  {
    [0x45, 0, total / 256, total % 256, 0, 0, 0, 0, 64, 1, 0, 0] + orig[16..20] + orig[12..16]
  }

  function IcmpPart(orig: Bytes, quoted: nat): (r: Bytes)
    requires quoted <= |orig|
    ensures |r| == 8 + quoted && U16(r, 2) == 0
  {
    [3, 3, 0, 0, 0, 0, 0, 0] + orig[..quoted]
  }

  function Finished(part: Bytes, k: nat): (r: Bytes)
    requires k + 2 <= |part|
    ensures |r| == |part|
  {
    PutWord(part, k, Complement(part))
  }

  function Unreachable(orig: Bytes, headerLength: nat): Bytes
    requires 20 <= headerLength <= 60 && headerLength + 8 <= |orig|
  {
    var quoted := headerLength + 8;
    Finished(IpHeader(orig, 28 + quoted), 10) + Finished(IcmpPart(orig, quoted), 2)
  }

  // send_icmp_port_unreachable, up to the writing of the packet.
  method SendIcmpPortUnreachable(orig: Bytes, headerLength: nat, mem: bool) returns (packet: Option<Bytes>)
    requires 20 <= headerLength <= 60
    ensures packet == if |orig| < headerLength + 8 || !mem then None else Some(Unreachable(orig, headerLength))
  {
    hide Words, Fold, Complement, U16;
    var icmpDataLen := headerLength + 8;
    if |orig| < icmpDataLen {
      return None;
    }
    var icmpTotal := 8 + icmpDataLen;
    var ipTotal := 20 + icmpTotal;
    if !mem {
      return None;
    }
    var out := new byte[ipTotal](_ => 0);
    FillHeader(out, orig, ipTotal);
    PutChecksum(out, 0, 20, 10);
    hide IcmpPart, IpHeader, Finished;
    ghost var ip := out[0..0 + 20];
    FillIcmp(out, orig, icmpDataLen);
    assert out[0..0 + 20] == ip;
    PutChecksum(out, 20, icmpTotal, 2);
    assert out[0..0 + 20] == ip;
    assert out[..] == out[0..0 + 20] + out[20..20 + icmpTotal];
    packet := Some(out[..]);
  }

  // Type, code and quoted data of the message, behind the IP header.
  method FillIcmp(out: array<byte>, orig: Bytes, icmpDataLen: nat)
    requires icmpDataLen <= |orig| && out.Length == 28 + icmpDataLen
    requires forall k :: 20 <= k < out.Length ==> out[k] == 0
    modifies out
    ensures out[20..20 + (8 + icmpDataLen)] == IcmpPart(orig, icmpDataLen)
    ensures forall k :: 0 <= k < 20 ==> out[k] == old(out[k])
  {
    out[20] := 3;
    out[21] := 3;
    CopyIn(out, 28, orig[..icmpDataLen]);
  }

  // The IP header without its checksum, into a zeroed buffer.
  method FillHeader(out: array<byte>, orig: Bytes, ipTotal: nat)
    requires 20 <= out.Length && ipTotal < 0x1_0000 && |orig| >= 20
    requires forall k :: 0 <= k < out.Length ==> out[k] == 0
    modifies out
    ensures out[0..20] == IpHeader(orig, ipTotal)
    ensures forall k :: 20 <= k < out.Length ==> out[k] == 0
  {
    out[0] := 0x45;
    out[2] := ipTotal / 256 % 256;
    out[3] := ipTotal % 256;
    out[8] := 64;
    out[9] := 1;
    CopyIn(out, 12, orig[16..20]);
    CopyIn(out, 16, orig[12..16]);
  }

  // Sum, complement, and the two bytes of the field at k.
  method PutChecksum(out: array<byte>, start: nat, n: nat, k: nat)
    requires start + n <= out.Length && n < 0x1_0000 && k + 2 <= n
    modifies out
    ensures out[start..start + n] == Finished(old(out[start..start + n]), k)
    ensures forall i :: 0 <= i < out.Length && !(start <= i < start + n) ==> out[i] == old(out[i])
  {
    hide Words, Fold, U16;
    ghost var part := out[start..start + n];
    var sum := Sum(out, start, n);
    var cksum := 0xFFFF - sum;
    assert cksum == Complement(part);
    hide Complement;
    out[start + k] := cksum / 256 % 256;
    out[start + k + 1] := cksum % 256;
    assert out[start..start + n] == PutWord(part, k, cksum);
  }

  // memcpy
  method CopyIn(out: array<byte>, at: nat, s: Bytes)
    requires at + |s| <= out.Length
    modifies out
    ensures forall k :: at <= k < at + |s| ==> out[k] == s[k - at]
    ensures forall k :: 0 <= k < out.Length && !(at <= k < at + |s|) ==> out[k] == old(out[k])
  {
    for i := 0 to |s|
      invariant forall k :: at <= k < at + i ==> out[k] == s[k - at]
      invariant forall k :: 0 <= k < out.Length && !(at <= k < at + i) ==> out[k] == old(out[k])
    {
      out[at + i] := s[i];
    }
  }

  // Which packets are turned away.
  predicate Rejected(data: Bytes, rejectNonDns: bool, rejectQuic: bool) {
    IsUdp(data) && ((rejectNonDns && DestinationPort(data) != 53) || (rejectQuic && DestinationPort(data) == 443))
  }

  // The check in lwip_io_task_entry: does the packet go on to the stack, and what is written back to the device?
  method Admit(data: Bytes, rejectNonDns: bool, rejectQuic: bool, mem: bool)
    returns (goesOn: bool, reply: Option<Bytes>)
    ensures goesOn <==> !Rejected(data, rejectNonDns, rejectQuic)
    ensures reply == if goesOn || |data| < HeaderLength(data) + 8 || !mem then None
      else Some(Unreachable(data, HeaderLength(data)))
  {
    hide Unreachable;
    var headerLength, dstPort := ParseUdpPacket(data);
    if headerLength != 0 && ((rejectNonDns && dstPort != 53) || (rejectQuic && dstPort == 443)) {
      reply := SendIcmpPortUnreachable(data, headerLength, mem);
      return false, reply;
    }
    return true, None;
  }

  // Every message that is sent verifies in both its parts, goes back where the packet came from,
  // and quotes enough of it to tell the ports.
  lemma ReplyIsWellFormed(data: Bytes)
    requires IsUdp(data) && HeaderLength(data) + 8 <= |data|
    ensures var n := HeaderLength(data);
      var r := Unreachable(data, n);
      && |r| == 36 + n && U16(r, 2) == |r|
      && Verifies(r[..20]) && Verifies(r[20..])
      && r[0] == 0x45 && r[1] == 0 && r[4..8] == [0, 0, 0, 0] && r[8] == 64 && r[9] == 1
      && r[12..16] == data[16..20] && r[16..20] == data[12..16]
      && r[20] == 3 && r[21] == 3 && r[24..28] == [0, 0, 0, 0]
      && r[28..] == data[..n + 8]
      && U16(r, 28 + n + 2) == DestinationPort(data)
  {
    hide Verifies, Finished, IpHeader, IcmpPart;
    var n := HeaderLength(data);
    HeaderIsWellFormed(data, 36 + n);
    IcmpIsWellFormed(data, n + 8);
    var a, b := Finished(IpHeader(data, 36 + n), 10), Finished(IcmpPart(data, n + 8), 2);
    var r := Unreachable(data, n);
    assert r == a + b;
    hide Unreachable;
    assert r[..20] == a && r[20..] == b;
    assert r[4..8] == a[4..8] && r[24..28] == b[4..8];
    assert r[12..16] == a[12..16] && r[16..20] == a[16..20] && r[28..] == b[8..];
    assert r[28..][n + 2] == data[n + 2] && r[28..][n + 3] == data[n + 3];
  }

  lemma HeaderIsWellFormed(orig: Bytes, total: nat)
    requires |orig| >= 20 && total < 0x1_0000
    ensures var a := Finished(IpHeader(orig, total), 10);
      && Verifies(a) && U16(a, 2) == total && a[0] == 0x45 && a[1] == 0 && a[4..8] == [0, 0, 0, 0]
      && a[8] == 64 && a[9] == 1
      && a[12..16] == orig[16..20] && a[16..20] == orig[12..16]
  {
    hide Words, Fold, Complement, Verifies;
    ChecksumVerifies(IpHeader(orig, total), 10);
    var h, a := IpHeader(orig, total), Finished(IpHeader(orig, total), 10);
    assert a[4..8] == h[4..8] && a[12..16] == h[12..16] && a[16..20] == h[16..20];
  }

  lemma IcmpIsWellFormed(orig: Bytes, quoted: nat)
    requires quoted <= |orig|
    ensures var b := Finished(IcmpPart(orig, quoted), 2);
      Verifies(b) && b[0] == 3 && b[1] == 3 && b[4..8] == [0, 0, 0, 0] && b[8..] == orig[..quoted]
  {
    hide Words, Fold, Complement, Verifies;
    ChecksumVerifies(IcmpPart(orig, quoted), 2);
    var h, b := IcmpPart(orig, quoted), Finished(IcmpPart(orig, quoted), 2);
    assert b[4..8] == h[4..8] && b[8..] == h[8..];
  }

  // A packet as it comes from the device: version and header words, what follows up to the protocol, the rest of the
  // header, and a payload that begins with two ports (RFC 791, RFC 768).
  function Ipv4(words: nat, mid: Bytes, protocol: byte, rest: Bytes, src: nat, dst: nat, payload: Bytes): Bytes
    requires words < 16 && src < 0x1_0000 && dst < 0x1_0000
  {
    [0x40 + words] + mid + [protocol] + rest + Be16(src) + Be16(dst) + payload
  }

  // Which packets are turned away, told by what they consist of: UDP alone, to any port but 53, or to port 443.
  lemma RejectedIff(words: nat, mid: Bytes, protocol: byte, rest: Bytes, src: nat, dst: nat, payload: Bytes,
                    rejectNonDns: bool, rejectQuic: bool)
    requires 5 <= words < 16 && |mid| == 8 && |rest| == 4 * words - 10 && src < 0x1_0000 && dst < 0x1_0000
    ensures var packet := Ipv4(words, mid, protocol, rest, src, dst, payload);
      && (IsUdp(packet) <==> protocol == 17 && |packet| >= 28)
      && (IsUdp(packet) ==> HeaderLength(packet) == 4 * words && DestinationPort(packet) == dst)
      && (Rejected(packet, rejectNonDns, rejectQuic) <==>
            && protocol == 17 && |packet| >= 28
            && ((rejectNonDns && dst != 53) || (rejectQuic && dst == 443)))
  {
    var packet := Ipv4(words, mid, protocol, rest, src, dst, payload);
    var n := 4 * words;
    assert packet[0] as int / 16 == 4 && packet[0] as int % 16 == words;
    assert packet[9] == protocol;
    assert packet[n + 2] == Be16(dst)[0] && packet[n + 3] == Be16(dst)[1];
  }

  // Other versions of IP are never turned away.
  lemma OtherVersionsPass(data: Bytes, rejectNonDns: bool, rejectQuic: bool)
    requires data != [] && !(0x40 <= data[0] < 0x50)
    ensures !Rejected(data, rejectNonDns, rejectQuic)
  {
  }
}
