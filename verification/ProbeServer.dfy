/** The answering side of the probe protocol: dnsrouter/verify.go. */
module ProbeServer {
  import opened Bits
  import opened DnsText
  import opened Options
  import opened Sequences
  import opened DomainRoutes
  import opened DnsNames
  import opened TxtRecord
  import Base32

  // HMAC-SHA256 is any function with a 32-byte result.
  type Digest = d: Bytes | |d| == 32 witness [
    0, 0, 0, 0, 0, 0, 0, 0, 0, 0, 0, 0, 0, 0, 0, 0, 0, 0, 0, 0, 0, 0, 0, 0, 0, 0, 0, 0, 0, 0, 0, 0]

  type Hmac = (Bytes, Bytes) -> Digest

  // What a query gets: it goes to a backend, the handler stops with a run-time error, or a probe is answered.
  datatype Verdict = Forward | Fault | Reply(packet: Bytes)

  // A well-formed probe: the route that takes it, what it carries, and where its question ends.
  datatype Probe = Probe(route: VerifyRoute, nonce: Bytes, proof: Bytes, qEnd: nat)

  const POOL: nat := 4096

  // The lowercase labels of the question, and the offset after them; compressed names are turned away.
  function Question(packet: Bytes, off: nat): Option<(seq<Bytes>, nat)>
    decreases |packet| - off
  {
    if off >= |packet| then Some(([], off))
    else if packet[off] == 0 then Some(([], off + 1))
    else if packet[off] >= 0xC0 then None
    else
      var next := off + 1 + packet[off] as nat;
      if next > |packet| then None
      else
        match Question(packet, next)
        case None => None
        case Some((rest, end)) => Some(([Lower(packet[off + 1..next])] + rest, end))
  }

  // The question loop of handleVerify
  method ReadQuestion(packet: Bytes) returns (question: Option<(seq<Bytes>, nat)>)
    requires |packet| >= 12
    ensures question == Question(packet, 12)
  {
    var offset: nat, labels := 12, [];
    PutBack([], Question(packet, 12));
    while offset < |packet|
      invariant Question(packet, 12) == Before(labels, Question(packet, offset))
      decreases |packet| - offset
    {
      var length := packet[offset] as nat;
      if length == 0 {
        offset := offset + 1;
        assert labels + [] == labels;
        return Some((labels, offset));
      }
      if length >= 0xC0 {
        return None;
      }
      offset := offset + 1;
      if offset + length > |packet| {
        return None;
      }
      var l := Lower(packet[offset..offset + length]);
      PutBackOne(labels, l, Question(packet, offset + length));
      labels := labels + [l];
      offset := offset + length;
    }
    assert labels + [] == labels;
    question := Some((labels, offset));
  }

  function Before(labels: seq<Bytes>, q: Option<(seq<Bytes>, nat)>): Option<(seq<Bytes>, nat)> {
    match q
    case None => None
    case Some((rest, end)) => Some((labels + rest, end))
  }

  lemma PutBack(labels: seq<Bytes>, q: Option<(seq<Bytes>, nat)>)
    requires labels == []
    ensures Before(labels, q) == q
  {
    if q.Some? {
      assert [] + q.value.0 == q.value.0;
    }
  }

  lemma PutBackOne(labels: seq<Bytes>, l: Bytes, q: Option<(seq<Bytes>, nat)>)
    ensures Before(labels, Before([l], q)) == Before(labels + [l], q)
  {
    if q.Some? {
      assert labels + ([l] + q.value.0) == (labels + [l]) + q.value.0;
    }
  }

  function Read(packet: Bytes, routes: seq<VerifyRoute>): Option<Probe> {
    if |packet| < 12 || And(packet[2], 0x80) != 0 || U16(packet, 4) != 1 then None
    else
      match Question(packet, 12)
      case None => None
      case Some((labels, offset)) =>
        if offset + 4 > |packet| || U16(packet, offset) != TXT then None
        else
          match FirstMatch(labels, routes)
          case None => None
          case Some(route) => Payload(labels, route, offset + 4)
  }

  function Payload(labels: seq<Bytes>, route: VerifyRoute, qEnd: nat): Option<Probe> {
    var dl := |route.domainLabels|;
    if |labels| <= dl then None
    else
      match Base32.DecodeString(Flatten(labels[..|labels| - dl]))
      case None => None
      case Some(decoded) =>
        if |decoded| < 32 then None else Some(Probe(route, decoded[..16], decoded[16..32], qEnd))
  }

  // The offset after n records, if they fit in the packet.
  function SkipRecords(packet: Bytes, off: nat, n: nat): Option<nat>
    decreases n
  {
    if n == 0 then Some(off)
    else
      var (end, ended) := Skip(packet, off);
      if !ended || end + 10 > |packet| then None
      else
        var next := end + 10 + U16(packet, end + 8);
        if next > |packet| then None else SkipRecords(packet, next, n - 1)
  }

  const OPT: nat := 41

  // The payload size of the first OPT record among n, 0 without one (section 6.1.2 of RFC 6891).
  function FindOpt(packet: Bytes, off: nat, n: nat): nat
    decreases n
  {
    if n == 0 then 0
    else
      var (end, ended) := Skip(packet, off);
      if !ended || end + 10 > |packet| then 0
      else if U16(packet, end) == OPT then U16(packet, end + 2)
      else
        var next := end + 10 + U16(packet, end + 8);
        if next > |packet| then 0 else FindOpt(packet, next, n - 1)
  }

  function EdnsSize(packet: Bytes, qEnd: nat): nat {
    if |packet| < 12 then 0
    else
      match SkipRecords(packet, qEnd, U16(packet, 6) + U16(packet, 8))
      case None => 0
      case Some(off) => FindOpt(packet, off, U16(packet, 10))
  }

  method ParseEDNS0PayloadSize(packet: Bytes, qEnd: nat) returns (size: nat)
    ensures size == EdnsSize(packet, qEnd)
  {
    hide Skip;
    if |packet| < 12 {
      return 0;
    }
    var arCount := U16(packet, 10);
    if arCount == 0 {
      return 0;
    }
    var anCount := U16(packet, 6);
    var nsCount := U16(packet, 8);
    var offset: int := qEnd;
    for i := 0 to anCount + nsCount
      invariant offset >= 0
      invariant SkipRecords(packet, qEnd, anCount + nsCount) == SkipRecords(packet, offset, anCount + nsCount - i)
    {
      offset := SkipName(packet, offset);
      if offset < 0 || offset + 10 > |packet| {
        return 0;
      }
      var rdLen := U16(packet, offset + 8);
      offset := offset + 10 + rdLen;
      if offset > |packet| {
        return 0;
      }
    }
    for i := 0 to arCount
      invariant offset >= 0
      invariant EdnsSize(packet, qEnd) == FindOpt(packet, offset, arCount - i)
    {
      offset := SkipName(packet, offset);
      if offset < 0 || offset + 10 > |packet| {
        return 0;
      }
      var rrType := U16(packet, offset);
      if rrType == OPT {
        return U16(packet, offset + 2);
      }
      var rdLen := U16(packet, offset + 8);
      offset := offset + 10 + rdLen;
      if offset > |packet| {
        return 0;
      }
    }
    size := 0;
  }

  // Division that truncates toward zero, as Go's does.
  function Quotient(a: int, b: nat): int
    requires b > 0
  {
    if a >= 0 then a / b else -(-a / b)
  }

  // The size to aim for: the probe's own wish, else its EDNS size, else the route's.
  function Mtu(packet: Bytes, probe: Probe): nat
    requires |probe.nonce| == 16
  {
    var desired, edns := U16(probe.nonce, 14), EdnsSize(packet, probe.qEnd);
    if 200 <= desired <= 4096 then desired
    else if edns > 0 && edns != 1232 then edns
    else if probe.route.mtu == 0 then 1232
    else probe.route.mtu
  }

  // 75% to 100% of it, as the random number falls.
  function TargetTotal(mtu: nat, random: nat): (r: nat)
    requires mtu >= 4
    ensures 200 <= r && (mtu >= 200 ==> r <= mtu)
  {
    var t := mtu - random % (mtu / 4);
    if t < 200 then 200 else t
  }

  function TargetPayload(targetTotal: nat, qEnd: nat): int {
    targetTotal - (qEnd + 14 + 11)
  }

  function TargetData(targetPayload: int): (r: nat)
    ensures r >= 32
  {
    var t := targetPayload - Quotient(targetPayload, 256) - 1;
    if t < 32 then 32 else t
  }

  function Padded(digest: Digest, size: nat, padding: nat -> byte): (r: Bytes)
    requires size >= 32
    ensures |r| == size && r[..32] == digest
  {
    digest + seq(size - 32, i requires i >= 0 => padding(i))
  }

  // The answer that handleVerify builds.
  function Response(packet: Bytes, qEnd: nat, data: Bytes): Bytes
    requires 12 <= qEnd <= |packet|
  {
    ResponseWith(packet, qEnd, data, 4096)
  }

  // Header, the question as it was asked, one TXT record and an OPT record.
  function ResponseWith(packet: Bytes, qEnd: nat, data: Bytes, ednsPayloadSize: nat): Bytes
    requires 12 <= qEnd <= |packet|
  {
    var rdata := Chunks(data);
    [packet[0], packet[1], 0x84, 0, 0, 1, 0, 1, 0, 0, 0, 1]
    + packet[12..qEnd]
    + [0xC0, 0x0C, 0, 0x10, 0, 1, 0, 0, 0, 0x3C, (|rdata| / 256) % 256, |rdata| % 256]
    + rdata
    + [0, 0, 0x29, (ednsPayloadSize / 256) % 256, ednsPayloadSize % 256, 0, 0, 0, 0, 0, 0]
  }

  // buildBinaryTXTResponseWithEDNS
  method BuildResponse(packet: Bytes, qEnd: nat, data: Bytes, ednsPayloadSize: nat) returns (resp: Bytes)
    requires 12 <= qEnd <= |packet|
    ensures resp == ResponseWith(packet, qEnd, data, ednsPayloadSize)
  {
    hide Chunks;
    resp := [packet[0], packet[1]];
    resp := resp + [0x84, 0x00];
    resp := resp + [0x00, 0x01];
    resp := resp + [0x00, 0x01];
    resp := resp + [0x00, 0x00];
    resp := resp + [0x00, 0x01];
    ghost var header: Bytes := [packet[0], packet[1], 0x84, 0, 0, 1, 0, 1, 0, 0, 0, 1];
    assert resp == header;
    resp := resp + packet[12..qEnd];
    ghost var asked := resp;
    resp := resp + [0xC0, 0x0C];
    resp := resp + [0x00, 0x10];
    resp := resp + [0x00, 0x01];
    resp := resp + [0x00, 0x00, 0x00, 0x3C];
    var rdata := BuildStrings(data);
    resp := resp + [(|rdata| / 256) % 256, |rdata| % 256];
    ghost var fixed: Bytes := [0xC0, 0x0C, 0, 0x10, 0, 1, 0, 0, 0, 0x3C, (|rdata| / 256) % 256, |rdata| % 256];
    assert resp == asked + fixed;
    resp := resp + rdata;
    ghost var answered := resp;
    resp := resp + [0x00];
    resp := resp + [0x00, 0x29];
    resp := resp + [(ednsPayloadSize / 256) % 256, ednsPayloadSize % 256];
    resp := resp + [0x00, 0x00, 0x00, 0x00];
    resp := resp + [0x00, 0x00];
    ghost var opt: Bytes :=
      [0, 0, 0x29, (ednsPayloadSize / 256) % 256, ednsPayloadSize % 256, 0, 0, 0, 0, 0, 0];
    assert resp == answered + opt;
  }

  function Respond(packet: Bytes, routes: seq<VerifyRoute>, hmac: Hmac, random: nat, padding: nat -> byte): Verdict {
    match Read(packet, routes)
    case None => Forward
    case Some(probe) =>
      ReadShape(packet, routes);
      if probe.proof != hmac(probe.route.pubkey, probe.nonce)[..16] then Forward
      else if Mtu(packet, probe) < 4 then Fault
      else
        var size := TargetData(TargetPayload(TargetTotal(Mtu(packet, probe), random), probe.qEnd));
        if size > POOL then Fault
        else Reply(Response(packet, probe.qEnd,
                     Padded(hmac(probe.route.pubkey, probe.nonce + [1]), size, padding)))
  }

  // A probe's question ends inside the packet, and is what Skip steps over.
  lemma ReadShape(packet: Bytes, routes: seq<VerifyRoute>)
    ensures var p := Read(packet, routes); p.Some? ==>
      && 17 <= p.value.qEnd <= |packet| && |p.value.nonce| == |p.value.proof| == 16
      && Skip(packet, 12) == (p.value.qEnd - 4, true)
  {
    hide And, Question, FirstMatch, Skip, Payload;
    if Read(packet, routes).Some? {
      QuestionSkips(packet, 12);
      var (labels, offset) := Question(packet, 12).value;
      PayloadShape(labels, FirstMatch(labels, routes).value, offset + 4);
    }
  }

  lemma PayloadShape(labels: seq<Bytes>, route: VerifyRoute, qEnd: nat)
    ensures var p := Payload(labels, route, qEnd);
      p.Some? ==> p.value.qEnd == qEnd && |p.value.nonce| == |p.value.proof| == 16
  {
  }

  lemma {:induction false} QuestionSkips(packet: Bytes, off: nat)
    ensures var q := Question(packet, off);
      q.Some? ==>
        && off <= q.value.1
        && (q.value.1 < |packet| ==> Skip(packet, off) == (q.value.1, true) && off < q.value.1)
    decreases |packet| - off
  {
    if off < |packet| && 0 < packet[off] < 0xC0 && off + 1 + packet[off] as nat <= |packet| {
      QuestionSkips(packet, off + 1 + packet[off] as nat);
    }
  }

  // fillFastRandom: eight random bytes at a time, then the rest; nothing of the buffer's past is left.
  method FillFastRandom(buf: array<byte>, lo: nat, hi: nat, random: nat -> byte)
    requires lo <= hi <= buf.Length
    modifies buf
    ensures forall k :: lo <= k < hi ==> buf[k] == random(k - lo)
    ensures forall k :: 0 <= k < buf.Length && !(lo <= k < hi) ==> buf[k] == old(buf[k])
  {
    var n := hi - lo;
    var i := 0;
    while i + 8 <= n
      invariant 0 <= i <= n && i % 8 == 0
      invariant forall k :: lo <= k < lo + i ==> buf[k] == random(k - lo)
      invariant forall k :: 0 <= k < buf.Length && !(lo <= k < lo + i) ==> buf[k] == old(buf[k])
    {
      for j := 0 to 8
        invariant forall k :: lo <= k < lo + i + j ==> buf[k] == random(k - lo)
        invariant forall k :: 0 <= k < buf.Length && !(lo <= k < lo + i + j) ==> buf[k] == old(buf[k])
      {
        buf[lo + i + j] := random(i + j);
      }
      i := i + 8;
    }
    for k' := n - n % 8 to n
      invariant forall k :: lo <= k < lo + k' ==> buf[k] == random(k - lo)
      invariant forall k :: 0 <= k < buf.Length && !(lo <= k < lo + k') ==> buf[k] == old(buf[k])
    {
      buf[lo + k'] := random(k');
    }
  }

  // The first half of handleVerify: is this a probe?
  method ReadProbe(router: Router, packet: Bytes) returns (probe: Option<Probe>)
    ensures probe == Read(packet, router.verifyRoutes)
  {
    hide Question, FirstMatch, And, Flatten, Base32.DecodeString;
    if |packet| < 12 {
      return None;
    }
    if And(packet[2], 0x80) != 0 {
      return None;
    }
    if U16(packet, 4) != 1 {
      return None;
    }
    var question := ReadQuestion(packet);
    if question.None? {
      return None;
    }
    var (labels, offset) := question.value;
    if offset + 4 > |packet| {
      return None;
    }
    var qtype := U16(packet, offset);
    if qtype != TXT {
      return None;
    }
    var qEnd := offset + 4;
    var found := router.FindVerifyRoute(labels);
    if found.None? {
      return None;
    }
    var vr := found.value;
    var dl := |vr.domainLabels|;
    if |labels| <= dl {
      return None;
    }
    var encoded := Flatten(labels[..|labels| - dl]);
    var decoded := Base32.DecodeString(encoded);
    if decoded.None? || |decoded.value| < 32 {
      return None;
    }
    probe := Some(Probe(vr, decoded.value[..16], decoded.value[16..32], qEnd));
  }

  // The size chosen by handleVerify, from what it reads to the number of bytes to send.
  method ChooseSize(packet: Bytes, probe: Probe, random: nat) returns (targetData: Option<nat>)
    requires |probe.nonce| == 16
    ensures targetData == if Mtu(packet, probe) < 4 then None
      else Some(TargetData(TargetPayload(TargetTotal(Mtu(packet, probe), random), probe.qEnd)))
  {
    hide EdnsSize;
    var mtu := probe.route.mtu;
    if mtu == 0 {
      mtu := 1232;
    }
    var desiredSize := U16(probe.nonce, 14);
    if desiredSize >= 200 && desiredSize <= 4096 {
      mtu := desiredSize;
    } else {
      var clientEDNS := ParseEDNS0PayloadSize(packet, probe.qEnd);
      if clientEDNS > 0 && clientEDNS != 1232 {
        mtu := clientEDNS;
      }
    }
    assert mtu == Mtu(packet, probe);
    if mtu / 4 == 0 {
      return None;
    }
    hide Mtu;
    var targetTotal := mtu - random % (mtu / 4);
    if targetTotal < 200 {
      targetTotal := 200;
    }
    var overhead := probe.qEnd + 14 + 11;
    var targetPayload := targetTotal - overhead;
    var size := targetPayload - Quotient(targetPayload, 256) - 1;
    if size < 32 {
      size := 32;
    }
    targetData := Some(size);
  }

  // handleVerify, over a pooled buffer with any bytes in it.
  method HandleVerify(router: Router, packet: Bytes, hmac: Hmac, random: nat, padding: nat -> byte, pool: array<byte>)
    returns (verdict: Verdict)
    requires pool.Length == POOL
    modifies pool
    ensures verdict == Respond(packet, router.verifyRoutes, hmac, random, padding)
  {
    hide Read, Mtu, ResponseWith, TargetData, TargetTotal, TargetPayload, Skip;
    ReadShape(packet, router.verifyRoutes);
    var read := ReadProbe(router, packet);
    if read.None? {
      return Forward;
    }
    var probe := read.value;
    var expected := hmac(probe.route.pubkey, probe.nonce)[..16];
    if probe.proof != expected {
      return Forward;
    }
    var respHMAC := hmac(probe.route.pubkey, probe.nonce + [0x01]);
    var size := ChooseSize(packet, probe, random);
    if size.None? {
      return Fault;
    }
    var targetData := size.value;
    if targetData > pool.Length {
      return Fault;
    }
    for i := 0 to 32
      invariant forall k :: 0 <= k < i ==> pool[k] == respHMAC[k]
    {
      pool[i] := respHMAC[i];
    }
    if targetData > 32 {
      FillFastRandom(pool, 32, targetData, padding);
    }
    assert pool[..targetData] == Padded(respHMAC, targetData, padding);
    var resp := BuildResponse(packet, probe.qEnd, pool[..targetData], 4096);
    verdict := Reply(resp);
  }
}
