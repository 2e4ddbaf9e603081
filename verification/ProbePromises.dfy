/** The probe protocol end to end, and the size of its replies. */
module ProbePromises {
  import opened Bits
  import opened DnsText
  import opened Options
  import opened DomainRoutes
  import opened DnsNames
  import opened TxtRecord
  import opened ProbeServer
  import opened ProbeClient
  import opened Sequences
  import Base32

  // Skipping looks only at the bytes before its end.
  lemma {:induction false} SkipLocal(a: Bytes, b: Bytes, off: nat, end: nat)
    requires Skip(a, off) == (end, true) && end <= |a| && end <= |b|
    requires forall i :: off <= i < end ==> a[i] == b[i]
    ensures Skip(b, off) == (end, true)
    decreases |a| - off
  {
    SkipForward(a, off);
    if 0 < a[off] < 0xC0 {
      SkipLocal(a, b, off + 1 + a[off] as nat, end);
    }
  }

  lemma {:induction false} SkipForward(a: Bytes, off: nat)
    ensures Skip(a, off).1 ==> off < Skip(a, off).0 && off < |a|
    decreases |a| - off
  {
    if off < |a| && 0 < a[off] < 0xC0 {
      SkipForward(a, off + 1 + a[off] as nat);
    }
  }

  // The fields of a response, at their offsets.
  lemma ResponseFields(packet: Bytes, qEnd: nat, data: Bytes)
    requires 12 <= qEnd <= |packet| && |Chunks(data)| < 0x1_0000
    ensures var r, n := Response(packet, qEnd, data), |Chunks(data)|;
      && |r| == qEnd + 12 + n + 11
      && r[0] == packet[0] && r[1] == packet[1] && r[2] == 0x84 && r[3] == 0
      && U16(r, 4) == 1 && U16(r, 6) == 1 && U16(r, 8) == 0 && U16(r, 10) == 1
      && (forall i :: 12 <= i < qEnd ==> r[i] == packet[i])
      && r[qEnd] == 0xC0 && r[qEnd + 1] == 12 && U16(r, qEnd + 2) == TXT == 16 && U16(r, qEnd + 4) == 1
      && U32(r, qEnd + 6) == 60 && U16(r, qEnd + 10) == n
      && r[qEnd + 12..qEnd + 12 + n] == Chunks(data)
  {
    hide *;
    var rdata := Chunks(data);
    var header: Bytes := [packet[0], packet[1], 0x84, 0, 0, 1, 0, 1, 0, 0, 0, 1];
    var asked := packet[12..qEnd];
    var fixed: Bytes := [0xC0, 0x0C, 0, 0x10, 0, 1, 0, 0, 0, 0x3C, (|rdata| / 256) % 256, |rdata| % 256];
    var opt: Bytes := [0, 0, 0x29, 0x10, 0, 0, 0, 0, 0, 0, 0];
    var r := Response(packet, qEnd, data);
    ResponseParts(packet, qEnd, data);
    FiveParts(r, header, asked, fixed, rdata, opt);
    ResponseHead(r, header);
    FixedFields(r, qEnd, fixed, |rdata|);
    HoldsSlice(r, qEnd + 12, rdata);
    HoldsSlice(r, 12, asked);
    forall i | 12 <= i < qEnd
      ensures r[i] == packet[i]
    {
      HoldsByte(r, 12, asked, i - 12);
    }
  }

  lemma ResponseTrailer(packet: Bytes, qEnd: nat, data: Bytes) returns (off: nat)
    requires 12 <= qEnd <= |packet|
    ensures var r := Response(packet, qEnd, data);
      && off == qEnd + 12 + |Chunks(data)| && |r| == off + 11
      && r[off] == 0 && U16(r, off + 1) == OPT == 41 && U16(r, off + 3) == 4096
  {
    hide *;
    var rdata := Chunks(data);
    var header: Bytes := [packet[0], packet[1], 0x84, 0, 0, 1, 0, 1, 0, 0, 0, 1];
    var fixed: Bytes := [0xC0, 0x0C, 0, 0x10, 0, 1, 0, 0, 0, 0x3C, (|rdata| / 256) % 256, |rdata| % 256];
    var opt: Bytes := [0, 0, 0x29, 0x10, 0, 0, 0, 0, 0, 0, 0];
    ResponseParts(packet, qEnd, data);
    FiveParts(Response(packet, qEnd, data), header, packet[12..qEnd], fixed, rdata, opt);
    off := qEnd + 12 + |rdata|;
    TrailerFields(Response(packet, qEnd, data), off, opt);
  }

  lemma ResponseParts(packet: Bytes, qEnd: nat, data: Bytes)
    requires 12 <= qEnd <= |packet|
    ensures var rdata := Chunks(data);
      Response(packet, qEnd, data) ==
        [packet[0], packet[1], 0x84, 0, 0, 1, 0, 1, 0, 0, 0, 1]
        + packet[12..qEnd]
        + [0xC0, 0x0C, 0, 0x10, 0, 1, 0, 0, 0, 0x3C, (|rdata| / 256) % 256, |rdata| % 256]
        + rdata
        + [0, 0, 0x29, 0x10, 0, 0, 0, 0, 0, 0, 0]
  {
    hide Chunks;
  }

  lemma HoldsSlice(r: Bytes, off: nat, w: Bytes)
    requires Holds(r, off, w)
    ensures off + |w| <= |r| && r[off..off + |w|] == w
  {
  }

  lemma FiveParts(r: Bytes, a: Bytes, b: Bytes, c: Bytes, d: Bytes, e: Bytes)
    requires r == a + b + c + d + e
    ensures |r| == |a| + |b| + |c| + |d| + |e|
    ensures Reads(r, 0, a) && Holds(r, |a|, b) && Reads(r, |a| + |b|, c) && Holds(r, |a| + |b| + |c|, d)
    ensures Reads(r, |a| + |b| + |c| + |d|, e)
  {
    assert r[|a|..|a| + |b|] == b;
    assert r[|a| + |b| + |c|..|a| + |b| + |c| + |d|] == d;
  }

  lemma ResponseHead(r: Bytes, header: Bytes)
    requires |header| == 12 && Reads(r, 0, header)
    requires header[2..] == [0x84, 0, 0, 1, 0, 1, 0, 0, 0, 1]
    ensures 12 <= |r| && r[0] == header[0] && r[1] == header[1] && r[2] == 0x84 && r[3] == 0
    ensures U16(r, 4) == 1 && U16(r, 6) == 1 && U16(r, 8) == 0 && U16(r, 10) == 1
  {
    forall i | 2 <= i < 12
      ensures r[i] == header[2..][i - 2]
    {
      assert header[i] == r[i];
    }
  }

  lemma FixedFields(r: Bytes, off: nat, fixed: Bytes, n: nat)
    requires fixed == [0xC0, 0x0C, 0, 0x10, 0, 1, 0, 0, 0, 0x3C, (n / 256) % 256, n % 256]
    requires n < 0x1_0000 && Reads(r, off, fixed)
    ensures off + 12 <= |r| && r[off] == 0xC0 && r[off + 1] == 12
    ensures U16(r, off + 2) == TXT == 16 && U16(r, off + 4) == 1 && U32(r, off + 6) == 60 && U16(r, off + 10) == n
  {
    assert fixed[0] == r[off] && fixed[1] == r[off + 1] && fixed[2] == r[off + 2] && fixed[3] == r[off + 3];
    assert fixed[4] == r[off + 4] && fixed[5] == r[off + 5] && fixed[6] == r[off + 6] && fixed[7] == r[off + 7];
    assert fixed[8] == r[off + 8] && fixed[9] == r[off + 9] && fixed[10] == r[off + 10] && fixed[11] == r[off + 11];
  }

  lemma TrailerFields(r: Bytes, off: nat, opt: Bytes)
    requires opt == [0, 0, 0x29, 0x10, 0, 0, 0, 0, 0, 0, 0] && Reads(r, off, opt)
    ensures off + 11 <= |r| && r[off] == 0 && U16(r, off + 1) == OPT == 41 && U16(r, off + 3) == 4096
  {
    assert opt[0] == r[off] && opt[1] == r[off + 1] && opt[2] == r[off + 2];
    assert opt[3] == r[off + 3] && opt[4] == r[off + 4];
  }

  // The same as Holds, byte by byte.
  ghost predicate Reads(q: Bytes, off: nat, w: Bytes) {
    off + |w| <= |q| && forall i :: 0 <= i < |w| ==> w[i] == q[off + i]
  }

  // The client finds exactly the data that the server put into a response to a question it could read.
  lemma ExtractResponse(packet: Bytes, qEnd: nat, data: Bytes)
    requires 16 < qEnd <= |packet| && Skip(packet, 12) == (qEnd - 4, true)
    requires 0 < |data| <= 4096
    ensures Extracted(Response(packet, qEnd, data)) == data
  {
    hide Response, Skip, Chunks, Strings;
    var r, n := Response(packet, qEnd, data), |Chunks(data)|;
    ResponseFields(packet, qEnd, data);
    SkipLocal(packet, r, 12, qEnd - 4);
    assert AfterQuestions(r, 12, 1) == AfterQuestions(r, qEnd, 0) == qEnd;
    SkipPointer(r, qEnd);
    StringsOfChunks(data);
    assert FirstTxt(r, qEnd, 1) == Strings(r[qEnd + 12..qEnd + 12 + n]);
  }

  // The router's own reader finds the 4096 bytes that its responses advertise, behind the answer.
  lemma ResponseAdvertises(packet: Bytes, qEnd: nat, data: Bytes)
    requires 12 <= qEnd <= |packet| && |Chunks(data)| < 0x1_0000
    ensures EdnsSize(Response(packet, qEnd, data), qEnd) == 4096
  {
    hide Response, Skip, Chunks, U32;
    var r, n := Response(packet, qEnd, data), |Chunks(data)|;
    ResponseFields(packet, qEnd, data);
    var end := ResponseTrailer(packet, qEnd, data);
    SkipPointer(r, qEnd);
    assert SkipRecords(r, qEnd, 1) == SkipRecords(r, end, 0) == Some(end);
    SkipRoot(r, end);
    assert FindOpt(r, end, 1) == U16(r, end + 3);
  }

  lemma SkipRoot(r: Bytes, off: nat)
    requires off < |r| && r[off] == 0
    ensures Skip(r, off) == (off + 1, true)
  {
  }

  lemma SkipPointer(r: Bytes, off: nat)
    requires off < |r| && r[off] >= 0xC0
    ensures Skip(r, off) == (off + 2, true)
  {
  }

  // Reply size, for every target: the length bytes of the strings never push a reply past it.
  lemma ReplySize(packet: Bytes, probe: Probe, random: nat, padding: nat -> byte, digest: Digest)
    requires 12 <= probe.qEnd <= |packet| && |probe.nonce| == 16 && 4 <= Mtu(packet, probe)
    requires TargetTotal(Mtu(packet, probe), random) <= probe.qEnd + 4138
    ensures var total := TargetTotal(Mtu(packet, probe), random);
      var payload := TargetPayload(total, probe.qEnd);
      var reply := Response(packet, probe.qEnd, Padded(digest, TargetData(payload), padding));
      && TargetData(payload) <= POOL
      && (payload - Quotient(payload, 256) - 1 >= 32 ==>
            |reply| == if payload % 256 <= 1 then total - 3 else total - 2)
      && (payload - Quotient(payload, 256) - 1 <= 32 ==> |reply| == probe.qEnd + 56)
  {
    hide Mtu, Response, Chunks;
    var total := TargetTotal(Mtu(packet, probe), random);
    var payload := TargetPayload(total, probe.qEnd);
    var size := TargetData(payload);
    ResponseFields(packet, probe.qEnd, Padded(digest, size, padding));
    assert payload < 0 ==> Quotient(payload, 256) <= 0 && payload - Quotient(payload, 256) < 0;
    PayloadSize(payload);
  }

  // The draw takes less than a quarter off the size, and every size in that range comes of some draw.
  lemma TargetRange(mtu: nat, draw: nat, size: nat)
    requires mtu >= 4
    ensures var total := TargetTotal(mtu, draw);
      && 200 <= total <= (if mtu < 200 then 200 else mtu) && 3 * mtu < 4 * total
    ensures 200 <= size <= mtu && mtu - size < mtu / 4 ==> TargetTotal(mtu, mtu - size) == size
  {
    var quarter := mtu / 4;
    assert 4 * quarter <= mtu;
    DrawBound(draw, quarter);
    if 200 <= size <= mtu && mtu - size < quarter {
      DivModUnique(mtu - size, quarter, 0, mtu - size);
    }
  }

  lemma DrawBound(draw: nat, quarter: nat)
    requires quarter > 0
    ensures 0 <= draw % quarter <= quarter - 1
  {
  }

  // A reply is accepted exactly without an error code and with the digest expected in front of its data.
  lemma AcceptsIff(resp: Bytes, nonce: Bytes, key: Bytes, hmac: Hmac)
    ensures Accepts(resp, nonce, key, hmac) <==>
      |resp| >= 12 && resp[3] as int % 16 == 0 && hmac(key, nonce + [1]) <= Extracted(resp)
  {
    hide Extracted, And;
    if |resp| >= 12 {
      assert Pow2(4) == 16;
      AndLowBits(resp[3], 4);
    }
    var d, x := hmac(key, nonce + [1]), Extracted(resp);
    assert d <= x ==> x[..32] == d;
  }

  // One answer, for one random draw.
  lemma AnsweredOnDraw(packet: Bytes, routes: seq<VerifyRoute>, probe: Probe, hmac: Hmac, draw: nat,
                       padding: nat -> byte)
    requires Read(packet, routes) == Some(probe) && |probe.nonce| == 16
    ensures Respond(packet, routes, hmac, draw, padding).Reply? <==>
      && probe.proof == hmac(probe.route.pubkey, probe.nonce)[..16]
      && Mtu(packet, probe) >= 4
      && TargetTotal(Mtu(packet, probe), draw) <= probe.qEnd + 4138
    ensures Respond(packet, routes, hmac, draw, padding) == Forward <==>
      probe.proof != hmac(probe.route.pubkey, probe.nonce)[..16]
  {
    hide Read, Mtu, Response, TargetTotal;
    ReadShape(packet, routes);
  }

  // Which probes are answered whatever the draw: the size taken from an EDNS record has no upper limit, and a target
  // too large for the padding pool, or too small to vary, stops the handler instead.
  lemma AnsweredIff(packet: Bytes, routes: seq<VerifyRoute>, probe: Probe, hmac: Hmac, padding: nat -> byte)
    requires Read(packet, routes) == Some(probe) && |probe.nonce| == 16
    ensures (forall draw: nat :: Respond(packet, routes, hmac, draw, padding).Reply?) <==>
      && probe.proof == hmac(probe.route.pubkey, probe.nonce)[..16]
      && 4 <= Mtu(packet, probe) <= probe.qEnd + 4138
  {
    hide Read, Mtu, Respond;
    forall draw: nat
      ensures Respond(packet, routes, hmac, draw, padding).Reply? <==>
        && probe.proof == hmac(probe.route.pubkey, probe.nonce)[..16]
        && Mtu(packet, probe) >= 4
        && TargetTotal(Mtu(packet, probe), draw) <= probe.qEnd + 4138
    {
      AnsweredOnDraw(packet, routes, probe, hmac, draw, padding);
    }
    var mtu := Mtu(packet, probe);
    if mtu >= 4 {
      assert TargetTotal(mtu, 0) >= mtu;
      assert Respond(packet, routes, hmac, 0, padding).Reply? ==> mtu <= probe.qEnd + 4138;
      assert forall draw: nat :: TargetTotal(mtu, draw) <= if mtu < 200 then 200 else mtu;
    } else {
      assert !Respond(packet, routes, hmac, 0, padding).Reply?;
    }
  }

  lemma PayloadSize(payload: int)
    ensures payload >= 0 ==> var d := payload - payload / 256 - 1;
      d >= 32 ==> d + (d + 254) / 255 == if payload % 256 <= 1 then payload - 1 else payload
  {
    var a, b := payload / 256, payload % 256;
    if payload >= 0 {
      var d := 255 * a + b - 1;
      if b == 0 {
        DivModUnique(d + 254, 255, a, 253);
      } else if b == 1 {
        DivModUnique(d + 254, 255, a, 254);
      } else {
        DivModUnique(d + 254, 255, a + 1, b - 2);
      }
    }
  }

  // The server reads the labels that the client wrote, in lower case.
  lemma {:induction false} QuestionReads(pkt: Bytes, off: nat, labels: seq<Bytes>)
    requires WellFormed(labels) && Holds(pkt, off, Wire(labels) + [0])
    ensures Question(pkt, off) == Some((LowerAll(labels), off + |Wire(labels)| + 1))
    decreases |labels|
  {
    hide Wire, WellFormed;
    if labels == [] {
      WireNone(labels);
      assert Wire(labels) + [0] == [0];
      HoldsByte(pkt, off, [0], 0);
    } else {
      HoldsFirst(pkt, off, labels, [0]);
      var next := off + 1 + |labels[0]|;
      QuestionReads(pkt, next, labels[1..]);
      assert LowerAll(labels) == [Lower(labels[0])] + LowerAll(labels[1..]);
    }
  }

  // The fields of a TXT query with an OPT record, at their offsets.
  lemma QueryFields(txid: (byte, byte), labels: seq<Bytes>, size: nat)
    requires labels != [] && WellFormed(labels)
    ensures var q, w := Query(txid, Join(labels), TXT, Some(OptRecord(size))), |Wire(labels)|;
      && |q| == w + 28 && q[0] == txid.0 && q[1] == txid.1 && q[2] == 1 && q[3] == 0
      && U16(q, 4) == 1 && U16(q, 6) == U16(q, 8) == 0 && U16(q, 10) == 1
      && Holds(q, 12, Wire(labels) + [0]) && U16(q, w + 13) == TXT == 16 && U16(q, w + 15) == 1
      && q[w + 17] == 0 && U16(q, w + 18) == OPT == 41 && U16(q, w + 20) == size % 0x1_0000
  {
    hide *;
    QueryParts(txid, labels, size);
    var header, wire, typed, opt := Header(txid, true), Wire(labels) + [0], [0, TXT, 0, 1], OptRecord(size);
    var q := Query(txid, Join(labels), TXT, Some(opt));
    FourParts(q, header, wire, typed, opt);
    HeaderFields(q, txid);
    TypeField(q, |wire| + 12, typed);
    OptFields(q, |wire| + 16, size);
  }

  lemma QueryParts(txid: (byte, byte), labels: seq<Bytes>, size: nat)
    requires labels != [] && WellFormed(labels)
    ensures TXT < 0x100
    ensures Query(txid, Join(labels), TXT, Some(OptRecord(size)))
      == Header(txid, true) + (Wire(labels) + [0]) + [0, TXT, 0, 1] + OptRecord(size)
  {
    hide Wire, EncodedName, Join, WellFormed, Header, OptRecord;
    EncodedJoin(labels);
  }

  lemma HeaderFields(q: Bytes, txid: (byte, byte))
    requires Reads(q, 0, Header(txid, true))
    ensures q[0] == txid.0 && q[1] == txid.1 && q[2] == 1 && q[3] == 0
    ensures U16(q, 4) == 1 && U16(q, 6) == U16(q, 8) == 0 && U16(q, 10) == 1
  {
    var h := Header(txid, true);
    assert h[0] == q[0] && h[1] == q[1] && h[2] == q[2] && h[3] == q[3];
    assert h[4] == q[4] && h[5] == q[5] && h[6] == q[6] && h[7] == q[7];
    assert h[8] == q[8] && h[9] == q[9] && h[10] == q[10] && h[11] == q[11];
  }

  lemma TypeField(q: Bytes, off: nat, typed: Bytes)
    requires typed == [0, TXT, 0, 1] && Reads(q, off, typed)
    ensures U16(q, off) == TXT == 16 && U16(q, off + 2) == 1
  {
    assert typed[0] == q[off] && typed[1] == q[off + 1] && typed[2] == q[off + 2] && typed[3] == q[off + 3];
  }

  lemma OptFields(q: Bytes, off: nat, size: nat)
    requires Reads(q, off, OptRecord(size))
    ensures q[off] == 0 && U16(q, off + 1) == OPT == 41 && U16(q, off + 3) == size % 0x1_0000
  {
    var r := OptRecord(size);
    assert r[0] == q[off] && r[1] == q[off + 1] && r[2] == q[off + 2] && r[3] == q[off + 3] && r[4] == q[off + 4];
    TwoBytesOf(size);
  }

  lemma TwoBytesOf(n: nat)
    ensures (n / 256) % 256 * 256 + n % 256 == n % 0x1_0000
  {
    var q, r := n / 0x1_0000, n % 0x1_0000;
    DivModUnique(n, 256, 256 * q + r / 256, r % 256);
    DivModUnique(256 * q + r / 256, 256, q, r / 256);
  }

  lemma FourParts(q: Bytes, a: Bytes, b: Bytes, c: Bytes, d: Bytes)
    requires q == a + b + c + d
    ensures Reads(q, 0, a) && Holds(q, |a|, b) && Reads(q, |a| + |b|, c) && Reads(q, |a| + |b| + |c|, d)
  {
    assert q[|a|..|a| + |b|] == b;
  }

  lemma QueryEdns(txid: (byte, byte), labels: seq<Bytes>, size: nat)
    requires labels != [] && WellFormed(labels)
    ensures var q := Query(txid, Join(labels), TXT, Some(OptRecord(size)));
      EdnsSize(q, |Wire(labels)| + 17) == size % 0x1_0000
  {
    hide Wire, Join, WellFormed, Query, OptRecord, Holds;
    QueryFields(txid, labels, size);
    var q, off := Query(txid, Join(labels), TXT, Some(OptRecord(size))), |Wire(labels)| + 17;
    assert Skip(q, off) == (off + 1, true);
    assert FindOpt(q, off, 1) == U16(q, off + 3);
  }

  // A query that carries sixteen and sixteen bytes below a domain is read as a probe of that domain.
  lemma QueryRead(txid: (byte, byte), domain: seq<Bytes>, nonce: Bytes, proof: Bytes, size: nat,
                  routes: seq<VerifyRoute>, route: VerifyRoute)
    requires WellFormed(domain) && |nonce| == |proof| == 16
    requires route.domainLabels == LowerAll(domain)
    requires IsFirst(LowerAll(Labels(nonce, proof, domain)), routes, route)
    ensures var labels := Labels(nonce, proof, domain);
      && WellFormed(labels)
      && Read(Query(txid, Join(labels), TXT, Some(OptRecord(size))), routes)
           == Some(Probe(route, nonce, proof, |Wire(labels)| + 17))
  {
    hide Wire, Join, Query, OptRecord, FirstMatch, IsFirst, Lower, Question;
    hide Base32.EncodeToString, Base32.DecodeString, Base32.LOWER;
    var labels := Labels(nonce, proof, domain);
    LabelsFit(nonce, proof, domain);
    hide WellFormed;
    var q := Query(txid, Join(labels), TXT, Some(OptRecord(size)));
    QueryFields(txid, labels, size);
    QuestionReads(q, 12, labels);
    hide Holds;
    var lower := LowerAll(labels);
    FirstMatchLaw(lower, routes);
    var encoded := labels[0];
    assert lower[..|lower| - |domain|] == [encoded];
    assert Flatten([encoded]) == encoded + [] == encoded;
    Base32.DecodeEncode(nonce + proof);
    assert (nonce + proof)[..16] == nonce && (nonce + proof)[16..32] == proof;
    assert And(1, 0x80) == 0;
    assert Payload(lower, route, |Wire(labels)| + 17) == Some(Probe(route, nonce, proof, |Wire(labels)| + 17));
  }

  function Labels(nonce: Bytes, proof: Bytes, domain: seq<Bytes>): seq<Bytes> {
    [Base32.EncodeToString(Base32.LOWER, nonce + proof)] + domain
  }

  lemma LabelsFit(nonce: Bytes, proof: Bytes, domain: seq<Bytes>)
    requires WellFormed(domain) && |nonce| == |proof| == 16
    ensures WellFormed(Labels(nonce, proof, domain)) && Base32.LOWER <= 97
    ensures var encoded := Labels(nonce, proof, domain)[0];
      encoded == Base32.EncodeToString(Base32.LOWER, nonce + proof) && Lower(encoded) == encoded
  {
    hide Base32.EncodeToString;
    Base32.LowerEncode(Base32.LOWER, nonce + proof);
  }

  // The size that comes of a client's wish: what fits the two nonce bytes, else what fits the EDNS field, else the
  // route's own.
  function ClientMtu(responseSize: int, route: VerifyRoute): nat {
    var desired := if responseSize > 0 then responseSize % 0x1_0000 else 0;
    var edns := AdvertisedSize(responseSize) % 0x1_0000;
    if 200 <= desired <= 4096 then desired
    else if edns > 0 && edns != 1232 then edns
    else if route.mtu == 0 then 1232
    else route.mtu
  }

  // Wishes from 200 to 4096 are met, smaller ones leave the choice to the route, and larger ones are met or wrap.
  lemma ClientSizes(responseSize: int, route: VerifyRoute)
    ensures 200 <= responseSize < 0x1_0000 ==> ClientMtu(responseSize, route) == responseSize
    ensures responseSize < 200 ==> ClientMtu(responseSize, route) == if route.mtu == 0 then 1232 else route.mtu
  {
  }

  lemma ChosenMtu(txid: (byte, byte), labels: seq<Bytes>, responseSize: int, random: Bytes, probe: Probe)
    requires labels != [] && WellFormed(labels) && |random| == 16
    requires probe.nonce == Nonce(random, responseSize) && probe.qEnd == |Wire(labels)| + 17
    ensures Mtu(Query(txid, Join(labels), TXT, Some(OptRecord(AdvertisedSize(responseSize)))), probe)
      == ClientMtu(responseSize, probe.route)
  {
    hide Wire, Join, WellFormed, Query, OptRecord, EdnsSize, Nonce;
    QueryEdns(txid, labels, AdvertisedSize(responseSize));
  }

  // The client's query, as the server reads it: where its question ends, and the size it asks for.
  lemma ClientProbe(txid: (byte, byte), random: Bytes, domain: seq<Bytes>, key: Bytes, responseSize: int,
                    hmac: Hmac, routes: seq<VerifyRoute>, route: VerifyRoute)
    requires |random| == 16 && domain != [] && WellFormed(domain) && route.domainLabels == LowerAll(domain)
    requires IsFirst(ProbeName(random, domain, key, responseSize, hmac), routes, route)
    ensures var nonce := Nonce(random, responseSize);
      var q := ProbeQuery(txid, nonce, Join(domain), key, responseSize, hmac);
      var probe := Probe(route, nonce, hmac(key, nonce)[..16], |Wire(domain)| + 70);
      && Read(q, routes) == Some(probe) && Mtu(q, probe) == ClientMtu(responseSize, route)
      && 17 <= probe.qEnd <= |q| && Skip(q, 12) == (probe.qEnd - 4, true)
  {
    hide *;
    var nonce := Nonce(random, responseSize);
    var proof := hmac(key, nonce)[..16];
    var labels := Labels(nonce, proof, domain);
    ProbeNameIs(random, domain, key, responseSize, hmac);
    ProbeQueryIs(txid, nonce, domain, key, responseSize, hmac);
    var q := Query(txid, Join(labels), TXT, Some(OptRecord(AdvertisedSize(responseSize))));
    QueryRead(txid, domain, nonce, proof, AdvertisedSize(responseSize), routes, route);
    NameLength(nonce, proof, domain);
    ReadShape(q, routes);
    ChosenMtu(txid, labels, responseSize, random, Probe(route, nonce, proof, |Wire(labels)| + 17));
  }

  // The labels of the client's query, as the server reads them.
  function ProbeName(random: Bytes, domain: seq<Bytes>, key: Bytes, responseSize: int, hmac: Hmac): seq<Bytes>
    requires |random| == 16
  {
    var nonce := Nonce(random, responseSize);
    LowerAll(Labels(nonce, hmac(key, nonce)[..16], domain))
  }

  lemma ProbeNameIs(random: Bytes, domain: seq<Bytes>, key: Bytes, responseSize: int, hmac: Hmac)
    requires |random| == 16
    ensures var nonce := Nonce(random, responseSize);
      ProbeName(random, domain, key, responseSize, hmac) == LowerAll(Labels(nonce, hmac(key, nonce)[..16], domain))
  {
  }

  // The client's query is answered whatever the draw if and only if the server's key makes the same proof and
  // the size that comes of its wish is from 4 to 4208 more than the length of the domain on the wire.
  lemma ClientAnsweredIff(txid: (byte, byte), random: Bytes, domain: seq<Bytes>, key: Bytes, responseSize: int,
                          hmac: Hmac, routes: seq<VerifyRoute>, route: VerifyRoute, padding: nat -> byte)
    requires |random| == 16 && domain != [] && WellFormed(domain) && route.domainLabels == LowerAll(domain)
    requires IsFirst(ProbeName(random, domain, key, responseSize, hmac), routes, route)
    ensures var nonce := Nonce(random, responseSize);
      var q := ProbeQuery(txid, nonce, Join(domain), key, responseSize, hmac);
      (forall draw: nat :: Respond(q, routes, hmac, draw, padding).Reply?) <==>
        && hmac(key, nonce)[..16] == hmac(route.pubkey, nonce)[..16]
        && 4 <= ClientMtu(responseSize, route) <= |Wire(domain)| + 4208
  {
    hide *;
    var nonce := Nonce(random, responseSize);
    ClientProbe(txid, random, domain, key, responseSize, hmac, routes, route);
    AnsweredIff(ProbeQuery(txid, nonce, Join(domain), key, responseSize, hmac), routes,
      Probe(route, nonce, hmac(key, nonce)[..16], |Wire(domain)| + 70), hmac, padding);
  }

  // A client with the right key that asks for 5000 bytes stops the handler, when the draw takes nothing off.
  lemma OversizeStops(txid: (byte, byte), random: Bytes, domain: seq<Bytes>, hmac: Hmac,
                      routes: seq<VerifyRoute>, route: VerifyRoute, padding: nat -> byte)
    requires |random| == 16 && domain != [] && WellFormed(domain) && route.domainLabels == LowerAll(domain)
    requires |Wire(domain)| <= 255
    requires IsFirst(ProbeName(random, domain, route.pubkey, 5000, hmac), routes, route)
    ensures var q := ProbeQuery(txid, Nonce(random, 5000), Join(domain), route.pubkey, 5000, hmac);
      Respond(q, routes, hmac, 0, padding) == Fault
  {
    hide Respond, Read, Mtu, Skip, ProbeQuery, Nonce, Wire, WellFormed, Join, IsFirst, ProbeName, LowerAll;
    var nonce, key := Nonce(random, 5000), route.pubkey;
    ClientProbe(txid, random, domain, key, 5000, hmac, routes, route);
    ClientSizes(5000, route);
    hide ClientMtu;
    AnsweredOnDraw(ProbeQuery(txid, nonce, Join(domain), key, 5000, hmac), routes,
      Probe(route, nonce, hmac(key, nonce)[..16], |Wire(domain)| + 70), hmac, 0, padding);
  }

  // End to end: the server answers the client's probe exactly when its key makes the same proof from the nonce,
  // the answer reaches the client whole, and the client takes it exactly when it carries the digest it expects.
  lemma ProbeEndToEnd(txid: (byte, byte), random: Bytes, domain: seq<Bytes>, key: Bytes, responseSize: int,
                      hmac: Hmac, routes: seq<VerifyRoute>, route: VerifyRoute, draw: nat, padding: nat -> byte)
    requires |random| == 16 && domain != [] && WellFormed(domain) && |Wire(domain)| <= 255
    requires 4 <= ClientMtu(responseSize, route) <= 4096 && route.domainLabels == LowerAll(domain)
    requires IsFirst(ProbeName(random, domain, key, responseSize, hmac), routes, route)
    ensures var nonce := Nonce(random, responseSize);
      var q := ProbeQuery(txid, nonce, Join(domain), key, responseSize, hmac);
      var verdict := Respond(q, routes, hmac, draw, padding);
      if hmac(route.pubkey, nonce)[..16] == hmac(key, nonce)[..16] then
        && verdict.Reply? && |verdict.packet| <= 4096
        && |Extracted(verdict.packet)| >= 32
        && Extracted(verdict.packet)[..32] == hmac(route.pubkey, nonce + [1])
        && Accepts(Received(verdict.packet), nonce, key, hmac)
             == (hmac(route.pubkey, nonce + [1]) == hmac(key, nonce + [1]))
      else verdict == Forward
  {
    hide *;
    var nonce := Nonce(random, responseSize);
    ClientProbe(txid, random, domain, key, responseSize, hmac, routes, route);
    Answer(ProbeQuery(txid, nonce, Join(domain), key, responseSize, hmac), routes,
      Probe(route, nonce, hmac(key, nonce)[..16], |Wire(domain)| + 70), hmac, draw, padding, key);
  }

  lemma ProbeQueryIs(txid: (byte, byte), nonce: Bytes, domain: seq<Bytes>, key: Bytes, responseSize: int, hmac: Hmac)
    requires |nonce| == 16 && domain != [] && WellFormed(domain)
    ensures TXT < 0x1_0000
    ensures var labels := Labels(nonce, hmac(key, nonce)[..16], domain);
      labels != [] && ProbeQuery(txid, nonce, Join(domain), key, responseSize, hmac) ==
        Query(txid, Join(labels), TXT, Some(OptRecord(AdvertisedSize(responseSize))))
  {
    hide Query, OptRecord, WellFormed, Base32.EncodeToString, Base32.LOWER;
    LabelsFit(nonce, hmac(key, nonce)[..16], domain);
    var labels := Labels(nonce, hmac(key, nonce)[..16], domain);
    assert labels[1..] == domain;
  }

  lemma NameLength(nonce: Bytes, proof: Bytes, domain: seq<Bytes>)
    requires |nonce| == |proof| == 16 && WellFormed(domain)
    ensures |Wire(Labels(nonce, proof, domain))| == 53 + |Wire(domain)|
  {
    LabelsFit(nonce, proof, domain);
    hide Base32.EncodeToString;
    var labels := Labels(nonce, proof, domain);
    assert labels[1..] == domain && |labels[0]| == 52;
    hide Wire, Labels;
    WireFirst(labels, []);
  }

  // What the client makes of the server's answer to a probe it has read.
  lemma Answer(q: Bytes, routes: seq<VerifyRoute>, probe: Probe, hmac: Hmac, draw: nat, padding: nat -> byte,
               key: Bytes)
    requires Read(q, routes) == Some(probe) && probe.qEnd <= 4000
    requires 17 <= probe.qEnd <= |q| && |probe.nonce| == 16 && Skip(q, 12) == (probe.qEnd - 4, true)
    requires 4 <= Mtu(q, probe) <= 4096
    ensures var verdict := Respond(q, routes, hmac, draw, padding);
      if probe.proof == hmac(probe.route.pubkey, probe.nonce)[..16] then
        && verdict.Reply? && |verdict.packet| <= 4096
        && |Extracted(verdict.packet)| >= 32
        && Extracted(verdict.packet)[..32] == hmac(probe.route.pubkey, probe.nonce + [1])
        && Accepts(Received(verdict.packet), probe.nonce, key, hmac)
             == (hmac(probe.route.pubkey, probe.nonce + [1]) == hmac(key, probe.nonce + [1]))
      else verdict == Forward
  {
    hide Read, Mtu, Skip, Response, TargetTotal, TargetData, TargetPayload, Quotient, Extracted, Chunks;
    var digest := hmac(probe.route.pubkey, probe.nonce + [1]);
    var total := TargetTotal(Mtu(q, probe), draw);
    var size := TargetData(TargetPayload(total, probe.qEnd));
    var data := Padded(digest, size, padding);
    TargetBound(Mtu(q, probe), draw);
    ReplySize(q, probe, draw, padding, digest);
    ReplyLimit(q, probe, total, digest, padding);
    ExtractResponse(q, probe.qEnd, data);
    ResponseFields(q, probe.qEnd, data);
  }

  lemma TargetBound(mtu: nat, draw: nat)
    requires 4 <= mtu <= 4096
    ensures TargetTotal(mtu, draw) <= 4096
  {
  }

  lemma ReplyLimit(q: Bytes, probe: Probe, total: nat, digest: Digest, padding: nat -> byte)
    requires 17 <= probe.qEnd <= |q| && probe.qEnd <= 4000 && total <= 4096
    ensures var size := TargetData(TargetPayload(total, probe.qEnd));
      size <= POOL && |Response(q, probe.qEnd, Padded(digest, size, padding))| <= 4096
  {
  }

  // The two readers of the question name see the same labels, up to letter case.
  lemma {:induction false} ParsersAgree(packet: Bytes, off: nat)
    requires Question(packet, off).Some?
    ensures QueryLabels(packet, off).Some?
    ensures LowerAll(QueryLabels(packet, off).value) == Question(packet, off).value.0
    decreases |packet| - off
  {
    if off < |packet| && packet[off] != 0 {
      var next := off + 1 + packet[off] as nat;
      ParsersAgree(packet, next);
      var l, rest := packet[off + 1..next], QueryLabels(packet, next).value;
      assert QueryLabels(packet, off).value == [l] + rest;
      assert LowerAll([l] + rest) == [Lower(l)] + LowerAll(rest);
    }
  }

  // On the same packet, the dotted-suffix test for a backend and the label test for a verify route agree.
  lemma RoutesAgree(packet: Bytes, rs: seq<Bytes>, pubkey: Bytes, mtu: nat)
    requires |packet| >= 12 && Question(packet, 12).Some? && Question(packet, 12).value.0 != []
    requires QueryLabels(packet, 12).Some? ==> AllDotFree(QueryLabels(packet, 12).value)
    requires rs != [] && AllDotFree(rs) && rs[|rs| - 1] != []
    ensures HasSuffix(WithDot(Lower(Domain(packet))), [DOT] + Lower(WithDot(Join(rs)))) <==>
      Matches(Question(packet, 12).value.0, VerifyRoute(Split(Lower(TrimDot(Join(rs)))), pubkey, mtu))
  {
    hide Question, QueryLabels, Join, Split, Lower, HasSuffix, WithDot, TrimDot, AllDotFree, Matches;
    ParsersAgree(packet, 12);
    SuffixTestsAgree(QueryLabels(packet, 12).value, rs, pubkey, mtu);
  }

  // Which packets with one written question are taken for probes: queries for TXT whose name lies below the domain of
  // a first route and decodes to 32 bytes or more. What is read are the first 16 and the next 16 of these.
  lemma ReadOnWire(packet: Bytes, labels: seq<Bytes>, qtype: nat, qclass: nat, routes: seq<VerifyRoute>, probe: Probe)
    requires 12 <= |packet| && WellFormed(labels) && qtype < 0x1_0000 && qclass < 0x1_0000
    requires Holds(packet, 12, Wire(labels) + [0] + Be16(qtype) + Be16(qclass))
    ensures Read(packet, routes) == Some(probe) <==>
      && packet[2] < 128 && U16(packet, 4) == 1 && qtype == 16
      && IsFirst(LowerAll(labels), routes, probe.route)
      && probe.qEnd == 12 + |Wire(labels)| + 5
      && Carries(LowerAll(labels), |probe.route.domainLabels|, probe.nonce, probe.proof)
  {
    hide Wire, WellFormed, Question, FirstMatch, IsFirst, And, Base32.DecodeString, LowerAll, Flatten;
    var w, t, c := Wire(labels) + [0], Be16(qtype), Be16(qclass);
    HoldsSplit(packet, 12, w + t, c);
    HoldsSplit(packet, 12, w, t);
    HoldsByte(packet, 12 + |w|, t, 0);
    HoldsByte(packet, 12 + |w|, t, 1);
    HoldsSlice(packet, 12 + |w| + 2, c);
    QuestionReads(packet, 12, labels);
    HighBit(packet[2]);
    FirstMatchLaw(LowerAll(labels), routes);
    hide Carries, Payload;
    var first := FirstMatch(LowerAll(labels), routes);
    if first.Some? {
      PayloadLaw(LowerAll(labels), first.value, 12 + |w| + 4, probe);
    }
  }

  lemma PayloadLaw(labels: seq<Bytes>, route: VerifyRoute, qEnd: nat, probe: Probe)
    ensures Payload(labels, route, qEnd) == Some(probe) <==>
      probe.route == route && probe.qEnd == qEnd && Carries(labels, |route.domainLabels|, probe.nonce, probe.proof)
  {
    hide Base32.DecodeString, Flatten;
    var dl := |route.domainLabels|;
    if |labels| > dl {
      var decoded := Base32.DecodeString(Flatten(labels[..|labels| - dl]));
      if decoded.Some? && |decoded.value| >= 32 {
        PrefixHalves(decoded.value, probe.nonce, probe.proof);
      }
    }
  }

  lemma PrefixHalves(d: Bytes, a: Bytes, b: Bytes)
    requires |d| >= 32
    ensures |a| == |b| == 16 && a + b <= d <==> a == d[..16] && b == d[16..32]
  {
    assert d[..16] + d[16..32] == d[..32];
    if |a| == |b| == 16 && a + b <= d {
      assert (a + b)[..16] == a && (a + b)[16..] == b;
    }
  }

  // The labels below a domain of dl labels spell a nonce and a proof.
  ghost predicate Carries(labels: seq<Bytes>, dl: nat, nonce: Bytes, proof: Bytes) {
    |labels| > dl && |nonce| == |proof| == 16 &&
      var decoded := Base32.DecodeString(Flatten(labels[..|labels| - dl]));
      decoded.Some? && nonce + proof <= decoded.value
  }
}
