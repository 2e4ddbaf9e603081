/** The asking side of the probe protocol: dnsQuery, buildEDNS0OPT and testVerify of cli/scanner.go. */
module ProbeClient {
  import opened Bits
  import opened DnsText
  import opened Options
  import opened DnsNames
  import opened TxtRecord
  import opened ProbeServer
  import Base32

  // A query as dnsQuery sends it: one question, recursion desired, perhaps one additional record.
  function Query(txid: (byte, byte), name: Bytes, qtype: nat, additional: Option<Bytes>): Bytes
    requires qtype < 0x1_0000
  {
    Header(txid, additional.Some?) + EncodedName(name) + [qtype / 256, qtype % 256, 0, 1]
    + if additional.Some? then additional.value else []
  }

  function Header(txid: (byte, byte), additional: bool): (r: Bytes)
    ensures |r| == 12
  {
    [txid.0, txid.1, 1, 0, 0, 1, 0, 0, 0, 0, 0, if additional then 1 else 0]
  }

  method BuildQuery(txid: (byte, byte), name: Bytes, qtype: nat, additional: Option<Bytes>) returns (pkt: Bytes)
    requires qtype < 0x1_0000
    ensures pkt == Query(txid, name, qtype, additional)
  {
    hide EncodedName;
    pkt := [txid.0, txid.1];
    pkt := pkt + [0x01, 0x00];
    pkt := pkt + [0x00, 0x01];
    pkt := pkt + [0x00, 0x00];
    pkt := pkt + [0x00, 0x00];
    if additional.Some? {
      pkt := pkt + [0x00, 0x01];
    } else {
      pkt := pkt + [0x00, 0x00];
    }
    assert pkt == Header(txid, additional.Some?);
    var wire := EncodeDNSName(name);
    pkt := pkt + wire;
    ghost var named := pkt;
    pkt := pkt + [qtype / 256, qtype % 256];
    pkt := pkt + [0x00, 0x01];
    ghost var typed: Bytes := [qtype / 256, qtype % 256, 0, 1];
    assert pkt == named + typed;
    if additional.Some? {
      pkt := pkt + additional.value;
    }
  }

  function OptRecord(payloadSize: nat): (r: Bytes)
    ensures |r| == 11
  {
    [0, 0, OPT, (payloadSize / 256) % 256, payloadSize % 256, 0, 0, 0, 0, 0, 0]
  }

  // Sixteen random bytes, the last two replaced by the wanted size, or by zero.
  function Nonce(random: Bytes, responseSize: int): (r: Bytes)
    requires |random| == 16
    ensures |r| == 16
    ensures responseSize <= 0 ==> U16(r, 14) == 0
    ensures responseSize > 0 ==> U16(r, 14) == responseSize % 0x1_0000
  {
    random[..14] + Be16(if responseSize > 0 then responseSize % 0x1_0000 else 0)
  }

  function AdvertisedSize(responseSize: int): nat {
    if responseSize > 1232 then responseSize else 1232
  }

  function ProbeQuery(txid: (byte, byte), nonce: Bytes, domain: Bytes, key: Bytes, responseSize: int, hmac: Hmac): Bytes
  {
    var encoded := Base32.EncodeToString(Base32.LOWER, nonce + hmac(key, nonce)[..16]);
    Query(txid, encoded + [DOT] + domain, TXT, Some(OptRecord(AdvertisedSize(responseSize))))
  }

  // The first half of testVerify
  method MakeProbe(txid: (byte, byte), random: Bytes, domain: Bytes, key: Bytes, responseSize: int, hmac: Hmac)
    returns (nonce: Bytes, packet: Bytes)
    requires |random| == 16
    ensures nonce == Nonce(random, responseSize)
    ensures packet == ProbeQuery(txid, nonce, domain, key, responseSize, hmac)
  {
    hide Base32.EncodeToString, EncodedName, Query;
    var n := new byte[16];
    for i := 0 to 16
      invariant n[..i] == random[..i]
    {
      n[i] := random[i];
    }
    if responseSize > 0 {
      var low := responseSize % 0x1_0000;
      n[14], n[15] := low / 256, low % 256;
    } else {
      n[14] := 0;
      n[15] := 0;
    }
    nonce := n[..];
    assert nonce[..14] == random[..14];
    assert nonce == nonce[..14] + [nonce[14], nonce[15]];
    var proof := hmac(key, nonce)[..16];
    var encoded := Base32.EncodeToString(Base32.LOWER, nonce + proof);
    var ednsSize := 1232;
    if responseSize > 1232 {
      ednsSize := responseSize;
    }
    packet := BuildQuery(txid, encoded + [DOT] + domain, TXT, Some(OptRecord(ednsSize)));
  }

  // What the client's 4096-byte read leaves of a datagram.
  function Received(datagram: Bytes): Bytes {
    if |datagram| > 4096 then datagram[..4096] else datagram
  }

  // The second half of testVerify
  method CheckReply(resp: Bytes, nonce: Bytes, key: Bytes, hmac: Hmac) returns (ok: bool)
    ensures ok == Accepts(resp, nonce, key, hmac)
  {
    if |resp| < 12 {
      return false;
    }
    if And(resp[3], 0x0F) != 0 {
      return false;
    }
    var rawData := ExtractTXTRawData(resp);
    if |rawData| < 32 {
      return false;
    }
    ok := rawData[..32] == hmac(key, nonce + [0x01]);
  }

  predicate Accepts(resp: Bytes, nonce: Bytes, key: Bytes, hmac: Hmac) {
    && |resp| >= 12 && And(resp[3], 0x0F) == 0
    && |Extracted(resp)| >= 32 && Extracted(resp)[..32] == hmac(key, nonce + [1])
  }
}
