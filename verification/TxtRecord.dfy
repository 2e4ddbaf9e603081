/** Character-strings of a TXT record: the chunking of dnsrouter/verify.go and the extraction of cli/scanner.go. */
module TxtRecord {
  import opened Bits
  import opened DnsNames
  import opened Sequences

  // Character-strings of at most 255 bytes (section 3.3 of RFC 1035).
  function Chunks(data: Bytes): (r: Bytes)
    ensures |r| == |data| + (|data| + 254) / 255
    decreases |data|
  {
    if data == [] then []
    else
      var n := if |data| > 255 then 255 else |data|;
      [n] + data[..n] + Chunks(data[n..])
  }

  // The strings put together again; one that overruns the record ends the reading.
  function Strings(rdata: Bytes): Bytes
    decreases |rdata|
  {
    if rdata == [] || 1 + rdata[0] as nat > |rdata| then []
    else
      var n := 1 + rdata[0] as nat;
      rdata[1..n] + Strings(rdata[n..])
  }

  lemma {:induction false} StringsOfChunks(data: Bytes)
    ensures Strings(Chunks(data)) == data
    decreases |data|
  {
    if data != [] {
      var n := if |data| > 255 then 255 else |data|;
      var r := Chunks(data);
      assert r == [n] + data[..n] + Chunks(data[n..]);
      assert r[1..1 + n] == data[..n] && r[1 + n..] == Chunks(data[n..]);
      StringsOfChunks(data[n..]);
    }
  }

  lemma ChunksStep(data: Bytes)
    requires data != []
    ensures var n := if |data| > 255 then 255 else |data|; Chunks(data) == [n] + data[..n] + Chunks(data[n..])
  {
  }

  // The RDATA loop of buildBinaryTXTResponseWithEDNS
  method BuildStrings(data: Bytes) returns (rdata: Bytes)
    ensures rdata == Chunks(data)
  {
    rdata := [];
    var remaining := data;
    assert [] + Chunks(data) == Chunks(data);
    while |remaining| > 0
      invariant rdata + Chunks(remaining) == Chunks(data)
      decreases |remaining|
    {
      var chunk := remaining;
      if |chunk| > 255 {
        chunk := chunk[..255];
      }
      ChunksStep(remaining);
      assert remaining[..|chunk|] == chunk;
      ghost var rest := Chunks(remaining[|chunk|..]);
      assert rdata + ([|chunk|] + chunk + rest) == (rdata + [|chunk|] + chunk) + rest;
      rdata := rdata + [|chunk|];
      rdata := rdata + chunk;
      remaining := remaining[|chunk|..];
    }
    assert rdata + [] == rdata;
  }

  // The offset after n questions.
  function AfterQuestions(resp: Bytes, off: nat, n: nat): nat
    decreases n
  {
    if n == 0 || off >= |resp| then off else AfterQuestions(resp, Skip(resp, off).0 + 4, n - 1)
  }

  const TXT: nat := 16

  // The data of the first TXT record among n; nothing when there is none.
  function FirstTxt(resp: Bytes, off: nat, n: nat): Bytes
    decreases n
  {
    if n == 0 || off >= |resp| then []
    else
      var end := Skip(resp, off).0;
      if end + 10 > |resp| then []
      else
        var start, rdlen := end + 10, U16(resp, end + 8);
        if U16(resp, end) == TXT && rdlen > 0 && start + rdlen <= |resp| then Strings(resp[start..start + rdlen])
        else FirstTxt(resp, start + rdlen, n - 1)
  }

  function Extracted(resp: Bytes): Bytes {
    if |resp| < 12 then [] else FirstTxt(resp, AfterQuestions(resp, 12, U16(resp, 4)), U16(resp, 6))
  }

  lemma StringsStep(resp: Bytes, offset: nat, end: nat)
    requires offset < end <= |resp|
    ensures var next := offset + 1 + resp[offset] as nat;
      Strings(resp[offset..end]) == if next > end then [] else resp[offset + 1..next] + Strings(resp[next..end])
  {
    var r := resp[offset..end];
    var n := 1 + r[0] as nat;
    if n <= |r| {
      SliceOfSlice(resp, offset, end, 1, n);
      SliceOfSlice(resp, offset, end, n, |r|);
    }
  }

  // extractTXTRawData
  method ExtractTXTRawData(resp: Bytes) returns (data: Bytes)
    ensures data == Extracted(resp)
  {
    hide Skip, Strings;
    if |resp| < 12 {
      return [];
    }
    var ancount := U16(resp, 6);
    if ancount == 0 {
      return [];
    }
    var offset: nat := 12;
    var qdcount := U16(resp, 4);
    var i := 0;
    while i < qdcount && offset < |resp|
      invariant 0 <= i <= qdcount
      invariant AfterQuestions(resp, 12, qdcount) == AfterQuestions(resp, offset, qdcount - i)
    {
      offset := SkipDNSName(resp, offset);
      offset := offset + 4;
      i := i + 1;
    }
    i := 0;
    while i < ancount && offset < |resp|
      invariant 0 <= i <= ancount
      invariant Extracted(resp) == FirstTxt(resp, offset, ancount - i)
    {
      offset := SkipDNSName(resp, offset);
      if offset + 10 > |resp| {
        return [];
      }
      var rtype := U16(resp, offset);
      var rdlen := U16(resp, offset + 8);
      offset := offset + 10;
      if rtype == TXT && rdlen > 0 && offset + rdlen <= |resp| {
        data := ReadStrings(resp, offset, offset + rdlen);
        return data;
      }
      offset := offset + rdlen;
      i := i + 1;
    }
    data := [];
  }

  method ReadStrings(resp: Bytes, start: nat, end: nat) returns (data: Bytes)
    requires start <= end <= |resp|
    ensures data == Strings(resp[start..end])
  {
    hide Strings;
    var offset := start;
    data := [];
    ghost var rest := Strings(resp[start..end]);
    assert data + rest == rest;
    NoStrings(resp[end..end]);
    while offset < end
      invariant start <= offset <= end
      invariant Strings(resp[start..end]) == data + rest && rest == Strings(resp[offset..end])
    {
      StringsStep(resp, offset, end);
      var strLen := resp[offset] as nat;
      offset := offset + 1;
      if offset + strLen > end {
        assert data + [] == data;
        return;
      }
      rest := Strings(resp[offset + strLen..end]);
      assert data + (resp[offset..offset + strLen] + rest) == (data + resp[offset..offset + strLen]) + rest;
      data := data + resp[offset..offset + strLen];
      offset := offset + strLen;
    }
    assert data + [] == data;
  }

  lemma NoStrings(r: Bytes)
    requires r == []
    ensures Strings(r) == []
  {
  }
}
