/** Splitting the ClientHello inside its server name: cli/sni_fragment.go. */
module SniSplit {
  import opened Bits
  import opened Connection
  import opened DnsNames
  import opened Sequences

  // ---- the message (section 4.1.2 of RFC 8446) in one record

  datatype Extension = Extension(kind: nat, data: Bytes)

  datatype ClientHello = ClientHello(
    version: Bytes, random: Bytes, sessionId: Bytes, suites: Bytes, compression: Bytes, extensions: seq<Extension>)

  const SERVER_NAME := 0

  ghost predicate Encodable(h: ClientHello) {
    && |h.version| == 2 && |h.random| == 32 && |h.sessionId| < 0x100 && |h.suites| < 0x1_0000 && |h.compression| < 0x100
    && ExtensionsFit(h.extensions) && |PutExtensions(h.extensions)| < 0x1_0000
  }

  ghost predicate ExtensionsFit(es: seq<Extension>) {
    forall i :: 0 <= i < |es| ==> es[i].kind < 0x1_0000 && |es[i].data| < 0x1_0000
  }

  function PutExtensions(es: seq<Extension>): Bytes
    requires ExtensionsFit(es)
  {
    if es == [] then []
    else Be16(es[0].kind) + Be16(|es[0].data|) + es[0].data + PutExtensions(es[1..])
  }

  // What the finder walks over before the extensions, behind the two record and handshake headers.
  function Prefix(h: ClientHello): Bytes
    requires Encodable(h)
  {
    h.version + h.random + ([|h.sessionId|] + h.sessionId) + (Be16(|h.suites|) + h.suites)
    + ([|h.compression|] + h.compression) + Be16(|PutExtensions(h.extensions)|)
  }

  // The record: nine header bytes, then the hello.
  function Serialized(headers: Bytes, h: ClientHello): Bytes
    requires |headers| == 9 && Encodable(h)
  {
    headers + Prefix(h) + PutExtensions(h.extensions)
  }

  // The body of a server_name extension whose first entry is a host name (section 3 of RFC 6066).
  function NameList(listLength: nat, kind: byte, host: Bytes, more: Bytes): Bytes
    requires listLength < 0x1_0000 && |host| < 0x1_0000
  {
    Be16(listLength) + [kind] + Be16(|host|) + host + more
  }

  // ---- the finder

  // The extension loop, from pos on; -1 when it finds nothing.
  function FindName(data: Bytes, pos: nat, end: nat): int
    decreases |data| - pos
  {
    if pos + 4 > end || pos + 4 > |data| then -1
    else
      var kind, length := U16(data, pos), U16(data, pos + 2);
      if kind == SERVER_NAME && length > 0 && pos + 9 < |data| then pos + 9
      else FindName(data, pos + 4 + length, end)
  }

  function NameOffset(data: Bytes): int {
    if |data| < 44 then -1
    else
      var p1 := 44 + data[43] as int;
      if p1 + 2 > |data| then -1
      else
        var p2 := p1 + 2 + U16(data, p1);
        if p2 + 1 > |data| then -1
        else
          var p3 := p2 + 1 + data[p2] as int;
          if p3 + 2 > |data| then -1
          else FindName(data, p3 + 2, p3 + 2 + U16(data, p3))
  }

  // findSNIHostnameOffset
  method FindSNIHostnameOffset(data: Bytes) returns (offset: int)
    ensures offset == NameOffset(data)
  {
    if |data| < 44 {
      return -1;
    }
    var pos := 5 + 4;
    pos := pos + 2;
    pos := pos + 32;
    if pos >= |data| {
      return -1;
    }
    var sessionIDLen := data[pos] as int;
    pos := pos + 1 + sessionIDLen;
    if pos + 2 > |data| {
      return -1;
    }
    var cipherSuitesLen := U16(data, pos);
    pos := pos + 2 + cipherSuitesLen;
    if pos + 1 > |data| {
      return -1;
    }
    var compMethodsLen := data[pos] as int;
    pos := pos + 1 + compMethodsLen;
    if pos + 2 > |data| {
      return -1;
    }
    var extensionsLen := U16(data, pos);
    pos := pos + 2;
    var extensionsEnd := pos + extensionsLen;
    while pos + 4 <= extensionsEnd && pos + 4 <= |data|
      invariant pos >= 0
      invariant NameOffset(data) == FindName(data, pos, extensionsEnd)
      decreases |data| - pos
    {
      var extType := U16(data, pos);
      var extLen := U16(data, pos + 2);
      pos := pos + 4;
      if extType == 0x0000 && extLen > 0 {
        if pos + 5 <= |data| {
          var hostnameStart := pos + 5;
          if hostnameStart < |data| {
            return hostnameStart;
          }
        }
      }
      pos := pos + extLen;
    }
    offset := -1;
  }

  // ---- splitting

  function Halves(data: Bytes): seq<Bytes> {
    [data[..|data| / 2], data[|data| / 2..]]
  }

  function Runs(data: Bytes, size: nat): (r: seq<Bytes>)
    requires size > 0
    ensures Flatten(r) == data
    ensures forall i :: 0 <= i < |r| ==> 1 <= |r[i]| <= size
    ensures forall i :: 0 <= i < |r| - 1 ==> |r[i]| == size
    decreases |data|
  {
    if data == [] then []
    else
      var k := if |data| < size then |data| else size;
      [data[..k]] + Runs(data[k..], size)
  }

  // Where the sni_split strategy cuts, once the finder has an offset well inside the data.
  function Cut(data: Bytes, offset: nat): (mid: nat)
    requires 0 < offset < |data| - 1
    ensures 0 < mid < |data|
  {
    var length := if offset >= 2 then U16(data, offset - 2) else 0;
    var mid := if length > 0 then offset + length / 2 else offset + (|data| - offset) / 2;
    if mid >= |data| then |data| - 1 else mid
  }

  function Split(data: Bytes, strategy: string): seq<Bytes> {
    if strategy == "sni_split" && 0 < NameOffset(data) < |data| - 1 then
      var mid := Cut(data, NameOffset(data));
      [data[..mid], data[mid..]]
    else if strategy == "multi" then Runs(data, 24)
    else Halves(data)
  }

  lemma RunsStep(data: Bytes, i: nat, end: nat, size: nat)
    requires size > 0 && i < |data| && end == if i + size > |data| then |data| else i + size
    ensures Runs(data[i..], size) == [data[i..end]] + Runs(data[end..], size)
  {
    var rest := data[i..];
    assert rest[..end - i] == data[i..end] && rest[end - i..] == data[end..];
  }

  // splitMulti
  method SplitMulti(data: Bytes, chunkSize: nat) returns (chunks: seq<Bytes>)
    requires chunkSize > 0
    ensures chunks == Runs(data, chunkSize)
  {
    hide Runs, Flatten;
    chunks := [];
    var i := 0;
    ghost var rest := Runs(data, chunkSize);
    assert data[0..] == data;
    NoRuns(data[|data|..], chunkSize);
    while i < |data|
      invariant 0 <= i
      invariant Runs(data, chunkSize) == chunks + rest
      invariant rest == if i < |data| then Runs(data[i..], chunkSize) else []
      decreases |data| - i
    {
      var end := i + chunkSize;
      if end > |data| {
        end := |data|;
      }
      RunsStep(data, i, end, chunkSize);
      rest := Runs(data[end..], chunkSize);
      var chunk := data[i..end];
      assert chunks + ([chunk] + rest) == (chunks + [chunk]) + rest;
      chunks := chunks + [chunk];
      i := i + chunkSize;
    }
    assert chunks + [] == chunks;
  }

  lemma NoRuns(data: Bytes, size: nat)
    requires size > 0 && data == []
    ensures Runs(data, size) == []
  {
  }

  // splitClientHello
  method SplitClientHello(data: Bytes, strategy: string) returns (chunks: seq<Bytes>)
    ensures chunks == Split(data, strategy)
  {
    hide NameOffset, Runs;
    if strategy == "sni_split" {
      var offset := FindSNIHostnameOffset(data);
      if offset > 0 && offset < |data| - 1 {
        var hostnameLen := 0;
        if offset >= 2 {
          hostnameLen := U16(data, offset - 2);
        }
        var mid := offset;
        if hostnameLen > 0 {
          mid := offset + hostnameLen / 2;
        } else {
          mid := offset + (|data| - offset) / 2;
        }
        if mid <= 0 {
          mid := 1;
        }
        if mid >= |data| {
          mid := |data| - 1;
        }
        return [data[..mid], data[mid..]];
      }
      return Halves(data);
    } else if strategy == "half" {
      return Halves(data);
    } else if strategy == "multi" {
      chunks := SplitMulti(data, 24);
    } else {
      return Halves(data);
    }
  }

  lemma TwoParts(data: Bytes, mid: nat)
    requires mid <= |data|
    ensures Flatten([data[..mid], data[mid..]]) == data
  {
    var parts: seq<Bytes> := [data[..mid], data[mid..]];
    assert parts[1..] == [data[mid..]] && parts[1..][1..] == [];
    assert Flatten(parts[1..]) == data[mid..] + [] == data[mid..];
    assert Flatten(parts) == data[..mid] + Flatten(parts[1..]);
    assert data[..mid] + data[mid..] == data;
  }

  // No strategy loses, repeats or moves a byte.
  lemma SplitKeepsBytes(data: Bytes, strategy: string)
    ensures Flatten(Split(data, strategy)) == data
  {
    hide NameOffset, Runs, Flatten;
    if strategy == "sni_split" && 0 < NameOffset(data) < |data| - 1 {
      TwoParts(data, Cut(data, NameOffset(data)));
    }
    TwoParts(data, |data| / 2);
  }

  // ---- the connection

  predicate IsClientHello(b: Bytes) {
    |b| > 5 && b[0] == 0x16 && b[5] == 0x01
  }

  // What a run of writes puts on the connection, write by write: the first ClientHello is split.
  function Segments(ws: seq<Bytes>, strategy: string, fragmented: bool): seq<Bytes> {
    if ws == [] then []
    else if !fragmented && IsClientHello(ws[0]) then Split(ws[0], strategy) + Segments(ws[1..], strategy, true)
    else [ws[0]] + Segments(ws[1..], strategy, fragmented)
  }

  class FragmentConn {
    const strategy: string
    var fragmented: bool
    var segments: seq<Bytes>
    var broken: bool

    constructor (strategy: string)
      ensures this.strategy == strategy && !fragmented && segments == [] && !broken
    {
      this.strategy, fragmented, segments, broken := strategy, false, [], false;
    }

    // A write to the connection below, which may fail after some of its bytes.
    method Send(b: Bytes) returns (n: nat, ok: bool)
      modifies this`segments, this`broken
      ensures ok == !broken && (ok ==> n == |b| && segments == old(segments) + [b])
      ensures Carried(Flatten(old(segments)), old(broken), Flatten(segments), broken, b)
    {
      hide Flatten;
      ok := *;
      if broken {
        CarriedNothing(Flatten(segments), broken);
        return 0, false;
      }
      n := |b|;
      if !ok {
        n :| n <= |b|;
      }
      OneMore(segments, b[..n]);
      assert b[..|b|] == b;
      segments, broken := segments + [b[..n]], !ok;
    }

    // Write: the first ClientHello is split; every byte goes out in order, or the connection breaks.
    method Write(b: Bytes) returns (n: nat, ok: bool)
      modifies this`fragmented, this`segments, this`broken
      ensures fragmented == (old(fragmented) || IsClientHello(b))
      ensures Carried(Flatten(old(segments)), old(broken), Flatten(segments), broken, b)
      ensures ok ==> n == |b| && segments == old(segments) + Segments([b], strategy, old(fragmented))
      ensures !ok ==> broken
    {
      hide Split, Flatten, Carried;
      if !fragmented && |b| > 5 && b[0] == 0x16 && b[5] == 0x01 {
        fragmented := true;
        n, ok := FragmentWrite(b);
        assert Split(b, strategy) + [] == Split(b, strategy);
        return;
      }
      n, ok := Send(b);
    }

    // fragmentWrite: 0 with an error.
    method FragmentWrite(data: Bytes) returns (n: nat, ok: bool)
      modifies this`segments, this`broken
      ensures Carried(Flatten(old(segments)), old(broken), Flatten(segments), broken, data)
      ensures n == (if ok then |data| else 0) && (!ok ==> broken)
      ensures ok ==> segments == old(segments) + Split(data, strategy)
    {
      hide Split, Flatten, Carried;
      ghost var w, was := Flatten(segments), broken;
      var chunks := SplitClientHello(data, strategy);
      SplitKeepsBytes(data, strategy);
      assert chunks[..0] == [] && Flatten(chunks[..0]) == [] by { NoChunks(chunks[..0]); }
      CarriedNothing(w, was);
      for i := 0 to |chunks|
        invariant segments == old(segments) + chunks[..i]
        invariant Carried(w, was, Flatten(segments), broken, Flatten(chunks[..i]))
      {
        ghost var w1, was1, before := Flatten(segments), broken, segments;
        var _, sent := Send(chunks[i]);
        OneMore(chunks[..i], chunks[i]);
        assert chunks[..i] + [chunks[i]] == chunks[..i + 1];
        CarriedThen(w, was, w1, was1, Flatten(segments), broken, Flatten(chunks[..i]), chunks[i]);
        if !sent {
          FlattenAppend(chunks[..i + 1], chunks[i + 1..]);
          assert chunks[..i + 1] + chunks[i + 1..] == chunks;
          CarriedLess(w, was, Flatten(segments), broken, Flatten(chunks[..i + 1]), Flatten(chunks[i + 1..]));
          return 0, false;
        }
      }
      assert chunks[..|chunks|] == chunks;
      return |data|, true;
    }
  }

  lemma OneMore(s: seq<Bytes>, b: Bytes)
    ensures Flatten(s + [b]) == Flatten(s) + b
  {
    FlattenAppend(s, [b]);
    assert [b][1..] == [] && Flatten([b]) == b + [] == b;
  }

  lemma NoChunks(s: seq<Bytes>)
    requires s == []
    ensures Flatten(s) == []
  {
  }

  // Over any run of writes the peer receives the bytes that were written.
  lemma {:induction false} SegmentsKeepBytes(ws: seq<Bytes>, strategy: string, fragmented: bool)
    ensures Flatten(Segments(ws, strategy, fragmented)) == Flatten(ws)
  {
    hide Split;
    if ws != [] {
      if !fragmented && IsClientHello(ws[0]) {
        SegmentsKeepBytes(ws[1..], strategy, true);
        SplitKeepsBytes(ws[0], strategy);
        FlattenAppend(Split(ws[0], strategy), Segments(ws[1..], strategy, true));
      } else {
        SegmentsKeepBytes(ws[1..], strategy, fragmented);
        var rest := Segments(ws[1..], strategy, fragmented);
        assert ([ws[0]] + rest)[1..] == rest;
      }
    }
  }

  // ---- the finder finds

  // Where the host name of extension k begins.
  function HostOffset(headers: Bytes, h: ClientHello, k: nat): nat
    requires |headers| == 9 && Encodable(h) && k < |h.extensions|
  {
    var before := h.extensions[..k];
    |headers| + |Prefix(h)| + |PutExtensions(before)| + 9
  }

  lemma FieldAt(s: Bytes, off: nat, n: nat)
    requires n < 0x1_0000 && Holds(s, off, Be16(n))
    ensures off + 2 <= |s| && U16(s, off) == n
  {
    HoldsByte(s, off, Be16(n), 0);
    HoldsByte(s, off, Be16(n), 1);
  }

  // The finder's walk over the prefix ends at the extensions.
  lemma PrefixWalk(headers: Bytes, h: ClientHello)
    requires |headers| == 9 && Encodable(h)
    ensures var data, pos, es := Serialized(headers, h), |headers| + |Prefix(h)|, PutExtensions(h.extensions);
      && |data| == pos + |es| && Holds(data, pos, es)
      && NameOffset(data) == FindName(data, pos, |data|)
  {
    hide PutExtensions, ExtensionsFit, FindName, NameOffset, Holds, Be16;
    var es := PutExtensions(h.extensions);
    var p0 := headers + h.version + h.random;
    var id, suites, comp := h.sessionId, h.suites, h.compression;
    var data := Serialized(headers, h);
    Regrouped(headers, h.version, h.random, [|id|] + id, Be16(|suites|) + suites, [|comp|] + comp, Be16(|es|), es);
    var pos := PrefixFields(data, p0, id, suites, comp, es);
    assert pos == |headers| + |Prefix(h)|;
  }

  lemma Regrouped(a: Bytes, b: Bytes, c: Bytes, d: Bytes, e: Bytes, f: Bytes, g: Bytes, h: Bytes)
    ensures a + (b + c + d + e + f + g) + h == (a + b + c) + (d + (e + (f + (g + h))))
  {
  }

  lemma PrefixFields(data: Bytes, p0: Bytes, id: Bytes, suites: Bytes, comp: Bytes, es: Bytes) returns (pos: nat)
    requires |p0| == 43 && |id| < 0x100 && |suites| < 0x1_0000 && |comp| < 0x100 && |es| < 0x1_0000
    requires data == p0 + (([|id|] + id) + ((Be16(|suites|) + suites) + (([|comp|] + comp) + (Be16(|es|) + es))))
    ensures pos == 49 + |id| + |suites| + |comp| && |data| == pos + |es|
    ensures Holds(data, pos, es) && NameOffset(data) == FindName(data, pos, pos + |es|)
  {
    var fields := ([|id|] + id) + ((Be16(|suites|) + suites) + (([|comp|] + comp) + (Be16(|es|) + es)));
    assert |fields| == 6 + |id| + |suites| + |comp| + |es|;
    hide *;
    WholeHolds(p0, fields);
    pos := FieldsWalk(data, id, suites, comp, es);
  }

  lemma FieldsWalk(data: Bytes, id: Bytes, suites: Bytes, comp: Bytes, es: Bytes) returns (pos: nat)
    requires |id| < 0x100 && |suites| < 0x1_0000 && |comp| < 0x100 && |es| < 0x1_0000
    requires Holds(data, 43, ([|id|] + id) + ((Be16(|suites|) + suites) + (([|comp|] + comp) + (Be16(|es|) + es))))
    ensures pos == 49 + |id| + |suites| + |comp| && pos + |es| <= |data|
    ensures Holds(data, pos, es) && NameOffset(data) == FindName(data, pos, pos + |es|)
  {
    hide *;
    var t4 := Be16(|es|) + es;
    var t3 := ([|comp|] + comp) + t4;
    var p1 := ByteField(data, 43, id, (Be16(|suites|) + suites) + t3);
    var p2 := WordField(data, p1, suites, t3);
    var p3 := ByteField(data, p2, comp, t4);
    pos := LastField(data, p3, es);
    OffsetBy(data, p1, p2, p3, pos);
  }

  lemma OffsetBy(data: Bytes, p1: nat, p2: nat, p3: nat, pos: nat)
    requires |data| >= 44 && p1 == 44 + data[43] as int && p1 + 2 <= |data|
    requires p2 == p1 + 2 + U16(data, p1) && p2 + 1 <= |data|
    requires p3 == p2 + 1 + data[p2] as int && p3 + 2 <= |data| && pos == p3 + 2
    ensures NameOffset(data) == FindName(data, pos, pos + U16(data, p3))
  {
    hide FindName, U16;
  }

  lemma WholeHolds(a: Bytes, b: Bytes)
    ensures Holds(a + b, |a|, b)
  {
  }

  lemma ByteField(data: Bytes, off: nat, body: Bytes, tail: Bytes) returns (next: nat)
    requires |body| < 0x100 && Holds(data, off, ([|body|] + body) + tail)
    ensures next == off + 1 + |body| && next + |tail| <= |data|
    ensures data[off] == |body| && Holds(data, next, tail)
  {
    next := off + 1 + |body|;
    HoldsSplit(data, off, [|body|] + body, tail);
    HoldsByte(data, off, [|body|] + body, 0);
  }

  lemma WordField(data: Bytes, off: nat, body: Bytes, tail: Bytes) returns (next: nat)
    requires |body| < 0x1_0000 && Holds(data, off, (Be16(|body|) + body) + tail)
    ensures next == off + 2 + |body| && next + |tail| <= |data|
    ensures U16(data, off) == |body| && Holds(data, next, tail)
  {
    next := off + 2 + |body|;
    HoldsSplit(data, off, Be16(|body|) + body, tail);
    HoldsSplit(data, off, Be16(|body|), body);
    FieldAt(data, off, |body|);
  }

  lemma LastField(data: Bytes, off: nat, body: Bytes) returns (next: nat)
    requires |body| < 0x1_0000 && Holds(data, off, Be16(|body|) + body)
    ensures next == off + 2 && next + |body| <= |data| && U16(data, off) == |body| && Holds(data, next, body)
  {
    next := off + 2;
    HoldsSplit(data, off, Be16(|body|), body);
    FieldAt(data, off, |body|);
  }

  // An extension, where it is.
  lemma FirstExtension(data: Bytes, pos: nat, es: seq<Extension>)
    requires es != [] && ExtensionsFit(es) && Holds(data, pos, PutExtensions(es))
    ensures ExtensionsFit(es[1..])
    ensures var n := |es[0].data|;
      && pos + 4 + n <= |data| && n < 0x1_0000
      && U16(data, pos) == es[0].kind && U16(data, pos + 2) == n
      && Holds(data, pos + 4, es[0].data) && Holds(data, pos + 4 + n, PutExtensions(es[1..]))
      && |PutExtensions(es)| == 4 + n + |PutExtensions(es[1..])|
  {
    var kind, length, body, rest := Be16(es[0].kind), Be16(|es[0].data|), es[0].data, PutExtensions(es[1..]);
    assert PutExtensions(es) == kind + length + body + rest;
    hide PutExtensions, Holds, Be16;
    HoldsSplit(data, pos, kind + length + body, rest);
    HoldsSplit(data, pos, kind + length, body);
    HoldsSplit(data, pos, kind, length);
    FieldAt(data, pos, es[0].kind);
    FieldAt(data, pos + 2, |es[0].data|);
  }

  // Other extensions are passed over.
  lemma {:induction false} PassOver(data: Bytes, pos: nat, es: seq<Extension>, k: nat)
    requires ExtensionsFit(es) && k <= |es| && ExtensionsFit(es[..k]) && ExtensionsFit(es[k..])
    requires Holds(data, pos, PutExtensions(es)) && |data| == pos + |PutExtensions(es)|
    requires forall i :: 0 <= i < k ==> es[i].kind != SERVER_NAME
    ensures var next := pos + |PutExtensions(es[..k])|;
      && FindName(data, pos, |data|) == FindName(data, next, |data|)
      && Holds(data, next, PutExtensions(es[k..])) && |data| == next + |PutExtensions(es[k..])|
    decreases k
  {
    hide Holds, PutExtensions;
    NoExtensions(es[..0]);
    if k == 0 {
      assert es[0..] == es;
    } else {
      var tail := es[1..];
      FirstExtension(data, pos, es);
      assert tail[..k - 1] == es[..k][1..] && tail[k - 1..] == es[k..];
      PutFirst(es[..k]);
      PassOver(data, pos + 4 + |es[0].data|, tail, k - 1);
    }
  }

  lemma NoExtensions(es: seq<Extension>)
    requires es == []
    ensures ExtensionsFit(es) && PutExtensions(es) == []
  {
  }

  lemma PutFirst(es: seq<Extension>)
    requires es != [] && ExtensionsFit(es)
    ensures ExtensionsFit(es[1..])
    ensures |PutExtensions(es)| == 4 + |es[0].data| + |PutExtensions(es[1..])|
  {
  }

  // On every ClientHello whose first server_name extension begins with a host name, the finder gives its exact offset.
  lemma FindsHostName(headers: Bytes, h: ClientHello, k: nat, listLength: nat, kind: byte, host: Bytes, more: Bytes)
    requires |headers| == 9 && Encodable(h) && k < |h.extensions|
    requires listLength < 0x1_0000 && 0 < |host| < 0x1_0000
    requires h.extensions[k] == Extension(SERVER_NAME, NameList(listLength, kind, host, more))
    requires forall i :: 0 <= i < k ==> h.extensions[i].kind != SERVER_NAME
    ensures var data, offset := Serialized(headers, h), HostOffset(headers, h, k);
      && NameOffset(data) == offset
      && Holds(data, offset, host) && U16(data, offset - 2) == |host|
  {
    hide Serialized, Prefix, PutExtensions, Holds, NameOffset, NameList;
    var data, es := Serialized(headers, h), h.extensions;
    var pos := |headers| + |Prefix(h)|;
    PrefixWalk(headers, h);
    PassOver(data, pos, es, k);
    var at := pos + |PutExtensions(es[..k])|;
    FirstExtension(data, at, es[k..]);
    NameFields(data, at + 4, listLength, kind, host, more);
  }

  lemma NameFields(data: Bytes, off: nat, listLength: nat, kind: byte, host: Bytes, more: Bytes)
    requires listLength < 0x1_0000 && |host| < 0x1_0000
    requires Holds(data, off, NameList(listLength, kind, host, more))
    ensures |NameList(listLength, kind, host, more)| >= 5 + |host|
    ensures off + 5 + |host| <= |data| && Holds(data, off + 5, host) && U16(data, off + 3) == |host|
  {
    hide Be16, Holds;
    var list, length := Be16(listLength), Be16(|host|);
    HoldsSplit(data, off, list + [kind] + length + host, more);
    HoldsSplit(data, off, list + [kind] + length, host);
    HoldsSplit(data, off, list + [kind], length);
    FieldAt(data, off + 3, |host|);
    HoldsEnds(data, off + 5, host);
  }

  lemma HoldsEnds(data: Bytes, off: nat, w: Bytes)
    requires Holds(data, off, w)
    ensures off + |w| <= |data|
  {
  }

  // The sni_split cut falls strictly inside the host name, whenever the name has an inside.
  lemma CutInsideName(headers: Bytes, h: ClientHello, k: nat, listLength: nat, kind: byte, host: Bytes, more: Bytes)
    requires |headers| == 9 && Encodable(h) && k < |h.extensions|
    requires listLength < 0x1_0000 && 0 < |host| < 0x1_0000
    requires h.extensions[k] == Extension(SERVER_NAME, NameList(listLength, kind, host, more))
    requires forall i :: 0 <= i < k ==> h.extensions[i].kind != SERVER_NAME
    ensures var data, offset := Serialized(headers, h), HostOffset(headers, h, k);
      var chunks := Split(data, "sni_split");
      && |chunks| == 2 && chunks[0] + chunks[1] == data
      && (offset < |chunks[0]| < offset + |host| <==> |host| >= 2)
      && (|host| >= 2 ==> |chunks[0]| == offset + |host| / 2)
  {
    hide Serialized, NameOffset, Holds, NameList, Encodable;
    var data, offset := Serialized(headers, h), HostOffset(headers, h, k);
    hide HostOffset;
    FindsHostName(headers, h, k, listLength, kind, host, more);
    HoldsEnds(data, offset, host);
  }

  // The record and handshake headers of a ClientHello.
  function Headers(version: Bytes, h: ClientHello): Bytes
    requires |version| == 2 && Encodable(h) && |Prefix(h)| + |PutExtensions(h.extensions)| < 0xFFFC
  {
    var n := |Prefix(h)| + |PutExtensions(h.extensions)|;
    [0x16] + version + Be16(n + 4) + [1, 0] + Be16(n)
  }

  // A serialized hello is one for the wrapper, so the first write of it is split, and no later one.
  lemma HelloIsSplit(version: Bytes, h: ClientHello, strategy: string, later: seq<Bytes>)
    requires |version| == 2 && Encodable(h) && |Prefix(h)| + |PutExtensions(h.extensions)| < 0xFFFC
    ensures var hello := Serialized(Headers(version, h), h);
      && IsClientHello(hello)
      && Segments([hello] + later, strategy, false) == Split(hello, strategy) + later
  {
    hide Split, Encodable, Prefix, PutExtensions;
    var headers := Headers(version, h);
    var hello := Serialized(headers, h);
    assert |headers| == 9 && headers[0] == 0x16 && headers[5] == 1;
    assert hello[0] == headers[0] && hello[5] == headers[5];
    assert ([hello] + later)[1..] == later;
    LaterWhole(later, strategy);
  }

  // Once a hello was split, every write goes out as it is.
  lemma {:induction false} LaterWhole(ws: seq<Bytes>, strategy: string)
    ensures Segments(ws, strategy, true) == ws
  {
    if ws != [] {
      LaterWhole(ws[1..], strategy);
    }
  }

  // So does every write before the first hello.
  lemma {:induction false} EarlierWhole(ws: seq<Bytes>, rest: seq<Bytes>, strategy: string)
    requires forall w :: w in ws ==> !IsClientHello(w)
    ensures Segments(ws + rest, strategy, false) == ws + Segments(rest, strategy, false)
  {
    if ws == [] {
      assert ws + rest == rest;
    } else {
      assert (ws + rest)[1..] == ws[1..] + rest;
      EarlierWhole(ws[1..], rest, strategy);
    }
  }

  // What the strategies do where they do not look at the data: two halves, the second one longer by at most a byte,
  // or runs of 24 bytes.
  lemma PlainStrategies(data: Bytes, strategy: string)
    requires strategy != "sni_split" || NameOffset(data) <= 0 || NameOffset(data) >= |data| - 1
    ensures strategy != "multi" ==>
      var chunks := Split(data, strategy);
      |chunks| == 2 && |chunks[0]| <= |chunks[1]| <= |chunks[0]| + 1
    ensures strategy == "multi" ==>
      var chunks := Split(data, strategy);
      forall i :: 0 <= i < |chunks| - 1 ==> |chunks[i]| == 24
  {
    hide NameOffset;
  }
}
