/** WebSocket frames (section 5.2 of RFC 6455), printed and read by cli/ssh_transport.go
    and internal/proxy/stuntls.go. */
module WsFrame {
  import opened Bits
  import opened Connection
  import opened Options
  import opened Sequences

  type Key = k: Bytes | |k| == 4 witness [0, 0, 0, 0]

  datatype Frame = Frame(opcode: nat, payload: Bytes)

  const TEXT := 1
  const BINARY := 2
  const CLOSE := 8
  const PING := 9
  const PONG := 10

  const MAX: nat := 0x1_0000_0000_0000_0000

  // What a frame can carry.
  type Payload = b: Bytes | |b| < MAX witness []

  // Section 5.3 of RFC 6455
  function Masked(payload: Bytes, key: Key): (r: Bytes)
    ensures |r| == |payload| && forall i :: 0 <= i < |r| ==> r[i] == Xor(payload[i], key[i % 4])
  {
    seq(|payload|, i requires 0 <= i < |payload| => Xor(payload[i], key[i % 4]))
  }

  lemma MaskedTwice(payload: Bytes, key: Key)
    ensures Masked(Masked(payload, key), key) == payload
  {
    forall i | 0 <= i < |payload|
      ensures Masked(Masked(payload, key), key)[i] == payload[i]
    {
      XorTwice(payload[i], key[i % 4]);
    }
  }

  // The second byte without the mask bit, and the bytes that continue the length.
  function ShortLength(n: nat): (b: byte)
    ensures b < 128
  {
    if n <= 125 then n else if n <= 65535 then 126 else 127
  }

  function Extension(n: nat): (r: Bytes)
    requires n < MAX
    ensures |r| == ExtensionSize(ShortLength(n)) && LengthOf(ShortLength(n), r) == n
  {
    if n <= 125 then [] else if n <= 65535 then Be16(n) else Be64(n)
  }

  function ExtensionSize(short: nat): nat {
    if short == 126 then 2 else if short == 127 then 8 else 0
  }

  function LengthOf(short: nat, ext: Bytes): nat
    requires |ext| == ExtensionSize(short)
  {
    if short == 126 then U16(ext, 0) else if short == 127 then U64(ext) else short
  }

  // A frame on the wire; a key makes it a client's.
  function Printed(f: Frame, key: Option<Key>): Bytes
    requires f.opcode < 16 && |f.payload| < MAX
  {
    Head(f, key.Some?) + Extension(|f.payload|) + Body(f, key)
  }

  function Head(f: Frame, masked: bool): Bytes
    requires f.opcode < 16
  {
    [128 + f.opcode, ShortLength(|f.payload|) + if masked then 128 else 0]
  }

  function Body(f: Frame, key: Option<Key>): Bytes {
    match key
    case None => f.payload
    case Some(k) => k + Masked(f.payload, k)
  }

  // Reading a frame off a stream: the frame and what is left, or nothing when the stream ends inside it.
  function Parse(s: Bytes): Option<(Frame, Bytes)> {
    if |s| < 2 then None
    else
      var short := s[1] as int % 128;
      var e := 2 + ExtensionSize(short);
      if |s| < e then None
      else ParseBody(s[0] as int % 16, s[1] >= 128, LengthOf(short, s[2..e]), s[e..])
  }

  function ParseBody(opcode: nat, masked: bool, length: nat, s: Bytes): Option<(Frame, Bytes)> {
    if masked then
      if |s| < 4 + length then None
      else Some((Frame(opcode, Masked(s[4..4 + length], s[..4])), s[4 + length..]))
    else if |s| < length then None
    else Some((Frame(opcode, s[..length]), s[length..]))
  }

  // Reading inverts printing, whatever follows.
  lemma ParsePrinted(f: Frame, key: Option<Key>, rest: Bytes)
    requires f.opcode < 16 && |f.payload| < MAX
    ensures Parse(Printed(f, key) + rest) == Some((f, rest))
  {
    var ext, body := Extension(|f.payload|), Body(f, key);
    hide Extension, Masked, LengthOf, ExtensionSize, ShortLength, Parse, ParseBody, Body;
    assert Printed(f, key) + rest == Head(f, key.Some?) + ext + (body + rest);
    ParseHead(Printed(f, key) + rest, f, key.Some?, body + rest);
    ParseTail(f, key, rest);
  }

  lemma ParseHead(s: Bytes, f: Frame, masked: bool, tail: Bytes)
    requires f.opcode < 16 && |f.payload| < MAX
    requires s == Head(f, masked) + Extension(|f.payload|) + tail
    ensures Parse(s) == ParseBody(f.opcode, masked, |f.payload|, tail)
  {
    hide Extension, LengthOf, ExtensionSize, ShortLength, ParseBody;
    SplitPrinted(s, Head(f, masked), Extension(|f.payload|), tail);
    assert s[1] as int % 128 == ShortLength(|f.payload|);
  }

  lemma ParseTail(f: Frame, key: Option<Key>, rest: Bytes)
    ensures ParseBody(f.opcode, key.Some?, |f.payload|, Body(f, key) + rest) == Some((f, rest))
  {
    hide Masked;
    var b := Body(f, key) + rest;
    if key.Some? {
      var k, m := key.value, Masked(f.payload, key.value);
      assert b[..4] == k && b[4..4 + |m|] == m && b[4 + |m|..] == rest;
      MaskedTwice(f.payload, k);
    } else {
      assert b[..|f.payload|] == f.payload && b[|f.payload|..] == rest;
    }
  }

  lemma SplitPrinted(s: Bytes, head: Bytes, ext: Bytes, tail: Bytes)
    requires |head| == 2 && s == head + ext + tail
    ensures |s| >= 2 + |ext| && s[0] == head[0] && s[1] == head[1] && s[2..2 + |ext|] == ext && s[2 + |ext|..] == tail
  {
  }

  // More bytes on the stream do not change a frame that is already complete.
  lemma ParseMore(t: Bytes, u: Bytes)
    requires Parse(t).Some?
    ensures Parse(t + u) == Some((Parse(t).value.0, Parse(t).value.1 + u))
  {
    hide Masked, LengthOf, ExtensionSize, ParseBody;
    var short := t[1] as int % 128;
    var e := 2 + ExtensionSize(short);
    assert (t + u)[2..e] == t[2..e] && (t + u)[e..] == t[e..] + u;
    BodyMore(t[0] as int % 16, t[1] >= 128, LengthOf(short, t[2..e]), t[e..], u);
  }

  lemma BodyMore(opcode: nat, masked: bool, length: nat, t: Bytes, u: Bytes)
    requires ParseBody(opcode, masked, length, t).Some?
    ensures var p := ParseBody(opcode, masked, length, t).value;
      ParseBody(opcode, masked, length, t + u) == Some((p.0, p.1 + u))
  {
    hide Masked;
    if masked {
      assert (t + u)[4..4 + length] == t[4..4 + length] && (t + u)[..4] == t[..4];
      assert (t + u)[4 + length..] == t[4 + length..] + u;
    } else {
      assert (t + u)[..length] == t[..length] && (t + u)[length..] == t[length..] + u;
    }
  }

  // No frame is the beginning of another: a stream that breaks off inside one yields nothing more.
  lemma ParseCut(f: Frame, key: Option<Key>, n: nat)
    requires f.opcode < 16 && |f.payload| < MAX && n < |Printed(f, key)|
    ensures Parse(Printed(f, key)[..n]) == None
  {
    hide Printed, Parse;
    var s := Printed(f, key);
    ParsePrinted(f, key, []);
    assert s + [] == s && s[..n] + s[n..] == s;
    if Parse(s[..n]).Some? {
      ParseMore(s[..n], s[n..]);
    }
  }

  // Two ways to see a stream as a frame and a rest are one.
  lemma PrintedUnambiguous(f: Frame, key: Option<Key>, rest: Bytes, g: Frame, key': Option<Key>, rest': Bytes)
    requires f.opcode < 16 && |f.payload| < MAX && g.opcode < 16 && |g.payload| < MAX
    requires Printed(f, key) + rest == Printed(g, key') + rest'
    ensures f == g && rest == rest'
  {
    hide Printed, Parse;
    ParsePrinted(f, key, rest);
    ParsePrinted(g, key', rest');
  }

  // A length field of at most eight bytes is below 2^64.
  lemma ParseFits(s: Bytes)
    requires Parse(s).Some?
    ensures var (f, rest) := Parse(s).value; f.opcode < 16 && |f.payload| < MAX && |rest| < |s|
  {
    hide Masked;
  }

  // readFrame and readWSFrame
  method ReadFrame(src: Stream) returns (frame: Option<Frame>)
    modifies src
    ensures match Parse(old(src.data))
      case None => frame == None && src.data == []
      case Some((f, rest)) => frame == Some(f) && src.data == rest
  {
    hide Parse, ParseBody;
    var header := ReadHeader(src);
    if header.None? {
      return None;
    }
    var (opcode, masked, length) := header.value;
    frame := ReadBody(src, opcode, masked, length);
  }

  // The two leading bytes, and those that continue the length.
  method ReadHeader(src: Stream) returns (header: Option<(nat, bool, nat)>)
    modifies src
    ensures match header
      case None => Parse(old(src.data)) == None && src.data == []
      case Some((opcode, masked, length)) => Parse(old(src.data)) == ParseBody(opcode, masked, length, src.data)
  {
    ghost var s := src.data;
    var hdr := src.ReadFull(2);
    if hdr.None? {
      return None;
    }
    LowBitsOf(hdr.value[0], hdr.value[1]);
    hide And, ParseBody, U16, U64;
    var opcode := And(hdr.value[0], 0x0F);
    var masked := And(hdr.value[1], 0x80) != 0;
    var length := And(hdr.value[1], 0x7F);
    if length == 126 {
      var ext := src.ReadFull(2);
      if ext.None? {
        return None;
      }
      length := U16(ext.value, 0);
      assert ext.value == s[2..4] && src.data == s[4..];
    } else if length == 127 {
      var ext := src.ReadFull(8);
      if ext.None? {
        return None;
      }
      length := U64(ext.value);
      assert ext.value == s[2..10] && src.data == s[10..];
    } else {
      assert s[2..2] == [];
    }
    header := Some((opcode, masked, length));
  }

  // The masking key and the payload.
  method ReadBody(src: Stream, opcode: nat, masked: bool, length: nat) returns (frame: Option<Frame>)
    modifies src
    ensures match ParseBody(opcode, masked, length, old(src.data))
      case None => frame == None && src.data == []
      case Some((f, rest)) => frame == Some(f) && src.data == rest
  {
    hide Masked;
    ghost var s := src.data;
    var key: Key := [0, 0, 0, 0];
    if masked {
      var k := src.ReadFull(4);
      if k.None? {
        return None;
      }
      key := k.value;
    }
    var read := src.ReadFull(length);
    if read.None? {
      return None;
    }
    var payload := read.value;
    if masked {
      assert payload == s[4..4 + length] && src.data == s[4 + length..];
      payload := Unmask(payload, key);
    }
    frame := Some(Frame(opcode, payload));
  }

  lemma LowBitsOf(a: byte, b: byte)
    ensures And(a, 0x0F) == a % 16 && And(b, 0x7F) == b % 128 && (And(b, 0x80) != 0 <==> b >= 128)
  {
    assert Pow2(4) == 16 && Pow2(7) == 128;
    AndLowBits(a, 4);
    AndLowBits(b, 7);
    HighBit(b);
  }

  // payload[i] ^= mask[i % 4], in place
  method Unmask(bytes: Bytes, key: Key) returns (r: Bytes)
    ensures r == Masked(bytes, key)
  {
    hide Xor;
    var payload := new byte[|bytes|](i requires 0 <= i < |bytes| => bytes[i]);
    for i := 0 to payload.Length
      invariant forall k :: 0 <= k < i ==> payload[k] == Xor(bytes[k], key[k % 4])
      invariant forall k :: i <= k < payload.Length ==> payload[k] == bytes[k]
    {
      payload[i] := Xor(payload[i], key[i % 4]);
    }
    r := payload[..];
  }

  lemma OrTop(i: nat)
    requires i < 128
    ensures Or(0x80, i) == 128 + i
  {
    assert Pow2(7) == 128;
    OrTopBit(i, 7);
  }

  // writeFrame of the client
  method WriteFrame(dst: Sink, opcode: nat, payload: Bytes, mask: Key) returns (ok: bool)
    requires opcode < 16 && |payload| < MAX
    modifies dst
    ensures Carried(old(dst.written), old(dst.broken), dst.written, dst.broken,
              Printed(Frame(opcode, payload), Some(mask)))
    ensures ok == !dst.broken
  {
    hide Or, Masked, Xor;
    var pLen := |payload|;
    OrTop(opcode);
    OrTop(ShortLength(pLen));
    var header: Bytes := [Or(0x80, opcode)];
    if pLen <= 125 {
      header := header + [Or(0x80, pLen)];
    } else if pLen <= 65535 {
      header := header + [Or(0x80, 126), pLen / 256, pLen % 256];
    } else {
      header := header + [Or(0x80, 127)];
      header := header + Be64(pLen);
    }
    assert header == Head(Frame(opcode, payload), true) + Extension(pLen);
    header := header + mask;
    var masked := Unmask(payload, mask);
    var frame := header + masked;
    assert frame == Head(Frame(opcode, payload), true) + Extension(pLen) + (mask + masked);
    ok := dst.Write(frame);
  }

  // writeWSFrame of the server
  method WriteWSFrame(dst: Sink, opcode: nat, payload: Bytes) returns (ok: bool)
    requires opcode < 16 && |payload| < MAX
    modifies dst
    ensures Carried(old(dst.written), old(dst.broken), dst.written, dst.broken,
              Printed(Frame(opcode, payload), None))
    ensures ok == !dst.broken
  {
    hide Or, Carried;
    var length := |payload|;
    OrTop(opcode);
    var hdr: Bytes;
    if length <= 125 {
      hdr := [Or(0x80, opcode), length];
    } else if length <= 65535 {
      hdr := [Or(0x80, opcode), 126] + Be16(length);
    } else {
      hdr := [Or(0x80, opcode), 127] + Be64(length);
    }
    assert hdr == Head(Frame(opcode, payload), false) + Extension(length);
    ghost var w, broken := dst.written, dst.broken;
    ok := dst.Write(hdr);
    if !ok {
      CarriedLess(w, broken, dst.written, dst.broken, hdr, payload);
      return;
    }
    ghost var w1, broken1 := dst.written, dst.broken;
    CarriedNothing(w1, broken1);
    if length > 0 {
      ok := dst.Write(payload);
    }
    CarriedThen(w, broken, w1, broken1, dst.written, dst.broken, hdr, payload);
  }

  // The bytes of a frame, as section 5.2 of RFC 6455 draws them: FIN and opcode, mask bit and length in the shortest of
  // its three forms, the key of a masked frame, and the payload, byte by byte under the key.
  lemma FrameBytes(f: Frame, key: Option<Key>)
    requires f.opcode < 16 && |f.payload| < MAX
    ensures var s, n := Printed(f, key), |f.payload|;
      var mask := if key.Some? then 128 else 0;
      var h := if n <= 125 then 2 else if n <= 65535 then 4 else 10;
      && |s| == h + (if key.Some? then 4 else 0) + n
      && s[0] == 128 + f.opcode
      && (n <= 125 ==> s[1] == mask + n)
      && (125 < n <= 65535 ==> s[1] == mask + 126 && s[2] as int * 256 + s[3] as int == n)
      && (65535 < n ==> s[1] == mask + 127 && BigEndian(s[2..10]) == n)
      && (key.None? ==> s[h..] == f.payload)
      && (key.Some? ==>
            && s[h..h + 4] == key.value
            && (forall i :: 0 <= i < n ==> s[h + 4 + i] == Xor(f.payload[i], key.value[i % 4])))
  {
    hide *;
    FrameHeader(f, key);
    FrameBody(f, key);
    var h := if |f.payload| <= 125 then 2 else if |f.payload| <= 65535 then 4 else 10;
    var s, body := Printed(f, key), Body(f, key);
    assert s[h..] == body;
    if key.Some? {
      SliceOfSlice(s, h, |s|, 0, 4);
      assert s[h..|s|] == s[h..];
      forall i | 0 <= i < |f.payload|
        ensures s[h + 4 + i] == Xor(f.payload[i], key.value[i % 4])
      {
        assert s[h..][4 + i] == body[4 + i];
      }
    }
  }

  lemma FrameHeader(f: Frame, key: Option<Key>)
    requires f.opcode < 16 && |f.payload| < MAX
    ensures var s, n := Printed(f, key), |f.payload|;
      var mask := if key.Some? then 128 else 0;
      var h := if n <= 125 then 2 else if n <= 65535 then 4 else 10;
      && h <= |s| && s[h..] == Body(f, key) && s[0] == 128 + f.opcode
      && (n <= 125 ==> s[1] == mask + n)
      && (125 < n <= 65535 ==> s[1] == mask + 126 && s[2] as int * 256 + s[3] as int == n)
      && (65535 < n ==> s[1] == mask + 127 && BigEndian(s[2..10]) == n)
  {
    var n := |f.payload|;
    var head, ext, body := Head(f, key.Some?), Extension(n), Body(f, key);
    SplitPrinted(Printed(f, key), head, ext, body);
    hide Printed, Body;
    if 125 < n <= 65535 {
      assert Printed(f, key)[2..4] == Be16(n);
      assert Printed(f, key)[2] == Be16(n)[0] && Printed(f, key)[3] == Be16(n)[1];
    } else if 65535 < n {
      EightBytes(Be64(n));
    }
  }

  lemma FrameBody(f: Frame, key: Option<Key>)
    ensures var b := Body(f, key);
      && (key.None? ==> b == f.payload)
      && (key.Some? ==>
            && |b| == 4 + |f.payload| && b[..4] == key.value
            && forall i :: 0 <= i < |f.payload| ==> b[4 + i] == Xor(f.payload[i], key.value[i % 4]))
  {
    hide Xor;
  }

  // Most significant byte first.
  function BigEndian(s: Bytes): nat {
    if s == [] then 0 else BigEndian(s[..|s| - 1]) * 256 + s[|s| - 1] as int
  }

  lemma BigEndianPush(s: Bytes, b: byte)
    ensures BigEndian(s + [b]) == BigEndian(s) * 256 + b
  {
    assert (s + [b])[..|s|] == s;
  }

  lemma EightBytes(s: Bytes)
    requires |s| == 8
    ensures BigEndian(s) == U64(s)
  {
    assert s == [] + [s[0]] + [s[1]] + [s[2]] + [s[3]] + [s[4]] + [s[5]] + [s[6]] + [s[7]];
    var s1: Bytes := [] + [s[0]];
    var s2 := s1 + [s[1]];
    var s3 := s2 + [s[2]];
    var s4 := s3 + [s[3]];
    var s5 := s4 + [s[4]];
    var s6 := s5 + [s[5]];
    var s7 := s6 + [s[6]];
    BigEndianPush([], s[0]);
    BigEndianPush(s1, s[1]);
    BigEndianPush(s2, s[2]);
    BigEndianPush(s3, s[3]);
    BigEndianPush(s4, s[4]);
    BigEndianPush(s5, s[5]);
    BigEndianPush(s6, s[6]);
    BigEndianPush(s7, s[7]);
    assert BigEndian([]) == 0;
    hide BigEndian;
  }

  // What is read from the bytes after the first.
  ghost function ParseSecond(opcode: nat, t: Bytes): Option<(Frame, Bytes)> {
    if t == [] then None
    else
      var short := t[0] as int % 128;
      var e := 1 + ExtensionSize(short);
      if |t| < e then None else ParseBody(opcode, t[0] >= 128, LengthOf(short, t[1..e]), t[e..])
  }

  lemma ParseFirst(b: byte, t: Bytes)
    ensures Parse([b] + t) == ParseSecond(b as int % 16, t)
  {
    hide ParseBody, LengthOf, ExtensionSize;
    var s := [b] + t;
    if t != [] {
      var e := 2 + ExtensionSize(s[1] as int % 128);
      assert s[1] == t[0];
      if e <= |s| {
        assert s[2..e] == t[1..e - 1] && s[e..] == t[e - 1..];
      }
    }
  }

  // The reader does not look at the flags in front of the opcode: a fragment reads like a whole frame.
  lemma FlagsIgnored(b: byte, t: Bytes)
    ensures Parse([b] + t) == Parse([128 + b as int % 16] + t)
  {
    hide Parse, ParseSecond;
    ParseFirst(b, t);
    ParseFirst(128 + b as int % 16, t);
  }
}
