/** WebSocket byte streams end to end: wsConn of cli/ssh_transport.go against wsToTCP and tcpToWS of
    internal/proxy/stuntls.go. */
module WsStream {
  import opened Bits
  import opened Connection
  import opened Options
  import opened Sequences
  import opened WsFrame

  // A frame with the key it was masked with, if any.
  datatype Sent = Sent(frame: Frame, key: Option<Key>)

  predicate Printable(x: Sent) {
    x.frame.opcode < 16 && |x.frame.payload| < MAX
  }

  ghost predicate Fits(xs: seq<Sent>) {
    forall i :: 0 <= i < |xs| ==> Printable(xs[i])
  }

  function PrintAll(xs: seq<Sent>): Bytes
    requires Fits(xs)
  {
    if xs == [] then [] else Printed(xs[0].frame, xs[0].key) + PrintAll(xs[1..])
  }

  predicate IsData(opcode: nat) {
    opcode == 0 || opcode == TEXT || opcode == BINARY
  }

  // The application data of some frames: it ends at a close frame.
  function Data(xs: seq<Sent>): Bytes {
    if xs == [] || xs[0].frame.opcode == CLOSE then []
    else (if IsData(xs[0].frame.opcode) then xs[0].frame.payload else []) + Data(xs[1..])
  }

  // ---- server: WebSocket to TCP

  // What wsToTCP writes for a stream. The pong that answers a ping goes to the TCP side too.
  function Served(s: Bytes): Bytes
    decreases |s|
  {
    match Parse(s)
    case None => []
    case Some((f, rest)) =>
      ParseFits(s);
      if f.opcode == CLOSE then []
      else if IsData(f.opcode) then f.payload + Served(rest)
      else if f.opcode == PING then Printed(Frame(PONG, f.payload), None) + Served(rest)
      else Served(rest)
  }

  // wsToTCP; it ends with the stream, at a close frame, or at data that cannot be passed on.
  method WsToTCP(src: Stream, dst: Sink)
    modifies src, dst
    ensures Carried(old(dst.written), old(dst.broken), dst.written, dst.broken, Served(old(src.data)))
  {
    hide Parse, Printed, Served, Carried;
    ghost var w, broken, sent: Bytes := dst.written, dst.broken, [];
    CarriedNothing(w, broken);
    assert [] + Served(src.data) == Served(src.data);
    while true
      invariant Carried(w, broken, dst.written, dst.broken, sent)
      invariant Served(old(src.data)) == sent + Served(src.data)
      decreases |src.data|
    {
      ServedStep(src.data);
      ghost var s, w1, broken1 := src.data, dst.written, dst.broken;
      assert sent + [] == sent;
      var frame := ReadFrame(src);
      if frame.None? {
        return;
      }
      ParseFits(s);
      var Frame(opcode, payload) := frame.value;
      ghost var rest := Served(src.data);
      if opcode == 1 || opcode == 2 || opcode == 0 {
        var ok := dst.Write(payload);
        CarriedThen(w, broken, w1, broken1, dst.written, dst.broken, sent, payload);
        assert sent + (payload + rest) == (sent + payload) + rest;
        sent := sent + payload;
        if !ok {
          CarriedLess(w, broken, dst.written, dst.broken, sent, rest);
          return;
        }
      } else if opcode == 8 {
        return;
      } else if opcode == 9 {
        var _ := WriteWSFrame(dst, PONG, payload);
        ghost var pong := Printed(Frame(PONG, payload), None);
        CarriedThen(w, broken, w1, broken1, dst.written, dst.broken, sent, pong);
        assert sent + (pong + rest) == (sent + pong) + rest;
        sent := sent + pong;
      }
    }
  }

  lemma ServedStep(s: Bytes)
    ensures PONG == 10
    ensures match Parse(s)
      case None => Served(s) == []
      case Some((f, rest)) =>
        |f.payload| < MAX && Served(s) ==
          if f.opcode == 8 then []
          else if f.opcode == 0 || f.opcode == 1 || f.opcode == 2 then f.payload + Served(rest)
          else if f.opcode == 9 then Printed(Frame(PONG, f.payload), None) + Served(rest)
          else Served(rest)
  {
    hide Parse;
    if Parse(s).Some? {
      ParseFits(s);
    }
  }

  // What the server makes of whole frames.
  function Outputs(xs: seq<Sent>): Bytes
    requires Fits(xs)
  {
    if xs == [] || xs[0].frame.opcode == CLOSE then []
    else
      var f := xs[0].frame;
      (if IsData(f.opcode) then f.payload else if f.opcode == PING then Printed(Frame(PONG, f.payload), None) else [])
      + Outputs(xs[1..])
  }

  // However a stream of frames breaks off, the server has written what its whole frames call for.
  lemma {:induction false} ServedFrames(xs: seq<Sent>, last: Sent, n: nat)
    requires Fits(xs) && Printable(last) && n < |Printed(last.frame, last.key)|
    ensures Served(PrintAll(xs) + Printed(last.frame, last.key)[..n]) == Outputs(xs)
  {
    hide Parse, Printed;
    var cut := Printed(last.frame, last.key)[..n];
    if xs == [] {
      assert PrintAll(xs) + cut == cut;
      ParseCut(last.frame, last.key, n);
    } else {
      var f, key, rest := xs[0].frame, xs[0].key, PrintAll(xs[1..]) + cut;
      assert PrintAll(xs) + cut == Printed(f, key) + rest;
      ParsePrinted(f, key, rest);
      ServedFrames(xs[1..], last, n);
    }
  }

  // No ping before the first close.
  predicate NoPing(xs: seq<Sent>) {
    xs == [] || xs[0].frame.opcode == CLOSE || (xs[0].frame.opcode != PING && NoPing(xs[1..]))
  }

  // The server passes on exactly the application data if and only if no ping is among it.
  lemma {:induction false} OutputsAreData(xs: seq<Sent>)
    requires Fits(xs)
    ensures |Outputs(xs)| >= |Data(xs)|
    ensures Outputs(xs) == Data(xs) <==> NoPing(xs)
  {
    hide Printed;
    if xs != [] && xs[0].frame.opcode != CLOSE {
      OutputsAreData(xs[1..]);
      var f := xs[0].frame;
      var head := if IsData(f.opcode) then f.payload else [];
      if f.opcode == PING {
        PongNotEmpty(f.payload);
        assert |Outputs(xs)| > |Data(xs)|;
      } else {
        assert Outputs(xs) == head + Outputs(xs[1..]) && Data(xs) == head + Data(xs[1..]);
        if Outputs(xs) == Data(xs) {
          assert Outputs(xs[1..]) == (head + Outputs(xs[1..]))[|head|..] == Data(xs[1..]);
        }
      }
    }
  }

  lemma PongNotEmpty(payload: Bytes)
    requires |payload| < MAX
    ensures |Printed(Frame(PONG, payload), None)| > |payload|
  {
  }

  // ---- client: wsConn

  // The application data still on a stream: up to a close frame, or to where the stream breaks off.
  function Incoming(s: Bytes): Bytes
    decreases |s|
  {
    match Parse(s)
    case None => []
    case Some((f, rest)) =>
      ParseFits(s);
      if f.opcode == CLOSE then [] else (if IsData(f.opcode) then f.payload else []) + Incoming(rest)
  }

  // Whether it ends at a close frame.
  predicate Closed(s: Bytes)
    decreases |s|
  {
    match Parse(s)
    case None => false
    case Some((f, rest)) =>
      ParseFits(s);
      f.opcode == CLOSE || Closed(rest)
  }

  datatype ReadResult = Got(bytes: Bytes) | EndOfFile | Failed

  // The next data frame that is not empty, what comes after it, and the pings before it.
  datatype Fetch = Fetch(payload: Option<Bytes>, eof: bool, rest: Bytes, pings: seq<Payload>)

  function Fetched(s: Bytes): Fetch
    decreases |s|
  {
    match Parse(s)
    case None => Fetch(None, false, [], [])
    case Some((f, rest)) =>
      ParseFits(s);
      if f.opcode == CLOSE then Fetch(None, true, rest, [])
      else if IsData(f.opcode) && f.payload != [] then Fetch(Some(f.payload), false, rest, [])
      else if f.opcode == PING then AfterPing(f.payload, Fetched(rest))
      else Fetched(rest)
  }

  function AfterPing(ping: Payload, f: Fetch): Fetch {
    f.(pings := [ping] + f.pings)
  }

  function Least(a: nat, b: nat): nat {
    if a < b then a else b
  }

  // One Read into n bytes: its result, the new buffer and stream, and the pings answered on the way.
  function ReadOnce(buffered: Bytes, s: Bytes, n: nat): (ReadResult, Bytes, Bytes, seq<Payload>) {
    if buffered != [] then
      var k := Least(n, |buffered|);
      (Got(buffered[..k]), buffered[k..], s, [])
    else
      var f := Fetched(s);
      match f.payload
      case None => (if f.eof then EndOfFile else Failed, [], f.rest, f.pings)
      case Some(p) =>
        var k := Least(n, |p|);
        (Got(p[..k]), p[k..], f.rest, f.pings)
  }

  // The pongs for some pings, masked with the keys drawn from number k on.
  function Pongs(pings: seq<Payload>, keys: nat -> Key, k: nat): Bytes {
    if pings == [] then []
    else Printed(Frame(PONG, pings[0]), Some(keys(k))) + Pongs(pings[1..], keys, k + 1)
  }

  lemma FetchedStep(s: Bytes)
    ensures PONG == 10
    ensures match Parse(s)
      case None => Fetched(s) == Fetch(None, false, [], [])
      case Some((f, rest)) =>
        && |f.payload| < MAX && |rest| < |s|
        && Fetched(s) ==
          if f.opcode == 8 then Fetch(None, true, rest, [])
          else if (f.opcode == 0 || f.opcode == 1 || f.opcode == 2) && f.payload != [] then
            Fetch(Some(f.payload), false, rest, [])
          else if f.opcode == 9 then AfterPing(f.payload, Fetched(rest))
          else Fetched(rest)
  {
    hide Parse;
    if Parse(s).Some? {
      ParseFits(s);
    }
  }

  lemma Opcodes()
    ensures 0 <= PONG < 16
  {
  }

  // A Read that began with b buffered and s to come has answered pings and stands before its last step.
  ghost predicate Underway(b: Bytes, s: Bytes, buffered: Bytes, stream: Bytes, pings: seq<Payload>) {
    var whole :=
      if buffered == [] then WithPings(pings, Fetched(stream)) else Fetch(Some(buffered), false, stream, pings);
    if b != [] then buffered == b && stream == s && pings == [] else Fetched(s) == whole
  }

  class WsConn {
    const reader: Stream
    const raw: Sink
    const keys: nat -> Key
    var drawn: nat
    var buf: Bytes
    var bufOff: nat
    var bufLen: nat

    constructor (reader: Stream, raw: Sink, keys: nat -> Key)
      ensures this.reader == reader && this.raw == raw && this.keys == keys
      ensures Valid() && Buffered() == [] && drawn == 0
    {
      this.reader, this.raw, this.keys := reader, raw, keys;
      drawn, buf, bufOff, bufLen := 0, [], 0, 0;
    }

    ghost predicate Valid()
      reads this
    {
      bufOff <= bufLen <= |buf|
    }

    ghost function Buffered(): Bytes
      requires Valid()
      reads this
    {
      buf[bufOff..bufLen]
    }

    method Read(n: nat) returns (result: ReadResult)
      requires Valid()
      modifies this, reader, raw
      ensures Valid()
      ensures (result, Buffered(), reader.data, ReadOnce(old(Buffered()), old(reader.data), n).3)
        == ReadOnce(old(Buffered()), old(reader.data), n)
      ensures var pings := ReadOnce(old(Buffered()), old(reader.data), n).3;
        && drawn == old(drawn) + |pings|
        && Carried(old(raw.written), old(raw.broken), raw.written, raw.broken, Pongs(pings, keys, old(drawn)))
    {
      hide Parse, Printed, Fetched, Pongs, Carried, Least;
      ghost var b, s, w, broken, d := Buffered(), reader.data, raw.written, raw.broken, drawn;
      ghost var pings: seq<Payload> := [];
      NoPongs(keys, drawn);
      CarriedNothing(w, broken);
      PrefixNone(Fetched(s));
      while true
        invariant Valid() && Underway(b, s, Buffered(), reader.data, pings)
        invariant drawn == d + |pings| && Carried(w, broken, raw.written, raw.broken, Pongs(pings, keys, d))
        decreases |reader.data|
      {
        if bufOff < bufLen {
          result := TakeBuffered(n);
          return;
        }
        FetchedStep(reader.data);
        assert pings + [] == pings;
        var frame := ReadFrame(reader);
        if frame.None? {
          return Failed;
        }
        var Frame(opcode, payload) := frame.value;
        if opcode == 2 || opcode == 1 || opcode == 0 {
          if |payload| == 0 {
            continue;
          }
          buf := payload;
          bufOff := 0;
          bufLen := |payload|;
          assert Buffered() == payload;
        } else if opcode == 9 {
          ghost var before := pings;
          PingsAppend(pings, payload, Fetched(reader.data));
          pings := pings + [payload];
          SendPong(payload, before, w, broken, d);
        } else if opcode == 8 {
          return EndOfFile;
        }
      }
    }

    // copy(b, c.buf[c.bufOff:c.bufLen])
    method TakeBuffered(n: nat) returns (result: ReadResult)
      requires Valid() && Buffered() != []
      modifies this`bufOff
      ensures Valid()
      ensures var k := Least(n, |old(Buffered())|);
        result == Got(old(Buffered())[..k]) && Buffered() == old(Buffered())[k..]
    {
      var k := Least(n, bufLen - bufOff);
      result := Got(buf[bufOff..bufOff + k]);
      assert Buffered()[..k] == buf[bufOff..bufOff + k] && Buffered()[k..] == buf[bufOff + k..bufLen];
      bufOff := bufOff + k;
    }

    // The answer to one ping more.
    method SendPong(ping: Payload, ghost pings: seq<Payload>, ghost w: Bytes, ghost broken: bool, ghost d: nat)
      requires drawn == d + |pings| && Carried(w, broken, raw.written, raw.broken, Pongs(pings, keys, d))
      modifies this`drawn, raw
      ensures drawn == old(drawn) + 1
      ensures Carried(w, broken, raw.written, raw.broken, Pongs(pings + [ping], keys, d))
    {
      hide *;
      ghost var w1, broken1 := raw.written, raw.broken;
      PongsAppend(pings, ping, keys, d);
      Opcodes();
      var _ := WriteFrame(raw, PONG, ping, keys(drawn));
      CarriedThen(w, broken, w1, broken1, raw.written, raw.broken, Pongs(pings, keys, d),
        Printed(Frame(PONG, ping), Some(keys(drawn))));
      drawn := drawn + 1;
    }

    // Write: the length when it is sent, 0 with an error otherwise.
    method Write(b: Payload) returns (n: nat, ok: bool)
      requires Valid()
      modifies this`drawn, raw
      ensures Valid() && n == (if ok then |b| else 0) && ok == (b == [] || !raw.broken)
      ensures Carried(old(raw.written), old(raw.broken), raw.written, raw.broken,
                PrintAll(Writes([b], keys, old(drawn))))
      ensures drawn == old(drawn) + |Writes([b], keys, old(drawn))|
    {
      hide Printed, Carried;
      if |b| == 0 {
        CarriedNothing(raw.written, raw.broken);
        return 0, true;
      }
      ghost var x := Sent(Frame(BINARY, b), Some(keys(drawn)));
      assert Writes([b], keys, drawn) == [x] && [x][1..] == [];
      assert PrintAll([x]) == Printed(x.frame, x.key) + [] == Printed(x.frame, x.key);
      ok := WriteFrame(raw, BINARY, b, keys(drawn));
      drawn := drawn + 1;
      n := if ok then |b| else 0;
    }
  }

  // The frames of a run of writes: an empty write sends nothing.
  function Writes(ws: seq<Payload>, keys: nat -> Key, k: nat): (r: seq<Sent>)
    ensures Fits(r)
  {
    if ws == [] then []
    else if ws[0] == [] then Writes(ws[1..], keys, k)
    else [Sent(Frame(BINARY, ws[0]), Some(keys(k)))] + Writes(ws[1..], keys, k + 1)
  }

  function WithPings(pings: seq<Payload>, f: Fetch): Fetch {
    f.(pings := pings + f.pings)
  }

  lemma PrefixNone(f: Fetch)
    ensures WithPings([], f) == f
  {
    assert [] + f.pings == f.pings;
  }

  lemma PingsAppend(pings: seq<Payload>, ping: Payload, f: Fetch)
    ensures WithPings(pings, AfterPing(ping, f)) == WithPings(pings + [ping], f)
  {
    assert pings + ([ping] + f.pings) == (pings + [ping]) + f.pings;
  }

  lemma NoPongs(keys: nat -> Key, k: nat)
    ensures Pongs([], keys, k) == []
  {
  }

  lemma {:induction false} PongsAppend(pings: seq<Payload>, ping: Payload, keys: nat -> Key, k: nat)
    ensures Pongs(pings + [ping], keys, k)
      == Pongs(pings, keys, k) + Printed(Frame(PONG, ping), Some(keys(k + |pings|)))
  {
    hide Printed;
    var pong := Printed(Frame(PONG, ping), Some(keys(k + |pings|)));
    if pings == [] {
      assert [] + [ping] == [ping] && [ping][1..] == [];
      assert pong + [] == pong && [] + pong == pong;
    } else {
      assert (pings + [ping])[1..] == pings[1..] + [ping];
      PongsAppend(pings[1..], ping, keys, k + 1);
      var first, rest := Printed(Frame(PONG, pings[0]), Some(keys(k))), Pongs(pings[1..], keys, k + 1);
      assert first + (rest + pong) == (first + rest) + pong;
    }
  }

  // ---- client to server

  lemma {:induction false} WritesData(ws: seq<Payload>, keys: nat -> Key, k: nat)
    ensures Data(Writes(ws, keys, k)) == Flatten(ws) && NoPing(Writes(ws, keys, k))
  {
    if ws != [] {
      if ws[0] == [] {
        WritesData(ws[1..], keys, k);
        assert [] + Flatten(ws[1..]) == Flatten(ws[1..]);
      } else {
        WritesData(ws[1..], keys, k + 1);
        var xs := Writes(ws, keys, k);
        assert xs[1..] == Writes(ws[1..], keys, k + 1);
      }
    }
  }

  // Whatever the client writes and wherever the connection breaks, the server passes on, in order and unmasked,
  // exactly the writes that arrived whole.
  lemma ClientToServer(ws: seq<Payload>, keys: nat -> Key, last: Sent, n: nat)
    requires Printable(last) && n < |Printed(last.frame, last.key)|
    ensures Served(PrintAll(Writes(ws, keys, 0)) + Printed(last.frame, last.key)[..n]) == Flatten(ws)
  {
    hide Printed, Served, Writes, Data, NoPing;
    WritesData(ws, keys, 0);
    ServedFrames(Writes(ws, keys, 0), last, n);
    OutputsAreData(Writes(ws, keys, 0));
  }

  // ---- server: TCP to WebSocket

  const NORMAL_CLOSURE: Bytes := [0x03, 0xE8]

  // The frames for what is read from the TCP side; the end of it is told by a close frame.
  function Relayed(arrived: seq<Payload>): (r: seq<Sent>)
    ensures Fits(r)
  {
    if arrived == [] then [Sent(Frame(CLOSE, NORMAL_CLOSURE), None)]
    else if arrived[0] == [] then Relayed(arrived[1..])
    else [Sent(Frame(BINARY, arrived[0]), None)] + Relayed(arrived[1..])
  }

  // tcpToWS; the last one comes together with the error that ends the loop. A frame that cannot be sent ends it too.
  method TcpToWS(arrived: seq<Payload>, dst: Sink)
    requires arrived != []
    modifies dst
    ensures Carried(old(dst.written), old(dst.broken), dst.written, dst.broken, PrintAll(Relayed(arrived)))
  {
    hide Printed, Relayed, PrintAll, Carried;
    ghost var w, broken, sent: Bytes := dst.written, dst.broken, [];
    CarriedNothing(w, broken);
    assert arrived[0..] == arrived && [] + PrintAll(Relayed(arrived)) == PrintAll(Relayed(arrived));
    var i := 0;
    while true
      invariant 0 <= i < |arrived|
      invariant Carried(w, broken, dst.written, dst.broken, sent)
      invariant PrintAll(Relayed(arrived)) == sent + PrintAll(Relayed(arrived[i..]))
      decreases |arrived| - i
    {
      var buf := arrived[i];
      ghost var w1, broken1 := dst.written, dst.broken;
      RelayedStep(arrived[i..], sent);
      assert arrived[i..][1..] == arrived[i + 1..];
      if |buf| > 0 {
        var ok := WriteWSFrame(dst, 0x2, buf);
        ghost var frame := Printed(Frame(2, buf), None);
        CarriedThen(w, broken, w1, broken1, dst.written, dst.broken, sent, frame);
        sent := sent + frame;
        if !ok {
          CarriedLess(w, broken, dst.written, dst.broken, sent, PrintAll(Relayed(arrived[i + 1..])));
          return;
        }
      }
      if i + 1 == |arrived| {
        RelayedEnd(arrived[i + 1..]);
        ghost var w2, broken2 := dst.written, dst.broken;
        var _ := WriteWSFrame(dst, 0x8, [0x03, 0xE8]);
        CarriedThen(w, broken, w2, broken2, dst.written, dst.broken, sent, Printed(Frame(8, [0x03, 0xE8]), None));
        return;
      }
      i := i + 1;
    }
  }

  lemma RelayedStep(arrived: seq<Payload>, w: Bytes)
    requires arrived != []
    ensures w + PrintAll(Relayed(arrived)) ==
      (if |arrived[0]| > 0 then w + Printed(Frame(2, arrived[0]), None) else w) + PrintAll(Relayed(arrived[1..]))
  {
    hide Printed;
    if arrived[0] != [] {
      var x := Sent(Frame(BINARY, arrived[0]), None);
      assert Relayed(arrived) == [x] + Relayed(arrived[1..]);
      assert ([x] + Relayed(arrived[1..]))[1..] == Relayed(arrived[1..]);
      var rest := PrintAll(Relayed(arrived[1..]));
      assert PrintAll(Relayed(arrived)) == Printed(x.frame, x.key) + rest;
      assert w + (Printed(x.frame, x.key) + rest) == (w + Printed(x.frame, x.key)) + rest;
    }
  }

  lemma RelayedEnd(arrived: seq<Payload>)
    requires arrived == []
    ensures PrintAll(Relayed(arrived)) == Printed(Frame(8, [0x03, 0xE8]), None)
  {
    hide Printed;
    var x := Sent(Frame(CLOSE, NORMAL_CLOSURE), None);
    assert Relayed(arrived) == [x] && [x][1..] == [];
    assert Printed(x.frame, None) + [] == Printed(x.frame, None);
  }

  // ---- server to client

  lemma IncomingStep(s: Bytes)
    requires Parse(s).Some?
    ensures var (f, rest) := Parse(s).value;
      && Incoming(s) == (if f.opcode == CLOSE then []
                         else (if IsData(f.opcode) then f.payload else []) + Incoming(rest))
      && Closed(s) == (f.opcode == CLOSE || Closed(rest))
  {
    ParseFits(s);
  }

  // The data of whole frames, whether or not the stream goes on.
  lemma {:induction false} IncomingFrames(xs: seq<Sent>, tail: Bytes)
    requires Fits(xs) && exists i :: 0 <= i < |xs| && xs[i].frame.opcode == CLOSE
    ensures Incoming(PrintAll(xs) + tail) == Data(xs) && Closed(PrintAll(xs) + tail)
  {
    hide Parse, Printed, Incoming, Closed;
    var f, key, rest := xs[0].frame, xs[0].key, PrintAll(xs[1..]) + tail;
    assert PrintAll(xs) + tail == Printed(f, key) + rest;
    ParsePrinted(f, key, rest);
    IncomingStep(PrintAll(xs) + tail);
    if f.opcode != CLOSE {
      var i :| 0 <= i < |xs| && xs[i].frame.opcode == CLOSE;
      assert xs[1..][i - 1].frame.opcode == CLOSE;
      IncomingFrames(xs[1..], tail);
    }
  }

  lemma {:induction false} RelayedData(arrived: seq<Payload>)
    ensures Data(Relayed(arrived)) == Flatten(arrived)
    ensures exists i :: 0 <= i < |Relayed(arrived)| && Relayed(arrived)[i].frame.opcode == CLOSE
  {
    var xs := Relayed(arrived);
    if arrived == [] {
      assert xs[0].frame.opcode == CLOSE;
    } else {
      RelayedData(arrived[1..]);
      var ys := Relayed(arrived[1..]);
      var i :| 0 <= i < |ys| && ys[i].frame.opcode == CLOSE;
      if arrived[0] == [] {
        assert [] + Flatten(arrived[1..]) == Flatten(arrived[1..]);
      } else {
        assert xs[1..] == ys && xs[i + 1] == ys[i];
      }
    }
  }

  // A fetch takes the first of the incoming data.
  lemma {:induction false} FetchIncoming(s: Bytes)
    ensures var f := Fetched(s);
      match f.payload
      case Some(p) => p != [] && Incoming(s) == p + Incoming(f.rest) && Closed(s) == Closed(f.rest)
      case None => Incoming(s) == [] && Closed(s) == f.eof
    decreases |s|
  {
    hide Parse;
    if Parse(s).Some? {
      ParseFits(s);
      FetchIncoming(Parse(s).value.1);
    }
  }

  // What a run of reads into buffers of the given sizes returns in all, and the buffer and stream after it.
  function ReadRun(buffered: Bytes, s: Bytes, sizes: seq<nat>): (Bytes, Bytes, Bytes)
    decreases |sizes|
  {
    if sizes == [] then ([], buffered, s)
    else
      var (result, b, s', _) := ReadOnce(buffered, s, sizes[0]);
      match result
      case Got(d) => var (rest, b', s'') := ReadRun(b, s', sizes[1..]); (d + rest, b', s'')
      case _ => ([], buffered, s)
  }

  lemma OneRead(buffered: Bytes, s: Bytes, n: nat)
    ensures var (result, b, s', _) := ReadOnce(buffered, s, n);
      match result
      case Got(d) => && buffered + Incoming(s) == d + (b + Incoming(s')) && Closed(s) == Closed(s')
        && |d| <= n && (n > 0 ==> d != [])
      case EndOfFile => buffered + Incoming(s) == [] && Closed(s)
      case Failed => buffered + Incoming(s) == [] && !Closed(s)
  {
    hide Incoming, Closed, Fetched, Least;
    if buffered != [] {
      TakeSome(buffered, Incoming(s), n);
    } else {
      FetchIncoming(s);
      assert [] + Incoming(s) == Incoming(s);
      if Fetched(s).payload.Some? {
        TakeSome(Fetched(s).payload.value, Incoming(Fetched(s).rest), n);
      }
    }
  }

  lemma TakeSome(p: Bytes, rest: Bytes, n: nat)
    requires p != []
    ensures var k := Least(n, |p|);
      p + rest == p[..k] + (p[k..] + rest) && |p[..k]| <= n && (n > 0 ==> p[..k] != [])
  {
  }

  // Under any buffer sizes the reads return a beginning of the incoming data, what is left stays to be read,
  // and as many reads as there are bytes return all of it.
  lemma {:induction false} ReadsDeliver(buffered: Bytes, s: Bytes, sizes: seq<nat>)
    ensures var (got, b, s') := ReadRun(buffered, s, sizes);
      && buffered + Incoming(s) == got + (b + Incoming(s'))
      && Closed(s) == Closed(s')
      && ((forall i :: 0 <= i < |sizes| ==> sizes[i] > 0) && |sizes| >= |buffered + Incoming(s)| ==>
            b + Incoming(s') == [])
    decreases |sizes|
  {
    hide Incoming, Closed, ReadOnce;
    if sizes != [] {
      OneRead(buffered, s, sizes[0]);
      var (result, b, s', _) := ReadOnce(buffered, s, sizes[0]);
      if result.Got? {
        ReadsDeliver(b, s', sizes[1..]);
        var (got, b', s'') := ReadRun(b, s', sizes[1..]);
        assert result.bytes + (got + (b' + Incoming(s''))) == (result.bytes + got) + (b' + Incoming(s''));
      }
    }
  }

  // End to end: the client reads exactly the bytes that came in on the server's TCP side, then the end of the stream.
  lemma ServerToClient(arrived: seq<Payload>, tail: Bytes, sizes: seq<nat>, n: nat)
    requires forall i :: 0 <= i < |sizes| ==> sizes[i] > 0
    requires |sizes| >= |Flatten(arrived)|
    ensures var (got, b, s) := ReadRun([], PrintAll(Relayed(arrived)) + tail, sizes);
      got == Flatten(arrived) && (n > 0 ==> ReadOnce(b, s, n).0 == EndOfFile)
  {
    hide Incoming, Closed, ReadOnce, Relayed, PrintAll, ReadRun;
    RelayedData(arrived);
    IncomingFrames(Relayed(arrived), tail);
    ReadsDeliver([], PrintAll(Relayed(arrived)) + tail, sizes);
    var (got, b, s) := ReadRun([], PrintAll(Relayed(arrived)) + tail, sizes);
    OneRead(b, s, n);
    var all := Incoming(PrintAll(Relayed(arrived)) + tail);
    assert [] + all == all && got + (b + Incoming(s)) == got + [] == got;
  }

  // The data of whole frames, when the stream breaks off inside the next one.
  lemma {:induction false} IncomingCut(xs: seq<Sent>, last: Sent, n: nat)
    requires Fits(xs) && forall i :: 0 <= i < |xs| ==> xs[i].frame.opcode != CLOSE
    requires Printable(last) && n < |Printed(last.frame, last.key)|
    ensures var s := PrintAll(xs) + Printed(last.frame, last.key)[..n]; Incoming(s) == Data(xs) && !Closed(s)
  {
    hide Parse, Printed;
    var cut := Printed(last.frame, last.key)[..n];
    if xs == [] {
      assert PrintAll(xs) + cut == cut;
      ParseCut(last.frame, last.key, n);
    } else {
      var f, key, rest := xs[0].frame, xs[0].key, PrintAll(xs[1..]) + cut;
      assert PrintAll(xs) + cut == Printed(f, key) + rest;
      ParsePrinted(f, key, rest);
      IncomingStep(PrintAll(xs) + cut);
      IncomingCut(xs[1..], last, n);
    }
  }

  // However a stream without a close frame breaks off, the client reads exactly the data of its whole frames,
  // pings among them or not, and then an error.
  lemma CutStreamToClient(xs: seq<Sent>, last: Sent, n: nat, sizes: seq<nat>, m: nat)
    requires Fits(xs) && forall i :: 0 <= i < |xs| ==> xs[i].frame.opcode != CLOSE
    requires Printable(last) && n < |Printed(last.frame, last.key)|
    requires (forall i :: 0 <= i < |sizes| ==> sizes[i] > 0) && |sizes| >= |Data(xs)|
    ensures var (got, b, s) := ReadRun([], PrintAll(xs) + Printed(last.frame, last.key)[..n], sizes);
      got == Data(xs) && (m > 0 ==> ReadOnce(b, s, m).0 == Failed)
  {
    hide Incoming, Closed, ReadOnce, PrintAll, ReadRun, Printed, Data;
    var stream := PrintAll(xs) + Printed(last.frame, last.key)[..n];
    IncomingCut(xs, last, n);
    ReadsDeliver([], stream, sizes);
    var (got, b, s) := ReadRun([], stream, sizes);
    OneRead(b, s, m);
    var all := Incoming(stream);
    assert [] + all == all && got + (b + Incoming(s)) == got + [] == got;
  }

  // What one frame does, by its opcode: 0 to 2 are data, 8 closes, 9 is answered by the server, others pass unnoticed.
  lemma FrameKinds(f: Frame, key: Option<Key>, rest: Bytes)
    requires Printable(Sent(f, key))
    ensures 0 <= PONG == 10
    ensures var s := Printed(f, key) + rest;
      && Served(s) == (if f.opcode <= 2 then f.payload + Served(rest)
                       else if f.opcode == 8 then []
                       else if f.opcode == 9 then Printed(Frame(PONG, f.payload), None) + Served(rest)
                       else Served(rest))
      && Incoming(s) == (if f.opcode <= 2 then f.payload + Incoming(rest)
                         else if f.opcode == 8 then []
                         else Incoming(rest))
      && Closed(s) == (f.opcode == 8 || Closed(rest))
  {
    hide Parse, Printed, Served, Incoming, Closed;
    ParsePrinted(f, key, rest);
    var s := Printed(f, key) + rest;
    ServedStep(s);
    IncomingStep(s);
    assert [] + Incoming(rest) == Incoming(rest);
  }

  // The payloads of the ping frames, in order.
  function PingPayloads(xs: seq<Sent>): seq<Payload>
    requires Fits(xs)
  {
    if xs == [] then []
    else (if xs[0].frame.opcode == 9 then [xs[0].frame.payload] else []) + PingPayloads(xs[1..])
  }

  // Neither closes the stream nor carries data.
  predicate Passing(x: Sent) {
    x.frame.opcode != 8 && (x.frame.opcode <= 2 ==> x.frame.payload == [])
  }

  // One Read past any such frames takes the first that closes or carries data, and answers just the pings before it.
  lemma {:induction false} ReadAnswersPings(xs: seq<Sent>, next: Sent, tail: Bytes)
    requires Fits(xs) && Printable(next) && !Passing(next)
    requires forall i :: 0 <= i < |xs| ==> Passing(xs[i])
    ensures Fetched(PrintAll(xs) + (Printed(next.frame, next.key) + tail)) ==
      Fetch(if next.frame.opcode == 8 then None else Some(next.frame.payload), next.frame.opcode == 8, tail,
        PingPayloads(xs))
  {
    hide Parse, Printed;
    var more := Printed(next.frame, next.key) + tail;
    if xs == [] {
      assert PrintAll(xs) + more == more;
      ParsePrinted(next.frame, next.key, tail);
      FetchedStep(more);
    } else {
      var f, key, rest := xs[0].frame, xs[0].key, PrintAll(xs[1..]) + more;
      assert PrintAll(xs) + more == Printed(f, key) + rest;
      ParsePrinted(f, key, rest);
      FetchedStep(Printed(f, key) + rest);
      assert Passing(xs[0]);
      ReadAnswersPings(xs[1..], next, tail);
      assert f.opcode != 9 ==> [] + PingPayloads(xs[1..]) == PingPayloads(xs[1..]);
    }
  }

  // What kind of frame each end puts on the wire, by its first byte; the close frame, byte by byte.
  lemma FirstBytes(b: Payload, key: Key, keys: nat -> Key, k: nat)
    ensures b != [] ==> var s := PrintAll(Writes([b], keys, k)); s != [] && s[0] == 0x82
    ensures b != [] ==> var s := PrintAll(Relayed([b])); s != [] && s[0] == 0x82
    ensures Printed(Frame(PONG, b), Some(key))[..1] == [0x8A]
    ensures PrintAll(Relayed([])) == [0x88, 2, 0x03, 0xE8]
  {
    hide Printed;
    RelayedEnd([]);
    CloseBytes();
    FrameBytes(Frame(PONG, b), Some(key));
    if b != [] {
      FrameBytes(Frame(BINARY, b), Some(keys(k)));
      FrameBytes(Frame(BINARY, b), None);
      assert Writes([b], keys, k)[0] == Sent(Frame(BINARY, b), Some(keys(k)));
      assert Relayed([b])[0] == Sent(Frame(BINARY, b), None);
    }
  }

  lemma CloseBytes()
    ensures Printed(Frame(8, [0x03, 0xE8]), None) == [0x88, 2, 0x03, 0xE8]
  {
    var s := Printed(Frame(8, [0x03, 0xE8]), None);
    FrameBytes(Frame(8, [0x03, 0xE8]), None);
    hide Printed;
    assert s == [s[0], s[1]] + s[2..];
  }
}
