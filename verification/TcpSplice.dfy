/** The backward half of a TCP session (hev-socks5-session-tcp.c): socket to ring buffer to lwIP, by reference. */
module TcpSplice {
  import opened Bits
  import opened RingBuffer

  // What readv would report: no data yet, an error, the end of the stream, or bytes.
  datatype ReadOutcome = Again | Failed | Ended | Data(bytes: Bytes)

  // readv fills the stretches in order.
  method Scatter(data: array<byte>, iov: seq<Iov>, bytes: Bytes)
    requires iov != [] && WellPlaced(iov, data.Length)
    requires |bytes| <= |IovCells(iov)|
    modifies data
    ensures forall c :: 0 <= c < data.Length && c !in IovCells(iov) ==> data[c] == old(data[c])
    ensures Inside(IovCells(iov), data.Length) && Load(data[..], IovCells(iov)[..|bytes|]) == bytes
  {
    hide *;
    ghost var cells := IovCells(iov);
    StretchCells(iov, data.Length);
    var a := iov[0];
    var n := if |bytes| <= a.len then |bytes| else a.len;
    Place(data, a.base, bytes[..n]);
    if n < |bytes| {
      Place(data, iov[1].base, bytes[n..]);
    }
    forall k | 0 <= k < |bytes|
      ensures data[cells[k]] == bytes[k]
    {
      if k < n {
        assert cells[k] == a.base + k && bytes[..n][k] == bytes[k];
      } else {
        assert cells[k] == iov[1].base + (k - n) && bytes[n..][k - n] == bytes[k];
      }
    }
    Loaded(data[..], cells, bytes);
    forall c | 0 <= c < data.Length
      ensures c in cells || data[c] == old(data[c])
    {
      if a.base <= c < a.base + n {
        assert cells[c - a.base] == c;
      } else if n < |bytes| && iov[1].base <= c < iov[1].base + (|bytes| - n) {
        assert cells[c - iov[1].base + n] == c;
      }
    }
  }

  method Place(data: array<byte>, base: nat, bytes: Bytes)
    requires base + |bytes| <= data.Length
    modifies data
    ensures forall k :: 0 <= k < |bytes| ==> data[base + k] == bytes[k]
    ensures forall c :: 0 <= c < data.Length && !(base <= c < base + |bytes|) ==> data[c] == old(data[c])
  {
    forall k | 0 <= k < |bytes| {
      data[base + k] := bytes[k];
    }
  }

  // Which cells the stretches are.
  lemma StretchCells(iov: seq<Iov>, max: nat)
    requires iov != [] && WellPlaced(iov, max)
    ensures var cells, a := IovCells(iov), iov[0];
      && a.base + a.len <= max && a.len <= |cells| && (a.len < |cells| ==> |iov| == 2)
      && (|iov| == 2 ==> |cells| == a.len + iov[1].len && iov[1].base + iov[1].len <= a.base)
      && (forall k :: 0 <= k < a.len ==> cells[k] == a.base + k)
      && (forall k :: a.len <= k < |cells| ==> |iov| == 2 && cells[k] == iov[1].base + (k - a.len))
      && Inside(cells, max)
  {
    if |iov| == 2 {
      assert iov[1..] == [iov[1]] && IovCells(iov[1..]) == Cells(iov[1].base, iov[1].len, max);
    } else {
      assert iov[1..] == [] && IovCells(iov[1..]) == [];
    }
  }

  lemma Loaded(d: Bytes, cells: seq<nat>, bytes: Bytes)
    requires Inside(cells, |d|) && |bytes| <= |cells|
    requires forall k :: 0 <= k < |bytes| ==> cells[k] < |d| && d[cells[k]] == bytes[k]
    ensures Inside(cells[..|bytes|], |d|) && Load(d, cells[..|bytes|]) == bytes
  {
  }

  // readv into the free stretches, then hev_ring_buffer_write_finish.
  method Receive(buffer: RingBuffer, iov: seq<Iov>, bytes: Bytes)
    requires buffer.Valid() && iov != [] && WellPlaced(iov, buffer.maxSize)
    requires IovCells(iov) == buffer.FreeCells() && |bytes| <= buffer.maxSize - buffer.useSize
    modifies buffer, buffer.data
    ensures buffer.Valid() && buffer.useSize == old(buffer.useSize) + |bytes| && buffer.rp == old(buffer.rp)
    ensures buffer.InFlightCells() == old(buffer.InFlightCells())
    ensures buffer.InFlight() == old(buffer.InFlight())
    ensures buffer.Unread() == old(buffer.Unread()) + bytes
  {
    buffer.Partition();
    ghost var d := buffer.data[..];
    hide Load, Cells, IovCells, Wrap;
    Scatter(buffer.data, iov, bytes);
    LoadFrame(d, buffer.data[..], buffer.InFlightCells(), buffer.FreeCells());
    LoadFrame(d, buffer.data[..], buffer.UnreadCells(), buffer.FreeCells());
    buffer.WriteFinish(|bytes|);
  }

  // Cells outside a rewritten set hold what they held.
  lemma LoadFrame(d: Bytes, d': Bytes, cells: seq<nat>, written: seq<nat>)
    requires |d| == |d'| && Inside(cells, |d|)
    requires forall c: nat :: c < |d| && c in written ==> c !in cells
    requires forall c: nat :: c < |d| && c !in written ==> d'[c] == d[c]
    ensures Load(d', cells) == Load(d, cells)
  {
    forall k | 0 <= k < |cells|
      ensures d'[cells[k]] == d[cells[k]]
    {
    }
  }

  class TcpSplice {
    const buffer: RingBuffer
    var pcb: bool                      // whether the lwIP side is still there
    ghost var received: Bytes          // everything the socket delivered
    ghost var handed: seq<nat>         // the cells given to tcp_write, by reference, in order
    ghost var acked: nat               // how many of them lwIP released
    ghost var failed: bool             // a tcp_write refused bytes

    // What is not acknowledged is in the buffer, in the order it came in. Until a refusal, the bytes handed over are
    // a prefix of it; after one, the bytes refused count as handed over in the buffer but not on the lwIP side.
    ghost predicate Valid()
      reads this, buffer, buffer.data
    {
      && buffer.Valid()
      && acked <= |handed| <= |received|
      && buffer.useSize == |received| - acked
      && (failed ==> |handed| < |received| && buffer.rdaSize == 0 && buffer.InFlight() == received[acked..])
      && (!failed ==>
            && handed[acked..] == buffer.InFlightCells()
            && buffer.InFlight() == received[acked..|handed|]
            && buffer.Unread() == received[|handed|..])
    }

    constructor (size: nat)
      ensures Valid() && fresh(buffer) && fresh(buffer.data) && pcb && !failed
      ensures received == [] && handed == [] && acked == 0
    {
      buffer := new RingBuffer(size);
      pcb, received, handed, acked, failed := true, [], [], 0, false;
    }

    // Whatever lwIP still refers to is what the socket delivered at that place of the stream.
    lemma HandedUnchanged(k: nat)
      requires Valid() && !failed && acked <= k < |handed|
      ensures handed[k] < buffer.data.Length && buffer.data[handed[k]] == received[k]
    {
      assert handed[k] == buffer.InFlightCells()[k - acked];
      assert received[acked..|handed|][k - acked] == received[k];
    }

    // The drain loop ends exactly when every received byte was acknowledged.
    lemma Drained()
      requires Valid()
      ensures buffer.useSize == 0 <==> acked == |handed| == |received|
      ensures failed ==> buffer.useSize > 0
    {
    }

    // What readv can deliver: at most the room there is.
    predicate Deliverable(socket: ReadOutcome)
      reads this, buffer
    {
      socket.Data? ==>
        0 < |socket.bytes| && (buffer.useSize < buffer.maxSize ==> |socket.bytes| <= buffer.maxSize - buffer.useSize)
    }

    // What this call takes in: nothing when the buffer is full.
    ghost function Taken(socket: ReadOutcome): Bytes
      reads this, buffer
    {
      if socket.Data? && buffer.useSize < buffer.maxSize then socket.bytes else []
    }

    // The first half of tcp_splice_b.
    method ReadSocket(socket: ReadOutcome) returns (res: int)
      requires Valid() && !failed && Deliverable(socket)
      modifies this`received, buffer, buffer.data
      ensures Valid() && buffer.rp == old(buffer.rp)
      ensures received == old(received) + old(Taken(socket))
      ensures res == if old(buffer.useSize) == buffer.maxSize then 0
        else match socket case Data(_) => 1 case Again => 0 case _ => -1
    {
      var iov := buffer.Writing();
      if iov == [] {
        return 0;
      }
      match socket
      case Again =>
        res := 0;
      case Data(bytes) =>
        Receive(buffer, iov, bytes);
        received := received + bytes;
        res := 1;
      case _ =>
        res := -1;
    }

    // The tcp_write loop: every stretch is given away, by reference, in order; s counts those refused too.
    method WriteStretches(iov: seq<Iov>, wrote: seq<bool>) returns (err: bool, s: nat)
      requires |iov| <= 2 == |wrote| && forall i :: 0 <= i < |iov| ==> 0 < iov[i].len
      modifies this`handed
      ensures s == |IovCells(iov)| && old(handed) <= handed
      ensures if err then |handed| < |old(handed)| + s else handed == old(handed) + IovCells(iov)
      ensures err <==> (|iov| > 0 && !wrote[0]) || (|iov| > 1 && !wrote[1])
    {
      hide IovCells;
      s, err := 0, false;
      IovEmpty();
      for i := 0 to |iov|
        invariant s == |IovCells(iov[..i])| && old(handed) <= handed
        invariant if err then |handed| < |old(handed)| + s else handed == old(handed) + IovCells(iov[..i])
        invariant err <==> (i > 0 && !wrote[0]) || (i > 1 && !wrote[1])
      {
        IovStep(iov, i);
        if wrote[i] {
          handed := handed + IovCells([iov[i]]);
        } else {
          err := true;
        }
        s := s + iov[i].len;
      }
      assert iov[..|iov|] == iov;
    }

    // Handing the unread bytes over; read_finish counts all of them, refused or not.
    method WriteOut(iov: seq<Iov>, wrote: seq<bool>) returns (err: bool)
      requires Valid() && !failed && |iov| <= 2 == |wrote|
      requires buffer.rdaSize > 0 && WellPlaced(iov, buffer.maxSize) && IovCells(iov) == buffer.UnreadCells()
      modifies this`handed, this`failed, buffer`rp, buffer`rdaSize
      ensures Valid() && buffer.useSize == old(buffer.useSize) && failed == err
      ensures err <==> (|iov| > 0 && !wrote[0]) || (|iov| > 1 && !wrote[1])
      ensures old(handed) <= handed && (!err ==> |handed| == |received|)
    {
      hide Load, Cells, IovCells, Wrap, Inside;
      ghost var before := handed;
      var s;
      err, s := WriteStretches(iov, wrote);
      assert s == buffer.rdaSize;
      Halves(received, acked, |before|);
      ghost var unread, cells := buffer.Unread(), buffer.UnreadCells();
      assert unread[..s] == unread && cells[..s] == cells;
      failed := err;
      buffer.ReadFinish(s);
      if !err {
        assert handed[acked..] == before[acked..] + cells;
        assert received[acked..|handed|] == received[acked..];
      }
    }

    static lemma Halves<T>(s: seq<T>, a: nat, b: nat)
      requires a <= b <= |s|
      ensures s[a..] == s[a..b] + s[b..]
    {
    }

    // Whether lwIP would refuse a stretch of the unread bytes: there are two when they pass the end of the buffer.
    ghost predicate Refused(unread: nat, wrote: seq<bool>)
      requires |wrote| == 2
      reads this, buffer
    {
      unread > 0 && (!wrote[0] || (buffer.rp + unread > buffer.maxSize && !wrote[1]))
    }

    // The second half of tcp_splice_b. wrote says which tcp_write calls succeed, output whether tcp_output does;
    // shut reports tcp_shutdown.
    method PushToLwip(was: int, wrote: seq<bool>, output: bool) returns (res: int, shut: bool)
      requires Valid() && !failed && |wrote| == 2 && (was == 1 ==> buffer.rdaSize > 0)
      modifies this`handed, this`failed, buffer`rp, buffer`rdaSize
      ensures Valid() && buffer.useSize == old(buffer.useSize)
      ensures failed <==> pcb && old(Refused(buffer.rdaSize, wrote))
      ensures old(handed) <= handed && (!failed ==> |handed| == if pcb then |received| else |old(handed)|)
      ensures shut <==> pcb && old(buffer.rdaSize) == 0 && was < 0
      ensures res == if !pcb || failed then -1 else if old(buffer.rdaSize) > 0 then (if output then 1 else -1) else was
    {
      hide Load, Cells, IovCells, Wrap, Inside;
      res, shut := was, false;
      var err := false;
      if pcb {
        var iov := buffer.Reading();
        if iov != [] {
          err := WriteOut(iov, wrote);
          err := err || !output;
          res := 1;
        } else if res < 0 {
          shut := true;
        }
      }
      if !pcb || err {
        res := -1;
      }
    }

    // tcp_splice_b
    method SpliceBackward(socket: ReadOutcome, wrote: seq<bool>, output: bool) returns (res: int, shut: bool)
      requires Valid() && !failed && |wrote| == 2 && Deliverable(socket)
      modifies this`received, this`handed, this`failed, buffer, buffer.data
      ensures Valid() && received == old(received) + old(Taken(socket))
      ensures old(handed) <= handed && (!failed && pcb ==> |handed| == |received|)
      ensures failed <==> pcb && old(Refused(|received + Taken(socket)| - |handed|, wrote))
      ensures shut <==>
        && pcb && |received| == |old(handed)| && old(buffer.useSize) < buffer.maxSize
        && (socket.Ended? || socket.Failed?)
      ensures res == 1 <==> pcb && !failed && output && |received| > |old(handed)|
      ensures res == 0 <==> pcb && !shut && |received| == |old(handed)|
      ensures -1 <= res <= 1
    {
      res := ReadSocket(socket);
      res, shut := PushToLwip(res, wrote, output);
    }

    // tcp_sent_handler: lwIP releases bytes it was given.
    method Sent(len: nat)
      requires Valid() && len <= |handed| - acked
      modifies this`acked, buffer`rp, buffer`wp, buffer`useSize
      ensures Valid() && acked == old(acked) + len
    {
      buffer.ReadRelease(len);
      acked := acked + len;
    }

    // tcp_err_handler
    method Error()
      requires Valid()
      modifies this`pcb
      ensures Valid() && !pcb
    {
      pcb := false;
    }

    // The loop at the end of the session: with the connection still there, it ends when everything is acknowledged.
    // After a refused tcp_write it cannot end that way.
    method Drain(wakeups: seq<Wakeup>) returns (drained: bool)
      requires Valid() && Released(wakeups) <= |handed| - acked
      modifies this`acked, this`pcb, buffer`rp, buffer`wp, buffer`useSize
      ensures Valid()
      ensures drained ==> !failed && acked == |handed| == |received|
      ensures !drained && pcb && (forall i :: 0 <= i < |wakeups| ==> wakeups[i].Acked?) ==>
        acked == old(acked) + Released(wakeups) && acked < |received|
    {
      var i := 0;
      assert wakeups[0..] == wakeups;
      while pcb
        invariant 0 <= i <= |wakeups| && Valid() && Released(wakeups[i..]) <= |handed| - acked
        invariant pcb && (forall j :: 0 <= j < i ==> wakeups[j].Acked?) ==>
          acked + Released(wakeups[i..]) == old(acked) + Released(wakeups)
        decreases |wakeups| - i
      {
        if buffer.useSize == 0 {
          return true;
        }
        if i == |wakeups| {
          return false;
        }
        assert wakeups[i..][1..] == wakeups[i + 1..];
        match wakeups[i] {
          case Acked(len) => Sent(len);
          case Broken => Error();
          case Killed => return false;
        }
        i := i + 1;
      }
      drained := false;
    }
  }

  // What ends a wait of the session task: a release by lwIP, the loss of its connection, the end of the session.
  datatype Wakeup = Acked(len: nat) | Broken | Killed

  function Released(wakeups: seq<Wakeup>): nat {
    if wakeups == [] then 0 else (if wakeups[0].Acked? then wakeups[0].len else 0) + Released(wakeups[1..])
  }

  lemma IovEmpty()
    ensures IovCells([]) == []
  {
  }

  lemma IovStep(iov: seq<Iov>, i: nat)
    requires i < |iov| <= 2
    ensures IovCells(iov[..i + 1]) == IovCells(iov[..i]) + IovCells([iov[i]])
    ensures |IovCells([iov[i]])| == iov[i].len
  {
    assert iov[..i + 1][1..] == iov[1..i + 1];
    if i == 1 {
      assert iov[..1][1..] == [] && iov[1..2] == [iov[1]] && iov[1..2][1..] == [];
    }
  }
}
