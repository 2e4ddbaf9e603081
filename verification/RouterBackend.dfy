/** A backend connection of dnsrouter/router.go: transaction ids, replies and cleanup of one goroutine at a time. */
module RouterBackend {
  import opened Bits
  import opened Options

  type uint16 = n: nat | n < 0x1_0000

  datatype PendingQuery = PendingQuery(clientAddr: nat, originalTxID: uint16, timestamp: int)

  const SECOND := 1_000_000_000

  // The id that the k-th next increment of the counter gives.
  function Candidate(counter: nat, k: nat): uint16 {
    (counter + k) % 0x1_0000
  }

  ghost function AllIds(n: nat): (r: set<uint16>)
    requires n <= 0x1_0000
    ensures forall id: uint16 :: id in r <==> id < n
    ensures |r| == n
  {
    if n == 0 then {} else AllIds(n - 1) + {n - 1}
  }

  // The table has room exactly when some id is free.
  lemma RoomIffFree(ids: set<uint16>)
    ensures |ids| < 0x1_0000 <==> exists id: uint16 :: id !in ids
  {
    var all := AllIds(0x1_0000);
    assert ids <= all;
    assert all == ids + (all - ids);
    if |ids| < 0x1_0000 {
      assert all - ids != {};
      var id :| id in all - ids;
    } else {
      assert all - ids == {};
      forall id: uint16
        ensures id in ids
      {
        assert id in all;
      }
    }
  }

  // 65536 consecutive counter values give every id.
  lemma CandidatesCover(counter: nat, id: uint16)
    ensures exists k: nat :: 1 <= k <= 0x1_0000 && Candidate(counter, k) == id
  {
    var c := counter % 0x1_0000;
    var k: nat := if id > c then id - c else id + 0x1_0000 - c;
    assert counter == 0x1_0000 * (counter / 0x1_0000) + c;
    assert Candidate(counter, k) == id;
  }

  // The increment k is the first to give an id that is not taken.
  ghost predicate FirstFree(counter: nat, k: nat, pending: map<uint16, PendingQuery>) {
    && 1 <= k <= 0x1_0000 && Candidate(counter, k) !in pending
    && forall j: nat :: 1 <= j < k ==> Candidate(counter, j) in pending
  }

  // The wrap-around of the 32-bit counter does not disturb its low half.
  lemma CandidateNext(start: nat, i: nat, c: nat)
    requires c % 0x1_0000 == Candidate(start, i)
    ensures (c + 1) % 0x1_0000_0000 % 0x1_0000 == Candidate(start, i + 1)
  {
    WrapAround(c + 1, 0x1_0000, 0x1_0000);
    ModNext(c, 0x1_0000);
    ModNext(start + i, 0x1_0000);
  }

  class BackendConn {
    var pending: map<uint16, PendingQuery>
    var nextTxID: nat      // a uint32

    ghost predicate Valid()
      reads this
    {
      nextTxID < 0x1_0000_0000
    }

    constructor ()
      ensures Valid() && pending == map[] && nextTxID == 0
    {
      pending, nextTxID := map[], 0;
    }

    // The allocation loop of handleQuery, without interference.
    method Allocate(pq: PendingQuery) returns (stored: bool, serverTxID: uint16)
      requires Valid()
      modifies this
      ensures Valid()
      ensures stored <==> |old(pending)| < 0x1_0000
      ensures stored ==> serverTxID !in old(pending) && pending == old(pending)[serverTxID := pq]
      ensures stored ==>
        exists k :: FirstFree(old(nextTxID), k, old(pending)) && serverTxID == Candidate(old(nextTxID), k)
      ensures !stored ==> pending == old(pending)
    {
      ghost var start := nextTxID;
      RoomIffFree(pending.Keys);
      stored, serverTxID := false, 0;
      for i := 0 to 0x1_0000
        invariant Valid() && pending == old(pending) && !stored
        invariant nextTxID % 0x1_0000 == Candidate(start, i)
        invariant forall j: nat :: 1 <= j <= i ==> Candidate(start, j) in pending
      {
        CandidateNext(start, i, nextTxID);
        nextTxID := (nextTxID + 1) % 0x1_0000_0000;
        var candidate: uint16 := nextTxID % 0x1_0000;
        if candidate !in pending {
          assert FirstFree(start, i + 1, pending);
          pending := pending[candidate := pq];
          return true, candidate;
        }
      }
      forall id: uint16
        ensures id in pending
      {
        CandidatesCover(start, id);
      }
    }

    // binary.BigEndian.PutUint16 on the first two bytes.
    method PutTxID(packet: array<byte>, id: uint16)
      requires packet.Length >= 2
      modifies packet
      ensures packet[..] == Be16(id) + old(packet[2..])
    {
      packet[0], packet[1] := id / 256, id % 256;
    }

    // handleQuery from the allocation on; written says whether the backend socket took the packet.
    method SendQuery(packet: array<byte>, clientAddr: nat, now: int, written: bool) returns (sent: bool)
      requires Valid()
      modifies this, packet
      ensures Valid() && sent == (packet.Length >= 2 && |old(pending)| < 0x1_0000 && written)
      ensures sent ==>
        var id := U16(packet[..], 0);
        && id !in old(pending) && packet[2..] == old(packet[2..])
        && pending == old(pending)[id := PendingQuery(clientAddr, U16(old(packet[..]), 0), now)]
      ensures !sent ==> pending == old(pending)
    {
      if packet.Length < 2 {
        return false;
      }
      var pq := PendingQuery(clientAddr, U16(packet[..], 0), now);
      var stored, serverTxID := Allocate(pq);
      if !stored {
        return false;
      }
      PutTxID(packet, serverTxID);
      assert packet[..][..2] == Be16(serverTxID);
      if !written {
        pending := pending - {serverTxID};
      }
      return written;
    }

    // One turn of readBackendResponses on the n bytes read into buf.
    method HandleReply(buf: array<byte>, n: nat) returns (client: Option<nat>)
      requires Valid() && n <= buf.Length
      modifies this`pending, buf
      ensures Valid() && client.Some? == (n >= 2 && U16(old(buf[..]), 0) in old(pending))
      ensures client.Some? ==>
        var id := U16(old(buf[..]), 0);
        && client == Some(old(pending)[id].clientAddr) && pending == old(pending) - {id}
        && buf[..] == Be16(old(pending)[id].originalTxID) + old(buf[2..])
      ensures client.None? ==> pending == old(pending) && buf[..] == old(buf[..])
    {
      if n < 2 {
        return None;
      }
      var serverTxID := U16(buf[..], 0);
      if serverTxID !in pending {
        return None;
      }
      var pq := pending[serverTxID];
      pending := pending - {serverTxID};
      PutTxID(buf, pq.originalTxID);
      return Some(pq.clientAddr);
    }

    // One sweep of cleanPending, without interference.
    method CleanPending(now: int)
      requires Valid()
      modifies this`pending
      ensures Valid()
      ensures pending ==
        map id | id in old(pending) && now - old(pending)[id].timestamp <= 10 * SECOND :: old(pending)[id]
    {
      var keys := pending.Keys;
      while keys != {}
        invariant keys <= old(pending).Keys
        invariant forall id :: id in pending <==>
          id in old(pending) && (id in keys || now - old(pending)[id].timestamp <= 10 * SECOND)
        invariant forall id :: id in pending ==> pending[id] == old(pending)[id]
        decreases |keys|
      {
        var key :| key in keys;
        keys := keys - {key};
        if now - pending[key].timestamp > 10 * SECOND {
          pending := pending - {key};
        }
      }
    }
  }

  // A query answered under its id leaves the table as it was and comes back under the client's own id.
  method Echo(conn: BackendConn, packet: array<byte>, clientAddr: nat, now: int) returns (client: Option<nat>)
    requires conn.Valid() && packet.Length >= 2 && |conn.pending| < 0x1_0000
    modifies conn, packet
    ensures conn.Valid() && conn.pending == old(conn.pending)
    ensures client == Some(clientAddr) && packet[..] == old(packet[..])
  {
    var sent := conn.SendQuery(packet, clientAddr, now, true);
    client := conn.HandleReply(packet, packet.Length);
  }
}
