/** Questions and records as they stand in a packet (sections 4.1.2 and 4.1.3 of RFC 1035). */
module DnsWire {
  import opened Bits
  import opened DnsNames

  type uint16 = n: nat | n < 0x1_0000

  // A question as a client asks it: name, type and class (section 4.1.2 of RFC 1035).
  datatype Ask = Ask(labels: seq<Bytes>, qtype: uint16, qclass: uint16)

  ghost predicate Askable(a: Ask) {
    WellFormed(a.labels)
  }

  ghost predicate AllAskable(asks: seq<Ask>) {
    forall i :: 0 <= i < |asks| ==> Askable(asks[i])
  }

  function OnWire(a: Ask): Bytes {
    Wire(a.labels) + [0] + Be16(a.qtype) + Be16(a.qclass)
  }

  function Section(asks: seq<Ask>): Bytes {
    if asks == [] then [] else OnWire(asks[0]) + Section(asks[1..])
  }

  type Rdata = b: Bytes | |b| < 0x1_0000

  // A record: its owner name ends in a zero or in a pointer.
  datatype Record = Record(owner: seq<Bytes>, ending: Bytes, rtype: uint16, rclass: uint16, ttl: Bytes, rdata: Rdata)

  ghost predicate Writable(r: Record) {
    && WellFormed(r.owner) && (r.ending == [0] || (|r.ending| == 2 && r.ending[0] >= 0xC0))
    && |r.ttl| == 4
  }

  ghost predicate AllWritable(rs: seq<Record>) {
    forall i :: 0 <= i < |rs| ==> Writable(rs[i])
  }

  function Fixed(r: Record): Bytes {
    Be16(r.rtype) + Be16(r.rclass) + r.ttl + Be16(|r.rdata|)
  }

  function RecordBytes(r: Record): Bytes {
    Wire(r.owner) + r.ending + (Fixed(r) + r.rdata)
  }

  function Records(rs: seq<Record>): Bytes {
    if rs == [] then [] else RecordBytes(rs[0]) + Records(rs[1..])
  }

  lemma TwoBytes(q: Bytes, off: nat, n: nat)
    requires n < 0x1_0000 && Holds(q, off, Be16(n))
    ensures off + 2 <= |q| && U16(q, off) == n
  {
    HoldsByte(q, off, Be16(n), 0);
    HoldsByte(q, off, Be16(n), 1);
  }

  lemma FixedFields(q: Bytes, off: nat, r: Record)
    requires Writable(r) && Holds(q, off, Fixed(r))
    ensures |Fixed(r)| == 10 && off + 10 <= |q|
    ensures U16(q, off) == r.rtype && U16(q, off + 2) == r.rclass && U16(q, off + 8) == |r.rdata|
  {
    hide Be16, Holds, U16;
    var t, c, n := Be16(r.rtype), Be16(r.rclass), Be16(|r.rdata|);
    HoldsSplit(q, off, t + c + r.ttl, n);
    HoldsSplit(q, off, t + c, r.ttl);
    HoldsSplit(q, off, t, c);
    TwoBytes(q, off, r.rtype);
    TwoBytes(q, off + 2, r.rclass);
    TwoBytes(q, off + 8, |r.rdata|);
  }

  // Where the fields of a record stand, past its owner name.
  lemma RecordFields(q: Bytes, off: nat, r: Record) returns (end: nat)
    requires Writable(r) && Holds(q, off, RecordBytes(r))
    ensures Skip(q, off) == (end, true) && off < end && end + 10 + |r.rdata| <= |q|
    ensures U16(q, end) == r.rtype && U16(q, end + 2) == r.rclass && U16(q, end + 8) == |r.rdata|
    ensures q[end + 10..end + 10 + |r.rdata|] == r.rdata
    ensures off + |RecordBytes(r)| == end + 10 + |r.rdata|
  {
    hide Wire, WellFormed, Skip, U16, Fixed;
    var name := Wire(r.owner) + r.ending;
    end := off + |name|;
    HoldsSplit(q, off, name, Fixed(r) + r.rdata);
    SkipPastName(q, off, r.owner, r.ending);
    HoldsSplit(q, end, Fixed(r), r.rdata);
    FixedFields(q, end, r);
  }
}
