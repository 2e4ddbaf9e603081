/** What the probe's two ends, and the router, find in packets whose questions and records are given one by one. */
module ProbeWire {
  import opened Bits
  import opened DnsText
  import opened DnsNames
  import opened DnsWire
  import opened DomainRoutes
  import opened Options
  import opened TxtRecord
  import opened ProbeServer

  lemma {:induction false} QuestionsSkipped(q: Bytes, off: nat, asks: seq<Ask>)
    requires AllAskable(asks) && Holds(q, off, Section(asks))
    ensures AfterQuestions(q, off, |asks|) == off + |Section(asks)|
    decreases |asks|
  {
    hide OnWire, Askable, Skip;
    if asks != [] {
      assert Askable(asks[0]) && AllAskable(asks[1..]);
      HoldsSplit(q, off, OnWire(asks[0]), Section(asks[1..]));
      AskSkipped(q, off, asks[0]);
      QuestionsSkipped(q, off + |OnWire(asks[0])|, asks[1..]);
    }
  }

  lemma AskSkipped(q: Bytes, off: nat, a: Ask)
    requires Askable(a) && Holds(q, off, OnWire(a))
    ensures off < |q| && Skip(q, off).0 + 4 == off + |OnWire(a)|
  {
    hide Wire, WellFormed, Skip;
    var name, t, c := Wire(a.labels) + [0], Be16(a.qtype), Be16(a.qclass);
    HoldsSplit(q, off, name + t, c);
    HoldsSplit(q, off, name, t);
    SkipPastName(q, off, a.labels, [0]);
  }

  lemma {:induction false} RecordsSkipped(q: Bytes, off: nat, rs: seq<Record>)
    requires AllWritable(rs) && Holds(q, off, Records(rs))
    ensures SkipRecords(q, off, |rs|) == Some(off + |Records(rs)|)
    decreases |rs|
  {
    hide RecordBytes, Writable, Skip;
    if rs != [] {
      assert Writable(rs[0]) && AllWritable(rs[1..]);
      HoldsSplit(q, off, RecordBytes(rs[0]), Records(rs[1..]));
      var end := RecordFields(q, off, rs[0]);
      RecordsSkipped(q, off + |RecordBytes(rs[0])|, rs[1..]);
    }
  }

  // The class field of the first OPT record holds the payload size; 0 when there is none.
  ghost function FirstOpt(rs: seq<Record>): nat {
    if rs == [] then 0 else if rs[0].rtype == 41 then rs[0].rclass else FirstOpt(rs[1..])
  }

  // The data of the first TXT record that has any.
  ghost function FirstText(rs: seq<Record>): Bytes {
    if rs == [] then []
    else if rs[0].rtype == 16 && rs[0].rdata != [] then Strings(rs[0].rdata)
    else FirstText(rs[1..])
  }

  lemma {:induction false} OptFound(q: Bytes, off: nat, rs: seq<Record>)
    requires AllWritable(rs) && Holds(q, off, Records(rs))
    ensures FindOpt(q, off, |rs|) == FirstOpt(rs)
    decreases |rs|
  {
    hide RecordBytes, Writable, Skip;
    if rs != [] {
      assert Writable(rs[0]) && AllWritable(rs[1..]);
      HoldsSplit(q, off, RecordBytes(rs[0]), Records(rs[1..]));
      var end := RecordFields(q, off, rs[0]);
      OptFound(q, off + |RecordBytes(rs[0])|, rs[1..]);
    }
  }

  lemma {:induction false} TextFound(q: Bytes, off: nat, rs: seq<Record>)
    requires AllWritable(rs) && Holds(q, off, Records(rs))
    ensures FirstTxt(q, off, |rs|) == FirstText(rs)
    decreases |rs|
  {
    hide RecordBytes, Writable, Skip, Strings;
    if rs != [] {
      assert Writable(rs[0]) && AllWritable(rs[1..]);
      HoldsSplit(q, off, RecordBytes(rs[0]), Records(rs[1..]));
      var end := RecordFields(q, off, rs[0]);
      TextFound(q, off + |RecordBytes(rs[0])|, rs[1..]);
    }
  }

  // Whatever questions and records of other types stand before it, the first TXT record with data is extracted.
  lemma ExtractedOnWire(resp: Bytes, asks: seq<Ask>, answers: seq<Record>)
    requires AllAskable(asks) && AllWritable(answers)
    requires 12 <= |resp| && U16(resp, 4) == |asks| && U16(resp, 6) == |answers|
    requires Holds(resp, 12, Section(asks) + Records(answers))
    ensures Extracted(resp) == FirstText(answers)
  {
    hide Section, Records, Askable, Writable, AfterQuestions, FirstTxt, FirstText, Holds, U16;
    HoldsSplit(resp, 12, Section(asks), Records(answers));
    QuestionsSkipped(resp, 12, asks);
    TextFound(resp, 12 + |Section(asks)|, answers);
  }

  // Answers and authorities are stepped over, and so are additional records before the first OPT record.
  lemma EdnsOnWire(packet: Bytes, qEnd: nat, before: seq<Record>, additional: seq<Record>)
    requires AllWritable(before) && AllWritable(additional)
    requires 12 <= |packet| && U16(packet, 6) + U16(packet, 8) == |before| && U16(packet, 10) == |additional|
    requires Holds(packet, qEnd, Records(before) + Records(additional))
    ensures EdnsSize(packet, qEnd) == FirstOpt(additional)
  {
    hide Records, Writable, SkipRecords, FindOpt, FirstOpt, Holds, U16;
    HoldsSplit(packet, qEnd, Records(before), Records(additional));
    RecordsSkipped(packet, qEnd, before);
    OptFound(packet, qEnd + |Records(before)|, additional);
  }

  lemma {:induction false} LabelsFound(packet: Bytes, off: nat, labels: seq<Bytes>, ending: Bytes)
    requires WellFormed(labels) && Holds(packet, off, Wire(labels) + ending)
    requires ending != [] && (ending[0] == 0 || ending[0] >= 0xC0)
    ensures QueryLabels(packet, off) == Some(labels)
    decreases |labels|
  {
    hide Wire, WellFormed, Holds;
    if labels == [] {
      WireNone(labels);
      assert Wire(labels) + ending == ending;
      HoldsByte(packet, off, ending, 0);
    } else {
      HoldsFirst(packet, off, labels, ending);
      LabelsFound(packet, off + 1 + |labels[0]|, labels[1..], ending);
      assert [labels[0]] + labels[1..] == labels;
    }
  }

  // The router reads a written name as its labels with a dot after each, up to a zero or a pointer.
  lemma DomainOnWire(packet: Bytes, labels: seq<Bytes>, ending: Bytes)
    requires 12 <= |packet| && WellFormed(labels) && Holds(packet, 12, Wire(labels) + ending)
    requires ending != [] && (ending[0] == 0 || ending[0] >= 0xC0)
    ensures Domain(packet) == Text(labels)
  {
    hide Wire, WellFormed, Holds, Text, Join, QueryLabels;
    LabelsFound(packet, 12, labels, ending);
    if labels == [] {
      NoText(labels);
    } else {
      TextIsJoin(labels);
    }
  }

  lemma NoText(labels: seq<Bytes>)
    requires labels == []
    ensures Text(labels) == []
  {
  }
}
