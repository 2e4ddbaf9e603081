/** Requests as they come over the wire: which questions hev_mapped_dns_handle sees in them, and what it answers. */
module MappedDnsWire {
  import opened Bits
  import opened DnsText
  import opened DnsNames
  import opened DnsWire
  import opened NameTree
  import opened Options
  import opened MappedDnsReply
  import opened MappedDnsPromises
  import Lru = LruModel
  import M = MappedDns

  // How many of them are for an address in the Internet class.
  function AddressAsks(asks: seq<Ask>): (n: nat)
    ensures n <= |asks|
  {
    if asks == [] then 0
    else (if asks[0].qtype == 1 && asks[0].qclass == 1 then 1 else 0) + AddressAsks(asks[1..])
  }

  // The questions read from them, when they begin at off.
  function Seen(asks: seq<Ask>, off: nat): (r: seq<Question>)
    ensures |r| == |asks|
  {
    if asks == [] then []
    else
      var a := asks[0];
      [Question(off, a.labels, a.qtype == 1 && a.qclass == 1)] + Seen(asks[1..], off + |OnWire(a)|)
  }

  // A name on the wire is read label by label, up to its zero.
  lemma {:induction false} LabelsOnWire(q: Bytes, off: nat, labels: seq<Bytes>, more: Bytes)
    requires WellFormed(labels) && Holds(q, off, Wire(labels) + ([0] + more))
    ensures Labels(q, off) == Some((labels, off + |Wire(labels)|))
    decreases |labels|
  {
    hide Wire, WellFormed, Holds;
    if labels == [] {
      WireNone(labels);
      assert Wire(labels) + ([0] + more) == [0] + more;
      HoldsByte(q, off, [0] + more, 0);
    } else {
      HoldsFirst(q, off, labels, [0] + more);
      var next := off + 1 + |labels[0]|;
      LabelsOnWire(q, next, labels[1..], more);
      assert [labels[0]] + labels[1..] == labels;
    }
  }

  // A question on the wire is read with its name, and is wanted exactly when it asks for an IPv4 address.
  lemma QuestionOnWire(q: Bytes, off: nat, a: Ask)
    requires Askable(a) && Holds(q, off, OnWire(a))
    ensures OneQuestion(q, off) ==
      Some((Question(off, a.labels, a.qtype == 1 && a.qclass == 1), off + |Wire(a.labels)| + 5))
    ensures |OnWire(a)| == |Wire(a.labels)| + 5
  {
    hide Wire, WellFormed, Labels;
    var w, t, c := Wire(a.labels), Be16(a.qtype), Be16(a.qclass);
    assert OnWire(a) == w + ([0] + (t + c));
    LabelsOnWire(q, off, a.labels, t + c);
    HoldsSplit(q, off, w, [0] + (t + c));
    HoldsSplit(q, off + |w|, [0], t + c);
    HoldsSplit(q, off + |w| + 1, t, c);
    TwoBytes(q, off + |w| + 1, a.qtype);
    TwoBytes(q, off + |w| + 3, a.qclass);
  }

  lemma QuestionsStep(q: Bytes, off: nat, one: (Question, nat), n: nat, qs: seq<Question>, end: nat)
    requires OneQuestion(q, off) == Some(one) && Questions(q, one.1, n) == Parsed(true, qs, end)
    ensures Questions(q, off, n + 1) == Parsed(true, [one.0] + qs, end)
  {
    hide OneQuestion;
  }

  lemma {:induction false} QuestionsOnWire(q: Bytes, off: nat, asks: seq<Ask>)
    requires AllAskable(asks) && Holds(q, off, Section(asks))
    ensures Questions(q, off, |asks|) == Parsed(true, Seen(asks, off), off + |Section(asks)|)
    decreases |asks|
  {
    hide OneQuestion, Holds, OnWire, Askable, Wire;
    if asks != [] {
      assert Askable(asks[0]) && AllAskable(asks[1..]);
      HoldsSplit(q, off, OnWire(asks[0]), Section(asks[1..]));
      QuestionOnWire(q, off, asks[0]);
      var next := off + |OnWire(asks[0])|;
      QuestionsOnWire(q, next, asks[1..]);
      hide Questions;
      QuestionsStep(q, off, (Seen(asks, off)[0], next), |asks| - 1, Seen(asks[1..], next), off + |Section(asks)|);
    }
  }

  lemma {:induction false} WantedSeen(asks: seq<Ask>, off: nat)
    ensures |Wanted(Seen(asks, off))| == AddressAsks(asks)
  {
    hide OnWire;
    if asks != [] {
      var rest := Seen(asks[1..], off + |OnWire(asks[0])|);
      WantedSeen(asks[1..], off + |OnWire(asks[0])|);
      assert Seen(asks, off)[1..] == rest;
    }
  }

  // With memory, a request of well-formed questions is answered if and only if there are at most 32 of them and the
  // reply has room; ANCOUNT is then the number of questions for an IPv4 address, and all questions stand in the reply.
  lemma RequestAnswered(s: Lru.Lru, net: nat, q: Bytes, asks: seq<Ask>, slen: nat)
    requires Lru.Consistent(s) && net < 0x1_0000_0000 && s.max <= 0x8000_0000 && 12 <= |q|
    requires AllAskable(asks) && U16(q, 4) == |asks| && Holds(q, 12, Section(asks))
    ensures var reply, end := Served(s, net, q, slen, Always).1, 12 + |Section(asks)|;
      var n := AddressAsks(asks);
      && (reply.Some? <==> |asks| <= 32 && |q| <= slen && (n > 0 ==> end + 16 * n <= slen))
      && (reply.Some? ==>
            && |reply.value| == end + 16 * n && U16(reply.value, 6) == n
            && U16(reply.value, 4) == |asks| && Holds(reply.value, 12, Section(asks)))
  {
    hide *;
    var p := Questions(q, 12, |asks|);
    QuestionsOnWire(q, 12, asks);
    WantedSeen(asks, 12);
    ServedCases(s, net, q, slen, Always);
    ResolveAnswers(s, net, p.qs, Always, 0);
    AllAnswered(s, p.qs, 0);
    InsidePacket(q, 12, Section(asks));
    if |asks| <= 32 && |q| <= slen {
      var answers := Resolve(s, net, p.qs, Always, 0).1;
      ReplyHeader(q, p.end, answers);
      SameSection(q, Reply(q, p.end, answers), 12, Section(asks));
      SameField(q, Reply(q, p.end, answers));
    }
  }

  lemma InsidePacket(q: Bytes, off: nat, w: Bytes)
    requires Holds(q, off, w)
    ensures off + |w| <= |q|
  {
  }

  lemma SameSection(q: Bytes, r: Bytes, off: nat, w: Bytes)
    requires Holds(q, off, w) && off + |w| <= |r| && r[off..off + |w|] == q[off..off + |w|]
    ensures Holds(r, off, w)
  {
  }

  lemma SameField(q: Bytes, r: Bytes)
    requires 6 <= |q| && 6 <= |r| && r[4..6] == q[4..6]
    ensures U16(r, 4) == U16(q, 4)
  {
    assert r[4] == r[4..6][0] && q[4] == q[4..6][0] && r[5] == r[4..6][1] && q[5] == q[4..6][1];
  }

  // One question for an IPv4 address is answered by one address, which leads back to the name asked for; any other
  // type or class is answered without one.
  lemma OneAskAnswered(s: Lru.Lru, net: nat, mask: int, k: nat, q: Bytes, a: Ask, slen: nat)
    requires Lru.Consistent(s) && net < 0x1_0000_0000 && s.max <= 0x8000_0000 && 12 <= |q| <= slen
    requires s.max <= -1 - mask == Pow2(k) - 1 && net % Pow2(k) == 0
    requires Askable(a) && (forall l :: l in a.labels ==> NoZero(l))
    requires U16(q, 4) == 1 && Holds(q, 12, OnWire(a)) && 12 + |OnWire(a)| + 16 <= slen
    ensures var (s', reply) := Served(s, net, q, slen, Always);
      var end := 12 + |OnWire(a)|;
      && reply.Some?
      && if a.qtype == 1 && a.qclass == 1 then
           && |reply.value| == end + 16 && U16(reply.value, 6) == 1
           && var name := Lru.LookupStep(s', M.SlotOf(mask, U32(reply.value, end + 12))).1;
           && name.Some? && name.value == Join(a.labels)
         else |reply.value| == end && U16(reply.value, 6) == 0 && s' == s
  {
    hide *;
    var asks := [a];
    OneSection(a);
    RequestAnswered(s, net, q, asks, slen);
    QuestionsOnWire(q, 12, asks);
    AllAnswered(s, Seen(asks, 12), 0);
    var question := Question(12, a.labels, true);
    if a.qtype == 1 && a.qclass == 1 {
      OneName(question);
      ReplyPromise(s, net, mask, k, q, slen, Always);
      NameWhole(question);
      AtLeastOne(s);
      var p := Questions(q, 12, 1);
      var w := Answered(s, p.qs, Always, 0);
      assert w == [question] && p.end == 12 + |OnWire(a)|;
      assert w[0] == question && p.end + 16 * 0 + 12 == 12 + |OnWire(a)| + 12;
    } else {
      NothingResolved(s, net, Seen(asks, 12));
      ServedCases(s, net, q, slen, Always);
    }
  }

  lemma OneSection(a: Ask)
    requires Askable(a)
    ensures Section([a]) == OnWire(a) && AllAskable([a])
    ensures var wanted := a.qtype == 1 && a.qclass == 1;
      && AddressAsks([a]) == (if wanted then 1 else 0)
      && Seen([a], 12) == [Question(12, a.labels, wanted)]
      && Wanted(Seen([a], 12)) == if wanted then [Question(12, a.labels, true)] else []
  {
    assert [a][1..] == [];
    assert Section([a]) == OnWire(a) + Section([]) && OnWire(a) + [] == OnWire(a);
    var seen := Seen([a], 12);
    assert seen == [seen[0]] && seen[1..] == [];
  }

  lemma OneName(question: Question)
    ensures DistinctNames([question]) == 1
  {
    NamesOfFirst([question]);
    NoNames([question][1..]);
    assert NamesOf([question]) == {NameOf(question)};
  }

  lemma AtLeastOne(s: Lru.Lru)
    requires Lru.Consistent(s)
    ensures s.max >= 1
  {
  }

  lemma NothingResolved(s: Lru.Lru, net: nat, qs: seq<Question>)
    requires Lru.Consistent(s) && Wanted(qs) == []
    ensures Resolve(s, net, qs, Always, 0) == (s, [])
  {
    ResolveAnswers(s, net, qs, Always, 0);
    AllAnswered(s, qs, 0);
  }
}
