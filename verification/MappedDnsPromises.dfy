/** What a reply of hev_mapped_dns_handle means to the client that sent the request. */
module MappedDnsPromises {
  import opened Bits
  import opened DnsText
  import opened Sequences
  import opened NameTree
  import opened Options
  import opened MappedDnsReply
  import Lru = LruModel
  import M = MappedDns

  // No allocation fails.
  function Always(i: nat): bool { true }

  function Wanted(qs: seq<Question>): (r: seq<Question>)
    ensures |r| <= |qs|
  {
    if qs == [] then []
    else if qs[0].wanted then [qs[0]] + Wanted(qs[1..])
    else Wanted(qs[1..])
  }

  // The questions that get an answer: the wanted ones, without those that need memory and find none.
  ghost function Answered(s: Lru.Lru, qs: seq<Question>, mem: nat -> bool, i: nat): (r: seq<Question>)
    requires Lru.Consistent(s)
    ensures |r| <= |qs|
    decreases |qs|
  {
    if qs == [] then []
    else if qs[0].wanted && (mem(i) || NameOf(qs[0]) in s.order) then
      Lru.StepConsistent(s, Lru.Find(NameOf(qs[0])));
      [qs[0]] + Answered(Lru.FindStep(s, NameOf(qs[0])).0, qs[1..], mem, i + 1)
    else Answered(s, qs[1..], mem, i + 1)
  }

  lemma {:induction false} AllAnswered(s: Lru.Lru, qs: seq<Question>, i: nat)
    requires Lru.Consistent(s)
    ensures Answered(s, qs, Always, i) == Wanted(qs)
    decreases |qs|
  {
    if qs != [] {
      if qs[0].wanted {
        Lru.StepConsistent(s, Lru.Find(NameOf(qs[0])));
        AllAnswered(Lru.FindStep(s, NameOf(qs[0])).0, qs[1..], i + 1);
      } else {
        AllAnswered(s, qs[1..], i + 1);
      }
    }
  }

  ghost function Finds(qs: seq<Question>): seq<Lru.Op> {
    seq(|qs|, i requires 0 <= i < |qs| => Lru.Find(NameOf(qs[i])))
  }

  // How many different names some questions ask for.
  ghost function DistinctNames(qs: seq<Question>): nat {
    |NamesOf(qs)|
  }

  ghost function NamesOf(qs: seq<Question>): set<CString> {
    set i: nat | i < |qs| :: NameOf(qs[i])
  }

  lemma {:induction false} FindsTrace(s: Lru.Lru, qs: seq<Question>)
    requires Lru.Consistent(s)
    ensures Elements(Lru.Trace(s, Finds(qs))) == NamesOf(qs)
    decreases |qs|
  {
    if qs != [] {
      var s1 := Lru.Step(s, Finds(qs)[0]);
      Lru.StepConsistent(s, Finds(qs)[0]);
      assert Finds(qs)[1..] == Finds(qs[1..]);
      FindsTrace(s1, qs[1..]);
      NamesOfFirst(qs);
      assert Lru.Trace(s, Finds(qs)) == [NameOf(qs[0])] + Lru.Trace(s1, Finds(qs[1..]));
    }
  }

  lemma NamesOfFirst(qs: seq<Question>)
    requires qs != []
    ensures NamesOf(qs) == {NameOf(qs[0])} + NamesOf(qs[1..])
  {
    forall n | n in NamesOf(qs)
      ensures n == NameOf(qs[0]) || n in NamesOf(qs[1..])
    {
      var i: nat :| i < |qs| && n == NameOf(qs[i]);
      assert i > 0 ==> qs[1..][i - 1] == qs[i];
    }
    forall n | n in NamesOf(qs[1..])
      ensures n in NamesOf(qs)
    {
      var i: nat :| i < |qs| - 1 && n == NameOf(qs[1..][i]);
      assert qs[i + 1] == qs[1..][i];
    }
  }

  // The answered questions are answered in order, and the table goes through their finds.
  lemma {:induction false} ResolveAnswers(s: Lru.Lru, net: nat, qs: seq<Question>, mem: nat -> bool, i: nat)
    requires Lru.Consistent(s)
    ensures var (s', answers) := Resolve(s, net, qs, mem, i);
      var w := Answered(s, qs, mem, i);
      && s' == Lru.Run(s, Finds(w))
      && |answers| == |w|
      && forall j :: 0 <= j < |answers| ==> answers[j].off == w[j].off
    decreases |qs|
  {
    hide NameOf, Lru.Consistent, Lru.FindStep, M.Address;
    if qs != [] {
      if qs[0].wanted && (mem(i) || NameOf(qs[0]) in s.order) {
        Lru.StepConsistent(s, Lru.Find(NameOf(qs[0])));
        var s1 := Lru.FindStep(s, NameOf(qs[0])).0;
        ResolveAnswers(s1, net, qs[1..], mem, i + 1);
        assert Finds(Answered(s, qs, mem, i))[1..] == Finds(Answered(s1, qs[1..], mem, i + 1));
      } else {
        ResolveAnswers(s, net, qs[1..], mem, i + 1);
      }
    }
  }

  // As long as the names answered fit into the table together, the address of every answer leads back to the name
  // of its question after all the lookups of the request.
  lemma {:induction false} AnswerResolves(s: Lru.Lru, net: nat, mask: int, k: nat, qs: seq<Question>,
                                          mem: nat -> bool, i: nat, j: nat)
    requires Lru.Consistent(s) && s.max <= -1 - mask
    requires -1 - mask == Pow2(k) - 1 && net % Pow2(k) == 0
    requires j < |Answered(s, qs, mem, i)| && DistinctNames(Answered(s, qs, mem, i)) <= s.max
    ensures var (s', answers) := Resolve(s, net, qs, mem, i);
      && j < |answers|
      && Lru.LookupStep(s', M.SlotOf(mask, answers[j].ip)).1 == Some(NameOf(Answered(s, qs, mem, i)[j]))
    decreases |qs|
  {
    hide NameOf, NamesOf, Lru.Consistent, Lru.FindStep, Lru.LookupStep, M.Address, M.SlotOf, Finds, Pow2;
    ResolveAnswers(s, net, qs, mem, i);
    if !(qs[0].wanted && (mem(i) || NameOf(qs[0]) in s.order)) {
      AnswerResolves(s, net, mask, k, qs[1..], mem, i + 1, j);
    } else {
      var name := NameOf(qs[0]);
      Lru.StepConsistent(s, Lru.Find(name));
      var s1 := Lru.FindStep(s, name).0;
      var w, rest := Answered(s, qs, mem, i), Answered(s1, qs[1..], mem, i + 1);
      assert w[1..] == rest;
      NamesOfFirst(w);
      if j > 0 {
        SubsetCard(NamesOf(rest), NamesOf(w));
        AnswerResolves(s1, net, mask, k, qs[1..], mem, i + 1, j - 1);
      } else {
        ResolveAnswers(s1, net, qs[1..], mem, i + 1);
        FindsTrace(s1, rest);
        SubsetCard(NamesOf(rest) - {name}, NamesOf(w) - {name});
        M.FoundAddressResolves(s, name, Finds(rest), net, mask, k);
      }
    }
  }

  ghost predicate NoZero(s: Bytes) {
    forall i :: 0 <= i < |s| ==> s[i] != 0
  }

  lemma {:induction false} CutWhole(s: Bytes)
    ensures Cut(s) == s <==> NoZero(s)
  {
    if s != [] && s[0] != 0 {
      CutWhole(s[1..]);
      assert s == [s[0]] + s[1..];
    }
  }

  lemma NoZeroConcat(a: Bytes, b: Bytes)
    ensures NoZero(a + b) <==> NoZero(a) && NoZero(b)
  {
    forall i | 0 <= i < |a|
      ensures (a + b)[i] == a[i]
    {
    }
    forall i | 0 <= i < |b|
      ensures (a + b)[|a| + i] == b[i]
    {
    }
  }

  lemma {:induction false} JoinNoZero(labels: seq<Bytes>)
    ensures NoZero(Join(labels)) <==> forall l :: l in labels ==> NoZero(l)
  {
    if |labels| > 1 {
      var rest := labels[1..];
      JoinNoZero(rest);
      NoZeroConcat(labels[0], [DOT]);
      NoZeroConcat(labels[0] + [DOT], Join(rest));
      assert labels == [labels[0]] + rest;
    } else if |labels| == 1 {
      assert labels == [labels[0]];
    }
  }

  // The name resolved for a question is its whole dotted name exactly when no label holds a NUL byte.
  lemma NameWhole(question: Question)
    ensures NameOf(question) == Join(question.labels) <==> forall l :: l in question.labels ==> NoZero(l)
  {
    hide NoZero, Join, Cut;
    CutWhole(Join(question.labels));
    JoinNoZero(question.labels);
  }

  // QR is set, RA follows RD unless it was set already, and no other flag changes.
  lemma FlagsMeaning(fl: nat)
    requires fl < 0x1_0000
    ensures var r := ReplyFlags(fl);
      && r / 0x8000 == 1 && (r / 0x80) % 2 == (if fl / 0x100 % 2 == 1 then 1 else fl / 0x80 % 2)
      && r / 0x100 % 0x80 == fl / 0x100 % 0x80 && r % 0x80 == fl % 0x80
  {
    var high, bit, low := fl / 0x100 % 0x80, fl / 0x80 % 2, fl % 0x80;
    var ra := if high % 2 == 1 then 1 else bit;
    FlagParts(fl);
    FlagFields(high, ra, low);
  }

  lemma FlagParts(fl: nat)
    requires fl < 0x1_0000
    ensures var high, bit, low := fl / 0x100 % 0x80, fl / 0x80 % 2, fl % 0x80;
      && fl / 0x100 % 2 == high % 2
      && ReplyFlags(fl) == 0x8000 + 0x100 * high + 0x80 * (if high % 2 == 1 then 1 else bit) + low
  {
    var a, b := fl / 0x80, fl / 0x100;
    assert a / 2 == b && b / 0x80 == fl / 0x8000;
    assert fl == 0x80 * a + fl % 0x80 && a == 2 * b + a % 2 && b == 0x80 * (fl / 0x8000) + b % 0x80;
    assert b % 2 == b % 0x80 % 2;
  }

  lemma FlagFields(high: nat, bit: nat, low: nat)
    requires high < 0x80 && bit < 2 && low < 0x80
    ensures var r := 0x8000 + 0x100 * high + 0x80 * bit + low;
      r / 0x8000 == 1 && r / 0x80 % 2 == bit && r / 0x100 % 0x80 == high && r % 0x80 == low
  {
  }

  lemma {:induction false} AnswersByteAt(answers: seq<Answer>, i: nat, j: nat)
    requires i < |answers| && j < 16 && forall m :: 0 <= m < |answers| ==> answers[m].ip < 0x1_0000_0000
    ensures 16 * i + j < |AnswersBytes(answers)|
    ensures AnswersBytes(answers)[16 * i + j] == AnswerBytes(answers[i])[j]
    decreases |answers|
  {
    hide *;
    var n := |answers| - 1;
    AnswersBytesStep(answers);
    ByteOf(AnswersBytes(answers), AnswersBytes(answers[..n]), AnswerBytes(answers[n]), 16 * i + j);
    if i < n {
      AnswersByteAt(answers[..n], i, j);
    }
  }

  lemma ByteOf(s: Bytes, a: Bytes, b: Bytes, k: nat)
    requires s == a + b && k < |s|
    ensures s[k] == if k < |a| then a[k] else b[k - |a|]
  {
  }

  lemma AnswersBytesStep(answers: seq<Answer>)
    requires answers != [] && forall j :: 0 <= j < |answers| ==> answers[j].ip < 0x1_0000_0000
    ensures AnswersBytes(answers) == AnswersBytes(answers[..|answers| - 1]) + AnswerBytes(answers[|answers| - 1])
  {
    hide AnswerBytes;
  }

  // Header and question section of a reply (section 4.1.1 of RFC 1035).
  lemma ReplyHeader(q: Bytes, end: nat, answers: seq<Answer>)
    requires 12 <= end <= |q| && Encodable(answers)
    ensures var r := Reply(q, end, answers);
      && r[..2] == q[..2] && U16(r, 2) == ReplyFlags(U16(q, 2)) && r[4..6] == q[4..6]
      && U16(r, 6) == |answers| && U16(r, 8) == 0 && U16(r, 10) == 0
      && r[12..end] == q[12..end]
  {
  }

  // An answer record (sections 4.1.3 and 4.1.4 of RFC 1035): its pointer reaches its question
  // exactly when the question stands in the first 256 bytes.
  lemma ReplyAnswer(q: Bytes, end: nat, answers: seq<Answer>, i: nat)
    requires 12 <= end <= |q| && Encodable(answers) && i < |answers|
    ensures var r, a := Reply(q, end, answers), end + 16 * i;
      && U16(r, a) / 0x4000 == 3
      && (U16(r, a) % 0x4000 == answers[i].off <==> answers[i].off < 256)
      && U16(r, a + 2) == 1 && U16(r, a + 4) == 1 && U32(r, a + 6) == 1 && U16(r, a + 10) == 4
      && U32(r, a + 12) == answers[i].ip
  {
    hide Reply, AnswersBytes, AnswerBytes, U16, U32, Be16, ReplyFlags;
    var r, a, s, b := Reply(q, end, answers), end + 16 * i, AnswersBytes(answers), AnswerBytes(answers[i]);
    ReplyTail(q, end, answers);
    AnswerFields(answers[i]);
    forall j: nat | j < 16
      ensures a + j < |r| && r[a + j] == b[j]
    {
      AnswersByteAt(answers, i, j);
      assert r[end..][16 * i + j] == r[a + j];
    }
    FieldsAt(r, a, b);
  }

  lemma ReplyTail(q: Bytes, end: nat, answers: seq<Answer>)
    requires 12 <= end <= |q| && Encodable(answers)
    ensures Reply(q, end, answers)[end..] == AnswersBytes(answers)
  {
    hide AnswersBytes, ReplyFlags, Be16, U16;
  }

  lemma AnswerFields(a: Answer)
    requires a.ip < 0x1_0000_0000
    ensures var b := AnswerBytes(a);
      && U16(b, 0) / 0x4000 == 3 && U16(b, 0) % 0x4000 == a.off % 256
      && U16(b, 2) == 1 && U16(b, 4) == 1 && U32(b, 6) == 1 && U16(b, 10) == 4 && U32(b, 12) == a.ip
  {
  }

  lemma FieldsAt(r: Bytes, a: nat, b: Bytes)
    requires |b| == 16 && a + 16 <= |r| && forall j: nat :: j < 16 ==> b[j] == r[a + j]
    ensures U16(r, a) == U16(b, 0) && U16(r, a + 2) == U16(b, 2) && U16(r, a + 4) == U16(b, 4)
    ensures U32(r, a + 6) == U32(b, 6) && U16(r, a + 10) == U16(b, 10) && U32(r, a + 12) == U32(b, 12)
  {
  }

  // Every answer of a reply stands at its place, points at its question and carries its address.
  lemma ReplyAnswers(q: Bytes, end: nat, answers: seq<Answer>)
    requires 12 <= end <= |q| && Encodable(answers)
    ensures var r := Reply(q, end, answers);
      forall j :: 0 <= j < |answers| ==>
        && (U16(r, end + 16 * j) == 0xc000 + answers[j].off <==> answers[j].off < 256)
        && U32(r, end + 16 * j + 12) == answers[j].ip
  {
    hide Reply, AnswersBytes, U16, U32;
    forall j | 0 <= j < |answers|
      ensures var r := Reply(q, end, answers);
        && (U16(r, end + 16 * j) == 0xc000 + answers[j].off <==> answers[j].off < 256)
        && U32(r, end + 16 * j + 12) == answers[j].ip
    {
      ReplyAnswer(q, end, answers, j);
    }
  }

  // Every answer leads back to its name exactly when the different names answered fit into the table together.
  lemma AnswersResolve(s: Lru.Lru, net: nat, mask: int, k: nat, qs: seq<Question>, mem: nat -> bool)
    requires Lru.Consistent(s) && s.max <= -1 - mask == Pow2(k) - 1 && net % Pow2(k) == 0
    ensures var (s', answers) := Resolve(s, net, qs, mem, 0);
      var w := Answered(s, qs, mem, 0);
      && |answers| == |w|
      && ((forall j :: 0 <= j < |answers| ==>
             Lru.LookupStep(s', M.SlotOf(mask, answers[j].ip)).1 == Some(NameOf(w[j])))
          <==> DistinctNames(w) <= s.max)
  {
    ResolveAnswers(s, net, qs, mem, 0);
    var (s', answers) := Resolve(s, net, qs, mem, 0);
    var w := Answered(s, qs, mem, 0);
    hide Resolve, Answered;
    if DistinctNames(w) <= s.max {
      forall j | 0 <= j < |answers|
        ensures Lru.LookupStep(s', M.SlotOf(mask, answers[j].ip)).1 == Some(NameOf(w[j]))
      {
        AnswerResolves(s, net, mask, k, qs, mem, 0, j);
      }
    } else if forall j :: 0 <= j < |answers| ==>
        Lru.LookupStep(s', M.SlotOf(mask, answers[j].ip)).1 == Some(NameOf(w[j])) {
      ResolvedFit(s', mask, answers, w);
    }
  }

  // Names that all resolve occupy different slots.
  lemma ResolvedFit(s: Lru.Lru, mask: int, answers: seq<Answer>, w: seq<Question>)
    requires Lru.Consistent(s) && mask < 0 && |answers| == |w|
    requires forall j :: 0 <= j < |answers| ==>
      Lru.LookupStep(s, M.SlotOf(mask, answers[j].ip)).1 == Some(NameOf(w[j]))
    ensures DistinctNames(w) <= s.max
  {
    hide M.SlotOf;
    forall n | n in NamesOf(w)
      ensures n in Elements(s.slots)
    {
      var j: nat :| j < |w| && n == NameOf(w[j]);
      assert s.slots[M.SlotOf(mask, answers[j].ip)] == n;
    }
    SubsetCard(NamesOf(w), Elements(s.slots));
    NoDuplicatesCard(s.slots);
  }

  // Two names in a table for one: the first answer leads to the second name.
  lemma TwoNamesOneSlot(net: nat, mask: int, k: nat)
    requires 1 <= -1 - mask == Pow2(k) - 1 && net % Pow2(k) == 0
    ensures var qs := [Question(12, [[97]], true), Question(19, [[98]], true)];
      var (s', answers) := Resolve(Lru.Empty(1), net, qs, Always, 0);
      && DistinctNames(Answered(Lru.Empty(1), qs, Always, 0)) == 2 && |answers| == 2
      && NameOf(qs[0]) == [97] && Lru.LookupStep(s', M.SlotOf(mask, answers[0].ip)).1 == Some([98])
  {
    hide *;
    var a, b: CString := [97], [98];
    var qa, qb := Question(12, [[97]], true), Question(19, [[98]], true);
    WholeLetter(12, 97);
    WholeLetter(19, 98);
    assert a[0] != b[0];
    TwoFinds(a, b);
    OneMore(Lru.Empty(1), net, qa, [qb], 0);
    OneMore(Lru.Lru(1, [a], [a]), net, qb, [], 1);
    NoMore(Lru.Lru(1, [b], [b]), net, 2);
    assert [qa] + [qb] == [qa, qb] && [qb] + [] == [qb];
    TwoNames(qa, qb);
    M.AddressResolves(net, mask, 0, k);
    Resident(b);
  }

  lemma Resident(b: CString)
    ensures Lru.Consistent(Lru.Lru(1, [b], [b])) && Lru.LookupStep(Lru.Lru(1, [b], [b]), 0).1 == Some(b)
  {
  }

  lemma TwoNames(qa: Question, qb: Question)
    requires NameOf(qa) != NameOf(qb)
    ensures DistinctNames([qa, qb]) == 2
  {
    hide NameOf, NamesOf;
    NamesOfFirst([qa, qb]);
    assert [qa, qb][1..] == [qb];
    NamesOfFirst([qb]);
    NoNames([qb][1..]);
    assert NamesOf([qa, qb]) == {NameOf(qa), NameOf(qb)};
  }

  lemma NoNames(qs: seq<Question>)
    requires qs == []
    ensures NamesOf(qs) == {}
  {
  }

  lemma TwoFinds(a: CString, b: CString)
    requires a != b
    ensures Lru.Consistent(Lru.Empty(1)) && Lru.FindStep(Lru.Empty(1), a) == (Lru.Lru(1, [a], [a]), 0)
    ensures Lru.Consistent(Lru.Lru(1, [a], [a])) && Lru.Consistent(Lru.Lru(1, [b], [b]))
    ensures Lru.FindStep(Lru.Lru(1, [a], [a]), b) == (Lru.Lru(1, [b], [b]), 0)
  {
    assert [] + [a] == [a] && [a][1..] + [b] == [b] && [a][0 := b] == [b];
  }

  lemma OneMore(s: Lru.Lru, net: nat, q: Question, qs: seq<Question>, i: nat)
    requires Lru.Consistent(s) && q.wanted
    ensures var (s1, idx) := Lru.FindStep(s, NameOf(q));
      && Lru.Consistent(s1)
      && var rest := Resolve(s1, net, qs, Always, i + 1);
      && Resolve(s, net, [q] + qs, Always, i) == (rest.0, [Answer(q.off, M.Address(net, idx))] + rest.1)
      && Answered(s, [q] + qs, Always, i) == [q] + Answered(s1, qs, Always, i + 1)
  {
    Lru.StepConsistent(s, Lru.Find(NameOf(q)));
    assert ([q] + qs)[1..] == qs;
  }

  lemma NoMore(s: Lru.Lru, net: nat, i: nat)
    requires Lru.Consistent(s)
    ensures Resolve(s, net, [], Always, i) == (s, []) && Answered(s, [], Always, i) == []
  {
  }

  lemma WholeLetter(off: nat, c: byte)
    requires c != 0
    ensures NameOf(Question(off, [[c]], true)) == [c]
  {
    assert Join([[c]]) == [c];
    CutWhole([c]);
  }

  // What a client gets for a request that is answered, on a host mask of k bits.
  lemma ReplyPromise(s: Lru.Lru, net: nat, mask: int, k: nat, q: Bytes, slen: nat, mem: nat -> bool)
    requires Lru.Consistent(s) && net < 0x1_0000_0000 && s.max <= 0x8000_0000 && 12 <= |q|
    requires s.max <= -1 - mask == Pow2(k) - 1 && net % Pow2(k) == 0
    requires Served(s, net, q, slen, mem).1.Some?
    ensures var (s', reply) := Served(s, net, q, slen, mem);
      var r, p := reply.value, Questions(q, 12, U16(q, 4));
      var w := Answered(s, p.qs, mem, 0);
      && p.ok && 12 <= p.end <= |q| && |r| == p.end + 16 * |w| <= slen
      && r[12..p.end] == q[12..p.end] && U16(r, 6) == |w| && (mem == Always ==> w == Wanted(p.qs))
      && (forall j :: 0 <= j < |w| ==> (U16(r, p.end + 16 * j) == 0xc000 + w[j].off <==> w[j].off < 256))
      && ((forall j :: 0 <= j < |w| ==>
             Lru.LookupStep(s', M.SlotOf(mask, U32(r, p.end + 16 * j + 12))).1 == Some(NameOf(w[j])))
          <==> DistinctNames(w) <= s.max)
  {
    hide *;
    var p := Questions(q, 12, U16(q, 4));
    var answers := Resolve(s, net, p.qs, mem, 0).1;
    ServedCases(s, net, q, slen, mem);
    ResolveAnswers(s, net, p.qs, mem, 0);
    AllAnswered(s, p.qs, 0);
    ReplyHeader(q, p.end, answers);
    ReplyAnswers(q, p.end, answers);
    AnswersResolve(s, net, mask, k, p.qs, mem);
  }
}
