/** hev_mapped_dns_handle: the request is rewritten in place while its names are looked up. */
module MappedDnsHandle {
  import opened Bits
  import opened DnsText
  import opened NameTree
  import opened Options
  import opened MappedDnsReply
  import Lru = LruModel
  import M = MappedDns

  // The name at start consists of ls and the name at off.
  ghost predicate Walked(q: Bytes, start: nat, ls: seq<Bytes>, off: nat) {
    match Labels(q, off)
    case None => Labels(q, start).None?
    case Some(rest) => Labels(q, start) == Some((ls + rest.0, rest.1))
  }

  lemma WalkedStart(q: Bytes, start: nat)
    ensures Walked(q, start, [], start)
  {
    if Labels(q, start).Some? {
      assert [] + Labels(q, start).value.0 == Labels(q, start).value.0;
    }
  }

  lemma WalkedStep(q: Bytes, start: nat, ls: seq<Bytes>, off: nat)
    requires Walked(q, start, ls, off) && off < |q| && q[off] != 0
    ensures var next := off + 1 + q[off] as nat;
      if next < |q| then Walked(q, start, ls + [q[off + 1..next]], next) else Labels(q, start).None?
  {
    var next := off + 1 + q[off] as nat;
    if next < |q| && Labels(q, next).Some? {
      var text, rest := q[off + 1..next], Labels(q, next).value.0;
      assert ls + ([text] + rest) == (ls + [text]) + rest;
    }
  }

  lemma WalkedEnd(q: Bytes, start: nat, ls: seq<Bytes>, off: nat)
    requires Walked(q, start, ls, off) && (off < |q| ==> q[off] == 0)
    ensures off < |q| ==> Labels(q, start) == Some((ls, off))
    ensures off >= |q| ==> Labels(q, start).None?
  {
    assert ls + [] == ls;
  }

  // The inner loop: label lengths become dots, up to the terminating zero.
  method WalkName(req: array<byte>, qlen: nat, start: nat, ghost q: Bytes) returns (ok: bool, off: nat)
    requires qlen == |q| < req.Length && start < req.Length
    requires forall j :: start <= j < qlen ==> req[j] == q[j]
    modifies req
    ensures start <= off < req.Length && (off < qlen || off == start)
    ensures forall j :: off <= j < req.Length ==> req[j] == old(req[j])
    ensures var name := Labels(q, start);
      if ok && off < qlen then
        && name.Some? && off == name.value.1 && req[off] == 0
        && (if off == start then name.value.0 == [] else req[start + 1..off] == Join(name.value.0))
      else name.None?
  {
    off := start;
    ghost var ls: seq<Bytes> := [];
    WalkedStart(q, start);
    hide Walked, Labels, Join;
    while req[off] != 0
      invariant start <= off < req.Length && (off < qlen || off == start)
      invariant forall j :: off <= j < req.Length ==> req[j] == old(req[j])
      invariant Walked(q, start, ls, off)
      invariant if off == start then ls == [] else ls != [] && req[start + 1..off] == Join(ls)
      decreases req.Length - off
    {
      var poff := off;
      if off < qlen {
        WalkedStep(q, start, ls, off);
      } else {
        WalkedEnd(q, start, ls, off);
      }
      off := off + 1 + req[off] as nat;
      if off >= qlen {
        return false, poff;
      }
      ghost var text := q[poff + 1..off];
      JoinAppend(ls, text);
      assert text == req[poff + 1..off];
      ghost var before := if poff > start then req[start + 1..poff] else [];
      req[poff] := DOT;
      assert poff > start ==> req[start + 1..off] == before + [DOT] + text;
      ls := ls + [text];
    }
    ok := true;
    WalkedEnd(q, start, ls, off);
  }

  // The C string at start: the bytes up to the first zero.
  method ReadCString(rb: array<byte>, start: nat, ghost z: nat) returns (name: CString)
    requires start <= z < rb.Length && rb[z] == 0
    ensures name == Cut(rb[start..z])
  {
    hide Cut;
    name := [];
    ghost var s := rb[start..z];
    assert s[0..] == s;
    var i := 0;
    ghost var rest := Cut(s);
    while rb[start + i] != 0
      invariant i <= |s|
      invariant Cut(s) == name + rest && rest == Cut(s[i..])
      decreases |s| - i
    {
      var b := rb[start + i];
      assert s[i] == b;
      CutStep(s, i);
      rest := Cut(s[i + 1..]);
      assert name + ([b] + rest) == (name + [b]) + rest;
      name := name + [b];
      i := i + 1;
    }
    CutEnd(s[i..]);
  }

  lemma CutEnd(s: Bytes)
    requires s != [] ==> s[0] == 0
    ensures Cut(s) == []
  {
  }

  lemma CutStep(s: Bytes, i: nat)
    requires i < |s| && s[i] != 0
    ensures Cut(s[i..]) == [s[i]] + Cut(s[i + 1..])
  {
    assert s[i..][1..] == s[i + 1..];
  }

  // The lookups still to come complete the answers given so far.
  ghost predicate Progress(r: (Lru.Lru, seq<Answer>), st: Lru.Lru, net: nat, qs: seq<Question>, mem: nat -> bool,
                           i: nat, answers: seq<Answer>)
    requires Lru.Consistent(st)
  {
    var rest := Resolve(st, net, qs, mem, i);
    r == (rest.0, answers + rest.1)
  }

  lemma ProgressStep(r: (Lru.Lru, seq<Answer>), st: Lru.Lru, net: nat, qs: seq<Question>, mem: nat -> bool,
                     i: nat, answers: seq<Answer>)
    requires Lru.Consistent(st) && qs != [] && Progress(r, st, net, qs, mem, i, answers)
    ensures var (st', idx) := Lru.FindStep(st, NameOf(qs[0]));
      && Lru.Consistent(st')
      && (if qs[0].wanted && (mem(i) || NameOf(qs[0]) in st.order)
          then Progress(r, st', net, qs[1..], mem, i + 1, answers + [Answer(qs[0].off, M.Address(net, idx))])
          else Progress(r, st, net, qs[1..], mem, i + 1, answers))
  {
    Lru.StepConsistent(st, Lru.Find(NameOf(qs[0])));
    if qs[0].wanted && (mem(i) || NameOf(qs[0]) in st.order) {
      var (st', idx) := Lru.FindStep(st, NameOf(qs[0]));
      var a, rest := [Answer(qs[0].off, M.Address(net, idx))], Resolve(st', net, qs[1..], mem, i + 1).1;
      assert answers + (a + rest) == (answers + a) + rest;
    }
  }

  lemma ProgressEnds(st: Lru.Lru, net: nat, qs: seq<Question>, mem: nat -> bool)
    requires Lru.Consistent(st)
    ensures Progress(Resolve(st, net, qs, mem, 0), st, net, qs, mem, 0, [])
    ensures forall r, answers, i: nat :: Progress(r, st, net, [], mem, i, answers) ==> r == (st, answers)
  {
    assert [] + Resolve(st, net, qs, mem, 0).1 == Resolve(st, net, qs, mem, 0).1;
    forall r: (Lru.Lru, seq<Answer>), answers, i: nat | Progress(r, st, net, [], mem, i, answers)
      ensures r == (st, answers)
    {
      assert answers + [] == answers;
    }
  }

  ghost predicate Serving(dns: M.MappedDns, r: (Lru.Lru, seq<Answer>), qs: seq<Question>, mem: nat -> bool, i: nat,
                          answers: seq<Answer>)
    reads dns, dns.Repr
  {
    dns.Valid() && Lru.Consistent(dns.State()) && Progress(r, dns.State(), dns.net, qs, mem, i, answers)
  }

  // A wanted name is looked up; without memory for a new one the question goes unanswered.
  method ResolveOne(dns: M.MappedDns, wanted: bool, name: CString, off: nat, mem: nat -> bool, i: nat,
                    ghost r: (Lru.Lru, seq<Answer>), ghost qs: seq<Question>, ghost answers: seq<Answer>)
    returns (found: bool, ip: nat)
    requires qs != [] && Serving(dns, r, qs, mem, i, answers)
    requires qs[0].wanted == wanted && qs[0].off == off && (wanted ==> name == NameOf(qs[0]))
    modifies dns.Repr
    ensures fresh(dns.Repr - old(dns.Repr))
    ensures Serving(dns, r, qs[1..], mem, i + 1, if found then answers + [Answer(off, ip)] else answers)
  {
    ProgressStep(r, dns.State(), dns.net, qs, mem, i, answers);
    hide Progress, Lru.Consistent, Lru.FindStep, Resolve;
    found, ip := false, 0;
    if wanted {
      var idx := dns.Find(name, mem(i));
      if idx >= 0 {
        found, ip := true, Or(dns.net, idx);
      }
    }
  }

  // One turn of the question loop, up to the lookup.
  method ReadOne(req: array<byte>, qlen: nat, start: nat, ghost q: Bytes)
    returns (ok: bool, next: nat, wanted: bool, name: CString)
    requires qlen == |q| < req.Length && start < req.Length
    requires forall j :: start <= j < qlen ==> req[j] == q[j]
    modifies req
    ensures ok == OneQuestion(q, start).Some?
    ensures ok ==> var (question, end) := OneQuestion(q, start).value;
      && next == end && wanted == question.wanted && (wanted ==> name == NameOf(question))
      && question.off == start
      && forall j :: next <= j < qlen ==> req[j] == q[j]
  {
    hide Join, Cut, Labels;
    wanted, name, next := false, [], start;
    var e;
    ok, e := WalkName(req, qlen, start, q);
    if !ok || e + 4 >= qlen {
      return false, next, wanted, name;
    }
    assert forall j :: e <= j < qlen ==> req[j] == q[j];
    if U16(req[..], e + 1) == 1 && U16(req[..], e + 3) == 1 {
      wanted := true;
      if e == start {
        name := ReadCString(req, start + 1, start + 1);
        EmptyName();
      } else {
        name := ReadCString(req, start + 1, e);
      }
    }
    next := e + 5;
  }

  lemma EmptyName()
    ensures Cut([]) == [] && Cut(Join([])) == []
  {
  }

  lemma QuestionsStep(q: Bytes, off: nat, n: nat)
    requires n > 0
    ensures OneQuestion(q, off).None? ==> Questions(q, off, n) == Parsed(false, [], off)
    ensures OneQuestion(q, off).Some? ==>
      var (question, end) := OneQuestion(q, off).value;
      var rest := Questions(q, end, n - 1);
      Questions(q, off, n) == Parsed(rest.ok, [question] + rest.qs, rest.end)
  {
  }

  lemma QuestionsDone(q: Bytes, off: nat)
    ensures Questions(q, off, 0) == Parsed(true, [], off)
  {
  }

  // The question loop; answers stands for the arrays ipo and ips, which hold 32 entries.
  method ReadQuestions(dns: M.MappedDns, req: array<byte>, qlen: nat, qd: nat, ghost q: Bytes, mem: nat -> bool)
    returns (ok: bool, off: nat, answers: seq<Answer>)
    requires dns.Valid() && req !in dns.Repr
    requires qlen == |q| < req.Length && 12 < req.Length && qd <= 32
    requires forall j :: 12 <= j < qlen ==> req[j] == q[j]
    modifies dns.Repr, req
    ensures dns.Valid() && fresh(dns.Repr - old(dns.Repr))
    ensures old(Lru.Consistent(dns.State()))
    ensures var p := Questions(q, 12, qd);
      var r := Resolve(old(dns.State()), dns.net, p.qs, mem, 0);
      && ok == p.ok && dns.State() == r.0
      && (ok ==> off == p.end && answers == r.1 && |answers| <= 32)
  {
    hide *;
    ghost var p := Questions(q, 12, qd);
    ghost var r := ServingStarts(dns, p.qs, mem);
    answers, off := [], 12;
    ghost var cur := p;
    for i := 0 to qd
      invariant 12 <= off && (off <= qlen || off == 12) && |answers| <= i
      invariant forall j :: off <= j < qlen ==> req[j] == q[j]
      invariant fresh(dns.Repr - old(dns.Repr)) && req !in dns.Repr
      invariant cur == Questions(q, off, qd - i) && p.ok == cur.ok && p.end == cur.end
      invariant Serving(dns, r, cur.qs, mem, i, answers)
    {
      QuestionsStep(q, off, qd - i);
      var read, next, wanted, name := ReadOne(req, qlen, off, q);
      if !read {
        ServingEnds(dns, r, mem, i, answers);
        ok := false;
        return;
      }
      var found, ip := ResolveOne(dns, wanted, name, off, mem, i, r, cur.qs, answers);
      if found {
        answers := answers + [Answer(off, ip)];
      }
      off := next;
      cur := Questions(q, off, qd - i - 1);
    }
    QuestionsDone(q, off);
    ServingEnds(dns, r, mem, qd, answers);
    ok := true;
  }

  lemma ServingStarts(dns: M.MappedDns, qs: seq<Question>, mem: nat -> bool) returns (r: (Lru.Lru, seq<Answer>))
    requires dns.Valid()
    ensures Lru.Consistent(dns.State()) && r == Resolve(dns.State(), dns.net, qs, mem, 0)
    ensures Serving(dns, r, qs, mem, 0, [])
  {
    dns.StateConsistent();
    r := Resolve(dns.State(), dns.net, qs, mem, 0);
    ProgressEnds(dns.State(), dns.net, qs, mem);
  }

  lemma ServingEnds(dns: M.MappedDns, r: (Lru.Lru, seq<Answer>), mem: nat -> bool, i: nat, answers: seq<Answer>)
    requires Serving(dns, r, [], mem, i, answers)
    ensures dns.Valid() && r == (dns.State(), answers)
  {
    ProgressEnds(dns.State(), dns.net, [], mem);
  }

  method PutAnswer(sb: array<byte>, off: nat, a: Answer)
    requires off + 16 <= sb.Length && a.ip < 0x1_0000_0000
    modifies sb
    ensures sb[off..off + 16] == AnswerBytes(a)
    ensures forall j :: 0 <= j < sb.Length && (j < off || off + 16 <= j) ==> sb[j] == old(sb[j])
  {
    var bytes := AnswerBytes(a);
    hide AnswerBytes;
    forall j | 0 <= j < 16 {
      sb[off + j] := bytes[j];
    }
  }

  // The answer loop.
  method PutAnswers(sb: array<byte>, start: nat, answers: seq<Answer>) returns (ok: bool, off: nat)
    requires start <= sb.Length && Encodable(answers)
    modifies sb
    ensures ok <==> answers == [] || start + 16 * |answers| <= sb.Length
    ensures sb[..start] == old(sb[..start])
    ensures ok ==> off == start + 16 * |answers| <= sb.Length && sb[start..off] == AnswersBytes(answers)
  {
    hide AnswerBytes;
    off := start;
    assert answers[..0] == [];
    for i := 0 to |answers|
      invariant off == start + 16 * i <= sb.Length
      invariant sb[..start] == old(sb[..start])
      invariant sb[start..off] == AnswersBytes(answers[..i])
    {
      if off + 15 >= sb.Length {
        return false, off;
      }
      ghost var done := sb[start..off];
      PutAnswer(sb, off, answers[i]);
      assert sb[start..off] == done;
      assert answers[..i + 1][..i] == answers[..i];
      off := off + 16;
      assert sb[start..off] == done + sb[off - 16..off];
    }
    assert answers[..|answers|] == answers;
    ok := true;
  }

  // The reply starts as a copy of the request with empty record sections; the request's question count
  // is left in the byte order of a little-endian host. The fields are read even if the request is shorter.
  method CopyRequest(req: array<byte>, qlen: nat, res: array<byte>) returns (qd: nat, fl: nat)
    requires req != res && qlen < req.Length && qlen <= res.Length && 12 <= req.Length && 12 <= res.Length
    modifies req, res
    ensures qd == U16(old(req[..]), 4)
    ensures var h := old(req[..qlen] + res[qlen..]);
      && fl == U16(h, 2) && res[0] == h[0] && res[1] == h[1] && res[4] == h[4] && res[5] == h[5]
    ensures forall j :: 12 <= j < qlen ==> req[j] == old(req[j]) == res[j]
    ensures forall j :: 8 <= j < 12 ==> res[j] == 0
  {
    forall j | 0 <= j < qlen {
      res[j] := req[j];
    }
    assert res[..] == old(req[..qlen] + res[qlen..]);
    qd := U16(req[..], 4);
    req[4], req[5] := qd % 256, qd / 256;
    fl := U16(res[..], 2);
    forall j | 6 <= j < 12 {
      res[j] := 0;
    }
  }

  // The answers, then the flags and the answer count, complete the reply.
  method FinishReply(res: array<byte>, ghost q: Bytes, off: nat, fl: nat, answers: seq<Answer>) returns (n: int)
    requires 12 <= off <= |q| <= res.Length && Encodable(answers)
    requires fl == U16(q, 2) && res[0] == q[0] && res[1] == q[1] && res[4] == q[4] && res[5] == q[5]
    requires (forall j :: 8 <= j < 12 ==> res[j] == 0) && (forall j :: 12 <= j < off ==> res[j] == q[j])
    modifies res
    ensures n < 0 <==> answers != [] && off + 16 * |answers| > res.Length
    ensures n >= 0 ==> n <= res.Length && res[..n] == Reply(q, off, answers)
  {
    hide AnswersBytes, ReplyFlags, Reply;
    ghost var head := res[..off];
    assert (forall j :: 8 <= j < 12 ==> head[j] == 0) && head[12..] == q[12..off];
    var ok;
    ok, n := PutAnswers(res, off, answers);
    if !ok {
      return -1;
    }
    assert forall j :: 0 <= j < off ==> res[j] == head[j];
    var flags, an := Be16(ReplyFlags(fl)), Be16(|answers|);
    ghost var tail := res[off..n];
    res[2], res[3], res[6], res[7] := flags[0], flags[1], an[0], an[1];
    ghost var s := res[..n];
    assert forall j :: 8 <= j < off ==> s[j] == head[j];
    assert s[12..off] == head[12..] && s[off..] == tail && s[4] == q[4] && s[5] == q[5];
    ReplyPieces(s, q, off, answers);
  }

  // hev_mapped_dns_handle
  method Handle(dns: M.MappedDns, req: array<byte>, qlen: nat, res: array<byte>, mem: nat -> bool) returns (n: int)
    requires dns.Valid() && req !in dns.Repr && res !in dns.Repr && req != res
    requires qlen < req.Length && (qlen <= res.Length ==> 12 <= res.Length && 12 < req.Length)
    requires dns.net < 0x1_0000_0000 && dns.max <= 0x8000_0000
    modifies dns.Repr, req, res
    ensures dns.Valid() && fresh(dns.Repr - old(dns.Repr)) && n <= res.Length
    ensures old(Lru.Consistent(dns.State()) && dns.State().max == dns.max)
    ensures (dns.State(), if n < 0 then None else Some(res[..n])) ==
      Outcome(old(dns.State()), dns.net, old(req[..]), qlen, old(res[..]), mem)
  {
    ghost var q, before, room := req[..qlen], req[..], res[..];
    hide *;
    ghost var st := ServingState(dns);
    OutcomeCases(st, dns.net, before, qlen, room, mem);
    assert before[..qlen] == q;
    if res.Length < qlen {
      return -1;
    }
    var qd, fl := CopyRequest(req, qlen, res);
    if qd > 32 {
      return -1;
    }
    var ok, off, answers := ReadQuestions(dns, req, qlen, qd, q, mem);
    if !ok {
      return -1;
    }
    ghost var c := Copied(before, qlen, room);
    FieldsCopied(before, qlen, room);
    n := FinishReply(res, c, off, fl, answers);
  }

  lemma FieldsCopied(req: Bytes, qlen: nat, res: Bytes)
    requires qlen < |req| && qlen <= |res| && 12 <= |res|
    ensures var c, h := Copied(req, qlen, res), req[..qlen] + res[qlen..];
      && c[0] == h[0] && c[1] == h[1] && c[4] == h[4] && c[5] == h[5] && U16(c, 2) == U16(h, 2)
      && forall j :: 12 <= j < |c| ==> j < qlen && c[j] == req[j]
  {
  }

  lemma ServingState(dns: M.MappedDns) returns (st: Lru.Lru)
    requires dns.Valid()
    ensures st == dns.State() && Lru.Consistent(st) && st.max == dns.max
  {
    dns.StateConsistent();
    st := dns.State();
  }
}
