/** What hev_mapped_dns_handle answers, stated on the request bytes. */
module MappedDnsReply {
  import opened Bits
  import opened DnsText
  import opened NameTree
  import opened Options
  import Lru = LruModel
  import M = MappedDns

  datatype Question = Question(off: nat, labels: seq<Bytes>, wanted: bool)

  // ok tells whether all questions were read; qs are the complete ones, end the offset reached.
  datatype Parsed = Parsed(ok: bool, qs: seq<Question>, end: nat)

  datatype Answer = Answer(off: nat, ip: nat)

  // The labels of the name at off, and the offset of its terminating zero (section 4.1.2 of RFC 1035).
  function Labels(q: Bytes, off: nat): (r: Option<(seq<Bytes>, nat)>)
    ensures r.Some? ==> off <= r.value.1 < |q| && q[r.value.1] == 0
    decreases |q| - off
  {
    if off >= |q| then None
    else if q[off] == 0 then Some(([], off))
    else
      var next := off + 1 + q[off] as nat;
      if next >= |q| then None
      else
        match Labels(q, next)
        case None => None
        case Some(rest) => Some(([q[off + 1..next]] + rest.0, rest.1))
  }

  // One question at off, and the offset of what follows; only type A, class IN ones are wanted.
  function OneQuestion(q: Bytes, off: nat): (r: Option<(Question, nat)>)
    ensures r.Some? ==> off < r.value.1 <= |q|
  {
    match Labels(q, off)
    case None => None
    case Some(name) =>
      var e := name.1;
      if e + 5 > |q| then None
      else Some((Question(off, name.0, U16(q, e + 1) == 1 && U16(q, e + 3) == 1), e + 5))
  }

  // n questions from off on.
  function Questions(q: Bytes, off: nat, n: nat): (r: Parsed)
    ensures off <= r.end && (off <= |q| ==> r.end <= |q|) && |r.qs| <= n
    decreases n
  {
    if n == 0 then Parsed(true, [], off)
    else
      match OneQuestion(q, off)
      case None => Parsed(false, [], off)
      case Some(one) =>
        var rest := Questions(q, one.1, n - 1);
        Parsed(rest.ok, [one.0] + rest.qs, rest.end)
  }

  // The C string that starts at s.
  function Cut(s: Bytes): (r: CString)
    ensures |r| <= |s| && r == s[..|r|]
    ensures |r| < |s| ==> s[|r|] == 0
  {
    if s == [] || s[0] == 0 then [] else [s[0]] + Cut(s[1..])
  }

  function NameOf(question: Question): CString {
    Cut(Join(question.labels))
  }

  // Finding the wanted names one after the other; mem(i) says whether question i could allocate.
  ghost function Resolve(s: Lru.Lru, net: nat, qs: seq<Question>, mem: nat -> bool, i: nat): (r: (Lru.Lru, seq<Answer>))
    requires Lru.Consistent(s)
    ensures Lru.Consistent(r.0) && r.0.max == s.max && |r.1| <= |qs|
    decreases |qs|
  {
    if qs == [] then (s, [])
    else if qs[0].wanted && (mem(i) || NameOf(qs[0]) in s.order) then
      Lru.StepConsistent(s, Lru.Find(NameOf(qs[0])));
      var (s1, idx) := Lru.FindStep(s, NameOf(qs[0]));
      var rest := Resolve(s1, net, qs[1..], mem, i + 1);
      (rest.0, [Answer(qs[0].off, M.Address(net, idx))] + rest.1)
    else Resolve(s, net, qs[1..], mem, i + 1)
  }

  // QR set, and RA copied from RD.
  function ReplyFlags(fl: nat): (r: nat)
    requires fl < 0x1_0000
    ensures r < 0x1_0000
  {
    var qr := if fl / 0x8000 == 1 then fl else fl + 0x8000;
    if fl / 0x100 % 2 == 1 && fl / 0x80 % 2 == 0 then qr + 0x80 else qr
  }

  // A pointer to the question (its offset is cut to one byte), type A, class IN, TTL 1, four bytes of address.
  function AnswerBytes(a: Answer): (r: Bytes)
    requires a.ip < 0x1_0000_0000
    ensures |r| == 16
  {
    var hi, lo := a.ip / 0x1_0000, a.ip % 0x1_0000;
    [0xc0, a.off % 256, 0, 1, 0, 1, 0, 0, 0, 1, 0, 4, hi / 256, hi % 256, lo / 256, lo % 256]
  }

  ghost predicate Encodable(answers: seq<Answer>) {
    |answers| < 0x1_0000 && forall i :: 0 <= i < |answers| ==> answers[i].ip < 0x1_0000_0000
  }

  ghost function AnswersBytes(answers: seq<Answer>): (r: Bytes)
    requires forall i :: 0 <= i < |answers| ==> answers[i].ip < 0x1_0000_0000
    ensures |r| == 16 * |answers|
  {
    if answers == [] then []
    else AnswersBytes(answers[..|answers| - 1]) + AnswerBytes(answers[|answers| - 1])
  }

  ghost function Reply(q: Bytes, end: nat, answers: seq<Answer>): (r: Bytes)
    requires 12 <= end <= |q| && Encodable(answers)
    ensures |r| == end + 16 * |answers|
  {
    q[..2] + Be16(ReplyFlags(U16(q, 2))) + q[4..6] + Be16(|answers|) + [0, 0, 0, 0] + q[12..end] + AnswersBytes(answers)
  }

  // Only questions seen and addresses below 2^32 reach the answers.
  lemma {:induction false} ResolveEncodable(s: Lru.Lru, net: nat, qs: seq<Question>, mem: nat -> bool, i: nat)
    requires Lru.Consistent(s) && net < 0x1_0000_0000 && s.max <= 0x8000_0000
    ensures forall j :: 0 <= j < |Resolve(s, net, qs, mem, i).1| ==> Resolve(s, net, qs, mem, i).1[j].ip < 0x1_0000_0000
    decreases |qs|
  {
    if qs != [] {
      if qs[0].wanted && (mem(i) || NameOf(qs[0]) in s.order) {
        Lru.StepConsistent(s, Lru.Find(NameOf(qs[0])));
        var (s1, idx) := Lru.FindStep(s, NameOf(qs[0]));
        Pow2Word();
        OrBound(net, idx, 32);
        ResolveEncodable(s1, net, qs[1..], mem, i + 1);
      } else {
        ResolveEncodable(s, net, qs[1..], mem, i + 1);
      }
    }
  }

  lemma ResolvedEncodable(s: Lru.Lru, net: nat, qs: seq<Question>, mem: nat -> bool)
    requires Lru.Consistent(s) && net < 0x1_0000_0000 && s.max <= 0x8000_0000 && |qs| <= 32
    ensures Encodable(Resolve(s, net, qs, mem, 0).1)
  {
    ResolveEncodable(s, net, qs, mem, 0);
  }

  lemma ReplyPieces(s: Bytes, q: Bytes, end: nat, answers: seq<Answer>)
    requires 12 <= end <= |q| && Encodable(answers) && |s| == end + 16 * |answers|
    requires s[0] == q[0] && s[1] == q[1] && s[2..4] == Be16(ReplyFlags(U16(q, 2))) && s[4] == q[4] && s[5] == q[5]
    requires s[6..8] == Be16(|answers|) && (forall j :: 8 <= j < 12 ==> s[j] == 0)
    requires s[12..end] == q[12..end] && s[end..] == AnswersBytes(answers)
    ensures s == Reply(q, end, answers)
  {
    hide AnswersBytes, ReplyFlags, Be16, U16;
    assert s[..2] == q[..2] && s[4..6] == q[4..6] && s[8..12] == [0, 0, 0, 0];
    hide Encodable, Reply;
    SixCuts(s, 2, 4, 6, 8, 12, end);
    ReplyIs(q, end, answers);
  }

  lemma SixCuts(s: Bytes, a: nat, b: nat, c: nat, d: nat, e: nat, f: nat)
    requires a <= b <= c <= d <= e <= f <= |s|
    ensures s == s[..a] + s[a..b] + s[b..c] + s[c..d] + s[d..e] + s[e..f] + s[f..]
  {
  }

  lemma ReplyIs(q: Bytes, end: nat, answers: seq<Answer>)
    requires 12 <= end <= |q| && Encodable(answers)
    ensures Reply(q, end, answers) ==
      q[..2] + Be16(ReplyFlags(U16(q, 2))) + q[4..6] + Be16(|answers|) + [0, 0, 0, 0] + q[12..end]
      + AnswersBytes(answers)
  {
  }

  // The table after a request, and the reply if there is one; slen is the room for it.
  ghost function Served(s: Lru.Lru, net: nat, q: Bytes, slen: nat, mem: nat -> bool): (r: (Lru.Lru, Option<Bytes>))
    requires Lru.Consistent(s) && net < 0x1_0000_0000 && s.max <= 0x8000_0000 && 12 <= |q|
  {
    if slen < |q| || U16(q, 4) > 32 then (s, None)
    else
      var p := Questions(q, 12, U16(q, 4));
      var r := Resolve(s, net, p.qs, mem, 0);
      ResolvedEncodable(s, net, p.qs, mem);
      if p.ok && (r.1 == [] || p.end + 16 * |r.1| <= slen) then (r.0, Some(Reply(q, p.end, r.1)))
      else (r.0, None)
  }

  // A request shorter than its header: the missing bytes are what the buffers held before. It is answered, with its
  // header alone, if and only if they say that there is no question.
  ghost function ServedShort(req: Bytes, qlen: nat, res: Bytes): Option<Bytes>
    requires qlen < 12 && qlen < |req| && (qlen <= |res| ==> 12 <= |res| && 12 < |req|)
  {
    if |res| < qlen || U16(req, 4) != 0 then None
    else Some(Reply(req[..qlen] + res[qlen..12], 12, []))
  }

  lemma ServedCases(s: Lru.Lru, net: nat, q: Bytes, slen: nat, mem: nat -> bool)
    requires Lru.Consistent(s) && net < 0x1_0000_0000 && s.max <= 0x8000_0000 && 12 <= |q|
    ensures slen < |q| || U16(q, 4) > 32 ==> Served(s, net, q, slen, mem) == (s, None)
    ensures slen >= |q| && U16(q, 4) <= 32 ==>
      var p := Questions(q, 12, U16(q, 4));
      var r := Resolve(s, net, p.qs, mem, 0);
      && Encodable(r.1)
      && Served(s, net, q, slen, mem) == (r.0,
           if p.ok && (r.1 == [] || p.end + 16 * |r.1| <= slen) then Some(Reply(q, p.end, r.1)) else None)
  {
    if slen >= |q| && U16(q, 4) <= 32 {
      ResolvedEncodable(s, net, Questions(q, 12, U16(q, 4)).qs, mem);
    }
  }

  // The table and the reply after any request: what the two buffers held is all it depends on.
  ghost function Outcome(s: Lru.Lru, net: nat, req: Bytes, qlen: nat, res: Bytes, mem: nat -> bool)
    : (r: (Lru.Lru, Option<Bytes>))
    requires Lru.Consistent(s) && net < 0x1_0000_0000 && s.max <= 0x8000_0000
    requires qlen < |req| && (qlen <= |res| ==> 12 <= |res| && 12 < |req|)
  {
    if 12 <= qlen then Served(s, net, req[..qlen], |res|, mem) else (s, ServedShort(req, qlen, res))
  }

  // The header that the reply starts from.
  ghost function Copied(req: Bytes, qlen: nat, res: Bytes): (c: Bytes)
    requires qlen < |req| && qlen <= |res| && 12 <= |res|
    ensures 12 <= |c| <= |res|
  {
    if 12 <= qlen then req[..qlen] else req[..qlen] + res[qlen..12]
  }

  lemma OutcomeCases(s: Lru.Lru, net: nat, req: Bytes, qlen: nat, res: Bytes, mem: nat -> bool)
    requires Lru.Consistent(s) && net < 0x1_0000_0000 && s.max <= 0x8000_0000
    requires qlen < |req| && (qlen <= |res| ==> 12 <= |res| && 12 < |req|)
    ensures |res| < qlen || U16(req, 4) > 32 ==> Outcome(s, net, req, qlen, res, mem) == (s, None)
    ensures |res| >= qlen && U16(req, 4) <= 32 ==>
      var p, c := Questions(req[..qlen], 12, U16(req, 4)), Copied(req, qlen, res);
      var r := Resolve(s, net, p.qs, mem, 0);
      && Encodable(r.1) && (p.ok ==> 12 <= p.end <= |c|)
      && Outcome(s, net, req, qlen, res, mem) == (r.0,
           if p.ok && (r.1 == [] || p.end + 16 * |r.1| <= |res|) then Some(Reply(c, p.end, r.1)) else None)
  {
    hide Reply, Resolve;
    if 12 <= qlen {
      var q := req[..qlen];
      assert U16(q, 4) == U16(req, 4);
      ServedCases(s, net, q, |res|, mem);
    } else if qlen <= |res| {
      ShortQuestions(req[..qlen], U16(req, 4), s, net, mem);
    }
  }

  // In a request that ends before its header does, no question is complete.
  lemma ShortQuestions(q: Bytes, qd: nat, s: Lru.Lru, net: nat, mem: nat -> bool)
    requires |q| < 12 && Lru.Consistent(s)
    ensures Questions(q, 12, qd) == Parsed(qd == 0, [], 12) && Resolve(s, net, [], mem, 0) == (s, [])
  {
  }
}
