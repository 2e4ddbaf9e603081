/** Which backend or verify route of dnsrouter takes a query: router.go, parser.go and verify.go. */
module DomainRoutes {
  import opened Bits
  import opened DnsText
  import opened Options

  datatype VerifyRoute = VerifyRoute(domainLabels: seq<Bytes>, pubkey: Bytes, mtu: nat)

  // The labels of the question name as extractDomain reads them; None when a label overruns the packet.
  function QueryLabels(packet: Bytes, off: nat): Option<seq<Bytes>>
    decreases |packet| - off
  {
    if off >= |packet| || packet[off] == 0 || packet[off] >= 0xC0 then Some([])
    else
      var next := off + 1 + packet[off] as nat;
      if next > |packet| then None
      else
        match QueryLabels(packet, next)
        case None => None
        case Some(rest) => Some([packet[off + 1..next]] + rest)
  }

  function Domain(packet: Bytes): Bytes {
    if |packet| < 12 then []
    else
      match QueryLabels(packet, 12)
      case None => []
      case Some(labels) => if labels == [] then [] else Join(labels) + [DOT]
  }

  // extractDomain
  method ExtractDomain(packet: Bytes) returns (domain: Bytes)
    ensures domain == Domain(packet)
  {
    if |packet| < 12 {
      return [];
    }
    var offset, labels := 12, [];
    assert QueryLabels(packet, 12).Some? ==> labels + QueryLabels(packet, 12).value == QueryLabels(packet, 12).value;
    while offset < |packet|
      invariant match QueryLabels(packet, offset)
        case None => QueryLabels(packet, 12).None?
        case Some(rest) => QueryLabels(packet, 12) == Some(labels + rest)
      decreases |packet| - offset
    {
      var length := packet[offset] as nat;
      if length == 0 || length >= 0xC0 {
        break;
      }
      offset := offset + 1;
      if offset + length > |packet| {
        return [];
      }
      ghost var before := labels;
      labels := labels + [packet[offset..offset + length]];
      offset := offset + length;
      assert QueryLabels(packet, offset).Some? ==>
        before + ([packet[offset - length..offset]] + QueryLabels(packet, offset).value)
        == labels + QueryLabels(packet, offset).value;
    }
    assert labels + [] == labels;
    domain := if labels == [] then [] else Join(labels) + [DOT];
  }

  function WithDot(domain: Bytes): Bytes {
    if HasSuffix(domain, [DOT]) then domain else domain + [DOT]
  }

  function TrimDot(domain: Bytes): Bytes {
    if HasSuffix(domain, [DOT]) then domain[..|domain| - 1] else domain
  }

  // The label-by-label test of findVerifyRoute: a proper subdomain.
  predicate Matches(labels: seq<Bytes>, route: VerifyRoute) {
    var dl := |route.domainLabels|;
    |labels| >= 1 + dl && labels[|labels| - dl..] == route.domainLabels
  }

  // The domain given label by label, with or without a final dot.
  ghost predicate Spells(domain: Bytes, rs: seq<Bytes>) {
    rs != [] && AllDotFree(rs) && rs[|rs| - 1] != [] && (domain == Join(rs) || domain == Join(rs) + [DOT])
  }

  lemma RegisteredText(domain: Bytes)
    ensures var labels := Split(Lower(TrimDot(domain)));
      && labels != [] && AllDotFree(labels)
      && Join(labels) + (if HasSuffix(domain, [DOT]) then [DOT] else []) == Lower(domain)
  {
    JoinSplit(Lower(TrimDot(domain)));
    SplitPieces(Lower(TrimDot(domain)));
    hide Split, Join, AllDotFree;
    if HasSuffix(domain, [DOT]) {
      var n := |domain| - 1;
      assert domain[n..][0] == DOT;
      assert Lower(domain) == Lower(domain[..n]) + [DOT];
    }
  }

  lemma RegisteredLabels(domain: Bytes, rs: seq<Bytes>)
    requires Spells(domain, rs)
    ensures Split(Lower(TrimDot(domain))) == LowerAll(rs)
  {
    hide Split, Join, Lower, AllDotFree;
    NoTrailingDot(rs);
    LowerJoin(rs);
    LowerDotFree(rs);
    SplitJoin(LowerAll(rs));
    if domain != Join(rs) {
      assert domain[|domain| - 1..] == [DOT] && domain[..|domain| - 1] == Join(rs);
    }
  }

  class Router {
    var routes: map<Bytes, Bytes>
    var verifyRoutes: seq<VerifyRoute>
    var defaultDst: Bytes

    constructor ()
      ensures routes == map[] && verifyRoutes == [] && defaultDst == []
    {
      routes, verifyRoutes, defaultDst := map[], [], [];
    }

    method AddRoute(domain: Bytes, backend: Bytes)
      modifies this`routes
      ensures routes == old(routes)[Lower(WithDot(domain)) := backend]
    {
      var name := domain;
      if !HasSuffix(domain, [DOT]) {
        name := name + [DOT];
      }
      routes := routes[Lower(name) := backend];
    }

    // The new route comes last. Its labels are the only dot-free ones that spell the lower-cased domain, so those
    // of a domain given label by label, with or without a final dot, in lower case.
    method AddVerifyRoute(domain: Bytes, pubkey: Bytes, mtu: nat)
      modifies this`verifyRoutes
      ensures |verifyRoutes| == |old(verifyRoutes)| + 1 && old(verifyRoutes) < verifyRoutes
      ensures var route := verifyRoutes[|old(verifyRoutes)|];
        && route.pubkey == pubkey && route.mtu == mtu
        && route.domainLabels != [] && AllDotFree(route.domainLabels)
        && Join(route.domainLabels) + (if HasSuffix(domain, [DOT]) then [DOT] else []) == Lower(domain)
      ensures forall rs :: Spells(domain, rs) ==> verifyRoutes[|old(verifyRoutes)|].domainLabels == LowerAll(rs)
    {
      hide Split, Join, Lower, AllDotFree, HasSuffix, Spells;
      RegisteredText(domain);
      forall rs | Spells(domain, rs)
        ensures Split(Lower(TrimDot(domain))) == LowerAll(rs)
      {
        RegisteredLabels(domain, rs);
      }
      verifyRoutes := verifyRoutes + [VerifyRoute(Split(Lower(TrimDot(domain))), pubkey, mtu)];
    }

    // An exact match wins; otherwise some route above the name, in no particular order; otherwise the default.
    method FindBackend(domain: Bytes) returns (dst: Bytes)
      ensures var name := WithDot(Lower(domain));
        && (name in routes ==> dst == routes[name])
        && (name !in routes && (exists r :: r in routes && HasSuffix(name, [DOT] + r)) ==>
              exists r :: r in routes && HasSuffix(name, [DOT] + r) && dst == routes[r])
        && (name !in routes && !(exists r :: r in routes && HasSuffix(name, [DOT] + r)) ==> dst == defaultDst)
    {
      var name := WithDot(Lower(domain));
      if name in routes {
        return routes[name];
      }
      var left := routes.Keys;
      while left != {}
        invariant left <= routes.Keys
        invariant forall r :: r in routes && r !in left ==> !HasSuffix(name, [DOT] + r)
        decreases |left|
      {
        var r :| r in left;
        if HasSuffix(name, [DOT] + r) || name == r {
          return routes[r];
        }
        left := left - {r};
      }
      return defaultDst;
    }

    // The first verify route above the name, if there is one.
    method FindVerifyRoute(labels: seq<Bytes>) returns (found: Option<VerifyRoute>)
      ensures found == FirstMatch(labels, verifyRoutes)
      ensures found == None <==> forall vr :: vr in verifyRoutes ==> !Matches(labels, vr)
      ensures forall vr :: found == Some(vr) <==> IsFirst(labels, verifyRoutes, vr)
    {
      FirstMatchLaw(labels, verifyRoutes);
      for i := 0 to |verifyRoutes|
        invariant FirstMatch(labels, verifyRoutes) == FirstMatch(labels, verifyRoutes[i..])
      {
        var vr := verifyRoutes[i];
        assert verifyRoutes[i..][1..] == verifyRoutes[i + 1..];
        var dl := |vr.domainLabels|;
        if |labels| >= 1 + dl {
          var off := |labels| - dl;
          var match' := true;
          for j := 0 to dl
            invariant match' && labels[off..][..j] == vr.domainLabels[..j]
          {
            if labels[off + j] != vr.domainLabels[j] {
              match' := false;
              assert labels[off..][j] != vr.domainLabels[j];
              break;
            }
            NextEqual(labels[off..], vr.domainLabels, j);
          }
          if match' {
            assert labels[off..][..dl] == labels[off..] && vr.domainLabels[..dl] == vr.domainLabels;
            return Some(vr);
          }
        }
      }
      found := None;
    }
  }

  lemma NextEqual<T>(s: seq<T>, t: seq<T>, j: nat)
    requires j < |s| && j < |t| && s[..j] == t[..j] && s[j] == t[j]
    ensures s[..j + 1] == t[..j + 1]
  {
    assert s[..j + 1] == s[..j] + [s[j]] && t[..j + 1] == t[..j] + [t[j]];
  }

  // The route matches, and no route before it does.
  ghost predicate IsFirst(labels: seq<Bytes>, routes: seq<VerifyRoute>, route: VerifyRoute) {
    exists i :: 0 <= i < |routes| && routes[i] == route && Matches(labels, route) &&
      forall j :: 0 <= j < i ==> !Matches(labels, routes[j])
  }

  lemma {:induction false} FirstMatchLaw(labels: seq<Bytes>, routes: seq<VerifyRoute>)
    ensures FirstMatch(labels, routes) == None <==> forall vr :: vr in routes ==> !Matches(labels, vr)
    ensures forall vr :: FirstMatch(labels, routes) == Some(vr) <==> IsFirst(labels, routes, vr)
  {
    hide Matches;
    if routes != [] {
      var rest := routes[1..];
      FirstMatchLaw(labels, rest);
      assert routes == [routes[0]] + rest;
      if Matches(labels, routes[0]) {
        assert IsFirst(labels, routes, routes[0]);
      } else {
        forall vr
          ensures IsFirst(labels, rest, vr) <==> IsFirst(labels, routes, vr)
        {
          LaterIsFirst(labels, routes, vr);
        }
      }
    }
  }

  lemma LaterIsFirst(labels: seq<Bytes>, routes: seq<VerifyRoute>, vr: VerifyRoute)
    requires routes != [] && !Matches(labels, routes[0])
    ensures IsFirst(labels, routes[1..], vr) <==> IsFirst(labels, routes, vr)
  {
    hide Matches;
    var rest := routes[1..];
    if IsFirst(labels, rest, vr) {
      var i :| 0 <= i < |rest| && rest[i] == vr && Matches(labels, vr) &&
        forall j :: 0 <= j < i ==> !Matches(labels, rest[j]);
      assert routes[i + 1] == vr;
      forall j | 0 <= j < i + 1
        ensures !Matches(labels, routes[j])
      {
        assert j > 0 ==> routes[j] == rest[j - 1];
      }
    }
    if IsFirst(labels, routes, vr) {
      var i :| 0 <= i < |routes| && routes[i] == vr && Matches(labels, vr) &&
        forall j :: 0 <= j < i ==> !Matches(labels, routes[j]);
      assert i > 0 && rest[i - 1] == vr;
      forall j | 0 <= j < i - 1
        ensures !Matches(labels, rest[j])
      {
        assert rest[j] == routes[j + 1];
      }
    }
  }

  function FirstMatch(labels: seq<Bytes>, routes: seq<VerifyRoute>): Option<VerifyRoute> {
    if routes == [] then None
    else if Matches(labels, routes[0]) then Some(routes[0])
    else FirstMatch(labels, routes[1..])
  }

  // Labels with a dot after each.
  function Text(labels: seq<Bytes>): Bytes {
    if labels == [] then [] else Text(labels[..|labels| - 1]) + labels[|labels| - 1] + [DOT]
  }

  lemma {:induction false} TextIsJoin(labels: seq<Bytes>)
    requires labels != []
    ensures Text(labels) == Join(labels) + [DOT]
    decreases |labels|
  {
    var n := |labels| - 1;
    assert labels == labels[..n] + [labels[n]];
    JoinAppend(labels[..n], labels[n]);
    if n > 0 {
      TextIsJoin(labels[..n]);
    }
  }

  lemma DotFreeAt(l: Bytes)
    requires DotFree(l)
    ensures forall k :: 0 <= k < |l| ==> l[k] != DOT
  {
    forall k | 0 <= k < |l|
      ensures l[k] != DOT
    {
      assert l[k] in l;
    }
  }

  // A dot on one side stands against a label on the other.
  lemma UnequalTails(p: Bytes, x: Bytes, q: Bytes, y: Bytes)
    requires p == [] || p[|p| - 1] == DOT
    requires q != [] && q[|q| - 1] == DOT
    requires DotFree(x) && DotFree(y) && |x| != |y|
    ensures !HasSuffix(p + x + [DOT], q + y + [DOT])
  {
    var s, t := p + x + [DOT], q + y + [DOT];
    var d := |s| - |t|;
    DotFreeAt(x);
    DotFreeAt(y);
    if d >= 0 {
      var k := if |x| < |y| then |q| + |y| - 1 - |x| else |q| - 1;
      if |x| < |y| {
        assert s[d + k] == p[|p| - 1] && t[k] == y[|y| - 1 - |x|];
      } else {
        assert s[d + k] == x[|x| - |y| - 1] && t[k] == DOT;
      }
      assert s[d..][k] != t[k];
    }
  }

  // Between dots, the last label decides first.
  lemma TailMatch(p: Bytes, x: Bytes, q: Bytes, y: Bytes)
    requires p == [] || p[|p| - 1] == DOT
    requires q != [] && q[|q| - 1] == DOT
    requires DotFree(x) && DotFree(y)
    ensures HasSuffix(p + x + [DOT], q + y + [DOT]) <==> x == y && HasSuffix(p, q)
  {
    var s, t := p + x + [DOT], q + y + [DOT];
    var d := |s| - |t|;
    if |x| != |y| {
      UnequalTails(p, x, q, y);
    } else if d >= 0 {
      assert s[d..] == p[d..] + x + [DOT];
      assert s[d..][..|q|] == p[d..] && s[d..][|q|..|q| + |y|] == x;
      assert t[..|q|] == q && t[|q|..|q| + |y|] == y;
    }
  }

  // The dotted-string test and the label test are the same.
  lemma {:induction false} SuffixByLabels(ls: seq<Bytes>, rs: seq<Bytes>)
    requires AllDotFree(ls) && AllDotFree(rs)
    ensures HasSuffix(Text(ls), [DOT] + Text(rs)) <==> |ls| > |rs| && ls[|ls| - |rs|..] == rs
    decreases |rs|
  {
    if rs == [] {
      assert [DOT] + Text(rs) == [DOT];
      assert ls[|ls|..] == [];
    } else if ls != [] {
      var m, n := |ls| - 1, |rs| - 1;
      SuffixByLabels(ls[..m], rs[..n]);
      TextTail(ls);
      TextTail(rs);
      SplitOffLast(ls, rs);
      hide Text, HasSuffix;
      TailMatch(Text(ls[..m]), ls[m], [DOT] + Text(rs[..n]), rs[n]);
      assert [DOT] + Text(rs) == ([DOT] + Text(rs[..n])) + rs[n] + [DOT];
    }
  }

  lemma TextTail(labels: seq<Bytes>)
    requires labels != []
    ensures Text(labels) == Text(labels[..|labels| - 1]) + labels[|labels| - 1] + [DOT]
    ensures var t := [DOT] + Text(labels[..|labels| - 1]); t[|t| - 1] == DOT
    ensures var t := Text(labels[..|labels| - 1]); t == [] || t[|t| - 1] == DOT
  {
  }

  lemma SplitOffLast(ls: seq<Bytes>, rs: seq<Bytes>)
    requires ls != [] && rs != []
    ensures (|ls| > |rs| && ls[|ls| - |rs|..] == rs) <==>
      var (m, n) := (|ls| - 1, |rs| - 1);
      ls[m] == rs[n] && m > n && ls[..m][m - n..] == rs[..n]
  {
    var m, n := |ls| - 1, |rs| - 1;
    if m > n {
      assert ls[m - n..] == ls[..m][m - n..] + [ls[m]];
      assert rs == rs[..n] + [rs[n]];
      assert ls[m - n..][n] == ls[m];
    }
  }

  // On ASCII names of non-empty, dot-free labels the two suffix tests of the router agree.
  lemma SuffixTestsAgree(ls: seq<Bytes>, rs: seq<Bytes>, pubkey: Bytes, mtu: nat)
    requires ls != [] && rs != [] && AllDotFree(ls) && AllDotFree(rs) && rs[|rs| - 1] != []
    ensures HasSuffix(WithDot(Lower(Join(ls) + [DOT])), [DOT] + Lower(WithDot(Join(rs)))) <==>
      Matches(LowerAll(ls), VerifyRoute(Split(Lower(TrimDot(Join(rs)))), pubkey, mtu))
  {
    hide Text, Join, Split, HasSuffix, Lower, WithDot, TrimDot, AllDotFree;
    var l, r := LowerAll(ls), LowerAll(rs);
    LowerDotFree(ls);
    LowerDotFree(rs);
    NoTrailingDot(rs);
    KeyOf(rs);
    TextOf(ls);
    SplitJoin(r);
    LowerJoin(rs);
    SuffixByLabels(l, r);
  }

  lemma TextOf(labels: seq<Bytes>)
    requires labels != []
    ensures WithDot(Lower(Join(labels) + [DOT])) == Text(LowerAll(labels))
  {
    LowerJoin(labels);
    TextIsJoin(LowerAll(labels));
    assert Lower(Join(labels) + [DOT]) == Lower(Join(labels)) + [DOT];
  }

  lemma KeyOf(labels: seq<Bytes>)
    requires labels != [] && !HasSuffix(Join(labels), [DOT])
    ensures Lower(WithDot(Join(labels))) == Text(LowerAll(labels)) && TrimDot(Join(labels)) == Join(labels)
  {
    LowerJoin(labels);
    TextIsJoin(LowerAll(labels));
    assert Lower(Join(labels) + [DOT]) == Lower(Join(labels)) + [DOT];
  }

  lemma NoTrailingDot(labels: seq<Bytes>)
    requires labels != [] && AllDotFree(labels) && labels[|labels| - 1] != []
    ensures !HasSuffix(Join(labels), [DOT])
  {
    hide Join, HasSuffix;
    var n := |labels| - 1;
    var front, last := labels[..n], labels[n];
    assert labels == front + [last];
    JoinAppend(front, last);
    DotFreeAt(last);
    if front == [] {
      assert [] + last == last;
      EndsLike([], last);
    } else {
      EndsLike(Join(front) + [DOT], last);
    }
  }

  lemma EndsLike(front: Bytes, last: Bytes)
    requires last != [] && last[|last| - 1] != DOT
    ensures !HasSuffix(front + last, [DOT])
  {
    var s := front + last;
    assert s[|s| - 1..][0] == s[|s| - 1];
  }
}
