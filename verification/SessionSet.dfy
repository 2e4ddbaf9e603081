/** The session list of hev-socks5-tunnel.c: which session gives way when there are too many. */
module SessionSet {
  import opened Sequences
  import opened HevList
  import opened Options

  type SessionId = nat
  type SessionNode = Node<SessionId, ()>

  datatype Event = Inserted(id: SessionId) | Updated(id: SessionId) | Deleted(id: SessionId)

  // Updates only count when there is a limit.
  function Touches(h: seq<Event>, limit: int): seq<SessionId> {
    if h == [] then []
    else
      var e := h[|h| - 1];
      Touches(h[..|h| - 1], limit) + if e.Inserted? || (e.Updated? && limit != 0) then [e.id] else []
  }

  function Live(h: seq<Event>): set<SessionId> {
    if h == [] then {}
    else
      var e, live := h[|h| - 1], Live(h[..|h| - 1]);
      match e
      case Inserted(id) => live + {id}
      case Updated(_) => live
      case Deleted(id) => live - {id}
  }

  function Filter(s: seq<SessionId>, keep: set<SessionId>): seq<SessionId> {
    if s == [] then []
    else (if s[0] in keep then [s[0]] else []) + Filter(s[1..], keep)
  }

  // The live sessions, least recently touched first.
  function ByAge(h: seq<Event>, limit: int): seq<SessionId> {
    Filter(KeepLast(Touches(h, limit)), Live(h))
  }

  function LastTouch(t: seq<SessionId>, id: SessionId): (i: nat)
    requires id in t
    ensures i < |t| && t[i] == id
    ensures forall j :: i < j < |t| ==> t[j] != id
  {
    if t[|t| - 1] == id then |t| - 1 else LastTouch(t[..|t| - 1], id)
  }

  lemma {:induction false} FilterMembers(s: seq<SessionId>, keep: set<SessionId>)
    ensures forall x :: x in Filter(s, keep) <==> x in s && x in keep
    ensures NoDuplicates(s) ==> NoDuplicates(Filter(s, keep))
  {
    if s != [] {
      FilterMembers(s[1..], keep);
      if NoDuplicates(s) {
        NoDuplicatesTail(s);
        var f := Filter(s[1..], keep);
        if s[0] in keep {
          NoDuplicatesCons(s[0], f);
        } else {
          assert [] + f == f;
        }
      }
    }
  }

  lemma NoDuplicatesCons(x: SessionId, s: seq<SessionId>)
    requires NoDuplicates(s) && x !in s
    ensures NoDuplicates([x] + s)
  {
    forall i, j | 0 <= i < j < |s| + 1
      ensures At([x] + s, i) != At([x] + s, j)
    {
      if i > 0 {
        assert At(s, i - 1) != At(s, j - 1);
      }
    }
  }

  lemma {:induction false} FilterAppend(s: seq<SessionId>, x: SessionId, keep: set<SessionId>)
    ensures Filter(s + [x], keep) == Filter(s, keep) + if x in keep then [x] else []
  {
    if s != [] {
      assert (s + [x])[1..] == s[1..] + [x];
      FilterAppend(s[1..], x, keep);
    }
  }

  lemma {:induction false} FilterWithoutKept(s: seq<SessionId>, x: SessionId, keep: set<SessionId>)
    requires NoDuplicates(s)
    ensures Filter(s, keep - {x}) == Without(Filter(s, keep), x)
  {
    if s != [] {
      NoDuplicatesTail(s);
      var f := Filter(s[1..], keep);
      if s[0] == x {
        FilterSame(s[1..], keep, keep - {x});
        FilterMembers(s[1..], keep);
        WithoutAbsent(f, x);
        assert ([x] + f)[1..] == f && [] + f == f;
      } else {
        FilterWithoutKept(s[1..], x, keep);
        assert ([s[0]] + f)[1..] == f && [] + f == f && [] + Without(f, x) == Without(f, x);
      }
    }
  }

  lemma {:induction false} FilterWithout(s: seq<SessionId>, x: SessionId, keep: set<SessionId>)
    requires NoDuplicates(s)
    ensures Filter(Without(s, x), keep) == Filter(s, keep - {x})
  {
    if s != [] {
      NoDuplicatesTail(s);
      if s[0] == x {
        FilterSame(s[1..], keep, keep - {x});
        assert [] + Filter(s[1..], keep - {x}) == Filter(s[1..], keep - {x});
      } else {
        FilterWithout(s[1..], x, keep);
        assert Without(s, x)[1..] == Without(s[1..], x);
      }
    }
  }

  lemma {:induction false} FilterSame(s: seq<SessionId>, a: set<SessionId>, b: set<SessionId>)
    requires forall x :: x in s ==> (x in a <==> x in b)
    ensures Filter(s, a) == Filter(s, b)
  {
    if s != [] {
      FilterSame(s[1..], a, b);
    }
  }

  // Later in KeepLast means touched later.
  lemma {:induction false} KeepLastByTouch(t: seq<SessionId>, i: nat, j: nat)
    requires i < j < |KeepLast(t)|
    ensures KeepLast(t)[i] in t && KeepLast(t)[j] in t
    ensures LastTouch(t, KeepLast(t)[i]) < LastTouch(t, KeepLast(t)[j])
  {
    KeepLastMembers(t);
    var k := KeepLast(t);
    if t[0] in t[1..] {
      KeepLastByTouch(t[1..], i, j);
      LastTouchTail(t, k[i]);
      LastTouchTail(t, k[j]);
    } else if i > 0 {
      KeepLastByTouch(t[1..], i - 1, j - 1);
      LastTouchTail(t, k[i]);
      LastTouchTail(t, k[j]);
    } else {
      assert k[j] == KeepLast(t[1..])[j - 1];
      KeepLastMembers(t[1..]);
      LastTouchTail(t, k[j]);
      LastTouchHead(t);
    }
  }

  lemma {:induction false} LastTouchTail(t: seq<SessionId>, id: SessionId)
    requires t != [] && id in t[1..]
    ensures LastTouch(t, id) == 1 + LastTouch(t[1..], id)
  {
    var n := LastTouch(t[1..], id);
    assert t[1..][n] == t[n + 1];
    forall j | n + 1 < j < |t|
      ensures t[j] != id
    {
      assert t[1..][j - 1] == t[j];
    }
    LastTouchUnique(t, id, n + 1);
  }

  lemma LastTouchHead(t: seq<SessionId>)
    requires t != [] && t[0] !in t[1..]
    ensures LastTouch(t, t[0]) == 0
  {
    assert forall j :: 0 < j < |t| ==> t[j] == t[1..][j - 1];
    LastTouchUnique(t, t[0], 0);
  }

  lemma LastTouchUnique(t: seq<SessionId>, id: SessionId, i: nat)
    requires i < |t| && t[i] == id && forall j :: i < j < |t| ==> t[j] != id
    ensures LastTouch(t, id) == i
  {
  }

  // Of two live sessions, the one listed first was touched earlier.
  lemma {:induction false} FilterOrder(s: seq<SessionId>, keep: set<SessionId>, i: nat, j: nat) returns (a: nat, b: nat)
    requires i < j < |Filter(s, keep)|
    ensures a < b < |s| && s[a] == Filter(s, keep)[i] && s[b] == Filter(s, keep)[j]
  {
    if s[0] in keep {
      if i == 0 {
        a := 0;
        FilterMembers(s[1..], keep);
        assert Filter(s, keep)[j] == Filter(s[1..], keep)[j - 1];
        b := 1 + IndexOf(s[1..], Filter(s, keep)[j]);
      } else {
        a, b := FilterOrder(s[1..], keep, i - 1, j - 1);
        a, b := a + 1, b + 1;
      }
    } else {
      assert [] + Filter(s[1..], keep) == Filter(s[1..], keep);
      a, b := FilterOrder(s[1..], keep, i, j);
      a, b := a + 1, b + 1;
    }
  }

  // The head of ByAge is the live session touched least recently.
  lemma OldestFirst(h: seq<Event>, limit: int, j: nat)
    requires 0 < j < |ByAge(h, limit)|
    ensures var t, s := Touches(h, limit), ByAge(h, limit);
      s[0] in t && s[j] in t && LastTouch(t, s[0]) < LastTouch(t, s[j])
  {
    var t := Touches(h, limit);
    var a, b := FilterOrder(KeepLast(t), Live(h), 0, j);
    KeepLastByTouch(t, a, b);
  }

  // What the list operations of an event do to a list of sessions.
  function Listed(s: seq<SessionId>, e: Event, limit: int): seq<SessionId> {
    match e
    case Inserted(id) => s + [id]
    case Updated(id) => if limit == 0 then s else Touch(s, id)
    case Deleted(id) => Without(s, id)
  }

  // One event changes the list the way the code does.
  lemma ByAgeStep(h: seq<Event>, limit: int, e: Event)
    requires e.Inserted? ==> e.id !in Live(h)
    requires e.Updated? ==> e.id in Live(h)
    ensures NoDuplicates(ByAge(h, limit))
    ensures ByAge(h + [e], limit) == Listed(ByAge(h, limit), e, limit)
  {
    var t, live := Touches(h, limit), Live(h);
    assert (h + [e])[..|h|] == h;
    KeepLastMembers(t);
    var k := KeepLast(t);
    FilterMembers(k, live);
    if e.Deleted? {
      assert t + [] == t;
      FilterWithoutKept(k, e.id, live);
    } else if e.Updated? && limit == 0 {
      assert t + [] == t;
    } else {
      KeepLastAppend(t, e.id);
      var keep := live + {e.id};
      FilterAppend(Without(k, e.id), e.id, keep);
      FilterWithout(k, e.id, keep);
      if e.Inserted? {
        assert keep - {e.id} == live;
      } else {
        assert keep == live;
        FilterWithoutKept(k, e.id, live);
      }
    }
  }

  ghost function Ids(s: seq<SessionNode>): (r: seq<SessionId>)
    ensures |r| == |s| && forall i :: 0 <= i < |s| ==> r[i] == s[i].owner
  {
    seq(|s|, i requires 0 <= i < |s| => s[i].owner)
  }

  lemma IdsWithout(s: seq<SessionNode>, n: SessionNode)
    requires NoDuplicates(s) && NoDuplicates(Ids(s)) && n in s
    ensures n.owner in Ids(s) && Ids(Without(s, n)) == Without(Ids(s), n.owner)
    ensures Ids(Without(s, n) + [n]) == Touch(Ids(s), n.owner)
  {
    var k := IndexOf(s, n);
    assert Ids(s)[k] == n.owner;
    WithoutAt(s, k);
    WithoutAt(Ids(s), k);
    assert Ids(RemoveAt(s, k)) == RemoveAt(Ids(s), k);
    assert Ids(Without(s, n) + [n]) == Ids(Without(s, n)) + [n.owner];
  }

  class SessionSet {
    const sessions: List<SessionId, ()>
    const limit: int
    var count: int
    ghost var history: seq<Event>

    // The counter is the length of the list, and the list holds the live sessions by age.
    ghost predicate Valid()
      reads this, sessions, sessions.nodes
    {
      && sessions.Valid() && count == |sessions.nodes|
      && NoDuplicates(Ids(sessions.nodes)) && Ids(sessions.nodes) == ByAge(history, limit)
    }

    constructor (limit: int)
      ensures Valid() && fresh(sessions) && this.limit == limit && history == [] && count == 0
    {
      sessions := new List<SessionId, ()>();
      this.limit, count, history := limit, 0, [];
    }

    // hev_socks5_tunnel_insert_session; the result is the session told to terminate.
    method Insert(node: SessionNode) returns (terminated: Option<SessionId>)
      requires Valid() && node !in sessions.nodes && node.owner !in Live(history)
      modifies this`count, this`history, sessions, sessions.nodes`next, sessions.nodes`prev, node`next, node`prev
      ensures Valid() && sessions.nodes == old(sessions.nodes) + [node]
      ensures history == old(history) + [Inserted(node.owner)]
      ensures terminated ==
        if limit != 0 && limit <= count then Some(ByAge(history, limit)[0]) else None
    {
      ByAgeStep(history, limit, Inserted(node.owner));
      ByAgeDistinct(history + [Inserted(node.owner)], limit);
      hide ByAge, Live, NoDuplicates;
      sessions.AddTail(node);
      count := count + 1;
      history := history + [Inserted(node.owner)];
      assert Ids(sessions.nodes) == Ids(old(sessions.nodes)) + [node.owner];
      if limit == 0 || count < limit {
        return None;
      }
      var first := sessions.First();
      return Some(first.owner);
    }

    // hev_socks5_tunnel_delete_session
    method Delete(node: SessionNode)
      requires Valid() && node in sessions.nodes
      modifies this`count, this`history, sessions, sessions.nodes`next, sessions.nodes`prev
      ensures Valid() && sessions.nodes == Without(old(sessions.nodes), node)
      ensures history == old(history) + [Deleted(node.owner)]
    {
      assert sessions.Valid() && NoDuplicates(sessions.nodes);
      hide ByAge, Live, NoDuplicates, Ids, Without, List.Valid;
      ByAgeStep(history, limit, Deleted(node.owner));
      ByAgeDistinct(history + [Deleted(node.owner)], limit);
      IdsWithout(sessions.nodes, node);
      WithoutMembers(sessions.nodes, node);
      sessions.Del(node);
      count := count - 1;
      history := history + [Deleted(node.owner)];
    }

    // hev_socks5_tunnel_update_session
    method Update(node: SessionNode)
      requires Valid() && node in sessions.nodes
      modifies this`history, sessions, sessions.nodes`next, sessions.nodes`prev
      ensures Valid() && sessions.nodes == if limit == 0 then old(sessions.nodes) else Touch(old(sessions.nodes), node)
      ensures history == old(history) + [Updated(node.owner)]
    {
      IdsWithout(sessions.nodes, node);
      FilterMembers(KeepLast(Touches(history, limit)), Live(history));
      ByAgeStep(history, limit, Updated(node.owner));
      ByAgeDistinct(history + [Updated(node.owner)], limit);
      hide ByAge, Live, NoDuplicates;
      history := history + [Updated(node.owner)];
      if limit == 0 {
        return;
      }
      sessions.MoveToTail(node);
    }
  }

  lemma ByAgeDistinct(h: seq<Event>, limit: int)
    ensures NoDuplicates(ByAge(h, limit))
  {
    KeepLastMembers(Touches(h, limit));
    FilterMembers(KeepLast(Touches(h, limit)), Live(h));
  }

  lemma {:induction false} LiveTouched(h: seq<Event>, limit: int)
    ensures forall id :: id in Live(h) ==> id in Touches(h, limit)
  {
    if h != [] {
      LiveTouched(h[..|h| - 1], limit);
    }
  }

  // The list holds every live session once, so the counter counts the live sessions.
  lemma ByAgeIsLive(h: seq<Event>, limit: int)
    ensures Elements(ByAge(h, limit)) == Live(h) && |ByAge(h, limit)| == |Live(h)|
  {
    KeepLastMembers(Touches(h, limit));
    FilterMembers(KeepLast(Touches(h, limit)), Live(h));
    LiveTouched(h, limit);
    NoDuplicatesCard(ByAge(h, limit));
  }

  // The session an insertion terminates was touched before every other live one.
  lemma TerminatedIsOldest(h: seq<Event>, limit: int, id: SessionId)
    requires ByAge(h, limit) != [] && id in Live(h) && id != ByAge(h, limit)[0]
    ensures var t := Touches(h, limit);
      && ByAge(h, limit)[0] in Live(h) && ByAge(h, limit)[0] in t && id in t
      && LastTouch(t, ByAge(h, limit)[0]) < LastTouch(t, id)
  {
    ByAgeIsLive(h, limit);
    LiveTouched(h, limit);
    assert ByAge(h, limit)[0] in Elements(ByAge(h, limit)) && id in Elements(ByAge(h, limit));
    OldestFirst(h, limit, IndexOf(ByAge(h, limit), id));
  }
}
