/** The mapped-DNS table of hev-mapped-dns.c: fake addresses for names, and names for fake addresses. */
module MappedDns {
  import opened Bits
  import opened Sequences
  import opened HevList
  import opened NameTree
  import opened Options
  import Lru = LruModel

  ghost function NameOf(l: Node?<CString, int>): CString {
    if l == null then [] else l.owner
  }

  ghost function Names(s: seq<Node?<CString, int>>): (r: seq<CString>)
    ensures |r| == |s|
    ensures forall i :: 0 <= i < |s| ==> r[i] == NameOf(s[i])
  {
    seq(|s|, i requires 0 <= i < |s| => NameOf(s[i]))
  }

  // Every link sits in the record that its index names, and no other record is taken.
  ghost predicate Seated(links: set<Link>, recs: seq<Node?<CString, int>>, use: int, idx: map<Link, int>) {
    && 0 <= use <= |recs|
    && idx.Keys == links
    && (forall i :: 0 <= i < use ==> recs[i] != null && recs[i] in links && idx[recs[i]] == i)
    && (forall l :: l in links ==> 0 <= idx[l] < use && recs[idx[l]] == l)
    && (forall i :: use <= i < |recs| ==> recs[i] == null)
  }

  lemma SeatedAppend(links: set<Link>, recs: seq<Node?<CString, int>>, use: int, idx: map<Link, int>,
                     node: Link, idx': map<Link, int>)
    requires Seated(links, recs, use, idx) && use < |recs| && node !in links
    requires idx'.Keys == links + {node} && idx'[node] == use
    requires forall l :: l in links ==> idx'[l] == idx[l]
    ensures Seated(links + {node}, recs[use := node], use + 1, idx')
  {
  }

  lemma SeatedReplace(links: set<Link>, recs: seq<Node?<CString, int>>, use: int, idx: map<Link, int>,
                      node: Link, victim: Link, idx': map<Link, int>)
    requires Seated(links, recs, use, idx) && victim in links && node !in links
    requires idx'.Keys == links + {node} - {victim} && idx'[node] == idx[victim]
    requires forall l :: l in links - {victim} ==> idx'[l] == idx[l]
    ensures Seated(links + {node} - {victim}, recs[idx[victim] := node], use, idx')
  {
  }

  lemma SeatedIndex(links: set<Link>, recs: seq<Node?<CString, int>>, use: int, idx: map<Link, int>, l: Link)
    requires Seated(links, recs, use, idx) && l in links
    ensures 0 <= idx[l] < use && recs[idx[l]] == l
  {
  }

  // The records name exactly the nodes of the list.
  lemma SeatedNames(nodes: seq<Link>, recs: seq<Node?<CString, int>>, use: int, idx: map<Link, int>)
    requires Seated(Elements(nodes), recs, use, idx) && NoDuplicates(Names(nodes))
    ensures NoDuplicates(Names(recs[..use]))
    ensures forall n :: n in Names(nodes) <==> n in Names(recs[..use])
  {
    var order, slots := Names(nodes), Names(recs[..use]);
    forall i, j | 0 <= i < j < use
      ensures At(slots, i) != At(slots, j)
    {
      OnlyAt(order, IndexOf(nodes, recs[i]));
      assert order[IndexOf(nodes, recs[j])] == slots[j];
    }
    forall n | n in order
      ensures n in slots
    {
      assert slots[idx[nodes[IndexOf(order, n)]]] == n;
    }
    forall n | n in slots
      ensures n in order
    {
      assert order[IndexOf(nodes, recs[IndexOf(slots, n)])] == n;
    }
  }

  lemma NamesTouch(s: seq<Link>, l: Link)
    requires NoDuplicates(s) && NoDuplicates(Names(s)) && l in s
    ensures l.owner in Names(s)
    ensures Names(Without(s, l)) == Without(Names(s), l.owner)
    ensures Names(Without(s, l) + [l]) == Touch(Names(s), l.owner)
  {
    var k := IndexOf(s, l);
    WithoutAt(s, k);
    WithoutAt(Names(s), k);
    assert Names(RemoveAt(s, k)) == RemoveAt(Names(s), k);
    assert Names(Without(s, l) + [l]) == Names(Without(s, l)) + [l.owner];
  }

  lemma NamesAppend(s: seq<Link>, l: Link)
    requires NoDuplicates(Names(s)) && l.owner !in Names(s)
    ensures Names(s + [l]) == Names(s) + [l.owner] && NoDuplicates(Names(s + [l]))
  {
    assert Names(s + [l]) == Names(s) + [l.owner];
    NoDuplicatesAppend(Names(s), l.owner);
  }

  // Appending a node and dropping the first one.
  lemma Rotate(s: seq<Link>, l: Link)
    requires s != [] && NoDuplicates(s) && l !in s
    requires NoDuplicates(Names(s)) && l.owner !in Names(s)
    ensures (s + [l])[0] == s[0] && Without(s + [l], s[0]) == s[1..] + [l]
    ensures Elements(s[1..] + [l]) == Elements(s) + {l} - {s[0]}
    ensures Names(s[1..] + [l]) == Names(s)[1..] + [l.owner] && NoDuplicates(Names(s[1..] + [l]))
  {
    assert (s + [l])[1..] == s[1..] + [l];
    NoDuplicatesTail(s);
    assert Elements(s) == Elements(s[1..]) + {s[0]};
    assert Elements(s[1..] + [l]) == Elements(s[1..]) + {l};
    NoDuplicatesTail(Names(s));
    NoDuplicatesAppend(Names(s)[1..], l.owner);
    assert Names(s[1..] + [l]) == Names(s)[1..] + [l.owner];
  }

  lemma AppendState(st: Lru.Lru, s: seq<Link>, recs: seq<Node?<CString, int>>, use: nat, l: Link)
    requires Lru.Consistent(st) && use < |recs| == st.max && l.owner !in st.order
    requires st.order == Names(s) && st.slots == Names(recs[..use])
    ensures Names(recs[use := l][..use + 1]) == st.slots + [l.owner]
    ensures (Lru.Lru(st.max, Names(s + [l]), Names(recs[use := l][..use + 1])), use) == Lru.FindStep(st, l.owner)
  {
    assert Names(recs[use := l][..use + 1]) == st.slots + [l.owner];
    assert Names(s + [l]) == Names(s) + [l.owner];
  }

  lemma ReplaceState(st: Lru.Lru, s: seq<Link>, recs: seq<Node?<CString, int>>, slot: nat, l: Link)
    requires Lru.Consistent(st) && slot < |recs| == st.max == |s| && l.owner !in st.order
    requires st.order == Names(s) && st.slots == Names(recs) && recs[slot] == s[0]
    ensures (Lru.Lru(st.max, Names(s[1..] + [l]), Names(recs[slot := l])), slot) == Lru.FindStep(st, l.owner)
  {
    assert Names(s[1..] + [l]) == Names(s)[1..] + [l.owner];
    IndexOfAt(st.slots, slot);
    assert Names(recs[slot := l]) == st.slots[slot := l.owner];
  }

  class MappedDns {
    var use: int
    const max: int
    const net: nat
    const mask: int
    const list: List<CString, int>
    var tree: Tree
    const records: array<Node?<CString, int>>
    ghost var Repr: set<object>

    ghost function Indices(): map<Link, int>
      reads this, Links(tree)
    {
      map l | l in Links(tree) :: l.data
    }

    // Tree, list, records and the use counter describe the same links.
    ghost predicate Valid()
      reads this, Repr
    {
      && {this, list, records} <= Repr && Links(tree) <= Repr
      && 1 <= max == records.Length && max <= -1 - mask
      && Seated(Links(tree), records[..], use, Indices())
      && Ordered(tree)
      && Elements(list.nodes) == Links(tree) && |list.nodes| == use
      && (forall l :: l in list.nodes ==> l in Repr) && list.Valid()
      && NoDuplicates(Names(list.nodes))
    }

    ghost function State(): Lru.Lru
      requires Valid()
      reads this, Repr
    {
      Lru.Lru(if max < 0 then 0 else max, Names(list.nodes), Names(records[..use]))
    }

    lemma StateConsistent()
      requires Valid()
      ensures Lru.Consistent(State())
    {
      SeatedNames(list.nodes, records[..], use, Indices());
    }

    // hev_mapped_dns_construct, once its size check has passed.
    constructor (net: nat, mask: int, max: int)
      requires 1 <= max <= -1 - mask
      ensures Valid() && fresh(Repr)
      ensures this.net == net && this.mask == mask && this.max == max
      ensures State() == Lru.Empty(max)
    {
      this.net, this.mask, this.max, use := net, mask, max, 0;
      list := new List<CString, int>();
      tree := Leaf;
      records := new Node?<CString, int>[max](i => null);
      Repr := {this, list, records};
    }

    method MoveToTail(node: Link)
      requires Valid() && node in list.nodes
      modifies list, Links(tree)`next, Links(tree)`prev
      ensures Valid() && Repr == old(Repr)
      ensures State() == old(State()).(order := Touch(old(State()).order, node.owner))
    {
      hide Seated, Links, Names;
      ghost var s := list.nodes;
      list.MoveToTail(node);
      assert Indices() == old(Indices());
      assert Names(list.nodes) == Touch(Names(s), node.owner) && NoDuplicates(Names(list.nodes)) by {
        NamesTouch(s, node);
        TouchMembers(Names(s), node.owner);
      }
    }

    // The descent of hev_mapped_dns_find.
    method Search(name: CString) returns (node: Node?<CString, int>)
      requires Valid()
      ensures node == null ==> name !in Names(list.nodes)
      ensures node != null ==> node in list.nodes && node.owner == name
    {
      var cur := tree;
      while cur.Branch?
        invariant Ordered(cur) && Links(cur) <= Links(tree)
        invariant forall l :: l in Links(tree) && l.owner == name ==> l in Links(cur)
        decreases cur
      {
        node := cur.link;
        var res := StrCmp(node.owner, name);
        StrCmpAntisymmetric(name, node.owner);
        StrCmpEqual(node.owner, name);
        if res < 0 {
          cur := cur.left;
        } else if res > 0 {
          cur := cur.right;
        } else {
          return;
        }
      }
      forall i | 0 <= i < |list.nodes|
        ensures Names(list.nodes)[i] != name
      {
        assert list.nodes[i] in Links(tree);
      }
      node := null;
    }

    // A miss with a free record: the new link takes the index that use names.
    method Append(node: Link)
      requires Valid() && use < max
      requires node !in list.nodes && node.owner !in Names(list.nodes)
      modifies this, list, Links(tree)`next, Links(tree)`prev, records, node
      ensures Valid() && node.data == old(use) == use - 1
      ensures Repr == old(Repr) + {node}
      ensures list.nodes == old(list.nodes) + [node]
      ensures records[..] == old(records[..])[use - 1 := node]
    {
      hide Seated, Links, Insert, Names, List.Valid, Ordered, NoDuplicates;
      ghost var s, links, recs, idx := list.nodes, Links(tree), records[..], Indices();
      InsertNew(node);
      NamesAppend(s, node);
      tree := Insert(tree, node);
      list.AddTail(node);
      records[use] := node;
      node.data := use;
      use := use + 1;
      Repr := Repr + {node};
      assert records[..] == recs[use - 1 := node];
      SeatedAppend(links, recs, use - 1, idx, node, Indices());
    }

    lemma InsertNew(node: Link)
      requires Valid() && node.owner !in Names(list.nodes)
      ensures Ordered(Insert(tree, node))
      ensures Links(Insert(tree, node)) == Links(tree) + {node}
    {
      forall m | m in Links(tree)
        ensures m.owner != node.owner
      {
        var i := IndexOf(list.nodes, m);
        assert Names(list.nodes)[i] == m.owner;
      }
      InsertOrdered(tree, node);
    }

    // The list part of an eviction: the new node at the tail, the first one out.
    method RotateList(node: Link) returns (victim: Link)
      requires Valid() && use > 0
      requires node !in list.nodes && node.owner !in Names(list.nodes)
      modifies list, Links(tree)`next, Links(tree)`prev, node`next, node`prev
      ensures list.Valid() && list.nodes == old(list.nodes)[1..] + [node]
      ensures victim == old(list.nodes)[0]
      ensures Elements(list.nodes) == Elements(old(list.nodes)) + {node} - {victim}
      ensures Names(list.nodes) == Names(old(list.nodes))[1..] + [node.owner] && NoDuplicates(Names(list.nodes))
    {
      Rotate(list.nodes, node);
      assert list.Valid();
      hide *;
      list.AddTail(node);
      victim := list.First();
      list.Del(victim);
    }

    // A miss on a full table: the new link takes the index of the first list node, which is dropped.
    method Replace(node: Link) returns (slot: int)
      requires Valid() && use == max
      requires node !in list.nodes && node.owner !in Names(list.nodes)
      modifies this, list, Links(tree)`next, Links(tree)`prev, records, node
      ensures Valid() && use == max
      ensures Repr == old(Repr) + {node}
      ensures list.nodes == old(list.nodes)[1..] + [node]
      ensures 0 <= slot < max && old(|list.nodes| > 0 && records[slot] == list.nodes[0])
      ensures records[..] == old(records[..])[slot := node]
    {
      hide Seated, Links, Insert, Names, Erase, Ordered, List.Valid, NoDuplicates;
      ghost var s, links, recs, idx := list.nodes, Links(tree), records[..], Indices();
      InsertNew(node);
      var victim := RotateList(node);
      tree := Insert(tree, node);
      EraseOrdered(tree, victim);
      SeatedIndex(links, recs, use, idx, victim);
      slot := victim.data;
      tree := Erase(tree, victim);
      records[slot] := node;
      node.data := slot;
      Repr := Repr + {node};
      assert records[..] == recs[slot := node];
      SeatedReplace(links, recs, use, idx, node, victim, Indices());
    }

    // The miss branch of hev_mapped_dns_find.
    method Admit(name: CString) returns (idx: int)
      requires Valid() && name !in Names(list.nodes)
      modifies this, list, Links(tree)`next, Links(tree)`prev, records
      ensures Valid() && old(Lru.Consistent(State()))
      ensures fresh(Repr - old(Repr))
      ensures (State(), idx) == Lru.FindStep(old(State()), name)
    {
      StateConsistent();
      hide Seated, Links, Names, List.Valid, Lru.Consistent, Lru.FindStep, NoDuplicates;
      ghost var st, s, recs := State(), list.nodes, records[..];
      var node := new Node(name, 0);
      if use < max {
        AppendState(st, s, recs, use, node);
        Append(node);
        idx := node.data;
      } else {
        assert recs[..use] == recs;
        idx := Replace(node);
        ReplaceState(st, s, recs, idx, node);
        assert records[..use] == records[..];
      }
    }

    // hev_mapped_dns_find; mem says whether an allocation would succeed.
    method Find(name: CString, mem: bool) returns (idx: int)
      requires Valid()
      modifies Repr
      ensures Valid() && old(Lru.Consistent(State()))
      ensures fresh(Repr - old(Repr))
      ensures mem || name in old(State()).order ==> (State(), idx) == Lru.FindStep(old(State()), name)
      ensures !mem && name !in old(State()).order ==> idx == -1 && State() == old(State())
    {
      hide Lru.FindStep, Lru.Consistent, Touch, Seated, Names;
      StateConsistent();
      var node := Search(name);
      if node != null {
        HitState(node);
        MoveToTail(node);
        return node.data;
      }
      if !mem {
        return -1;
      }
      idx := Admit(name);
    }

    lemma HitState(node: Link)
      requires Valid() && node in list.nodes
      ensures Lru.Consistent(State()) && node.owner in State().order
      ensures Lru.FindStep(State(), node.owner) ==
        (State().(order := Touch(State().order, node.owner)), node.data)
    {
      StateConsistent();
      assert node.owner == State().order[IndexOf(list.nodes, node)];
      SeatedIndex(Links(tree), records[..], use, Indices(), node);
      IndexOfAt(State().slots, node.data);
    }

    // hev_mapped_dns_lookup
    method Lookup(ip: nat) returns (name: Option<CString>)
      requires Valid()
      modifies Repr
      ensures Valid() && Repr == old(Repr)
      ensures old(Lru.Consistent(State()))
      ensures (State(), name) == Lru.LookupStep(old(State()), And(ip, -1 - mask))
    {
      StateConsistent();
      var idx := And(ip, -1 - mask);
      if idx >= max {
        return None;
      }
      var node := records[idx];
      if node == null {
        return None;
      }
      MoveToTail(node);
      return Some(node.owner);
    }
  }

  // hev_mapped_dns_new: no table without memory, or when the host part of the network is too small for max names.
  method New(net: nat, mask: int, max: int, mem: bool) returns (dns: MappedDns?)
    requires 1 <= max
    ensures dns == null <==> !mem || max > -1 - mask
    ensures dns != null ==> dns.Valid() && dns.max == max && dns.State() == Lru.Empty(max)
  {
    if !mem {
      return null;
    }
    if max > -1 - mask {
      return null;
    }
    dns := new MappedDns(net, mask, max);
  }

  // The address handed out for an index, and the index an address is looked up under.
  function Address(net: nat, idx: nat): nat {
    Or(net, idx)
  }

  function SlotOf(mask: int, ip: nat): nat
    requires mask < 0
  {
    And(ip, -1 - mask)
  }

  lemma AddressResolves(net: nat, mask: int, i: nat, k: nat)
    requires -1 - mask == Pow2(k) - 1 && net % Pow2(k) == 0 && i < Pow2(k)
    ensures SlotOf(mask, Address(net, i)) == i
  {
    hide And, Or, Pow2;
    OrDisjoint(net, i, k);
    AndLowBits(net + i, k);
    DivModUnique(net + i, Pow2(k), net / Pow2(k), i);
  }

  // Addresses lie in the network, at their index.
  lemma AddressIsSum(net: nat, mask: int, i: nat, k: nat)
    requires -1 - mask == Pow2(k) - 1 && net % Pow2(k) == 0 && i < Pow2(k)
    ensures Address(net, i) == net + i
  {
    hide And, Or, Pow2;
    OrDisjoint(net, i, k);
  }

  lemma FirstAddress(net: nat, mask: int, k: nat)
    requires -1 - mask == Pow2(k) - 1
    ensures SlotOf(mask, Address(net, 0)) == net % Pow2(k)
  {
    assert Or(net, 0) == net;
    hide And, Or, Pow2;
    AndLowBits(net, k);
  }

  // On a contiguous host mask every address handed out leads back to its index
  // exactly when the network address has no host bits.
  lemma AddressesResolve(net: nat, mask: int, max: nat, k: nat)
    requires -1 - mask == Pow2(k) - 1 && 1 <= max <= -1 - mask
    ensures (forall i: nat :: i < max ==> SlotOf(mask, Address(net, i)) == i) <==> net % Pow2(k) == 0
  {
    hide *;
    FirstAddress(net, mask, k);
    if net % Pow2(k) == 0 {
      forall i: nat | i < max
        ensures SlotOf(mask, Address(net, i)) == i
      {
        AddressResolves(net, mask, i, k);
      }
    }
  }

  // The promise of the table: an address handed out for a name keeps leading to it as long as the name stays recent,
  // so through any run that touches fewer than max other names.
  lemma FoundAddressResolves(s: Lru.Lru, name: CString, ops: seq<Lru.Op>, net: nat, mask: int, k: nat)
    requires Lru.Consistent(s) && s.max <= -1 - mask
    requires -1 - mask == Pow2(k) - 1 && net % Pow2(k) == 0
    ensures var (s', idx) := Lru.FindStep(s, name);
      && Lru.Consistent(s')
      && (Lru.StaysRecent(s', ops, name) || |Elements(Lru.Trace(s', ops)) - {name}| < s.max ==>
            Lru.LookupStep(Lru.Run(s', ops), SlotOf(mask, Address(net, idx))).1 == Some(name))
  {
    Lru.FoundNameResolves(s, name, ops);
    Lru.FewOthersResolve(s, name, ops);
    AddressesResolve(net, mask, s.max, k);
  }

  datatype Request = ResolveName(name: CString) | ResolveAddress(ip: nat)

  function AsOp(mask: int, r: Request): Lru.Op
    requires mask < 0
  {
    match r
    case ResolveName(name) => Lru.Find(name)
    case ResolveAddress(ip) => Lru.Lookup(SlotOf(mask, ip))
  }

  // Whatever the request, the linked structure takes the step of the model.
  method ServeOne(dns: MappedDns, r: Request)
    requires dns.Valid()
    modifies dns.Repr
    ensures dns.Valid() && fresh(dns.Repr - old(dns.Repr))
    ensures old(Lru.Consistent(dns.State()))
    ensures dns.State() == Lru.Step(old(dns.State()), AsOp(dns.mask, r))
  {
    match r
    case ResolveName(name) =>
      var idx := dns.Find(name, true);
    case ResolveAddress(ip) =>
      var name := dns.Lookup(ip);
  }
}
