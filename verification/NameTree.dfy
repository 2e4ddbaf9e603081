/** The name index of the mapped-DNS table: a binary search tree of nodes in strcmp order. */
module NameTree {
  import opened Bits
  import opened HevList

  // A C string: the terminating NUL is not part of it.
  type CString = s: seq<byte> | forall i :: 0 <= i < |s| ==> s[i] != 0

  // strcmp, on the bytes up to and including the terminating NUL.
  function StrCmp(a: CString, b: CString): (r: int) {
    if a == [] && b == [] then 0
    else if a == [] then -1
    else if b == [] then 1
    else if a[0] != b[0] then a[0] as int - b[0] as int
    else StrCmp(a[1..], b[1..])
  }

  lemma {:induction false} StrCmpEqual(a: CString, b: CString)
    ensures StrCmp(a, b) == 0 <==> a == b
  {
    if a != [] && b != [] && a[0] == b[0] {
      StrCmpEqual(a[1..], b[1..]);
      assert a == [a[0]] + a[1..] && b == [b[0]] + b[1..];
    }
  }

  lemma {:induction false} StrCmpTransitive(a: CString, b: CString, c: CString)
    requires StrCmp(a, b) < 0 && StrCmp(b, c) < 0
    ensures StrCmp(a, c) < 0
  {
    if a != [] && b != [] && c != [] && a[0] == b[0] == c[0] {
      StrCmpTransitive(a[1..], b[1..], c[1..]);
    }
  }

  lemma {:induction false} StrCmpAntisymmetric(a: CString, b: CString)
    ensures StrCmp(a, b) < 0 <==> StrCmp(b, a) > 0
  {
    if a != [] && b != [] && a[0] == b[0] {
      StrCmpAntisymmetric(a[1..], b[1..]);
    }
  }

  // hev_mapped_dns_node: its name never changes, its record index is set once the node is placed.
  type Link = Node<CString, int>

  datatype Tree = Leaf | Branch(left: Tree, link: Link, right: Tree)

  ghost function Links(t: Tree): set<Link> {
    match t
    case Leaf => {}
    case Branch(l, n, r) => Links(l) + {n} + Links(r)
  }

  // Names greater than a node's stand to its left, smaller ones to its right.
  ghost predicate Ordered(t: Tree) {
    match t
    case Leaf => true
    case Branch(l, n, r) =>
      && Ordered(l) && Ordered(r)
      && AllAbove(Links(l), n)
      && AllBelow(Links(r), n)
  }

  ghost predicate AllAbove(s: set<Link>, n: Link) {
    forall m :: m in s ==> StrCmp(n.owner, m.owner) < 0
  }

  ghost predicate AllBelow(s: set<Link>, n: Link) {
    forall m :: m in s ==> StrCmp(m.owner, n.owner) < 0
  }

  // hev_rbtree_node_link where the search ended (rebalancing keeps the order and is left out).
  function Insert(t: Tree, link: Link): Tree {
    match t
    case Leaf => Branch(Leaf, link, Leaf)
    case Branch(l, n, r) =>
      if StrCmp(n.owner, link.owner) < 0 then Branch(Insert(l, link), n, r)
      else Branch(l, n, Insert(r, link))
  }

  // The leftmost link of a tree, and the tree without it.
  function PopLeft(t: Tree): (Tree, Link)
    requires t.Branch?
  {
    if t.left.Leaf? then (t.right, t.link)
    else var (l, m) := PopLeft(t.left); (Branch(l, t.link, t.right), m)
  }

  // hev_rbtree_erase: a node with two children is replaced by its neighbour in order.
  function Erase(t: Tree, link: Link): Tree {
    match t
    case Leaf => Leaf
    case Branch(l, n, r) =>
      var c := StrCmp(n.owner, link.owner);
      if c < 0 then Branch(Erase(l, link), n, r)
      else if c > 0 then Branch(l, n, Erase(r, link))
      else if r.Leaf? then l
      else var (rest, m) := PopLeft(r); Branch(l, m, rest)
  }

  lemma {:induction false} InsertOrdered(t: Tree, link: Link)
    requires Ordered(t)
    requires forall m :: m in Links(t) ==> m.owner != link.owner
    ensures Ordered(Insert(t, link))
    ensures Links(Insert(t, link)) == Links(t) + {link}
  {
    if t.Branch? {
      StrCmpEqual(t.link.owner, link.owner);
      StrCmpAntisymmetric(link.owner, t.link.owner);
      if StrCmp(t.link.owner, link.owner) < 0 {
        InsertOrdered(t.left, link);
      } else {
        InsertOrdered(t.right, link);
      }
    }
  }

  lemma {:induction false} PopLeftOrdered(t: Tree)
    requires t.Branch? && Ordered(t)
    ensures var (rest, m) := PopLeft(t);
      && Ordered(rest) && Links(rest) == Links(t) - {m} && m in Links(t)
      && AllBelow(Links(rest), m)
  {
    NotBelowItself(t);
    if t.left.Branch? {
      PopLeftOrdered(t.left);
      var (l, m) := PopLeft(t.left);
      forall n | n in Links(t.right)
        ensures StrCmp(n.owner, m.owner) < 0
      {
        StrCmpTransitive(n.owner, t.link.owner, m.owner);
      }
    }
  }

  // In an ordered tree the root is in neither subtree, and no link is in both.
  lemma NotBelowItself(t: Tree)
    requires t.Branch? && Ordered(t)
    ensures t.link !in Links(t.left) && t.link !in Links(t.right)
    ensures Links(t.left) !! Links(t.right)
  {
    StrCmpEqual(t.link.owner, t.link.owner);
    forall m | m in Links(t.left)
      ensures m !in Links(t.right)
    {
      StrCmpAntisymmetric(m.owner, t.link.owner);
    }
  }

  lemma EraseRootOrdered(t: Tree)
    requires t.Branch? && t.right.Branch? && Ordered(t)
    ensures var (rest, m) := PopLeft(t.right);
      && Ordered(Branch(t.left, m, rest)) && Links(Branch(t.left, m, rest)) == Links(t) - {t.link}
  {
    NotBelowItself(t);
    PopLeftOrdered(t.right);
    var (rest, m) := PopLeft(t.right);
    forall n | n in Links(t.left)
      ensures StrCmp(m.owner, n.owner) < 0
    {
      StrCmpTransitive(m.owner, t.link.owner, n.owner);
    }
  }

  // Which subtree a link of an ordered tree is in.
  lemma WhereIs(t: Tree, link: Link)
    requires Ordered(t) && link in Links(t)
    ensures var c := StrCmp(t.link.owner, link.owner);
      && (c < 0 <==> link in Links(t.left)) && (c > 0 <==> link in Links(t.right)) && (c == 0 <==> link == t.link)
  {
    NotBelowItself(t);
    StrCmpEqual(t.link.owner, link.owner);
    StrCmpAntisymmetric(link.owner, t.link.owner);
  }

  lemma {:induction false} EraseOrdered(t: Tree, link: Link)
    requires Ordered(t) && link in Links(t)
    ensures Ordered(Erase(t, link)) && Links(Erase(t, link)) == Links(t) - {link}
  {
    hide StrCmp;
    NotBelowItself(t);
    WhereIs(t, link);
    if link in Links(t.left) {
      EraseOrdered(t.left, link);
    } else if link in Links(t.right) {
      EraseOrdered(t.right, link);
    } else if t.right.Branch? {
      EraseRootOrdered(t);
    }
  }
}
