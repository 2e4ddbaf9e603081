/** Domain names as text: dots, labels, letter case. */
module DnsText {
  import opened Bits

  const DOT: byte := 46

  // strings.Split(s, ".")
  function Split(s: Bytes): (r: seq<Bytes>)
    ensures r != []
  {
    if s == [] then [[]]
    else
      var rest := Split(s[1..]);
      if s[0] == DOT then [[]] + rest
      else [[s[0]] + rest[0]] + rest[1..]
  }

  // strings.Join(labels, ".")
  function Join(labels: seq<Bytes>): Bytes {
    if labels == [] then []
    else if |labels| == 1 then labels[0]
    else labels[0] + [DOT] + Join(labels[1..])
  }

  ghost predicate DotFree(l: Bytes) {
    DOT !in l
  }

  ghost predicate AllDotFree(labels: seq<Bytes>) {
    forall i :: 0 <= i < |labels| ==> DotFree(labels[i])
  }

  lemma {:induction false} SplitDotFree(l: Bytes)
    requires DotFree(l)
    ensures Split(l) == [l]
  {
    if l != [] {
      SplitDotFree(l[1..]);
      assert [l[0]] + l[1..] == l;
    }
  }

  lemma {:induction false} SplitHead(l: Bytes, rest: Bytes)
    requires DotFree(l)
    ensures Split(l + [DOT] + rest) == [l] + Split(rest)
  {
    if l == [] {
      assert ([] + [DOT] + rest)[1..] == rest;
    } else {
      SplitHead(l[1..], rest);
      assert (l + [DOT] + rest)[1..] == l[1..] + [DOT] + rest;
      assert [l[0]] + l[1..] == l;
    }
  }

  lemma {:induction false} SplitJoin(labels: seq<Bytes>)
    requires labels != [] && AllDotFree(labels)
    ensures Split(Join(labels)) == labels
  {
    if |labels| == 1 {
      SplitDotFree(labels[0]);
    } else {
      SplitJoin(labels[1..]);
      SplitHead(labels[0], Join(labels[1..]));
      assert labels == [labels[0]] + labels[1..];
    }
  }

  lemma JoinGrow(c: byte, ls: seq<Bytes>)
    requires ls != []
    ensures Join([[c] + ls[0]] + ls[1..]) == [c] + Join(ls)
  {
    var r := [[c] + ls[0]] + ls[1..];
    assert r[1..] == ls[1..];
    if |ls| > 1 {
      assert Join(r) == ([c] + ls[0]) + [DOT] + Join(ls[1..]);
    }
  }

  lemma JoinOne(l: Bytes)
    ensures Join([l]) == l
  {
  }

  // Splitting loses nothing.
  lemma {:induction false} JoinSplit(s: Bytes)
    ensures Join(Split(s)) == s
  {
    hide Join;
    if s == [] {
      JoinOne([]);
    } else {
      var rest := Split(s[1..]);
      JoinSplit(s[1..]);
      if s[0] == DOT {
        JoinCons([], rest);
        assert [] + [DOT] + s[1..] == s;
      } else {
        JoinGrow(s[0], rest);
        assert [s[0]] + s[1..] == s;
      }
    }
  }

  lemma JoinCons(l: Bytes, ls: seq<Bytes>)
    requires ls != []
    ensures Join([l] + ls) == l + [DOT] + Join(ls)
  {
    assert ([l] + ls)[1..] == ls;
  }

  // Splitting leaves no dot in a piece.
  lemma {:induction false} SplitPieces(s: Bytes)
    ensures AllDotFree(Split(s))
  {
    if s != [] {
      var rest, r := Split(s[1..]), Split(s);
      SplitPieces(s[1..]);
      forall i | 0 <= i < |r|
        ensures DotFree(r[i])
      {
        if s[0] == DOT {
          assert i > 0 ==> r[i] == rest[i - 1];
        } else {
          assert DotFree(rest[0]);
          assert i > 0 ==> r[i] == rest[i];
        }
      }
    }
  }

  lemma {:induction false} JoinAppend(ls: seq<Bytes>, l: Bytes)
    ensures Join(ls + [l]) == if ls == [] then l else Join(ls) + [DOT] + l
  {
    if |ls| > 0 {
      assert (ls + [l])[1..] == ls[1..] + [l];
      JoinAppend(ls[1..], l);
      if |ls| > 1 {
        assert Join(ls + [l]) == ls[0] + [DOT] + (Join(ls[1..]) + [DOT] + l);
      }
    }
  }

  // strings.ToLower on ASCII text.
  function LowerByte(b: byte): byte {
    if 65 <= b <= 90 then b + 32 else b
  }

  function Lower(s: Bytes): (r: Bytes)
    ensures |r| == |s| && forall i :: 0 <= i < |s| ==> r[i] == LowerByte(s[i])
  {
    seq(|s|, i requires 0 <= i < |s| => LowerByte(s[i]))
  }

  function LowerAll(labels: seq<Bytes>): (r: seq<Bytes>)
    ensures |r| == |labels| && forall i :: 0 <= i < |labels| ==> r[i] == Lower(labels[i])
  {
    seq(|labels|, i requires 0 <= i < |labels| => Lower(labels[i]))
  }

  lemma {:induction false} LowerJoin(labels: seq<Bytes>)
    ensures Lower(Join(labels)) == Join(LowerAll(labels))
  {
    if |labels| > 1 {
      LowerJoin(labels[1..]);
      assert LowerAll(labels)[1..] == LowerAll(labels[1..]);
      assert Lower(Join(labels)) == Lower(labels[0]) + [DOT] + Lower(Join(labels[1..]));
    }
  }

  lemma LowerDotFree(labels: seq<Bytes>)
    requires AllDotFree(labels)
    ensures AllDotFree(LowerAll(labels))
  {
    forall i | 0 <= i < |labels|
      ensures DotFree(LowerAll(labels)[i])
    {
      var l, r := labels[i], Lower(labels[i]);
      forall k | 0 <= k < |r|
        ensures r[k] != DOT
      {
        assert l[k] in l;
      }
    }
  }

  predicate HasSuffix(s: Bytes, suffix: Bytes) {
    |suffix| <= |s| && s[|s| - |suffix|..] == suffix
  }
}
