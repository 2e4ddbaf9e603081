/** What the mapped-DNS table is for: a bounded name table that forgets the least recently touched name. */
module LruModel {
  import opened Sequences
  import opened NameTree
  import opened Options

  // order lists the resident names, least recently touched first; slots[i] is the name that owns index i.
  datatype Lru = Lru(max: nat, order: seq<CString>, slots: seq<CString>)

  datatype Op = Find(name: CString) | Lookup(slot: nat)

  ghost predicate Consistent(s: Lru) {
    && 1 <= s.max && |s.order| == |s.slots| <= s.max
    && NoDuplicates(s.order) && NoDuplicates(s.slots)
    && forall n :: n in s.order <==> n in s.slots
  }

  function Empty(max: nat): Lru {
    Lru(max, [], [])
  }

  // A resident name keeps its index; a new one takes a free index, or that of the oldest name.
  ghost function FindStep(s: Lru, name: CString): (r: (Lru, nat))
    requires Consistent(s)
  {
    if name in s.order then
      (s.(order := Touch(s.order, name)), IndexOf(s.slots, name))
    else if |s.order| < s.max then
      (s.(order := s.order + [name], slots := s.slots + [name]), |s.slots|)
    else
      var i := IndexOf(s.slots, s.order[0]);
      (s.(order := s.order[1..] + [name], slots := s.slots[i := name]), i)
  }

  ghost function LookupStep(s: Lru, slot: nat): (r: (Lru, Option<CString>))
    requires Consistent(s)
  {
    if slot < |s.slots| then (s.(order := Touch(s.order, s.slots[slot])), Some(s.slots[slot]))
    else (s, None)
  }

  ghost function Step(s: Lru, op: Op): (r: Lru)
    requires Consistent(s)
  {
    match op
    case Find(name) => FindStep(s, name).0
    case Lookup(slot) => LookupStep(s, slot).0
  }

  // The names an operation touches: the one found, or the one an index resolves to.
  ghost function Touched(s: Lru, op: Op): seq<CString>
    requires Consistent(s)
  {
    match op
    case Find(name) => [name]
    case Lookup(slot) => if slot < |s.slots| then [s.slots[slot]] else []
  }

  lemma StepConsistent(s: Lru, op: Op)
    requires Consistent(s)
    ensures Consistent(Step(s, op)) && Step(s, op).max == s.max
  {
    if op.Lookup? {
      if op.slot < |s.slots| {
        TouchMembers(s.order, s.slots[op.slot]);
      }
    } else if op.name in s.order {
      TouchMembers(s.order, op.name);
    } else {
      FindNewConsistent(s, op.name);
    }
  }

  lemma FindNewConsistent(s: Lru, name: CString)
    requires Consistent(s) && name !in s.order
    ensures Consistent(FindStep(s, name).0)
  {
    if |s.order| < s.max {
      NoDuplicatesAppend(s.order, name);
      NoDuplicatesAppend(s.slots, name);
    } else {
      NoDuplicatesTail(s.order);
      NoDuplicatesAppend(s.order[1..], name);
      var i := IndexOf(s.slots, s.order[0]);
      OnlyAt(s.slots, i);
      NoDuplicatesUpdate(s.slots, i, name);
      var r := s.slots[i := name];
      forall n
        ensures n in s.order[1..] + [name] <==> n in r
      {
        if n in s.order[1..] {
          var j := IndexOf(s.slots, n);
          assert r[j] == n;
        }
        if n in r && n != name {
          assert n in s.slots && n != s.order[0];
        }
        assert r[i] == name;
      }
    }
  }

  // A miss on a full table forgets the least recently touched name alone and hands over its index.
  lemma MissEvictsOldest(s: Lru, name: CString)
    requires Consistent(s) && name !in s.order && |s.order| == s.max
    ensures var (s', slot) := FindStep(s, name);
      && Elements(s'.order) == Elements(s.order) - {s.order[0]} + {name}
      && s.slots[slot] == s.order[0] && s'.slots[slot] == name
      && forall i :: 0 <= i < |s.slots| && i != slot ==> s'.slots[i] == s.slots[i]
  {
    NoDuplicatesTail(s.order);
    assert s.order == [s.order[0]] + s.order[1..];
  }

  ghost function Run(s: Lru, ops: seq<Op>): (r: Lru)
    requires Consistent(s)
    ensures Consistent(r) && r.max == s.max
    decreases |ops|
  {
    if ops == [] then s
    else StepConsistent(s, ops[0]); Run(Step(s, ops[0]), ops[1..])
  }

  // The names touched by a run, in order.
  ghost function Trace(s: Lru, ops: seq<Op>): seq<CString>
    requires Consistent(s)
    decreases |ops|
  {
    if ops == [] then []
    else StepConsistent(s, ops[0]); Touched(s, ops[0]) + Trace(Step(s, ops[0]), ops[1..])
  }

  function LastN<T>(s: seq<T>, n: nat): seq<T> {
    if |s| <= n then s else s[|s| - n..]
  }

  // What came after the last occurrence of name.
  function AfterLast(t: seq<CString>, name: CString): seq<CString>
    requires name in t
  {
    if name in t[1..] then AfterLast(t[1..], name) else t[1..]
  }

  // Touching a name in the kept part of the history only reorders it; touching another one drops the oldest.
  lemma LastNTouch<T>(h: seq<T>, m: nat, x: T)
    requires NoDuplicates(h) && 1 <= m
    ensures LastN(Touch(h, x), m) ==
      if x in LastN(h, m) then Touch(LastN(h, m), x)
      else LastN(LastN(h, m) + [x], m)
  {
    var k := if |h| <= m then 0 else |h| - m;
    var p, o := h[..k], h[k..];
    assert h == p + o && o == LastN(h, m);
    WithoutConcat(p, o, x);
    if x in o {
      LastNTouchKept(p, o, m, x);
    } else {
      LastNTouchOther(p, o, m, x);
    }
  }

  lemma LastNTouchKept<T>(p: seq<T>, o: seq<T>, m: nat, x: T)
    requires NoDuplicates(p + o) && x in o && (|o| == m || (|o| <= m && p == []))
    ensures LastN(Touch(p + o, x), m) == Touch(o, x)
  {
    OnlyAt(p + o, |p| + IndexOf(o, x));
    forall i | 0 <= i < |p|
      ensures p[i] != x
    {
      assert (p + o)[i] == p[i];
    }
    WithoutConcat(p, o, x);
    NoDuplicatesDrop(p + o, |p|);
    assert (p + o)[|p|..] == o;
    WithoutMembers(o, x);
    assert p + Without(o, x) + [x] == p + Touch(o, x);
    LastNSuffix(p, Touch(o, x), m);
  }

  lemma LastNTouchOther<T>(p: seq<T>, o: seq<T>, m: nat, x: T)
    requires x !in o && 1 <= m && (|o| == m || (|o| <= m && p == []))
    ensures LastN(Touch(p + o, x), m) == LastN(o + [x], m)
  {
    WithoutConcat(p, o, x);
    WithoutAbsent(o, x);
    var q := if x in p then Without(p, x) else p;
    assert Touch(p + o, x) == q + o + [x];
    assert p == [] ==> q == [];
    hide *;
    PushBehind(q, o, m, x);
  }

  lemma PushBehind<T>(q: seq<T>, o: seq<T>, m: nat, x: T)
    requires 1 <= m && (|o| == m || (|o| <= m && q == []))
    ensures LastN(q + o + [x], m) == LastN(o + [x], m)
  {
    var s, t := q + o + [x], o + [x];
    if |o| == m {
      assert s[|q| + 1..] == t[1..];
    } else {
      assert s == t;
    }
  }

  lemma LastNSuffix<T>(p: seq<T>, o: seq<T>, m: nat)
    requires |o| == m || (|o| <= m && p == [])
    ensures LastN(p + o, m) == o
  {
  }

  lemma NoDuplicatesDrop<T>(s: seq<T>, k: nat)
    requires NoDuplicates(s) && k <= |s|
    ensures NoDuplicates(s[k..])
  {
    forall i, j | 0 <= i < j < |s| - k
      ensures At(s[k..], i) != At(s[k..], j)
    {
      assert At(s, k + i) != At(s, k + j);
    }
  }

  // One operation keeps order equal to the most recent names of the history.
  lemma StepIsMostRecent(s: Lru, op: Op, h: seq<CString>)
    requires Consistent(s) && s.order == LastN(KeepLast(h), s.max)
    ensures Step(s, op).order == LastN(KeepLast(h + Touched(s, op)), s.max)
  {
    hide LastN, KeepLast, NoDuplicates;
    match op
    case Find(name) =>
      TouchIsMostRecent(s, h, name);
    case Lookup(slot) =>
      if slot < |s.slots| {
        TouchIsMostRecent(s, h, s.slots[slot]);
      } else {
        assert h + [] == h;
      }
  }

  lemma TouchIsMostRecent(s: Lru, h: seq<CString>, x: CString)
    requires Consistent(s) && s.order == LastN(KeepLast(h), s.max)
    ensures LastN(KeepLast(h + [x]), s.max) ==
      if x in s.order then Touch(s.order, x)
      else if |s.order| < s.max then s.order + [x]
      else s.order[1..] + [x]
  {
    hide *;
    assert 1 <= s.max && |s.order| <= s.max by { Bounds(s); }
    KeepLastMembers(h);
    KeepLastAppend(h, x);
    LastNTouch(KeepLast(h), s.max, x);
    LastNPush(s.order, x, s.max);
  }

  lemma Bounds(s: Lru)
    requires Consistent(s)
    ensures 1 <= s.max && |s.order| <= s.max
  {
  }

  lemma LastNPush<T>(o: seq<T>, x: T, m: nat)
    requires |o| <= m && 1 <= m
    ensures LastN(o + [x], m) == if |o| < m then o + [x] else o[1..] + [x]
  {
    if |o| == m {
      assert (o + [x])[1..] == o[1..] + [x];
    }
  }

  lemma {:induction false} RunIsMostRecentFrom(s: Lru, ops: seq<Op>, h: seq<CString>)
    requires Consistent(s) && s.order == LastN(KeepLast(h), s.max)
    ensures Run(s, ops).order == LastN(KeepLast(h + Trace(s, ops)), s.max)
    decreases |ops|
  {
    hide Step, Touched, LastN, KeepLast, Consistent;
    if ops == [] {
      assert h + [] == h;
    } else {
      StepIsMostRecent(s, ops[0], h);
      StepConsistent(s, ops[0]);
      var h', rest := h + Touched(s, ops[0]), Trace(Step(s, ops[0]), ops[1..]);
      RunIsMostRecentFrom(Step(s, ops[0]), ops[1..], h');
      assert h' + rest == h + (Touched(s, ops[0]) + rest);
    }
  }

  // After any run the table holds exactly the max most recently touched distinct names, oldest first.
  lemma RunIsMostRecent(s: Lru, ops: seq<Op>)
    requires Consistent(s)
    ensures Run(s, ops).order == LastN(KeepLast(s.order + Trace(s, ops)), s.max)
  {
    KeepLastDistinct(s.order);
    RunIsMostRecentFrom(s, ops, s.order);
  }

  lemma {:induction false} KeepLastSplit(t: seq<CString>, name: CString)
    requires name in t
    ensures var k, a := KeepLast(t), KeepLast(AfterLast(t, name));
      |a| < |k| && k[|k| - 1 - |a|..] == [name] + a
  {
    if name in t[1..] {
      KeepLastSplit(t[1..], name);
    }
  }

  // A name is resident after a run exactly when it was touched and fewer than max distinct names were touched since.
  lemma ResidentIffRecent(s: Lru, ops: seq<Op>, name: CString)
    requires Consistent(s)
    ensures var h := s.order + Trace(s, ops);
      name in Run(s, ops).order <==> name in h && |Elements(AfterLast(h, name))| < s.max
  {
    var h := s.order + Trace(s, ops);
    RunIsMostRecent(s, ops);
    KeepLastMembers(h);
    if name in h {
      var k, a := KeepLast(h), KeepLast(AfterLast(h, name));
      KeepLastSplit(h, name);
      KeepLastMembers(AfterLast(h, name));
      NoDuplicatesCard(a);
      assert Elements(a) == Elements(AfterLast(h, name));
      var p := |k| - 1 - |a|;
      assert k[p] == (k[p..])[0] == name;
      OnlyAt(k, p);
      var r := LastN(k, s.max);
      if |a| < s.max && |k| > s.max {
        assert r[p - (|k| - s.max)] == name;
      }
    }
  }

  // While a name stays resident its index does not change.
  lemma StepKeepsSlot(s: Lru, op: Op, name: CString)
    requires Consistent(s) && name in s.slots && name in Step(s, op).order
    ensures name in Step(s, op).slots && IndexOf(Step(s, op).slots, name) == IndexOf(s.slots, name)
  {
    StepConsistent(s, op);
    var s' := Step(s, op);
    var i := IndexOf(s.slots, name);
    assert s'.slots[i] == name by {
      if op.Find? && op.name !in s.order && |s.order| == s.max {
        NoDuplicatesTail(s.order);
      }
    }
    IndexOfAt(s'.slots, i);
  }

  lemma AfterLastAppend(a: seq<CString>, name: CString, b: seq<CString>)
    ensures name in a + [name] + b
    ensures Elements(AfterLast(a + [name] + b, name)) <= Elements(b) - {name}
  {
    var t := a + [name] + b;
    assert t[|a|] == name;
    if name in t[1..] {
      if a == [] {
        assert t[1..] == b;
        AfterLastWithin(b, name);
      } else {
        assert t[1..] == a[1..] + [name] + b;
        AfterLastAppend(a[1..], name, b);
      }
    } else {
      assert a == [] && t[1..] == b;
    }
  }

  lemma {:induction false} AfterLastWithin(b: seq<CString>, name: CString)
    requires name in b
    ensures Elements(AfterLast(b, name)) <= Elements(b) - {name}
  {
    if name in b[1..] {
      AfterLastWithin(b[1..], name);
    }
  }

  lemma {:induction false} RunAppend(s: Lru, ops: seq<Op>, op: Op)
    requires Consistent(s)
    ensures Run(s, ops + [op]) == Step(Run(s, ops), op)
    ensures Trace(s, ops + [op]) == Trace(s, ops) + Touched(Run(s, ops), op)
    decreases |ops|
  {
    if ops == [] {
      StepConsistent(s, op);
      assert Run(Step(s, op), []) == Step(s, op);
      assert ([op])[1..] == [];
    } else {
      StepConsistent(s, ops[0]);
      assert (ops + [op])[1..] == ops[1..] + [op];
      RunAppend(Step(s, ops[0]), ops[1..], op);
    }
  }

  // At every moment of the run, fewer than max distinct names were touched since the last touch of name.
  ghost predicate StaysRecent(s: Lru, ops: seq<Op>, name: CString)
    requires Consistent(s)
  {
    forall k :: 0 <= k <= |ops| ==> RecentAfter(s, ops[..k], name)
  }

  ghost predicate RecentAfter(s: Lru, ops: seq<Op>, name: CString)
    requires Consistent(s)
  {
    var h := s.order + Trace(s, ops);
    name in h && |Elements(AfterLast(h, name))| < s.max
  }

  lemma StaysRecentFront(s: Lru, ops: seq<Op>, name: CString)
    requires Consistent(s) && ops != [] && StaysRecent(s, ops, name)
    ensures StaysRecent(s, ops[..|ops| - 1], name) && RecentAfter(s, ops, name)
  {
    var front := ops[..|ops| - 1];
    assert ops[..|ops|] == ops;
    forall k | 0 <= k <= |front|
      ensures RecentAfter(s, front[..k], name)
    {
      assert front[..k] == ops[..k];
    }
  }

  // The index of a name does not change while the name stays recent, however many others come and go in all.
  lemma {:induction false} IndexIsSticky(s: Lru, name: CString, ops: seq<Op>)
    requires Consistent(s) && StaysRecent(s, ops, name)
    ensures name in s.slots && name in Run(s, ops).slots
    ensures IndexOf(Run(s, ops).slots, name) == IndexOf(s.slots, name)
    decreases |ops|
  {
    hide Step, Trace, AfterLast, IndexOf, RecentAfter;
    if ops == [] {
      RecentIsResident(s, ops[..0], name);
    } else {
      var front, last := ops[..|ops| - 1], ops[|ops| - 1];
      assert ops == front + [last];
      StaysRecentFront(s, ops, name);
      IndexIsSticky(s, name, front);
      RunAppend(s, front, last);
      RecentIsResident(s, ops, name);
      StepKeepsSlot(Run(s, front), last, name);
    }
  }

  lemma RecentIsResident(s: Lru, ops: seq<Op>, name: CString)
    requires Consistent(s)
    ensures RecentAfter(s, ops, name) <==> name in Run(s, ops).order
    ensures name in Run(s, ops).order <==> name in Run(s, ops).slots
  {
    ResidentIffRecent(s, ops, name);
  }

  // A name just touched stays recent through any run that touches fewer than max others.
  lemma FewOthersStayRecent(s: Lru, a: seq<CString>, name: CString, ops: seq<Op>)
    requires Consistent(s) && s.order == a + [name]
    requires |Elements(Trace(s, ops)) - {name}| < s.max
    ensures StaysRecent(s, ops, name)
  {
    forall k | 0 <= k <= |ops|
      ensures RecentAfter(s, ops[..k], name)
    {
      TracePrefix(s, ops, k);
      AfterLastAppend(a, name, Trace(s, ops[..k]));
      SubsetCard(Elements(Trace(s, ops[..k])) - {name}, Elements(Trace(s, ops)) - {name});
      SubsetCard(Elements(AfterLast(s.order + Trace(s, ops[..k]), name)), Elements(Trace(s, ops[..k])) - {name});
    }
  }

  lemma {:induction false} TracePrefix(s: Lru, ops: seq<Op>, k: nat)
    requires Consistent(s) && k <= |ops|
    ensures Elements(Trace(s, ops[..k])) <= Elements(Trace(s, ops))
    decreases |ops|
  {
    if k > 0 {
      StepConsistent(s, ops[0]);
      assert ops[..k][1..] == ops[1..][..k - 1];
      TracePrefix(Step(s, ops[0]), ops[1..], k - 1);
      var x, t, t' := Touched(s, ops[0]), Trace(Step(s, ops[0]), ops[1..]), Trace(Step(s, ops[0]), ops[1..][..k - 1]);
      forall n | n in x + t'
        ensures n in x + t
      {
        assert n in t' ==> n in Elements(t') && n in Elements(t);
      }
    }
  }

  // The index a find gave leads back to the name as long as the name stays recent.
  lemma FoundNameResolves(s: Lru, name: CString, ops: seq<Op>)
    requires Consistent(s)
    ensures Consistent(FindStep(s, name).0)
    ensures var (s', slot) := FindStep(s, name);
      StaysRecent(s', ops, name) ==> LookupStep(Run(s', ops), slot).1 == Some(name)
  {
    StepConsistent(s, Find(name));
    var (s', slot) := FindStep(s, name);
    if StaysRecent(s', ops, name) {
      IndexIsSticky(s', name, ops);
      assert s'.slots[slot] == name;
      IndexOfAt(s'.slots, slot);
    }
  }

  // So it does through any run that touches fewer than max other names.
  lemma FewOthersResolve(s: Lru, name: CString, ops: seq<Op>)
    requires Consistent(s)
    ensures Consistent(FindStep(s, name).0)
    ensures var (s', slot) := FindStep(s, name);
      |Elements(Trace(s', ops)) - {name}| < s.max ==> LookupStep(Run(s', ops), slot).1 == Some(name)
  {
    StepConsistent(s, Find(name));
    var s' := FindStep(s, name).0;
    FoundNameResolves(s, name, ops);
    if |Elements(Trace(s', ops)) - {name}| < s.max {
      assert s'.order == s'.order[..|s'.order| - 1] + [name];
      FewOthersStayRecent(s', s'.order[..|s'.order| - 1], name, ops);
    }
  }
}
