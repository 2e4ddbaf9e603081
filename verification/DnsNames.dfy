/** Names on the wire: encodeDNSName, skipDNSName and decodeDNSName of cli/scanner.go,
    and skipName of dnsrouter/verify.go. */
module DnsNames {
  import opened Bits
  import opened DnsText

  function Cut63(label': Bytes): (l: Bytes)
    ensures |l| <= 63
  {
    if |label'| > 63 then label'[..63] else label'
  }

  function WireLabel(label': Bytes): Bytes {
    if label' == [] then [] else var l := Cut63(label'); [|l|] + l
  }

  // Length-prefixed labels, without the final zero: empty labels are left out, long ones are cut.
  function Wire(labels: seq<Bytes>): Bytes {
    if labels == [] then [] else WireLabel(labels[0]) + Wire(labels[1..])
  }

  function EncodedName(name: Bytes): Bytes {
    Wire(Split(name)) + [0]
  }

  lemma {:induction false} WireAppend(ls: seq<Bytes>, l: Bytes)
    ensures Wire(ls + [l]) == Wire(ls) + WireLabel(l)
  {
    if ls == [] {
      assert [] + [l] == [l] && [l][1..] == [];
    } else {
      assert (ls + [l])[1..] == ls[1..] + [l];
      WireAppend(ls[1..], l);
    }
  }

  lemma WireNone(labels: seq<Bytes>)
    requires labels == []
    ensures Wire(labels) == []
  {
  }

  // encodeDNSName
  method EncodeDNSName(name: Bytes) returns (out: Bytes)
    ensures out == EncodedName(name)
  {
    hide Wire, Split;
    out := [];
    var labels := Split(name);
    assert Wire(labels[..0]) == [] by { WireNone(labels[..0]); }
    for i := 0 to |labels|
      invariant out == Wire(labels[..i])
    {
      var l := labels[i];
      assert labels[..i + 1] == labels[..i] + [l];
      WireAppend(labels[..i], l);
      if |l| == 0 {
        continue;
      }
      if |l| > 63 {
        l := l[..63];
      }
      out := out + [|l|];
      out := out + l;
    }
    assert labels[..|labels|] == labels;
    out := out + [0];
  }

  // The labels that the encoding keeps.
  ghost predicate WellFormed(labels: seq<Bytes>) {
    AllDotFree(labels) && forall i :: 0 <= i < |labels| ==> 1 <= |labels[i]| <= 63
  }

  lemma EncodedJoin(labels: seq<Bytes>)
    requires labels != [] && WellFormed(labels)
    ensures EncodedName(Join(labels)) == Wire(labels) + [0]
  {
    SplitJoin(labels);
  }

  // The packet reads w from off on.
  ghost predicate Holds(pkt: Bytes, off: nat, w: Bytes) {
    off + |w| <= |pkt| && pkt[off..off + |w|] == w
  }

  lemma HoldsSplit(pkt: Bytes, off: nat, a: Bytes, b: Bytes)
    requires Holds(pkt, off, a + b)
    ensures Holds(pkt, off, a) && Holds(pkt, off + |a|, b)
  {
    var whole := pkt[off..off + |a + b|];
    assert whole[..|a|] == a && whole[|a|..] == b;
  }

  lemma HoldsByte(pkt: Bytes, off: nat, w: Bytes, k: nat)
    requires Holds(pkt, off, w) && k < |w|
    ensures off + k < |pkt| && pkt[off + k] == w[k]
  {
    assert pkt[off..off + |w|][k] == w[k];
  }

  lemma WellFormedFirst(labels: seq<Bytes>)
    requires WellFormed(labels) && labels != []
    ensures 1 <= |labels[0]| <= 63 && WellFormed(labels[1..])
  {
  }

  lemma WireFirst(labels: seq<Bytes>, tail: Bytes)
    requires labels != [] && 1 <= |labels[0]| <= 63
    ensures Wire(labels) + tail == [|labels[0]|] + (labels[0] + (Wire(labels[1..]) + tail))
    ensures |Wire(labels)| == 1 + |labels[0]| + |Wire(labels[1..])|
  {
    hide WireLabel, Cut63;
    var l, rest := labels[0], Wire(labels[1..]);
    WireLabelIs(l);
    assert Wire(labels) == WireLabel(l) + rest;
    Regroup([|l|], l, rest, tail);
  }

  lemma WireLabelIs(l: Bytes)
    requires 1 <= |l| <= 63
    ensures WireLabel(l) == [|l|] + l
  {
  }

  lemma Regroup(a: Bytes, b: Bytes, c: Bytes, d: Bytes)
    ensures (a + b + c) + d == a + (b + (c + d))
  {
  }

  lemma HoldsFirst(pkt: Bytes, off: nat, labels: seq<Bytes>, tail: Bytes)
    requires WellFormed(labels) && labels != [] && Holds(pkt, off, Wire(labels) + tail)
    ensures var next := off + 1 + |labels[0]|;
      && next <= |pkt| && 1 <= |labels[0]| <= 63
      && pkt[off] == |labels[0]| && pkt[off + 1..next] == labels[0]
      && Holds(pkt, next, Wire(labels[1..]) + tail)
      && |Wire(labels)| == 1 + |labels[0]| + |Wire(labels[1..])|
      && WellFormed(labels[1..])
  {
    hide Wire, WellFormed;
    WellFormedFirst(labels);
    var l := labels[0];
    var rest := Wire(labels[1..]) + tail;
    WireFirst(labels, tail);
    HoldsSplit(pkt, off, [|l|], l + rest);
    HoldsSplit(pkt, off + 1, l, rest);
    HoldsByte(pkt, off, [|l|], 0);
  }

  // Where skipping a name ends, and whether the name ended inside the packet.
  function Skip(pkt: Bytes, off: nat): (nat, bool)
    decreases |pkt| - off
  {
    if off >= |pkt| then (off, false)
    else if pkt[off] == 0 then (off + 1, true)
    else if pkt[off] >= 0xC0 then (off + 2, true)
    else Skip(pkt, off + 1 + pkt[off] as nat)
  }

  // skipDNSName of the scanner
  method SkipDNSName(pkt: Bytes, start: nat) returns (end: nat)
    ensures end == Skip(pkt, start).0
  {
    var offset := start;
    while offset < |pkt|
      invariant Skip(pkt, start) == Skip(pkt, offset)
      decreases |pkt| - offset
    {
      var length := pkt[offset] as nat;
      if length == 0 {
        return offset + 1;
      }
      if length >= 0xC0 {
        return offset + 2;
      }
      offset := offset + 1 + length;
    }
    end := offset;
  }

  // skipName of the router: -1 when the name runs out of the packet.
  method SkipName(pkt: Bytes, start: nat) returns (end: int)
    ensures end == if Skip(pkt, start).1 then Skip(pkt, start).0 else -1
  {
    var offset := start;
    while offset < |pkt|
      invariant Skip(pkt, start) == Skip(pkt, offset)
      decreases |pkt| - offset
    {
      var length := pkt[offset] as nat;
      if length == 0 {
        return offset + 1;
      }
      if length >= 0xC0 {
        return offset + 2;
      }
      offset := offset + 1 + length;
    }
    end := -1;
  }

  // Skipping lands just past the name, whether it ends in a zero or in a pointer.
  lemma {:induction false} SkipPastName(pkt: Bytes, off: nat, labels: seq<Bytes>, tail: Bytes)
    requires WellFormed(labels) && Holds(pkt, off, Wire(labels) + tail)
    requires tail == [0] || (|tail| == 2 && tail[0] >= 0xC0)
    ensures Skip(pkt, off) == (off + |Wire(labels)| + |tail|, true)
    decreases |labels|
  {
    hide Wire, WellFormed;
    if labels == [] {
      WireNone(labels);
      assert Wire(labels) + tail == tail;
      HoldsByte(pkt, off, tail, 0);
    } else {
      HoldsFirst(pkt, off, labels, tail);
      SkipPastName(pkt, off + 1 + |labels[0]|, labels[1..], tail);
    }
  }

  function Below(n: nat): (r: set<nat>)
    ensures forall i :: i in r <==> 0 <= i < n
  {
    if n == 0 then {} else Below(n - 1) + {n - 1}
  }

  function Target(pkt: Bytes, off: nat): nat
    requires off + 1 < |pkt|
  {
    And(pkt[off], 0x3F) * 256 + pkt[off + 1] as nat
  }

  // The labels that decoding from off collects, when the offsets in visited are not to be entered again.
  function Decoded(pkt: Bytes, off: nat, visited: set<nat>): seq<Bytes>
    decreases |Below(|pkt|) - visited|
  {
    if off >= |pkt| || off in visited || pkt[off] == 0 then []
    else
      Visit(pkt, off, visited);
      var seen := visited + {off};
      if pkt[off] >= 0xC0 then
        if off + 1 >= |pkt| then [] else Decoded(pkt, Target(pkt, off), seen)
      else
        var next := off + 1 + pkt[off] as nat;
        if next > |pkt| then [] else [pkt[off + 1..next]] + Decoded(pkt, next, seen)
  }

  lemma Visit(pkt: Bytes, off: nat, visited: set<nat>)
    requires off < |pkt| && off !in visited
    ensures |Below(|pkt|) - (visited + {off})| < |Below(|pkt|) - visited|
  {
    assert Below(|pkt|) - visited == (Below(|pkt|) - (visited + {off})) + {off};
  }

  lemma DecodedStop(pkt: Bytes, off: nat, visited: set<nat>)
    requires off >= |pkt| || off in visited || pkt[off] == 0
    ensures Decoded(pkt, off, visited) == []
  {
  }

  // What Decoded is before an offset, told by what it is after it; nothing is left past the end.
  lemma Unroll(pkt: Bytes, off: nat, visited: set<nat>)
    requires off < |pkt| && off !in visited
    ensures pkt[off] == 0 || (pkt[off] >= 0xC0 && off + 1 >= |pkt|) ==> Decoded(pkt, off, visited) == []
    ensures pkt[off] >= 0xC0 && off + 1 < |pkt| ==>
      Decoded(pkt, off, visited) == DecodedIn(pkt, Target(pkt, off), visited + {off})
    ensures var next := off + 1 + pkt[off] as nat;
      && (0 < pkt[off] < 0xC0 && next > |pkt| ==> Decoded(pkt, off, visited) == [])
      && (0 < pkt[off] < 0xC0 && next <= |pkt| ==>
            Decoded(pkt, off, visited) == [pkt[off + 1..next]] + DecodedIn(pkt, next, visited + {off}))
  {
  }

  function DecodedIn(pkt: Bytes, off: nat, visited: set<nat>): seq<Bytes> {
    if off >= |pkt| then [] else Decoded(pkt, off, visited)
  }

  lemma DecodedInIs(pkt: Bytes, off: nat, visited: set<nat>)
    ensures DecodedIn(pkt, off, visited) == Decoded(pkt, off, visited)
    ensures off >= |pkt| ==> DecodedIn(pkt, off, visited) == []
  {
  }

  // decodeDNSName: ends on every packet, pointer cycles included.
  method DecodeDNSName(pkt: Bytes, start: nat) returns (name: Bytes)
    ensures name == Join(Decoded(pkt, start, {}))
  {
    hide *;
    var offset: nat, parts, visited: set<nat> := start, [], {};
    ghost var rest := Decoded(pkt, start, {});
    assert parts + rest == rest;
    DecodedInIs(pkt, start, {});
    while offset < |pkt|
      invariant Decoded(pkt, start, {}) == parts + rest
      invariant rest == DecodedIn(pkt, offset, visited) && (offset >= |pkt| ==> rest == [])
      decreases |Below(|pkt|) - visited|
    {
      DecodedInIs(pkt, offset, visited);
      if offset in visited {
        DecodedStop(pkt, offset, visited);
        break;
      }
      Visit(pkt, offset, visited);
      Unroll(pkt, offset, visited);
      visited := visited + {offset};
      var length := pkt[offset] as nat;
      if length == 0 {
        break;
      }
      if length >= 0xC0 {
        if offset + 1 >= |pkt| {
          break;
        }
        var ptr := Or(And(pkt[offset], 0x3F) * 256, pkt[offset + 1]);
        PointerValue(pkt, offset);
        offset := ptr;
        DecodedInIs(pkt, offset, visited);
        continue;
      }
      offset := offset + 1;
      if offset + length > |pkt| {
        break;
      }
      var part := pkt[offset..offset + length];
      rest := rest[1..];
      assert parts + ([part] + rest) == (parts + [part]) + rest;
      parts := parts + [part];
      offset := offset + length;
      DecodedInIs(pkt, offset, visited);
    }
    assert rest == [] && parts + [] == parts;
    name := Join(parts);
  }

  lemma PointerValue(pkt: Bytes, off: nat)
    requires off + 1 < |pkt|
    ensures Or(And(pkt[off], 0x3F) * 256, pkt[off + 1]) == Target(pkt, off)
  {
    Pow2Byte();
    OrDisjoint(And(pkt[off], 0x3F) * 256, pkt[off + 1], 8);
  }

  // Labels written in the packet are read back, up to whatever follows them.
  lemma {:induction false} DecodePrefix(pkt: Bytes, off: nat, labels: seq<Bytes>, tail: Bytes, visited: set<nat>)
    returns (seen: set<nat>)
    requires WellFormed(labels) && Holds(pkt, off, Wire(labels) + tail)
    requires forall v :: v in visited ==> v < off || off + |Wire(labels)| < v
    ensures Decoded(pkt, off, visited) == labels + Decoded(pkt, off + |Wire(labels)|, seen)
    ensures forall v :: v in seen ==> v in visited || off <= v < off + |Wire(labels)|
    decreases |labels|
  {
    hide *;
    if labels == [] {
      WireNone(labels);
      seen := visited;
      assert labels + Decoded(pkt, off, seen) == Decoded(pkt, off, seen);
    } else {
      HoldsFirst(pkt, off, labels, tail);
      var next := off + 1 + |labels[0]|;
      Unroll(pkt, off, visited);
      DecodedInIs(pkt, next, visited + {off});
      seen := DecodePrefix(pkt, next, labels[1..], tail, visited + {off});
      var rest := Decoded(pkt, next + |Wire(labels[1..])|, seen);
      assert [labels[0]] + (labels[1..] + rest) == labels + rest;
    }
  }

  // A name that encodeDNSName wrote at any offset decodes to itself.
  lemma DecodeEncoded(pkt: Bytes, off: nat, labels: seq<Bytes>)
    requires labels != [] && WellFormed(labels)
    requires Holds(pkt, off, EncodedName(Join(labels)))
    ensures Join(Decoded(pkt, off, {})) == Join(labels)
  {
    hide Wire, WellFormed, Decoded, EncodedName, Join;
    EncodedJoin(labels);
    var seen := DecodePrefix(pkt, off, labels, [0], {});
    HoldsSplit(pkt, off, Wire(labels), [0]);
    HoldsByte(pkt, off + |Wire(labels)|, [0], 0);
    DecodedStop(pkt, off + |Wire(labels)|, seen);
    assert labels + [] == labels;
  }

  // A compression pointer to an earlier name stands for that name (section 4.1.4 of RFC 1035).
  lemma DecodeThroughPointer(pkt: Bytes, off: nat, head: seq<Bytes>, target: nat, rest: seq<Bytes>)
    requires WellFormed(head) && WellFormed(rest)
    requires Holds(pkt, target, Wire(rest) + [0]) && target + |Wire(rest)| < off && target < 0x4000
    requires Holds(pkt, off, Wire(head) + [0xC0 + target / 256, target % 256])
    ensures Decoded(pkt, off, {}) == head + rest
  {
    hide Wire, WellFormed, And, Target, Decoded;
    var pointer: Bytes := [0xC0 + target / 256, target % 256];
    var seen := DecodePrefix(pkt, off, head, pointer, {});
    var at := off + |Wire(head)|;
    PointerBytes(pkt, off, Wire(head), target);
    var seen' := DecodePrefix(pkt, target, rest, [0], seen + {at});
    HoldsSplit(pkt, target, Wire(rest), [0]);
    HoldsByte(pkt, target + |Wire(rest)|, [0], 0);
    DecodedStop(pkt, target + |Wire(rest)|, seen');
    Unroll(pkt, at, seen);
    DecodedInIs(pkt, target, seen + {at});
    assert Decoded(pkt, target, seen + {at}) == rest + [];
    assert rest + [] == rest;
  }

  lemma PointerBytes(pkt: Bytes, off: nat, w: Bytes, target: nat)
    requires target < 0x4000
    requires Holds(pkt, off, w + [0xC0 + target / 256, target % 256])
    ensures var at := off + |w|; at + 1 < |pkt| && pkt[at] >= 0xC0 && Target(pkt, at) == target
  {
    hide And, Pow2;
    var pointer: Bytes := [0xC0 + target / 256, target % 256];
    var at := off + |w|;
    HoldsSplit(pkt, off, w, pointer);
    HoldsByte(pkt, at, pointer, 0);
    HoldsByte(pkt, at, pointer, 1);
    LowSix(pkt[at]);
  }

  lemma LowSix(b: byte)
    ensures And(b, 0x3F) == b % 64
  {
    assert Pow2(6) == 64;
    AndLowBits(b, 6);
  }

  // The labels of a text that the encoding keeps: not the empty ones, and 63 bytes of the long ones.
  function Kept(labels: seq<Bytes>): (r: seq<Bytes>)
    ensures forall i :: 0 <= i < |r| ==> 1 <= |r[i]| <= 63
  {
    if labels == [] then []
    else
      var l := labels[0];
      (if |l| == 0 then [] else if |l| > 63 then [l[..63]] else [l]) + Kept(labels[1..])
  }

  lemma {:induction false} WireKept(labels: seq<Bytes>)
    requires AllDotFree(labels)
    ensures Wire(labels) == Wire(Kept(labels)) && WellFormed(Kept(labels))
  {
    if labels != [] {
      var l, rest := labels[0], labels[1..];
      WireKept(rest);
      var kept := if |l| == 0 then [] else if |l| > 63 then [l[..63]] else [l];
      assert Kept(labels) == kept + Kept(rest);
      if l != [] {
        KeptDotFree(l, kept[0], Kept(rest));
        assert Kept(labels)[1..] == Kept(rest);
      } else {
        assert Kept(labels) == Kept(rest);
      }
    }
  }

  lemma KeptDotFree(l: Bytes, cut: Bytes, rest: seq<Bytes>)
    requires DotFree(l) && cut <= l && 1 <= |cut| <= 63 && WellFormed(rest)
    ensures WellFormed([cut] + rest)
  {
    forall x | x in cut
      ensures x in l
    {
      var i :| 0 <= i < |cut| && cut[i] == x;
      assert l[i] == x;
    }
  }

  // Any text at all, encoded at any offset, decodes to the labels kept of it.
  lemma DecodeAnyEncoded(pkt: Bytes, off: nat, name: Bytes)
    requires Holds(pkt, off, EncodedName(name))
    ensures Decoded(pkt, off, {}) == Kept(Split(name))
  {
    hide Wire, WellFormed, Decoded, Split, Kept;
    var labels := Split(name);
    SplitPieces(name);
    WireKept(labels);
    var kept := Kept(labels);
    var seen := DecodePrefix(pkt, off, kept, [0], {});
    HoldsSplit(pkt, off, Wire(kept), [0]);
    HoldsByte(pkt, off + |Wire(kept)|, [0], 0);
    DecodedStop(pkt, off + |Wire(kept)|, seen);
    assert kept + [] == kept;
  }

  // A final dot changes nothing.
  lemma FinalDot(name: Bytes)
    ensures EncodedName(name + [DOT]) == EncodedName(name)
  {
    SplitPush(name);
    hide Split;
    WireAppend(Split(name), []);
    assert Wire(Split(name)) + [] == Wire(Split(name));
  }

  lemma {:induction false} SplitPush(s: Bytes)
    ensures Split(s + [DOT]) == Split(s) + [[]]
  {
    if s == [] {
      assert ([] + [DOT])[1..] == [] && [[]] + Split([]) == [[]] + [[]];
    } else {
      assert (s + [DOT])[1..] == s[1..] + [DOT];
      SplitPush(s[1..]);
    }
  }
}
