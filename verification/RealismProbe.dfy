/** The realism probe of cli/scanner.go: a random payload cut into labels, within a budget for the query. */
module RealismProbe {
  import opened Bits
  import opened DnsText
  import opened DnsNames
  import opened Options
  import opened Sequences
  import opened ProbeServer
  import opened ProbeClient
  import opened ProbePromises
  import opened TxtRecord
  import Base32

  // Labels of maxLen bytes, and the rest.
  function Pieces(s: Bytes, maxLen: nat): (r: seq<Bytes>)
    requires maxLen > 0
    ensures Flatten(r) == s
    ensures forall i :: 0 <= i < |r| ==> 1 <= |r[i]| <= maxLen
    ensures maxLen * |r| < |s| + maxLen && |s| <= maxLen * |r|
    ensures forall i :: 0 <= i < |r| - 1 ==> |r[i]| == maxLen
    decreases |s|
  {
    if s == [] then []
    else if |s| <= maxLen then [s]
    else
      var rest := Pieces(s[maxLen..], maxLen);
      assert maxLen * (1 + |rest|) == maxLen + maxLen * |rest|;
      [s[..maxLen]] + rest
  }

  lemma PiecesStep(s: Bytes, maxLen: nat)
    requires maxLen > 0
    ensures Pieces(s, maxLen) ==
      if s == [] then [] else if |s| <= maxLen then [s] else [s[..maxLen]] + Pieces(s[maxLen..], maxLen)
  {
  }

  // splitLabels
  method SplitLabels(input: Bytes, maxLen: nat) returns (labels: seq<Bytes>)
    requires maxLen > 0
    ensures labels == Pieces(input, maxLen)
  {
    hide Pieces, Flatten;
    var s := input;
    labels := [];
    ghost var rest := Pieces(s, maxLen);
    while |s| > maxLen
      invariant labels + rest == Pieces(input, maxLen) && rest == Pieces(s, maxLen)
      decreases |s|
    {
      PiecesStep(s, maxLen);
      var piece := s[..maxLen];
      s := s[maxLen..];
      rest := Pieces(s, maxLen);
      assert labels + ([piece] + rest) == (labels + [piece]) + rest;
      labels := labels + [piece];
    }
    PiecesStep(s, maxLen);
    if |s| > 0 {
      labels := labels + [s];
    } else {
      assert labels + [] == labels;
    }
  }

  // How many random bytes the probe carries.
  function RandLen(domainLen: nat, querySize: int): nat {
    if querySize >= 50 then
      var available := querySize - (12 + 4 + (domainLen + 2));
      var room := if available < 10 then 10 else available;
      if room * 5 / 9 > 100 then 100 else room * 5 / 9
    else 100
  }

  // The query of testTunnelRealism for some random bytes.
  function RealismQuery(txid: (byte, byte), random: Bytes, domain: Bytes): Bytes {
    Query(txid, Join(Pieces(Base32.EncodeToString(Base32.UPPER, random), 57)) + [DOT] + domain, TXT, None)
  }

  // testTunnelRealism, up to the sending of the query
  method MakeRealismQuery(txid: (byte, byte), domain: Bytes, querySize: int, random: nat -> byte)
    returns (pkt: Bytes)
    ensures pkt == RealismQuery(txid, seq(RandLen(|domain|, querySize), i requires i >= 0 => random(i)), domain)
  {
    hide Base32.EncodeToString, Join, Pieces, Query;
    var randLen := 100;
    if querySize >= 50 {
      var suffixLen := |domain| + 2;
      var overhead := 12 + 4 + suffixLen;
      var available := querySize - overhead;
      if available < 10 {
        available := 10;
      }
      randLen := available * 5 / 9;
      if randLen < 5 {
        randLen := 5;
      }
      if randLen > 100 {
        randLen := 100;
      }
    }
    var randBytes := new byte[randLen];
    for i := 0 to randLen
      invariant forall k :: 0 <= k < i ==> randBytes[k] == random(k)
    {
      randBytes[i] := random(i);
    }
    assert randBytes[..] == seq(randLen, i requires i >= 0 => random(i));
    var encoded := Base32.Base32Encode(randBytes[..]);
    var labels := SplitLabels(encoded, 57);
    pkt := BuildQuery(txid, Join(labels) + [DOT] + domain, TXT, None);
  }

  lemma {:induction false} FlattenMembers(labels: seq<Bytes>, i: nat, x: byte)
    requires i < |labels| && x in labels[i]
    ensures x in Flatten(labels)
  {
    if i > 0 {
      FlattenMembers(labels[1..], i - 1, x);
    }
  }

  lemma PiecesFit(s: Bytes)
    requires DotFree(s)
    ensures WellFormed(Pieces(s, 57))
  {
    var r := Pieces(s, 57);
    forall i | 0 <= i < |r|
      ensures DotFree(r[i])
    {
      if DOT in r[i] {
        FlattenMembers(r, i, DOT);
      }
    }
  }

  lemma {:induction false} JoinTwo(a: seq<Bytes>, b: seq<Bytes>)
    requires a != [] && b != []
    ensures Join(a) + [DOT] + Join(b) == Join(a + b)
  {
    if |a| == 1 {
      assert (a + b)[1..] == b;
    } else {
      assert (a + b)[1..] == a[1..] + b;
      JoinTwo(a[1..], b);
    }
  }

  lemma {:induction false} WireTwo(a: seq<Bytes>, b: seq<Bytes>)
    ensures Wire(a + b) == Wire(a) + Wire(b)
  {
    if a == [] {
      assert a + b == b;
    } else {
      assert (a + b)[1..] == a[1..] + b;
      WireTwo(a[1..], b);
    }
  }

  // A label costs its length byte.
  lemma {:induction false} WireLength(labels: seq<Bytes>)
    requires WellFormed(labels)
    ensures |Wire(labels)| == |Flatten(labels)| + |labels|
    ensures labels != [] ==> |Wire(labels)| == |Join(labels)| + 1
  {
    if labels != [] {
      WellFormedFirst(labels);
      WireFirst(labels, []);
      WireLength(labels[1..]);
    }
  }

  // The labels on the wire.
  lemma RealismName(random: Bytes, domain: seq<Bytes>)
    requires random != [] && domain != [] && WellFormed(domain)
    ensures var pieces := Pieces(Base32.EncodeToString(Base32.UPPER, random), 57);
      && pieces != [] && WellFormed(pieces) && WellFormed(pieces + domain)
      && Join(pieces) + [DOT] + Join(domain) == Join(pieces + domain)
  {
    hide Base32.EncodeToString, Base32.Letters;
    var encoded := Base32.EncodeToString(Base32.UPPER, random);
    Base32.LowerEncode(Base32.UPPER, random);
    PiecesFit(encoded);
    JoinTwo(Pieces(encoded, 57), domain);
  }

  lemma RealismLength(txid: (byte, byte), random: Bytes, domain: seq<Bytes>)
    requires random != [] && domain != [] && WellFormed(domain)
    ensures var chars := (8 * |random| + 4) / 5;
      |RealismQuery(txid, random, Join(domain))| == 12 + 4 + (|Join(domain)| + 2) + chars + (chars + 56) / 57
  {
    hide Base32.EncodeToString, Join, Wire, WellFormed;
    var encoded := Base32.EncodeToString(Base32.UPPER, random);
    var pieces := Pieces(encoded, 57);
    RealismName(random, domain);
    EncodedJoin(pieces + domain);
    WireTwo(pieces, domain);
    WireLength(pieces);
    WireLength(domain);
  }

  // The query keeps to its budget exactly when the domain leaves nine bytes of it.
  lemma WithinBudget(txid: (byte, byte), random: Bytes, domain: seq<Bytes>, querySize: int)
    requires domain != [] && WellFormed(domain) && querySize >= 50
    requires |random| == RandLen(|Join(domain)|, querySize)
    ensures |RealismQuery(txid, random, Join(domain))| <= querySize
      <==> querySize - (12 + 4 + (|Join(domain)| + 2)) >= 9
  {
    hide RealismQuery;
    RealismLength(txid, random, domain);
  }

  // The budget decides how many bytes are sent: nine characters on the wire for five of them, at least 5, at most 100.
  lemma RandLenLaw(domainLen: nat, querySize: int)
    ensures var n, room := RandLen(domainLen, querySize), querySize - domainLen - 18;
      && 5 <= n <= 100
      && (querySize < 50 ==> n == 100)
      && (querySize >= 50 && room <= 10 ==> n == 5)
      && (querySize >= 50 && 10 <= room < 180 ==> 9 * n <= 5 * room < 9 * (n + 1))
      && (querySize >= 50 && room >= 180 ==> n == 100)
  {
  }

  // It is used up to a ninth of the room that the domain leaves, and a byte, unless 100 bytes are sent.
  lemma BudgetUsed(txid: (byte, byte), random: Bytes, domain: seq<Bytes>, querySize: int)
    requires domain != [] && WellFormed(domain) && querySize >= 50
    requires |random| == RandLen(|Join(domain)|, querySize) < 100
    ensures var room := querySize - (12 + 4 + (|Join(domain)| + 2));
      9 * |RealismQuery(txid, random, Join(domain))| >= 9 * querySize - room - 9
  {
    hide RealismQuery, WellFormed, Join;
    RealismLength(txid, random, domain);
  }

  // The server reads the random bytes back from the labels below the domain.
  lemma PayloadSurvives(txid: (byte, byte), random: Bytes, domain: seq<Bytes>)
    requires random != [] && domain != [] && WellFormed(domain)
    ensures var question := Question(RealismQuery(txid, random, Join(domain)), 12);
      && question.Some? && |question.value.0| > |domain|
      && var n := |question.value.0| - |domain|;
      && question.value.0[n..] == LowerAll(domain)
      && Base32.DecodeString(Flatten(question.value.0[..n])) == Some(random)
  {
    hide Base32.EncodeToString, Base32.DecodeString, LowerAll;
    hide Join, Wire, WellFormed, Pieces, Question, Flatten, RealismQuery, Holds;
    var encoded := Base32.EncodeToString(Base32.UPPER, random);
    var pieces := Pieces(encoded, 57);
    var labels := pieces + domain;
    RealismName(random, domain);
    RealismWire(txid, random, domain);
    QuestionReads(RealismQuery(txid, random, Join(domain)), 12, labels);
    assert LowerAll(labels)[..|pieces|] == LowerAll(pieces);
    assert LowerAll(labels)[|pieces|..] == LowerAll(domain);
    FlattenLower(pieces);
    Base32.DecodeEncodeUpper(random);
  }

  lemma RealismWire(txid: (byte, byte), random: Bytes, domain: seq<Bytes>)
    requires random != [] && domain != [] && WellFormed(domain)
    ensures var pieces := Pieces(Base32.EncodeToString(Base32.UPPER, random), 57);
      Holds(RealismQuery(txid, random, Join(domain)), 12, Wire(pieces + domain) + [0])
  {
    hide Base32.EncodeToString, Join, Wire, WellFormed, Pieces, Header;
    var pieces := Pieces(Base32.EncodeToString(Base32.UPPER, random), 57);
    RealismName(random, domain);
    EncodedJoin(pieces + domain);
    var wire := Wire(pieces + domain) + [0];
    var q := RealismQuery(txid, random, Join(domain));
    assert q == Header(txid, false) + wire + [0, TXT, 0, 1];
    assert q[12..12 + |wire|] == wire;
  }

  lemma {:induction false} FlattenLower(labels: seq<Bytes>)
    ensures Flatten(LowerAll(labels)) == Lower(Flatten(labels))
  {
    if labels != [] {
      FlattenLower(labels[1..]);
      assert LowerAll(labels)[1..] == LowerAll(labels[1..]);
      assert Lower(labels[0] + Flatten(labels[1..])) == Lower(labels[0]) + Lower(Flatten(labels[1..]));
    }
  }
}
