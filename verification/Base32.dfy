/** Base32 without padding (section 6 of RFC 4648), and the hand-written encoder of cli/scanner.go. */
module Base32 {
  import opened Bits
  import opened DnsText
  import opened Options

  // The k low bits of v, most significant first.
  function ToBits(v: nat, k: nat): (r: seq<bool>)
    ensures |r| == k
  {
    if k == 0 then [] else ToBits(v / 2, k - 1) + [v % 2 == 1]
  }

  function Val(bits: seq<bool>): (v: nat)
    ensures v < Pow2(|bits|)
  {
    if bits == [] then 0
    else 2 * Val(bits[..|bits| - 1]) + if bits[|bits| - 1] then 1 else 0
  }

  function Zeros(k: nat): (r: seq<bool>)
    ensures |r| == k
  {
    seq(k, _ => false)
  }

  function BitsOf(data: Bytes): (r: seq<bool>)
    ensures |r| == 8 * |data|
  {
    if data == [] then [] else ToBits(data[0], 8) + BitsOf(data[1..])
  }

  // Groups of five bits, the last one filled up with zeros.
  function Symbols(bits: seq<bool>): (r: seq<nat>)
    ensures |r| == (|bits| + 4) / 5
    ensures forall i :: 0 <= i < |r| ==> r[i] < 32
    decreases |bits|
  {
    if bits == [] then []
    else if |bits| < 5 then
      Pow2Five();
      [Val(bits + Zeros(5 - |bits|))]
    else
      Pow2Five();
      [Val(bits[..5])] + Symbols(bits[5..])
  }

  lemma Pow2Five()
    ensures Pow2(5) == 32
  {
  }

  function SymbolBits(symbols: seq<nat>): (r: seq<bool>)
    ensures |r| == 5 * |symbols|
  {
    if symbols == [] then [] else ToBits(symbols[0], 5) + SymbolBits(symbols[1..])
  }

  // Whole bytes; what is left over is dropped.
  function BytesOf(bits: seq<bool>): (r: Bytes)
    ensures |r| == |bits| / 8
    decreases |bits|
  {
    if |bits| < 8 then []
    else
      Pow2Byte();
      [Val(bits[..8])] + BytesOf(bits[8..])
  }

  lemma {:induction false} ToBitsVal(bits: seq<bool>)
    ensures ToBits(Val(bits), |bits|) == bits
  {
    if bits != [] {
      ToBitsVal(bits[..|bits| - 1]);
    }
  }

  lemma {:induction false} ValToBits(v: nat, k: nat)
    requires v < Pow2(k)
    ensures Val(ToBits(v, k)) == v
  {
    if k > 0 {
      ValToBits(v / 2, k - 1);
      assert ToBits(v, k)[..k - 1] == ToBits(v / 2, k - 1);
    }
  }

  lemma {:induction false} ValConcat(a: seq<bool>, b: seq<bool>)
    ensures Val(a + b) == Val(a) * Pow2(|b|) + Val(b)
  {
    hide Val, Pow2;
    if b == [] {
      assert a + b == a;
      EmptyVal();
    } else {
      var n := |b| - 1;
      ValConcat(a, b[..n]);
      var c := a + b;
      assert c[..|c| - 1] == a + b[..n] && c[|c| - 1] == b[n];
      ValStep(c);
      ValStep(b);
      DoubleRight(Val(a), n);
    }
  }

  lemma EmptyVal()
    ensures Val([]) == 0 && Pow2(0) == 1
  {
  }

  lemma ValStep(c: seq<bool>)
    requires c != []
    ensures Val(c) == 2 * Val(c[..|c| - 1]) + if c[|c| - 1] then 1 else 0
  {
  }

  lemma DoubleRight(v: nat, n: nat)
    ensures v * Pow2(n + 1) == 2 * (v * Pow2(n))
  {
    assert Pow2(n + 1) == 2 * Pow2(n);
  }

  lemma SymbolBitsCons(v: nat, rest: seq<nat>)
    ensures SymbolBits([v] + rest) == ToBits(v, 5) + SymbolBits(rest)
  {
    assert ([v] + rest)[1..] == rest;
  }

  // Decoding the groups gives the bits back, with fewer than five zeros after them.
  lemma {:induction false} SymbolsInvert(bits: seq<bool>) returns (pad: nat)
    ensures pad < 5 && SymbolBits(Symbols(bits)) == bits + Zeros(pad)
    decreases |bits|
  {
    hide Val, ToBits;
    if bits == [] {
      pad := 0;
      assert [] + Zeros(0) == [];
    } else if |bits| < 5 {
      pad := 5 - |bits|;
      var s := bits + Zeros(pad);
      ToBitsVal(s);
      SymbolBitsCons(Val(s), []);
      assert [Val(s)] + [] == [Val(s)] && s + [] == s;
    } else {
      pad := SymbolsInvert(bits[5..]);
      ToBitsVal(bits[..5]);
      SymbolBitsCons(Val(bits[..5]), Symbols(bits[5..]));
      assert bits[..5] + (bits[5..] + Zeros(pad)) == bits + Zeros(pad);
    }
  }

  lemma {:induction false} BytesInvert(data: Bytes, extra: seq<bool>)
    requires |extra| < 8
    ensures BytesOf(BitsOf(data) + extra) == data
  {
    if data != [] {
      var bits := BitsOf(data) + extra;
      assert bits[..8] == ToBits(data[0], 8) && bits[8..] == BitsOf(data[1..]) + extra;
      Pow2Byte();
      ValToBits(data[0], 8);
      BytesInvert(data[1..], extra);
    }
  }

  lemma Invert(data: Bytes)
    ensures BytesOf(SymbolBits(Symbols(BitsOf(data)))) == data
  {
    var pad := SymbolsInvert(BitsOf(data));
    BytesInvert(data, Zeros(pad));
  }

  // The two alphabets: base 97 is "a..z2..7", base 65 is "A..Z2..7".
  function Letter(base: byte, v: nat): (b: byte)
    requires v < 32 && base <= 97
  {
    if v < 26 then base + v else 50 + (v - 26)
  }

  function Letters(base: byte, symbols: seq<nat>): (r: Bytes)
    requires base <= 97 && forall i :: 0 <= i < |symbols| ==> symbols[i] < 32
    ensures |r| == |symbols| && forall i :: 0 <= i < |r| ==> r[i] == Letter(base, symbols[i])
  {
    seq(|symbols|, i requires 0 <= i < |symbols| => Letter(base, symbols[i]))
  }

  const LOWER: byte := 97
  const UPPER: byte := 65

  function EncodeToString(base: byte, data: Bytes): (r: Bytes)
    requires base <= 97
    ensures |r| == (8 * |data| + 4) / 5
  {
    Letters(base, Symbols(BitsOf(data)))
  }

  // The value of a letter of the lowercase alphabet.
  function Unletter(b: byte): Option<nat> {
    if 97 <= b <= 122 then Some(b - 97) else if 50 <= b <= 55 then Some(b - 50 + 26) else None
  }

  function Unletters(s: Bytes): (r: Option<seq<nat>>)
    ensures r.Some? ==> |r.value| == |s|
  {
    if s == [] then Some([])
    else
      match (Unletter(s[0]), Unletters(s[1..]))
      case (Some(v), Some(rest)) => Some([v] + rest)
      case _ => None
  }

  // DecodeString of the lowercase alphabet.
  function DecodeString(s: Bytes): Option<Bytes> {
    match Unletters(s)
    case None => None
    case Some(symbols) => Some(BytesOf(SymbolBits(symbols)))
  }

  lemma {:induction false} UnlettersInvert(symbols: seq<nat>)
    requires forall i :: 0 <= i < |symbols| ==> symbols[i] < 32
    ensures Unletters(Letters(LOWER, symbols)) == Some(symbols)
  {
    if symbols != [] {
      UnlettersInvert(symbols[1..]);
      assert Letters(LOWER, symbols)[1..] == Letters(LOWER, symbols[1..]);
      assert Unletter(Letters(LOWER, symbols)[0]) == Some(symbols[0]);
      assert [symbols[0]] + symbols[1..] == symbols;
    }
  }

  lemma DecodeEncode(data: Bytes)
    ensures DecodeString(EncodeToString(LOWER, data)) == Some(data)
  {
    UnlettersInvert(Symbols(BitsOf(data)));
    Invert(data);
  }

  lemma QuotientBound(r: nat, m: nat, n: nat)
    requires m > 0 && r < n * m
    ensures r / m < n
  {
    var a := r / m;
    assert m * a <= r;
    assert a > n - 1 ==> m * (a - (n - 1)) >= m by {
      if a > n - 1 { MulAtLeast(m, a - (n - 1)); }
    }
    assert m * (a - (n - 1)) == m * a - m * n + m;
  }

  // Lowering the case takes either alphabet to the lowercase one; neither holds a dot.
  lemma LowerEncode(base: byte, data: Bytes)
    requires base == LOWER || base == UPPER
    ensures Lower(EncodeToString(base, data)) == EncodeToString(LOWER, data)
    ensures DotFree(EncodeToString(base, data))
  {
    var symbols := Symbols(BitsOf(data));
    var r := Letters(base, symbols);
    forall i | 0 <= i < |r|
      ensures r[i] != DOT && LowerByte(r[i]) == Letter(LOWER, symbols[i])
    {
      assert r[i] == Letter(base, symbols[i]);
    }
    assert Lower(r) == Letters(LOWER, symbols);
  }

  // What the encoder of the scanner writes decodes to its input, read as the server reads it.
  lemma DecodeEncodeUpper(data: Bytes)
    ensures DecodeString(Lower(EncodeToString(UPPER, data))) == Some(data)
  {
    LowerEncode(UPPER, data);
    DecodeEncode(data);
  }

  // Taking five bits off the top of a register.
  lemma ShiftOut(buf: nat, m: nat)
    requires m > 0
    ensures (buf % (32 * m)) / m == (buf / m) % 32 && (buf % (32 * m)) % m == buf % m
  {
    var q, r := buf / (32 * m), buf % (32 * m);
    var a, b := r / m, r % m;
    assert buf == 32 * m * q + r;
    assert r == m * a + b;
    QuotientBound(r, m, 32);
    assert buf == m * (32 * q + a) + b by {
      assert m * (32 * q + a) == 32 * m * q + m * a;
    }
    DivModUnique(buf, m, 32 * q + a, b);
    DivModUnique(32 * q + a, 32, q, a);
  }

  // Adding a byte at the bottom of a register.
  lemma ShiftIn(buf: nat, b: byte, m: nat)
    requires m > 0
    ensures (buf * 256 + b) % (256 * m) == (buf % m) * 256 + b
  {
    var q, r := buf / m, buf % m;
    assert buf * 256 + b == 256 * m * q + (r * 256 + b) by {
      assert buf == m * q + r;
      assert 256 * (m * q) == 256 * m * q;
    }
    DivModUnique(buf * 256 + b, 256 * m, q, r * 256 + b);
  }

  // Scaling both sides of a remainder.
  lemma ModScale(a: nat, m: nat, k: nat)
    requires m > 0 && k > 0
    ensures (a * k) % (m * k) == (a % m) * k
  {
    var q, r := a / m, a % m;
    assert a * k == (m * k) * q + r * k by {
      assert a == m * q + r;
      assert (m * q) * k == (m * k) * q;
    }
    assert r * k < m * k by {
      MulAtLeast(k, m - r);
      assert k * (m - r) == m * k - r * k;
    }
    DivModUnique(a * k, m * k, q, r * k);
  }

  const WORD: nat := 0x1_0000_0000_0000_0000

  lemma Pow2Long(n: nat)
    requires n <= 64
    ensures Pow2(n) * Pow2(64 - n) == WORD
  {
    hide Pow2;
    Pow2Add(n, 64 - n);
    Pow2Word();
    Pow2Add(32, 32);
  }

  // buf << k on a 64-bit register, seen through its n low bits.
  lemma ShiftLeft(buf: nat, k: nat, n: nat)
    requires k <= n <= 64
    ensures ((buf * Pow2(k)) % WORD) % Pow2(n) == (buf % Pow2(n - k)) * Pow2(k)
  {
    Pow2Long(n);
    WrapAround(buf * Pow2(k), Pow2(n), Pow2(64 - n));
    Pow2Add(n - k, k);
    ModScale(buf, Pow2(n - k), Pow2(k));
  }

  lemma {:induction false} ZerosVal(k: nat)
    ensures Val(Zeros(k)) == 0
  {
    if k > 0 {
      ZerosVal(k - 1);
      assert Zeros(k)[..k - 1] == Zeros(k - 1);
    }
  }

  // The number written by these digits of w bits each, most significant first.
  ghost function Number(digits: seq<nat>, w: nat): nat {
    if digits == [] then 0 else digits[0] * Pow2(w * (|digits| - 1)) + Number(digits[1..], w)
  }

  lemma {:induction false} BitsNumber(data: Bytes)
    ensures Val(BitsOf(data)) == Number(data, 8)
  {
    if data != [] {
      Pow2Byte();
      ValToBits(data[0], 8);
      BitsNumber(data[1..]);
      ValConcat(ToBits(data[0], 8), BitsOf(data[1..]));
    }
  }

  lemma {:induction false} SymbolsNumber(symbols: seq<nat>)
    requires forall i :: 0 <= i < |symbols| ==> symbols[i] < 32
    ensures Val(SymbolBits(symbols)) == Number(symbols, 5)
  {
    if symbols != [] {
      Pow2Five();
      ValToBits(symbols[0], 5);
      SymbolsNumber(symbols[1..]);
      ValConcat(ToBits(symbols[0], 5), SymbolBits(symbols[1..]));
    }
  }

  lemma PaddedNumber(data: Bytes, symbols: seq<nat>, pad: nat)
    requires forall i :: 0 <= i < |symbols| ==> symbols[i] < 32
    requires SymbolBits(symbols) == BitsOf(data) + Zeros(pad)
    ensures Number(symbols, 5) == Number(data, 8) * Pow2(pad)
  {
    BitsNumber(data);
    SymbolsNumber(symbols);
    ValConcat(BitsOf(data), Zeros(pad));
    ZerosVal(pad);
  }

  const ALPHABET: string := "ABCDEFGHIJKLMNOPQRSTUVWXYZ234567"
  const SMALL_ALPHABET: string := "abcdefghijklmnopqrstuvwxyz234567"

  lemma AlphabetLaw(v: nat)
    requires v < 32
    ensures Letter(UPPER, v) == ALPHABET[v] as int && Letter(LOWER, v) == SMALL_ALPHABET[v] as int
  {
  }

  // The text is the data written as a number in base 32, after fewer than five zero bits are put at its end.
  lemma TextIsNumber(data: Bytes) returns (digits: seq<nat>, pad: nat)
    ensures pad < 5 && 5 * |digits| == 8 * |data| + pad
    ensures forall i :: 0 <= i < |digits| ==> digits[i] < 32
    ensures Number(digits, 5) == Number(data, 8) * Pow2(pad)
    ensures var upper, lower := EncodeToString(UPPER, data), EncodeToString(LOWER, data);
      && |upper| == |lower| == |digits|
      && forall i :: 0 <= i < |digits| ==>
        upper[i] == ALPHABET[digits[i]] as int && lower[i] == SMALL_ALPHABET[digits[i]] as int
  {
    hide Number, Pow2, Letter;
    var bits := BitsOf(data);
    digits := Symbols(bits);
    pad := SymbolsInvert(bits);
    assert |SymbolBits(digits)| == |bits| + pad;
    PaddedNumber(data, digits, pad);
    forall i | 0 <= i < |digits|
      ensures Letter(UPPER, digits[i]) == ALPHABET[digits[i]] as int
      ensures Letter(LOWER, digits[i]) == SMALL_ALPHABET[digits[i]] as int
    {
      AlphabetLaw(digits[i]);
    }
  }

  // The register holds the unsent bits in its low end.
  ghost predicate Holds(buf: nat, unsent: seq<bool>) {
    buf < WORD && Val(unsent) == buf % Pow2(|unsent|)
  }

  // buf = (buf << 8) | b
  lemma Fill(buf: nat, unsent: seq<bool>, b: byte)
    requires Holds(buf, unsent) && |unsent| < 5
    ensures Holds(Or((buf * 256) % WORD, b), unsent + ToBits(b, 8))
  {
    var n := |unsent| + 8;
    Pow2Byte();
    var x := (buf * 256) % WORD;
    ShiftLeft(buf, 8, n);
    ShiftLeft(buf, 8, 8);
    assert x % 256 == 0 by {
      assert buf % Pow2(0) == 0;
    }
    OrDisjoint(x, b, 8);
    ValConcat(unsent, ToBits(b, 8));
    ValToBits(b, 8);
    Pow2Add(8, |unsent|);
    AddLow(x, b, Pow2(|unsent|));
  }

  lemma AddLow(x: nat, b: byte, m: nat)
    requires m > 0 && x % 256 == 0 && x < WORD
    ensures (x + b) % (256 * m) == x % (256 * m) + b && x + b < WORD
  {
    var y := x / 256;
    assert x == 256 * y;
    ShiftIn(y, b, m);
    ModScale(y, m, 256);
  }

  // idx = (buf >> bits) & 0x1F
  lemma Drain(buf: nat, unsent: seq<bool>)
    requires Holds(buf, unsent) && |unsent| >= 5
    ensures And(buf / Pow2(|unsent| - 5), 0x1F) == Val(unsent[..5])
    ensures Holds(buf, unsent[5..])
  {
    hide And, Val, Pow2;
    var front, back := unsent[..5], unsent[5..];
    var m := Pow2(|back|);
    Pow2Five();
    Pow2Add(5, |back|);
    assert front + back == unsent;
    ValConcat(front, back);
    AndLowBits(buf / m, 5);
    TopFive(buf, m, Val(front), Val(back));
  }

  lemma TopFive(buf: nat, m: nat, front: nat, back: nat)
    requires 0 < m && back < m && buf % (32 * m) == front * m + back
    ensures (buf / m) % 32 == front && buf % m == back
  {
    ShiftOut(buf, m);
    DivModUnique(buf % (32 * m), m, front, back);
  }

  // idx = (buf << (5 - bits)) & 0x1F
  lemma Flush(buf: nat, unsent: seq<bool>)
    requires Holds(buf, unsent) && 0 < |unsent| < 5
    ensures And((buf * Pow2(5 - |unsent|)) % WORD, 0x1F) == Val(unsent + Zeros(5 - |unsent|))
  {
    var k := 5 - |unsent|;
    Pow2Five();
    AndLowBits((buf * Pow2(k)) % WORD, 5);
    ShiftLeft(buf, k, 5);
    ValConcat(unsent, Zeros(k));
    ZerosVal(k);
  }

  lemma SymbolsStep(sent: seq<nat>, bits: seq<bool>)
    requires |bits| >= 5
    ensures sent + Symbols(bits) == (sent + [Val(bits[..5])]) + Symbols(bits[5..])
  {
  }

  lemma SymbolsLast(bits: seq<bool>)
    requires |bits| < 5
    ensures Symbols(bits) == if bits == [] then [] else [Val(bits + Zeros(5 - |bits|))]
  {
  }

  lemma BitsStep(data: Bytes, i: nat)
    requires i < |data|
    ensures BitsOf(data[i..]) == ToBits(data[i], 8) + BitsOf(data[i + 1..])
  {
    assert data[i..][1..] == data[i + 1..];
  }

  lemma LettersAppend(base: byte, sent: seq<nat>, v: nat)
    requires base <= 97 && v < 32 && forall i :: 0 <= i < |sent| ==> sent[i] < 32
    ensures Letters(base, sent + [v]) == Letters(base, sent) + [Letter(base, v)]
  {
  }

  // What is written so far, and the bits still to be written.
  ghost predicate Progress(data: Bytes, sent: seq<nat>, rest: seq<bool>, out: Bytes) {
    && (forall i :: 0 <= i < |sent| ==> sent[i] < 32)
    && out == Letters(UPPER, sent)
    && Symbols(BitsOf(data)) == sent + Symbols(rest)
  }

  lemma Start(data: Bytes)
    ensures Holds(0, []) && Progress(data, [], [] + BitsOf(data[0..]), [])
  {
    assert data[0..] == data && [] + BitsOf(data) == BitsOf(data);
  }

  lemma ProgressStep(data: Bytes, sent: seq<nat>, rest: seq<bool>, out: Bytes)
    requires Progress(data, sent, rest, out) && |rest| >= 5
    ensures Val(rest[..5]) < 32 && UPPER <= 97
    ensures Progress(data, sent + [Val(rest[..5])], rest[5..], out + [Letter(UPPER, Val(rest[..5]))])
  {
    Pow2Five();
    SymbolsStep(sent, rest);
    LettersAppend(UPPER, sent, Val(rest[..5]));
  }

  lemma NothingLeft(data: Bytes, unsent: seq<bool>)
    ensures unsent + BitsOf(data[|data|..]) == unsent
  {
  }

  lemma ProgressEnd(data: Bytes, sent: seq<nat>, rest: seq<bool>, out: Bytes)
    requires Progress(data, sent, rest, out) && |rest| < 5
    ensures rest == [] ==> out == EncodeToString(UPPER, data)
    ensures rest != [] ==> var v := Val(rest + Zeros(5 - |rest|));
      v < 32 && UPPER <= 97 && out + [Letter(UPPER, v)] == EncodeToString(UPPER, data)
  {
    SymbolsLast(rest);
    Pow2Five();
    if rest != [] {
      LettersAppend(UPPER, sent, Val(rest + Zeros(5 - |rest|)));
    }
  }

  // base32Encode: however long the data, the wrapping register loses no bit that is still to be sent.
  method Base32Encode(data: Bytes) returns (out: Bytes)
    ensures out == EncodeToString(UPPER, data)
  {
    hide *;
    var buf: nat, bits := 0, 0;
    ghost var unsent: seq<bool>, sent: seq<nat> := [], [];
    out := [];
    Start(data);
    for i := 0 to |data|
      invariant bits == |unsent| < 5 && Holds(buf, unsent)
      invariant Progress(data, sent, unsent + BitsOf(data[i..]), out)
    {
      BitsStep(data, i);
      Fill(buf, unsent, data[i]);
      buf := Or((buf * 256) % WORD, data[i]);
      ghost var rest := BitsOf(data[i + 1..]);
      assert unsent + (ToBits(data[i], 8) + rest) == (unsent + ToBits(data[i], 8)) + rest;
      unsent := unsent + ToBits(data[i], 8);
      bits := bits + 8;
      while bits >= 5
        invariant bits == |unsent| && Holds(buf, unsent)
        invariant Progress(data, sent, unsent + rest, out)
      {
        bits := bits - 5;
        Drain(buf, unsent);
        assert (unsent + rest)[..5] == unsent[..5] && (unsent + rest)[5..] == unsent[5..] + rest;
        ProgressStep(data, sent, unsent + rest, out);
        var idx := And(buf / Pow2(bits), 0x1F);
        out := out + [Letter(UPPER, idx)];
        sent := sent + [Val(unsent[..5])];
        unsent := unsent[5..];
      }
    }
    NothingLeft(data, unsent);
    if bits > 0 {
      Flush(buf, unsent);
      var idx := And((buf * Pow2(5 - bits)) % WORD, 0x1F);
      ProgressEnd(data, sent, unsent, out);
      out := out + [Letter(UPPER, idx)];
    } else {
      ProgressEnd(data, sent, unsent, out);
    }
  }
}
