/** The Internet checksum (RFC 1071) as hev-socks5-tunnel.c computes it. */
module Checksum {
  import opened Bits

  type uint32 = n: nat | n < 0x1_0000_0000

  const ONES: nat := 0xFFFF

  // The sum of the big-endian words; an odd last byte counts as the high half of a word.
  function Words(s: Bytes): (n: nat)
    ensures n <= ONES * ((|s| + 1) / 2)
  {
    if s == [] then 0
    else if |s| == 1 then s[0] as int * 256
    else U16(s, 0) + Words(s[2..])
  }

  // Adding the carries in until none are left.
  function Fold(sum: nat): (r: nat)
    ensures r <= ONES && r % ONES == sum % ONES && (r == 0 <==> sum == 0)
  {
    if sum <= ONES then sum
    else
      FoldStep(sum);
      Fold(sum % 0x1_0000 + sum / 0x1_0000)
  }

  lemma FoldStep(sum: nat)
    ensures (sum % 0x1_0000 + sum / 0x1_0000) % ONES == sum % ONES
  {
    var hi, lo := sum / 0x1_0000, sum % 0x1_0000;
    AddMultiple(lo + hi, hi);
  }

  lemma AddMultiple(a: nat, k: nat)
    ensures (a + ONES * k) % ONES == a % ONES
  {
    DivModUnique(a + ONES * k, ONES, a / ONES + k, a % ONES);
  }

  function Complement(s: Bytes): (c: nat)
    ensures c <= ONES
  {
    ONES - Fold(Words(s))
  }

  // What a receiver tests: the sum over the data, checksum included, is all ones.
  ghost predicate Verifies(s: Bytes) {
    Fold(Words(s)) == ONES
  }

  function PutWord(s: Bytes, k: nat, w: nat): (r: Bytes)
    requires k + 2 <= |s| && w <= ONES
    ensures |r| == |s| && U16(r, k) == w
  {
    s[k := w / 256][k + 1 := w % 256]
  }

  lemma {:induction false} WordsPut(s: Bytes, k: nat, w: nat)
    requires k % 2 == 0 && k + 2 <= |s| && w <= ONES
    ensures Words(PutWord(s, k, w)) == Words(s) - U16(s, k) + w
    decreases k
  {
    var r := PutWord(s, k, w);
    if k == 0 {
      assert r[2..] == s[2..];
    } else {
      WordsPut(s[2..], k - 2, w);
      assert r[2..] == PutWord(s[2..], k - 2, w);
    }
  }

  // Data with a zero checksum field verifies once the complement of its sum is put there.
  lemma ChecksumVerifies(s: Bytes, k: nat)
    requires k % 2 == 0 && k + 2 <= |s| && U16(s, k) == 0
    ensures Verifies(PutWord(s, k, Complement(s)))
  {
    hide Words;
    var sum, f := Words(s), Fold(Words(s));
    WordsPut(s, k, Complement(s));
    var total := sum + (ONES - f);
    assert total % ONES == 0 by {
      var q, q' := sum / ONES, f / ONES;
      assert sum == ONES * q + sum % ONES && f == ONES * q' + f % ONES;
      assert total == ONES * (q - q' + 1);
      DivModUnique(total, ONES, q - q' + 1, 0);
    }
    assert total > 0;
    assert Fold(total) % ONES == 0 && 0 < Fold(total) <= ONES;
    Multiple(Fold(total));
  }

  lemma Multiple(x: nat)
    requires 0 < x <= ONES && x % ONES == 0
    ensures x == ONES
  {
  }

  // Verified data with one word changed no longer verifies, unless all zeros stand for all ones or the reverse.
  lemma OneWordDetected(s: Bytes, k: nat, w: nat)
    requires k % 2 == 0 && k + 2 <= |s| && w <= ONES && Verifies(s)
    ensures Verifies(PutWord(s, k, w)) ==> w % ONES == U16(s, k) % ONES
  {
    hide Words;
    WordsPut(s, k, w);
    var a, b := Words(s), Words(PutWord(s, k, w));
    if Verifies(PutWord(s, k, w)) {
      assert a % ONES == 0 && b % ONES == 0;
      var d := b / ONES - a / ONES;
      assert w == U16(s, k) + ONES * d;
      if d >= 0 {
        AddMultiple(U16(s, k), d);
      } else {
        AddMultiple(w, -d);
      }
    }
  }

  // Each byte counts in its place: 256-fold at even offsets, once at odd ones.
  lemma {:induction false} ByteWeight(s: Bytes, i: nat, b: byte)
    requires i < |s|
    ensures Words(s[i := b]) - Words(s) == if i % 2 == 0 then 256 * (b - s[i]) else b - s[i]
    decreases i
  {
    hide Words;
    var r := s[i := b];
    WordsFirst(s);
    WordsFirst(r);
    if |s| > 1 {
      if i < 2 {
        assert r[2..] == s[2..];
      } else {
        assert r[2..] == s[2..][i - 2 := b];
        ByteWeight(s[2..], i - 2, b);
      }
    }
  }

  lemma WordsFirst(s: Bytes)
    requires s != []
    ensures Words(s) ==
      if |s| == 1 then s[0] as int * 256 else s[0] as int * 256 + s[1] as int + Words(s[2..])
  {
  }

  lemma {:induction false} ZeroWords(s: Bytes)
    requires forall i :: 0 <= i < |s| ==> s[i] == 0
    ensures Words(s) == 0
  {
    if |s| > 1 {
      ZeroWords(s[2..]);
    }
  }

  // Verified data with one byte changed never verifies.
  lemma OneByteDetected(s: Bytes, i: nat, b: byte)
    requires i < |s| && Verifies(s) && b != s[i]
    ensures !Verifies(s[i := b])
  {
    hide Words;
    ByteWeight(s, i, b);
    var x, y := Words(s), Words(s[i := b]);
    if Verifies(s[i := b]) {
      assert x % ONES == 0 && y % ONES == 0;
      assert y - x == ONES * (y / ONES - x / ONES);
      SmallMultiple(y - x, y / ONES - x / ONES);
    }
  }

  lemma SmallMultiple(d: int, q: int)
    requires d == ONES * q && -0xFFFF < d < 0xFFFF
    ensures d == 0
  {
  }

  lemma {:induction false} WordsFrom(s: Bytes, i: nat)
    requires i < |s|
    ensures Words(s[i..]) == if i + 1 < |s| then U16(s, i) + Words(s[i + 2..]) else s[i] as int * 256
  {
    if i + 1 < |s| {
      assert s[i..][2..] == s[i + 2..];
    }
  }

  lemma NoWords(s: Bytes)
    ensures s == [] ==> Words(s) == 0
  {
  }

  lemma WordAt(s: Bytes, i: nat)
    requires i + 1 < |s|
    ensures U16(s, i) == s[i] as int * 256 + s[i + 1] as int
  {
  }

  // The two loops: sum of the words of n bytes of a buffer, and the carries.
  method Sum(buf: array<byte>, start: nat, n: nat) returns (sum: uint32)
    requires start + n <= buf.Length && n < 0x1_0000
    ensures sum == Fold(Words(buf[start..start + n])) <= ONES
  {
    hide Words, U16;
    ghost var s := buf[start..start + n];
    assert s[0..] == s;
    NoWords(s);
    sum := 0;
    var i := 0;
    while i < n
      invariant i <= n + 1 && i % 2 == 0
      invariant sum <= ONES * (i / 2)
      invariant Words(s) == sum + if i < n then Words(s[i..]) else 0
    {
      WordsFrom(s, i);
      assert s[i] == buf[start + i];
      if i + 1 < n {
        WordAt(s, i);
        assert s[i + 1] == buf[start + i + 1];
        sum := sum + (buf[start + i] as int * 256 + buf[start + i + 1] as int);
      } else {
        sum := sum + buf[start + i] as int * 256;
      }
      i := i + 2;
    }
    while sum / 0x1_0000 != 0
      invariant Fold(Words(s)) == Fold(sum)
      decreases sum
    {
      sum := sum % 0x1_0000 + sum / 0x1_0000;
    }
  }
}
