/** Adler-32: the per-byte checksum, its deferred-modulo form over blocks, and runs of zeros. */
module Adler {
  import opened Words

  const MOD := 65521
  const NMAX := 5552

  // The halves of a state and the state of two halves; the small cases apart, so that they need no division.

  function Low(s: word): (a: nat)
    ensures a < 0x1_0000
  {
    if s < 0x1_0000 then s else s % 0x1_0000
  }

  function High(s: word): (b: nat)
    ensures b < 0x1_0000
  {
    if s < 0x1_0000 then 0 else s / 0x1_0000
  }

  function Join(a: nat, b: nat): (s: word)
    requires a < 0x1_0000 && b < 0x1_0000
    ensures Low(s) == a && High(s) == b
  {
    if b == 0 then a else b * 0x1_0000 + a
  }

  // ----- the checksum one byte at a time

  /** One byte of the checksum of section 8.2 of RFC 1950. */
  function Step(s: word, x: byte): (r: word)
    ensures Low(r) < MOD && High(r) < MOD
  {
    var a := (Low(s) + x) % MOD;
    Join(a, (High(s) + a) % MOD)
  }

  function Checksum(s: word, data: seq<byte>): word {
    if data == [] then s else Step(Checksum(s, data[..|data| - 1]), data[|data| - 1])
  }

  lemma {:induction false} ChecksumConcat(s: word, x: seq<byte>, y: seq<byte>)
    ensures Checksum(s, x + y) == Checksum(Checksum(s, x), y)
  {
    hide Step;
    if y == [] {
      assert x + y == x;
    } else {
      ChecksumConcat(s, x, y[..|y| - 1]);
      assert (x + y)[..|x + y| - 1] == x + y[..|y| - 1];
    }
  }

  // ----- the sums without the modulus

  function SumA(a: nat, data: seq<byte>): nat {
    if data == [] then a else SumA(a, data[..|data| - 1]) + data[|data| - 1]
  }

  function SumB(a: nat, b: nat, data: seq<byte>): nat {
    if data == [] then b else SumB(a, b, data[..|data| - 1]) + SumA(a, data)
  }

  lemma SumsGrow(a: nat, b: nat, data: seq<byte>, k: nat)
    requires k < |data|
    ensures SumA(a, data[..k + 1]) == SumA(a, data[..k]) + data[k]
    ensures SumB(a, b, data[..k + 1]) == SumB(a, b, data[..k]) + SumA(a, data[..k + 1])
  {
    assert data[..k + 1][..k] == data[..k];
  }

  lemma StepHalves(s: word, x: byte)
    ensures Low(Step(s, x)) == (Low(s) + x) % MOD
    ensures High(Step(s, x)) == (High(s) + (Low(s) + x) % MOD) % MOD
  {
    hide Low, High, Join;
  }

  /** Reducing once at the end gives the same as reducing at every byte. */
  lemma {:induction false} Deferred(s: word, data: seq<byte>)
    requires data != []
    ensures Low(Checksum(s, data)) == SumA(Low(s), data) % MOD
    ensures High(Checksum(s, data)) == SumB(Low(s), High(s), data) % MOD
  {
    hide Step, Low, High, Join;
    var most, x := data[..|data| - 1], data[|data| - 1];
    StepHalves(Checksum(s, most), x);
    if most == [] {
      assert SumA(Low(s), most) == Low(s) && SumB(Low(s), High(s), most) == High(s);
    } else {
      Deferred(s, most);
      ModStep(SumA(Low(s), most), x);
    }
    var a := SumA(Low(s), data);
    ModPair(SumB(Low(s), High(s), most), a);
  }

  lemma ModStep(a: nat, x: nat)
    ensures (a % MOD + x) % MOD == (a + x) % MOD
  {
    Shift(a % MOD + x, a / MOD);
  }

  lemma Shift(a: int, k: int)
    ensures (a + MOD * k) % MOD == a % MOD
  {
  }

  lemma ModPair(b: nat, a: nat)
    ensures (b % MOD + a % MOD) % MOD == (b + a) % MOD == (b + a % MOD) % MOD
  {
    Shift(b % MOD + a % MOD, b / MOD);
    Shift(b + a % MOD, a / MOD);
  }

  /** From any 32-bit state a block of 5552 bytes keeps both sums below 2^32. */
  lemma {:induction false} SumsBounded(a: nat, b: nat, data: seq<byte>)
    requires a < 0x1_0000 && b < 0x1_0000
    ensures SumA(a, data) <= 0xFFFF + 255 * |data|
    ensures 2 * SumB(a, b, data) <= 2 * 0xFFFF * (|data| + 1) + 255 * (|data| * (|data| + 1))
  {
    if data != [] {
      SumsBounded(a, b, data[..|data| - 1]);
      Triangle(|data|);
    }
  }

  lemma Triangle(n: int)
    ensures n * (n + 1) == (n - 1) * n + 2 * n
  {
  }

  lemma NoOverflow(a: nat, b: nat, data: seq<byte>)
    requires a < 0x1_0000 && b < 0x1_0000 && |data| <= NMAX
    ensures SumA(a, data) < 0x1_0000_0000 && SumB(a, b, data) < 0x1_0000_0000
  {
    SumsBounded(a, b, data);
  }

  lemma {:induction false} SumsConcat(a: nat, b: nat, x: seq<byte>, y: seq<byte>)
    ensures SumA(a, x + y) == SumA(SumA(a, x), y)
    ensures SumB(a, b, x + y) == SumB(SumA(a, x), SumB(a, b, x), y)
  {
    if y == [] {
      assert x + y == x;
    } else {
      SumsConcat(a, b, x, y[..|y| - 1]);
      assert (x + y)[..|x + y| - 1] == x + y[..|y| - 1];
    }
  }

  // ----- sixteen bytes at once

  function Sum(data: seq<byte>): nat {
    if data == [] then 0 else Sum(data[..|data| - 1]) + data[|data| - 1]
  }

  /** Byte `k` of `data` counted `n - k` times. */
  function Weighted(data: seq<byte>, n: nat): nat
    requires |data| <= n
  {
    if data == [] then 0 else
      var k := |data| - 1;
      Weighted(data[..k], n) + (n - k) * data[k]
  }

  lemma {:induction false} WeightedShift(data: seq<byte>, n: nat)
    requires |data| <= n
    ensures Weighted(data, n + 1) == Weighted(data, n) + Sum(data)
  {
    if data != [] {
      var k := |data| - 1;
      WeightedShift(data[..k], n);
      assert (n + 1 - k) * data[k] == (n - k) * data[k] + data[k];
    }
  }

  /** The weighted form equals single steps, for any block length. */
  lemma {:induction false} WeightedIsSteps(a: nat, b: nat, data: seq<byte>)
    ensures SumA(a, data) == a + Sum(data)
    ensures SumB(a, b, data) == b + |data| * a + Weighted(data, |data|)
  {
    if data != [] {
      var k := |data| - 1;
      WeightedIsSteps(a, b, data[..k]);
      WeightedShift(data[..k], k);
      assert (k + 1) * a == k * a + a;
    }
  }

  /** Sixteen bytes: byte sums and weighted sums where the processor has them, else one by one. */
  method Block16(data: seq<byte>, a: word, b: word, avx2: bool) returns (a': word, b': word)
    requires |data| == 16
    requires SumA(a, data) < 0x1_0000_0000 && SumB(a, b, data) < 0x1_0000_0000
    ensures a' == SumA(a, data) && b' == SumB(a, b, data)
  {
    if avx2 {
      WeightedIsSteps(a, b, data);
      a' := a + Sum(data);
      b' := b + 16 * a + Weighted(data, 16);
    } else {
      var la: nat, lb: nat := a, b;
      for k := 0 to 16
        invariant la == SumA(a, data[..k]) && lb == SumB(a, b, data[..k])
      {
        SumsGrow(a, b, data, k);
        la := la + data[k];
        lb := lb + la;
      }
      assert data[..16] == data;
      a', b' := la, lb;
    }
  }

  // ----- feeding

  /** One chunk: sixteen bytes at a time, then the rest, then one reduction. */
  method FeedBlock(a0: nat, b0: nat, block: seq<byte>, avx2: bool) returns (a: word, b: word)
    requires a0 < 0x1_0000 && b0 < 0x1_0000 && 0 < |block| <= NMAX
    ensures a < MOD && b < MOD && Join(a, b) == Checksum(Join(a0, b0), block)
  {
    hide SumA, SumB, Checksum;
    a, b := a0, b0;
    var i := 0;
    SumsEmpty(a0, b0);
    assert block[..0] == [];
    while i + 16 <= |block|
      invariant 0 <= i <= |block|
      invariant a == SumA(a0, block[..i]) && b == SumB(a0, b0, block[..i])
    {
      assert block[..i] + block[i..i + 16] == block[..i + 16];
      SumsConcat(a0, b0, block[..i], block[i..i + 16]);
      NoOverflow(a0, b0, block[..i + 16]);
      a, b := Block16(block[i..i + 16], a, b, avx2);
      i := i + 16;
    }
    while i < |block|
      invariant 0 <= i <= |block|
      invariant a == SumA(a0, block[..i]) && b == SumB(a0, b0, block[..i])
    {
      SumsGrow(a0, b0, block, i);
      NoOverflow(a0, b0, block[..i + 1]);
      a := a + block[i];
      b := b + a;
      i := i + 1;
    }
    assert block[..i] == block;
    Deferred(Join(a0, b0), block);
    a := a % MOD;
    b := b % MOD;
    JoinUnique(Checksum(Join(a0, b0), block));
  }

  lemma SumsEmpty(a: nat, b: nat)
    ensures SumA(a, []) == a && SumB(a, b, []) == b
  {
  }

  lemma JoinUnique(s: word)
    ensures Join(Low(s), High(s)) == s
  {
  }

  /** Chunks of 5552 bytes; the result is the checksum from any 32-bit state, reduced or not. */
  method Feed(state: word, data: seq<byte>, avx2: bool) returns (s: word)
    ensures s == Checksum(state, data)
  {
    hide Checksum;
    var a: word, b: word := Low(state), High(state);
    JoinUnique(state);
    ChecksumEmpty(state);
    var i := 0;
    assert data[..0] == [];
    while i < |data|
      invariant 0 <= i <= |data| && a < 0x1_0000 && b < 0x1_0000
      invariant Join(a, b) == Checksum(state, data[..i])
    {
      var end := if i + NMAX <= |data| then i + NMAX else |data|;
      assert data[..i] + data[i..end] == data[..end];
      ChecksumConcat(state, data[..i], data[i..end]);
      a, b := FeedBlock(a, b, data[i..end], avx2);
      i := end;
    }
    assert data[..i] == data;
    s := Join(a, b);
  }

  lemma ChecksumEmpty(s: word)
    ensures Checksum(s, []) == s
  {
  }

  // ----- a run of zeros without the zeros

  /** The closed form for `n` zero bytes, in 64-bit arithmetic. */
  function ZerosFed(s: word, n: nat): word {
    if n == 0 then s else Join(Low(s), (High(s) + Low(s) * n) % TWO64 % MOD)
  }

  lemma {:induction false} SumsOfZeros(a: nat, b: nat, n: nat)
    ensures SumA(a, Zeros(n)) == a && SumB(a, b, Zeros(n)) == b + a * n
  {
    if n > 0 {
      SumsOfZeros(a, b, n - 1);
      assert Zeros(n)[..n - 1] == Zeros(n - 1);
      assert a * n == a * (n - 1) + a;
    }
  }

  /** The second sum after `n` zeros, before it is reduced. */
  function Total(s: word, n: nat): nat {
    High(s) + Low(s) * n
  }

  lemma ZerosHalves(s: word, n: nat)
    requires n > 0
    ensures Low(ZerosFed(s, n)) == Low(s) && High(ZerosFed(s, n)) == Total(s, n) % TWO64 % MOD
  {
    hide Join, Low, High;
  }

  lemma ZerosCompared(s: word, n: nat)
    requires n > 0
    ensures High(Checksum(s, Zeros(n))) == Total(s, n) % MOD && Low(Checksum(s, Zeros(n))) == Low(s) % MOD
  {
    hide Checksum, Low, High;
    Deferred(s, Zeros(n));
    SumsOfZeros(Low(s), High(s), n);
  }

  /** The closed form is right exactly from states whose low half is reduced, for runs short enough that the sum does
      not wrap (or for no zeros at all). */
  lemma ZerosAreFed(s: word, n: nat)
    requires n < TWO64
    ensures ZerosFed(s, n) == Checksum(s, Zeros(n)) <==> n == 0 || (Low(s) < MOD && Total(s, n) < TWO64)
  {
    if n > 0 {
      hide *;
      ZerosCompared(s, n);
      ZerosHalves(s, n);
      Halves(ZerosFed(s, n), Checksum(s, Zeros(n)));
      SelfMod(Low(s));
      if Low(s) < MOD {
        TotalBound(s, n);
        WrapSeen(Total(s, n));
      }
    }
  }

  /** A state that is not reduced, and a run that is too long. */
  lemma ZerosNotFed(n: nat)
    requires n == TWO64 - 1
    ensures ZerosFed(0xFFFF, 1) != Checksum(0xFFFF, Zeros(1))
    ensures ZerosFed(0x1_0001, n) != Checksum(0x1_0001, Zeros(n))
  {
    hide Checksum, ZerosFed;
    ZerosAreFed(0xFFFF, 1);
    ZerosAreFed(0x1_0001, n);
  }

  /** In particular for any run that fits in memory, after at least one byte. */
  lemma ShortZeros(s: word, n: nat)
    requires Low(s) < MOD && n < 0x1_0000_0000_0000
    ensures ZerosFed(s, n) == Checksum(s, Zeros(n))
  {
    ZerosAreFed(s, n);
    HighFits(s);
    hide *;
    ShortTotal(Low(s), High(s), n);
    assert Total(s, n) == High(s) + Low(s) * n by { TotalIs(s, n); }
  }

  lemma TotalIs(s: word, n: nat)
    ensures Total(s, n) == High(s) + Low(s) * n
  {
  }

  lemma ShortTotal(a: nat, b: nat, n: nat)
    requires a < MOD && b < 0x1_0000 && n < 0x1_0000_0000_0000
    ensures b + a * n < TWO64
  {
    MulMono(a, MOD, n);
  }

  lemma TotalBound(s: word, n: nat)
    requires Low(s) < MOD && n < TWO64
    ensures Total(s, n) < MOD * TWO64
  {
    HighFits(s);
    hide Low, High;
    ProductBound(Low(s), High(s), n);
  }

  lemma HighFits(s: word)
    ensures High(s) < 0x1_0000
  {
  }

  lemma Halves(s: word, t: word)
    ensures s == t <==> Low(s) == Low(t) && High(s) == High(t)
  {
  }

  lemma ProductBound(a: nat, b: nat, n: nat)
    requires a < MOD && b < 0x1_0000 && n < TWO64
    ensures b + a * n < MOD * TWO64
  {
    MulMono(a, MOD - 1, n);
  }

  /** The modulus and 2^64 have no common factor, so a wrap always shows. */
  lemma WrapSeen(x: nat)
    requires x < MOD * TWO64
    ensures x % TWO64 % MOD == x % MOD <==> x < TWO64
  {
    var q, r := x / TWO64, x % TWO64;
    assert q < MOD && x == q * TWO64 + r;
    if r % MOD == x % MOD {
      var t := x / MOD - r / MOD;
      assert q * TWO64 == MOD * t;
      NoFactor(q, t);
    }
  }

  lemma NoFactor(q: nat, t: int)
    requires q < MOD && q * TWO64 == MOD * t
    ensures q == 0
  {
    var inv, k := 42864, 12067905526098292463;
    assert TWO64 * inv == MOD * k + 1;
    var u := t * inv - q * k;
    assert q * (TWO64 * inv) == MOD * (t * inv) && q * (TWO64 * inv) == MOD * (q * k) + q;
    assert q == MOD * u;
  }

  lemma SelfMod(a: nat)
    ensures a % MOD == a <==> a < MOD
  {
  }

  lemma MulMono(a: nat, b: nat, n: nat)
    requires a <= b
    ensures a * n <= b * n == n * b
  {
  }
}
