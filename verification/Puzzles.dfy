/** The puzzles: plain SHA-256, HMAC-SHA-256 and chained SHA-256 of a text followed by the decimal nonce.
    Each is reduced to a midstate and a tail once, and the reduced form must compute the same digests. */
module Puzzles {
  import opened Words
  import opened Decimal
  import opened Sha
  import opened PowScan
  import opened BatchScan

  // ----- plain SHA-256

  method NewPow(c: Compress, data: seq<byte>, difficulty: byte, avx512: bool) returns (ctx: Ctx)
    requires 8 * (|data| + 20) < TWO64
    ensures ctx.Ok() && ctx.needBits == 4 * difficulty && ctx.mid == Plain
    ensures forall n: nat, w: nat | w <= 20 :: DigestOf(c, ctx, w, n) == Sha256(c, data + Fixed(n, w))
  {
    var prefix, tail := Midstate(c, H0, data);
    ctx := Ctx(prefix, tail, |data|, 4 * difficulty, avx512, Plain);
    assert (|data| - |tail|) % 64 == 0;
    forall n: nat, w: nat | w <= 20 ensures DigestOf(c, ctx, w, n) == Sha256(c, data + Fixed(n, w)) {
      FramedFromStart(c, [], data, prefix, tail, ctx, w, n);
      assert [] + data + Fixed(n, w) == data + Fixed(n, w);
    }
  }

  /** The framed state of a context built on a midstate is the state after the whole padded message. */
  lemma FramedFromStart(c: Compress, done: seq<byte>, data: seq<byte>, st: State, tail: seq<byte>, ctx: Ctx, w: nat, n: nat)
    requires |done| % 64 == 0 && ctx.Ok() && w <= 20
    requires ctx.prefix == st && ctx.tail == tail && ctx.base == |done| + |data|
    requires |data| >= |tail| == |data| % 64 && tail == data[|data| - |tail|..]
    requires (|data| - |tail|) % 64 == 0 && st == Absorb(c, Absorb(c, H0, done), data[..|data| - |tail|])
    ensures WordsBe(FramedState(c, ctx, w, n)) == Sha256(c, done + data + Fixed(n, w))
  {
    hide Absorb, Padding, Framed, Fixed, WordsBe;
    FramedIsSha256(c, H0, done, data, st, tail, Fixed(n, w));
  }

  // ----- HMAC-SHA-256

  /** Exclusive or of the low `k` bits. */
  function XorLow(a: nat, b: nat, k: nat): (x: nat)
    ensures x < Pow2(k)
  {
    if k == 0 then 0 else 2 * XorLow(a / 2, b / 2, k - 1) + (a + b) % 2
  }

  function XorByte(a: byte, b: byte): byte {
    Pow2Values();
    XorLow(a, b, 8)
  }

  function Bit(x: nat, i: nat): nat {
    if i == 0 then x % 2 else Bit(x / 2, i - 1)
  }

  /** Each bit of the result is set where exactly one of the two bits is. */
  lemma {:induction false} XorBits(a: nat, b: nat, k: nat, i: nat)
    requires i < k
    ensures Bit(XorLow(a, b, k), i) == 1 <==> Bit(a, i) != Bit(b, i)
  {
    var x := XorLow(a, b, k);
    assert x / 2 == XorLow(a / 2, b / 2, k - 1) && x % 2 == (a + b) % 2;
    if i > 0 {
      XorBits(a / 2, b / 2, k - 1, i - 1);
    }
  }

  lemma XorByteBits(a: byte, b: byte, i: nat)
    requires i < 8
    ensures Bit(XorByte(a, b), i) == 1 <==> Bit(a, i) != Bit(b, i)
  {
    XorBits(a, b, 8, i);
  }

  function XorPad(key: seq<byte>, b: byte): (s: seq<byte>)
    ensures |s| == |key|
  {
    seq(|key|, i requires 0 <= i < |key| => XorByte(b, key[i]))
  }

  /** The key as one block: hashed if longer than a block, then padded with zeros. */
  function NormKey(c: Compress, key: seq<byte>): (k: seq<byte>)
    requires 8 * |key| < TWO64
    ensures |k| == 64
  {
    var short := if |key| > 64 then Sha256(c, key) else key;
    short + Zeros(64 - |short|)
  }

  /** HMAC of section 2 of RFC 2104 over SHA-256. */
  function Hmac(c: Compress, key: seq<byte>, text: seq<byte>): (d: seq<byte>)
    requires 8 * |key| < TWO64 && 8 * (64 + |text|) < TWO64
    ensures |d| == 32
  {
    var k := NormKey(c, key);
    Sha256(c, XorPad(k, 0x5c) + Sha256(c, XorPad(k, 0x36) + text))
  }

  /** The key block xored into both pads. */
  method KeyPads(c: Compress, key: seq<byte>) returns (ik: Block, ok: Block)
    requires 8 * |key| < TWO64
    ensures ik == XorPad(NormKey(c, key), 0x36) && ok == XorPad(NormKey(c, key), 0x5c)
  {
    hide Sha256, XorByte;
    var short := if |key| > 64 then Sha256(c, key) else key;
    var keyNorm := new byte[64](i requires 0 <= i < 64 => if i < |short| then short[i] else 0);
    ghost var k := NormKey(c, key);
    assert keyNorm[..] == k;
    hide NormKey;
    var ipad := new byte[64](i => 0x36);
    var opad := new byte[64](i => 0x5c);
    for i := 0 to 64
      invariant keyNorm[..] == k
      invariant forall j | 0 <= j < 64 :: ipad[j] == if j < i then XorByte(0x36, k[j]) else 0x36
      invariant forall j | 0 <= j < 64 :: opad[j] == if j < i then XorByte(0x5c, k[j]) else 0x5c
    {
      ipad[i] := XorByte(ipad[i], keyNorm[i]);
      opad[i] := XorByte(opad[i], keyNorm[i]);
    }
    ik, ok := ipad[..], opad[..];
  }

  /** The second half of the outer block never changes: the padding of a 96-byte message. */
  method OuterTail() returns (tail: seq<byte>)
    ensures tail == Padding(96) && |tail| == 32
  {
    hide BytesValue;
    var blk := new byte[64](i => 0);
    TailPad(blk, 32, 768);
    TailPadIsPadding(32, 96);
    tail := blk[32..64];
  }

  method NewHmac(c: Compress, key: seq<byte>, msg: seq<byte>, difficulty: byte, avx512: bool) returns (ctx: Ctx)
    requires 8 * |key| < TWO64 && 8 * (64 + |msg| + 20) < TWO64
    ensures ctx.Ok() && ctx.needBits == 4 * difficulty
    ensures forall n: nat, w: nat | w <= 20 :: DigestOf(c, ctx, w, n) == Hmac(c, key, msg + Fixed(n, w))
  {
    hide NormKey, XorPad, Absorb, Padding, DigestOf, Hmac, Fixed;
    var ik, ok := KeyPads(c, key);
    var inner, tail := Midstate(c, c(H0, ik), msg);
    var outerTail := OuterTail();
    ctx := Ctx(inner, tail, 64 + |msg|, 4 * difficulty, avx512, Outer(c(H0, ok), outerTail));
    forall n: nat, w: nat | w <= 20 ensures DigestOf(c, ctx, w, n) == Hmac(c, key, msg + Fixed(n, w)) {
      HmacDigest(c, key, msg, ctx, inner, tail, w, n);
    }
  }

  lemma HmacDigest(c: Compress, key: seq<byte>, msg: seq<byte>, ctx: Ctx, inner: State, tail: seq<byte>, w: nat, n: nat)
    requires 8 * |key| < TWO64 && 8 * (64 + |msg| + 20) < TWO64 && w <= 20
    requires |msg| >= |tail| == |msg| % 64 && tail == msg[|msg| - |tail|..] && (|msg| - |tail|) % 64 == 0
    requires inner == Absorb(c, c(H0, XorPad(NormKey(c, key), 0x36)), msg[..|msg| - |tail|])
    requires ctx.Ok() && ctx.prefix == inner && ctx.tail == tail && ctx.base == 64 + |msg|
    requires ctx.mid == Outer(c(H0, XorPad(NormKey(c, key), 0x5c)), Padding(96))
    ensures DigestOf(c, ctx, w, n) == Hmac(c, key, msg + Fixed(n, w))
  {
    hide NormKey, XorPad, Absorb, Padding, Framed, Fixed, WordsBe, FramedState;
    var k := NormKey(c, key);
    var ik, ok := XorPad(k, 0x36), XorPad(k, 0x5c);
    AbsorbOne(c, H0, ik);
    FramedFromStart(c, ik, msg, inner, tail, ctx, w, n);
    var h := Sha256(c, ik + (msg + Fixed(n, w)));
    assert ik + msg + Fixed(n, w) == ik + (msg + Fixed(n, w));
    OuterBlock(c, ok, h);
  }

  /** Hashing one key block and a digest takes two compressions, the first of them known in advance. */
  lemma OuterBlock(c: Compress, ok: Block, h: seq<byte>)
    requires |h| == 32
    ensures |h + Padding(96)| == 64
    ensures Sha256(c, ok + h) == WordsBe(c(c(H0, ok), h + Padding(96)))
  {
    assert (ok + h) + Padding(96) == ok + (h + Padding(96));
    AbsorbConcat(c, H0, ok, h + Padding(96));
    AbsorbOne(c, H0, ok);
    AbsorbOne(c, c(H0, ok), h + Padding(96));
  }

  // ----- chained SHA-256

  method NewChain(c: Compress, salt: seq<byte>, rounds: nat, difficulty: byte, avx512: bool) returns (ctx: Ctx)
    requires 8 * (|salt| + 20) < TWO64
    ensures ctx.Ok() && ctx.needBits == 4 * difficulty
    ensures forall n: nat, w: nat | w <= 20 ::
      DigestOf(c, ctx, w, n) == Rehash(c, Sha256(c, salt + Fixed(n, w)), if rounds == 0 then 0 else rounds - 1)
  {
    hide Absorb, Framed, Fixed, Padding, Sha256, WordsBe, Rehash, OuterHash;
    var first := NewPow(c, salt, difficulty, avx512);
    ctx := first.(mid := Chained(if rounds < 1 then 1 else rounds));
    forall n: nat, w: nat | w <= 20
      ensures DigestOf(c, ctx, w, n) == Rehash(c, Sha256(c, salt + Fixed(n, w)), if rounds == 0 then 0 else rounds - 1)
    {
      assert DigestOf(c, first, w, n) == WordsBe(FramedState(c, first, w, n));
      assert FramedState(c, ctx, w, n) == FramedState(c, first, w, n);
    }
  }

  // ----- one search job

  /** What a worker runs for one job: plan the width, scan the range. */
  method Job(c: Compress, ctx: Ctx, width: nat, base: nat, end: nat) returns (r: Option<(nat, seq<byte>)>)
    requires ctx.Ok() && width <= 20 && base + 8 <= TWO64 && end + 8 <= TWO64
    ensures r == FirstHit(c, ctx, width, base, end)
  {
    var plan := PlanOf(ctx, width);
    r := Batch8(c, ctx, width, plan, base, end);
  }

  /** End to end for HMAC: the job returns the least nonce of its range whose HMAC, read as a number, is below
      2^(256 - 4 * difficulty), with that HMAC; and nothing exactly when the range holds no such nonce. */
  method HmacJob(c: Compress, key: seq<byte>, msg: seq<byte>, difficulty: byte, avx512: bool, width: nat, base: nat, end: nat)
      returns (r: Option<(nat, seq<byte>)>)
    requires 8 * |key| < TWO64 && 8 * (64 + |msg| + 20) < TWO64
    requires 0 < width <= 19 && base + 8 <= TWO64 && end + 8 <= TWO64
    ensures r == None ==> forall n: nat | base <= n < end :: !Hits(4 * difficulty, Hmac(c, key, msg + Fixed(n, width)))
    ensures r.Some? ==> base <= r.value.0 < end && r.value.1 == Hmac(c, key, msg + Fixed(r.value.0, width))
    ensures r.Some? ==> Hits(4 * difficulty, r.value.1)
    ensures r.Some? ==> forall n: nat | base <= n < r.value.0 :: !Hits(4 * difficulty, Hmac(c, key, msg + Fixed(n, width)))
  {
    hide Hits, Hmac, DigestOf, FirstHit;
    var ctx := NewHmac(c, key, msg, difficulty, avx512);
    r := Job(c, ctx, width, base, end);
    FirstHitIsLeast(c, ctx, width, base, end);
    forall n: nat ensures Hmac(c, key, msg + Fixed(n, width)) == DigestOf(c, ctx, width, n) {
    }
  }
}
