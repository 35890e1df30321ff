/** Incremental BLAKE2b around an arbitrary compression function, and the variable-length hash built on it. */
module Blake2b {
  import opened Words

  const BLOCK := 128

  type State = s: seq<u64> | |s| == 8 witness [0, 0, 0, 0, 0, 0, 0, 0]
  type Block = b: seq<byte> | |b| == 128 witness Zeros(128)

  /** Compression of one block: the state, the block, the byte count so far, and whether the block is the last. */
  datatype Blake = Blake(compress: (State, Block, nat, bool) -> State)

  // ----- the initial state

  const IV: seq<bv64> := [
    0x6a09e667f3bcc908, 0xbb67ae8584caa73b, 0x3c6ef372fe94f82b, 0xa54ff53a5f1d36f1,
    0x510e527fade682d1, 0x9b05688c2b3e6c1f, 0x1f83d9abfb41bd6b, 0x5be0cd19137e2179]

  function Bits(a: u64): bv64 {
    a as bv64
  }

  function Number(x: bv64): u64 {
    x as int
  }

  function FromLe32(s: seq<byte>): word
    requires |s| == 4
  {
    var d: int, c: int, b: int := s[3], s[2], s[1];
    ((d * 256 + c) * 256 + b) * 256 + s[0]
  }

  function FromLe64(s: seq<byte>): u64
    requires |s| == 8
  {
    var hi: int, lo: int := FromLe32(s[4..]), FromLe32(s[..4]);
    hi * 0x1_0000_0000 + lo
  }

  lemma FromLe32Value(s: seq<byte>)
    requires |s| == 4
    ensures FromLe32(s) == LeValue(s)
  {
    assert s[1..][1..][1..][1..] == [];
    assert LeValue(s[1..][1..][1..]) == s[3];
    assert LeValue(s[1..][1..]) == s[2] + 256 * LeValue(s[1..][1..][1..]);
    assert LeValue(s[1..]) == s[1] + 256 * LeValue(s[1..][1..]);
  }

  lemma FromLe64Value(s: seq<byte>)
    requires |s| == 8
    ensures FromLe64(s) == LeValue(s)
  {
    FromLe32Value(s[..4]);
    FromLe32Value(s[4..]);
    hide LeValue, FromLe32;
    LeValueConcat(s[..4], s[4..]);
    assert s[..4] + s[4..] == s;
    Pow2Values();
  }

  const PRIMES: seq<nat> := [2, 3, 5, 7, 11, 13, 17, 19]

  /** The constants of section 2.6 of RFC 7693: the first 64 bits of the fractional parts of the square roots of the
      first eight primes. */
  lemma IvFromRoots(i: nat)
    requires i < 8
    ensures RootFraction(IV[i] as int, PRIMES[i], TWO64)
  {
    var u: nat := TWO64;
    assert RootFrom(1 * u + 0x6a09e667f3bcc908, 2, u) && RootFrom(1 * u + 0xbb67ae8584caa73b, 3, u);
    assert RootFrom(2 * u + 0x3c6ef372fe94f82b, 5, u) && RootFrom(2 * u + 0xa54ff53a5f1d36f1, 7, u);
    assert RootFrom(3 * u + 0x510e527fade682d1, 11, u) && RootFrom(3 * u + 0x9b05688c2b3e6c1f, 13, u);
    assert RootFrom(4 * u + 0x1f83d9abfb41bd6b, 17, u) && RootFrom(4 * u + 0x5be0cd19137e2179, 19, u);
  }

  /** Digest length, fanout 1 and depth 1; no key. */
  function Param(outlen: nat): (p: seq<byte>)
    ensures |p| == 64
  {
    [outlen % 256, 0, 1, 1] + Zeros(60)
  }

  function ParamWord(outlen: nat, i: nat): u64
    requires i < 8
  {
    FromLe64(Param(outlen)[8 * i..8 * i + 8])
  }

  function InitWord(outlen: nat, i: nat): u64
    requires i < 8
  {
    Number(IV[i] ^ Bits(ParamWord(outlen, i)))
  }

  function Init(outlen: nat): State {
    seq(8, i requires 0 <= i < 8 => InitWord(outlen, i))
  }

  lemma BitsXorZero(x: bv64)
    ensures x ^ Bits(0) == x
  {
  }

  /** The initial state of section 3.3 of RFC 7693 for no key: the constants, the first of them xored with
      0x01010000 and the digest length. */
  lemma InitIsRfc(outlen: nat)
    requires 1 <= outlen <= 64
    ensures Init(outlen)[0] == Number(IV[0] ^ Bits(0x0101_0000 + outlen))
    ensures forall i | 1 <= i < 8 :: Init(outlen)[i] == Number(IV[i])
  {
    hide Bits, Number;
    var p := Param(outlen);
    assert p[8 * 0..8 * 0 + 8] == [outlen, 0, 1, 1, 0, 0, 0, 0];
    assert ParamWord(outlen, 0) == 0x0101_0000 + outlen;
    forall i | 1 <= i < 8 ensures Init(outlen)[i] == Number(IV[i]) {
      assert p[8 * i..8 * i + 8] == [0, 0, 0, 0, 0, 0, 0, 0];
      assert ParamWord(outlen, i) == 0;
      BitsXorZero(IV[i]);
    }
  }

  // ----- the hash

  /** The state after whole blocks, none of them the last, starting after `t` bytes. */
  function Fold(b: Blake, h: State, data: seq<byte>, t: nat): State
    requires |data| % BLOCK == 0
    decreases |data|
  {
    if data == [] then h
    else Fold(b, b.compress(h, data[..BLOCK], t + BLOCK, false), data[BLOCK..], t + BLOCK)
  }

  lemma {:induction false} FoldAppend(b: Blake, h: State, data: seq<byte>, block: Block, t: nat)
    requires |data| % BLOCK == 0
    ensures Fold(b, h, data + block, t) == b.compress(Fold(b, h, data, t), block, t + |data| + BLOCK, false)
    decreases |data|
  {
    if data == [] {
      assert data + block == block && block[..BLOCK] == block && block[BLOCK..] == [];
    } else {
      assert (data + block)[..BLOCK] == data[..BLOCK] && (data + block)[BLOCK..] == data[BLOCK..] + block;
      FoldAppend(b, b.compress(h, data[..BLOCK], t + BLOCK, false), data[BLOCK..], block, t + BLOCK);
    }
  }

  /** The last block: what is left of `m` after `k` bytes, zero-padded, with the total length. */
  function Last(b: Blake, outlen: nat, m: seq<byte>, k: nat): State
    requires k <= |m| <= k + BLOCK && k % BLOCK == 0
  {
    b.compress(Fold(b, Init(outlen), m[..k], 0), m[k..] + Zeros(BLOCK - (|m| - k)), |m|, true)
  }

  /** BLAKE2b as section 3.3 of RFC 7693 defines it: the last block is kept back even when it is full. */
  function Rfc(b: Blake, outlen: nat, m: seq<byte>): State {
    Last(b, outlen, m, if m == [] then 0 else (|m| - 1) - (|m| - 1) % BLOCK)
  }

  /** What the hasher computes: a full block goes through compression as soon as it is full. */
  function Eager(b: Blake, outlen: nat, m: seq<byte>): State {
    Last(b, outlen, m, |m| - |m| % BLOCK)
  }

  function Le64(w: u64): (s: seq<byte>)
    ensures |s| == 8
  {
    Le32(w % 0x1_0000_0000) + Le32(w / 0x1_0000_0000)
  }

  /** The eight bytes of a word, least significant first. */
  lemma Le64Value(w: u64)
    ensures LeValue(Le64(w)) == w && FromLe64(Le64(w)) == w
  {
    hide LeValue, Le32;
    FromLe64Value(Le64(w));
    var lo, hi := w % 0x1_0000_0000, w / 0x1_0000_0000;
    Le32Value(lo);
    Le32Value(hi);
    LeValueConcat(Le32(lo), Le32(hi));
    Pow2Values();
  }

  lemma Le32Value(w: word)
    ensures LeValue(Le32(w)) == w && FromLe32(Le32(w)) == w
  {
    FromLe32Value(Le32(w));
    var a, b := w / 256, w / 256 / 256;
    assert w == 256 * a + w % 256 && a == 256 * b + a % 256 && b == 256 * (b / 256) + b % 256;
  }

  /** Each word of a state in its place. */
  lemma {:induction false} LeBytesAt(ws: seq<u64>, i: nat)
    requires i < |ws|
    ensures LeBytes(ws)[8 * i..8 * i + 8] == Le64(ws[i])
  {
    hide Le64;
    if i > 0 {
      LeBytesAt(ws[1..], i - 1);
      assert LeBytes(ws)[8 * i..8 * i + 8] == LeBytes(ws[1..])[8 * (i - 1)..8 * (i - 1) + 8];
    }
  }

  function LeBytes(ws: seq<u64>): (s: seq<byte>)
    ensures |s| == 8 * |ws|
  {
    if ws == [] then [] else Le64(ws[0]) + LeBytes(ws[1..])
  }

  function Digest(outlen: nat, st: State): (d: seq<byte>)
    requires outlen <= 64
    ensures |d| == outlen
  {
    LeBytes(st)[..outlen]
  }

  function H(b: Blake, outlen: nat, m: seq<byte>): (d: seq<byte>)
    requires outlen <= 64
    ensures |d| == outlen
  {
    Digest(outlen, Eager(b, outlen, m))
  }

  function RfcH(b: Blake, outlen: nat, m: seq<byte>): (d: seq<byte>)
    requires outlen <= 64
    ensures |d| == outlen
  {
    Digest(outlen, Rfc(b, outlen, m))
  }

  /** Compression that counts the blocks that are not last. */
  const COUNTING := Blake(
    (h: State, m: Block, t: nat, last: bool) =>
      if last then h else [(h[0] + 1) % TWO64, 0, 0, 0, 0, 0, 0, 0])

  lemma {:induction false} CountingFold(h: State, data: seq<byte>, t: nat)
    requires |data| % BLOCK == 0
    ensures Fold(COUNTING, h, data, t)[0] == (h[0] + |data| / BLOCK) % TWO64
    decreases |data|
  {
    if data != [] {
      CountingFold(COUNTING.compress(h, data[..BLOCK], t + BLOCK, false), data[BLOCK..], t + BLOCK);
      CountStep(h[0], (|data| - BLOCK) / BLOCK);
    }
  }

  lemma CountStep(x: nat, k: nat)
    ensures ((x + 1) % TWO64 + k) % TWO64 == (x + 1 + k) % TWO64
  {
    var q := (x + 1) / TWO64;
  }

  lemma FirstByte(outlen: nat, st: State)
    requires 1 <= outlen <= 64
    ensures Digest(outlen, st)[0] == st[0] % 256
  {
    assert LeBytes(st)[0] == Le64(st[0])[0];
  }

  /** Holding the last block back matters exactly for messages that are a positive number of full blocks. */
  lemma EagerIsRfc(outlen: nat, m: seq<byte>)
    requires 1 <= outlen <= 64
    ensures m == [] || |m| % BLOCK != 0 ==> forall b :: H(b, outlen, m) == RfcH(b, outlen, m)
    ensures m != [] && |m| % BLOCK == 0 ==> H(COUNTING, outlen, m)[0] != RfcH(COUNTING, outlen, m)[0]
  {
    hide Fold, LeBytes, Le64, Digest, Init;
    if m != [] {
      LastStart(|m|);
      if |m| % BLOCK == 0 {
        CountedApart(outlen, m);
      }
    }
  }

  /** Where the last block starts when it is kept back even if it is full. */
  lemma LastStart(n: nat)
    requires n > 0
    ensures (n - 1) - (n - 1) % BLOCK == if n % BLOCK == 0 then n - BLOCK else n - n % BLOCK
  {
  }

  lemma CountedApart(outlen: nat, m: seq<byte>)
    requires 1 <= outlen <= 64 && m != [] && |m| % BLOCK == 0
    ensures H(COUNTING, outlen, m)[0] != RfcH(COUNTING, outlen, m)[0]
  {
    hide Fold, LeBytes, Le64, Digest, Init;
    var n := |m| / BLOCK;
    LastStart(|m|);
    CountingFold(Init(outlen), m[..|m|], 0);
    CountingFold(Init(outlen), m[..|m| - BLOCK], 0);
    FirstByte(outlen, Eager(COUNTING, outlen, m));
    FirstByte(outlen, Rfc(COUNTING, outlen, m));
    Successive(Init(outlen)[0], n);
  }

  lemma Successive(x: nat, n: nat)
    requires n > 0
    ensures (x + n) % TWO64 % 256 != (x + (n - 1)) % TWO64 % 256
  {
    LowByte(x + n);
    LowByte(x + (n - 1));
    assert (x + n) % 256 != (x + (n - 1)) % 256;
  }

  lemma LowByte(x: nat)
    ensures x % TWO64 % 256 == x % 256
  {
    var q := x / TWO64;
    assert x == 256 * (q * (TWO64 / 256)) + x % TWO64;
  }

  // ----- the hasher

  /** `h` has absorbed the first `counter` bytes of `fed`, and `kept` is the rest, less than a block. */
  ghost predicate Holding(b: Blake, outlen: nat, h: State, kept: seq<byte>, counter: nat, fed: seq<byte>) {
    && |kept| < BLOCK && counter % BLOCK == 0 && counter + |kept| == |fed|
    && kept == fed[counter..]
    && h == Fold(b, Init(outlen), fed[..counter], 0)
  }

  lemma Keep(b: Blake, outlen: nat, h: State, kept: seq<byte>, counter: nat, fed: seq<byte>, piece: seq<byte>)
    requires Holding(b, outlen, h, kept, counter, fed) && |kept| + |piece| <= BLOCK
    ensures |kept| + |piece| < BLOCK ==> Holding(b, outlen, h, kept + piece, counter, fed + piece)
    ensures |kept| + |piece| == BLOCK ==>
              Holding(b, outlen, b.compress(h, kept + piece, counter + BLOCK, false), [], counter + BLOCK, fed + piece)
  {
    hide Fold, Init;
    assert (fed + piece)[counter..] == kept + piece && (fed + piece)[..counter] == fed[..counter];
    if |kept| + |piece| == BLOCK {
      assert (fed + piece)[..counter + BLOCK] == fed[..counter] + (kept + piece);
      FoldAppend(b, Init(outlen), fed[..counter], kept + piece, 0);
    }
  }

  class Hasher {
    const b: Blake
    const outlen: nat
    const buf: array<byte>
    var h: State
    var buflen: nat
    var counter: nat
    /** Everything fed so far. */
    ghost var fed: seq<byte>

    ghost predicate Valid()
      reads this, buf
    {
      && buf.Length == BLOCK
      && buflen < BLOCK
      && Holding(b, outlen, h, buf[..buflen], counter, fed)
    }

    constructor (b: Blake, outlen: nat)
      requires 1 <= outlen <= 64
      ensures Valid() && fresh(buf) && fed == [] && this.b == b && this.outlen == outlen
    {
      this.b := b;
      this.outlen := outlen;
      buf := new byte[128](_ => 0);
      h := Init(outlen);
      buflen := 0;
      counter := 0;
      fed := [];
    }

    method Update(data0: seq<byte>)
      requires Valid()
      modifies this`h, this`buflen, this`counter, this`fed, buf
      ensures Valid() && fed == old(fed) + data0
    {
      hide Holding;
      var data := data0;
      while data != []
        invariant Valid() && fed + data == old(fed) + data0
        decreases |data|
      {
        var take := if BLOCK - buflen < |data| then BLOCK - buflen else |data|;
        Keep(b, outlen, h, buf[..buflen], counter, fed, data[..take]);
        CutJoins(fed, data, take);
        CopyInto(buf, buflen, data[..take]);
        fed := fed + data[..take];
        buflen := buflen + take;
        data := data[take..];
        if buflen == BLOCK {
          counter := counter + BLOCK;
          assert buf[..] == buf[..buflen];
          h := b.compress(h, buf[..], counter, false);
          buflen := 0;
          assert buf[..0] == [];
        }
      }
    }

    /** The digest of everything fed, however it was cut into updates. */
    method Finish() returns (out: seq<byte>)
      requires Valid() && 1 <= outlen <= 64
      modifies this`h, this`counter, buf
      ensures out == H(b, outlen, fed)
    {
      hide Init;
      counter := counter + buflen;
      ghost var kept := buf[..buflen];
      for i := buflen to BLOCK
        invariant buf[..buflen] == kept
        invariant forall k | buflen <= k < i :: buf[k] == 0
        invariant h == old(h) && counter == |fed|
      {
        buf[i] := 0;
      }
      assert buf[..] == kept + Zeros(BLOCK - buflen);
      assert |fed| - |fed| % BLOCK == |fed| - buflen;
      h := b.compress(h, buf[..], counter, true);
      var full := LeBytes(h);
      out := full[..outlen];
    }
  }

  lemma CutJoins(a: seq<byte>, d: seq<byte>, k: nat)
    requires k <= |d|
    ensures (a + d[..k]) + d[k..] == a + d
  {
  }

  method Hash(b: Blake, outlen: nat, input: seq<byte>) returns (out: seq<byte>)
    requires 1 <= outlen <= 64
    ensures out == H(b, outlen, input)
  {
    var st := new Hasher(b, outlen);
    st.Update(input);
    assert st.fed == input;
    out := st.Finish();
  }

  // ----- variable-length output

  function Le32(w: word): (s: seq<byte>)
    ensures |s| == 4
  {
    [w % 256, w / 256 % 256, w / 256 / 256 % 256, w / 256 / 256 / 256]
  }

  /** The hash proper, or the one the hasher computes. */
  function Hashed(b: Blake, rfc: bool, outlen: nat, m: seq<byte>): (d: seq<byte>)
    requires outlen <= 64
    ensures |d| == outlen
  {
    if rfc then RfcH(b, outlen, m) else H(b, outlen, m)
  }

  /** The chained 64-byte values: the hash of `x`, then each the hash of the one before. */
  function V(b: Blake, rfc: bool, x: seq<byte>, i: nat): (v: seq<byte>)
    requires i >= 1
    ensures |v| == 64
  {
    if i == 1 then Hashed(b, rfc, 64, x) else Hashed(b, rfc, 64, V(b, rfc, x, i - 1))
  }

  /** The first halves of the first `r` of them. */
  function Halves(b: Blake, rfc: bool, x: seq<byte>, r: nat): (s: seq<byte>)
    ensures |s| == 32 * r
  {
    if r == 0 then [] else Halves(b, rfc, x, r - 1) + V(b, rfc, x, r)[..32]
  }

  /** The variable-length hash H' of section 3.3 of RFC 9106. */
  function HPrime(b: Blake, rfc: bool, n: nat, m: seq<byte>): (d: seq<byte>)
    requires n < 0x1_0000_0000
    ensures |d| == n
  {
    var x := Le32(n) + m;
    if n <= 64 then Hashed(b, rfc, n, x) else
      var r := (n + 31) / 32 - 2;
      Halves(b, rfc, x, r) + Hashed(b, rfc, n - 32 * r, V(b, rfc, x, r))
  }

  /** Fills `out`, 32 bytes of each chained value and all of the last. */
  method HashLong(b: Blake, out: array<byte>, input: seq<byte>)
    requires 1 <= out.Length < 0x1_0000_0000
    modifies out
    ensures out[..] == HPrime(b, false, out.Length, input)
  {
    hide H, RfcH, Le32;
    var outlen := out.Length;
    var outlenLe := Le32(outlen);
    ghost var x := outlenLe + input;
    if outlen <= 64 {
      var d := HashPair(b, outlen, outlenLe, input);
      CopyInto(out, 0, d);
      assert out[..] == d;
      return;
    }
    var outBuffer := HashPair(b, 64, outlenLe, input);
    CopyInto(out, 0, outBuffer[..32]);
    assert Halves(b, false, x, 0) == [];
    var produced := 32;
    var toproduce := outlen - 32;
    ghost var r := 1;
    while toproduce > 64
      invariant r >= 1 && produced == 32 * r && toproduce == outlen - produced && toproduce > 32
      invariant outBuffer == V(b, false, x, r)
      invariant out[..produced] == Halves(b, false, x, r)
    {
      var ob := Hash(b, 64, outBuffer);
      CopyInto(out, produced, ob[..32]);
      outBuffer := ob;
      produced := produced + 32;
      toproduce := toproduce - 32;
      r := r + 1;
    }
    var ob := Hash(b, toproduce, outBuffer);
    CopyInto(out, produced, ob[..toproduce]);
    assert out[..] == out[..produced + toproduce] && ob[..toproduce] == ob;
  }

  /** Two updates and a digest: the hash of the two inputs put together. */
  method HashPair(b: Blake, outlen: nat, p: seq<byte>, q: seq<byte>) returns (out: seq<byte>)
    requires 1 <= outlen <= 64
    ensures out == H(b, outlen, p + q)
  {
    var st := new Hasher(b, outlen);
    st.Update(p);
    st.Update(q);
    assert st.fed == p + q;
    out := st.Finish();
  }

  lemma {:induction false} ChainsAgree(b: Blake, x: seq<byte>, i: nat)
    requires i >= 1 && H(b, 64, x) == RfcH(b, 64, x)
    ensures V(b, false, x, i) == V(b, true, x, i)
  {
    hide H, RfcH;
    if i > 1 {
      ChainsAgree(b, x, i - 1);
      EagerIsRfc(64, V(b, true, x, i - 1));
    }
  }

  lemma {:induction false} HalvesAgree(b: Blake, x: seq<byte>, r: nat)
    requires H(b, 64, x) == RfcH(b, 64, x)
    ensures Halves(b, false, x, r) == Halves(b, true, x, r)
  {
    hide H, RfcH;
    if r > 0 {
      HalvesAgree(b, x, r - 1);
      ChainsAgree(b, x, r);
    }
  }

  lemma HashedAgree(b: Blake, outlen: nat, m: seq<byte>)
    requires 1 <= outlen <= 64 && |m| % BLOCK != 0
    ensures H(b, outlen, m) == RfcH(b, outlen, m)
  {
    hide H, RfcH;
    EagerIsRfc(outlen, m);
  }

  /** `HashLong` is H' over BLAKE2b exactly when the length prefix and the input are not whole blocks. */
  lemma LongIsHPrime(n: nat, m: seq<byte>)
    requires 1 <= n < 0x1_0000_0000
    ensures (4 + |m|) % BLOCK != 0 ==> forall b :: HPrime(b, false, n, m) == HPrime(b, true, n, m)
    ensures (4 + |m|) % BLOCK == 0 ==> HPrime(COUNTING, false, n, m)[0] != HPrime(COUNTING, true, n, m)[0]
  {
    hide H, RfcH, Le32;
    var x := Le32(n) + m;
    var r := (n + 31) / 32 - 2;
    if (4 + |m|) % BLOCK != 0 {
      forall b: Blake ensures HPrime(b, false, n, m) == HPrime(b, true, n, m) {
        if n <= 64 {
          HashedAgree(b, n, x);
        } else {
          HashedAgree(b, 64, x);
          HalvesAgree(b, x, r);
          ChainsAgree(b, x, r);
          HashedAgree(b, n - 32 * r, V(b, true, x, r));
        }
      }
    } else {
      EagerIsRfc(if n <= 64 then n else 64, x);
      if n > 64 {
        FirstHalf(COUNTING, false, x, r);
        FirstHalf(COUNTING, true, x, r);
      }
    }
  }

  lemma {:induction false} FirstHalf(b: Blake, rfc: bool, x: seq<byte>, r: nat)
    requires r >= 1
    ensures Halves(b, rfc, x, r)[0] == Hashed(b, rfc, 64, x)[0]
  {
    if r > 1 {
      FirstHalf(b, rfc, x, r - 1);
    }
  }
}
