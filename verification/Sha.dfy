/** SHA-256 around an arbitrary compression function: padding, resuming from a midstate, and framing the
    last one or two blocks of a message whose decimal tail keeps changing. */
module Sha {
  import opened Words
  import opened Decimal

  type State = s: seq<word> | |s| == 8 witness [0, 0, 0, 0, 0, 0, 0, 0]
  type Block = b: seq<byte> | |b| == 64 witness Zeros(64)
  type Compress = (State, Block) -> State

  const H0: State := [
    0x6a09e667, 0xbb67ae85, 0x3c6ef372, 0xa54ff53a, 0x510e527f, 0x9b05688c, 0x1f83d9ab, 0x5be0cd19]

  const PRIMES: seq<nat> := [2, 3, 5, 7, 11, 13, 17, 19]

  /** The initial state of section 5.3.3 of FIPS 180-4: the first 32 bits of the fractional parts of the square roots
      of the first eight primes. */
  lemma StartsFromRoots(i: nat)
    requires i < 8
    ensures RootFraction(H0[i], PRIMES[i], 0x1_0000_0000)
  {
    var u: nat := 0x1_0000_0000;
    assert RootFrom(1 * u + H0[0], 2, u) && RootFrom(1 * u + H0[1], 3, u);
    assert RootFrom(2 * u + H0[2], 5, u) && RootFrom(2 * u + H0[3], 7, u);
    assert RootFrom(3 * u + H0[4], 11, u) && RootFrom(3 * u + H0[5], 13, u);
    assert RootFrom(4 * u + H0[6], 17, u) && RootFrom(4 * u + H0[7], 19, u);
  }

  /** The state after absorbing whole blocks. */
  function Absorb(c: Compress, st: State, data: seq<byte>): (r: State)
    requires |data| % 64 == 0
    decreases |data|
  {
    if data == [] then st else Absorb(c, c(st, data[..64]), data[64..])
  }

  lemma {:induction false} AbsorbConcat(c: Compress, st: State, a: seq<byte>, b: seq<byte>)
    requires |a| % 64 == 0 && |b| % 64 == 0
    ensures Absorb(c, st, a + b) == Absorb(c, Absorb(c, st, a), b)
    decreases |a|
  {
    if a == [] {
      assert a + b == b;
    } else {
      assert (a + b)[..64] == a[..64] && (a + b)[64..] == a[64..] + b;
      AbsorbConcat(c, c(st, a[..64]), a[64..], b);
    }
  }

  lemma AbsorbOne(c: Compress, st: State, b: Block)
    ensures Absorb(c, st, b) == c(st, b)
  {
    assert b[..64] == b && b[64..] == [];
  }

  function Be64(v: nat): (s: seq<byte>)
    requires v < TWO64
    ensures |s| == 8
  {
    Be32(v / 0x1_0000_0000) + Be32(v % 0x1_0000_0000)
  }

  lemma Be64Value(v: nat)
    requires v < TWO64
    ensures BytesValue(Be64(v)) == v
  {
    hide Be32, BytesValue;
    var hi, lo := v / 0x1_0000_0000, v % 0x1_0000_0000;
    BytesValueConcat(Be32(hi), Be32(lo));
    Be32Value(hi);
    Be32Value(lo);
    Pow2Values();
  }

  /** Zero bytes between the marker and the length (section 5.1.1 of FIPS 180-4). */
  function ZeroCount(len: nat): (k: nat) {
    (119 - len % 64) % 64
  }

  lemma ZeroCountIsLeast(len: nat, k: nat)
    ensures (len + 1 + ZeroCount(len)) % 64 == 56
    ensures (len + 1 + k) % 64 == 56 ==> ZeroCount(len) <= k
  {
    var m := len % 64;
    SameMod(len, 1 + ZeroCount(len));
    SameMod(len, 1 + k);
    if m <= 55 {
      assert ZeroCount(len) == 55 - m;
    } else {
      assert ZeroCount(len) == 119 - m;
    }
  }

  lemma SameMod(a: nat, x: nat)
    ensures (a + x) % 64 == (a % 64 + x) % 64
  {
    assert a + x == 64 * (a / 64) + (a % 64 + x);
  }

  function Padding(len: nat): (p: seq<byte>)
    requires 8 * len < TWO64
    ensures |p| == 9 + ZeroCount(len) && (len + |p|) % 64 == 0
  {
    PaddedLength(len);
    [0x80] + Zeros(ZeroCount(len)) + Be64(8 * len)
  }

  /** A marker bit, zeros, and the length in bits as a 64-bit big-endian number. */
  lemma PaddingIs(len: nat)
    requires 8 * len < TWO64
    ensures var p := Padding(len);
            var n := |p| - 8;
            && n > 0 && p[0] == 0x80 && (forall i | 1 <= i < n :: p[i] == 0)
            && BytesValue(p[n..]) == 8 * len
  {
    Be64Value(8 * len);
    hide Be64, BytesValue, ZeroCount;
    assert Padding(len)[|Padding(len)| - 8..] == Be64(8 * len);
  }

  lemma PaddedLength(len: nat)
    ensures (len + (9 + ZeroCount(len))) % 64 == 0
  {
    ZeroCountIsLeast(len, 0);
    SameMod(len + 1 + ZeroCount(len), 8);
  }

  /** SHA-256 of a message: absorb it with its padding from the initial state. */
  function Sha256(c: Compress, m: seq<byte>): (d: seq<byte>)
    requires 8 * |m| < TWO64
    ensures |d| == 32
  {
    WordsBe(Absorb(c, H0, m + Padding(|m|)))
  }

  // ----- resuming from a midstate

  lemma AbsorbNone(c: Compress, st: State)
    ensures Absorb(c, st, []) == st
  {
  }

  /** Absorbs the whole blocks of `data` and returns the state and the bytes left over. */
  method Midstate(c: Compress, prefix: State, data: seq<byte>) returns (st: State, tail: seq<byte>)
    ensures |data| >= |tail| == |data| % 64 && tail == data[|data| - |tail|..]
    ensures (|data| - |tail|) % 64 == 0 && st == Absorb(c, prefix, data[..|data| - |tail|])
  {
    hide Absorb;
    st := prefix;
    var nfull := |data| / 64;
    AbsorbNone(c, prefix);
    assert data[..0] == [];
    for i := 0 to nfull
      invariant st == Absorb(c, prefix, data[..i * 64])
    {
      var blk := data[i * 64..i * 64 + 64];
      assert data[..(i + 1) * 64] == data[..i * 64] + blk;
      AbsorbConcat(c, prefix, data[..i * 64], blk);
      AbsorbOne(c, st, blk);
      st := c(st, blk);
    }
    tail := data[|data| - |data| % 64..];
  }

  /** Hashing from the midstate of `data[..k]` only needs the rest of the message and its total length. */
  lemma Resume(c: Compress, prefix: State, data: seq<byte>, k: nat, rest: seq<byte>)
    requires k <= |data| && k % 64 == 0 && (|data| + |rest|) % 64 == 0
    ensures |data[k..] + rest| % 64 == 0
    ensures Absorb(c, Absorb(c, prefix, data[..k]), data[k..] + rest) == Absorb(c, prefix, data + rest)
  {
    assert data + rest == data[..k] + (data[k..] + rest);
    AbsorbConcat(c, prefix, data[..k], data[k..] + rest);
  }

  // ----- framing the last blocks

  /** Writes marker, zeros and bit length behind the `at` bytes already in `dst`. */
  method TailPad(dst: array<byte>, at: nat, bitLen: nat)
    requires at < 120 && dst.Length >= (if at < 56 then 64 else 128) && bitLen < TWO64
    modifies dst
    ensures var end := if at < 56 then 64 else 128;
      && dst[..at] == old(dst[..at])
      && dst[at..end] == [0x80] + Zeros(end - 9 - at) + Be64(bitLen) && BytesValue(dst[end - 8..end]) == bitLen
      && dst[end..] == old(dst[end..])
  {
    hide Be64, BytesValue;
    dst[at] := 0x80;
    var end := if at < 56 then 64 else 128;
    for i := at + 1 to end - 8
      invariant dst[..at] == old(dst[..at]) && dst[at] == 0x80
      invariant forall j | at < j < i :: dst[j] == 0
      invariant dst[end - 8..] == old(dst[end - 8..])
    {
      dst[i] := 0;
    }
    var be := Be64(bitLen);
    Be64Value(bitLen);
    for i := 0 to 8
      invariant dst[..at] == old(dst[..at]) && dst[at] == 0x80
      invariant forall j | at < j < end - 8 :: dst[j] == 0
      invariant forall j | 0 <= j < i :: dst[end - 8 + j] == be[j]
      invariant dst[end..] == old(dst[end..])
    {
      dst[end - 8 + i] := be[i];
    }
    Assembled(dst[at..end], end - 9 - at, be);
    assert dst[end - 8..end] == be;
  }

  lemma Assembled(s: seq<byte>, n: nat, be: seq<byte>)
    requires |s| == n + 9 && |be| == 8 && s[0] == 0x80
    requires forall j | 1 <= j <= n :: s[j] == 0
    requires forall j | 0 <= j < 8 :: s[n + 1 + j] == be[j]
    ensures s == [0x80] + Zeros(n) + be
  {
    var t := [0x80] + Zeros(n) + be;
    forall j | 0 <= j < |s| ensures s[j] == t[j] {
      if j > n {
        assert s[n + 1 + (j - n - 1)] == be[j - n - 1];
      }
    }
  }

  /** The padding written by `TailPad` is the standard one whenever the offset is the length modulo 64. */
  lemma TailPadIsPadding(at: nat, total: nat)
    requires at < 120 && at % 64 == total % 64 && 8 * total < TWO64
    ensures var end := if at < 56 then 64 else 128;
      end - 9 - at == ZeroCount(total) && [0x80] + Zeros(end - 9 - at) + Be64(8 * total) == Padding(total)
  {
    ZeroCountIs(at, total);
    hide ZeroCount, Be64, Zeros;
  }

  lemma ZeroCountIs(at: nat, total: nat)
    requires at < 120 && at % 64 == total % 64
    ensures (if at < 56 then 64 else 128) - 9 - at == ZeroCount(total)
  {
  }

  /** The message tail, `width` digits and the padding: what the last one or two blocks must hold. */
  function Framed(tail: seq<byte>, digits: seq<byte>, total: nat): (s: seq<byte>)
    requires 8 * total < TWO64
  {
    tail + digits + Padding(total)
  }

  ghost predicate Frameable(tail: seq<byte>, width: nat, total: nat) {
    |tail| < 64 && width <= 20 && (|tail| + width) % 64 == total % 64 && 8 * total < TWO64
  }

  lemma FramedLength(tail: seq<byte>, digits: seq<byte>, total: nat)
    requires Frameable(tail, |digits|, total)
    ensures |Framed(tail, digits, total)| == if |tail| + |digits| <= 55 then 64 else 128
  {
    TailPadIsPadding(|tail| + |digits|, total);
  }

  /** Lays out tail, zero digits and padding over two blocks; `single` says that the first one holds everything. */
  method FrameBlocks(tail: seq<byte>, width: nat, total: nat) returns (b1: Block, b2: Block, single: bool)
    requires Frameable(tail, width, total)
    ensures single <==> |tail| + width <= 55
    ensures single ==> b1 == Framed(tail, Repeat(48, width), total)
    ensures !single ==> b1 + b2 == Framed(tail, Repeat(48, width), total)
  {
    hide Padding, ZeroCount, Be64, Zeros, BytesValue;
    var buf := new byte[128](i => 0);
    var pos := |tail| + width;
    for i := 0 to |tail|
      invariant buf[..i] == tail[..i]
    {
      buf[i] := tail[i];
    }
    for i := |tail| to pos
      invariant buf[..i] == tail + Repeat(48, i - |tail|)
    {
      buf[i] := 48;
    }
    single := pos <= 55;
    TailPad(buf, pos, total * 8);
    TailPadIsPadding(pos, total);
    FramedLength(tail, Repeat(48, width), total);
    b1, b2 := buf[..64], buf[64..];
    var end := if pos < 56 then 64 else 128;
    assert buf[..end] == buf[..pos] + buf[pos..end];
    assert b1 + b2 == buf[..];
  }

  /** Overwrites the digit positions, across the block boundary if need be. */
  method PatchDigits(b1: array<byte>, b2: array<byte>, off: nat, width: nat, digits: seq<byte>)
    requires b1 != b2 && b1.Length == 64 && b2.Length == 64
    requires off < 64 && off + width <= 128 && width <= |digits|
    modifies b1, b2
    ensures b1[..] + b2[..] == old((b1[..] + b2[..])[..off]) + digits[..width] + old((b1[..] + b2[..])[off + width..])
    ensures off + width <= 64 ==> b2[..] == old(b2[..])
  {
    ghost var w := b1[..] + b2[..];
    for i := 0 to width
      invariant b1[..] + b2[..] == w[..off] + digits[..i] + w[off + i..]
      invariant off + width <= 64 ==> b2[..] == old(b2[..])
    {
      var p := off + i;
      if p < 64 {
        b1[p] := digits[i];
      } else {
        b2[p - 64] := digits[i];
      }
      assert b1[..] + b2[..] == (w[..off] + digits[..i] + w[off + i..])[p := digits[i]];
    }
  }

  /** Replacing the zero digits of a frame by others frames those. */
  lemma PatchedFrame(tail: seq<byte>, old_: seq<byte>, digits: seq<byte>, total: nat)
    requires Frameable(tail, |digits|, total) && |old_| == |digits|
    ensures var f := Framed(tail, old_, total);
      |f| >= |tail| + |digits| &&
      f[..|tail|] + digits + f[|tail| + |digits|..] == Framed(tail, digits, total)
  {
  }

  /** The digest of a message known only by midstate, tail and total length, with the nonce's digits put in. */
  method TailDigest(c: Compress, prefix: State, tail: seq<byte>, total: nat, nonce: nat, width: nat)
      returns (digest: seq<byte>)
    requires Frameable(tail, width, total) && nonce < TWO64
    ensures |Framed(tail, Fixed(nonce, width), total)| % 64 == 0
    ensures digest == WordsBe(Absorb(c, prefix, Framed(tail, Fixed(nonce, width), total)))
  {
    var f1, f2, single := FrameBlocks(tail, width, total);
    var b1 := new byte[64](i requires 0 <= i < 64 => f1[i]);
    var b2 := new byte[64](i requires 0 <= i < 64 => f2[i]);
    assert b1[..] == f1 && b2[..] == f2;
    var digits := new byte[20](i => 0);
    DigitsFixedInto(nonce, digits, width);
    PatchDigits(b1, b2, |tail|, width, digits[..]);
    var st := c(prefix, b1[..]);
    if !single {
      st := c(st, b2[..]);
    }
    digest := WordsBe(st);
    FrameAbsorbed(c, prefix, tail, Fixed(nonce, width), total, f1, f2, b1[..], b2[..]);
  }

  /** Absorbing the patched blocks absorbs the framed message. */
  lemma FrameAbsorbed(c: Compress, prefix: State, tail: seq<byte>, digits: seq<byte>, total: nat,
                      f1: Block, f2: Block, b1: Block, b2: Block)
    requires Frameable(tail, |digits|, total)
    requires var zero := Framed(tail, Repeat(48, |digits|), total);
      if |tail| + |digits| <= 55 then f1 == zero else f1 + f2 == zero
    requires b1 + b2 == (f1 + f2)[..|tail|] + digits + (f1 + f2)[|tail| + |digits|..]
    requires |tail| + |digits| <= 64 ==> b2 == f2
    ensures |Framed(tail, digits, total)| % 64 == 0
    ensures Absorb(c, prefix, Framed(tail, digits, total))
         == if |tail| + |digits| <= 55 then c(prefix, b1) else c(c(prefix, b1), b2)
    ensures |tail| + |digits| <= 55 ==> Framed(tail, digits, total) == b1
    ensures |tail| + |digits| > 55 ==> Framed(tail, digits, total) == b1 + b2
  {
    PatchedFrame(tail, Repeat(48, |digits|), digits, total);
    FramedLength(tail, digits, total);
    if |tail| + |digits| <= 55 {
      assert b1 == (b1 + b2)[..64];
      assert Framed(tail, digits, total) == b1;
      AbsorbOne(c, prefix, b1);
    } else {
      AbsorbConcat(c, prefix, b1, b2);
      AbsorbOne(c, prefix, b1);
      AbsorbOne(c, c(prefix, b1), b2);
    }
  }

  lemma TailResidue(done: nat, data: nat, tail: nat, digits: nat, padding: nat)
    requires done % 64 == 0 && tail == data % 64
    ensures (tail + digits) % 64 == (done + data + digits) % 64
    ensures (done + data + digits + padding) % 64 == 0 ==>
      (data + (digits + padding)) % 64 == 0 && (tail + (digits + padding)) % 64 == 0
  {
    SameMod(data, digits);
    SameMod(data, digits + padding);
    WholeBlocks(done, data + digits);
    WholeBlocks(done, data + digits + padding);
  }

  lemma WholeBlocks(done: nat, x: nat)
    requires done % 64 == 0
    ensures (done + x) % 64 == x % 64
  {
    assert done + x == 64 * (done / 64) + x;
  }

  /** From midstate and tail, the framed digest is the hash of the whole message: the data so far, then the digits. */
  lemma FramedIsSha256(c: Compress, start: State, done: seq<byte>, data: seq<byte>, st: State, tail: seq<byte>, digits: seq<byte>)
    requires |done| % 64 == 0 && 8 * (|done| + |data| + |digits|) < TWO64 && |digits| <= 20
    requires |tail| == |data| % 64 && tail == data[|data| - |tail|..]
    requires (|data| - |tail|) % 64 == 0 && st == Absorb(c, Absorb(c, start, done), data[..|data| - |tail|])
    ensures Frameable(tail, |digits|, |done| + |data| + |digits|)
    ensures |Framed(tail, digits, |done| + |data| + |digits|)| % 64 == 0
    ensures var m := done + data + digits; |m + Padding(|m|)| % 64 == 0
    ensures var m := done + data + digits;
      Absorb(c, st, Framed(tail, digits, |m|)) == Absorb(c, start, m + Padding(|m|))
  {
    hide Absorb, Padding, ZeroCount;
    var m := done + data + digits;
    var rest := digits + Padding(|m|);
    TailResidue(|done|, |data|, |tail|, |digits|, |Padding(|m|)|);
    Resume(c, Absorb(c, start, done), data, |data| - |tail|, rest);
    assert data[|data| - |tail|..] + rest == Framed(tail, digits, |m|);
    assert m + Padding(|m|) == done + (data + rest);
    AbsorbConcat(c, start, done, data + rest);
  }
}
