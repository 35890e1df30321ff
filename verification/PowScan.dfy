/** What each puzzle hashes for a nonce, when the digest is a hit, and both for eight lanes at once. */
module PowScan {
  import opened Words
  import opened Decimal
  import opened Sha

  // ----- what a puzzle computes from the state after the framed message

  datatype Mid =
    | Plain
    | Outer(prefix: State, tail: seq<byte>)
    | Chained(rounds: nat)

  datatype Ctx = Ctx(prefix: State, tail: seq<byte>, base: nat, needBits: nat, avx512: bool, mid: Mid)
  {
    predicate Ok() {
      && |tail| < 64 && base % 64 == |tail| && 8 * (base + 20) < TWO64
      && (mid.Outer? ==> |mid.tail| == 32)
    }
  }

  function Rehash(c: Compress, h: seq<byte>, k: nat): (d: seq<byte>)
    requires |h| == 32
    ensures |d| == 32
    decreases k
  {
    if k == 0 then h else Rehash(c, Sha256(c, h), k - 1)
  }

  function OuterHash(c: Compress, prefix: State, tail: seq<byte>, inner: seq<byte>): (d: seq<byte>)
    requires |tail| == 32 && |inner| == 32
    ensures |d| == 32
  {
    WordsBe(c(prefix, inner + tail))
  }

  function MidDigest(c: Compress, mid: Mid, st: State): (d: seq<byte>)
    requires mid.Outer? ==> |mid.tail| == 32
    ensures |d| == 32
  {
    match mid
    case Plain => WordsBe(st)
    case Outer(prefix, tail) => OuterHash(c, prefix, tail, WordsBe(st))
    case Chained(rounds) => Rehash(c, WordsBe(st), if rounds == 0 then 0 else rounds - 1)
  }

  /** The digest a context assigns to a nonce of `width` digits. */
  function DigestOf(c: Compress, ctx: Ctx, width: nat, n: nat): (d: seq<byte>)
    requires ctx.Ok() && width <= 20
    ensures |d| == 32
  {
    MidDigest(c, ctx.mid, FramedState(c, ctx, width, n))
  }

  function FramedState(c: Compress, ctx: Ctx, width: nat, n: nat): (st: State)
    requires ctx.Ok() && width <= 20
  {
    FramedLength(ctx.tail, Fixed(n, width), ctx.base + width);
    Absorb(c, ctx.prefix, Framed(ctx.tail, Fixed(n, width), ctx.base + width))
  }

  // ----- when a digest counts as a hit

  /** A digest hits when, as a 256-bit number, it has `need` leading zero bits. */
  ghost predicate Hits(need: nat, d: seq<byte>) {
    need <= 256 && BytesValue(d) < Pow2(256 - need)
  }

  lemma HitsIsLeadingZeros(need: nat, st: State)
    ensures Value(st) < Pow2(256)
    ensures Hits(need, WordsBe(st)) <==> LeadingZeros(Value(st), 256) >= need
  {
    ValueBound(st);
    WordsBeValue(st);
    LeadingZerosBound(Value(st), 256, need);
  }

  /** Up to 32 bits the first word decides. */
  lemma FirstWordDecides(need: nat, st: State)
    requires need <= 32
    ensures Hits(need, WordsBe(st)) <==> Lz32(st[0]) >= need
  {
    hide Hits, Pow2, LeadingZeros, Value;
    HitsIsLeadingZeros(need, st);
    LeadingZerosTop(st);
    LzOfZero();
  }

  /** The check of one digest in the scalar scan. */
  method IsHit(need: nat, h: seq<byte>) returns (hit: bool)
    requires |h| == 32
    ensures hit <==> Hits(need, h)
  {
    var s := BeWords(h);
    WordsBeOfBeWords(h);
    if need <= 32 {
      hit := Lz32(s[0]) >= need;
      FirstWordDecides(need, s);
    } else {
      var lz := LzWordsBe(s);
      hit := lz >= need;
      HitsIsLeadingZeros(need, s);
    }
  }

  // ----- the lane mask

  function Mask(bits: seq<bool>): (m: nat)
  {
    if bits == [] then 0 else (if bits[0] then 1 else 0) + 2 * Mask(bits[1..])
  }

  function TrailingZeros(m: nat): (k: nat)
    requires m > 0
  {
    if m % 2 == 1 then 0 else 1 + TrailingZeros(m / 2)
  }

  lemma {:induction false} MaskAppend(bits: seq<bool>, b: bool)
    ensures Mask(bits + [b]) == Mask(bits) + (if b then Pow2(|bits|) else 0)
  {
    if bits == [] {
      assert [b][1..] == [];
      assert [] + [b] == [b];
    } else {
      assert (bits + [b])[1..] == bits[1..] + [b];
      MaskAppend(bits[1..], b);
    }
  }

  /** The lowest set bit of a mask is the first lane that is set. */
  lemma {:induction false} MaskFirst(bits: seq<bool>)
    ensures Mask(bits) == 0 <==> forall i | 0 <= i < |bits| :: !bits[i]
    ensures Mask(bits) > 0 ==> var k := TrailingZeros(Mask(bits));
      k < |bits| && bits[k] && forall i | 0 <= i < k :: !bits[i]
  {
    if bits != [] {
      MaskFirst(bits[1..]);
      assert forall i | 0 < i < |bits| :: bits[i] == bits[1..][i - 1];
      if Mask(bits) > 0 && !bits[0] {
        var k := TrailingZeros(Mask(bits[1..]));
        assert Mask(bits) / 2 == Mask(bits[1..]);
        forall i | 0 <= i < k + 1 ensures !bits[i] {
          assert i > 0 ==> !bits[1..][i - 1];
        }
      }
    }
  }

  /** Picks the lowest lane whose state hits. */
  method Check8(st: seq<State>, need: nat, avx512: bool) returns (r: Option<nat>)
    requires |st| == 8
    ensures r == None ==> forall k | 0 <= k < 8 :: !Hits(need, WordsBe(st[k]))
    ensures r.Some? ==> r.value < 8 && Hits(need, WordsBe(st[r.value]))
    ensures r.Some? ==> forall k | 0 <= k < r.value :: !Hits(need, WordsBe(st[k]))
  {
    hide Hits, Pow2, LeadingZeros, Value, WordsBe;
    if need <= 32 {
      var hits := 0;
      ghost var bits: seq<bool> := [];
      for k := 0 to 8
        invariant |bits| == k && hits == Mask(bits)
        invariant forall i | 0 <= i < k :: bits[i] <==> Hits(need, WordsBe(st[i]))
      {
        var hit := Lz32(st[k][0]) >= need;
        FirstWordDecides(need, st[k]);
        MaskAppend(bits, hit);
        hits := hits + if hit then Pow2(k) else 0;
        bits := bits + [hit];
      }
      MaskFirst(bits);
      if hits == 0 {
        return None;
      }
      return Some(TrailingZeros(hits));
    }
    if avx512 {
      for pair := 0 to 4
        invariant forall i | 0 <= i < 2 * pair :: !Hits(need, WordsBe(st[i]))
      {
        var k0, k1 := pair * 2, pair * 2 + 1;
        var r0 := LzCarryChain(st[k0]);
        var r1 := LzCarryChain(st[k1]);
        HitsIsLeadingZeros(need, st[k0]);
        HitsIsLeadingZeros(need, st[k1]);
        if r0 >= need {
          return Some(k0);
        }
        if r1 >= need {
          return Some(k1);
        }
      }
      return None;
    }
    for k := 0 to 8
      invariant forall i | 0 <= i < k :: !Hits(need, WordsBe(st[i]))
    {
      var lz := LzWordsBe(st[k]);
      HitsIsLeadingZeros(need, st[k]);
      if lz >= need {
        return Some(k);
      }
    }
    return None;
  }

  // ----- what follows the framed message

  method OuterRound(c: Compress, prefix: State, tail: seq<byte>, inner: seq<byte>) returns (d: seq<byte>)
    requires |tail| == 32 && |inner| == 32
    ensures d == OuterHash(c, prefix, tail, inner)
  {
    var outer := new byte[64](i => 0);
    for i := 0 to 32
      invariant outer[..i] == inner[..i]
    {
      outer[i] := inner[i];
    }
    for i := 32 to 64
      invariant outer[..i] == inner + tail[..i - 32]
    {
      outer[i] := tail[i - 32];
    }
    assert outer[..] == inner + tail;
    d := WordsBe(c(prefix, outer[..]));
  }

  /** One more hash of a 32-byte digest fits a single padded block. */
  lemma RehashBlock(c: Compress, h: seq<byte>)
    requires |h| == 32
    ensures |h + Padding(32)| == 64
    ensures Sha256(c, h) == WordsBe(c(H0, h + Padding(32)))
  {
    AbsorbOne(c, H0, h + Padding(32));
  }

  method ChainBlock(h: seq<byte>, blocks: array2<byte>, k: nat)
    requires |h| == 32 && blocks.Length0 == 8 && blocks.Length1 == 64 && k < 8
    modifies blocks
    ensures Row(blocks, k, 64) == h + Padding(32)
    ensures forall r, j | 0 <= r < 8 && 0 <= j < 64 && r != k :: blocks[r, j] == old(blocks[r, j])
  {
    var blk := new byte[64](i requires 0 <= i < 64 => if i < 32 then h[i] else 0);
    assert blk[..32] == h;
    TailPad(blk, 32, 256);
    TailPadIsPadding(32, 32);
    assert blk[..] == blk[..32] + blk[32..64];
    SetRow(blocks, k, 0, blk[..]);
    assert Row(blocks, k, 64) == blk[..];
  }

  /** Copies `s` into row `k` from column `at` on. */
  method SetRow(blocks: array2<byte>, k: nat, at: nat, s: seq<byte>)
    requires k < blocks.Length0 && at + |s| <= blocks.Length1
    modifies blocks
    ensures forall r, j | 0 <= r < blocks.Length0 && 0 <= j < blocks.Length1 ::
      blocks[r, j] == if r == k && at <= j < at + |s| then s[j - at] else old(blocks[r, j])
  {
    for i := 0 to |s|
      invariant forall r, j | 0 <= r < blocks.Length0 && 0 <= j < blocks.Length1 ::
        blocks[r, j] == if r == k && at <= j < at + i then s[j - at] else old(blocks[r, j])
    {
      blocks[k, at + i] := s[i];
    }
  }

  /** The digest of one state. */
  method MidOne(c: Compress, mid: Mid, st: State) returns (h: seq<byte>)
    requires mid.Outer? ==> |mid.tail| == 32
    ensures h == MidDigest(c, mid, st)
  {
    match mid
    case Plain =>
      h := WordsBe(st);
    case Outer(prefix, tail) =>
      h := OuterRound(c, prefix, tail, WordsBe(st));
    case Chained(rounds) =>
      h := WordsBe(st);
      var more := if rounds == 0 then 0 else rounds - 1;
      for i := 0 to more
        invariant |h| == 32
        invariant Rehash(c, WordsBe(st), more) == Rehash(c, h, more - i)
      {
        RehashBlock(c, h);
        h := WordsBe(c(H0, h + Padding(32)));
      }
  }

  /** Compresses one block in each of the eight lanes. */
  method Compress8(c: Compress, st: seq<State>, blocks: array2<byte>) returns (r: seq<State>)
    requires |st| == 8 && blocks.Length0 == 8 && blocks.Length1 == 64
    ensures |r| == 8 && forall k | 0 <= k < 8 :: r[k] == c(st[k], Row(blocks, k, 64))
  {
    r := [];
    for k := 0 to 8
      invariant |r| == k && forall i | 0 <= i < k :: r[i] == c(st[i], Row(blocks, i, 64))
    {
      var blk := new byte[64](j requires 0 <= j < 64 reads blocks => blocks[k, j]);
      assert blk[..] == Row(blocks, k, 64);
      r := r + [c(st[k], blk[..])];
    }
  }

  /** The lane blocks already end as the outer hash wants them. */
  ghost predicate BlocksReady(mid: Mid, blocks: array2<byte>)
    requires blocks.Length0 == 8 && blocks.Length1 == 64
    reads blocks
  {
    mid.Outer? ==> |mid.tail| == 32 && forall k, j | 0 <= k < 8 && 32 <= j < 64 :: blocks[k, j] == mid.tail[j - 32]
  }

  method InitBlocks(mid: Mid, blocks: array2<byte>)
    requires blocks.Length0 == 8 && blocks.Length1 == 64
    requires mid.Outer? ==> |mid.tail| == 32
    modifies blocks
    ensures BlocksReady(mid, blocks)
  {
    if mid.Outer? {
      for k := 0 to 8
        invariant forall i, j | 0 <= i < k && 32 <= j < 64 :: blocks[i, j] == mid.tail[j - 32]
      {
        SetRow(blocks, k, 32, mid.tail);
      }
    }
  }

  /** The eight-lane form of `MidOne`, on the lane blocks in place. */
  method MidStep(c: Compress, mid: Mid, st: seq<State>, blocks: array2<byte>) returns (r: seq<State>)
    requires |st| == 8 && blocks.Length0 == 8 && blocks.Length1 == 64
    requires (mid.Outer? ==> |mid.tail| == 32) && BlocksReady(mid, blocks)
    modifies blocks
    ensures BlocksReady(mid, blocks)
    ensures |r| == 8 && forall k | 0 <= k < 8 :: WordsBe(r[k]) == MidDigest(c, mid, st[k])
  {
    match mid
    case Plain =>
      r := st;
    case Outer(prefix, tail) =>
      r := OuterStep(c, mid, st, blocks);
    case Chained(rounds) =>
      r := ChainStep(c, rounds, st, blocks);
  }

  method OuterStep(c: Compress, mid: Mid, st: seq<State>, blocks: array2<byte>) returns (r: seq<State>)
    requires |st| == 8 && blocks.Length0 == 8 && blocks.Length1 == 64
    requires mid.Outer? && |mid.tail| == 32 && BlocksReady(mid, blocks)
    modifies blocks
    ensures BlocksReady(mid, blocks)
    ensures |r| == 8 && forall k | 0 <= k < 8 :: WordsBe(r[k]) == MidDigest(c, mid, st[k])
  {
    hide WordsBe;
    for k := 0 to 8
      invariant BlocksReady(mid, blocks)
      invariant forall i | 0 <= i < k :: Row(blocks, i, 64) == WordsBe(st[i]) + mid.tail
    {
      SetRow(blocks, k, 0, WordsBe(st[k]));
      assert Row(blocks, k, 64) == WordsBe(st[k]) + mid.tail;
    }
    r := Compress8(c, seq(8, i => mid.prefix), blocks);
  }

  method ChainStep(c: Compress, rounds: nat, st: seq<State>, blocks: array2<byte>) returns (r: seq<State>)
    requires |st| == 8 && blocks.Length0 == 8 && blocks.Length1 == 64
    modifies blocks
    ensures |r| == 8
    ensures forall k | 0 <= k < 8 :: WordsBe(r[k]) == Rehash(c, WordsBe(st[k]), if rounds == 0 then 0 else rounds - 1)
  {
    hide WordsBe, Padding;
    r := st;
    var more := if rounds == 0 then 0 else rounds - 1;
    for i := 0 to more
      invariant |r| == 8
      invariant forall k | 0 <= k < 8 :: Rehash(c, WordsBe(st[k]), more) == Rehash(c, WordsBe(r[k]), more - i)
    {
      for k := 0 to 8
        invariant forall j | 0 <= j < k :: Row(blocks, j, 64) == WordsBe(r[j]) + Padding(32)
      {
        ghost var before := seq(k, j requires 0 <= j < k reads blocks => Row(blocks, j, 64));
        ChainBlock(WordsBe(r[k]), blocks, k);
        forall j | 0 <= j < k ensures Row(blocks, j, 64) == before[j] {
        }
      }
      ghost var from := r;
      r := Compress8(c, seq(8, k => H0), blocks);
      forall k | 0 <= k < 8
        ensures Rehash(c, WordsBe(st[k]), more) == Rehash(c, WordsBe(r[k]), more - (i + 1))
      {
        RehashBlock(c, WordsBe(from[k]));
      }
    }
  }
}
