/** Searching a range of nonces of one width: one at a time, and eight at a time with in-place decimal counters. */
module BatchScan {
  import opened Words
  import opened Decimal
  import opened Sha
  import opened PowScan

  /** The least hit in [base, end) with its digest. */
  ghost function FirstHit(c: Compress, ctx: Ctx, width: nat, base: nat, end: nat): (r: Option<(nat, seq<byte>)>)
    requires ctx.Ok() && width <= 20
    decreases if base < end then end - base else 0
  {
    if base >= end then None
    else
      var d := DigestOf(c, ctx, width, base);
      if Hits(ctx.needBits, d) then Some((base, d)) else FirstHit(c, ctx, width, base + 1, end)
  }

  /** `FirstHit` is the least hit, and None exactly when there is none. */
  lemma {:induction false} FirstHitIsLeast(c: Compress, ctx: Ctx, width: nat, base: nat, end: nat)
    requires ctx.Ok() && width <= 20
    ensures var r := FirstHit(c, ctx, width, base, end);
      && (r == None ==> forall n: nat | base <= n < end :: !Hits(ctx.needBits, DigestOf(c, ctx, width, n)))
      && (r.Some? ==> var (n, d) := r.value;
            && base <= n < end && d == DigestOf(c, ctx, width, n) && Hits(ctx.needBits, d)
            && forall m: nat | base <= m < n :: !Hits(ctx.needBits, DigestOf(c, ctx, width, m)))
    decreases if base < end then end - base else 0
  {
    hide DigestOf, Hits;
    if base < end && !Hits(ctx.needBits, DigestOf(c, ctx, width, base)) {
      FirstHitIsLeast(c, ctx, width, base + 1, end);
    }
  }

  lemma {:induction false} SkipMisses(c: Compress, ctx: Ctx, width: nat, base: nat, to: nat, end: nat)
    requires ctx.Ok() && width <= 20 && base <= to <= end
    requires forall n: nat | base <= n < to :: !Hits(ctx.needBits, DigestOf(c, ctx, width, n))
    ensures FirstHit(c, ctx, width, base, end) == FirstHit(c, ctx, width, to, end)
    decreases if base < to then to - base else 0
  {
    if base < to {
      SkipMisses(c, ctx, width, base + 1, to, end);
    }
  }

  // ----- plans

  datatype Plan = Plan(block1: Block, block2: Block, single: bool)

  ghost predicate PlanOk(ctx: Ctx, width: nat, plan: Plan)
    requires ctx.Ok() && width <= 20
  {
    var zero := Framed(ctx.tail, Repeat(48, width), ctx.base + width);
    && (plan.single <==> |ctx.tail| + width <= 55)
    && (plan.single ==> plan.block1 == zero)
    && (!plan.single ==> plan.block1 + plan.block2 == zero)
  }

  method PlanOf(ctx: Ctx, width: nat) returns (plan: Plan)
    requires ctx.Ok() && width <= 20
    ensures PlanOk(ctx, width, plan)
  {
    hide Framed, Padding, Repeat;
    var b1, b2, single := FrameBlocks(ctx.tail, width, ctx.base + width);
    plan := Plan(b1, b2, single);
  }

  /** Blocks that carry a nonce's digits in the plan's frame. */
  ghost predicate Carries(ctx: Ctx, plan: Plan, digits: seq<byte>, b1: Block, b2: Block)
  {
    && |ctx.tail| + |digits| <= 128
    && b1 + b2 == (plan.block1 + plan.block2)[..|ctx.tail|] + digits + (plan.block1 + plan.block2)[|ctx.tail| + |digits|..]
    && (|ctx.tail| + |digits| <= 64 ==> b2 == plan.block2)
  }

  lemma CarriedState(c: Compress, ctx: Ctx, width: nat, plan: Plan, n: nat, b1: Block, b2: Block)
    requires ctx.Ok() && width <= 20 && PlanOk(ctx, width, plan) && Carries(ctx, plan, Fixed(n, width), b1, b2)
    ensures FramedState(c, ctx, width, n) == if plan.single then c(ctx.prefix, b1) else c(c(ctx.prefix, b1), b2)
  {
    hide Absorb, Framed, Fixed, Padding, Repeat;
    FrameAbsorbed(c, ctx.prefix, ctx.tail, Fixed(n, width), ctx.base + width, plan.block1, plan.block2, b1, b2);
  }

  /** Blocks that already carry one nonce's digits carry another's after those are patched in. */
  lemma CarriesPatched(ctx: Ctx, plan: Plan, before: seq<byte>, digits: seq<byte>, b1: Block, b2: Block, p1: Block, p2: Block)
    requires |before| == |digits| && |ctx.tail| + |digits| <= 128
    requires Carries(ctx, plan, before, b1, b2)
    requires p1 + p2 == (b1 + b2)[..|ctx.tail|] + digits + (b1 + b2)[|ctx.tail| + |digits|..]
    requires |ctx.tail| + |digits| <= 64 ==> p2 == b2
    ensures Carries(ctx, plan, digits, p1, p2)
  {
    var w, off := plan.block1 + plan.block2, |ctx.tail|;
    assert (b1 + b2)[..off] == w[..off];
    assert (b1 + b2)[off + |digits|..] == w[off + |digits|..];
  }

  /** The plan's own blocks carry whatever stands at the place of the digits. */
  lemma PlanCarries(ctx: Ctx, width: nat, plan: Plan)
    requires ctx.Ok() && width <= 20
    ensures |ctx.tail| + width <= 128
    ensures Carries(ctx, plan, (plan.block1 + plan.block2)[|ctx.tail|..|ctx.tail| + width], plan.block1, plan.block2)
  {
    var w, off := plan.block1 + plan.block2, |ctx.tail|;
    assert w == w[..off] + w[off..off + width] + w[off + width..];
  }

  /** One nonce after the other, the digits patched into two working blocks. */
  method ScalarScan(c: Compress, ctx: Ctx, width: nat, plan: Plan, base: nat, end: nat) returns (r: Option<(nat, seq<byte>)>)
    requires ctx.Ok() && width <= 20 && PlanOk(ctx, width, plan) && end <= TWO64
    ensures r == FirstHit(c, ctx, width, base, end)
  {
    hide Framed, Absorb, Hits, Padding, PlanOk, Carries, Fixed, WordsBe, Rehash, OuterHash;
    var off := |ctx.tail|;
    PlanCarries(ctx, width, plan);
    var digits := new byte[20](i => 0);
    var b1 := new byte[64](i requires 0 <= i < 64 => plan.block1[i]);
    var b2 := new byte[64](i requires 0 <= i < 64 => plan.block2[i]);
    assert b1[..] == plan.block1 && b2[..] == plan.block2;
    ghost var held := (plan.block1 + plan.block2)[off..off + width];
    var n := base;
    while n < end
      invariant base <= n && FirstHit(c, ctx, width, base, end) == FirstHit(c, ctx, width, n, end)
      invariant |held| == width && Carries(ctx, plan, held, b1[..], b2[..])
    {
      ghost var w1, w2 := b1[..], b2[..];
      DigitsFixedInto(n, digits, width);
      assert digits[..][..width] == Fixed(n, width);
      PatchDigits(b1, b2, off, width, digits[..]);
      CarriesPatched(ctx, plan, held, Fixed(n, width), w1, w2, b1[..], b2[..]);
      held := Fixed(n, width);
      CarriedState(c, ctx, width, plan, n, b1[..], b2[..]);
      var st := c(ctx.prefix, b1[..]);
      if !plan.single {
        st := c(st, b2[..]);
      }
      var h := MidOne(c, ctx.mid, st);
      var hit := IsHit(ctx.needBits, h);
      if hit {
        return Some((n, h));
      }
      n := n + 1;
    }
    return None;
  }

  // ----- eight lanes

  /** Decimal counters of eight consecutive nonces, kept as digits. */
  class NonceDigits {
    const d: array2<byte>

    /** Row `k` counts `cur + k`. */
    ghost predicate Counts(cur: nat, width: nat)
      reads this, d
    {
      && d.Length0 == 8 && d.Length1 == 20 && width <= 20
      && forall k | 0 <= k < 8 :: Row(d, k, width) == Fixed(cur + k, width)
    }

    constructor (base: nat, width: nat)
      requires width <= 20 && base + 8 <= TWO64
      ensures Counts(base, width) && fresh(d)
    {
      d := new byte[8, 20]((i, j) => 0);
      new;
      var row := new byte[20](i => 0);
      for k := 0 to 8
        invariant fresh(row) && fresh(d) && row.Length == 20 && d.Length0 == 8 && d.Length1 == 20
        invariant forall i | 0 <= i < k :: Row(d, i, width) == Fixed(base + i, width)
      {
        ghost var before := seq(k, i requires 0 <= i < k reads d => Row(d, i, width));
        DigitsFixedInto(base + k, row, width);
        assert forall i | 0 <= i < k :: Row(d, i, width) == before[i];
        SetRow(d, k, 0, row[..]);
        assert Row(d, k, width) == row[..][..width];
        forall i | 0 <= i < k ensures Row(d, i, width) == before[i] {
        }
      }
    }

    /** Copies every lane's digits to offset `off` of the lane's block. */
    method Patch(blocks: array2<byte>, off: nat, width: nat)
      requires d.Length0 == 8 && d.Length1 == 20 && width <= 20
      requires blocks != d && blocks.Length0 == 8 && blocks.Length1 == 64 && off + width <= 64
      modifies blocks
      ensures forall k, j | 0 <= k < 8 && 0 <= j < 64 ::
        blocks[k, j] == if off <= j < off + width then d[k, j - off] else old(blocks[k, j])
    {
      for k := 0 to 8
        invariant forall r, j | 0 <= r < 8 && 0 <= j < 64 ::
          blocks[r, j] == if r < k && off <= j < off + width then d[r, j - off] else old(blocks[r, j])
      {
        var row := new byte[width](j requires 0 <= j < width reads d => d[k, j]);
        SetRow(blocks, k, off, row[..]);
      }
    }

    /** Advances every counter by eight. */
    method Bump(ghost cur: nat, width: nat)
      requires Counts(cur, width)
      modifies d
      ensures Counts(cur + 8, width)
    {
      for k := 0 to 8
        invariant forall i | 0 <= i < k :: Row(d, i, width) == Fixed(cur + 8 + i, width)
        invariant forall i | k <= i < 8 :: Row(d, i, width) == Fixed(cur + i, width)
      {
        ghost var before := seq(8, i requires 0 <= i < 8 reads d => Row(d, i, width));
        IncrDec(d, k, cur + k, width, 8);
        forall i | 0 <= i < 8 && i != k ensures Row(d, i, width) == before[i] {
        }
      }
    }
  }

  /** Every lane's block is the plan's first block outside the digits. */
  ghost predicate Framing(ctx: Ctx, plan: Plan, width: nat, blocks: array2<byte>)
    reads blocks
  {
    && blocks.Length0 == 8 && blocks.Length1 == 64 && |ctx.tail| + width <= 64
    && forall k, j | 0 <= k < 8 && 0 <= j < 64 && !(|ctx.tail| <= j < |ctx.tail| + width) :: blocks[k, j] == plan.block1[j]
  }

  /** Patches the counters into the lanes' first blocks and compresses all lanes. */
  method LaneStates(c: Compress, ctx: Ctx, width: nat, plan: Plan, nd: NonceDigits, b1: array2<byte>, b2: array2<byte>,
                    ghost cur: nat) returns (st: seq<State>)
    requires ctx.Ok() && width <= 20 && PlanOk(ctx, width, plan)
    requires nd.Counts(cur, width) && Framing(ctx, plan, width, b1) && b1 != nd.d && b1 != b2
    requires b2.Length0 == 8 && b2.Length1 == 64 && forall k, j | 0 <= k < 8 && 0 <= j < 64 :: b2[k, j] == plan.block2[j]
    modifies b1
    ensures Framing(ctx, plan, width, b1)
    ensures |st| == 8 && forall k | 0 <= k < 8 :: st[k] == FramedState(c, ctx, width, cur + k)
  {
    hide Framed, Absorb, Padding, PlanOk, Fixed, FramedState;
    var off := |ctx.tail|;
    nd.Patch(b1, off, width);
    st := Compress8(c, seq(8, k => ctx.prefix), b1);
    ghost var first := st;
    if !plan.single {
      st := Compress8(c, st, b2);
    }
    forall k | 0 <= k < 8 ensures st[k] == FramedState(c, ctx, width, cur + k) {
      assert Row(b1, k, 64)[off..off + width] == Row(nd.d, k, width);
      assert Row(b2, k, 64) == plan.block2;
      CarriedState(c, ctx, width, plan, cur + k, Row(b1, k, 64), plan.block2);
    }
  }

  /** Eight nonces at a time from precomputed blocks, the rest one by one. */
  method Batch8(c: Compress, ctx: Ctx, width: nat, plan: Plan, base: nat, end: nat) returns (r: Option<(nat, seq<byte>)>)
    requires ctx.Ok() && width <= 20 && PlanOk(ctx, width, plan) && base + 8 <= TWO64 && end + 8 <= TWO64
    ensures r == FirstHit(c, ctx, width, base, end)
  {
    hide Framed, Absorb, Hits, Padding, PlanOk, Fixed, MidDigest, FramedState, FirstHit, WordsBe, BlocksReady;
    var off := |ctx.tail|;
    if off + width > 64 {
      r := ScalarScan(c, ctx, width, plan, base, end);
      return;
    }
    var nd := new NonceDigits(base, width);
    var b1 := new byte[8, 64]((k, j) requires 0 <= j < 64 => plan.block1[j]);
    var b2 := new byte[8, 64]((k, j) requires 0 <= j < 64 => plan.block2[j]);
    var blocks := new byte[8, 64]((k, j) => 0);
    InitBlocks(ctx.mid, blocks);
    var cur := base;
    while cur + 8 <= end
      invariant base <= cur && cur + 8 <= TWO64
      invariant FirstHit(c, ctx, width, base, end) == FirstHit(c, ctx, width, cur, end)
      invariant nd.Counts(cur, width) && Framing(ctx, plan, width, b1)
      invariant fresh(nd) && fresh(nd.d)
      invariant forall k, j | 0 <= k < 8 && 0 <= j < 64 :: b2[k, j] == plan.block2[j]
      invariant BlocksReady(ctx.mid, blocks)
    {
      var st := LaneStates(c, ctx, width, plan, nd, b1, b2, cur);
      ghost var states := st;
      st := MidStep(c, ctx.mid, st, blocks);
      assert forall k | 0 <= k < 8 :: WordsBe(st[k]) == MidDigest(c, ctx.mid, states[k]) == DigestOf(c, ctx, width, cur + k);
      var hit := Check8(st, ctx.needBits, ctx.avx512);
      if hit.Some? {
        var k := hit.value;
        LanesDecide(c, ctx, width, cur, end, st, k);
        return Some((cur + k, WordsBe(st[k])));
      }
      LanesMiss(c, ctx, width, cur, end, st);
      nd.Bump(cur, width);
      cur := cur + 8;
    }
    r := ScalarScan(c, ctx, width, plan, cur, end);
  }

  lemma LanesDecide(c: Compress, ctx: Ctx, width: nat, cur: nat, end: nat, st: seq<State>, k: nat)
    requires ctx.Ok() && width <= 20 && cur + 8 <= end && |st| == 8 && k < 8
    requires forall i | 0 <= i < 8 :: WordsBe(st[i]) == DigestOf(c, ctx, width, cur + i)
    requires Hits(ctx.needBits, WordsBe(st[k])) && forall i | 0 <= i < k :: !Hits(ctx.needBits, WordsBe(st[i]))
    ensures FirstHit(c, ctx, width, cur, end) == Some((cur + k, WordsBe(st[k])))
  {
    forall n: nat | cur <= n < cur + k ensures !Hits(ctx.needBits, DigestOf(c, ctx, width, n)) {
      assert !Hits(ctx.needBits, WordsBe(st[n - cur]));
    }
    SkipMisses(c, ctx, width, cur, cur + k, end);
  }

  lemma LanesMiss(c: Compress, ctx: Ctx, width: nat, cur: nat, end: nat, st: seq<State>)
    requires ctx.Ok() && width <= 20 && cur + 8 <= end && |st| == 8
    requires forall i | 0 <= i < 8 :: WordsBe(st[i]) == DigestOf(c, ctx, width, cur + i)
    requires forall i | 0 <= i < 8 :: !Hits(ctx.needBits, WordsBe(st[i]))
    ensures FirstHit(c, ctx, width, cur, end) == FirstHit(c, ctx, width, cur + 8, end)
  {
    forall n: nat | cur <= n < cur + 8 ensures !Hits(ctx.needBits, DigestOf(c, ctx, width, n)) {
      assert !Hits(ctx.needBits, WordsBe(st[n - cur]));
    }
    SkipMisses(c, ctx, width, cur, cur + 8, end);
  }
}
