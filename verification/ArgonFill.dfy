/** Argon2 memory filling: the segment loop against the block recurrence. */
module ArgonFill {
  import opened Words
  import opened Blake2b
  import opened ArgonIndex

  type Mem = seq<Cells>
  type Cells = c: seq<bv64> | |c| == 128 witness ZeroWords(128)

  function ZeroWords(n: nat): (s: seq<bv64>)
    ensures |s| == n
  {
    seq(n, i => 0)
  }

  /** The permutation P over a whole block; any function will do. */
  type Permute = Cells -> Cells

  function XorCells(a: Cells, b: Cells): Cells {
    seq(128, i requires 0 <= i < 128 => a[i] ^ b[i])
  }

  /** The compression of two blocks (section 3.5 of RFC 9106). */
  function G(p: Permute, x: Cells, y: Cells): Cells {
    XorCells(p(XorCells(x, y)), XorCells(x, y))
  }

  lemma XorBits(a: bv64, b: bv64, c: bv64, d: bv64)
    ensures ((a ^ b) ^ c) ^ d == (d ^ (b ^ a)) ^ c
  {
  }

  lemma XorAt(a: Cells, b: Cells, i: nat)
    requires i < 128
    ensures XorCells(a, b)[i] == a[i] ^ b[i]
  {
  }

  lemma XorMixed(a: Cells, b: Cells, c: Cells, d: Cells)
    ensures XorCells(XorCells(XorCells(a, b), c), d) == XorCells(XorCells(d, XorCells(b, a)), c)
  {
    hide XorCells;
    forall i: nat | i < 128 ensures XorCells(XorCells(XorCells(a, b), c), d)[i] == XorCells(XorCells(d, XorCells(b, a)), c)[i] {
      XorAt(a, b, i);
      XorAt(b, a, i);
      XorAt(XorCells(a, b), c, i);
      XorAt(XorCells(XorCells(a, b), c), d, i);
      XorAt(d, XorCells(b, a), i);
      XorAt(XorCells(d, XorCells(b, a)), c, i);
      XorBits(a[i], b[i], c[i], d[i]);
    }
  }

  /** To combine a block with another twice undoes it. */
  lemma XorTwice(a: Cells, b: Cells)
    ensures XorCells(XorCells(a, b), b) == a
  {
    forall i | 0 <= i < 128 ensures (a[i] ^ b[i]) ^ b[i] == a[i] {
    }
  }

  lemma XorSwap(a: Cells, b: Cells)
    ensures XorCells(a, b) == XorCells(b, a)
  {
    forall i | 0 <= i < 128 ensures a[i] ^ b[i] == b[i] ^ a[i] {
    }
  }

  // ----- the specification

  const ZERO: Cells := ZeroWords(128)

  lemma XorCellsZero(x: Cells)
    ensures XorCells(ZERO, x) == x
  {
    forall i | 0 <= i < 128 ensures XorCells(ZERO, x)[i] == x[i] {
    }
  }

  function CellOf(x: nat): bv64 {
    (x % TWO64) as bv64
  }

  lemma CellOfIs(x: u64)
    ensures CellOf(x) == x as bv64
  {
  }

  function LowWord(w: bv64): word {
    (w as int) % TWO32
  }

  /** The low half of a word. */
  lemma LowWordIs(w: bv64, hi: nat)
    ensures LowWord(w) < TWO32 && (w as int == hi * TWO32 + LowWord(w) <==> hi == (w as int) / TWO32)
  {
    LowHalf(w as int, hi);
  }

  lemma LowHalf(x: nat, hi: nat)
    ensures x == hi * TWO32 + x % TWO32 <==> hi == x / TWO32
  {
  }

  /** A 64-bit counter after `k` steps. */
  function Count(k: nat): bv64 {
    if k == 0 then 0 else Count(k - 1) + 1
  }

  /** The seed of the address blocks: position, sizes and a counter (section 3.4.1.2 of RFC 9106). */
  function AddressSeed(geo: Geo, pass: nat, slice: nat, counter: bv64): Cells {
    seq(128, i => if i == 0 then CellOf(pass) else if i == 2 then CellOf(slice) else if i == 3 then CellOf(geo.mPrime)
                  else if i == 4 then CellOf(geo.tCost) else if i == 5 then CellOf(geo.y) else if i == 6 then counter else 0)
  }

  /** Address block `k`, counting from 1. */
  function Addresses(p: Permute, geo: Geo, pass: nat, slice: nat, k: nat): Cells {
    G(p, ZERO, G(p, ZERO, AddressSeed(geo, pass, slice, Count(k))))
  }

  predicate DataIndependent(geo: Geo, pass: nat, slice: nat) {
    geo.y == 1 || (geo.y == 2 && pass == 0 && slice < 2)
  }

  /** The pseudo-random word that picks the reference of a block. */
  function Rand(p: Permute, geo: Geo, mem: Mem, pass: nat, slice: nat, index: nat): word
    requires 0 <= Prev(geo, slice, index) < |mem|
  {
    if DataIndependent(geo, pass, slice) then LowWord(Addresses(p, geo, pass, slice, index / 128 + 1)[index % 128])
    else LowWord(mem[Prev(geo, slice, index)][0])
  }

  /** Argon2id (section 3.4.1 of RFC 9106): in the first half of the first pass the reference is picked by the next word
      of the address blocks, everywhere else by the first word of the block before. */
  lemma RandIsRfc(p: Permute, geo: Geo, mem: Mem, pass: nat, slice: nat, index: nat)
    requires At(geo, pass, slice, index) && geo.y == 2 && |mem| >= geo.laneLength
    ensures 0 <= Prev(geo, slice, index) < |mem|
    ensures var w := if pass == 0 && Curr(geo, slice, index) < geo.laneLength / 2
                     then Addresses(p, geo, pass, slice, index / 128 + 1)[index % 128]
                     else mem[if Curr(geo, slice, index) == 0 then geo.laneLength - 1 else Curr(geo, slice, index) - 1][0];
            Rand(p, geo, mem, pass, slice, index) == LowWord(w)
  {
    hide Addresses, NewFastDiv, LowWord, WindowSize;
    InLane(geo, pass, slice, index);
    Segments(geo, slice);
    Half(geo, slice, index);
  }

  lemma Half(geo: Geo, slice: nat, index: nat)
    requires geo.laneLength == 4 * geo.segmentLength && index < geo.segmentLength
    ensures Curr(geo, slice, index) < geo.laneLength / 2 <==> slice < 2
  {
    if slice >= 2 {
      assert slice * geo.segmentLength >= 2 * geo.segmentLength;
    } else {
      assert slice * geo.segmentLength <= geo.segmentLength;
    }
  }

  lemma InLane(geo: Geo, pass: nat, slice: nat, index: nat)
    requires At(geo, pass, slice, index)
    ensures 0 <= Curr(geo, slice, index) < geo.laneLength && 0 <= Prev(geo, slice, index) < geo.laneLength
    ensures Curr(geo, slice, index) != Prev(geo, slice, index)
    ensures 0 < WindowSize(geo, pass, slice, index) < geo.laneLength < TWO32
  {
    hide NewFastDiv;
    Segments(geo, slice);
  }

  function Ref(p: Permute, geo: Geo, mem: Mem, pass: nat, slice: nat, index: nat): (r: nat)
    requires At(geo, pass, slice, index) && |mem| >= geo.laneLength
    ensures r < geo.laneLength && InWindow(geo, pass, slice, index, r)
  {
    InLane(geo, pass, slice, index);
    var rand := Rand(p, geo, mem, pass, slice, index);
    IndexAlphaCorrect(geo, RefPos(pass, slice, index, rand, true));
    Reference(geo, pass, slice, index, rand)
  }

  /** The block computed at a position: from the previous and the referred block, in later passes
      combined with the block it replaces (section 3.2 of RFC 9106, steps 5 and 6). */
  function NewCells(p: Permute, geo: Geo, mem: Mem, pass: nat, slice: nat, index: nat): Cells
    requires At(geo, pass, slice, index) && |mem| >= geo.laneLength
  {
    InLane(geo, pass, slice, index);
    var g := G(p, mem[Prev(geo, slice, index)], mem[Ref(p, geo, mem, pass, slice, index)]);
    if pass == 0 then g else XorCells(g, mem[Curr(geo, slice, index)])
  }

  /** The rest of a segment from block `i` on. */
  function FillFrom(p: Permute, geo: Geo, mem: Mem, pass: nat, slice: nat, i: nat): (m: Mem)
    requires geo.Ok() && slice < 4 && (pass == 0 && slice == 0 ==> i >= 2) && |mem| >= geo.laneLength
    ensures |m| == |mem|
    decreases geo.segmentLength - i
  {
    if i >= geo.segmentLength then mem else
      InLane(geo, pass, slice, i);
      FillFrom(p, geo, mem[Curr(geo, slice, i) := NewCells(p, geo, mem, pass, slice, i)], pass, slice, i + 1)
  }

  function FirstIndex(pass: nat, slice: nat): nat {
    if pass == 0 && slice == 0 then 2 else 0
  }

  /** All segments from the given one on. */
  function RunFrom(p: Permute, geo: Geo, mem: Mem, pass: nat, slice: nat): (m: Mem)
    requires geo.Ok() && slice <= 4 && pass <= geo.tCost && |mem| >= geo.laneLength
    ensures |m| == |mem|
    decreases geo.tCost - pass, 4 - slice
  {
    if pass == geo.tCost then mem
    else if slice == 4 then RunFrom(p, geo, mem, pass + 1, 0)
    else RunFrom(p, geo, FillFrom(p, geo, mem, pass, slice, FirstIndex(pass, slice)), pass, slice + 1)
  }

  // ----- what was in the memory before does not matter

  /** The part of the lane that is settled before block `i` of a segment. */
  function Settled(geo: Geo, pass: nat, slice: nat, i: nat): nat {
    if pass == 0 then Curr(geo, slice, i) else geo.laneLength
  }

  lemma SameRand(p: Permute, geo: Geo, m1: Mem, m2: Mem, pass: nat, slice: nat, i: nat)
    requires At(geo, pass, slice, i) && |m1| >= geo.laneLength && |m2| >= geo.laneLength
    requires forall k | 0 <= k < Settled(geo, pass, slice, i) && k < geo.laneLength :: m1[k] == m2[k]
    ensures NewCells(p, geo, m1, pass, slice, i) == NewCells(p, geo, m2, pass, slice, i)
  {
    hide Addresses, WindowSize, Reference, XorCells, LowWord, NewFastDiv;
    InLane(geo, pass, slice, i);
    var r := Ref(p, geo, m1, pass, slice, i);
    assert r == Ref(p, geo, m2, pass, slice, i);
    assert r < Settled(geo, pass, slice, i);
  }

  lemma {:induction false} SameFill(p: Permute, geo: Geo, m1: Mem, m2: Mem, pass: nat, slice: nat, i: nat)
    requires geo.Ok() && slice < 4 && (pass == 0 && slice == 0 ==> i >= 2) && i <= geo.segmentLength
    requires |m1| >= geo.laneLength && |m2| >= geo.laneLength
    requires forall k | 0 <= k < Settled(geo, pass, slice, i) && k < geo.laneLength :: m1[k] == m2[k]
    ensures forall k | 0 <= k < Settled(geo, pass, slice + 1, 0) && k < geo.laneLength ::
              FillFrom(p, geo, m1, pass, slice, i)[k] == FillFrom(p, geo, m2, pass, slice, i)[k]
    decreases geo.segmentLength - i
  {
    hide NewCells, NewFastDiv;
    Segments(geo, slice);
    if i < geo.segmentLength {
      InLane(geo, pass, slice, i);
      SameRand(p, geo, m1, m2, pass, slice, i);
      var at := Curr(geo, slice, i);
      SameFill(p, geo, m1[at := NewCells(p, geo, m1, pass, slice, i)], m2[at := NewCells(p, geo, m2, pass, slice, i)],
        pass, slice, i + 1);
    }
  }

  /** Two memories with the same first two blocks end with the same lane: every block is written before it is read. */
  lemma {:induction false} SameRun(p: Permute, geo: Geo, m1: Mem, m2: Mem, pass: nat, slice: nat)
    requires geo.Ok() && slice <= 4 && pass < geo.tCost
    requires |m1| >= geo.laneLength && |m2| >= geo.laneLength
    requires forall k | 0 <= k < Settled(geo, pass, slice, FirstIndex(pass, slice)) && k < geo.laneLength :: m1[k] == m2[k]
    ensures forall k | 0 <= k < geo.laneLength :: RunFrom(p, geo, m1, pass, slice)[k] == RunFrom(p, geo, m2, pass, slice)[k]
    decreases geo.tCost - pass, 4 - slice
  {
    hide FillFrom, NewFastDiv;
    if slice == 4 {
      assert Settled(geo, pass, 4, 0) == geo.laneLength;
      if pass + 1 < geo.tCost {
        SameRun(p, geo, m1, m2, pass + 1, 0);
      }
    } else {
      var i := FirstIndex(pass, slice);
      SameFill(p, geo, m1, m2, pass, slice, i);
      SameRun(p, geo, FillFrom(p, geo, m1, pass, slice, i), FillFrom(p, geo, m2, pass, slice, i), pass, slice + 1);
    }
  }

  // ----- the code

  method FillBlock(p: Permute, mem: array<Cells>, prev: nat, rf: nat, curr: nat, withXor: bool)
    requires prev < mem.Length && rf < mem.Length && curr < mem.Length
    modifies mem
    ensures mem[..] == old(mem[..])[curr := if withXor then XorCells(G(p, old(mem[prev]), old(mem[rf])), old(mem[curr]))
                                            else G(p, old(mem[prev]), old(mem[rf]))]
  {
    hide XorCells;
    ghost var a, b, c := mem[rf], mem[prev], mem[curr];
    var r := XorCells(mem[rf], mem[prev]);
    var tmp := r;
    if withXor {
      tmp := XorCells(tmp, mem[curr]);
    }
    r := p(r);
    XorMixed(a, b, c, r);
    XorSwap(a, b);
    XorSwap(r, XorCells(a, b));
    mem[curr] := XorCells(tmp, r);
  }

  /** Steps the counter and hashes the seed twice. */
  method NextAddresses(p: Permute, input0: Cells) returns (address: Cells, input: Cells)
    ensures input == input0[6 := input0[6] + 1]
    ensures address == G(p, ZERO, G(p, ZERO, input))
  {
    hide XorCells;
    input := input0[6 := input0[6] + 1];
    var r := p(input);
    address := XorCells(r, input);
    XorCellsZero(input);
    var old_ := address;
    var r2 := p(old_);
    address := XorCells(r2, old_);
    XorCellsZero(old_);
  }

  lemma SeedCounts(geo: Geo, pass: nat, slice: nat, k: nat)
    ensures AddressSeed(geo, pass, slice, Count(k))[6 := AddressSeed(geo, pass, slice, Count(k))[6] + 1]
         == AddressSeed(geo, pass, slice, Count(k + 1))
  {
    hide Bits, ZeroWords, Count;
    CountNext(k);
    var s := AddressSeed(geo, pass, slice, Count(k));
    assert s[6] == Count(k);
  }

  lemma CountNext(k: nat)
    ensures Count(k + 1) == Count(k) + 1
  {
  }

  /** The seed has counted the address blocks begun before block `i`, and the last of them is at hand. */
  ghost predicate AddressesReady(p: Permute, geo: Geo, pass: nat, slice: nat, i: nat, input: Cells, address: Cells) {
    && input == AddressSeed(geo, pass, slice, Count((i + 127) / 128))
    && (i % 128 != 0 ==> address == Addresses(p, geo, pass, slice, i / 128 + 1))
  }

  /** The seed, and for the segment that starts at its third block the first address block. */
  method StartAddresses(p: Permute, geo: Geo, pass: nat, slice: nat) returns (input: Cells, address: Cells)
    ensures AddressesReady(p, geo, pass, slice, FirstIndex(pass, slice), input, address)
  {
    hide Bits, G, AddressSeed;
    input, address := ZERO, ZERO;
    input := input[0 := CellOf(pass)][1 := CellOf(0)][2 := CellOf(slice)];
    input := input[3 := CellOf(geo.mPrime)][4 := CellOf(geo.tCost)][5 := CellOf(geo.y)];
    SeedIs(geo, pass, slice);
    if pass == 0 && slice == 0 {
      SeedCounts(geo, pass, slice, 0);
      address, input := NextAddresses(p, input);
    }
  }

  /** The address word of block `i`; every 128 blocks a new address block. */
  method NextWord(p: Permute, geo: Geo, pass: nat, slice: nat, i: nat, input0: Cells, address0: Cells)
      returns (w: bv64, input: Cells, address: Cells)
    requires AddressesReady(p, geo, pass, slice, i, input0, address0)
    ensures AddressesReady(p, geo, pass, slice, i + 1, input, address)
    ensures w == Addresses(p, geo, pass, slice, i / 128 + 1)[i % 128]
  {
    hide AddressSeed, G, Count;
    input, address := input0, address0;
    Blocks(i);
    if i % 128 == 0 {
      SeedCounts(geo, pass, slice, i / 128);
      address, input := NextAddresses(p, input);
    }
    w := address[i % 128];
  }

  lemma Blocks(i: nat)
    ensures (i + 127) / 128 == if i % 128 == 0 then i / 128 else i / 128 + 1
    ensures (i + 128) / 128 == i / 128 + 1
    ensures (i + 1) % 128 != 0 ==> (i + 1) / 128 == i / 128
  {
  }

  /** One segment of the lane. */
  method Segment(p: Permute, geo: Geo, mem: array<Cells>, pass: nat, slice: nat)
    requires geo.Ok() && slice < 4 && mem.Length >= geo.laneLength
    modifies mem
    ensures mem[..] == FillFrom(p, geo, old(mem[..]), pass, slice, FirstIndex(pass, slice))
  {
    hide NewFastDiv, Addresses, AddressesReady, AddressSeed, G, XorCells, IndexAlpha, LowWord, WindowSize, InWindow, Reference,
      NewCells, FillFrom, Bits, Rand;
    var laneLength, segmentLength := geo.laneLength, geo.segmentLength;
    var dataIndependent := DataIndependent(geo, pass, slice);
    var input, address := ZERO, ZERO;
    if dataIndependent {
      input, address := StartAddresses(p, geo, pass, slice);
    }
    var startingIndex := if pass == 0 && slice == 0 then 2 else 0;
    Segments(geo, slice);
    var currOffset := slice * segmentLength + startingIndex;
    SmallRem(currOffset, laneLength);
    var laneRem := currOffset % laneLength;
    var prevOffset := if currOffset % laneLength == 0 then currOffset + laneLength - 1 else currOffset - 1;
    var i := startingIndex;
    ghost var target := FillFrom(p, geo, mem[..], pass, slice, startingIndex);
    while i < segmentLength
      invariant startingIndex <= i <= segmentLength
      invariant currOffset == slice * segmentLength + i
      invariant laneRem == if currOffset == laneLength then 0 else currOffset
      invariant i < segmentLength ==> laneRem == 1 || prevOffset == if currOffset == 0 then laneLength - 1 else currOffset - 1
      invariant dataIndependent ==> AddressesReady(p, geo, pass, slice, i, input, address)
      invariant target == FillFrom(p, geo, mem[..], pass, slice, i)
    {
      InLane(geo, pass, slice, i);
      if laneRem == 1 {
        prevOffset := currOffset - 1;
      }
      var w: bv64;
      if dataIndependent {
        w, input, address := NextWord(p, geo, pass, slice, i, input, address);
      } else {
        w := mem[prevOffset][0];
      }
      RandIs(p, geo, mem[..], pass, slice, i, w);
      var rand := LowWord(w);
      var refIndex := IndexAlpha(geo, RefPos(pass, slice, i, rand, true));
      FillStep(p, geo, mem[..], pass, slice, i);
      FillBlock(p, mem, prevOffset, refIndex, currOffset, pass != 0);
      currOffset := currOffset + 1;
      prevOffset := prevOffset + 1;
      laneRem := if laneRem + 1 == laneLength then 0 else laneRem + 1;
      i := i + 1;
    }
    SegmentDone(p, geo, mem[..], pass, slice, i);
  }

  lemma SegmentDone(p: Permute, geo: Geo, mem: Mem, pass: nat, slice: nat, i: nat)
    requires geo.Ok() && slice < 4 && (pass == 0 && slice == 0 ==> i >= 2) && |mem| >= geo.laneLength
    requires i >= geo.segmentLength
    ensures FillFrom(p, geo, mem, pass, slice, i) == mem
  {
  }

  lemma RandIs(p: Permute, geo: Geo, mem: Mem, pass: nat, slice: nat, i: nat, w: bv64)
    requires 0 <= Prev(geo, slice, i) < |mem|
    requires DataIndependent(geo, pass, slice) ==> w == Addresses(p, geo, pass, slice, i / 128 + 1)[i % 128]
    requires !DataIndependent(geo, pass, slice) ==> w == mem[Prev(geo, slice, i)][0]
    ensures LowWord(w) == Rand(p, geo, mem, pass, slice, i)
  {
    hide Addresses, LowWord;
  }

  lemma BitsOfZero()
    ensures CellOf(0) == 0
  {
  }

  lemma SeedIs(geo: Geo, pass: nat, slice: nat)
    ensures ZERO[0 := CellOf(pass)][1 := CellOf(0)][2 := CellOf(slice)][3 := CellOf(geo.mPrime)][4 := CellOf(geo.tCost)][5 := CellOf(geo.y)]
         == AddressSeed(geo, pass, slice, Count(0))
  {
    hide Bits;
    BitsOfZero();
  }

  lemma SmallRem(n: nat, d: nat)
    requires n < d
    ensures n % d == n
  {
  }

  /** One step of the recurrence, with the reference where the machine arithmetic finds it. */
  lemma FillStep(p: Permute, geo: Geo, mem: Mem, pass: nat, slice: nat, i: nat)
    requires At(geo, pass, slice, i) && |mem| >= geo.laneLength
    ensures 0 <= Prev(geo, slice, i) < |mem| && 0 <= Curr(geo, slice, i) < geo.laneLength
    ensures var r := IndexAlpha(geo, RefPos(pass, slice, i, Rand(p, geo, mem, pass, slice, i), true));
            0 <= r < geo.laneLength
            && var g := G(p, mem[Prev(geo, slice, i)], mem[r]);
               var cells := if pass != 0 then XorCells(g, mem[Curr(geo, slice, i)]) else g;
               FillFrom(p, geo, mem, pass, slice, i) == FillFrom(p, geo, mem[Curr(geo, slice, i) := cells], pass, slice, i + 1)
  {
    hide NewFastDiv, Addresses, G, XorCells, IndexAlpha, LowWord, WindowSize, Reference, Rand;
    InLane(geo, pass, slice, i);
    IndexAlphaCorrect(geo, RefPos(pass, slice, i, Rand(p, geo, mem, pass, slice, i), true));
  }
}
