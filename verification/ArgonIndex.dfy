/** Which earlier block an Argon2 block refers to.
    The code computes the position in wrapping 32- and 64-bit arithmetic and reduces it by multiplication with a
    rounded-up reciprocal; the specification is the window of section 3.4.2 of RFC 9106 and the position in it
    that the squared pseudo-random word selects. */
module ArgonIndex {
  import opened Words

  const TWO32 := 0x1_0000_0000

  // ----- division by a constant

  /** A divisor and the rounded-up reciprocal of 2^64. */
  datatype FastDiv = FastDiv(d: nat, m: nat) {
    function Div(n: nat): int {
      n * m / TWO64 % TWO64
    }

    function Rem(n: nat): int {
      n - Div(n) * d % TWO64
    }
  }

  function NewFastDiv(d: nat): FastDiv
    requires 0 < d < 0x8000_0000
  {
    FastDiv(d, TWO64 / d + if TWO64 % d != 0 then 1 else 0)
  }

  /** Exact for every 32-bit dividend. */
  lemma FastDivExact(d: nat, n: nat)
    requires 0 < d < 0x8000_0000 && n < TWO32
    ensures NewFastDiv(d).Div(n) == n / d && NewFastDiv(d).Rem(n) == n % d
  {
    hide *;
    var m, q := Reciprocal(d), n / d;
    ReciprocalIsField(d);
    var e := d * m - TWO64;
    ScaledBounds(n, d, q, m, e);
    var p := n * m;
    DivideBounds(p, q);
    QuotientSmall(n, d);
    DivOf(NewFastDiv(d), n, p, q);
  }

  function Reciprocal(d: nat): nat
    requires 0 < d < 0x8000_0000
    ensures TWO64 <= d * Reciprocal(d) < TWO64 + d
  {
    TWO64 / d + if TWO64 % d != 0 then 1 else 0
  }

  lemma ReciprocalIsField(d: nat)
    requires 0 < d < 0x8000_0000
    ensures NewFastDiv(d).m == Reciprocal(d) && NewFastDiv(d).d == d
  {
  }

  /** Both sides of the quotient, scaled by the divisor. */
  lemma ScaledBounds(n: nat, d: nat, q: nat, m: nat, e: nat)
    requires d > 0 && d * q <= n < d * q + d && d * m == TWO64 + e && e < d < 0x8000_0000 && n < TWO32
    ensures q * TWO64 <= n * m < (q + 1) * TWO64
  {
    var p := n * m;
    assert d * p == n * (d * m) == n * TWO64 + n * e;
    Small(n, e);
    assert d * (q * TWO64) == (d * q) * TWO64 <= n * TWO64;
    assert d * ((q + 1) * TWO64) == (d * q + d) * TWO64 >= (n + 1) * TWO64;
    Cancel(d, q * TWO64, p);
    CancelStrict(d, p, (q + 1) * TWO64);
  }

  lemma Small(n: nat, e: nat)
    requires n < TWO32 && e < 0x8000_0000
    ensures 0 <= n * e < TWO64
  {
    assert n * e <= n * 0x8000_0000;
  }

  lemma Cancel(d: nat, a: int, b: int)
    requires d > 0 && d * a <= d * b
    ensures a <= b
  {
    assert d * (a - b) == d * a - d * b;
    AtLeastOnce(d, a - b);
  }

  lemma AtLeastOnce(d: nat, x: int)
    requires d > 0
    ensures x >= 1 ==> d * x >= d
  {
  }

  lemma CancelStrict(d: nat, a: int, b: int)
    requires d > 0 && d * a < d * b
    ensures a < b
  {
  }

  lemma DivideBounds(p: nat, q: nat)
    requires q * TWO64 <= p < (q + 1) * TWO64
    ensures p / TWO64 == q
  {
  }

  lemma QuotientSmall(n: nat, d: nat)
    requires d > 0 && n < TWO32
    ensures n / d <= n && n % d == n - n / d * d && 0 <= n / d * d <= n
  {
    var q := n / d;
    MulUp(1, d, q);
  }

  lemma DivOf(f: FastDiv, n: nat, p: nat, q: nat)
    requires n < TWO32 && p == n * f.m && p / TWO64 == q && q <= n && 0 <= q * f.d <= n
    ensures f.Div(n) == q && f.Rem(n) == n - q * f.d
  {
  }

  // ----- the reference index

  datatype Geo = Geo(laneLength: nat, segmentLength: nat, mPrime: nat, tCost: nat, y: nat, laneDiv: FastDiv) {
    /** One lane of four equal segments. */
    ghost predicate Ok() {
      && segmentLength >= 2 && laneLength == 4 * segmentLength && laneLength < 0x8000_0000
      && mPrime == laneLength && laneDiv == NewFastDiv(laneLength)
    }
  }

  datatype RefPos = RefPos(pass: nat, slice: nat, index: nat, pseudoRand: word, sameLane: bool)

  function Low32(x: int): word {
    x % TWO32
  }

  function Low64(x: int): u64 {
    x % TWO64
  }

  function RefArea(geo: Geo, pos: RefPos): word {
    var borrow := (if pos.index == 0 then 1 else 0) * 0xFFFF_FFFF;
    if pos.pass == 0 then
      if pos.slice == 0 then Low32(pos.index - 1)
      else if pos.sameLane then Low32(Low32(Low32(pos.slice * geo.segmentLength) + pos.index) - 1)
      else Low32(Low32(pos.slice * geo.segmentLength) + borrow)
    else if pos.sameLane then Low32(Low32(Low32(geo.laneLength - geo.segmentLength) + pos.index) - 1)
    else Low32(Low32(geo.laneLength - geo.segmentLength) + borrow)
  }

  function Start(geo: Geo, pos: RefPos): nat {
    if pos.pass != 0 && pos.slice != 3 then (pos.slice + 1) * geo.segmentLength else 0
  }

  function IndexAlpha(geo: Geo, pos: RefPos): int {
    var area := RefArea(geo, pos);
    var square := Low64(pos.pseudoRand * pos.pseudoRand) / TWO32;
    var rel := Low64(Low64(area - 1) - Low64(area * square) / TWO32);
    geo.laneDiv.Rem(Low64(Start(geo, pos) + rel))
  }

  // ----- its specification

  /** A position of the run: block `index` of segment `slice` in some pass; the first two blocks are given. */
  ghost predicate At(geo: Geo, pass: nat, slice: nat, index: nat) {
    && geo.Ok() && slice < 4 && index < geo.segmentLength
    && (pass == 0 && slice == 0 ==> index >= 2)
  }

  function Curr(geo: Geo, slice: nat, index: nat): nat {
    slice * geo.segmentLength + index
  }

  function Prev(geo: Geo, slice: nat, index: nat): int {
    if Curr(geo, slice, index) == 0 then geo.laneLength - 1 else Curr(geo, slice, index) - 1
  }

  /** The blocks that may be referred to: filled, and neither this one nor the one before
      (section 3.4.2 of RFC 9106). In the first pass those are all before the last one; later, those
      of the other three segments and those already rewritten in this one. */
  ghost predicate InWindow(geo: Geo, pass: nat, slice: nat, index: nat, r: int) {
    && 0 <= r < geo.laneLength
    && r != Prev(geo, slice, index)
    && if pass == 0 then r < Curr(geo, slice, index)
       else r < slice * geo.segmentLength || r >= slice * geo.segmentLength + geo.segmentLength
            || r < Curr(geo, slice, index)
  }

  /** The number of blocks in the window. */
  function WindowSize(geo: Geo, pass: nat, slice: nat, index: nat): int {
    if pass == 0 then Curr(geo, slice, index) - 1 else geo.laneLength - geo.segmentLength + index - 1
  }

  /** Where its oldest block is. */
  function WindowStart(geo: Geo, pass: nat, slice: nat): nat {
    if pass == 0 || slice == 3 then 0 else (slice + 1) * geo.segmentLength
  }

  function Cyclic(geo: Geo, x: nat): nat {
    if x < geo.laneLength then x else x - geo.laneLength
  }

  /** The window's blocks, oldest first. */
  function Nth(geo: Geo, pass: nat, slice: nat, z: nat): nat {
    Cyclic(geo, WindowStart(geo, pass, slice) + z)
  }

  /** Counting on from the oldest block enumerates exactly the window. */
  lemma WindowEnumerated(geo: Geo, pass: nat, slice: nat, index: nat, r: int)
    requires At(geo, pass, slice, index)
    ensures 1 <= WindowSize(geo, pass, slice, index) < geo.laneLength
    ensures InWindow(geo, pass, slice, index, r) <==>
              exists z: nat :: z < WindowSize(geo, pass, slice, index) && r == Nth(geo, pass, slice, z)
  {
    hide NewFastDiv;
    Segments(geo, slice);
    var start, at := WindowStart(geo, pass, slice), slice * geo.segmentLength;
    forall z: nat | z < WindowSize(geo, pass, slice, index)
      ensures InWindow(geo, pass, slice, index, Nth(geo, pass, slice, z))
    {
    }
    if InWindow(geo, pass, slice, index, r) {
      var z := if r >= start then r - start else r + geo.laneLength - start;
      assert 0 <= z < WindowSize(geo, pass, slice, index) && r == Nth(geo, pass, slice, z);
    }
  }

  lemma Segments(geo: Geo, slice: nat)
    requires slice < 4
    ensures slice * geo.segmentLength == if slice == 0 then 0 else if slice == 1 then geo.segmentLength
      else if slice == 2 then 2 * geo.segmentLength else 3 * geo.segmentLength
    ensures (slice + 1) * geo.segmentLength == slice * geo.segmentLength + geo.segmentLength
  {
  }

  /** The relative position of section 3.4.2: squaring favours recent blocks. */
  function Relative(size: nat, rand: word): (z: int)
    requires 0 < size < TWO32
    ensures 0 <= z < size
  {
    var x := rand * rand / TWO32;
    Squared(rand);
    Scaled(size, x);
    size - 1 - size * x / TWO32
  }

  lemma Squared(x: word)
    ensures 0 <= x * x < TWO64 && 0 <= x * x / TWO32 < TWO32
  {
    var y: int := x;
    assert y * y <= 0xFFFF_FFFF * 0xFFFF_FFFF by {
      MulUp(y, 0xFFFF_FFFF, y);
      MulUp(y, 0xFFFF_FFFF, 0xFFFF_FFFF);
    }
  }

  lemma MulUp(a: nat, b: nat, k: nat)
    requires a <= b
    ensures a * k <= b * k == k * b
  {
  }

  lemma Scaled(size: nat, x: nat)
    requires size < TWO32 && x < TWO32 && size > 0
    ensures 0 <= size * x < TWO64 && 0 <= size * x / TWO32 < size
  {
    MulUp(x, 0xFFFF_FFFF, size);
  }

  /** The block referred to. */
  function Reference(geo: Geo, pass: nat, slice: nat, index: nat, rand: word): nat
    requires 0 < WindowSize(geo, pass, slice, index) < TWO32
  {
    Cyclic(geo, WindowStart(geo, pass, slice) + Relative(WindowSize(geo, pass, slice, index), rand))
  }

  lemma AreaIsWindow(geo: Geo, pos: RefPos)
    requires At(geo, pos.pass, pos.slice, pos.index) && pos.sameLane
    ensures 1 <= WindowSize(geo, pos.pass, pos.slice, pos.index) < geo.laneLength
    ensures RefArea(geo, pos) == WindowSize(geo, pos.pass, pos.slice, pos.index)
    ensures Start(geo, pos) == WindowStart(geo, pos.pass, pos.slice) < geo.laneLength
  {
    hide NewFastDiv, Low32;
    Segments(geo, pos.slice);
    NoWrap(pos.slice * geo.segmentLength);
    NoWrap(pos.slice * geo.segmentLength + pos.index);
    NoWrap(WindowSize(geo, pos.pass, pos.slice, pos.index));
    NoWrap(geo.laneLength - geo.segmentLength);
    NoWrap(geo.laneLength - geo.segmentLength + pos.index);
  }

  /** The machine arithmetic never wraps and picks the specified block, which is in the window. */
  lemma IndexAlphaCorrect(geo: Geo, pos: RefPos)
    requires At(geo, pos.pass, pos.slice, pos.index) && pos.sameLane
    ensures 1 <= WindowSize(geo, pos.pass, pos.slice, pos.index) < geo.laneLength
    ensures IndexAlpha(geo, pos) == Reference(geo, pos.pass, pos.slice, pos.index, pos.pseudoRand)
    ensures InWindow(geo, pos.pass, pos.slice, pos.index, IndexAlpha(geo, pos))
  {
    hide RefArea, Start, WindowSize, WindowStart, NewFastDiv, InWindow, Cyclic, Low64, Relative;
    var size, start := WindowSize(geo, pos.pass, pos.slice, pos.index), WindowStart(geo, pos.pass, pos.slice);
    AreaIsWindow(geo, pos);
    var z := Relative(size, pos.pseudoRand);
    Arithmetic(size, pos.pseudoRand);
    FastDivExact(geo.laneLength, start + z);
    CyclicIsMod(geo, start + z);
    assert Reference(geo, pos.pass, pos.slice, pos.index, pos.pseudoRand) == Nth(geo, pos.pass, pos.slice, z);
    WindowEnumerated(geo, pos.pass, pos.slice, pos.index, Nth(geo, pos.pass, pos.slice, z));
    NoWrap(start + z);
  }

  lemma NoWrap(x: nat)
    requires x < TWO32
    ensures Low64(x) == x && Low32(x) == x
  {
  }

  lemma CyclicIsMod(geo: Geo, x: nat)
    requires geo.laneLength > 0 && x < 2 * geo.laneLength
    ensures x % geo.laneLength == Cyclic(geo, x)
  {
  }

  lemma Arithmetic(size: nat, rand: word)
    requires 0 < size < TWO32
    ensures var square := Low64(rand * rand) / TWO32;
            Low64(Low64(size - 1) - Low64(size * square) / TWO32) == Relative(size, rand)
  {
    hide Low64;
    Squared(rand);
    Fits64(rand * rand);
    var x := rand * rand / TWO32;
    Scaled(size, x);
    Fits64(size * x);
    Fits64(size - 1);
    Fits64(size - 1 - size * x / TWO32);
  }

  lemma Fits64(x: nat)
    requires x < TWO64
    ensures Low64(x) == x
  {
  }
}
