/** Decimal digits of a 64-bit number in fixed-size buffers, and counting on them in place. */
module Decimal {
  import opened Words

  const MAGIC: nat := 0xCCCC_CCCC_CCCC_CCCD
  const TWO67: nat := 8 * TWO64

  /** The last `width` decimal digits of `n` as ASCII, leading zeros included. */
  function Fixed(n: nat, width: nat): (s: seq<byte>)
    ensures |s| == width
  {
    if width == 0 then [] else Fixed(n / 10, width - 1) + [48 + n % 10]
  }

  /** The digits of `n` as ASCII without leading zeros. */
  function Digits(n: nat): (s: seq<byte>)
  {
    if n < 10 then [48 + n] else Digits(n / 10) + [48 + n % 10]
  }

  function Pow10(w: nat): (p: nat)
    ensures p > 0
  {
    if w == 0 then 1 else 10 * Pow10(w - 1)
  }

  function NumberOf(s: seq<byte>): (v: int)
  {
    if s == [] then 0 else
      var last: int := s[|s| - 1];
      10 * NumberOf(s[..|s| - 1]) + (last - 48)
  }

  /** The digits read back give the number modulo 10^width. */
  lemma {:induction false} FixedValue(n: nat, width: nat)
    ensures NumberOf(Fixed(n, width)) == n % Pow10(width)
  {
    if width > 0 {
      FixedValue(n / 10, width - 1);
      assert Fixed(n, width)[..width - 1] == Fixed(n / 10, width - 1);
      ModOfTenfold(n, Pow10(width - 1));
    }
  }

  lemma ModOfTenfold(n: nat, p: nat)
    requires p > 0
    ensures 10 * p > 0 && n % (10 * p) == 10 * (n / 10 % p) + n % 10
  {
    var q, d := n / 10, n % 10;
    var a, b := q / p, q % p;
    assert n == 10 * (p * a + b) + d;
    ModUnique(n, 10 * p, a, 10 * b + d);
  }

  lemma ModUnique(n: nat, m: nat, q: nat, r: nat)
    requires n == m * q + r && r < m
    ensures n % m == r
  {
    var q', r' := n / m, n % m;
    assert n == m * q' + r' && 0 <= r' < m;
    SmallMultiple(m, q - q');
  }

  lemma SmallMultiple(m: nat, a: int)
    requires 0 - m < m * a < m
    ensures a == 0
  {
    if a >= 1 {
    } else if a <= -1 {
    }
  }

  /** A number of exactly `width` digits is written without padding. */
  lemma {:induction false} FixedIsDigits(n: nat, width: nat)
    requires 0 < width && n < Pow10(width) && (width > 1 ==> Pow10(width - 1) <= n)
    ensures Fixed(n, width) == Digits(n)
  {
    if width > 1 {
      assert Pow10(width - 1) == 10 * Pow10(width - 2);
      FixedIsDigits(n / 10, width - 1);
    } else {
      assert Pow10(1) == 10 * Pow10(0);
    }
  }

  /** Different numbers below 10^width have different digits. */
  lemma FixedInjective(n: nat, m: nat, width: nat)
    requires n < Pow10(width) && m < Pow10(width)
    requires Fixed(n, width) == Fixed(m, width)
    ensures n == m
  {
    FixedValue(n, width);
    FixedValue(m, width);
  }

  /** Division by ten as one multiplication and a shift, exact for every 64-bit number. */
  lemma DivTen(n: nat)
    requires n < TWO64
    ensures n * MAGIC / TWO67 == n / 10
  {
    var q, r := n / 10, n % 10;
    assert 10 * MAGIC == TWO67 + 2;
    assert n * MAGIC == q * TWO67 + (2 * q + r * MAGIC);
    assert 0 <= 2 * q + r * MAGIC < TWO67;
    QuotientUnique(n * MAGIC, TWO67, q, 2 * q + r * MAGIC);
  }

  lemma QuotientUnique(n: nat, m: nat, q: nat, r: nat)
    requires n == q * m + r && r < m
    ensures n / m == q
  {
    ModUnique(n, m, q, r);
    assert n == m * (n / m) + r;
    SmallMultiple(m, q - n / m);
  }

  /** Writes the last `width` digits of `n` into `buf[..width]`, last digit first. */
  method DigitsFixedInto(n: nat, buf: array<byte>, width: nat)
    requires n < TWO64 && buf.Length == 20 && width <= 20
    modifies buf
    ensures buf[..] == Fixed(n, width) + old(buf[width..])
  {
    var rest: nat := n;
    var i := width;
    while i > 0
      invariant 0 <= i <= width && rest < TWO64
      invariant Fixed(n, width) == Fixed(rest, i) + buf[i..width]
      invariant buf[width..] == old(buf[width..])
    {
      i := i - 1;
      DivTen(rest);
      var q := rest * MAGIC / TWO67;
      buf[i] := 48 + (rest - q * 10) % 256;
      assert buf[i..width] == [buf[i]] + buf[i + 1..width];
      rest := q;
    }
    assert buf[..] == buf[0..width] + buf[width..];
  }

  /** Writes all digits of `n` at the end of `buf` and says where they start. */
  method DigitsInto(n: nat, buf: array<byte>) returns (start: nat)
    requires n < TWO64 && buf.Length == 20
    modifies buf
    ensures start < 20 && buf[start..] == Digits(n) && buf[..start] == old(buf[..start])
  {
    var rest: nat := n;
    var i := 20;
    TwentyDigits();
    while true
      invariant 0 < i <= 20 && rest < TWO64 && rest < Pow10(i)
      invariant Digits(n) == Digits(rest) + buf[i..]
      invariant buf[..i] == old(buf[..i])
      decreases i
    {
      i := i - 1;
      DivTen(rest);
      var q := rest * MAGIC / TWO67;
      buf[i] := 48 + (rest - q * 10);
      assert buf[i..] == [buf[i]] + buf[i + 1..];
      assert Pow10(i + 1) == 10 * Pow10(i);
      rest := q;
      if rest == 0 {
        break;
      }
    }
    start := i;
  }

  lemma TwentyDigits()
    ensures TWO64 <= Pow10(20)
  {
    assert Pow10(5) == 100_000;
    assert Pow10(10) == 10_000_000_000;
    assert Pow10(15) == 1_000_000_000_000_000;
  }

  /** The digits held in row `k` of the lane buffers. */
  ghost function Row(d: array2<byte>, k: nat, width: nat): (s: seq<byte>)
    requires k < d.Length0 && width <= d.Length1
    reads d
  {
    seq(width, j requires 0 <= j < width reads d => d[k, j])
  }

  /** Adds `delta` to the decimal number in row `k`, in place and dropping a carry out of the top. */
  method IncrDec(d: array2<byte>, k: nat, ghost n: nat, width: nat, delta: nat)
    requires k < d.Length0 && width <= d.Length1 && delta <= 10
    requires Row(d, k, width) == Fixed(n, width)
    modifies d
    ensures Row(d, k, width) == Fixed(n + delta, width)
    ensures forall r, j | 0 <= r < d.Length0 && 0 <= j < d.Length1 && (r != k || j >= width) :: d[r, j] == old(d[r, j])
  {
    var i := width;
    var carry := delta;
    ghost var q, p := n, n + delta;
    while i > 0 && carry > 0
      invariant 0 <= i <= width && 0 <= carry <= 10 && p == q + carry
      invariant Row(d, k, i) == Fixed(q, i)
      invariant Fixed(n + delta, width) == Fixed(p, i) + Row(d, k, width)[i..]
      invariant forall r, j | 0 <= r < d.Length0 && 0 <= j < d.Length1 && (r != k || j >= width) :: d[r, j] == old(d[r, j])
    {
      ghost var before := Row(d, k, width);
      i := i - 1;
      ghost var head := Row(d, k, i + 1);
      assert head[i] == d[k, i] == 48 + q % 10 && head[..i] == Fixed(q / 10, i);
      var cur := (d[k, i] - 48) + carry;
      var over := cur >= 10;
      d[k, i] := 48 + cur - (if over then 10 else 0);
      carry := if over then 1 else 0;
      CarryStep(q, p);
      ghost var row := Row(d, k, width);
      assert row[i..] == [48 + p % 10] + before[i + 1..];
      assert Row(d, k, i) == head[..i];
      q, p := q / 10, p / 10;
    }
    if i > 0 {
      assert Row(d, k, width) == Row(d, k, i) + Row(d, k, width)[i..];
    } else {
      assert Row(d, k, width)[0..] == Row(d, k, width);
    }
  }

  lemma CarryStep(q: nat, p: nat)
    requires q < p <= q + 10
    ensures var cur := q % 10 + (p - q);
      p % 10 == (if cur >= 10 then (if cur >= 20 then cur - 20 else cur - 10) else cur)
      && p / 10 == q / 10 + (if cur >= 10 then (if cur >= 20 then 2 else 1) else 0)
      && cur < 20
  {
  }
}
