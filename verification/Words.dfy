/** Bytes, 32-bit words, their big-endian encoding, and leading zeros. */
module Words {

  type byte = x: int | 0 <= x < 256
  type word = x: int | 0 <= x < 0x1_0000_0000

  const TWO64: nat := 0x1_0000_0000_0000_0000

  type u64 = x: int | 0 <= x < TWO64

  datatype Option<T> = None | Some(value: T)

  function Zeros(n: nat): (s: seq<byte>)
    ensures |s| == n && forall i | 0 <= i < n :: s[i] == 0
  {
    seq(n, i => 0)
  }

  function Repeat(b: byte, n: nat): (s: seq<byte>)
    ensures |s| == n && forall i | 0 <= i < n :: s[i] == b
  {
    seq(n, i => b)
  }

  // ----- big-endian encoding

  function Be32(w: word): (s: seq<byte>)
    ensures |s| == 4
  {
    var a, b, c := w / 0x100, w / 0x100 / 0x100, w / 0x100 / 0x100 / 0x100;
    [c, b % 0x100, a % 0x100, w % 0x100]
  }

  function FromBe32(s: seq<byte>): (w: word)
    requires |s| == 4
  {
    var a: int, b: int, c: int := s[0], s[1], s[2];
    ((a * 0x100 + b) * 0x100 + c) * 0x100 + s[3]
  }

  lemma Be32RoundTrip(w: word)
    ensures FromBe32(Be32(w)) == w
  {
  }

  /** The bytes of `ws`, most significant byte of each word first. */
  function WordsBe(ws: seq<word>): (s: seq<byte>)
    ensures |s| == 4 * |ws|
  {
    if ws == [] then [] else Be32(ws[0]) + WordsBe(ws[1..])
  }

  // ----- leading zeros

  function Pow2(n: nat): (p: nat)
    ensures p > 0
  {
    if n == 0 then 1 else 2 * Pow2(n - 1)
  }

  lemma {:induction false} Pow2Add(a: nat, b: nat)
    ensures Pow2(a + b) == Pow2(a) * Pow2(b)
  {
    if a > 0 {
      Pow2Add(a - 1, b);
    }
  }

  lemma {:induction false} Pow2Monotone(a: nat, b: nat)
    requires a <= b
    ensures Pow2(a) <= Pow2(b)
  {
    if a < b {
      Pow2Monotone(a, b - 1);
    }
  }

  lemma Pow2Values()
    ensures Pow2(8) == 0x100 && Pow2(16) == 0x1_0000 && Pow2(32) == 0x1_0000_0000
  {
    Pow2Add(8, 8);
    Pow2Add(16, 16);
  }

  /** The number of leading zeros of `v` written with `k` bits. */
  function LeadingZeros(v: nat, k: nat): (z: nat)
    requires v < Pow2(k)
    ensures z <= k
  {
    if k == 0 || v >= Pow2(k - 1) then 0 else 1 + LeadingZeros(v, k - 1)
  }

  /** At least `need` leading zeros means: small enough. */
  lemma {:induction false} LeadingZerosBound(v: nat, k: nat, need: nat)
    requires v < Pow2(k)
    ensures LeadingZeros(v, k) >= need <==> need <= k && v < Pow2(k - need)
  {
    if need > 0 && k > 0 && v < Pow2(k - 1) {
      LeadingZerosBound(v, k - 1, need - 1);
    } else if 0 < need <= k {
      Pow2Monotone(k - need, k - 1);
    }
  }

  function Lz32(w: word): (z: nat)
    ensures z <= 32
  {
    Pow2Values();
    LeadingZeros(w, 32)
  }

  /** The number that a sequence of words stands for, most significant word first. */
  function Value(ws: seq<word>): (v: nat)
  {
    if ws == [] then 0 else ws[0] * Pow2(32 * (|ws| - 1)) + Value(ws[1..])
  }

  lemma {:induction false} ValueBound(ws: seq<word>)
    ensures Value(ws) < Pow2(32 * |ws|)
  {
    if ws != [] {
      ValueBound(ws[1..]);
      var p := Pow2(32 * (|ws| - 1));
      Pow2Values();
      Pow2Add(32, 32 * (|ws| - 1));
      MulGap(ws[0], 0x1_0000_0000, p);
    }
  }

  lemma MulGap(a: nat, b: nat, p: nat)
    requires a < b
    ensures a * p + p <= b * p
  {
    assert (a + 1) * p <= b * p;
  }

  lemma ValueTop(ws: seq<word>)
    requires ws != []
    ensures Value(ws) == ws[0] * Pow2(32 * (|ws| - 1)) + Value(ws[1..])
  {
  }

  /** A nonzero top word decides the leading zeros; a zero one adds 32. */
  lemma LeadingZerosTop(ws: seq<word>)
    requires ws != []
    ensures Value(ws) < Pow2(32 * |ws|) && Value(ws[1..]) < Pow2(32 * (|ws| - 1))
    ensures LeadingZeros(Value(ws), 32 * |ws|)
         == if ws[0] != 0 then Lz32(ws[0]) else 32 + LeadingZeros(Value(ws[1..]), 32 * (|ws| - 1))
  {
    hide Pow2, LeadingZeros, Value;
    var m := 32 * (|ws| - 1);
    ValueTop(ws);
    assert 32 * |ws| == 32 + m;
    ValueBound(ws);
    ValueBound(ws[1..]);
    Pow2Values();
    TopBits(ws[0], 32, Value(ws[1..]), m);
  }

  lemma {:induction false} TopBits(w: nat, k: nat, low: nat, m: nat)
    requires w < Pow2(k) && low < Pow2(m)
    ensures w * Pow2(m) + low < Pow2(k + m)
    ensures LeadingZeros(w * Pow2(m) + low, k + m) == if w != 0 then LeadingZeros(w, k) else k + LeadingZeros(low, m)
    decreases k
  {
    var v := w * Pow2(m) + low;
    Pow2Add(k, m);
    MulGap(w, Pow2(k), Pow2(m));
    if k > 0 {
      Pow2Add(k - 1, m);
      if w >= Pow2(k - 1) {
        MulAtLeast(w, Pow2(k - 1), Pow2(m));
      } else {
        MulGap(w, Pow2(k - 1), Pow2(m));
        TopBits(w, k - 1, low, m);
      }
    }
  }

  lemma MulAtLeast(a: nat, b: nat, p: nat)
    requires a >= b
    ensures a * p >= b * p
  {
  }

  /** Leading zeros of a digest, word by word without branching. */
  method LzWordsBe(words: seq<word>) returns (acc: nat)
    requires |words| == 8
    ensures Value(words) < Pow2(256)
    ensures acc == LeadingZeros(Value(words), 256)
  {
    hide Pow2, LeadingZeros, Value, Lz32;
    ValueBound(words);
    acc := 0;
    var carry := 1;
    assert words[0..] == words;
    for i := 0 to 8
      invariant 0 <= carry <= 1
      invariant Value(words[i..]) < Pow2(32 * (8 - i))
      invariant LeadingZeros(Value(words), 256) == acc + (if carry == 1 then LeadingZeros(Value(words[i..]), 32 * (8 - i)) else 0)
    {
      var w := words[i];
      LeadingZerosTop(words[i..]);
      assert words[i..][1..] == words[i + 1..];
      var lz := Lz32(w);
      LzOfZero();
      acc := acc + carry * lz;
      carry := if w == 0 then carry else 0;
    }
  }

  lemma LzOfZero()
    ensures Lz32(0) == 32
  {
    Pow2Values();
    LeadingZerosBound(0, 32, 32);
  }

  /** The same count from the per-word counts and zero flags, stopping at the first nonzero word. */
  method LzCarryChain(words: seq<word>) returns (acc: nat)
    requires |words| == 8
    ensures Value(words) < Pow2(256)
    ensures acc == LeadingZeros(Value(words), 256)
  {
    hide Pow2, LeadingZeros, Value, Lz32;
    ValueBound(words);
    acc := 0;
    var carry := 1;
    var i := 0;
    assert words[0..] == words;
    while i < 8
      invariant 0 <= i <= 8 && 0 <= carry <= 1
      invariant Value(words[i..]) < Pow2(32 * (8 - i))
      invariant LeadingZeros(Value(words), 256) == acc + (if carry == 1 then LeadingZeros(Value(words[i..]), 32 * (8 - i)) else 0)
    {
      var lz, zero := Lz32(words[i]), words[i] == 0;
      LeadingZerosTop(words[i..]);
      assert words[i..][1..] == words[i + 1..];
      LzOfZero();
      acc := acc + carry * lz;
      carry := if zero then carry else 0;
      i := i + 1;
      if carry == 0 {
        break;
      }
    }
  }

  // ----- digests as numbers

  /** The number that a byte string stands for, first byte most significant. */
  function BytesValue(s: seq<byte>): (v: nat)
  {
    if s == [] then 0 else
      var last: int := s[|s| - 1];
      256 * BytesValue(s[..|s| - 1]) + last
  }

  lemma {:induction false} BytesValueConcat(a: seq<byte>, b: seq<byte>)
    ensures BytesValue(a + b) == BytesValue(a) * Pow2(8 * |b|) + BytesValue(b)
  {
    if b == [] {
      assert a + b == a && Pow2(0) == 1;
    } else {
      var h := b[..|b| - 1];
      assert (a + b)[..|a + b| - 1] == a + h;
      BytesValueConcat(a, h);
      Pow2Values();
      Pow2Add(8, 8 * |h|);
      assert 8 * |b| == 8 + 8 * |h|;
      Regroup256(BytesValue(a), Pow2(8 * |h|));
    }
  }

  lemma Regroup256(a: int, p: int)
    ensures 256 * (a * p) == a * (256 * p)
  {
  }

  lemma Be32Value(w: word)
    ensures BytesValue(Be32(w)) == w
  {
    var s := Be32(w);
    assert s[..3][..2][..1][..0] == [];
    assert BytesValue(s[..3][..2][..1]) == s[0];
    assert BytesValue(s[..3][..2]) == 256 * s[..3][..2][0] + s[..3][..2][1] as int;
    Be32RoundTrip(w);
  }

  /** The bytes of a state stand for the same number as its words. */
  lemma {:induction false} WordsBeValue(ws: seq<word>)
    ensures BytesValue(WordsBe(ws)) == Value(ws)
  {
    if ws != [] {
      WordsBeValue(ws[1..]);
      BytesValueConcat(Be32(ws[0]), WordsBe(ws[1..]));
      Be32Value(ws[0]);
      assert 8 * |WordsBe(ws[1..])| == 32 * (|ws| - 1);
    }
  }

  function BeWords(s: seq<byte>): (ws: seq<word>)
    requires |s| % 4 == 0
    ensures |ws| == |s| / 4
  {
    if s == [] then [] else [FromBe32(s[..4])] + BeWords(s[4..])
  }

  lemma {:induction false} BeWordsOfWordsBe(ws: seq<word>)
    ensures BeWords(WordsBe(ws)) == ws
  {
    if ws != [] {
      BeWordsOfWordsBe(ws[1..]);
      Be32RoundTrip(ws[0]);
      assert WordsBe(ws)[..4] == Be32(ws[0]) && WordsBe(ws)[4..] == WordsBe(ws[1..]);
    }
  }

  lemma {:induction false} WordsBeOfBeWords(s: seq<byte>)
    requires |s| % 4 == 0
    ensures WordsBe(BeWords(s)) == s
  {
    if s != [] {
      WordsBeOfBeWords(s[4..]);
      assert BeWords(s)[0] == FromBe32(s[..4]) && BeWords(s)[1..] == BeWords(s[4..]);
      hide Be32, FromBe32, BeWords;
      FourBytes(s[..4]);
    }
  }

  lemma FourBytes(s: seq<byte>)
    requires |s| == 4
    ensures Be32(FromBe32(s)) == s
  {
    var a: int, b: int, c: int, d: int := s[0], s[1], s[2], s[3];
    var w := ((a * 0x100 + b) * 0x100 + c) * 0x100 + d;
    assert w / 0x100 == (a * 0x100 + b) * 0x100 + c && w % 0x100 == d;
    assert w / 0x100 / 0x100 == a * 0x100 + b && w / 0x100 / 0x100 / 0x100 == a;
  }

  // ----- little-endian numbers, and the constants of the hash functions

  /** The number that a byte string stands for, first byte least significant. */
  function LeValue(s: seq<byte>): (v: nat)
  {
    if s == [] then 0 else s[0] + 256 * LeValue(s[1..])
  }

  lemma {:induction false} LeValueConcat(a: seq<byte>, b: seq<byte>)
    ensures LeValue(a + b) == LeValue(a) + Pow2(8 * |a|) * LeValue(b)
  {
    if a == [] {
      assert a + b == b && Pow2(0) == 1;
    } else {
      assert (a + b)[0] == a[0] && (a + b)[1..] == a[1..] + b;
      LeValueConcat(a[1..], b);
      Pow2Values();
      Pow2Add(8, 8 * |a[1..]|);
      hide Pow2;
      assert 8 + 8 * |a[1..]| == 8 * |a|;
      ScaledSum(a[0], LeValue(a[1..]), Pow2(8 * |a[1..]|), LeValue(b));
    }
  }

  lemma ScaledSum(d: int, x: int, p: int, y: int)
    ensures d + 256 * (x + p * y) == d + 256 * x + (256 * p) * y
  {
  }

  /** `h` holds the bits below 1 of the square root of `p`, as many as `unit` has. */
  ghost predicate RootFraction(h: int, p: nat, unit: nat) {
    0 <= h < unit && exists r: nat :: r * r <= p && RootFrom(r * unit + h, p, unit)
  }

  ghost predicate RootFrom(v: int, p: nat, unit: nat) {
    v * v <= p * unit * unit < (v + 1) * (v + 1)
  }

  /** A text of 7-bit characters as bytes. */
  function Ascii(t: string): (s: seq<byte>)
    requires forall i | 0 <= i < |t| :: t[i] < 128 as char
    ensures |s| == |t|
  {
    seq(|t|, i requires 0 <= i < |t| => t[i] as int)
  }

  // ----- copying

  method CopyInto(buf: array<byte>, at: nat, data: seq<byte>)
    requires at + |data| <= buf.Length
    modifies buf
    ensures buf[..at + |data|] == old(buf[..at]) + data
  {
    for i := 0 to |data|
      invariant buf[..at + i] == old(buf[..at]) + data[..i]
    {
      buf[at + i] := data[i];
    }
  }
}
