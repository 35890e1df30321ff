/** CRC-32 one bit at a time, one byte at a time from a table, and eight bytes at a time from eight tables. */
module Crc {
  import opened Words

  type u32 = bv32

  const POLY: u32 := 0xEDB8_8320

  // ----- the word operations, wrapped so that proofs can use their laws without unfolding the bits

  function Xor(a: u32, b: u32): u32 { a ^ b }

  function Half(c: u32): u32 { c >> 1 }

  predicate Odd(c: u32) { c & 1 != 0 }

  function Shr8(c: u32): u32 { c >> 8 }

  function Low(c: u32): u32 { c & 0xFF }

  function High(c: u32): u32 { c & 0xFFFF_FF00 }

  lemma XorAssoc(a: u32, b: u32, c: u32)
    ensures Xor(a, Xor(b, c)) == Xor(Xor(a, b), c)
  {
  }

  lemma XorComm(a: u32, b: u32)
    ensures Xor(a, b) == Xor(b, a)
  {
  }

  lemma XorCancel(a: u32, b: u32)
    ensures Xor(a, Xor(a, b)) == b
  {
  }

  lemma HalfXor(a: u32, b: u32)
    ensures Half(Xor(a, b)) == Xor(Half(a), Half(b))
  {
  }

  lemma OddXor(a: u32, b: u32)
    ensures Odd(Xor(a, b)) <==> (Odd(a) != Odd(b))
  {
  }

  lemma SplitLow(c: u32)
    ensures c == Xor(High(c), Low(c)) && Low(High(c)) == 0 && Shr8(High(c)) == Shr8(c)
  {
  }

  // ----- the shift register

  /** One bit of the reflected shift register. */
  function Step(c: u32): u32 {
    if Odd(c) then Xor(POLY, Half(c)) else Half(c)
  }

  /** Eight bits: the register after a zero byte. */
  function Step8(c: u32): u32 {
    Step(Step(Step(Step(Step(Step(Step(Step(c))))))))
  }

  function Byte(b: byte): u32 {
    b as bv32
  }

  /** The register after `data`, bit by bit (section 15 of RFC 2083). */
  function Update(c: u32, data: seq<byte>): u32
    decreases |data|
  {
    if data == [] then c else Update(Step8(Xor(c, Byte(data[0]))), data[1..])
  }

  function Octet(c: u32): byte {
    IndexOfByte(c);
    Low(c) as int
  }

  /** The complement that goes into a file, most significant byte first. */
  function Field(c: u32): (s: seq<byte>)
    ensures |s| == 4
  {
    var v := !c;
    [Octet(Shr8(Shr8(Shr8(v)))), Octet(Shr8(Shr8(v))), Octet(Shr8(v)), Octet(v)]
  }

  function Flipped(s: seq<byte>): (r: seq<byte>)
    requires |s| == 4
    ensures |r| == 4
  {
    [s[3], s[2], s[1], s[0]]
  }

  /** What the register holds after any data and its own field, least significant byte first. */
  const RESIDUE: u32 := 0xDEBB_20E3

  lemma {:induction false} UpdateConcat(c: u32, a: seq<byte>, b: seq<byte>)
    ensures Update(c, a + b) == Update(Update(c, a), b)
    decreases |a|
  {
    hide Step8, Byte, Xor;
    if a == [] {
      assert a + b == b;
    } else {
      assert (a + b)[1..] == a[1..] + b;
      UpdateConcat(Step8(Xor(c, Byte(a[0]))), a[1..], b);
    }
  }

  // ----- linearity

  lemma StepXor(a: u32, b: u32)
    ensures Step(Xor(a, b)) == Xor(Step(a), Step(b))
  {
    hide Xor, Half, Odd;
    HalfXor(a, b);
    OddXor(a, b);
    var x, y := Half(a), Half(b);
    XorAssoc(POLY, x, y);
    XorComm(POLY, x);
    XorAssoc(x, POLY, y);
    XorAssoc(x, POLY, Xor(POLY, y));
    XorCancel(POLY, y);
  }

  lemma Step8Xor(a: u32, b: u32)
    ensures Step8(Xor(a, b)) == Xor(Step8(a), Step8(b))
  {
    hide Step, Xor;
    StepXor(a, b);
    var a1, b1 := Step(a), Step(b);
    StepXor(a1, b1);
    var a2, b2 := Step(a1), Step(b1);
    StepXor(a2, b2);
    var a3, b3 := Step(a2), Step(b2);
    StepXor(a3, b3);
    var a4, b4 := Step(a3), Step(b3);
    StepXor(a4, b4);
    var a5, b5 := Step(a4), Step(b4);
    StepXor(a5, b5);
    var a6, b6 := Step(a5), Step(b5);
    StepXor(a6, b6);
    var a7, b7 := Step(a6), Step(b6);
    StepXor(a7, b7);
  }

  /** Without low bits eight steps only shift. */
  lemma Step8Shift(c: u32)
    requires Low(c) == 0
    ensures Step8(c) == Shr8(c)
  {
  }

  /** Eight steps from the low byte alone: the table identity. */
  lemma Step8Table(c: u32)
    ensures Step8(c) == Xor(Shr8(c), Step8(Low(c)))
  {
    hide Step8, Xor, Low, High, Shr8;
    SplitLow(c);
    Step8Xor(High(c), Low(c));
    Step8Shift(High(c));
  }

  lemma ByteSmall(b: byte)
    ensures Low(Byte(b)) == Byte(b)
  {
  }

  // ----- several bytes at once

  /** The register after `k` zero bytes. */
  function Iter(k: nat, c: u32): u32 {
    if k == 0 then c else Step8(Iter(k - 1, c))
  }

  lemma {:induction false} IterXor(k: nat, a: u32, b: u32)
    ensures Iter(k, Xor(a, b)) == Xor(Iter(k, a), Iter(k, b))
  {
    hide Step8, Xor;
    if k > 0 {
      IterXor(k - 1, a, b);
      Step8Xor(Iter(k - 1, a), Iter(k - 1, b));
    }
  }

  lemma {:induction false} IterAdd(j: nat, k: nat, c: u32)
    ensures Iter(j, Iter(k, c)) == Iter(j + k, c)
  {
    hide Step8;
    if j > 0 {
      IterAdd(j - 1, k, c);
    }
  }

  /** Byte `k` of a word, least significant byte first. */
  function ByteAt(c: u32, k: nat): u32
    requires k < 4
  {
    Low(if k == 0 then c else if k == 1 then Shr8(c) else if k == 2 then Shr8(Shr8(c)) else Shr8(Shr8(Shr8(c))))
  }

  lemma ShiftedOut(c: u32)
    ensures Shr8(Shr8(Shr8(Shr8(c)))) == 0
  {
  }

  lemma XorZero(a: u32)
    ensures Xor(0, a) == a
  {
  }

  /** Four zero bytes act on the four bytes of a word separately. */
  lemma Iter4(c: u32)
    ensures Iter(4, c) == Xor(Iter(1, ByteAt(c, 3)), Xor(Iter(2, ByteAt(c, 2)), Xor(Iter(3, ByteAt(c, 1)), Iter(4, ByteAt(c, 0)))))
  {
    hide Step8, Xor, Shr8, Low;
    var c1, c2, c3 := Shr8(c), Shr8(Shr8(c)), Shr8(Shr8(Shr8(c)));
    IterOne(0, c);
    IterOne(1, c1);
    Step8Table(c);
    IterXor(3, Shr8(c), Step8(Low(c)));
    IterAdd(3, 1, c);
    IterAdd(3, 1, Low(c));
    Step8Table(c1);
    IterXor(2, c2, Step8(Low(c1)));
    IterAdd(2, 1, c1);
    IterAdd(2, 1, Low(c1));
    Step8Table(c2);
    IterXor(1, c3, Step8(Low(c2)));
    IterAdd(1, 1, c2);
    IterAdd(1, 1, Low(c2));
    Step8Table(c3);
    ShiftedOut(c);
    XorZero(Step8(Low(c3)));
    XorAssoc(Iter(1, Low(c3)), Iter(2, Low(c2)), Iter(3, Low(c1)));
    XorAssoc(Iter(1, Low(c3)), Iter(2, Low(c2)), Xor(Iter(3, Low(c1)), Iter(4, Low(c))));
    XorAssoc(Xor(Iter(1, Low(c3)), Iter(2, Low(c2))), Iter(3, Low(c1)), Iter(4, Low(c)));
  }

  lemma IterOne(k: nat, c: u32)
    ensures Iter(1, c) == Step8(c)
  {
    assert Iter(0, c) == c;
  }

  /** The little-endian word of four bytes. */
  function LeWord(s: seq<byte>): u32
    requires |s| == 4
  {
    Word4(Byte(s[0]), Byte(s[1]), Byte(s[2]), Byte(s[3]))
  }

  function Word4(a: u32, b: u32, c: u32, d: u32): u32 {
    a | (b << 8) | (c << 16) | (d << 24)
  }

  lemma BytesOfWord(a: u32, b: u32, c: u32, d: u32)
    requires Low(a) == a && Low(b) == b && Low(c) == c && Low(d) == d
    ensures var w := Word4(a, b, c, d);
      ByteAt(w, 0) == a && ByteAt(w, 1) == b && ByteAt(w, 2) == c && ByteAt(w, 3) == d
  {
  }

  lemma BytesOfLeWord(s: seq<byte>)
    requires |s| == 4
    ensures forall k | 0 <= k < 4 :: ByteAt(LeWord(s), k) == Byte(s[k])
  {
    hide Byte, Low, Shr8, ByteAt, Word4;
    ByteSmall(s[0]);
    ByteSmall(s[1]);
    ByteSmall(s[2]);
    ByteSmall(s[3]);
    BytesOfWord(Byte(s[0]), Byte(s[1]), Byte(s[2]), Byte(s[3]));
  }

  /** Four bytes of data: xor the word in, then run four zero bytes. */
  lemma Update4(c: u32, s: seq<byte>)
    requires |s| == 4
    ensures Update(c, s) == Iter(4, Xor(c, LeWord(s)))
  {
    hide Step8, Xor, Shr8, Low, Byte, LeWord;
    var a, b, d, e := Byte(s[0]), Byte(s[1]), Byte(s[2]), Byte(s[3]);
    UpdateUnrolled(c, s);
    var u0 := Step8(Xor(c, a));
    var u1 := Step8(Xor(u0, b));
    var u2 := Step8(Xor(u1, d));
    Step8Xor(c, a);
    Step8Xor(u0, b);
    Step8Xor(u1, d);
    Step8Xor(u2, e);
    IterXor(4, c, LeWord(s));
    BytesOfLeWord(s);
    Iter4(LeWord(s));
    Unrolled(a);
    Unrolled(b);
    Unrolled(d);
    Unrolled(e);
    Unrolled(c);
    Linear4(c, a, b, d, e);
  }

  lemma ByteOctet(c: u32)
    ensures Byte(Octet(c)) == Low(c)
  {
    IndexOfByte(c);
    hide Low, Byte;
  }

  lemma WordOfBytes(v: u32)
    ensures Word4(Low(v), Low(Shr8(v)), Low(Shr8(Shr8(v))), Low(Shr8(Shr8(Shr8(v))))) == v
  {
  }

  lemma FieldWord(c: u32)
    ensures LeWord(Flipped(Field(c))) == !c
  {
    hide Octet, Byte, Low, Shr8, Word4;
    var v := !c;
    ByteOctet(v);
    ByteOctet(Shr8(v));
    ByteOctet(Shr8(Shr8(v)));
    ByteOctet(Shr8(Shr8(Shr8(v))));
    WordOfBytes(v);
  }

  lemma AllOnes(c: u32)
    ensures Xor(c, !c) == 0xFFFF_FFFF
  {
  }

  lemma OnesRunOut()
    ensures Iter(4, 0xFFFF_FFFF) == RESIDUE
  {
    assert Iter(1, 0xFFFF_FFFF) == Step8(0xFFFF_FFFF);
  }

  /** The field is right: data followed by it leaves the residue, whatever the data. */
  lemma FieldChecks(c: u32, data: seq<byte>)
    ensures Update(c, data + Flipped(Field(Update(c, data)))) == RESIDUE
  {
    hide Update, Field, Flipped, Iter, LeWord, Xor;
    var r := Update(c, data);
    UpdateConcat(c, data, Flipped(Field(r)));
    Update4(r, Flipped(Field(r)));
    FieldWord(r);
    AllOnes(r);
    OnesRunOut();
  }

  lemma Unrolled(c: u32)
    ensures Iter(1, c) == Step8(c) && Iter(2, c) == Step8(Step8(c)) && Iter(3, c) == Step8(Step8(Step8(c)))
    ensures Iter(4, c) == Step8(Step8(Step8(Step8(c))))
  {
    hide Step8;
    assert Iter(0, c) == c;
    assert Iter(1, c) == Step8(c);
    assert Iter(2, c) == Step8(Step8(c));
    assert Iter(3, c) == Step8(Step8(Step8(c)));
  }

  lemma UpdateUnrolled(c: u32, s: seq<byte>)
    requires |s| == 4
    ensures Update(c, s) == Step8(Xor(Step8(Xor(Step8(Xor(Step8(Xor(c, Byte(s[0]))), Byte(s[1]))), Byte(s[2]))), Byte(s[3])))
  {
    hide Step8, Xor, Byte, Update;
    var s1, s2, s3 := s[1..], s[2..], s[3..];
    assert s1[1..] == s2 && s2[1..] == s3 && s3[1..] == [];
    UpdateFirst(c, s);
    var u0 := Step8(Xor(c, Byte(s[0])));
    UpdateFirst(u0, s1);
    var u1 := Step8(Xor(u0, Byte(s[1])));
    UpdateFirst(u1, s2);
    var u2 := Step8(Xor(u1, Byte(s[2])));
    UpdateFirst(u2, s3);
    UpdateFirst(Step8(Xor(u2, Byte(s[3]))), []);
  }

  lemma UpdateFirst(c: u32, s: seq<byte>)
    ensures s == [] ==> Update(c, s) == c
    ensures s != [] ==> Update(c, s) == Update(Step8(Xor(c, Byte(s[0]))), s[1..])
  {
  }

  /** Horner's scheme under a linear map. */
  lemma Linear4(c: u32, a: u32, b: u32, d: u32, e: u32)
    ensures Step8(Xor(Step8(Xor(Step8(Xor(Step8(Xor(c, a)), b)), d)), e))
         == Xor(Iter(4, c), Xor(Iter(1, e), Xor(Iter(2, d), Xor(Iter(3, b), Iter(4, a)))))
  {
    hide Step8, Xor, Iter;
    Unrolled(a);
    Unrolled(b);
    Unrolled(d);
    Unrolled(e);
    Unrolled(c);
    Step8Xor(c, a);
    var p1, q1 := Step8(c), Step8(a);
    // second byte
    Step8Xor(Xor(p1, q1), b);
    Step8Xor(p1, q1);
    var p2, q2, r2 := Step8(p1), Step8(q1), Step8(b);
    // third byte
    Step8Xor(Xor(Xor(p2, q2), r2), d);
    Step8Xor(Xor(p2, q2), r2);
    Step8Xor(p2, q2);
    var p3, q3, r3, s3 := Step8(p2), Step8(q2), Step8(r2), Step8(d);
    // fourth byte
    Step8Xor(Xor(Xor(Xor(p3, q3), r3), s3), e);
    Step8Xor(Xor(Xor(p3, q3), r3), s3);
    Step8Xor(Xor(p3, q3), r3);
    Step8Xor(p3, q3);
    var p, q, r, t, u := Step8(p3), Step8(q3), Step8(r3), Step8(s3), Step8(e);
    Reverse5(p, q, r, t, u);
  }

  lemma Reverse5(p: u32, q: u32, r: u32, t: u32, u: u32)
    ensures Xor(Xor(Xor(Xor(p, q), r), t), u) == Xor(p, Xor(u, Xor(t, Xor(r, q))))
  {
    hide Xor;
    XorAssoc(p, q, r);
    XorAssoc(p, Xor(q, r), t);
    XorAssoc(p, Xor(Xor(q, r), t), u);
    XorComm(q, r);
    XorComm(Xor(r, q), t);
    XorComm(Xor(t, Xor(r, q)), u);
  }

  /** Eight bytes at once: each byte of the two words goes through its own table. */
  lemma Update8(c: u32, s: seq<byte>)
    requires |s| == 8
    ensures var x, hi := Xor(c, LeWord(s[..4])), LeWord(s[4..]);
      Update(c, s) == FoldSpec(x, hi)
  {
    hide Step8, Xor, Shr8, Low, Byte, LeWord, Iter, ByteAt, Update;
    var lo, hi := LeWord(s[..4]), LeWord(s[4..]);
    var x := Xor(c, lo);
    assert s == s[..4] + s[4..];
    UpdateConcat(c, s[..4], s[4..]);
    Update4(c, s[..4]);
    Update4(Iter(4, x), s[4..]);
    IterXor(4, Iter(4, x), hi);
    Iter4(hi);
    Iter4(x);
    var x0, x1, x2, x3 := ByteAt(x, 0), ByteAt(x, 1), ByteAt(x, 2), ByteAt(x, 3);
    IterXor(4, Iter(1, x3), Xor(Iter(2, x2), Xor(Iter(3, x1), Iter(4, x0))));
    IterXor(4, Iter(2, x2), Xor(Iter(3, x1), Iter(4, x0)));
    IterXor(4, Iter(3, x1), Iter(4, x0));
    IterAdd(4, 1, x3);
    IterAdd(4, 2, x2);
    IterAdd(4, 3, x1);
    IterAdd(4, 4, x0);
  }

  ghost function FoldSpec(x: u32, hi: u32): u32 {
    Xor(Xor(Iter(5, ByteAt(x, 3)), Xor(Iter(6, ByteAt(x, 2)), Xor(Iter(7, ByteAt(x, 1)), Iter(8, ByteAt(x, 0))))),
        Xor(Iter(1, ByteAt(hi, 3)), Xor(Iter(2, ByteAt(hi, 2)), Xor(Iter(3, ByteAt(hi, 1)), Iter(4, ByteAt(hi, 0))))))
  }

  // ----- the tables

  lemma IndexOfByte(c: u32)
    ensures Low(c) as int < 256 && Byte(Low(c) as int) == Low(c)
  {
  }

  /** Table `s` maps a byte to the register after it and `s` more zero bytes. */
  ghost predicate IsTables(t: array2<u32>)
    reads t
  {
    && t.Length0 == 8 && t.Length1 == 256
    && forall s, i | 0 <= s < 8 && 0 <= i < 256 :: t[s, i] == Iter(s + 1, Byte(i))
  }

  method EightBits(c0: u32) returns (c: u32)
    ensures c == Step8(c0)
  {
    hide Step8, Step;
    c := c0;
    StepsDef(8, c0);
    for k := 0 to 8
      invariant Step8(c0) == Steps(8 - k, c)
    {
      StepsDef(8 - k, c);
      StepIsBranch(c);
      c := if c & 1 != 0 then POLY ^ (c >> 1) else c >> 1;
    }
    StepsDef(0, c);
  }

  method CrcTables() returns (t: array2<u32>)
    ensures IsTables(t) && fresh(t)
  {
    hide Step8, Step, Xor, Low, Shr8, Byte;
    t := new u32[8, 256]((s, i) => 0);
    for i := 0 to 256
      invariant forall k | 0 <= k < i :: t[0, k] == Iter(1, Byte(k))
    {
      IterOne(0, Byte(i));
      t[0, i] := EightBits(Byte(i));
    }
    for s := 1 to 8
      invariant forall r, k | 0 <= r < s && 0 <= k < 256 :: t[r, k] == Iter(r + 1, Byte(k))
    {
      for i := 0 to 256
        invariant forall r, k | 0 <= r < s && 0 <= k < 256 :: t[r, k] == Iter(r + 1, Byte(k))
        invariant forall k | 0 <= k < i :: t[s, k] == Iter(s + 1, Byte(k))
      {
        var prev := t[s - 1, i];
        IndexOfByte(prev);
        Step8Table(prev);
        IterOne(0, Low(prev));
        t[s, i] := Xor(Shr8(prev), t[0, Low(prev) as int]);
      }
    }
  }

  /** `k` steps of the register. */
  ghost function Steps(k: nat, c: u32): u32 {
    if k == 0 then c else Steps(k - 1, Step(c))
  }

  lemma StepsDef(k: nat, c: u32)
    ensures k > 0 ==> Steps(k, c) == Steps(k - 1, Step(c))
    ensures k == 0 ==> Steps(k, c) == c
    ensures Steps(8, c) == Step8(c)
  {
    hide Step;
    EightSteps(c);
  }

  lemma EightSteps(c: u32)
    ensures Steps(8, c) == Step8(c)
  {
    hide Step;
    var c1 := Step(c);
    var c2 := Step(c1);
    var c3 := Step(c2);
    var c4 := Step(c3);
    var c5 := Step(c4);
    var c6 := Step(c5);
    var c7 := Step(c6);
    assert Steps(0, Step(c7)) == Step(c7);
    assert Steps(1, c7) == Step(c7);
    assert Steps(2, c6) == Step(c7);
    assert Steps(3, c5) == Step(c7);
    assert Steps(4, c4) == Step(c7);
    assert Steps(5, c3) == Step(c7);
    assert Steps(6, c2) == Step(c7);
    assert Steps(7, c1) == Step(c7);
  }

  lemma StepIsBranch(c: u32)
    ensures Step(c) == if c & 1 != 0 then POLY ^ (c >> 1) else c >> 1
  {
  }

  function At(t: array2<u32>, s: nat, x: u32): (r: u32)
    requires t.Length0 == 8 && t.Length1 == 256 && s < 8
    reads t
    ensures IsTables(t) ==> r == Iter(s + 1, Low(x))
  {
    IndexOfByte(x);
    t[s, Low(x) as int]
  }

  /** The eight table lookups of one eight-byte block. */
  function Fold8(t: array2<u32>, c: u32, hi: u32): (r: u32)
    requires t.Length0 == 8 && t.Length1 == 256
    reads t
  {
    Xor(Xor(Xor(Xor(Xor(Xor(Xor(
      At(t, 7, c),
      At(t, 6, Shr8(c))),
      At(t, 5, Shr8(Shr8(c)))),
      At(t, 4, Shr8(Shr8(Shr8(c))))),
      At(t, 3, hi)),
      At(t, 2, Shr8(hi))),
      At(t, 1, Shr8(Shr8(hi)))),
      At(t, 0, Shr8(Shr8(Shr8(hi)))))
  }

  lemma Fold8Correct(t: array2<u32>, c: u32, hi: u32)
    requires IsTables(t)
    ensures Fold8(t, c, hi) == FoldSpec(c, hi)
  {
    hide Xor, Low, Shr8, Iter;
    var a0, a1, a2, a3 := At(t, 7, c), At(t, 6, Shr8(c)), At(t, 5, Shr8(Shr8(c))), At(t, 4, Shr8(Shr8(Shr8(c))));
    var b0, b1, b2, b3 := At(t, 3, hi), At(t, 2, Shr8(hi)), At(t, 1, Shr8(Shr8(hi))), At(t, 0, Shr8(Shr8(Shr8(hi))));
    Regroup8(a0, a1, a2, a3, b0, b1, b2, b3);
  }

  lemma Regroup8(a0: u32, a1: u32, a2: u32, a3: u32, b0: u32, b1: u32, b2: u32, b3: u32)
    ensures Xor(Xor(Xor(Xor(Xor(Xor(Xor(a0, a1), a2), a3), b0), b1), b2), b3)
         == Xor(Xor(a3, Xor(a2, Xor(a1, a0))), Xor(b3, Xor(b2, Xor(b1, b0))))
  {
    hide Xor;
    var a := Xor(Xor(Xor(a0, a1), a2), a3);
    XorComm(a0, a1);
    XorComm(Xor(a1, a0), a2);
    XorComm(Xor(a2, Xor(a1, a0)), a3);
    XorAssoc(a, b0, b1);
    XorAssoc(a, Xor(b0, b1), b2);
    XorAssoc(a, Xor(Xor(b0, b1), b2), b3);
    XorComm(b0, b1);
    XorComm(Xor(b1, b0), b2);
    XorComm(Xor(b2, Xor(b1, b0)), b3);
  }

  /** Feeds `data` to the register, eight bytes at a time and the rest one by one. */
  method Feed(t: array2<u32>, c0: u32, data: seq<byte>) returns (c: u32)
    requires IsTables(t)
    ensures c == Update(c0, data)
  {
    hide Step8, Xor, Low, Shr8, LeWord, Byte, Update, Iter, Fold8, FoldSpec;
    c := c0;
    var i := 0;
    while i + 8 <= |data|
      invariant 0 <= i <= |data| && Update(c0, data) == Update(c, data[i..])
    {
      var block := data[i..i + 8];
      assert data[i..] == block + data[i + 8..];
      UpdateConcat(c, block, data[i + 8..]);
      Update8(c, block);
      var x := Xor(c, LeWord(block[..4]));
      Fold8Correct(t, x, LeWord(block[4..]));
      c := Fold8(t, x, LeWord(block[4..]));
      i := i + 8;
    }
    while i < |data|
      invariant 0 <= i <= |data| && Update(c0, data) == Update(c, data[i..])
    {
      UpdateFirst(c, data[i..]);
      assert data[i..][1..] == data[i + 1..];
      var x := Xor(c, Byte(data[i]));
      ByteStep(c, data[i]);
      IterOne(0, Low(x));
      c := Xor(Shr8(c), At(t, 0, x));
      i := i + 1;
    }
    UpdateFirst(c, data[i..]);
  }

  /** The table step for one byte. */
  lemma ByteStep(c: u32, b: byte)
    ensures Xor(Shr8(c), Step8(Low(Xor(c, Byte(b))))) == Step8(Xor(c, Byte(b)))
  {
    hide Step8, Xor, Low, Byte;
    Step8Table(Xor(c, Byte(b)));
    ShiftByte(c, b);
  }

  lemma ShiftByte(c: u32, b: byte)
    ensures Shr8(Xor(c, Byte(b))) == Shr8(c)
  {
    ByteSmall(b);
  }

}
