/** The Argon2id digest of a nonce: the initial hash, the passes over memory, and the tag. */
module Argon {
  import opened Words
  import Decimal
  import opened Blake2b
  import opened ArgonIndex
  import opened ArgonFill

  const KIB := 1024
  const MAX_MEM_COST := 64 * 1024

  // ----- the specification

  /** The input of the initial hash: one lane, a 32-byte tag, version 0x13, type id, password, salt, no key and
      no associated data (section 3.2 of RFC 9106, step 1). */
  function Preamble(password: seq<byte>, salt: seq<byte>, mCost: word, tCost: word): (s: seq<byte>)
    requires |password| < TWO32 && |salt| < TWO32
    ensures |s| == 40 + |password| + |salt|
  {
    Le32(1) + Le32(32) + Le32(mCost) + Le32(tCost) + Le32(0x13) + Le32(2) + Le32(|password|) + password
    + Le32(|salt|) + salt + Le32(0) + Le32(0)
  }

  /** The words of a block, least significant byte first. */
  function WordsOf(s: seq<byte>): (ws: seq<u64>)
    requires |s| == KIB
    ensures |ws| == 128
  {
    seq(128, i requires 0 <= i < 128 => FromLe64(s[8 * i..8 * i + 8]))
  }

  function ToCells(s: seq<byte>): Cells
    requires |s| == KIB
  {
    var ws := WordsOf(s);
    seq(128, i requires 0 <= i < 128 => ws[i] as bv64)
  }

  function ToBytes(c: seq<bv64>): (s: seq<byte>)
    ensures |s| == 8 * |c|
  {
    LeBytes(seq(|c|, i requires 0 <= i < |c| => c[i] as int))
  }

  /** A block of bytes and its words, both ways: word `i` is bytes 8 * i to 8 * i + 7, least significant first. */
  lemma BlockWords(s: seq<byte>, c: Cells, i: nat)
    requires |s| == KIB && i < 128
    ensures WordsOf(s)[i] == LeValue(s[8 * i..8 * i + 8]) && ToCells(s)[i] == WordsOf(s)[i] as bv64
    ensures LeValue(ToBytes(c)[8 * i..8 * i + 8]) == c[i] as int
  {
    hide LeValue, Le64, FromLe64, LeBytes;
    FromLe64Value(s[8 * i..8 * i + 8]);
    var ws: seq<u64> := seq(|c|, k requires 0 <= k < |c| => c[k] as int);
    LeBytesAt(ws, i);
    Le64Value(ws[i]);
  }

  function MemoryBlocks(mCost: nat): nat {
    4 * (mCost / 4)
  }

  function GeoOf(mCost: nat, tCost: nat): Geo
    requires 8 <= mCost <= MAX_MEM_COST
  {
    var m := MemoryBlocks(mCost);
    Geo(m, m / 4, m, tCost, 2, NewFastDiv(m))
  }

  function FirstCells(b: Blake, rfc: bool, h0: seq<byte>, i: word): Cells {
    ToCells(HPrime(b, rfc, KIB, h0 + Le32(i) + Le32(0)))
  }

  function ZeroLane(n: nat): (m: Mem)
    ensures |m| == n
  {
    seq(n, i => ZERO)
  }

  /** The first two blocks of the lane, and nothing else. */
  function FirstBlocks(b: Blake, rfc: bool, h0: seq<byte>, blocks: nat): (m: Mem)
    requires blocks >= 2
    ensures |m| == blocks
  {
    [FirstCells(b, rfc, h0, 0), FirstCells(b, rfc, h0, 1)] + ZeroLane(blocks - 2)
  }

  /** Argon2id of section 3.2 of RFC 9106 with one lane and a 32-byte tag. */
  function Argon2id(b: Blake, rfc: bool, p: Permute, password: seq<byte>, salt: seq<byte>, mCost: word,
                    tCost: word): (d: seq<byte>)
    requires |password| < TWO32 && |salt| < TWO32 && 8 <= mCost <= MAX_MEM_COST && tCost >= 1
    ensures |d| == 32
  {
    var geo := GeoOf(mCost, tCost);
    var h0 := Hashed(b, rfc, 64, Preamble(password, salt, mCost, tCost));
    GeoIsOk(mCost, tCost);
    var mem := RunFrom(p, geo, FirstBlocks(b, rfc, h0, geo.laneLength), 0, 0);
    HPrime(b, rfc, 32, ToBytes(mem[geo.laneLength - 1]))
  }

  /** One lane, whose length is the memory cost rounded down to a multiple of four (section 3.2 of RFC 9106, step 2), in
      four segments; as many passes as asked for; type 2. */
  lemma GeoIsRfc(mCost: nat, tCost: nat)
    requires 8 <= mCost <= MAX_MEM_COST
    ensures var g := GeoOf(mCost, tCost);
            && g.laneLength % 4 == 0 && g.laneLength <= mCost < g.laneLength + 4
            && g.mPrime == g.laneLength == 4 * g.segmentLength == MemoryBlocks(mCost)
            && g.tCost == tCost && g.y == 2
  {
    hide NewFastDiv;
  }

  lemma GeoIsOk(mCost: nat, tCost: nat)
    requires 8 <= mCost <= MAX_MEM_COST
    ensures GeoOf(mCost, tCost).Ok()
  {
    hide NewFastDiv;
  }

  // ----- the code

  method Put(h: array<byte>, w0: nat, bytes: seq<byte>) returns (w: nat)
    requires w0 + |bytes| <= h.Length
    modifies h
    ensures w == w0 + |bytes| && h[..w] == old(h[..w0]) + bytes
  {
    CopyInto(h, w0, bytes);
    w := w0 + |bytes|;
  }

  method PutWords(h: array<byte>, w0: nat, a: word, b: word, c: word) returns (w: nat)
    requires w0 + 12 <= h.Length
    modifies h
    ensures w == w0 + 12 && h[..w] == old(h[..w0]) + Le32(a) + Le32(b) + Le32(c)
  {
    hide Le32;
    w := Put(h, w0, Le32(a));
    w := Put(h, w, Le32(b));
    w := Put(h, w, Le32(c));
  }

  method InitialHash(b: Blake, salt: seq<byte>, digits: seq<byte>, mCost: word, tCost: word) returns (h0: seq<byte>)
    requires 40 + 2 * |salt| + |digits| <= 512
    ensures h0 == H(b, 64, Preamble(salt + digits, salt, mCost, tCost))
  {
    hide Le32, H, Preamble;
    var h := new byte[512](_ => 0);
    var w := PutWords(h, 0, 1, 32, mCost);
    w := PutWords(h, w, tCost, 0x13, 2);
    w := Put(h, w, Le32(|salt| + |digits|));
    w := Put(h, w, salt);
    w := Put(h, w, digits);
    w := Put(h, w, Le32(|salt|));
    w := Put(h, w, salt);
    w := Put(h, w, Le32(0));
    w := Put(h, w, Le32(0));
    PreambleParts(h[..0], salt, digits, mCost, tCost);
    h0 := Hash(b, 64, h[..w]);
  }

  lemma PreambleParts(none: seq<byte>, salt: seq<byte>, digits: seq<byte>, mCost: word, tCost: word)
    requires none == [] && |salt| + |digits| < TWO32
    ensures none + Le32(1) + Le32(32) + Le32(mCost) + Le32(tCost) + Le32(0x13) + Le32(2) + Le32(|salt| + |digits|)
          + salt + digits + Le32(|salt|) + salt + Le32(0) + Le32(0)
         == Preamble(salt + digits, salt, mCost, tCost)
  {
    hide Le32;
    assert none + Le32(1) == Le32(1);
    var head := Le32(1) + Le32(32) + Le32(mCost) + Le32(tCost) + Le32(0x13) + Le32(2) + Le32(|salt| + |digits|);
    assert head + salt + digits == head + (salt + digits);
  }

  method FirstBlock(b: Blake, blockhash: array<byte>, blk: array<byte>, mem: array<Cells>, at: nat)
    requires blockhash.Length == 72 && blk.Length == KIB && at < mem.Length && blk != blockhash
    modifies blk, mem
    ensures mem[..] == old(mem[..])[at := ToCells(HPrime(b, false, KIB, blockhash[..]))]
  {
    HashLong(b, blk, blockhash[..]);
    mem[at] := ToCells(blk[..]);
  }

  /** The digest of salt and decimal nonce, whatever the memory held before. */
  method Digest(b: Blake, p: Permute, salt: seq<byte>, mCost: word, tCost: word, nonce: nat, width: nat, mem: array<Cells>)
      returns (tag: seq<byte>)
    requires 8 <= mCost <= MAX_MEM_COST && tCost >= 1 && nonce < TWO64 && width <= 20
    requires 40 + 2 * |salt| + width <= 512 && mem.Length >= MemoryBlocks(mCost)
    modifies mem
    ensures tag == Argon2id(b, false, p, salt + Decimal.Fixed(nonce, width), salt, mCost, tCost)
  {
    hide H, RfcH, HPrime, Le32, Preamble, NewFastDiv, ToCells, ToBytes, RunFrom, FillFrom;
    var digits := new byte[20](_ => 0);
    Decimal.DigitsFixedInto(nonce, digits, width);
    var typed := digits[..width];
    assert typed == Decimal.Fixed(nonce, width);
    var h0 := InitialHash(b, salt, typed, mCost, tCost);
    GeoIsOk(mCost, tCost);
    var geo := GeoOf(mCost, tCost);
    FirstTwo(b, h0, mem);
    var pass := 0;
    ghost var first := mem[..];
    assert RunFrom(p, geo, first, 0, 0) == RunFrom(p, geo, mem[..], pass, 0);
    while pass < geo.tCost
      invariant 0 <= pass <= geo.tCost
      invariant RunFrom(p, geo, first, 0, 0) == RunFrom(p, geo, mem[..], pass, 0)
    {
      var slice := 0;
      while slice < 4
        invariant 0 <= slice <= 4
        invariant RunFrom(p, geo, first, 0, 0) == RunFrom(p, geo, mem[..], pass, slice)
      {
        RunStep(p, geo, mem[..], pass, slice);
        Segment(p, geo, mem, pass, slice);
        slice := slice + 1;
      }
      RunStep(p, geo, mem[..], pass, slice);
      pass := pass + 1;
    }
    RunStep(p, geo, mem[..], pass, 0);
    ghost var clean := FirstBlocks(b, false, h0, geo.laneLength);
    SameRun(p, geo, first, clean, 0, 0);
    var cbytes := ToBytes(mem[geo.mPrime - 1]);
    var out := new byte[32](_ => 0);
    HashLong(b, out, cbytes);
    tag := out[..];
  }

  lemma RunStep(p: Permute, geo: Geo, mem: Mem, pass: nat, slice: nat)
    requires geo.Ok() && slice <= 4 && pass <= geo.tCost && |mem| >= geo.laneLength
    ensures pass == geo.tCost ==> RunFrom(p, geo, mem, pass, slice) == mem
    ensures pass < geo.tCost && slice == 4 ==> RunFrom(p, geo, mem, pass, slice) == RunFrom(p, geo, mem, pass + 1, 0)
    ensures pass < geo.tCost && slice < 4 ==>
              var next := FillFrom(p, geo, mem, pass, slice, FirstIndex(pass, slice));
              RunFrom(p, geo, mem, pass, slice) == RunFrom(p, geo, next, pass, slice + 1)
  {
    hide FillFrom, NewFastDiv;
  }

  method FirstTwo(b: Blake, h0: seq<byte>, mem: array<Cells>)
    requires |h0| == 64 && mem.Length >= 2
    modifies mem
    ensures mem[0] == FirstCells(b, false, h0, 0)
    ensures mem[1] == FirstCells(b, false, h0, 1)
  {
    hide HPrime, Le32, ToCells;
    var blockhash := new byte[72](_ => 0);
    var blk := new byte[1024](_ => 0);
    CopyInto(blockhash, 0, h0);
    CopyInto(blockhash, 64, Le32(0));
    CopyInto(blockhash, 68, Le32(0));
    assert blockhash[..] == h0 + Le32(0) + Le32(0);
    FirstBlock(b, blockhash, blk, mem, 0);
    WriteAt(blockhash, 64, Le32(1));
    assert blockhash[..] == h0 + Le32(1) + Le32(0);
    FirstBlock(b, blockhash, blk, mem, 1);
  }

  method WriteAt(buf: array<byte>, at: nat, data: seq<byte>)
    requires at + |data| <= buf.Length
    modifies buf
    ensures buf[..] == old(buf[..at]) + data + old(buf[at + |data|..])
  {
    for i := 0 to |data|
      invariant buf[..at + i] == old(buf[..at]) + data[..i] && buf[at + i..] == old(buf[at + i..])
    {
      buf[at + i] := data[i];
    }
    assert buf[..] == buf[..at + |data|] + buf[at + |data|..];
  }

  // ----- the standard

  /** The initial hash is the standard's exactly when its input is not a whole number of 128-byte blocks. */
  lemma InitialHashIsRfc(password: seq<byte>, salt: seq<byte>, mCost: word, tCost: word)
    requires |password| < TWO32 && |salt| < TWO32
    ensures var x := Preamble(password, salt, mCost, tCost);
            && ((40 + |password| + |salt|) % BLOCK != 0 ==> forall b :: H(b, 64, x) == RfcH(b, 64, x))
            && ((40 + |password| + |salt|) % BLOCK == 0 ==> H(COUNTING, 64, x)[0] != RfcH(COUNTING, 64, x)[0])
  {
    hide H, RfcH, Preamble;
    EagerIsRfc(64, Preamble(password, salt, mCost, tCost));
  }

  /** Then the whole digest is the standard's. */
  lemma DigestIsArgon2id(b: Blake, p: Permute, password: seq<byte>, salt: seq<byte>, mCost: word, tCost: word)
    requires |password| < TWO32 && |salt| < TWO32 && 8 <= mCost <= MAX_MEM_COST && tCost >= 1
    requires (40 + |password| + |salt|) % BLOCK != 0
    ensures Argon2id(b, false, p, password, salt, mCost, tCost) == Argon2id(b, true, p, password, salt, mCost, tCost)
  {
    hide H, RfcH, HPrime, Preamble, RunFrom, ToCells, ToBytes, NewFastDiv, Le32;
    var x := Preamble(password, salt, mCost, tCost);
    InitialHashIsRfc(password, salt, mCost, tCost);
    var h0 := H(b, 64, x);
    GeoIsOk(mCost, tCost);
    LongIsHPrime(KIB, h0 + Le32(0) + Le32(0));
    LongIsHPrime(KIB, h0 + Le32(1) + Le32(0));
    var geo := GeoOf(mCost, tCost);
    assert FirstBlocks(b, false, h0, geo.laneLength) == FirstBlocks(b, true, h0, geo.laneLength);
    LongIsHPrime(32, ToBytes(RunFrom(p, geo, FirstBlocks(b, false, h0, geo.laneLength), 0, 0)[geo.laneLength - 1]));
  }
}
