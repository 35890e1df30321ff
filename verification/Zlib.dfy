/** Stored-block zlib streams: what a decoder reads, and the layout a streaming writer keeps. */
module Zlib {
  import opened Words
  import Adler

  /** The largest payload of one stored block. */
  const FULL := 65535

  datatype Inflated = Inflated(data: seq<byte>, rest: seq<byte>)

  function Le16(v: nat): (s: seq<byte>)
    requires v < 0x1_0000
    ensures |s| == 2
  {
    [v % 256, v / 256]
  }

  function FromLe16(s: seq<byte>): nat
    requires |s| == 2
  {
    var lo: int, hi: int := s[0], s[1];
    lo + 256 * hi
  }

  // ----- the decoder

  /** Reads stored blocks up to and including the final one (section 3.2.4 of RFC 1951). */
  function Inflate(z: seq<byte>): Option<Inflated>
    decreases |z|
  {
    if |z| < 5 || z[0] / 2 % 4 != 0 then None else
      var len := FromLe16(z[1..3]);
      if FromLe16(z[3..5]) != 0xFFFF - len || |z| < 5 + len then None else
        var data, rest := z[5..5 + len], z[5 + len..];
        if z[0] % 2 == 1 then Some(Inflated(data, rest)) else
          var more := Inflate(rest);
          if more == None then None else Some(Inflated(data + more.value.data, more.value.rest))
  }

  /** A whole zlib stream: header check, deflate data, Adler-32 trailer (section 2.2 of RFC 1950). */
  function Unzlib(z: seq<byte>): Option<seq<byte>> {
    if |z| < 2 then None else
      var cmf: int, flg: int := z[0], z[1];
      if cmf % 16 != 8 || (256 * cmf + flg) % 31 != 0 || flg / 32 % 2 != 0 then None else
        Checked(Inflate(z[2..]))
  }

  function Checked(body: Option<Inflated>): Option<seq<byte>> {
    if body == None || body.value.rest != Be32(Adler.Checksum(1, body.value.data)) then None
    else Some(body.value.data)
  }

  // ----- what the writer lays down

  function Header(last: bool, len: nat): (s: seq<byte>)
    requires len <= FULL
    ensures |s| == 5
  {
    var flag: byte := if last then 1 else 0;
    [flag] + Le16(len) + Le16(FULL - len)
  }

  /** `data` as full, non-final blocks. */
  function Full(data: seq<byte>): (s: seq<byte>)
    requires |data| % FULL == 0
  {
    if data == [] then [] else Header(false, FULL) + data[..FULL] + Full(data[FULL..])
  }

  lemma {:induction false} FullAppend(a: seq<byte>, b: seq<byte>)
    requires |a| % FULL == 0 && |b| == FULL
    ensures Full(a + b) == Full(a) + (Header(false, FULL) + b)
  {
    if a == [] {
      assert a + b == b && b[..FULL] == b && b[FULL..] == [];
      assert Full(b) == Header(false, FULL) + b + [];
    } else {
      assert (a + b)[..FULL] == a[..FULL] && (a + b)[FULL..] == a[FULL..] + b;
      FullAppend(a[FULL..], b);
      Regroup(Header(false, FULL) + a[..FULL], Full(a[FULL..]), Header(false, FULL) + b);
    }
  }

  lemma Regroup<T>(a: seq<T>, b: seq<T>, c: seq<T>)
    ensures a + (b + c) == (a + b) + c
  {
  }

  /** All of `data`: full blocks, then one final block with what is left over, possibly nothing. */
  function Stored(data: seq<byte>): seq<byte> {
    if |data| < FULL then Header(true, |data|) + data
    else Header(false, FULL) + data[..FULL] + Stored(data[FULL..])
  }

  lemma {:induction false} StoredIs(full: seq<byte>, last: seq<byte>)
    requires |full| % FULL == 0 && |last| < FULL
    ensures Stored(full + last) == Full(full) + (Header(true, |last|) + last)
    decreases |full|
  {
    hide Header;
    if full == [] {
      assert full + last == last;
    } else {
      assert (full + last)[..FULL] == full[..FULL] && (full + last)[FULL..] == full[FULL..] + last;
      StoredIs(full[FULL..], last);
      Regroup(Header(false, FULL) + full[..FULL], Full(full[FULL..]), Header(true, |last|) + last);
    }
  }

  lemma {:induction false} StoredLength(data: seq<byte>, k: nat, r: nat)
    requires |data| == FULL * k + r && r < FULL
    ensures |Stored(data)| == |data| + 5 * k + 5
  {
    hide Header;
    if k > 0 {
      StoredLength(data[FULL..], k - 1, r);
    }
  }

  lemma ReadHeader(last: bool, len: nat, data: seq<byte>, rest: seq<byte>)
    requires |data| == len <= FULL
    ensures var z := Header(last, len) + data + rest;
            && z[0] == (if last then 1 else 0)
            && FromLe16(z[1..3]) == len && FromLe16(z[3..5]) == 0xFFFF - len
            && z[5..5 + len] == data && z[5 + len..] == rest
  {
    var z := Header(last, len) + data + rest;
    assert z[1..3] == Le16(len) && z[3..5] == Le16(FULL - len);
  }

  lemma {:induction false} InflateOpen(data: seq<byte>, rest: seq<byte>)
    requires |data| <= FULL
    ensures Inflate(Header(false, |data|) + data + rest) == Prepend(data, Inflate(rest))
  {
    hide FromLe16, Header;
    ReadHeader(false, |data|, data, rest);
  }

  function Prepend(data: seq<byte>, r: Option<Inflated>): Option<Inflated> {
    if r == None then None else Some(Inflated(data + r.value.data, r.value.rest))
  }

  lemma {:induction false} InflateFull(a: seq<byte>, tail: seq<byte>)
    requires |a| % FULL == 0
    ensures Inflate(Full(a) + tail) == Prepend(a, Inflate(tail))
    decreases |a|
  {
    hide FromLe16, Inflate;
    if a == [] {
      assert Full(a) + tail == tail;
      if Inflate(tail) != None {
        assert a + Inflate(tail).value.data == Inflate(tail).value.data;
      }
    } else {
      var rest := Full(a[FULL..]) + tail;
      Regroup(Header(false, FULL) + a[..FULL], Full(a[FULL..]), tail);
      InflateOpen(a[..FULL], rest);
      InflateFull(a[FULL..], tail);
      if Inflate(tail) != None {
        Regroup(a[..FULL], a[FULL..], Inflate(tail).value.data);
        assert a[..FULL] + a[FULL..] == a;
      }
    }
  }

  lemma InflateLast(data: seq<byte>, rest: seq<byte>)
    requires |data| <= FULL
    ensures Inflate(Header(true, |data|) + data + rest) == Some(Inflated(data, rest))
  {
    hide FromLe16, Header;
    ReadHeader(true, |data|, data, rest);
  }

  /** The decoder gets back the data and whatever follows the final block. */
  lemma {:induction false} StoredInflates(data: seq<byte>, rest: seq<byte>)
    ensures Inflate(Stored(data) + rest) == Some(Inflated(data, rest))
    decreases |data|
  {
    hide FromLe16, Header, Inflate;
    if |data| < FULL {
      InflateLast(data, rest);
    } else {
      Regroup(Header(false, FULL) + data[..FULL], Stored(data[FULL..]), rest);
      InflateOpen(data[..FULL], Stored(data[FULL..]) + rest);
      StoredInflates(data[FULL..], rest);
      assert data[..FULL] + data[FULL..] == data;
    }
  }

  /** Cut inside the final header, the stream has no final block. */
  lemma CutInflatesToNothing(data: seq<byte>, n: nat)
    requires |data| % FULL == 0 && n <= 4
    ensures Inflate(Full(data) + Header(true, 0)[..n]) == None
  {
    InflateFull(data, Header(true, 0)[..n]);
  }

  // ----- the stream under construction

  /** `start`, the closed blocks of `raw`, and an open block holding its last `d` bytes. */
  function Layout(start: seq<byte>, raw: seq<byte>, d: nat): (s: seq<byte>)
    requires d <= |raw| && (|raw| - d) % FULL == 0
  {
    start + Full(raw[..|raw| - d]) + Zeros(5) + raw[|raw| - d..]
  }

  /** Where the open block's header is. */
  function OpenAt(start: seq<byte>, raw: seq<byte>, d: nat): nat
    requires d <= |raw| && (|raw| - d) % FULL == 0
  {
    |start| + |Full(raw[..|raw| - d])|
  }

  function Overwrite(s: seq<byte>, at: nat, bytes: seq<byte>): (r: seq<byte>)
    requires at + |bytes| <= |s|
    ensures |r| == |s|
  {
    s[..at] + bytes + s[at + |bytes|..]
  }

  /** The placeholder at `at` after its flag and its two length fields are written. */
  function Filled(png: seq<byte>, at: nat, last: bool, len: nat): (r: seq<byte>)
    requires at + 5 <= |png| && len <= FULL
    ensures |r| == |png|
  {
    var flagged := if last then png[at := 1] else png;
    Overwrite(Overwrite(flagged, at + 1, Le16(len)), at + 3, Le16(FULL - len))
  }

  lemma Grow(start: seq<byte>, raw: seq<byte>, d: nat, more: seq<byte>)
    requires d <= |raw| && (|raw| - d) % FULL == 0
    ensures (|raw + more| - (d + |more|)) % FULL == 0
    ensures Layout(start, raw, d) + more == Layout(start, raw + more, d + |more|)
    ensures OpenAt(start, raw, d) == OpenAt(start, raw + more, d + |more|)
  {
    var k := |raw| - d;
    assert |raw + more| - (d + |more|) == k;
    assert (raw + more)[..k] == raw[..k] && (raw + more)[k..] == raw[k..] + more;
    hide Full;
    Regroup(start + Full(raw[..k]) + Zeros(5), raw[k..], more);
  }

  /** Writing the length fields turns the placeholder into a header. */
  lemma Patch(start: seq<byte>, body: seq<byte>, last: bool, tail: seq<byte>, len: nat)
    requires len <= FULL
    ensures Filled(start + body + Zeros(5) + tail, |start| + |body|, last, len)
         == start + body + (Header(last, len) + tail)
  {
    hide Le16, Overwrite;
    var pre := start + body;
    var png, at := pre + Zeros(5) + tail, |pre|;
    var flag: byte := if last then 1 else 0;
    var flagged := if last then png[at := 1] else png;
    assert flagged == pre + [flag] + Zeros(2) + (Zeros(2) + tail);
    OverwriteMiddle(pre + [flag], Zeros(2), Zeros(2) + tail, Le16(len));
    var once := pre + [flag] + Le16(len);
    Regroup(once, Zeros(2), tail);
    OverwriteMiddle(once, Zeros(2), tail, Le16(FULL - len));
    HeaderParts(pre, flag, Le16(len), Le16(FULL - len), tail);
    Regroup(start, body, Header(last, len) + tail);
  }

  lemma OverwriteMiddle(a: seq<byte>, b: seq<byte>, c: seq<byte>, d: seq<byte>)
    requires |b| == |d|
    ensures Overwrite(a + b + c, |a|, d) == a + d + c
  {
    var s := a + b + c;
    assert s[..|a|] == a && s[|a| + |d|..] == c;
  }

  lemma HeaderParts(pre: seq<byte>, flag: byte, x: seq<byte>, y: seq<byte>, tail: seq<byte>)
    ensures pre + [flag] + x + y + tail == pre + ([flag] + x + y + tail)
  {
  }

  /** Closing a full block and opening the next one. */
  lemma Reopen(start: seq<byte>, raw: seq<byte>)
    requires FULL <= |raw| && (|raw| - FULL) % FULL == 0
    ensures |raw| % FULL == 0
    ensures OpenAt(start, raw, FULL) + 5 <= |Layout(start, raw, FULL)|
    ensures var closed := Filled(Layout(start, raw, FULL), OpenAt(start, raw, FULL), false, FULL);
            closed + Zeros(5) == Layout(start, raw, 0) && |closed| == OpenAt(start, raw, 0)
  {
    hide Full, Header, Filled;
    var k := |raw| - FULL;
    Patch(start, Full(raw[..k]), false, raw[k..], FULL);
    FullAppend(raw[..k], raw[k..]);
    assert raw[..k] + raw[k..] == raw && raw[..|raw|] == raw && raw[|raw|..] == [];
    Regroup(start, Full(raw[..k]), Header(false, FULL) + raw[k..]);
    assert Layout(start, raw, 0) == start + Full(raw) + Zeros(5) + [];
  }

  /** Closing the last block: the stream is complete. */
  lemma Finish(start: seq<byte>, raw: seq<byte>, d: nat)
    requires d < FULL && d <= |raw| && (|raw| - d) % FULL == 0
    ensures OpenAt(start, raw, d) + 5 <= |Layout(start, raw, d)|
    ensures Filled(Layout(start, raw, d), OpenAt(start, raw, d), true, d) == start + Stored(raw)
  {
    hide Full, Header, Filled, Stored;
    var k := |raw| - d;
    Patch(start, Full(raw[..k]), true, raw[k..], d);
    StoredIs(raw[..k], raw[k..]);
    assert raw[..k] + raw[k..] == raw;
    Regroup(start, Full(raw[..k]), Header(true, d) + raw[k..]);
  }

}
