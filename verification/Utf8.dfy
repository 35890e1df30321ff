/** UTF-8 validation of a stream cut into arbitrary chunks. */
module Utf8 {
  import opened Words

  type Bytes = seq<byte>

  // ----- well-formed text (section 4 of RFC 3629)

  predicate Tail(b: byte) {
    0x80 <= b <= 0xBF
  }

  /** The encodings of one character. */
  predicate IsChar(c: Bytes) {
    || (|c| == 1 && c[0] <= 0x7F)
    || (|c| == 2 && 0xC2 <= c[0] <= 0xDF && Tail(c[1]))
    || (|c| == 3 && Tail(c[2]) &&
        (|| (c[0] == 0xE0 && 0xA0 <= c[1] <= 0xBF)
         || (0xE1 <= c[0] <= 0xEC && Tail(c[1]))
         || (c[0] == 0xED && 0x80 <= c[1] <= 0x9F)
         || (0xEE <= c[0] <= 0xEF && Tail(c[1]))))
    || (|c| == 4 && Tail(c[2]) && Tail(c[3]) &&
        (|| (c[0] == 0xF0 && 0x90 <= c[1] <= 0xBF)
         || (0xF1 <= c[0] <= 0xF3 && Tail(c[1]))
         || (c[0] == 0xF4 && 0x80 <= c[1] <= 0x8F)))
  }

  ghost predicate WellFormed(s: Bytes)
    decreases |s|
  {
    s == [] || exists n: nat :: 1 <= n <= |s| && IsChar(s[..n]) && WellFormed(s[n..])
  }

  /** The beginning of some character, not all of it. */
  ghost predicate Incomplete(t: Bytes) {
    t != [] && exists c: Bytes :: IsChar(c) && |t| < |c| && c[..|t|] == t
  }

  /** Well-formed text, then at most the beginning of a character. */
  ghost predicate Clean(s: Bytes) {
    exists k: nat :: k <= |s| && WellFormed(s[..k]) && (k == |s| || Incomplete(s[k..]))
  }

  // ----- characters and their numbers

  /** The numbers that are characters: no surrogates. */
  predicate IsScalar(v: nat) {
    v <= 0x10_FFFF && !(0xD800 <= v <= 0xDFFF)
  }

  /** The table of section 3 of RFC 3629. */
  function Encode(v: nat): Bytes
    requires IsScalar(v)
  {
    if v < 0x80 then [v]
    else if v < 0x800 then [0xC0 + v / 0x40, 0x80 + v % 0x40]
    else if v < 0x1_0000 then [0xE0 + v / 0x40 / 0x40, 0x80 + v / 0x40 % 0x40, 0x80 + v % 0x40]
    else [0xF0 + v / 0x40 / 0x40 / 0x40, 0x80 + v / 0x40 / 0x40 % 0x40, 0x80 + v / 0x40 % 0x40, 0x80 + v % 0x40]
  }

  /** Six more bits. */
  lemma Appended(a: nat, tail: byte) returns (v: nat)
    requires Tail(tail)
    ensures v == 0x40 * a + (tail - 0x80) && v / 0x40 == a && 0x80 + v % 0x40 == tail
  {
    v := 0x40 * a + (tail - 0x80);
  }

  lemma EncodedIsChar(v: nat)
    requires IsScalar(v)
    ensures IsChar(Encode(v))
  {
  }

  /** The byte sequences taken for characters are exactly the encodings of scalar values. */
  lemma CharIsEncoded(c: Bytes) returns (v: nat)
    requires IsChar(c)
    ensures IsScalar(v) && Encode(v) == c
  {
    var head: int := c[0];
    if |c| == 1 {
      v := head;
    } else if |c| == 2 {
      v := Appended(head - 0xC0, c[1]);
    } else if |c| == 3 {
      v := Appended(head - 0xE0, c[1]);
      v := Appended(v, c[2]);
    } else {
      v := Appended(head - 0xF0, c[1]);
      v := Appended(v, c[2]);
      v := Appended(v, c[3]);
    }
  }

  // ----- reading one character

  datatype Read = Good(len: nat) | Short | Bad(len: nat)

  function Width(b: byte): nat {
    if b <= 0x7F then 1 else if 0xC2 <= b <= 0xDF then 2 else if 0xE0 <= b <= 0xEF then 3
    else if 0xF0 <= b <= 0xF4 then 4 else 0
  }

  predicate SecondOk(b: byte, c: byte) {
    if b == 0xE0 then 0xA0 <= c <= 0xBF
    else if b == 0xED then 0x80 <= c <= 0x9F
    else if b == 0xF0 then 0x90 <= c <= 0xBF
    else if b == 0xF4 then 0x80 <= c <= 0x8F
    else Tail(c)
  }

  /** The first character of `s`, or how many bytes cannot begin one. */
  function ReadChar(s: Bytes): (r: Read)
    requires s != []
    ensures r.Good? ==> 1 <= r.len <= |s| && r.len <= 4
    ensures r.Bad? ==> 1 <= r.len <= |s| && r.len <= 3
  {
    var w := Width(s[0]);
    if w == 0 then Bad(1)
    else if w == 1 then Good(1)
    else if |s| == 1 then Short
    else if !SecondOk(s[0], s[1]) then Bad(1)
    else if w == 2 then Good(2)
    else if |s| == 2 then Short
    else if !Tail(s[2]) then Bad(2)
    else if w == 3 then Good(3)
    else if |s| == 3 then Short
    else if !Tail(s[3]) then Bad(3)
    else Good(4)
  }

  lemma GoodIsChar(s: Bytes)
    requires s != []
    ensures ReadChar(s).Good? ==> IsChar(s[..ReadChar(s).len])
    ensures forall n: nat | n <= |s| && IsChar(s[..n]) :: ReadChar(s) == Good(n)
  {
    forall n: nat | n <= |s| && IsChar(s[..n]) ensures ReadChar(s) == Good(n) {
      assert s[..n] + s[n..] == s;
    }
  }

  lemma OnlyChar(s: Bytes, m: nat)
    requires 1 <= m <= |s| && IsChar(s[..m])
    ensures ReadChar(s) == Good(m)
  {
    GoodIsChar(s);
  }

  lemma ShortIsIncomplete(s: Bytes)
    requires s != []
    ensures ReadChar(s) == Short <==> Incomplete(s)
    ensures ReadChar(s) == Short ==> |s| <= 3
  {
    if ReadChar(s) == Short {
      var second: byte := if s[0] == 0xE0 || s[0] == 0xF0 then 0xA0 else 0x80;
      var c := Completion(s, second);
      assert IsChar(c) && c[..|s|] == s;
    }
    if Incomplete(s) {
      var c: Bytes :| IsChar(c) && |s| < |c| && c[..|s|] == s;
    }
  }

  function Completion(s: Bytes, second: byte): Bytes
    requires s != []
  {
    if Width(s[0]) == 2 then s + [second]
    else if |s| == 1 then (if Width(s[0]) == 3 then s + [second, 0x80] else s + [second, 0x80, 0x80])
    else if |s| == 2 then (if Width(s[0]) == 3 then s + [0x80] else s + [0x80, 0x80])
    else s + [0x80]
  }

  // ----- the validator of whole slices

  /** What went wrong: how much is valid, and how many bytes are wrong, or none if the input just ends too early. */
  datatype Verdict = Valid | Error(validUpTo: nat, errorLen: Option<nat>)

  function FromUtf8(s: Bytes): (v: Verdict)
    ensures v.Error? ==> v.validUpTo < |s|
    ensures v.Error? && v.errorLen != None ==> 1 <= v.errorLen.value && v.validUpTo + v.errorLen.value <= |s|
    decreases |s|
  {
    if s == [] then Valid else
      match ReadChar(s)
      case Short => Error(0, None)
      case Bad(n) => Error(0, Some(n))
      case Good(n) =>
        match FromUtf8(s[n..])
        case Valid => Valid
        case Error(k, e) => Error(n + k, e)
  }

  /** A wrong byte sequence was met. */
  predicate Broken(v: Verdict) {
    v.Error? && v.errorLen != None
  }

  /** What is left of the last character. */
  function Left(s: Bytes): (t: Bytes) {
    var v := FromUtf8(s);
    if v.Error? then s[v.validUpTo..] else []
  }

  lemma {:induction false} CleanIsUnbroken(s: Bytes)
    ensures Clean(s) <==> !Broken(FromUtf8(s))
    ensures !Broken(FromUtf8(s)) ==> |Left(s)| <= 3 && (Left(s) == [] || Incomplete(Left(s)))
    decreases |s|
  {
    hide IsChar, Incomplete, ReadChar;
    if s == [] {
      assert WellFormed(s[..0]);
      assert Clean(s);
    } else {
      GoodIsChar(s);
      ShortIsIncomplete(s);
      match ReadChar(s)
      case Good(n) =>
        CleanIsUnbroken(s[n..]);
        CleanStep(s, n);
        LeftStep(s, n);
      case Short =>
        assert s[..0] == [] && s[0..] == s;
        assert WellFormed(s[..0]);
        assert Clean(s);
      case Bad(n) =>
        NotClean(s);
    }
  }

  lemma LeftStep(s: Bytes, n: nat)
    requires s != [] && ReadChar(s) == Good(n)
    ensures Left(s) == Left(s[n..]) && (Broken(FromUtf8(s)) <==> Broken(FromUtf8(s[n..])))
  {
    hide ReadChar;
    var v := FromUtf8(s[n..]);
    if v.Error? {
      assert s[n..][v.validUpTo..] == s[n + v.validUpTo..];
    }
  }

  lemma CleanStep(s: Bytes, n: nat)
    requires s != [] && ReadChar(s) == Good(n)
    ensures Clean(s) <==> Clean(s[n..])
  {
    hide *;
    if Clean(s) {
      CleanDrops(s, n);
    }
    if Clean(s[n..]) {
      CleanGrows(s, n);
    }
  }

  lemma CleanDrops(s: Bytes, n: nat)
    requires s != [] && ReadChar(s) == Good(n) && Clean(s)
    ensures Clean(s[n..])
  {
    hide *;
    var k := CleanAt(s);
    assert k != 0 by {
      assert s[0..] == s;
      ShortIsIncomplete(s);
    }
    var m := FirstChar(s[..k]);
    Slices(s, k, m);
    OnlyChar(s, m);
    CleanBy(s[n..], k - n);
  }

  lemma CleanAt(s: Bytes) returns (k: nat)
    requires Clean(s)
    ensures k <= |s| && WellFormed(s[..k]) && (k == |s| || Incomplete(s[k..]))
  {
    hide Incomplete, WellFormed;
    k :| k <= |s| && WellFormed(s[..k]) && (k == |s| || Incomplete(s[k..]));
  }

  lemma FirstChar(s: Bytes) returns (m: nat)
    requires s != [] && WellFormed(s)
    ensures 1 <= m <= |s| && IsChar(s[..m]) && WellFormed(s[m..])
  {
    hide IsChar;
    m :| 1 <= m <= |s| && IsChar(s[..m]) && WellFormed(s[m..]);
  }

  lemma Slices(s: Bytes, k: nat, m: nat)
    requires m <= k <= |s|
    ensures s[..k][..m] == s[..m] && s[..k][m..] == s[m..][..k - m] && s[m..][k - m..] == s[k..]
  {
  }

  lemma CleanBy(s: Bytes, k: nat)
    requires k <= |s| && WellFormed(s[..k]) && (k == |s| || Incomplete(s[k..]))
    ensures Clean(s)
  {
    hide IsChar, ReadChar, Incomplete, WellFormed;
  }

  lemma CleanGrows(s: Bytes, n: nat)
    requires s != [] && ReadChar(s) == Good(n) && Clean(s[n..])
    ensures Clean(s)
  {
    hide IsChar, ReadChar, Incomplete;
    GoodIsChar(s);
    var k: nat :| k <= |s[n..]| && WellFormed(s[n..][..k]) && (k == |s[n..]| || Incomplete(s[n..][k..]));
    assert s[..n + k][..n] == s[..n] && s[..n + k][n..] == s[n..][..k] && s[n + k..] == s[n..][k..];
    assert WellFormed(s[..n + k]);
  }

  lemma NotClean(s: Bytes)
    requires s != [] && ReadChar(s).Bad?
    ensures !Clean(s)
  {
    hide IsChar, ReadChar, Incomplete;
    GoodIsChar(s);
    ShortIsIncomplete(s);
    assert s[0..] == s;
    if k: nat :| k <= |s| && WellFormed(s[..k]) && (k == |s| || Incomplete(s[k..])) {
      assert k > 0 ==> exists m: nat :: 1 <= m <= k && IsChar(s[..k][..m]);
      assert forall m: nat :: m <= k ==> s[..k][..m] == s[..m];
    }
  }

  /** Bytes already judged valid can be forgotten; only the beginning of the last character matters. */
  lemma {:induction false} Resume(a: Bytes, b: Bytes)
    requires !Broken(FromUtf8(a))
    ensures Broken(FromUtf8(a + b)) <==> Broken(FromUtf8(Left(a) + b))
    ensures Left(a + b) == Left(Left(a) + b)
    decreases |a|
  {
    hide ReadChar;
    if a == [] {
      assert a + b == Left(a) + b;
    } else {
      match ReadChar(a)
      case Good(n) =>
        ReadLonger(a, b);
        assert (a + b)[n..] == a[n..] + b;
        LeftStep(a, n);
        LeftStep(a + b, n);
        Resume(a[n..], b);
      case Short =>
        assert a[0..] == a;
    }
  }

  lemma ReadLonger(a: Bytes, b: Bytes)
    requires a != [] && ReadChar(a) != Short
    ensures ReadChar(a + b) == ReadChar(a)
  {
  }

  lemma {:induction false} BrokenStays(a: Bytes, b: Bytes)
    requires Broken(FromUtf8(a))
    ensures Broken(FromUtf8(a + b))
    decreases |a|
  {
    hide ReadChar;
    ReadLonger(a, b);
    match ReadChar(a)
    case Good(n) =>
      assert (a + b)[n..] == a[n..] + b;
      BrokenStays(a[n..], b);
    case Bad(n) =>
  }

  /** A character that has begun in the tail ends past it, and a wrong one is not called before. */
  lemma CharPastTail(t: Bytes, c: Bytes)
    requires t != [] && ReadChar(t) == Short
    ensures ReadChar(t + c) != Short ==> ReadChar(t + c).len >= |t|
  {
  }

  lemma SkipPastTail(t: Bytes, c: Bytes, start: nat, errorLen: nat)
    requires t != [] && ReadChar(t) == Short && FromUtf8(t + c) == Error(start, Some(errorLen))
    ensures start + errorLen >= |t|
  {
    hide FromUtf8, ReadChar;
    CharPastTail(t, c);
    FromStep(t + c);
  }

  lemma FromStep(s: Bytes)
    requires s != []
    ensures var v := FromUtf8(s);
            match ReadChar(s)
            case Short => !Broken(v)
            case Bad(n) => v == Error(0, Some(n))
            case Good(n) => v.Error? ==> v.validUpTo >= n
  {
  }

  // ----- the stream

  class StreamState {
    const tail: array<byte>
    var len: nat
    /** Everything checked so far, and whether every check was positive. */
    ghost var fed: Bytes
    ghost var good: bool

    /** The tail is the beginning of a character; while all is well, it is the one the stream ends with. */
    ghost predicate Valid()
      reads this, tail
    {
      && tail.Length == 4 && len <= 3
      && (len == 0 || ReadChar(tail[..len]) == Short)
      && (good <==> !Broken(FromUtf8(fed)))
      && (good ==> tail[..len] == Left(fed))
    }

    constructor ()
      ensures Valid() && fresh(tail) && fed == [] && good
    {
      tail := new byte[4](_ => 0);
      len := 0;
      fed := [];
      good := true;
    }

    method SetTail(t: Bytes)
      requires tail.Length == 4 && |t| <= 4
      modifies this`len, tail
      ensures len == |t| && tail[..len] == t
    {
      CopyInto(tail, 0, t);
      len := |t|;
    }

    /** The tail and a piece of the chunk side by side. */
    method Join(piece: Bytes) returns (joined: array<byte>)
      requires tail.Length == 4 && len <= 4 && len + |piece| <= 8
      ensures fresh(joined) && joined.Length == 8 && joined[..len + |piece|] == tail[..len] + piece
    {
      joined := new byte[8](_ => 0);
      CopyInto(joined, 0, tail[..len]);
      CopyInto(joined, len, piece);
    }

    /** Checks the tail together with the next bytes of the chunk: whether they are all right, and what is left of the
        chunk. It never gives up: what is incomplete fits the tail, and a wrong sequence ends past the old tail. */
    method CheckJoined(chunk: Bytes, ghost broken: bool, ghost left: Bytes, ghost live: bool)
        returns (r: Option<(bool, Bytes)>)
      requires tail.Length == 4 && 0 < len <= 3 && ReadChar(tail[..len]) == Short && chunk != []
      requires live ==> Tracks(broken, left, tail[..len], chunk)
      modifies this`len, tail
      ensures r.Some? && |r.value.1| < |chunk|
      ensures len <= 3 && (len == 0 || ReadChar(tail[..len]) == Short)
      ensures live ==> if r.value.0 then Tracks(broken, left, tail[..len], r.value.1) else broken
    {
      hide FromUtf8, Left, ReadChar, Tracks;
      ghost var t := tail[..len];
      var tl := len;
      var take := if |chunk| < 8 - tl then |chunk| else 8 - tl;
      var joined := Join(chunk[..take]);
      var j := tl + take;
      Consume(broken, left, t, chunk, take, live);
      match FromUtf8(joined[..j]) {
        case Valid =>
          AfterValid(joined[..j]);
          len := 0;
          return Some((true, chunk[take..]));
        case Error(start, errorLen) =>
          if errorLen == None {
            var rem := j - start;
            AfterShort(joined[..j]);
            if rem <= 4 && start + rem == j {
              SetTail(joined[start..j]);
              return Some((true, chunk[take..]));
            } else {
              return None;
            }
          } else {
            var skip := start + errorLen.value;
            SkipPastTail(t, chunk[..take], start, errorLen.value);
            len := 0;
            if skip < tl {
              return Some((false, chunk));
            }
            var cs := if skip - tl > 1 then skip - tl else 1;
            return Some((false, chunk[cs..]));
          }
      }
    }

    /** Checks one more chunk. As long as every answer so far was yes, the answer says whether the stream
        is still well-formed text and at most the beginning of a character. */
    method Check(chunk0: Bytes) returns (ok: bool)
      requires Valid()
      modifies this, tail
      ensures Valid() && fed == old(fed) + chunk0
      ensures if old(good) then ok == good else !good
    {
      hide FromUtf8, Left, ReadChar, Tracks;
      var chunk := chunk0;
      ok := true;
      Begin(fed, chunk0);
      fed := fed + chunk0;
      ghost var was, broken, left := good, Broken(FromUtf8(fed)), Left(fed);
      good := !broken;
      while chunk != []
        invariant tail.Length == 4 && len <= 3 && (len == 0 || ReadChar(tail[..len]) == Short)
        invariant fed == old(fed) + chunk0 && good == !broken
        invariant was && ok ==> Tracks(broken, left, tail[..len], chunk)
        invariant !(was && ok) ==> (was ==> broken) && (!was ==> broken)
        decreases |chunk|
      {
        if len == 0 {
          Consume(broken, left, tail[..len], chunk, |chunk|, was && ok);
          assert tail[..len] + chunk[..|chunk|] == chunk && chunk[|chunk|..] == [] && tail[..len] == [];
          match FromUtf8(chunk) {
            case Valid =>
              AfterValid(chunk);
              End(broken, left, tail[..len], was && ok);
              return;
            case Error(start, errorLen) =>
              if errorLen == None {
                var rem := |chunk| - start;
                AfterShort(chunk);
                if rem <= 4 {
                  SetTail(chunk[start..]);
                  End(broken, left, chunk[start..], was && ok);
                  return;
                }
                return false;
              }
              ok := false;
              chunk := chunk[start + errorLen.value..];
          }
        } else {
          var r := CheckJoined(chunk, broken, left, was && ok);
          if r == None {
            return false;
          }
          ok, chunk := ok && r.value.0, r.value.1;
        }
      }
      End(broken, left, tail[..len], was && ok);
    }
  }

  /** Judging `t` and then `chunk` judges the stream as a whole. */
  ghost predicate Tracks(broken: bool, left: Bytes, t: Bytes, chunk: Bytes) {
    && (broken <==> Broken(FromUtf8(t + chunk)))
    && (!broken ==> left == Left(t + chunk))
  }

  lemma Begin(fed: Bytes, chunk: Bytes)
    ensures !Broken(FromUtf8(fed)) ==> Tracks(Broken(FromUtf8(fed + chunk)), Left(fed + chunk), Left(fed), chunk)
    ensures Broken(FromUtf8(fed)) ==> Broken(FromUtf8(fed + chunk))
  {
    hide FromUtf8, Left, Broken;
    if Broken(FromUtf8(fed)) {
      BrokenStays(fed, chunk);
    } else {
      Resume(fed, chunk);
    }
  }

  /** Judging a first part of the chunk behind the tail. */
  lemma Consume(broken: bool, left: Bytes, t: Bytes, chunk: Bytes, take: nat, live: bool)
    requires take <= |chunk| && (live ==> Tracks(broken, left, t, chunk))
    ensures var w := t + chunk[..take];
            && (live && !Broken(FromUtf8(w)) ==> Tracks(broken, left, Left(w), chunk[take..]))
            && (live && Broken(FromUtf8(w)) ==> broken)
  {
    hide FromUtf8, Left, Broken;
    var w := t + chunk[..take];
    assert w + chunk[take..] == t + chunk;
    if Broken(FromUtf8(w)) {
      BrokenStays(w, chunk[take..]);
    } else {
      Resume(w, chunk[take..]);
    }
  }

  lemma End(broken: bool, left: Bytes, t: Bytes, live: bool)
    requires live ==> Tracks(broken, left, t, [])
    requires t == [] || ReadChar(t) == Short
    ensures live ==> !broken && left == t
  {
    hide ReadChar;
    assert t + [] == t;
    assert t == [] || t[0..] == t;
  }

  lemma AfterValid(s: Bytes)
    requires FromUtf8(s) == Valid
    ensures !Broken(FromUtf8(s)) && Left(s) == []
  {
  }

  lemma AfterShort(s: Bytes)
    requires FromUtf8(s).Error? && FromUtf8(s).errorLen == None
    ensures !Broken(FromUtf8(s)) && Left(s) == s[FromUtf8(s).validUpTo..]
    ensures 1 <= |Left(s)| <= 3 && ReadChar(Left(s)) == Short
  {
    hide ReadChar;
    CleanIsUnbroken(s);
    ShortIsIncomplete(Left(s));
  }

  function Concat(chunks: seq<Bytes>): Bytes {
    if chunks == [] then [] else Concat(chunks[..|chunks| - 1]) + chunks[|chunks| - 1]
  }

  /** However a stream is cut into chunks, no chunk counts as bad exactly when the stream is well-formed text
      followed by at most the beginning of one more character. */
  method CountBadChunks(chunks: seq<Bytes>) returns (bad: word)
    ensures bad == 0 <==> Clean(Concat(chunks))
  {
    hide Clean, Broken, FromUtf8;
    var st := new StreamState();
    bad := 0;
    CleanIsUnbroken([]);
    for i := 0 to |chunks|
      invariant st.Valid() && fresh(st) && fresh(st.tail)
      invariant st.fed == Concat(chunks[..i])
      invariant bad == 0 <==> st.good
    {
      assert chunks[..i + 1][..i] == chunks[..i];
      var ok := st.Check(chunks[i]);
      if !ok {
        bad := if bad < 0xFFFF_FFFF then bad + 1 else bad;
      }
    }
    assert chunks[..|chunks|] == chunks;
    CleanIsUnbroken(Concat(chunks));
  }
}
