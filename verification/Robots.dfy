/** robots.txt: which group of rules applies, what a rule matches, and which rule decides. */
module Robots {
  import opened Words

  type Text = seq<byte>

  const STAR: byte := 42
  const DOLLAR: byte := 36
  const SLASH: byte := 47

  // ----- what a pattern means

  /** `*` stands for any bytes. An anchored pattern must use up the whole path, another only a first part of it. */
  ghost predicate Glob(pat: Text, path: Text, anchored: bool)
    decreases |pat|
  {
    if pat == [] then anchored ==> path == []
    else if pat[0] == STAR then exists k :: 0 <= k <= |path| && Glob(pat[1..], path[k..], anchored)
    else path != [] && path[0] == pat[0] && Glob(pat[1..], path[1..], anchored)
  }

  /** A rule's pattern: a final `$` anchors it (section 2.2.3 of RFC 9309). */
  ghost predicate RuleMatches(path: Text, pattern: Text) {
    if pattern != [] && pattern[|pattern| - 1] == DOLLAR then Glob(pattern[..|pattern| - 1], path, true)
    else Glob(pattern, path, false)
  }

  /** Not anchored means: some first part of the path matches in full. */
  lemma UnanchoredIsPrefix(pat: Text, path: Text)
    ensures Glob(pat, path, false) <==> exists n :: 0 <= n <= |path| && Glob(pat, path[..n], true)
  {
    if Glob(pat, path, false) {
      var _ := MatchedPart(pat, path);
    }
    if n :| 0 <= n <= |path| && Glob(pat, path[..n], true) {
      PartMatches(pat, path, n);
    }
  }

  lemma {:induction false} MatchedPart(pat: Text, path: Text) returns (n: nat)
    requires Glob(pat, path, false)
    ensures n <= |path| && Glob(pat, path[..n], true)
    decreases |pat|
  {
    if pat == [] {
      n := 0;
    } else if pat[0] == STAR {
      var k: nat :| k <= |path| && Glob(pat[1..], path[k..], false);
      var m := MatchedPart(pat[1..], path[k..]);
      n := k + m;
      assert path[k..][..m] == path[..n][k..];
    } else {
      var m := MatchedPart(pat[1..], path[1..]);
      n := m + 1;
      assert path[..n][1..] == path[1..][..m];
    }
  }

  lemma {:induction false} PartMatches(pat: Text, path: Text, n: nat)
    requires n <= |path| && Glob(pat, path[..n], true)
    ensures Glob(pat, path, false)
    decreases |pat|
  {
    if pat != [] {
      if pat[0] == STAR {
        var k: nat :| k <= n && Glob(pat[1..], path[..n][k..], true);
        assert path[..n][k..] == path[k..][..n - k];
        PartMatches(pat[1..], path[k..], n - k);
      } else {
        assert path[..n][1..] == path[1..][..n - 1];
        PartMatches(pat[1..], path[1..], n - 1);
      }
    }
  }

  // ----- segments

  predicate StarFree(s: Text) {
    forall i | 0 <= i < |s| :: s[i] != STAR
  }

  predicate Segments(segs: seq<Text>) {
    forall i | 0 <= i < |segs| :: StarFree(segs[i])
  }

  /** A star before each segment. */
  function Starred(segs: seq<Text>): Text {
    if segs == [] then [] else [STAR] + (segs[0] + Starred(segs[1..]))
  }

  /** The parts of a pattern between its stars. */
  function Split(pat: Text): (segs: seq<Text>)
    ensures segs != [] && Segments(segs)
    ensures segs[0] + Starred(segs[1..]) == pat
  {
    if pat == [] then [[]]
    else
      var rest := Split(pat[1..]);
      if pat[0] == STAR then [[]] + rest else [[pat[0]] + rest[0]] + rest[1..]
  }

  predicate Starts(s: Text, seg: Text) {
    |seg| <= |s| && s[..|seg|] == seg
  }

  predicate OccursAt(s: Text, seg: Text, i: nat): (b: bool)
    ensures b ==> i + |seg| <= |s|
  {
    i <= |s| && Starts(s[i..], seg)
  }

  /** The segments occur one after another, the last at the end if anchored. */
  ghost predicate Chain(segs: seq<Text>, s: Text, anchored: bool)
    decreases |segs|
  {
    if segs == [] then anchored ==> s == []
    else exists i: nat :: OccursAt(s, segs[0], i) && Chain(segs[1..], s[i + |segs[0]|..], anchored)
  }

  lemma {:induction false} GlobLiteral(seg: Text, pat: Text, s: Text, anchored: bool)
    requires StarFree(seg)
    ensures Glob(seg + pat, s, anchored) <==> Starts(s, seg) && Glob(pat, s[|seg|..], anchored)
    decreases |seg|
  {
    if seg == [] {
      assert seg + pat == pat && s[0..] == s;
    } else {
      var p := seg + pat;
      assert p[0] == seg[0] && p[1..] == seg[1..] + pat;
      if s != [] && s[0] == seg[0] {
        GlobLiteral(seg[1..], pat, s[1..], anchored);
        if Starts(s, seg) {
          assert s[1..][|seg| - 1..] == s[|seg|..];
        }
      }
    }
  }

  lemma ChainIntro(segs: seq<Text>, s: Text, i: nat, anchored: bool)
    requires segs != [] && OccursAt(s, segs[0], i) && Chain(segs[1..], s[i + |segs[0]|..], anchored)
    ensures Chain(segs, s, anchored)
  {
  }

  lemma ChainElim(segs: seq<Text>, s: Text, anchored: bool) returns (i: nat)
    requires segs != [] && Chain(segs, s, anchored)
    ensures OccursAt(s, segs[0], i) && Chain(segs[1..], s[i + |segs[0]|..], anchored)
  {
    i :| OccursAt(s, segs[0], i) && Chain(segs[1..], s[i + |segs[0]|..], anchored);
  }

  lemma {:induction false} GlobIsChain(segs: seq<Text>, s: Text, anchored: bool)
    requires Segments(segs)
    ensures Glob(Starred(segs), s, anchored) <==> Chain(segs, s, anchored)
    decreases |segs|, 1
  {
    if segs != [] {
      var p := Starred(segs);
      assert p[0] == STAR && p[1..] == segs[0] + Starred(segs[1..]);
      if Glob(p, s, anchored) {
        var k: nat :| k <= |s| && Glob(p[1..], s[k..], anchored);
        GlobAt(segs, s, k, anchored);
      }
      if Chain(segs, s, anchored) {
        var k := ChainElim(segs, s, anchored);
        GlobAt(segs, s, k, anchored);
      }
    }
  }

  lemma {:induction false} GlobAt(segs: seq<Text>, s: Text, k: nat, anchored: bool)
    requires segs != [] && Segments(segs) && k <= |s|
    ensures Glob(segs[0] + Starred(segs[1..]), s[k..], anchored)
       <==> OccursAt(s, segs[0], k) && Chain(segs[1..], s[k + |segs[0]|..], anchored)
    decreases |segs|, 0
  {
    GlobLiteral(segs[0], Starred(segs[1..]), s[k..], anchored);
    if OccursAt(s, segs[0], k) {
      assert s[k..][|segs[0]|..] == s[k + |segs[0]|..];
      GlobIsChain(segs[1..], s[k + |segs[0]|..], anchored);
    }
  }

  /** A longer path can only help when the chain begins with a star. */
  lemma ChainGrows(segs: seq<Text>, s: Text, j: nat, anchored: bool)
    requires j <= |s| && Chain(segs, s[j..], anchored) && (segs != [] || !anchored)
    ensures Chain(segs, s, anchored)
  {
    if segs != [] {
      var i: nat :| OccursAt(s[j..], segs[0], i) && Chain(segs[1..], s[j..][i + |segs[0]|..], anchored);
      assert s[j..][i..] == s[j + i..] && s[j..][i + |segs[0]|..] == s[j + i + |segs[0]|..];
      assert OccursAt(s, segs[0], j + i);
    }
  }

  /** The first place where `seg` occurs. */
  function Find(s: Text, seg: Text): (r: Option<nat>)
    ensures r == None ==> forall i: nat :: !OccursAt(s, seg, i)
    ensures r != None ==> OccursAt(s, seg, r.value) && forall i: nat | i < r.value :: !OccursAt(s, seg, i)
    decreases |s|
  {
    if Starts(s, seg) then
      assert s[0..] == s;
      Some(0)
    else if s == [] then None
    else
      assert forall i: nat | 0 < i <= |s| :: s[i..] == s[1..][i - 1..];
      assert forall i: nat | 0 < i :: OccursAt(s, seg, i) <==> OccursAt(s[1..], seg, i - 1);
      assert s[0..] == s;
      var r := Find(s[1..], seg);
      if r == None then None else Some(r.value + 1)
  }

  /** Taking the first occurrence loses nothing unless the segment has to end the path. */
  lemma Greedy(segs: seq<Text>, s: Text, anchored: bool)
    requires segs != [] && (|segs| > 1 || !anchored)
    ensures Chain(segs, s, anchored) <==>
              var f := Find(s, segs[0]); f != None && Chain(segs[1..], s[f.value + |segs[0]|..], anchored)
  {
    hide Chain, OccursAt;
    var f := Find(s, segs[0]);
    if Chain(segs, s, anchored) {
      var i := ChainElim(segs, s, anchored);
      LaterOccurrence(segs[1..], s, f.value + |segs[0]|, i + |segs[0]|, anchored);
    }
    if f != None && Chain(segs[1..], s[f.value + |segs[0]|..], anchored) {
      ChainIntro(segs, s, f.value, anchored);
    }
  }

  lemma LaterOccurrence(segs: seq<Text>, s: Text, a: nat, b: nat, anchored: bool)
    requires a <= b <= |s| && (segs != [] || !anchored) && Chain(segs, s[b..], anchored)
    ensures Chain(segs, s[a..], anchored)
  {
    assert s[a..][b - a..] == s[b..];
    ChainGrows(segs, s[a..], b - a, anchored);
  }

  predicate Ends(s: Text, seg: Text) {
    |seg| <= |s| && s[|s| - |seg|..] == seg
  }

  lemma LastSegment(seg: Text, s: Text)
    ensures Chain([seg], s, true) <==> Ends(s, seg)
  {
    if Ends(s, seg) {
      var i := |s| - |seg|;
      assert s[i..][..|seg|] == seg;
      assert OccursAt(s, seg, i) && s[i + |seg|..] == [];
      assert Chain([seg][1..], s[i + |seg|..], true);
    }
    if Chain([seg], s, true) {
      var i: nat :| OccursAt(s, seg, i) && Chain([seg][1..], s[i + |seg|..], true);
      assert s[i..] == s[i..][..|seg|];
    }
  }

  // ----- matching

  /** Each segment in turn at its first occurrence. */
  method ConsumeMids(rest0: Text, mids: seq<Text>, ghost after: seq<Text>, ghost anchored: bool)
      returns (ok: bool, rest: Text)
    requires after != [] || !anchored
    ensures Chain(mids + after, rest0, anchored) <==> ok && Chain(after, rest, anchored)
  {
    hide Chain;
    rest := rest0;
    assert mids[0..] + after == mids + after;
    for k := 0 to |mids|
      invariant Chain(mids + after, rest0, anchored) <==> Chain(mids[k..] + after, rest, anchored)
    {
      var seg := mids[k];
      ghost var chain := mids[k..] + after;
      assert chain[0] == seg && chain[1..] == mids[k + 1..] + after;
      Greedy(chain, rest, anchored);
      match Find(rest, seg) {
        case Some(i) =>
          rest := rest[i + |seg|..];
        case None =>
          return false, rest;
      }
    }
    assert mids[|mids|..] + after == after;
    ok := true;
  }

  lemma ChainEnd(s: Text, anchored: bool)
    ensures Chain([], s, anchored) <==> (anchored ==> s == [])
  {
  }

  method PathMatches(path: Text, pattern: Text) returns (r: bool)
    ensures r <==> RuleMatches(path, pattern)
  {
    if pattern == [] {
      return true;
    }
    hide Glob, Chain, Starred;
    var anchored := pattern[|pattern| - 1] == DOLLAR;
    var pat := if anchored then pattern[..|pattern| - 1] else pattern;
    var segs := Split(pat);
    GlobLiteral(segs[0], Starred(segs[1..]), path, anchored);
    if !Starts(path, segs[0]) {
      return false;
    }
    var rest := path[|segs[0]|..];
    var mids := segs[1..];
    GlobIsChain(mids, rest, anchored);
    if anchored {
      if mids != [] {
        var last := mids[|mids| - 1];
        var ok;
        assert mids[..|mids| - 1] + [last] == mids;
        ok, rest := ConsumeMids(rest, mids[..|mids| - 1], [last], true);
        LastSegment(last, rest);
        return ok && Ends(rest, last);
      } else {
        ChainEnd(rest, true);
        return rest == [];
      }
    } else {
      assert mids + [] == mids;
      r, rest := ConsumeMids(rest, mids, [], false);
      ChainEnd(rest, false);
    }
  }
}
