/** The parallel vectors of the document arena as one value.
    For each link update of the code there is a function on that value, and what it does to the forest that the
    vectors represent is proved here once. The class only has to perform the updates; its frames and indexes
    stay out of these proofs. */
module Arena {
  import opened Forests

  const MAX_NODES: nat := 20_000
  const TAG_UNKNOWN: nat := 0xFFFF
  const GENERATIONS: nat := 0x1_0000_0000

  datatype Slots = Slots(
    parents: seq<nat>,
    firstChild: seq<nat>,
    lastChild: seq<nat>,
    nextSibling: seq<nat>,
    prevSibling: seq<nat>,
    tagIds: seq<nat>,
    flags: seq<nat>,
    generations: seq<nat>,
    free: seq<nat>,
    rootsHead: nat,
    rootsTail: nat)
  {
    ghost predicate Shape() {
      && |parents| <= MAX_NODES
      && |firstChild| == |lastChild| == |nextSibling| == |prevSibling| == |parents|
      && |tagIds| == |flags| == |generations| == |parents|
      && (forall x | x in free :: x < |parents|)
    }

    ghost predicate Live(x: nat) requires Shape() {
      x < |parents| && flags[x] != 0
    }

    ghost function Head(p: nat): nat requires Shape() && (p == NIL || p < |parents|) {
      if p == NIL then rootsHead else firstChild[p]
    }

    ghost function Tail(p: nat): nat requires Shape() && (p == NIL || p < |parents|) {
      if p == NIL then rootsTail else lastChild[p]
    }

    /** The link cells below `p` spell out the doubly linked list `s`. */
    ghost predicate ListOk(p: nat, s: seq<nat>) requires Shape() && (p == NIL || p < |parents|) {
      && Head(p) == Nth(s, 0)
      && Tail(p) == Nth(s, |s| - 1)
      && forall i {:trigger LinkOk(p, s, i)} | 0 <= i < |s| :: LinkOk(p, s, i)
    }

    ghost predicate LinkOk(p: nat, s: seq<nat>, i: nat) requires Shape() && i < |s| {
      && s[i] < |parents|
      && parents[s[i]] == p
      && nextSibling[s[i]] == Nth(s, i + 1)
      && prevSibling[s[i]] == Nth(s, i - 1)
    }

    /** The vectors represent `f`: its nodes are the live slots, its child lists the linked lists. */
    ghost predicate Rep(f: Forest) requires Shape() {
      && f.Ok()
      && (forall x: nat :: x in f.parent <==> Live(x))
      && (forall p | p in f.kids :: (p == NIL || p < |parents|) && ListOk(p, f.kids[p]))
    }

    /** The free list holds each dead slot once, and nothing else. */
    ghost predicate FreeOk() requires Shape() {
      && Distinct(free)
      && (forall x: nat :: x in free <==> (x < |parents| && flags[x] == 0))
    }

    /** Same place of `x` among its siblings. */
    ghost predicate SamePlace(o: Slots, x: nat) requires Shape() && o.Shape() && x < |parents| && x < |o.parents| {
      && parents[x] == o.parents[x]
      && nextSibling[x] == o.nextSibling[x]
      && prevSibling[x] == o.prevSibling[x]
    }

    /** Same links in slot `x`. */
    ghost predicate SameLinks(o: Slots, x: nat) requires Shape() && o.Shape() && x < |parents| && x < |o.parents| {
      && parents[x] == o.parents[x]
      && firstChild[x] == o.firstChild[x]
      && lastChild[x] == o.lastChild[x]
      && nextSibling[x] == o.nextSibling[x]
      && prevSibling[x] == o.prevSibling[x]
    }
  }

  function Nth(s: seq<nat>, i: int): nat {
    if 0 <= i < |s| then s[i] else NIL
  }

  // ----- linking a new child

  /** Slot `n` (a new one, or one taken off the free list) after it was given its tag and flags and before it is linked. */
  ghost function Filled(s: Slots, n: nat, tag: nat, flags: nat): (t: Slots)
    requires s.Shape() && n <= |s.parents| && |s.parents| < MAX_NODES + (if n < |s.parents| then 1 else 0)
    ensures t.Shape() && n < |t.parents| && |t.parents| == |s.parents| + (if n == |s.parents| then 1 else 0)
  {
    var u := if n == |s.parents|
      then s.(parents := s.parents + [NIL], firstChild := s.firstChild + [NIL], lastChild := s.lastChild + [NIL],
              nextSibling := s.nextSibling + [NIL], prevSibling := s.prevSibling + [NIL],
              tagIds := s.tagIds + [TAG_UNKNOWN], flags := s.flags + [0], generations := s.generations + [0])
      else s;
    u.(firstChild := u.firstChild[n := NIL], lastChild := u.lastChild[n := NIL],
       nextSibling := u.nextSibling[n := NIL], prevSibling := u.prevSibling[n := NIL],
       tagIds := u.tagIds[n := tag], flags := u.flags[n := flags])
  }

  ghost function Linked(s: Slots, p: nat, n: nat): (t: Slots)
    requires s.Shape() && n < |s.parents| && (p == NIL || p < |s.parents|)
    requires s.Tail(p) == NIL || s.Tail(p) < |s.parents|
    ensures t.Shape() && |t.parents| == |s.parents|
  {
    var last := s.Tail(p);
    var a := s.(parents := s.parents[n := p]);
    var b := if last == NIL
      then (if p == NIL then a.(rootsHead := n) else a.(firstChild := a.firstChild[p := n]))
      else a.(nextSibling := a.nextSibling[last := n], prevSibling := a.prevSibling[n := last]);
    if p == NIL then b.(rootsTail := n) else b.(lastChild := b.lastChild[p := n])
  }

  /** A list survives any change outside its own cells. */
  lemma ListFrame(s: Slots, t: Slots, q: nat, k: seq<nat>)
    requires s.Shape() && t.Shape() && |s.parents| <= |t.parents|
    requires (q == NIL || q < |s.parents|) && s.ListOk(q, k)
    requires t.Head(q) == s.Head(q) && t.Tail(q) == s.Tail(q)
    requires forall x | x in k :: x < |s.parents| && t.SamePlace(s, x)
    ensures t.ListOk(q, k)
  {
    forall i | 0 <= i < |k| ensures t.LinkOk(q, k, i) {
      assert s.LinkOk(q, k, i) && k[i] in k;
    }
  }

  lemma FilledFrame(s: Slots, n: nat, tag: nat, flags: nat, x: nat)
    requires s.Shape() && n <= |s.parents| && |s.parents| < MAX_NODES + (if n < |s.parents| then 1 else 0)
    requires x < |s.parents| && x != n
    ensures var t := Filled(s, n, tag, flags);
      && t.SameLinks(s, x) && t.flags[x] == s.flags[x] && t.tagIds[x] == s.tagIds[x] && t.generations[x] == s.generations[x]
  {
  }

  ghost predicate CanPush(s: Slots, n: nat) requires s.Shape() {
    n <= |s.parents| && |s.parents| < MAX_NODES + (if n < |s.parents| then 1 else 0)
  }

  /** Filling a dead slot disturbs no list. */
  lemma FilledLists(s: Slots, f: Forest, n: nat, tag: nat, flags: nat, q: nat)
    requires s.Shape() && s.Rep(f) && q in f.kids && n !in f.kids && CanPush(s, n)
    ensures q == NIL || q < |s.parents|
    ensures var t := Filled(s, n, tag, flags);
      t.ListOk(q, f.kids[q]) && t.Head(q) == s.Head(q) && t.Tail(q) == s.Tail(q)
  {
    var t := Filled(s, n, tag, flags);
    if q != NIL {
      FilledFrame(s, n, tag, flags, q);
    }
    forall x | x in f.kids[q] ensures t.SamePlace(s, x) {
      FilledFrame(s, n, tag, flags, x);
    }
    ListFrame(s, t, q, f.kids[q]);
  }

  lemma LinkParentList(t: Slots, p: nat, n: nat, k: seq<nat>)
    requires t.Shape() && n < |t.parents| && (p == NIL || p < |t.parents|) && p != n
    requires t.ListOk(p, k) && Distinct(k) && n !in k && NIL !in k
    requires t.prevSibling[n] == t.nextSibling[n] == NIL
    ensures t.Tail(p) == NIL || t.Tail(p) < |t.parents|
    ensures Linked(t, p, n).ListOk(p, k + [n])
  {
    if k != [] {
      assert t.LinkOk(p, k, |k| - 1) && k[|k| - 1] in k;
    }
    var u := Linked(t, p, n);
    forall i | 0 <= i < |k| + 1 ensures u.LinkOk(p, k + [n], i) {
      if i < |k| {
        assert t.LinkOk(p, k, i) && k[i] in k;
      }
    }
  }

  lemma LinkOtherList(t: Slots, p: nat, n: nat, q: nat, k: seq<nat>)
    requires t.Shape() && n < |t.parents| && (p == NIL || p < |t.parents|) && p != n
    requires (q == NIL || q < |t.parents|) && q != p && q != n
    requires t.Tail(p) == NIL || t.Tail(p) < |t.parents|
    requires t.ListOk(q, k) && n !in k && t.Tail(p) !in k
    ensures Linked(t, p, n).ListOk(q, k)
  {
    var u := Linked(t, p, n);
    forall x | x in k ensures x < |t.parents| && u.SamePlace(t, x) {
      var i :| 0 <= i < |k| && k[i] == x;
      assert t.LinkOk(q, k, i);
    }
    ListFrame(t, u, q, k);
  }

  /** Slot `n` is filled but not linked yet; everything else represents `f`. */
  ghost predicate Ready(t: Slots, f: Forest, n: nat) requires t.Shape() {
    && f.Ok() && n !in f.kids && n < |t.parents| && t.flags[n] != 0
    && t.firstChild[n] == t.lastChild[n] == t.nextSibling[n] == t.prevSibling[n] == NIL
    && (forall x: nat :: x in f.parent <==> t.Live(x) && x != n)
    && (forall p | p in f.kids :: (p == NIL || p < |t.parents|) && t.ListOk(p, f.kids[p]))
  }

  lemma FilledReady(s: Slots, f: Forest, n: nat, tag: nat, flags: nat)
    requires s.Shape() && s.Rep(f) && CanPush(s, n)
    requires n < |s.parents| ==> s.flags[n] == 0
    requires flags != 0
    ensures Ready(Filled(s, n, tag, flags), f, n)
  {
    var t := Filled(s, n, tag, flags);
    assert n !in f.kids by { assert !s.Live(n); }
    forall p | p in f.kids ensures (p == NIL || p < |t.parents|) && t.ListOk(p, f.kids[p]) {
      FilledLists(s, f, n, tag, flags, p);
    }
    forall x: nat ensures x in f.parent <==> t.Live(x) && x != n {
      if x < |s.parents| && x != n {
        FilledFrame(s, n, tag, flags, x);
      }
    }
  }

  lemma ReadyMembers(t: Slots, f: Forest, n: nat, q: nat)
    requires t.Shape() && Ready(t, f, n) && q in f.kids
    ensures q == NIL || q < |t.parents|
    ensures t.ListOk(q, f.kids[q]) && Distinct(f.kids[q])
    ensures n !in f.kids[q] && NIL !in f.kids[q]
    ensures forall x | x in f.kids[q] :: x < |t.parents| && x in f.parent && f.parent[x] == q
    ensures t.Tail(q) == NIL || t.Tail(q) in f.kids[q]
  {
    var k := f.kids[q];
    assert f.Own(q, k);
    if k != [] {
      assert k[|k| - 1] in k;
    }
  }

  /** Linking slot `n` below `p` represents the forest with `n` as `p`'s new last child. */
  lemma LinkRep(t: Slots, f: Forest, p: nat, n: nat)
    requires t.Shape() && Ready(t, f, n) && p in f.kids
    ensures p == NIL || p < |t.parents|
    ensures t.Tail(p) == NIL || t.Tail(p) < |t.parents|
    ensures Linked(t, p, n).Rep(AddLeaf(f, p, n))
  {
    ReadyMembers(t, f, n, p);
    AddLeafOk(f, p, n);
    LinkRepLive(t, f, p, n);
    forall q | q in AddLeaf(f, p, n).kids
      ensures (q == NIL || q < |t.parents|) && Linked(t, p, n).ListOk(q, AddLeaf(f, p, n).kids[q])
    {
      LinkRepAll(t, f, p, n, q);
    }
  }

  lemma LinkRepLive(t: Slots, f: Forest, p: nat, n: nat)
    requires t.Shape() && Ready(t, f, n) && p in f.kids
    requires p == NIL || p < |t.parents|
    requires t.Tail(p) == NIL || t.Tail(p) < |t.parents|
    ensures forall x: nat :: x in AddLeaf(f, p, n).parent <==> Linked(t, p, n).Live(x)
  {
    var u := Linked(t, p, n);
    assert u.flags == t.flags;
    forall x: nat ensures x in AddLeaf(f, p, n).parent <==> u.Live(x) {
      assert u.Live(x) <==> t.Live(x);
    }
  }

  lemma LinkRepAll(t: Slots, f: Forest, p: nat, n: nat, q: nat)
    requires t.Shape() && Ready(t, f, n) && p in f.kids && q in AddLeaf(f, p, n).kids
    requires p == NIL || p < |t.parents|
    requires t.Tail(p) == NIL || t.Tail(p) < |t.parents|
    ensures q == NIL || q < |t.parents|
    ensures Linked(t, p, n).ListOk(q, AddLeaf(f, p, n).kids[q])
  {
    ReadyMembers(t, f, n, p);
    if q == p {
      LinkParentList(t, p, n, f.kids[p]);
    } else if q == n {
      LinkRepLeaf(t, p, n);
    } else {
      LinkRepOther(t, f, p, n, q);
    }
  }

  lemma LinkRepLeaf(t: Slots, p: nat, n: nat)
    requires t.Shape() && n < |t.parents| && (p == NIL || p < |t.parents|) && p != n && n != NIL
    requires t.Tail(p) == NIL || (t.Tail(p) < |t.parents| && t.Tail(p) != n)
    requires t.firstChild[n] == t.lastChild[n] == t.prevSibling[n] == NIL
    ensures var u := Linked(t, p, n);
      u.ListOk(n, []) && |u.parents| == |t.parents| && u.flags == t.flags
  {
  }

  lemma LinkRepOther(t: Slots, f: Forest, p: nat, n: nat, q: nat)
    requires t.Shape() && Ready(t, f, n) && p in f.kids && q in f.kids && q != p && q != n
    requires p == NIL || p < |t.parents|
    requires t.Tail(p) == NIL || t.Tail(p) < |t.parents|
    ensures q == NIL || q < |t.parents|
    ensures Linked(t, p, n).ListOk(q, f.kids[q])
  {
    ReadyMembers(t, f, n, p);
    ReadyMembers(t, f, n, q);
    LinkOtherList(t, p, n, q, f.kids[q]);
  }

  // ----- unlinking

  ghost function Unlinked(s: Slots, n: nat): (t: Slots)
    requires s.Shape() && n < |s.parents|
    requires s.prevSibling[n] == NIL || s.prevSibling[n] < |s.parents|
    requires s.nextSibling[n] == NIL || s.nextSibling[n] < |s.parents|
    requires s.parents[n] == NIL || s.parents[n] < |s.parents|
    ensures t.Shape() && |t.parents| == |s.parents|
  {
    var prev, next, p := s.prevSibling[n], s.nextSibling[n], s.parents[n];
    var a := if prev != NIL then s.(nextSibling := s.nextSibling[prev := next])
             else if p == NIL then s.(rootsHead := next) else s.(firstChild := s.firstChild[p := next]);
    var b := if next != NIL then a.(prevSibling := a.prevSibling[next := prev])
             else if p == NIL then a.(rootsTail := prev) else a.(lastChild := a.lastChild[p := prev]);
    b.(prevSibling := b.prevSibling[n := NIL], nextSibling := b.nextSibling[n := NIL])
  }

  /** Where a live node sits, and what its cells say there. */
  lemma Placed(s: Slots, f: Forest, n: nat) returns (i: nat)
    requires s.Shape() && s.Rep(f) && n in f.parent
    ensures n < |s.parents| && n != NIL && f.parent[n] in f.kids
    ensures i < |f.kids[f.parent[n]]| && f.kids[f.parent[n]][i] == n
    ensures CanUnlink(s, n, f.parent[n])
    ensures s.nextSibling[n] == Nth(f.kids[f.parent[n]], i + 1)
    ensures s.prevSibling[n] == Nth(f.kids[f.parent[n]], i - 1)
  {
    assert s.Live(n);
    var p := f.parent[n];
    var k := f.kids[p];
    i :| 0 <= i < |k| && k[i] == n;
    assert s.ListOk(p, k);
    assert s.LinkOk(p, k, i);
    if i + 1 < |k| { assert s.LinkOk(p, k, i + 1); }
    if i > 0 { assert s.LinkOk(p, k, i - 1); }
  }

  ghost predicate CanUnlink(s: Slots, n: nat, p: nat) requires s.Shape() {
    && n < |s.parents| && s.parents[n] == p && (p == NIL || p < |s.parents|)
    && (s.prevSibling[n] == NIL || s.prevSibling[n] < |s.parents|)
    && (s.nextSibling[n] == NIL || s.nextSibling[n] < |s.parents|)
  }

  lemma UnlinkParentLink(s: Slots, p: nat, n: nat, k: seq<nat>, i: nat, j: nat)
    requires s.Shape() && CanUnlink(s, n, p) && p != n
    requires s.ListOk(p, k) && Distinct(k) && i < |k| && k[i] == n
    requires i > 0 ==> k[i - 1] != NIL
    requires i + 1 < |k| ==> k[i + 1] != NIL
    requires j < |k| && j != i && k[j] != NIL
    ensures k[j] < |s.parents|
    ensures var t := Unlinked(s, n);
      && t.parents[k[j]] == p
      && t.nextSibling[k[j]] == (if j + 1 == i then Nth(k, i + 1) else Nth(k, j + 1))
      && t.prevSibling[k[j]] == (if j == i + 1 then Nth(k, i - 1) else Nth(k, j - 1))
  {
    assert s.LinkOk(p, k, i) && s.LinkOk(p, k, j);
  }

  lemma NthWithout(k: seq<nat>, i: nat, j: int)
    requires i < |k| && -1 <= j
    ensures Nth(k[..i] + k[i + 1..], j) == Nth(k, if j < i then j else j + 1)
  {
  }

  lemma UnlinkParentAt(s: Slots, p: nat, n: nat, k: seq<nat>, i: nat, j: nat)
    requires s.Shape() && CanUnlink(s, n, p) && p != n
    requires s.ListOk(p, k) && Distinct(k) && NIL !in k && i < |k| && k[i] == n
    requires j < |k| - 1
    ensures Unlinked(s, n).LinkOk(p, k[..i] + k[i + 1..], j)
  {
    var o := if j < i then j else j + 1;
    assert k[o] in k;
    assert i > 0 ==> k[i - 1] in k;
    assert i + 1 < |k| ==> k[i + 1] in k;
    UnlinkParentLink(s, p, n, k, i, o);
    NthWithout(k, i, j);
    NthWithout(k, i, j + 1);
    NthWithout(k, i, j - 1);
  }

  lemma UnlinkParentEnds(s: Slots, p: nat, n: nat, k: seq<nat>, i: nat)
    requires s.Shape() && CanUnlink(s, n, p) && p != n
    requires s.ListOk(p, k) && NIL !in k && i < |k| && k[i] == n
    ensures Unlinked(s, n).Head(p) == Nth(k[..i] + k[i + 1..], 0)
    ensures Unlinked(s, n).Tail(p) == Nth(k[..i] + k[i + 1..], |k| - 2)
  {
    assert s.LinkOk(p, k, i);
    assert i > 0 ==> k[i - 1] in k;
    assert i + 1 < |k| ==> k[i + 1] in k;
    NthWithout(k, i, 0);
    if |k| > 1 {
      NthWithout(k, i, |k| - 2);
    }
  }

  lemma UnlinkParentList(s: Slots, p: nat, n: nat, k: seq<nat>, i: nat)
    requires s.Shape() && CanUnlink(s, n, p) && p != n
    requires s.ListOk(p, k) && Distinct(k) && NIL !in k && i < |k| && k[i] == n
    ensures Unlinked(s, n).ListOk(p, k[..i] + k[i + 1..])
  {
    var m := k[..i] + k[i + 1..];
    UnlinkParentEnds(s, p, n, k, i);
    forall j {:trigger m[j]} | 0 <= j < |m| ensures Unlinked(s, n).LinkOk(p, m, j) {
      UnlinkParentAt(s, p, n, k, i, j);
    }
  }

  lemma UnlinkOtherList(s: Slots, p: nat, n: nat, q: nat, k: seq<nat>)
    requires s.Shape() && CanUnlink(s, n, p) && p != n
    requires (q == NIL || q < |s.parents|) && q != p
    requires s.ListOk(q, k) && n !in k && s.prevSibling[n] !in k && s.nextSibling[n] !in k
    ensures Unlinked(s, n).ListOk(q, k)
  {
    var t := Unlinked(s, n);
    forall x | x in k ensures x < |s.parents| && t.SamePlace(s, x) {
      var j :| 0 <= j < |k| && k[j] == x;
      assert s.LinkOk(q, k, j);
    }
    ListFrame(s, t, q, k);
  }

  /** After `n` is unlinked its parent's list has lost exactly `n`; every other list is as it was. */
  lemma UnlinkLists(s: Slots, f: Forest, n: nat, q: nat)
    requires s.Shape() && s.Rep(f) && n in f.parent && q in f.kids
    ensures n < |s.parents| && CanUnlink(s, n, f.parent[n]) && (q == NIL || q < |s.parents|)
    ensures Unlinked(s, n).ListOk(q, if q == f.parent[n] then Without(f.kids[q], n) else f.kids[q])
  {
    var i := Placed(s, f, n);
    var p := f.parent[n];
    var h := f.kids[p];
    assert f.Own(p, h) && f.Own(q, f.kids[q]) && s.ListOk(q, f.kids[q]) && s.ListOk(p, h);
    if q == p {
      WithoutAt(h, i);
      UnlinkParentList(s, p, n, h, i);
    } else {
      assert i + 1 < |h| ==> h[i + 1] in h;
      assert i > 0 ==> h[i - 1] in h;
      UnlinkOtherList(s, p, n, q, f.kids[q]);
    }
  }

  // ----- freeing

  ghost function Freed(s: Slots, n: nat): (t: Slots)
    requires s.Shape() && n < |s.parents|
    ensures t.Shape() && |t.parents| == |s.parents|
  {
    s.(generations := s.generations[n := (s.generations[n] + 1) % GENERATIONS],
       flags := s.flags[n := 0], tagIds := s.tagIds[n := TAG_UNKNOWN],
       parents := s.parents[n := NIL], firstChild := s.firstChild[n := NIL], lastChild := s.lastChild[n := NIL],
       nextSibling := s.nextSibling[n := NIL], prevSibling := s.prevSibling[n := NIL],
       free := s.free + [n])
  }

  ghost predicate InRange(s: Slots, ids: seq<nat>) {
    forall i | 0 <= i < |ids| :: ids[i] < |s.parents|
  }

  ghost function FreedAll(s: Slots, ids: seq<nat>): (t: Slots)
    requires s.Shape() && InRange(s, ids)
    ensures t.Shape() && |t.parents| == |s.parents|
  {
    if ids == [] then s
    else
      var u := FreedAll(s, ids[..|ids| - 1]);
      Freed(u, ids[|ids| - 1])
  }

  lemma {:induction false} FreedAllCells(s: Slots, ids: seq<nat>, x: nat)
    requires s.Shape() && InRange(s, ids) && Distinct(ids)
    requires x < |s.parents|
    ensures var t := FreedAll(s, ids);
      && t.free == s.free + ids
      && t.rootsHead == s.rootsHead && t.rootsTail == s.rootsTail
      && t.flags[x] == (if x in ids then 0 else s.flags[x])
      && t.tagIds[x] == (if x in ids then TAG_UNKNOWN else s.tagIds[x])
      && t.generations[x] == (if x in ids then (s.generations[x] + 1) % GENERATIONS else s.generations[x])
      && (x !in ids ==> t.SameLinks(s, x))
  {
    if ids != [] {
      var u, e := ids[..|ids| - 1], ids[|ids| - 1];
      FreedAllCells(s, u, x);
      assert ids == u + [e];
      assert e !in u;
    }
  }
}
