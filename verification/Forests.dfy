/** The shape of a document as a mathematical forest: who the children of each node are, in order. */
module Forests {

  /** The pseudo-node that stands for the document itself and owns the roots. */
  const NIL: nat := 0xFFFF_FFFF

  /** Every node carries a birth time later than its parent's, which is what makes every walk finite. */
  datatype Forest = Forest(
    kids: map<nat, seq<nat>>,
    parent: map<nat, nat>,
    birth: map<nat, nat>,
    clock: nat)
  {
    ghost predicate Ok() {
      && NIL in kids
      && (forall n :: n in kids <==> n in birth)
      && (forall n | n in kids && n != NIL :: n in parent)
      && (forall n | n in parent :: n in kids && n != NIL)
      && (forall n | n in birth :: birth[n] < clock)
      && (forall n {:trigger parent[n]} | n in parent :: parent[n] in kids && birth[parent[n]] < birth[n] && n in kids[parent[n]])
      && (forall p | p in kids :: Distinct(kids[p]) && Own(p, kids[p]))
    }

    ghost predicate Own(p: nat, s: seq<nat>) {
      forall x | x in s :: x in parent && parent[x] == p
    }

    /** `r` is `x` or is met on the way from `x` up through the parents. */
    ghost predicate Anc(r: nat, x: nat)
      requires Ok() && x in kids
      decreases birth[x]
    {
      x == r || (x != NIL && Anc(r, parent[x]))
    }

    /** The events of a depth-first traversal of the subtree at `n`. */
    ghost function Walk(n: nat): (w: seq<Event>)
      requires Ok() && n in kids
      decreases clock - birth[n], 1, 0
    {
      [Enter(n)] + WalkList(n, kids[n]) + [Exit(n)]
    }

    ghost function WalkList(n: nat, s: seq<nat>): (w: seq<Event>)
      requires Ok() && n in kids
      requires Own(n, s)
      decreases clock - birth[n], 0, |s|
    {
      if s == [] then [] else Walk(s[0]) + WalkList(n, s[1..])
    }

    ghost function Subtree(n: nat): (s: set<nat>)
      requires Ok() && n in kids
    {
      set x | x in kids && Anc(n, x)
    }
  }

  datatype Event = Enter(id: nat) | Exit(id: nat)

  ghost predicate Distinct<T>(s: seq<T>) {
    forall i, j | 0 <= i < j < |s| :: s[i] != s[j]
  }

  // ----- ancestors

  lemma {:induction false} AncTrans(f: Forest, a: nat, b: nat, x: nat)
    requires f.Ok() && x in f.kids && b in f.kids
    requires f.Anc(a, b) && f.Anc(b, x)
    ensures f.Anc(a, x)
    decreases f.birth[x]
  {
    if x != b {
      AncTrans(f, a, b, f.parent[x]);
    }
  }

  lemma {:induction false} AncBirth(f: Forest, a: nat, x: nat)
    requires f.Ok() && x in f.kids && f.Anc(a, x)
    ensures a in f.kids && f.birth[a] <= f.birth[x]
    ensures a != x ==> f.birth[a] < f.birth[x]
    decreases f.birth[x]
  {
    if x != a {
      AncBirth(f, a, f.parent[x]);
    }
  }

  /** The ancestors of one node form a chain. */
  lemma {:induction false} AncLinear(f: Forest, a: nat, b: nat, x: nat)
    requires f.Ok() && x in f.kids && a in f.kids && b in f.kids
    requires f.Anc(a, x) && f.Anc(b, x)
    ensures f.Anc(a, b) || f.Anc(b, a)
    decreases f.birth[x]
  {
    if x != a && x != b {
      AncLinear(f, a, b, f.parent[x]);
    }
  }

  lemma {:induction false} RootIsAncestor(f: Forest, x: nat)
    requires f.Ok() && x in f.kids
    ensures f.Anc(NIL, x)
    decreases f.birth[x]
  {
    if x != NIL {
      RootIsAncestor(f, f.parent[x]);
    }
  }

  /** Different children of one node have disjoint subtrees. */
  lemma SiblingsDisjoint(f: Forest, a: nat, b: nat, x: nat)
    requires f.Ok() && x in f.kids && a in f.parent && b in f.parent
    requires f.parent[a] == f.parent[b] && a != b
    requires f.Anc(a, x)
    ensures !f.Anc(b, x)
  {
    if f.Anc(b, x) {
      AncLinear(f, a, b, x);
      if f.Anc(a, b) {
        AncBirth(f, a, f.parent[b]);
      } else {
        AncBirth(f, b, f.parent[a]);
      }
    }
  }

  // ----- walks

  lemma {:induction false} WalkListSplit(f: Forest, n: nat, s: seq<nat>, t: seq<nat>)
    requires f.Ok() && n in f.kids
    requires f.Own(n, s)
    requires f.Own(n, t)
    ensures f.Own(n, s + t)
    ensures f.WalkList(n, s + t) == f.WalkList(n, s) + f.WalkList(n, t)
    decreases |s|
  {
    if s == [] {
      assert s + t == t;
    } else {
      assert (s + t)[0] == s[0] && (s + t)[1..] == s[1..] + t;
      WalkListSplit(f, n, s[1..], t);
      assert f.WalkList(n, s) == f.Walk(s[0]) + f.WalkList(n, s[1..]);
      assert f.WalkList(n, s + t) == f.Walk(s[0]) + f.WalkList(n, s[1..] + t);
      hide *;
      Assoc(f.Walk(s[0]), f.WalkList(n, s[1..]), f.WalkList(n, t));
    }
  }

  /** Every event of a walk belongs to the subtree walked. */
  lemma {:induction false} WalkSound(f: Forest, n: nat, e: Event)
    requires f.Ok() && n in f.kids && e in f.Walk(n)
    ensures e.id in f.kids && f.Anc(n, e.id)
    decreases f.clock - f.birth[n], 1, 0
  {
    if e.id != n {
      assert e in f.WalkList(n, f.kids[n]);
      var c := WalkListSound(f, n, f.kids[n], e);
    }
  }

  lemma {:induction false} WalkListSound(f: Forest, n: nat, s: seq<nat>, e: Event) returns (c: nat)
    requires f.Ok() && n in f.kids
    requires f.Own(n, s)
    requires e in f.WalkList(n, s)
    ensures c in s && e in f.Walk(c)
    ensures e.id in f.kids && f.Anc(c, e.id) && f.Anc(n, e.id)
    decreases f.clock - f.birth[n], 0, |s|
  {
    if e in f.Walk(s[0]) {
      c := s[0];
      WalkSound(f, c, e);
      AncTrans(f, n, c, e.id);
    } else {
      c := WalkListSound(f, n, s[1..], e);
    }
  }

  /** `t` occurs in `s` from position `k` on. */
  ghost predicate At<T>(s: seq<T>, k: nat, t: seq<T>) {
    k + |t| <= |s| && forall i | 0 <= i < |t| :: s[k + i] == t[i]
  }

  lemma AtTrans<T>(s: seq<T>, k: nat, t: seq<T>, o: nat, u: seq<T>)
    requires At(s, k, t) && At(t, o, u)
    ensures At(s, k + o, u)
  {
    forall i | 0 <= i < |u| ensures s[k + o + i] == u[i] {
      assert s[k + (o + i)] == t[o + i];
    }
  }

  lemma AtInside<T>(w: seq<T>, e: seq<T>, l: seq<T>, a: seq<T>, t: seq<T>, b: seq<T>, c: seq<T>)
    requires l == a + (t + b) && w == e + l + c
    ensures At(w, |e| + |a|, t)
  {
  }

  lemma WalkListAround(f: Forest, p: nat, s: seq<nat>, i: nat) returns (a: seq<Event>, b: seq<Event>)
    requires f.Ok() && p in f.kids && i < |s|
    requires f.Own(p, s)
    ensures s[i] in s
    ensures f.WalkList(p, s) == a + (f.Walk(s[i]) + b)
  {
    var t := s[i..];
    assert s == s[..i] + t && t[0] == s[i];
    WalkListSplit(f, p, s[..i], t);
    a, b := f.WalkList(p, s[..i]), f.WalkList(p, t[1..]);
  }

  lemma WalkOfChild(f: Forest, p: nat, i: nat) returns (o: nat)
    requires f.Ok() && p in f.kids && i < |f.kids[p]|
    ensures At(f.Walk(p), o, f.Walk(f.kids[p][i]))
  {
    var s := f.kids[p];
    var a, b := WalkListAround(f, p, s, i);
    AtInside(f.Walk(p), [Enter(p)], f.WalkList(p, s), a, f.Walk(s[i]), b, [Exit(p)]);
    o := 1 + |a|;
  }

  /** The walk of a descendant is a contiguous stretch of its ancestor's walk. */
  lemma {:induction false} WalkInfix(f: Forest, r: nat, x: nat) returns (k: nat)
    requires f.Ok() && x in f.kids && r in f.kids && f.Anc(r, x)
    ensures At(f.Walk(r), k, f.Walk(x))
    decreases f.birth[x]
  {
    if x == r {
      k := 0;
    } else {
      var p := f.parent[x];
      var k' := WalkInfix(f, r, p);
      var i :| 0 <= i < |f.kids[p]| && f.kids[p][i] == x;
      var o := WalkOfChild(f, p, i);
      AtTrans(f.Walk(r), k', f.Walk(p), o, f.Walk(x));
      k := k' + o;
    }
  }

  /** A walk visits the whole subtree. */
  lemma WalkComplete(f: Forest, r: nat, x: nat)
    requires f.Ok() && x in f.kids && r in f.kids && f.Anc(r, x)
    ensures Enter(x) in f.Walk(r) && Exit(x) in f.Walk(r)
  {
    var k := WalkInfix(f, r, x);
    var w := f.Walk(x);
    assert w[0] == Enter(x) && w[|w| - 1] == Exit(x);
    assert f.Walk(r)[k + 0] == w[0] && f.Walk(r)[k + (|w| - 1)] == w[|w| - 1];
  }

  lemma DistinctAppend<T>(s: seq<T>, t: seq<T>)
    requires Distinct(s) && Distinct(t)
    requires forall e | e in s :: e !in t
    ensures Distinct(s + t)
  {
    forall i, j | 0 <= i < j < |s + t| ensures (s + t)[i] != (s + t)[j] {
      if i < |s| <= j {
        assert s[i] in s && t[j - |s|] in t;
      }
    }
  }

  /** A walk enters and leaves each node once. */
  lemma {:induction false} WalkDistinct(f: Forest, n: nat)
    requires f.Ok() && n in f.kids
    ensures Distinct(f.Walk(n))
    decreases f.clock - f.birth[n], 1, 0
  {
    var s := f.kids[n];
    var w := f.WalkList(n, s);
    WalkListDistinct(f, n, s);
    forall e | e in w ensures e.id != n {
      var c := WalkListSound(f, n, s, e);
      AncBirth(f, c, e.id);
    }
    DistinctAppend([Enter(n)], w);
    DistinctAppend([Enter(n)] + w, [Exit(n)]);
  }

  lemma {:induction false} WalkListDistinct(f: Forest, n: nat, s: seq<nat>)
    requires f.Ok() && n in f.kids
    requires f.Own(n, s)
    requires Distinct(s)
    ensures Distinct(f.WalkList(n, s))
    decreases f.clock - f.birth[n], 0, |s|
  {
    if s != [] {
      WalkDistinct(f, s[0]);
      WalkListDistinct(f, n, s[1..]);
      forall e | e in f.Walk(s[0]) ensures e !in f.WalkList(n, s[1..]) {
        if e in f.WalkList(n, s[1..]) {
          var c := WalkListSound(f, n, s[1..], e);
          WalkSound(f, s[0], e);
          assert s[0] != c;
          SiblingsDisjoint(f, s[0], c, e.id);
        }
      }
      DistinctAppend(f.Walk(s[0]), f.WalkList(n, s[1..]));
    }
  }

  /** The interval criterion. When `a`, `b` are the positions at which the walk of the whole document
      enters and leaves `r`, and `c`, `d` those for `x`, nesting of the intervals decides ancestry. */
  lemma IntervalsDecideAncestry(f: Forest, r: nat, a: nat, b: nat, x: nat, c: nat, d: nat)
    requires f.Ok() && r in f.kids && x in f.kids
    requires EventAt(f, a, Enter(r)) && EventAt(f, b, Exit(r))
    requires EventAt(f, c, Enter(x)) && EventAt(f, d, Exit(x))
    ensures (a <= c && d <= b) <==> f.Anc(r, x)
  {
    var kr := Block(f, a, b, r);
    var kx := Block(f, c, d, x);
    if a <= c && d <= b {
      assert f.Walk(NIL)[kr + (c - kr)] == f.Walk(r)[c - kr];
      WalkSound(f, r, Enter(x));
    }
    if f.Anc(r, x) {
      InsideBlock(f, r, kr, Enter(x), c);
      InsideBlock(f, r, kr, Exit(x), d);
    }
  }

  ghost predicate EventAt(f: Forest, k: nat, e: Event)
    requires f.Ok()
  {
    k < |f.Walk(NIL)| && f.Walk(NIL)[k] == e
  }

  lemma InsideBlock(f: Forest, r: nat, k: nat, e: Event, c: nat)
    requires f.Ok() && r in f.kids && e.id in f.kids && f.Anc(r, e.id)
    requires At(f.Walk(NIL), k, f.Walk(r)) && EventAt(f, c, e)
    ensures k <= c < k + |f.Walk(r)|
  {
    WalkComplete(f, r, e.id);
    var i :| 0 <= i < |f.Walk(r)| && f.Walk(r)[i] == e;
    assert f.Walk(NIL)[k + i] == e;
    WalkDistinct(f, NIL);
  }

  /** In the walk of the document, a node's stretch starts at its enter event and ends at its exit event. */
  lemma Block(f: Forest, a: nat, b: nat, r: nat) returns (k: nat)
    requires f.Ok() && r in f.kids
    requires EventAt(f, a, Enter(r)) && EventAt(f, b, Exit(r))
    ensures k == a && b == a + |f.Walk(r)| - 1 && a < b
    ensures At(f.Walk(NIL), k, f.Walk(r))
  {
    var w := f.Walk(NIL);
    RootIsAncestor(f, r);
    WalkDistinct(f, NIL);
    k := WalkInfix(f, NIL, r);
    var m := |f.Walk(r)|;
    assert f.Walk(r)[0] == Enter(r) && f.Walk(r)[m - 1] == Exit(r);
    assert w[k + 0] == Enter(r) && w[k + (m - 1)] == Exit(r);
  }

  // ----- numbering by an explicit stack

  /** The events that a stack of unfinished business still stands for, top of the stack first. A frame is a
      node to walk, or (true) a node whose subtree is done and whose exit is due. */
  ghost function Pending(f: Forest, stack: seq<(nat, bool)>): (w: seq<Event>)
    requires f.Ok() && InForest(f, stack)
  {
    if stack == [] then []
    else
      var top := stack[|stack| - 1];
      (if top.1 then [Exit(top.0)] else f.Walk(top.0)) + Pending(f, stack[..|stack| - 1])
  }

  ghost predicate InForest(f: Forest, stack: seq<(nat, bool)>) {
    forall i | 0 <= i < |stack| :: stack[i].0 in f.kids
  }

  /** Siblings as frames, the first sibling on top. */
  function Frames(kids: seq<nat>): (s: seq<(nat, bool)>)
    ensures |s| == |kids|
  {
    if kids == [] then [] else Frames(kids[1..]) + [(kids[0], false)]
  }

  lemma {:induction false} PendingFrames(f: Forest, stack: seq<(nat, bool)>, n: nat, kids: seq<nat>)
    requires f.Ok() && InForest(f, stack) && n in f.kids && f.Own(n, kids)
    ensures InForest(f, stack + Frames(kids))
    ensures Pending(f, stack + Frames(kids)) == f.WalkList(n, kids) + Pending(f, stack)
    decreases |kids|
  {
    WalkListDef(f, n, kids);
    if kids == [] {
      assert stack + Frames(kids) == stack;
    } else {
      var k, more := kids[0], kids[1..];
      PendingFrames(f, stack, n, more);
      assert Frames(kids) == Frames(more) + [(k, false)];
      hide *;
      Assoc(stack, Frames(more), [(k, false)]);
      Assoc(f.Walk(k), f.WalkList(n, more), Pending(f, stack));
    }
  }

  /** Entering a node trades its frame for its exit and, above it, its children. */
  lemma PendingEnter(f: Forest, stack: seq<(nat, bool)>, n: nat)
    requires f.Ok() && InForest(f, stack) && n in f.kids
    ensures InForest(f, stack + [(n, false)]) && InForest(f, stack + [(n, true)] + Frames(f.kids[n]))
    ensures Pending(f, stack + [(n, false)])
         == [Enter(n)] + Pending(f, stack + [(n, true)] + Frames(f.kids[n]))
  {
    assert f.Own(n, f.kids[n]);
    PendingFrames(f, stack + [(n, true)], n, f.kids[n]);
    assert f.Walk(n) == [Enter(n)] + f.WalkList(n, f.kids[n]) + [Exit(n)];
    hide *;
    RegroupFour([Enter(n)], f.WalkList(n, f.kids[n]), [Exit(n)], Pending(f, stack));
    Assoc(f.WalkList(n, f.kids[n]), [Exit(n)], Pending(f, stack));
  }

  lemma Assoc<T>(a: seq<T>, b: seq<T>, c: seq<T>)
    ensures a + (b + c) == (a + b) + c
  {
  }

  /** The walk holds two events a node. */
  lemma WalkLength(f: Forest, n: nat)
    requires f.Ok() && forall x | x in f.parent :: x < n
    ensures |f.Walk(NIL)| <= 2 * n + 2
  {
    WalkDistinct(f, NIL);
    var all := BothEvents(n) + {Enter(NIL), Exit(NIL)};
    forall e | e in f.Walk(NIL) ensures e in all {
      WalkSound(f, NIL, e);
      if e.id != NIL {
        Parent(f, e.id);
      }
    }
    DistinctWithin(f.Walk(NIL), all);
  }

  ghost function BothEvents(n: nat): (s: set<Event>)
    ensures |s| <= 2 * n
    ensures forall e: Event :: e.id < n ==> e in s
  {
    if n == 0 then {} else BothEvents(n - 1) + {Enter(n - 1), Exit(n - 1)}
  }

  lemma {:induction false} DistinctWithin(w: seq<Event>, all: set<Event>)
    requires Distinct(w) && forall e | e in w :: e in all
    ensures |w| <= |all|
  {
    if w != [] {
      assert forall e | e in w[1..] :: e in all && e != w[0];
      DistinctWithin(w[1..], all - {w[0]});
    }
  }

  // ----- post-order

  ghost function Exits(w: seq<Event>): (s: seq<nat>) {
    if w == [] then []
    else Exits(w[..|w| - 1]) + if w[|w| - 1].Exit? then [w[|w| - 1].id] else []
  }

  /** The nodes of the subtree at `r`, children before parents and in sibling order. */
  ghost function PostOrder(f: Forest, r: nat): (s: seq<nat>)
    requires f.Ok() && r in f.kids
  {
    Exits(f.Walk(r))
  }

  lemma ExitsSnoc(w: seq<Event>, e: Event)
    ensures Exits(w + [e]) == if e.Exit? then Exits(w) + [e.id] else Exits(w)
  {
    assert (w + [e])[..|w|] == w;
  }

  lemma {:induction false} ExitsMember(w: seq<Event>, x: nat)
    ensures x in Exits(w) <==> Exit(x) in w
  {
    if w != [] {
      ExitsMember(w[..|w| - 1], x);
      assert w == w[..|w| - 1] + [w[|w| - 1]];
    }
  }

  lemma {:induction false} ExitsDistinct(w: seq<Event>)
    requires Distinct(w)
    ensures Distinct(Exits(w))
  {
    if w != [] {
      var u, e := w[..|w| - 1], w[|w| - 1];
      ExitsDistinct(u);
      ExitsMember(u, e.id);
      if e.Exit? {
        DistinctAppend(Exits(u), [e.id]);
      }
    }
  }

  lemma PostOrderIsSubtree(f: Forest, r: nat)
    requires f.Ok() && r in f.kids
    ensures Distinct(PostOrder(f, r))
    ensures forall x :: x in PostOrder(f, r) <==> x in f.Subtree(r)
  {
    WalkDistinct(f, r);
    ExitsDistinct(f.Walk(r));
    forall x ensures x in PostOrder(f, r) <==> x in f.Subtree(r) {
      ExitsMember(f.Walk(r), x);
      if Exit(x) in f.Walk(r) {
        WalkSound(f, r, Exit(x));
      }
      if x in f.Subtree(r) {
        WalkComplete(f, r, x);
      }
    }
  }

  // ----- a traversal that returns to the parent after the last sibling

  lemma Child(f: Forest, p: nat, i: nat)
    requires f.Ok() && p in f.kids && i < |f.kids[p]|
    ensures var c := f.kids[p][i];
      c in f.parent && c in f.kids && c != NIL && f.parent[c] == p && f.birth[p] < f.birth[c]
    ensures f.Own(p, f.kids[p][i..]) && f.Own(p, f.kids[p][i + 1..])
    ensures IndexOf(f.kids[p], f.kids[p][i]) == i
  {
    var s := f.kids[p];
    assert f.Own(p, s) && s[i] in s;
    IndexOfAt(s, i);
  }

  lemma Parent(f: Forest, n: nat)
    requires f.Ok() && n in f.kids && n != NIL
    ensures n in f.parent && f.parent[n] in f.kids && f.birth[f.parent[n]] < f.birth[n]
    ensures var s := f.kids[f.parent[n]]; IndexOf(s, n) < |s| && s[IndexOf(s, n)] == n
    ensures f.Own(f.parent[n], f.kids[f.parent[n]][IndexOf(f.kids[f.parent[n]], n) + 1..])
  {
    var s := f.kids[f.parent[n]];
    var i :| 0 <= i < |s| && s[i] == n;
    Child(f, f.parent[n], i);
  }

  function IndexOf(s: seq<nat>, x: nat): (i: nat)
    ensures x in s ==> i < |s| && s[i] == x
  {
    if s == [] || s[0] == x then 0 else 1 + IndexOf(s[1..], x)
  }

  lemma {:induction false} IndexOfAt(s: seq<nat>, i: nat)
    requires Distinct(s) && i < |s|
    ensures IndexOf(s, s[i]) == i
  {
    if i > 0 {
      IndexOfAt(s[1..], i - 1);
    }
  }

  /** What is left to do in the subtree of `r` once the subtree of `n` is finished. */
  ghost function After(f: Forest, r: nat, n: nat): (w: seq<Event>)
    requires f.Ok() && n in f.kids && f.Anc(r, n)
    decreases f.birth[n]
  {
    if n == r then []
    else
      Parent(f, n);
      var p := f.parent[n];
      f.WalkList(p, f.kids[p][IndexOf(f.kids[p], n) + 1..]) + [Exit(p)] + After(f, r, p)
  }

  /** After the subtree of a child come the next sibling's subtree, or the parent's exit. */
  lemma AfterChild(f: Forest, r: nat, p: nat, i: nat)
    requires f.Ok() && p in f.kids && f.Anc(r, p) && i < |f.kids[p]|
    ensures var c := f.kids[p][i];
      && c in f.kids && f.Anc(r, c) && c != r && c != NIL
      && (i + 1 == |f.kids[p]| ==> After(f, r, c) == [Exit(p)] + After(f, r, p))
      && (i + 1 < |f.kids[p]| ==> var next := f.kids[p][i + 1];
            next in f.kids && f.Anc(r, next) && After(f, r, c) == f.Walk(next) + After(f, r, next))
  {
    var s := f.kids[p];
    var c := s[i];
    Child(f, p, i);
    AfterDef(f, r, p, i);
    if i + 1 < |s| {
      Child(f, p, i + 1);
      AfterDef(f, r, p, i + 1);
      WalkListDef(f, p, s[i + 1..]);
      hide *;
      assert s[i + 1..][0] == s[i + 1] && s[i + 1..][1..] == s[i + 2..];
      RegroupFour(f.Walk(s[i + 1]), f.WalkList(p, s[i + 2..]), [Exit(p)], After(f, r, p));
    } else {
      WalkListDef(f, p, s[i + 1..]);
      hide *;
      assert s[i + 1..] == [];
      assert After(f, r, c) == [] + [Exit(p)] + After(f, r, p);
    }
  }

  lemma AfterDef(f: Forest, r: nat, p: nat, i: nat)
    requires f.Ok() && p in f.kids && f.Anc(r, p) && i < |f.kids[p]|
    ensures var c := f.kids[p][i]; c in f.kids && f.Anc(r, c) && c != r && c != NIL
    ensures f.Own(p, f.kids[p][i + 1..])
    ensures After(f, r, f.kids[p][i]) == f.WalkList(p, f.kids[p][i + 1..]) + [Exit(p)] + After(f, r, p)
  {
    Child(f, p, i);
    AncBirth(f, r, p);
  }

  lemma WalkListDef(f: Forest, n: nat, s: seq<nat>)
    requires f.Ok() && n in f.kids && f.Own(n, s)
    ensures s == [] ==> f.WalkList(n, s) == []
    ensures s != [] ==> s[0] in f.kids && f.Own(n, s[1..]) && f.WalkList(n, s) == f.Walk(s[0]) + f.WalkList(n, s[1..])
  {
    if s != [] {
      assert s[0] in s;
    }
  }

  lemma RegroupFour<T>(a: seq<T>, b: seq<T>, c: seq<T>, d: seq<T>)
    ensures a + b + c + d == a + (b + c + d)
  {
  }

  lemma RegroupAll<T>(e: seq<T>, a: seq<T>, b: seq<T>, c: seq<T>, d: seq<T>)
    ensures e + (a + b) + c + d == e + (a + (b + c + d))
  {
  }

  lemma Descend(f: Forest, r: nat, n: nat)
    requires f.Ok() && n in f.kids && f.Anc(r, n)
    ensures f.kids[n] == [] ==> f.Walk(n) == [Enter(n)] + [Exit(n)]
    ensures f.kids[n] != [] ==> var c := f.kids[n][0];
      && c in f.kids && f.Anc(r, c) && c != NIL
      && f.Walk(n) + After(f, r, n) == [Enter(n)] + (f.Walk(c) + After(f, r, c))
  {
    var s := f.kids[n];
    assert f.Own(n, s);
    WalkListDef(f, n, s);
    if s != [] {
      AfterDef(f, r, n, 0);
      Child(f, n, 0);
      assert f.Walk(n) == [Enter(n)] + f.WalkList(n, s) + [Exit(n)];
      hide *;
      RegroupAll([Enter(n)], f.Walk(s[0]), f.WalkList(n, s[1..]), [Exit(n)], After(f, r, n));
    }
  }

  // ----- growing and pruning

  ghost function AddLeaf(f: Forest, p: nat, n: nat): (g: Forest)
    requires f.Ok() && p in f.kids && n !in f.kids
  {
    Forest(f.kids[p := f.kids[p] + [n]][n := []], f.parent[n := p], f.birth[n := f.clock], f.clock + 1)
  }

  lemma AddLeafOk(f: Forest, p: nat, n: nat)
    requires f.Ok() && p in f.kids && n !in f.kids
    ensures AddLeaf(f, p, n).Ok()
  {
    var g := AddLeaf(f, p, n);
    assert forall q | q in g.kids && q != n :: q in f.kids;
    forall q | q in g.kids ensures Distinct(g.kids[q]) && g.Own(q, g.kids[q]) {
      AddLeafList(f, p, n, q);
    }
    forall x | x in g.parent
      ensures g.parent[x] in g.kids && g.birth[g.parent[x]] < g.birth[x] && x in g.kids[g.parent[x]]
    {
      AddLeafParent(f, p, n, x);
    }
  }

  lemma AddLeafParent(f: Forest, p: nat, n: nat, x: nat)
    requires f.Ok() && p in f.kids && n !in f.kids && x in AddLeaf(f, p, n).parent
    ensures var g := AddLeaf(f, p, n);
            g.parent[x] in g.kids && g.birth[g.parent[x]] < g.birth[x] && x in g.kids[g.parent[x]]
  {
    if x != n {
      assert x in f.kids[f.parent[x]] && f.parent[x] != n;
    }
  }

  lemma AddLeafList(f: Forest, p: nat, n: nat, q: nat)
    requires f.Ok() && p in f.kids && n !in f.kids && q in AddLeaf(f, p, n).kids
    ensures Distinct(AddLeaf(f, p, n).kids[q])
    ensures AddLeaf(f, p, n).Own(q, AddLeaf(f, p, n).kids[q])
  {
    if q != n {
      assert f.Own(q, f.kids[q]);
      if q == p {
        assert n !in f.kids[p];
        DistinctAppend(f.kids[p], [n]);
      }
    }
  }

  /** `s` without `x`, the others in the same order. */
  ghost function Without(s: seq<nat>, x: nat): (t: seq<nat>)
  {
    if s == [] then [] else if s[0] == x then s[1..] else [s[0]] + Without(s[1..], x)
  }

  lemma {:induction false} WithoutAt(s: seq<nat>, i: nat)
    requires Distinct(s) && i < |s|
    ensures Without(s, s[i]) == s[..i] + s[i + 1..]
  {
    if i > 0 {
      WithoutAt(s[1..], i - 1);
      assert s[1..][..i - 1] == s[1..i];
      assert s[..i] + s[i + 1..] == [s[0]] + (s[1..][..i - 1] + s[1..][i..]);
    }
  }

  lemma {:induction false} WithoutMember(s: seq<nat>, x: nat, y: nat)
    requires Distinct(s)
    ensures y in Without(s, x) <==> y in s && y != x
  {
    if s != [] {
      assert forall z | z in s[1..] :: z != s[0];
      WithoutMember(s[1..], x, y);
    }
  }

  lemma {:induction false} WithoutDistinct(s: seq<nat>, x: nat)
    requires Distinct(s)
    ensures Distinct(Without(s, x))
  {
    if s != [] && s[0] != x {
      WithoutDistinct(s[1..], x);
      WithoutMember(s[1..], x, s[0]);
      DistinctAppend([s[0]], Without(s[1..], x));
    }
  }

  /** The forest that is left when the subtree at `r` goes. */
  ghost function Prune(f: Forest, r: nat): (g: Forest)
    requires f.Ok() && r in f.parent
  {
    Forest(
      map p | p in f.kids && !f.Anc(r, p) :: if p == f.parent[r] then Without(f.kids[p], r) else f.kids[p],
      map x | x in f.parent && !f.Anc(r, x) :: f.parent[x],
      map x | x in f.birth && !f.Anc(r, x) :: f.birth[x],
      f.clock)
  }

  lemma PruneLists(f: Forest, r: nat, p: nat)
    requires f.Ok() && r in f.parent && p in Prune(f, r).kids
    ensures Distinct(Prune(f, r).kids[p])
    ensures forall x :: x in Prune(f, r).kids[p] <==> x in f.kids[p] && x != r
    ensures Prune(f, r).Own(p, Prune(f, r).kids[p])
  {
    var s := f.kids[p];
    assert f.Own(p, s);
    if p == f.parent[r] {
      WithoutDistinct(s, r);
      forall y ensures y in Without(s, r) <==> y in s && y != r {
        WithoutMember(s, r, y);
      }
    } else {
      assert r !in s;
    }
  }

  lemma PruneOk(f: Forest, r: nat)
    requires f.Ok() && r in f.parent
    ensures Prune(f, r).Ok()
    ensures Prune(f, r).kids.Keys == f.kids.Keys - f.Subtree(r)
  {
    var g := Prune(f, r);
    AncBirthRoot(f, r);
    forall p | p in g.kids ensures Distinct(g.kids[p]) && g.Own(p, g.kids[p]) {
      PruneLists(f, r, p);
    }
    forall x | x in g.parent ensures g.parent[x] in g.kids && x in g.kids[g.parent[x]] {
      PruneLists(f, r, f.parent[x]);
    }
  }

  lemma AncBirthRoot(f: Forest, r: nat)
    requires f.Ok() && r in f.parent
    ensures !f.Anc(r, NIL)
  {
  }

  /** Pruning changes no ancestor relation among the survivors. */
  lemma {:induction false} PruneKeepsAncestry(f: Forest, r: nat, a: nat, x: nat)
    requires f.Ok() && r in f.parent
    requires x in Prune(f, r).kids
    ensures Prune(f, r).Ok()
    ensures Prune(f, r).Anc(a, x) <==> f.Anc(a, x)
    decreases f.birth[x]
  {
    PruneOk(f, r);
    if x != a && x != NIL {
      PruneKeepsAncestry(f, r, a, f.parent[x]);
    }
  }

  lemma {:induction false} AddLeafKeepsAncestry(f: Forest, p: nat, n: nat, a: nat, x: nat)
    requires f.Ok() && p in f.kids && n !in f.kids && x in f.kids
    ensures AddLeaf(f, p, n).Ok()
    ensures AddLeaf(f, p, n).Anc(a, x) <==> f.Anc(a, x)
    decreases f.birth[x]
  {
    AddLeafOk(f, p, n);
    if x != a && x != NIL {
      AddLeafKeepsAncestry(f, p, n, a, f.parent[x]);
    }
  }
}
