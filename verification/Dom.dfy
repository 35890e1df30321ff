/** The document arena: parallel vectors with a free list and generational ids, rewritten in place. */
module Dom {
  import opened Forests
  import opened Arena
  import opened Words

  const ELEMENT: nat := 1
  const TEXT: nat := 2
  const MAX_HOPS: nat := 512

  const BUTTON: nat := 15
  const FORM: nat := 38
  const INPUT: nat := 53
  const META: nat := 64
  const SCRIPT: nat := 84
  const SELECT: nat := 87
  const TEXTAREA: nat := 101
  const TITLE: nat := 106

  datatype NodeId = NodeId(index: nat, generation: nat)

  predicate IsInputTag(tag: nat) {
    tag == INPUT || tag == SELECT || tag == TEXTAREA || tag == BUTTON
  }

  /** `r` is met within `k` further parent steps from `x`. */
  ghost predicate Within(f: Forest, r: nat, x: nat, k: int)
    requires f.Ok() && x in f.kids
    decreases f.birth[x]
  {
    k >= 0 && (x == r || (x != NIL && Within(f, r, f.parent[x], k - 1)))
  }

  /** How many parent steps lead from `x` up to the document. */
  ghost function Depth(f: Forest, x: nat): (d: nat)
    requires f.Ok() && x in f.kids
    decreases f.birth[x]
  {
    if x == NIL then 0 else 1 + Depth(f, f.parent[x])
  }

  /** The bounded ancestor walk finds exactly the ancestors at most `k` steps up. */
  lemma {:induction false} WithinIsBoundedAncestry(f: Forest, r: nat, x: nat, k: int)
    requires f.Ok() && x in f.kids && r in f.kids
    ensures f.Anc(r, x) ==> Depth(f, r) <= Depth(f, x)
    ensures Within(f, r, x, k) <==> k >= 0 && f.Anc(r, x) && Depth(f, x) - Depth(f, r) <= k
    decreases f.birth[x]
  {
    if x != r && x != NIL {
      assert x in f.parent && f.parent[x] in f.kids && f.birth[f.parent[x]] < f.birth[x];
      hide Forest.Ok;
      WithinIsBoundedAncestry(f, r, f.parent[x], k - 1);
    }
  }

  datatype Index = Index(
    scripts: seq<nat>, forms: seq<nat>, inputs: seq<nat>, titleNode: Option<nat>, metaDescNode: Option<nat>)

  /** The vectors represent `f`, the free list is exact, and a generation is the free count modulo 2^32. */
  ghost predicate CoreOk(s: Slots, f: Forest, frees: seq<nat>) {
    && s.Shape() && s.Rep(f) && s.FreeOk()
    && |frees| == |s.parents|
    && (forall x: nat | x < |frees| :: s.generations[x] == frees[x] % GENERATIONS)
  }

  /** `list` holds exactly the live nodes whose tag is in `tags`, each once. */
  ghost predicate Lists(s: Slots, list: seq<nat>, tags: set<nat>) {
    && s.Shape() && Distinct(list)
    && (forall x: nat :: x in list <==> s.Live(x) && s.tagIds[x] in tags)
  }

  ghost predicate Points(s: Slots, o: Option<nat>, tag: nat) {
    s.Shape() && (o.Some? ==> s.Live(o.value) && s.tagIds[o.value] == tag)
  }

  const INPUT_TAGS: set<nat> := {INPUT, SELECT, TEXTAREA, BUTTON}

  ghost predicate IndexOk(s: Slots, ix: Index) {
    && Lists(s, ix.scripts, {SCRIPT}) && Lists(s, ix.forms, {FORM}) && Lists(s, ix.inputs, INPUT_TAGS)
    && Points(s, ix.titleNode, TITLE) && Points(s, ix.metaDescNode, META)
  }

  /** The nodes of `list` come in the order in which they were opened. */
  ghost predicate OldestFirst(birth: map<nat, nat>, list: seq<nat>) {
    && (forall i | 0 <= i < |list| :: list[i] in birth)
    && (forall i, j | 0 <= i < j < |list| :: birth[list[i]] < birth[list[j]])
  }

  ghost predicate IndexInOrder(f: Forest, ix: Index) {
    OldestFirst(f.birth, ix.scripts) && OldestFirst(f.birth, ix.forms) && OldestFirst(f.birth, ix.inputs)
  }

  /** The stored orders number the document `numbered`, of which `f` is an extension by new leaves. */
  ghost predicate OrdersOk(n: nat, pre: seq<nat>, post: seq<nat>, numbered: Forest, f: Forest) {
    && f.Ok() && numbered.Ok()
    && |pre| == |post| <= n
    && |numbered.Walk(NIL)| < NIL
    && (forall x | x in numbered.parent ::
          && x < |pre|
          && EventAt(numbered, pre[x] + 1, Enter(x))
          && EventAt(numbered, post[x] + 1, Exit(x)))
    && (forall x: nat | x < |pre| && x !in numbered.parent :: pre[x] == NIL && post[x] == NIL)
    && Extends(numbered, f)
  }

  ghost predicate Extends(old_: Forest, f: Forest) {
    forall x | x in old_.parent :: x in f.parent && f.parent[x] == old_.parent[x]
  }

  // ----- what a push keeps

  lemma PushFree(s: Slots, t: Slots, n: nat)
    requires s.Shape() && s.FreeOk() && t.Shape()
    requires |t.parents| == if n < |s.parents| then |s.parents| else |s.parents| + 1
    requires if s.free == [] then n == |s.parents| && t.free == []
             else n == s.free[|s.free| - 1] && t.free == s.free[..|s.free| - 1]
    requires n < |t.parents| && t.flags[n] != 0
    requires forall x: nat | x < |s.parents| && x != n :: t.flags[x] == s.flags[x]
    ensures t.FreeOk()
  {
    if s.free != [] {
      assert s.free == t.free + [n];
      assert n in s.free;
      assert n !in t.free;
    }
    forall x: nat ensures x in t.free <==> x < |t.parents| && t.flags[x] == 0 {
      assert x in s.free <==> x < |s.parents| && s.flags[x] == 0;
    }
  }

  lemma PushLists(s: Slots, t: Slots, n: nat, list: seq<nat>, tags: set<nat>)
    requires Lists(s, list, tags) && t.Shape() && n < |t.parents|
    requires |s.parents| <= |t.parents| && !s.Live(n) && t.Live(n)
    requires forall x: nat | x < |t.parents| && x != n :: x < |s.parents| && t.flags[x] == s.flags[x] && t.tagIds[x] == s.tagIds[x]
    ensures t.tagIds[n] !in tags ==> Lists(t, list, tags)
    ensures t.tagIds[n] in tags ==> Lists(t, list + [n], tags)
  {
    assert n !in list;
    forall x: nat ensures x != n ==> (x in list <==> t.Live(x) && t.tagIds[x] in tags) {
    }
    DistinctAppend(list, [n]);
  }

  /** Outside slot `i`, the tags, flags and generations of `u` are those of `s`. */
  ghost predicate SameNodes(s: Slots, u: Slots, i: nat) {
    && s.Shape() && u.Shape() && |s.parents| <= |u.parents|
    && forall x: nat | x < |u.parents| && x != i ::
      x < |s.parents| && u.flags[x] == s.flags[x] && u.tagIds[x] == s.tagIds[x] && u.generations[x] == s.generations[x]
  }

  /** Which slots wait on the free list is no part of the links. */
  lemma FreeIsNotLinked(s: Slots, f: Forest, free: seq<nat>)
    requires s.Shape() && s.Rep(f) && forall x | x in free :: x in s.free
    ensures s.(free := free).Shape() && s.(free := free).Rep(f)
  {
    var t := s.(free := free);
    forall x: nat ensures x in f.parent <==> t.Live(x) {
      assert s.Live(x) <==> t.Live(x);
    }
    forall p | p in f.kids ensures t.ListOk(p, f.kids[p]) {
      forall i | 0 <= i < |f.kids[p]| ensures t.LinkOk(p, f.kids[p], i) {
        assert s.LinkOk(p, f.kids[p], i);
      }
    }
  }

  /** Whatever slot the allocator hands out is dead, and can be filled. */
  lemma TakeSlot(s: Slots, f: Forest, frees: seq<nat>, i: nat, free: seq<nat>)
    requires CoreOk(s, f, frees)
    requires if s.free == [] then i == |s.parents| < MAX_NODES && free == []
             else i == s.free[|s.free| - 1] && free == s.free[..|s.free| - 1]
    ensures s.(free := free).Shape() && s.(free := free).Rep(f) && CanPush(s.(free := free), i)
    ensures i < |s.parents| ==> s.flags[i] == 0
    ensures i !in f.kids
  {
    assert s.free != [] ==> s.free[|s.free| - 1] in s.free;
    FreeIsNotLinked(s, f, free);
    assert !s.Live(i);
  }

  lemma PushCells(s: Slots, f: Forest, p: nat, i: nat, tag: nat, flag: nat)
    requires s.Shape() && CanPush(s, i) && p in f.kids
    requires Ready(Filled(s, i, tag, flag), f, i)
    requires p == NIL || p < |Filled(s, i, tag, flag).parents|
    requires var t := Filled(s, i, tag, flag); t.Tail(p) == NIL || t.Tail(p) < |t.parents|
    ensures var u := Linked(Filled(s, i, tag, flag), p, i);
      && SameNodes(s, u, i) && u.free == s.free
      && |u.parents| == (if i < |s.parents| then |s.parents| else |s.parents| + 1)
      && u.flags[i] == flag && u.tagIds[i] == tag
      && u.generations[i] == (if i < |s.parents| then s.generations[i] else 0)
  {
    var t := Filled(s, i, tag, flag);
    ReadyMembers(t, f, i, p);
    forall x: nat | x < |t.parents| && x != i
      ensures x < |s.parents| && t.flags[x] == s.flags[x] && t.tagIds[x] == s.tagIds[x] && t.generations[x] == s.generations[x]
    {
      FilledFrame(s, i, tag, flag, x);
    }
  }

  /** The core invariant after slot `i` was taken, filled and linked. */
  lemma PushCore(s: Slots, f: Forest, frees: seq<nat>, u: Slots, g: Forest, i: nat)
    requires CoreOk(s, f, frees) && u.Shape() && u.Rep(g)
    requires SameNodes(s.(free := u.free), u, i)
    requires |u.parents| == if i < |s.parents| then |s.parents| else |s.parents| + 1
    requires if s.free == [] then i == |s.parents| && u.free == []
             else i == s.free[|s.free| - 1] && u.free == s.free[..|s.free| - 1]
    requires i < |u.parents| && u.flags[i] != 0 && u.generations[i] == if i < |s.parents| then s.generations[i] else 0
    ensures CoreOk(u, g, if i < |s.parents| then frees else frees + [0]) && SameNodes(s, u, i)
  {
    PushFree(s, u, i);
  }

  /** Taking, filling and linking slot `i` in one go. */
  lemma PushWhole(s: Slots, f: Forest, frees: seq<nat>, p: nat, i: nat, tag: nat, flag: nat, free: seq<nat>)
    requires CoreOk(s, f, frees) && p in f.kids && flag != 0
    requires if s.free == [] then i == |s.parents| < MAX_NODES && free == []
             else i == s.free[|s.free| - 1] && free == s.free[..|s.free| - 1]
    ensures s.(free := free).Shape() && CanPush(s.(free := free), i) && i !in f.kids && f.Ok()
    ensures var t := Filled(s.(free := free), i, tag, flag);
      && (p == NIL || p < |t.parents|) && (t.Tail(p) == NIL || t.Tail(p) < |t.parents|)
      && var u := Linked(t, p, i);
      && CoreOk(u, AddLeaf(f, p, i), if i < |s.parents| then frees else frees + [0])
      && |u.parents| == (if i < |s.parents| then |s.parents| else |s.parents| + 1)
      && SameNodes(s, u, i) && i < |u.parents| && u.flags[i] == flag && u.tagIds[i] == tag
  {
    hide Forest.Ok, Slots.Rep, Slots.FreeOk, Ready, Filled, Linked, SameNodes;
    TakeSlot(s, f, frees, i, free);
    var s0 := s.(free := free);
    FilledReady(s0, f, i, tag, flag);
    var t := Filled(s0, i, tag, flag);
    LinkRep(t, f, p, i);
    PushCells(s0, f, p, i, tag, flag);
    PushCore(s, f, frees, Linked(t, p, i), AddLeaf(f, p, i), i);
  }

  /** What an id issued earlier may still rely on: a slot is freed at most more often, and one not freed
      meanwhile stays live. */
  ghost predicate Evolves(s: Slots, frees: seq<nat>, t: Slots, frees': seq<nat>) {
    && s.Shape() && t.Shape() && |frees| == |s.parents| && |frees'| == |t.parents| && |frees| <= |frees'|
    && forall x: nat | x < |frees| :: frees[x] <= frees'[x] && (frees[x] == frees'[x] && s.Live(x) ==> t.Live(x))
  }

  /** The side indexes once node `i`, whose tag is `tag`, has been opened. */
  function Indexed(ix: Index, i: nat, tag: nat, describes: bool): Index {
    if tag == SCRIPT then ix.(scripts := ix.scripts + [i])
    else if tag == FORM then ix.(forms := ix.forms + [i])
    else if IsInputTag(tag) then ix.(inputs := ix.inputs + [i])
    else if tag == TITLE && ix.titleNode == None then ix.(titleNode := Some(i))
    else if tag == META && ix.metaDescNode == None && describes then ix.(metaDescNode := Some(i))
    else ix
  }

  lemma PushIndex(s: Slots, u: Slots, i: nat, ix: Index, tag: nat, describes: bool)
    requires IndexOk(s, ix) && SameNodes(s, u, i) && i < |u.parents|
    requires !s.Live(i) && u.flags[i] != 0 && u.tagIds[i] == tag
    ensures IndexOk(u, Indexed(ix, i, tag, describes))
  {
    PushLists(s, u, i, ix.scripts, {SCRIPT});
    PushLists(s, u, i, ix.forms, {FORM});
    PushLists(s, u, i, ix.inputs, INPUT_TAGS);
  }

  /** Title and description: the first one opened while there is none. */
  lemma FirstTaken(ix: Index, i: nat, tag: nat, describes: bool)
    ensures var t := Indexed(ix, i, tag, describes);
            && t.titleNode == (if ix.titleNode == None && tag == TITLE then Some(i) else ix.titleNode)
            && t.metaDescNode == if ix.metaDescNode == None && tag == META && describes then Some(i) else ix.metaDescNode
  {
  }

  lemma NewestLast(f: Forest, p: nat, i: nat, list: seq<nat>)
    requires f.Ok() && p in f.kids && i !in f.kids && OldestFirst(f.birth, list)
    ensures OldestFirst(AddLeaf(f, p, i).birth, list) && OldestFirst(AddLeaf(f, p, i).birth, list + [i])
  {
    var birth := AddLeaf(f, p, i).birth;
    assert forall x | x in f.birth :: x != i && birth[x] == f.birth[x] < f.clock == birth[i];
  }

  /** Opening a node keeps the order: it is younger than all that are there. */
  lemma OpenedInOrder(f: Forest, p: nat, i: nat, ix: Index, tag: nat, describes: bool)
    requires f.Ok() && p in f.kids && i !in f.kids && IndexInOrder(f, ix)
    ensures IndexInOrder(AddLeaf(f, p, i), ix) && IndexInOrder(AddLeaf(f, p, i), Indexed(ix, i, tag, describes))
  {
    hide AddLeaf, OldestFirst, Forest.Ok;
    NewestLast(f, p, i, ix.scripts);
    NewestLast(f, p, i, ix.forms);
    NewestLast(f, p, i, ix.inputs);
  }

  lemma PushEvolves(s: Slots, f: Forest, frees: seq<nat>, u: Slots, i: nat)
    requires CoreOk(s, f, frees) && SameNodes(s, u, i) && i < |u.parents| && u.flags[i] != 0
    requires |u.parents| == if i < |s.parents| then |s.parents| else |s.parents| + 1
    requires i !in f.kids && i <= |s.parents|
    ensures Evolves(s, frees, u, if i < |s.parents| then frees else frees + [0])
    ensures !s.Live(i)
  {
    hide Slots.FreeOk;
    assert i !in f.parent;
  }

  ghost function Upto(n: nat): (s: set<nat>)
    ensures forall x: nat :: x in s <==> x < n
    ensures |s| == n
  {
    if n == 0 then {} else Upto(n - 1) + {n - 1}
  }

  ghost function Elems(s: seq<nat>): (r: set<nat>)
    ensures forall x :: x in r <==> x in s
    ensures Distinct(s) ==> |r| == |s|
  {
    if s == [] then {}
    else
      assert Distinct(s) ==> s[0] !in s[1..] && Distinct(s[1..]);
      {s[0]} + Elems(s[1..])
  }

  lemma DisjointSize(a: set<nat>, b: set<nat>, c: set<nat>)
    requires a !! b && a + b == c
    ensures |a| + |b| == |c|
  {
  }

  lemma Partition(live: set<nat>, free: seq<nat>, n: nat)
    requires Distinct(free)
    requires forall x: nat :: x in live <==> x < n && x !in free
    requires forall x | x in free :: x < n
    ensures |live| + |free| == n
  {
    DisjointSize(live, Elems(free), Upto(n));
  }

  /** Every slot is live or waits on the free list. */
  lemma NodeCount(s: Slots, f: Forest, frees: seq<nat>)
    requires CoreOk(s, f, frees)
    ensures |f.parent.Keys| + |s.free| == |s.parents|
    ensures |f.parent.Keys| == MAX_NODES <==> s.free == [] && |s.parents| == MAX_NODES
  {
    hide Forest.Ok, Slots.ListOk;
    forall x: nat ensures x in f.parent.Keys <==> x < |s.parents| && x !in s.free {
      assert x in f.parent <==> s.Live(x);
    }
    Partition(f.parent.Keys, s.free, |s.parents|);
  }

  lemma OpenedOk(s: Slots, f: Forest, frees: seq<nat>, u: Slots, i: nat, ix: Index, tag: nat, describes: bool)
    requires CoreOk(s, f, frees) && IndexOk(s, ix) && SameNodes(s, u, i)
    requires i < |u.parents| && u.flags[i] != 0 && u.tagIds[i] == tag
    requires |u.parents| == if i < |s.parents| then |s.parents| else |s.parents| + 1
    requires i !in f.kids && i <= |s.parents|
    ensures IndexOk(u, Indexed(ix, i, tag, describes))
    ensures Evolves(s, frees, u, if i < |s.parents| then frees else frees + [0])
  {
    PushEvolves(s, f, frees, u, i);
    PushIndex(s, u, i, ix, tag, describes);
  }

  lemma ElementOpened(s: Slots, f: Forest, frees: seq<nat>, u: Slots, g: Forest, counts: seq<nat>, p: nat, i: nat,
                      ix: Index, tag: nat, describes: bool)
    requires CoreOk(s, f, frees) && IndexOk(s, ix) && IndexInOrder(f, ix) && SameNodes(s, u, i)
    requires i < |u.parents| == |u.flags| == |u.tagIds| && u.flags[i] == ELEMENT && u.tagIds[i] == tag
    requires |u.parents| == if i < |s.parents| then |s.parents| else |s.parents| + 1
    requires p in f.kids && i !in f.kids && i <= |s.parents|
    requires f.Ok() && g == AddLeaf(f, p, i) && counts == if i < |s.parents| then frees else frees + [0]
    ensures ElementAdded(s, f, u, g, p, tag, i) && Evolves(s, frees, u, counts)
    ensures IndexOk(u, Indexed(ix, i, tag, describes)) && IndexInOrder(g, Indexed(ix, i, tag, describes))
  {
    OpenedOk(s, f, frees, u, i, ix, tag, describes);
    OpenedInOrder(f, p, i, ix, tag, describes);
  }

  lemma EvolvesRefl(s: Slots, f: Forest, frees: seq<nat>)
    requires CoreOk(s, f, frees)
    ensures Evolves(s, frees, s, frees)
  {
  }

  lemma LastChildInRange(s: Slots, f: Forest, frees: seq<nat>, p: nat)
    requires CoreOk(s, f, frees) && p in f.kids && p != NIL
    ensures p < |s.parents| == |s.lastChild| == |s.flags|
    ensures s.lastChild[p] == NIL || s.lastChild[p] < |s.parents|
    ensures if f.kids[p] == [] then s.lastChild[p] == NIL else s.lastChild[p] == f.kids[p][|f.kids[p]| - 1] != NIL
  {
    NoNil(s, f, p);
    if f.kids[p] != [] {
      assert s.Tail(p) in f.kids[p];
    }
  }

  /** Whether text pushed below `p` continues the text node that is its last child. */
  ghost predicate Continues(s: Slots, f: Forest, p: nat, merges: bool)
    requires p in f.kids
  {
    && merges && p != NIL && f.kids[p] != []
    && var last := f.kids[p][|f.kids[p]| - 1]; last < |s.flags| && s.flags[last] / TEXT % 2 == 1
  }

  /** An element at slot `i` is the new last child of `p`; every other node stays as it is. */
  ghost predicate ElementAdded(s: Slots, f: Forest, t: Slots, g: Forest, p: nat, tag: nat, i: nat) {
    && f.Ok() && p in f.kids && i !in f.kids && g == AddLeaf(f, p, i) && SameNodes(s, t, i)
    && i < |t.flags| == |t.tagIds| && t.flags[i] == ELEMENT && t.tagIds[i] == tag
  }

  /** A text node at slot `i` is the new last child of `p`. */
  ghost predicate TextAdded(s: Slots, f: Forest, g: Forest, p: nat, i: nat) {
    && f.Ok() && p in f.kids && i !in f.kids && g == AddLeaf(f, p, i)
    && i < |s.flags| == |s.tagIds| && s.flags[i] == TEXT && s.tagIds[i] == TAG_UNKNOWN
  }

  lemma NoNil(s: Slots, f: Forest, p: nat)
    requires s.Shape() && s.Rep(f) && p in f.kids
    ensures forall i | 0 <= i < |f.kids[p]| :: f.kids[p][i] != NIL
  {
    forall i | 0 <= i < |f.kids[p]| ensures f.kids[p][i] != NIL {
      Child(f, p, i);
    }
  }

  lemma CoreNodes(s: Slots, f: Forest, frees: seq<nat>)
    requires CoreOk(s, f, frees)
    ensures f.Ok() && |s.parents| <= MAX_NODES
    ensures forall x | x in f.parent :: x < |s.parents| && x in f.kids
    ensures |f.Walk(NIL)| < GENERATIONS
  {
    forall x | x in f.parent ensures x < |s.parents| {
      assert s.Live(x);
    }
    WalkLength(f, |s.parents|);
  }

  lemma CutReady(s: Slots, f: Forest, frees: seq<nat>, r: nat)
    requires CoreOk(s, f, frees) && r in f.parent
    ensures f.Ok() && r < |s.parents| && CanUnlink(s, r, s.parents[r])
    ensures SubtreeOk(Unlinked(s, r), f, r) && Unlinked(s, r).nextSibling[r] == NIL
    ensures InRange(Unlinked(s, r), PostOrder(f, r)) && FreedAll(Unlinked(s, r), PostOrder(f, r)) == Removed(s, f, r)
  {
    var i := Placed(s, f, r);
    UnlinkedSubtree(s, f, r);
    PostOrderInRange(Unlinked(s, r), f, r);
  }

  lemma NodeFacts(s: Slots, f: Forest, frees: seq<nat>, r: nat)
    requires CoreOk(s, f, frees) && r in f.parent
    ensures s.Shape() && s.Rep(f) && f.Ok() && r in f.kids
  {
  }

  lemma LiveIsNode(s: Slots, f: Forest, frees: seq<nat>, n: nat)
    requires CoreOk(s, f, frees) && n < |s.parents| && s.flags[n] != 0
    ensures n in f.parent && f.Ok()
  {
    assert s.Live(n);
  }

  lemma NodesInRange(s: Slots, f: Forest, frees: seq<nat>, n: nat, r: nat)
    requires CoreOk(s, f, frees)
    ensures f.Ok() && |s.flags| == |s.parents|
    ensures n in f.parent <==> n < |s.parents| && s.flags[n] != 0
    ensures r in f.parent <==> r < |s.parents| && s.flags[r] != 0
    ensures n in f.parent ==> n in f.kids && f.parent[n] in f.kids
  {
    assert n in f.parent <==> s.Live(n);
    assert r in f.parent <==> s.Live(r);
  }

  lemma OrdersShape(n: nat, pre: seq<nat>, post: seq<nat>, numbered: Forest, f: Forest)
    requires OrdersOk(n, pre, post, numbered, f)
    ensures |pre| == |post| <= n
  {
  }

  /** The parent vector takes the ancestor walk one step up. */
  lemma WithinStep(s: Slots, f: Forest, frees: seq<nat>, r: nat, x: nat)
    requires CoreOk(s, f, frees) && x in f.kids && x != NIL && r in f.parent
    ensures x < |s.parents| && x in f.parent && s.parents[x] == f.parent[x] && f.parent[x] in f.kids
    ensures f.Ok() && r != NIL
    ensures x != r ==> forall k: int :: 0 <= k ==> (Within(f, r, x, k) <==> Within(f, r, f.parent[x], k - 1))
    ensures forall k: int :: !Within(f, r, NIL, k)
  {
    var i := Placed(s, f, x);
  }

  lemma CoreForest(s: Slots, f: Forest, frees: seq<nat>)
    requires CoreOk(s, f, frees)
    ensures f.Ok()
  {
  }

  lemma PushOrders(n: nat, m: nat, pre: seq<nat>, post: seq<nat>, numbered: Forest, f: Forest, p: nat, i: nat)
    requires OrdersOk(n, pre, post, numbered, f) && n <= m
    requires p in f.kids && i !in f.kids
    ensures OrdersOk(m, pre, post, numbered, AddLeaf(f, p, i))
  {
    AddLeafOk(f, p, i);
  }

  // ----- what a removal keeps

  /** Slots `s` spell out the children of every node under `r`, and where each of those nodes sits below `r`. */
  ghost predicate SubtreeOk(s: Slots, f: Forest, r: nat)
    requires s.Shape() && f.Ok() && r in f.parent
  {
    forall p | p in f.kids && f.Anc(r, p) ::
      p < |s.parents| && s.Head(p) == Nth(f.kids[p], 0) && ListsLinked(s, f, p)
  }

  ghost predicate ListsLinked(s: Slots, f: Forest, p: nat)
    requires s.Shape() && p in f.kids
  {
    forall i {:trigger s.LinkOk(p, f.kids[p], i)} | 0 <= i < |f.kids[p]| ::
      f.kids[p][i] < |s.parents| && s.LinkOk(p, f.kids[p], i)
  }

  lemma UnlinkedSubtree(s: Slots, f: Forest, r: nat)
    requires s.Shape() && s.Rep(f) && r in f.parent
    ensures r < |s.parents| && CanUnlink(s, r, f.parent[r])
    ensures SubtreeOk(Unlinked(s, r), f, r)
  {
    var i := Placed(s, f, r);
    var t := Unlinked(s, r);
    hide Unlinked;
    forall p | p in f.kids && f.Anc(r, p)
      ensures p < |s.parents| && t.Head(p) == Nth(f.kids[p], 0) && ListsLinked(t, f, p)
    {
      UnlinkedSubtreeAt(s, f, r, p);
    }
  }

  lemma UnlinkedSubtreeAt(s: Slots, f: Forest, r: nat, p: nat)
    requires s.Shape() && s.Rep(f) && r in f.parent && p in f.kids && f.Anc(r, p)
    requires r < |s.parents| && CanUnlink(s, r, f.parent[r])
    ensures p < |s.parents|
    ensures Unlinked(s, r).Head(p) == Nth(f.kids[p], 0)
    ensures ListsLinked(Unlinked(s, r), f, p)
  {
    AncBirth(f, r, p);
    assert p in f.parent && p != f.parent[r];
    assert s.Live(p);
    hide Unlinked;
    UnlinkLists(s, f, r, p);
    ListMembers(Unlinked(s, r), f, p);
  }

  lemma ListMembers(t: Slots, f: Forest, p: nat)
    requires t.Shape() && p in f.kids && (p == NIL || p < |t.parents|) && t.ListOk(p, f.kids[p])
    ensures ListsLinked(t, f, p)
  {
    forall i | 0 <= i < |f.kids[p]| ensures f.kids[p][i] < |t.parents| && t.LinkOk(p, f.kids[p], i) {
      assert t.LinkOk(p, f.kids[p], i);
    }
  }

  /** While the events `done` of the walk of `root` are behind it, a node whose exit is still to come has its own links. */
  lemma Untouched(s: Slots, f: Forest, root: nat, done: seq<Event>, rest: seq<Event>, node: nat)
    requires s.Shape() && f.Ok() && root in f.parent && SubtreeOk(s, f, root)
    requires node in f.kids && f.Anc(root, node)
    requires f.Walk(root) == done + rest && Exit(node) in rest
    ensures InRange(s, Exits(done)) && node < |s.parents|
    ensures FreedAll(s, Exits(done)).SameLinks(s, node)
    ensures s.firstChild[node] == Nth(f.kids[node], 0)
  {
    WalkDistinct(f, root);
    PrefixDistinct(done, rest);
    ExitsDistinct(done);
    ExitsInRange(s, f, root, done, rest);
    ExitsMember(done, node);
    assert Exit(node) !in done;
    FreedAllCells(s, Exits(done), node);
    AncBirth(f, root, node);
  }

  lemma PrefixDistinct<T>(a: seq<T>, b: seq<T>)
    requires Distinct(a + b)
    ensures Distinct(a)
    ensures forall e | e in b :: e !in a
  {
    var w := a + b;
    forall i, j | 0 <= i < j < |a| ensures a[i] != a[j] {
      assert w[i] != w[j];
    }
    forall i, j | 0 <= i < |a| && 0 <= j < |b| ensures a[i] != b[j] {
      assert w[i] != w[|a| + j];
    }
  }

  lemma ExitsInRange(s: Slots, f: Forest, root: nat, done: seq<Event>, rest: seq<Event>)
    requires s.Shape() && f.Ok() && root in f.parent && SubtreeOk(s, f, root)
    requires f.Walk(root) == done + rest
    ensures InRange(s, Exits(done))
  {
    var ids := Exits(done);
    forall i | 0 <= i < |ids| ensures ids[i] < |s.parents| {
      ExitsMember(done, ids[i]);
      assert ids[i] in ids;
      WalkSound(f, root, Exit(ids[i]));
    }
  }

  lemma FreeOneMore(s: Slots, f: Forest, root: nat, done: seq<Event>, node: nat, rest: seq<Event>)
    requires s.Shape() && f.Ok() && root in f.parent && SubtreeOk(s, f, root)
    requires f.Walk(root) == done + ([Exit(node)] + rest)
    ensures f.Walk(root) == done + [Exit(node)] + rest
    ensures InRange(s, Exits(done)) && node < |s.parents|
    ensures InRange(s, Exits(done + [Exit(node)]))
    ensures FreedAll(s, Exits(done + [Exit(node)])) == Freed(FreedAll(s, Exits(done)), node)
  {
    hide SubtreeOk, Forest.Ok, Forest.Walk, Forest.Anc, Freed;
    ExitsInRange(s, f, root, done, [Exit(node)] + rest);
    assert done + [Exit(node)] + rest == done + ([Exit(node)] + rest);
    ExitsInRange(s, f, root, done + [Exit(node)], rest);
    ExitsSnoc(done, Exit(node));
    var ids := Exits(done) + [node];
    assert ids[..|ids| - 1] == Exits(done) && ids[|ids| - 1] == node;
  }

  lemma PostOrderInRange(s: Slots, f: Forest, root: nat)
    requires s.Shape() && f.Ok() && root in f.parent && SubtreeOk(s, f, root)
    ensures InRange(s, PostOrder(f, root))
  {
    assert f.Walk(root) == f.Walk(root) + [];
    ExitsInRange(s, f, root, f.Walk(root), []);
  }

  /** Where a finished node leads: to its next sibling's subtree or back to its parent. */
  lemma NextStop(s: Slots, f: Forest, root: nat, node: nat)
    requires s.Shape() && f.Ok() && root in f.parent && SubtreeOk(s, f, root)
    requires node in f.kids && f.Anc(root, node) && node != root && node < |s.parents|
    ensures var parent, next := s.parents[node], s.nextSibling[node];
      && parent in f.kids && f.Anc(root, parent)
      && (next == NIL ==> After(f, root, node) == [Exit(parent)] + After(f, root, parent))
      && (next != NIL ==> next in f.kids && f.Anc(root, next) && next != root
                          && After(f, root, node) == f.Walk(next) + After(f, root, next))
  {
    AncBirth(f, root, node);
    Parent(f, node);
    var p := f.parent[node];
    var i := IndexOf(f.kids[p], node);
    AfterChild(f, root, p, i);
    assert s.LinkOk(p, f.kids[p], i);
    if i + 1 < |f.kids[p]| {
      AfterChild(f, root, p, i + 1);
    }
  }

  /** The traversal of the subtree at `root` has the events `done` behind it and stands before entering `node`,
      or before leaving it. */
  ghost predicate Standing(v: Slots, s: Slots, f: Forest, root: nat, node: nat, done: seq<Event>, entering: bool)
    requires s.Shape() && f.Ok() && root in f.parent
  {
    && node in f.kids && f.Anc(root, node)
    && f.Walk(root) == done + ((if entering then f.Walk(node) else [Exit(node)]) + After(f, root, node))
    && InRange(s, Exits(done)) && v == FreedAll(s, Exits(done))
  }

  lemma StandingFirst(s: Slots, f: Forest, root: nat)
    requires s.Shape() && f.Ok() && root in f.parent
    ensures Standing(s, s, f, root, root, [], true)
  {
  }

  lemma EnterStep(v: Slots, s: Slots, f: Forest, root: nat, node: nat, done: seq<Event>)
    requires s.Shape() && f.Ok() && root in f.parent && SubtreeOk(s, f, root)
    requires Standing(v, s, f, root, node, done, true)
    ensures v.Shape() && node < |v.parents| && |done| < |f.Walk(root)|
    ensures v.firstChild[node] == NIL ==> Standing(v, s, f, root, node, done + [Enter(node)], false)
    ensures v.firstChild[node] != NIL ==> Standing(v, s, f, root, v.firstChild[node], done + [Enter(node)], true)
  {
    Descend(f, root, node);
    Untouched(s, f, root, done, f.Walk(node) + After(f, root, node), node);
    ExitsSnoc(done, Enter(node));
    var child, rest := v.firstChild[node], After(f, root, node);
    if child == NIL {
      Reassoc(done, [Enter(node)], [Exit(node)], rest);
    } else {
      Assoc(done, [Enter(node)], f.Walk(child) + After(f, root, child));
    }
  }

  lemma Reassoc<T>(a: seq<T>, b: seq<T>, c: seq<T>, d: seq<T>)
    ensures a + ((b + c) + d) == (a + b) + (c + d)
  {
  }

  lemma ExitStep(v: Slots, s: Slots, f: Forest, root: nat, node: nat, done: seq<Event>)
    requires s.Shape() && f.Ok() && root in f.parent && SubtreeOk(s, f, root)
    requires Standing(v, s, f, root, node, done, false)
    ensures v.Shape() && node < |v.parents| && |done| < |f.Walk(root)|
    ensures node == root ==> InRange(s, PostOrder(f, root)) && Freed(v, node) == FreedAll(s, PostOrder(f, root))
    ensures node != root && v.nextSibling[node] != NIL ==>
      Standing(Freed(v, node), s, f, root, v.nextSibling[node], done + [Exit(node)], true) && v.nextSibling[node] != root
    ensures node != root && v.nextSibling[node] == NIL ==>
      Standing(Freed(v, node), s, f, root, v.parents[node], done + [Exit(node)], false)
  {
    var rest := After(f, root, node);
    Untouched(s, f, root, done, [Exit(node)] + rest, node);
    FreeOneMore(s, f, root, done, node, rest);
    if node == root {
      assert done + [Exit(node)] + rest == done + [Exit(node)];
    } else {
      NextStop(s, f, root, node);
    }
  }

  ghost function Removed(s: Slots, f: Forest, r: nat): (u: Slots)
    requires s.Shape() && s.Rep(f) && r in f.parent
    ensures u.Shape() && |u.parents| == |s.parents|
  {
    UnlinkedSubtree(s, f, r);
    PostOrderInRange(Unlinked(s, r), f, r);
    FreedAll(Unlinked(s, r), PostOrder(f, r))
  }

  /** What each slot holds after a removal. */
  lemma RemovedNode(s: Slots, f: Forest, r: nat, x: nat)
    requires s.Shape() && s.Rep(f) && r in f.parent && x < |s.parents|
    ensures var u, gone := Removed(s, f, r), x in f.Subtree(r);
      && u.free == s.free + PostOrder(f, r)
      && u.flags[x] == (if gone then 0 else s.flags[x])
      && u.tagIds[x] == (if gone then TAG_UNKNOWN else s.tagIds[x])
      && u.generations[x] == (if gone then (s.generations[x] + 1) % GENERATIONS else s.generations[x])
  {
    UnlinkedSubtree(s, f, r);
    PostOrderIsSubtree(f, r);
    FreedAllNode(s, Unlinked(s, r), f, r, x);
  }

  lemma FreedAllNode(s: Slots, t: Slots, f: Forest, r: nat, x: nat)
    requires s.Shape() && s.Rep(f) && r in f.parent && x < |s.parents|
    requires t.Shape() && |t.parents| == |s.parents| && SubtreeOk(t, f, r)
    requires t.flags == s.flags && t.tagIds == s.tagIds && t.generations == s.generations && t.free == s.free
    requires f.Ok() && Distinct(PostOrder(f, r))
    ensures InRange(t, PostOrder(f, r))
    ensures var u, gone := FreedAll(t, PostOrder(f, r)), x in PostOrder(f, r);
      && u.free == s.free + PostOrder(f, r)
      && u.flags[x] == (if gone then 0 else s.flags[x])
      && u.tagIds[x] == (if gone then TAG_UNKNOWN else s.tagIds[x])
      && u.generations[x] == (if gone then (s.generations[x] + 1) % GENERATIONS else s.generations[x])
  {
    hide Forest.Walk, Slots.Rep, SubtreeOk, FreedAll, PostOrder, InRange;
    PostOrderInRange(t, f, r);
    FreedAllCells(t, PostOrder(f, r), x);
  }

  lemma RemovedLinks(s: Slots, f: Forest, r: nat, x: nat)
    requires s.Shape() && s.Rep(f) && r in f.parent && x < |s.parents|
    ensures r < |s.parents| && CanUnlink(s, r, f.parent[r])
    ensures var u, t := Removed(s, f, r), Unlinked(s, r);
      && u.rootsHead == t.rootsHead && u.rootsTail == t.rootsTail
      && (x !in PostOrder(f, r) ==> u.SameLinks(t, x))
    ensures x in PostOrder(f, r) <==> x in f.Subtree(r)
  {
    UnlinkedSubtree(s, f, r);
    PostOrderInRange(Unlinked(s, r), f, r);
    PostOrderIsSubtree(f, r);
    hide Unlinked, FreedAll, Forest.Ok, Slots.Rep, SubtreeOk, Forest.Anc;
    FreedAllCells(Unlinked(s, r), PostOrder(f, r), x);
  }

  lemma RemovedLists(s: Slots, f: Forest, r: nat, q: nat)
    requires s.Shape() && s.Rep(f) && r in f.parent && q in Prune(f, r).kids
    ensures q == NIL || q < |s.parents|
    ensures Removed(s, f, r).ListOk(q, Prune(f, r).kids[q])
  {
    UnlinkLists(s, f, r, q);
    PruneLists(f, r, q);
    var t, u, k := Unlinked(s, r), Removed(s, f, r), Prune(f, r).kids[q];
    hide Unlinked, Removed;
    RemovedLinks(s, f, r, if q == NIL then r else q);
    forall x | x in k ensures x < |t.parents| && u.SamePlace(t, x) {
      assert x in Prune(f, r).parent && s.Live(x);
      RemovedLinks(s, f, r, x);
    }
    ListFrame(t, u, q, k);
  }

  lemma RemovedRep(s: Slots, f: Forest, r: nat)
    requires s.Shape() && s.Rep(f) && r in f.parent
    ensures Removed(s, f, r).Rep(Prune(f, r))
  {
    var u, g := Removed(s, f, r), Prune(f, r);
    hide Removed;
    PruneOk(f, r);
    forall q | q in g.kids ensures (q == NIL || q < |u.parents|) && u.ListOk(q, g.kids[q]) {
      RemovedLists(s, f, r, q);
    }
    forall x: nat ensures x in g.parent <==> u.Live(x) {
      RemovedLive(s, f, r, x);
    }
  }

  lemma RemovedLive(s: Slots, f: Forest, r: nat, x: nat)
    requires s.Shape() && s.Rep(f) && r in f.parent
    ensures x in Prune(f, r).parent <==> Removed(s, f, r).Live(x)
    ensures Removed(s, f, r).Live(x) <==> s.Live(x) && !(x in f.kids && f.Anc(r, x))
  {
    assert x in f.parent <==> s.Live(x);
    if x < |s.parents| {
      RemovedNode(s, f, r, x);
    }
  }

  lemma RemovedFree(s: Slots, f: Forest, r: nat)
    requires s.Shape() && s.Rep(f) && s.FreeOk() && r in f.parent
    ensures Removed(s, f, r).free == s.free + PostOrder(f, r)
    ensures Removed(s, f, r).FreeOk()
  {
    var u := Removed(s, f, r);
    hide Removed;
    var i := Placed(s, f, r);
    RemovedNode(s, f, r, r);
    PostOrderIsSubtree(f, r);
    forall x | x in s.free ensures x !in PostOrder(f, r) {
      SubtreeLive(s, f, r, x);
    }
    DistinctAppend(s.free, PostOrder(f, r));
    forall x: nat ensures x in u.free <==> x < |u.parents| && u.flags[x] == 0 {
      SubtreeLive(s, f, r, x);
      if x < |s.parents| {
        RemovedNode(s, f, r, x);
      }
    }
  }

  lemma SubtreeLive(s: Slots, f: Forest, r: nat, x: nat)
    requires s.Shape() && s.Rep(f) && r in f.parent
    ensures x in f.Subtree(r) ==> s.Live(x)
  {
    if x in f.Subtree(r) {
      AncBirth(f, r, x);
      assert x in f.parent;
    }
  }

  /** One more free for every node of the subtree at `r`. */
  ghost function Bumped(frees: seq<nat>, f: Forest, r: nat): (g: seq<nat>)
    requires f.Ok() && r in f.parent
    ensures |g| == |frees|
    ensures forall x: nat | x < |g| :: g[x] == frees[x] + if x in f.Subtree(r) then 1 else 0
  {
    seq(|frees|, x requires 0 <= x < |frees| => frees[x] + if x in f.Subtree(r) then 1 else 0)
  }

  lemma RemovedCore(s: Slots, f: Forest, frees: seq<nat>, r: nat, u: Slots, bumped: seq<nat>)
    requires CoreOk(s, f, frees) && r in f.parent
    requires u == Removed(s, f, r) && bumped == Bumped(frees, f, r)
    ensures CoreOk(u, Prune(f, r), bumped) && Evolves(s, frees, u, bumped)
  {
    hide Removed, Bumped, Prune, Slots.Rep, Slots.FreeOk, Forest.Ok, Slots.Live, Forest.Subtree;
    RemovedRep(s, f, r);
    RemovedFree(s, f, r);
    RemovedSlots(s, f, frees, r, u, bumped);
  }

  lemma RemovedSlots(s: Slots, f: Forest, frees: seq<nat>, r: nat, u: Slots, bumped: seq<nat>)
    requires CoreOk(s, f, frees) && r in f.parent
    requires u == Removed(s, f, r) && bumped == Bumped(frees, f, r)
    ensures forall x: nat | x < |frees| ::
      u.generations[x] == bumped[x] % GENERATIONS && (frees[x] == bumped[x] && s.Live(x) ==> u.Live(x))
  {
    forall x: nat | x < |frees|
      ensures u.generations[x] == bumped[x] % GENERATIONS && (frees[x] == bumped[x] && s.Live(x) ==> u.Live(x))
    {
      RemovedSlot(s, f, frees, r, u, bumped, x);
    }
    hide Removed, Slots.Rep, Slots.FreeOk, Forest.Ok, Slots.Live, Forest.Subtree;
  }

  lemma RemovedSlot(s: Slots, f: Forest, frees: seq<nat>, r: nat, u: Slots, bumped: seq<nat>, x: nat)
    requires CoreOk(s, f, frees) && r in f.parent && x < |frees|
    requires u == Removed(s, f, r) && bumped == Bumped(frees, f, r)
    ensures u.generations[x] == bumped[x] % GENERATIONS
    ensures frees[x] == bumped[x] && s.Live(x) ==> u.Live(x)
  {
    hide Removed, Slots.Rep, Slots.FreeOk, Forest.Ok, Forest.Anc, Forest.Subtree, PostOrder;
    RemovedNode(s, f, r, x);
  }

  // ----- numbering the document

  /** `pre` and `post` hold the position in `done` of each node's events, and NIL where the event is still to come. */
  ghost predicate Numbered(n: nat, pre: seq<nat>, post: seq<nat>, done: seq<Event>) {
    && |pre| == |post| == n
    && (forall x: nat | x < n :: Stamp(pre[x], done, Enter(x)) && Stamp(post[x], done, Exit(x)))
  }

  ghost predicate Stamp(v: nat, done: seq<Event>, e: Event) {
    (e !in done && v == NIL) || (v < |done| && done[v] == e)
  }

  lemma StampStep(n: nat, pre: seq<nat>, post: seq<nat>, done: seq<Event>, e: Event)
    requires Numbered(n, pre, post, done) && e !in done && e.id < n
    ensures e.Enter? ==> Numbered(n, pre[e.id := |done|], post, done + [e])
    ensures e.Exit? ==> Numbered(n, pre, post[e.id := |done|], done + [e])
  {
    var w := done + [e];
    forall x: nat | x < n && Enter(x) != e ensures Stamp(pre[x], w, Enter(x)) {
      assert Stamp(pre[x], done, Enter(x));
    }
    forall x: nat | x < n && Exit(x) != e ensures Stamp(post[x], w, Exit(x)) {
      assert Stamp(post[x], done, Exit(x));
    }
  }

  /** The traversal of the document has the events `done` behind it; `stack` holds the rest. */
  ghost predicate Numbering(n: nat, pre: seq<nat>, post: seq<nat>, f: Forest, done: seq<Event>, stack: seq<(nat, bool)>)
    requires f.Ok()
  {
    && (forall x | x in f.parent :: x < n)
    && NIL !in f.parent
    && InForest(f, stack)
    && f.Own(NIL, f.kids[NIL])
    && f.WalkList(NIL, f.kids[NIL]) == done + Pending(f, stack)
    && Numbered(n, pre, post, done)
  }

  ghost function EventOf(top: (nat, bool)): Event {
    if top.1 then Exit(top.0) else Enter(top.0)
  }

  /** The stack once its top has been dealt with. */
  ghost function Popped(f: Forest, stack: seq<(nat, bool)>): (s: seq<(nat, bool)>)
    requires stack != [] && stack[|stack| - 1].0 in f.kids
  {
    var (x, exit) := stack[|stack| - 1];
    var below := stack[..|stack| - 1];
    if exit then below else below + [(x, true)] + Frames(f.kids[x])
  }

  lemma PendingPop(f: Forest, stack: seq<(nat, bool)>)
    requires f.Ok() && InForest(f, stack) && stack != []
    ensures InForest(f, Popped(f, stack))
    ensures Pending(f, stack) == [EventOf(stack[|stack| - 1])] + Pending(f, Popped(f, stack))
  {
    var top, below := stack[|stack| - 1], stack[..|stack| - 1];
    assert stack == below + [top];
    PendingEnter(f, below, top.0);
  }

  /** The next event of a traversal is a new one, of a live node. */
  lemma NextEvent(f: Forest, done: seq<Event>, e: Event, rest: seq<Event>)
    requires f.Ok() && f.Own(NIL, f.kids[NIL])
    requires f.WalkList(NIL, f.kids[NIL]) == done + ([e] + rest)
    ensures e !in done && e.id in f.parent && |done| < |f.Walk(NIL)|
    ensures f.WalkList(NIL, f.kids[NIL]) == done + [e] + rest
  {
    var w := f.WalkList(NIL, f.kids[NIL]);
    WalkListDistinct(f, NIL, f.kids[NIL]);
    PrefixDistinct(done, [e] + rest);
    assert ([e] + rest)[0] == e && w[|done|] == e;
    var c := WalkListSound(f, NIL, f.kids[NIL], e);
    assert f.Own(NIL, f.kids[NIL]) && c in f.parent;
    AncBirth(f, c, e.id);
    Assoc(done, [e], rest);
  }

  lemma NumberingStep(n: nat, pre: seq<nat>, post: seq<nat>, f: Forest, done: seq<Event>, stack: seq<(nat, bool)>)
    requires f.Ok() && stack != [] && Numbering(n, pre, post, f, done, stack)
    ensures var (x, exit) := stack[|stack| - 1];
      && x < n && |pre| == |post| == n && x in f.kids && |done| < |f.Walk(NIL)|
      && (exit ==> Numbering(n, pre, post[x := |done|], f, done + [Exit(x)], Popped(f, stack)))
      && (!exit ==> Numbering(n, pre[x := |done|], post, f, done + [Enter(x)], Popped(f, stack)))
  {
    hide Forest.Ok, Forest.WalkList, Forest.Walk, Pending, Popped, Numbered, InForest, Forest.Own;
    var e := EventOf(stack[|stack| - 1]);
    TopInForest(f, stack);
    PendingPop(f, stack);
    NextEvent(f, done, e, Pending(f, Popped(f, stack)));
    NumberedLengths(n, pre, post, done);
    StampStep(n, pre, post, done, e);
  }

  lemma NumberedLengths(n: nat, pre: seq<nat>, post: seq<nat>, done: seq<Event>)
    requires Numbered(n, pre, post, done)
    ensures |pre| == |post| == n
  {
  }

  lemma TopInForest(f: Forest, stack: seq<(nat, bool)>)
    requires InForest(f, stack) && stack != []
    ensures stack[|stack| - 1].0 in f.kids
  {
  }

  /** The tick is a 32-bit counter that wraps. */
  function NextTick(t: nat): (u: nat)
    ensures t + 1 < GENERATIONS ==> u == t + 1
  {
    (t + 1) % GENERATIONS
  }

  lemma NumberingFirst(n: nat, f: Forest, none: seq<nat>)
    requires f.Ok() && (forall x | x in f.parent :: x < n) && n < NIL
    requires |none| == n && forall i | 0 <= i < n :: none[i] == NIL
    ensures Numbering(n, none, none, f, [], Frames(f.kids[NIL]))
  {
    assert f.Own(NIL, f.kids[NIL]);
    PendingFrames(f, [], NIL, f.kids[NIL]);
    assert [] + Frames(f.kids[NIL]) == Frames(f.kids[NIL]);
  }

  lemma NumberingDone(n: nat, pre: seq<nat>, post: seq<nat>, f: Forest, done: seq<Event>)
    requires f.Ok() && Numbering(n, pre, post, f, done, []) && n <= MAX_NODES
    ensures OrdersOk(n, pre, post, f, f)
  {
    hide Forest.WalkList, Forest.Walk, Stamp, EventAt, Forest.Ok, Forest.Anc;
    forall x | x in f.parent
      ensures x < n && EventAt(f, pre[x] + 1, Enter(x)) && EventAt(f, post[x] + 1, Exit(x))
    {
      StampPresent(f, done, pre[x], Enter(x));
      StampPresent(f, done, post[x], Exit(x));
    }
    forall x: nat | x < n && x !in f.parent ensures pre[x] == NIL && post[x] == NIL {
      StampAbsent(f, done, pre[x], Enter(x));
      StampAbsent(f, done, post[x], Exit(x));
    }
    WalkLength(f, n);
  }

  lemma WholeWalk(f: Forest, e: nat)
    requires f.Ok() && f.Own(NIL, f.kids[NIL]) && e in f.parent
    ensures f.Walk(NIL) == [Enter(NIL)] + f.WalkList(NIL, f.kids[NIL]) + [Exit(NIL)]
    ensures e in f.kids && e != NIL && f.Anc(NIL, e)
  {
    RootIsAncestor(f, e);
  }

  lemma StampPresent(f: Forest, done: seq<Event>, v: nat, e: Event)
    requires f.Ok() && f.Own(NIL, f.kids[NIL]) && done == f.WalkList(NIL, f.kids[NIL])
    requires Stamp(v, done, e) && e.id in f.parent
    ensures EventAt(f, v + 1, e)
  {
    WholeWalk(f, e.id);
    hide Forest.Ok, Forest.Walk, Forest.WalkList, Forest.Anc, Forest.Own;
    var w := f.Walk(NIL);
    WalkComplete(f, NIL, e.id);
    var i :| 0 <= i < |w| && w[i] == e;
    assert done[i - 1] == e;
    assert w[v + 1] == done[v];
  }

  lemma StampAbsent(f: Forest, done: seq<Event>, v: nat, e: Event)
    requires f.Ok() && f.Own(NIL, f.kids[NIL]) && done == f.WalkList(NIL, f.kids[NIL])
    requires Stamp(v, done, e) && e.id !in f.parent
    ensures v == NIL
  {
    if e in done {
      var c := WalkListSound(f, NIL, f.kids[NIL], e);
      AncBirth(f, c, e.id);
    }
  }

  // ----- the side indexes after a removal

  function Kept(list: seq<nat>, flags: seq<nat>): (k: seq<nat>)
    requires forall i | 0 <= i < |list| :: list[i] < |flags|
  {
    if list == [] then []
    else Kept(list[..|list| - 1], flags) + if flags[list[|list| - 1]] != 0 then [list[|list| - 1]] else []
  }

  lemma {:induction false} KeptMember(list: seq<nat>, flags: seq<nat>, x: nat)
    requires forall i | 0 <= i < |list| :: list[i] < |flags|
    ensures x in Kept(list, flags) <==> x in list && flags[x] != 0
    ensures Distinct(list) ==> Distinct(Kept(list, flags))
  {
    if list != [] {
      var h, l := list[..|list| - 1], list[|list| - 1];
      assert list == h + [l];
      KeptMember(h, flags, x);
      KeptMember(h, flags, l);
    }
  }

  lemma KeptLists(s: Slots, u: Slots, list: seq<nat>, tags: set<nat>)
    requires Lists(s, list, tags) && u.Shape() && |u.parents| == |s.parents|
    requires forall x: nat | x < |u.parents| :: u.flags[x] == 0 || (u.flags[x] == s.flags[x] && u.tagIds[x] == s.tagIds[x])
    ensures forall i | 0 <= i < |list| :: list[i] < |u.flags|
    ensures Lists(u, Kept(list, u.flags), tags)
  {
    forall i | 0 <= i < |list| ensures list[i] < |u.flags| {
      assert list[i] in list;
    }
    forall x: nat ensures x in Kept(list, u.flags) <==> u.Live(x) && u.tagIds[x] in tags {
      KeptMember(list, u.flags, x);
    }
    KeptMember(list, u.flags, 0);
  }

  function KeptIndex(ix: Index, flags: seq<nat>): (k: Index)
    requires InFlags(ix, flags)
  {
    Index(Kept(ix.scripts, flags), Kept(ix.forms, flags), Kept(ix.inputs, flags),
          if ix.titleNode.Some? && flags[ix.titleNode.value] == 0 then None else ix.titleNode,
          if ix.metaDescNode.Some? && flags[ix.metaDescNode.value] == 0 then None else ix.metaDescNode)
  }

  /** A node that is set stays set as long as it is there. */
  ghost function Surviving(f: Forest, o: Option<nat>): Option<nat> {
    if o.Some? && o.value in f.parent then o else None
  }

  lemma KeptSingles(u: Slots, f: Forest, frees: seq<nat>, ix: Index)
    requires CoreOk(u, f, frees) && InFlags(ix, u.flags)
    ensures KeptIndex(ix, u.flags).titleNode == Surviving(f, ix.titleNode)
    ensures KeptIndex(ix, u.flags).metaDescNode == Surviving(f, ix.metaDescNode)
  {
    hide Forest.Ok, Slots.ListOk, Slots.FreeOk, Kept;
    forall x: nat | x < |u.flags| ensures x in f.parent <==> u.flags[x] != 0 {
      assert x in f.parent <==> u.Live(x);
    }
  }

  predicate InFlags(ix: Index, flags: seq<nat>) {
    && (forall i | 0 <= i < |ix.scripts| :: ix.scripts[i] < |flags|)
    && (forall i | 0 <= i < |ix.forms| :: ix.forms[i] < |flags|)
    && (forall i | 0 <= i < |ix.inputs| :: ix.inputs[i] < |flags|)
    && (ix.titleNode.Some? ==> ix.titleNode.value < |flags|)
    && (ix.metaDescNode.Some? ==> ix.metaDescNode.value < |flags|)
  }

  lemma RemovedIndex(s: Slots, f: Forest, r: nat, u: Slots, ix: Index)
    requires s.Shape() && s.Rep(f) && r in f.parent && u == Removed(s, f, r) && IndexOk(s, ix)
    ensures InFlags(ix, u.flags) && IndexOk(u, KeptIndex(ix, u.flags))
  {
    hide Removed, Forest.Ok, Slots.Rep;
    forall x: nat | x < |u.parents|
      ensures u.flags[x] == 0 || (u.flags[x] == s.flags[x] && u.tagIds[x] == s.tagIds[x])
    {
      RemovedNode(s, f, r, x);
    }
    KeptLists(s, u, ix.scripts, {SCRIPT});
    KeptLists(s, u, ix.forms, {FORM});
    KeptLists(s, u, ix.inputs, INPUT_TAGS);
  }

  lemma {:induction false} KeptInOrder(birth: map<nat, nat>, list: seq<nat>, flags: seq<nat>)
    requires (forall i | 0 <= i < |list| :: list[i] < |flags|) && OldestFirst(birth, list)
    ensures OldestFirst(birth, Kept(list, flags)) && forall x :: x in Kept(list, flags) ==> x in list
  {
    if list != [] {
      var front, last := list[..|list| - 1], list[|list| - 1];
      KeptInOrder(birth, front, flags);
      var k := Kept(front, flags);
      forall i | 0 <= i < |k| ensures birth[k[i]] < birth[last] {
        assert k[i] in front;
      }
    }
  }

  lemma SurvivorsInOrder(f: Forest, r: nat, u: Slots, list: seq<nat>, tags: set<nat>)
    requires f.Ok() && r in f.parent && u.Shape() && Prune(f, r).Ok() && u.Rep(Prune(f, r))
    requires (forall i | 0 <= i < |list| :: list[i] < |u.flags|) && OldestFirst(f.birth, list)
    requires Lists(u, Kept(list, u.flags), tags)
    ensures OldestFirst(Prune(f, r).birth, Kept(list, u.flags))
  {
    var k, birth := Kept(list, u.flags), Prune(f, r).birth;
    KeptInOrder(f.birth, list, u.flags);
    forall i | 0 <= i < |k| ensures k[i] in birth && birth[k[i]] == f.birth[k[i]] {
      assert k[i] in k;
      assert u.Live(k[i]);
    }
  }

  /** A removal keeps the order of what survives. */
  lemma RemovedInOrder(f: Forest, frees: seq<nat>, r: nat, u: Slots, ix: Index)
    requires f.Ok() && r in f.parent && CoreOk(u, Prune(f, r), frees)
    requires InFlags(ix, u.flags) && IndexOk(u, KeptIndex(ix, u.flags)) && IndexInOrder(f, ix)
    ensures IndexInOrder(Prune(f, r), KeptIndex(ix, u.flags))
  {
    hide Prune, Lists, OldestFirst, Kept, Forest.Ok;
    CoreForest(u, Prune(f, r), frees);
    SurvivorsInOrder(f, r, u, ix.scripts, {SCRIPT});
    SurvivorsInOrder(f, r, u, ix.forms, {FORM});
    SurvivorsInOrder(f, r, u, ix.inputs, INPUT_TAGS);
  }

  lemma RemovedWhole(s: Slots, f: Forest, frees: seq<nat>, r: nat, u: Slots, bumped: seq<nat>, ix: Index)
    requires CoreOk(s, f, frees) && r in f.parent && IndexOk(s, ix)
    requires u == Removed(s, f, r) && bumped == Bumped(frees, f, r)
    ensures u.free == s.free + PostOrder(f, r)
    ensures CoreOk(u, Prune(f, r), bumped) && Evolves(s, frees, u, bumped)
    ensures InFlags(ix, u.flags) && IndexOk(u, KeptIndex(ix, u.flags))
  {
    hide Removed, Bumped, Prune, Slots.Rep, Slots.FreeOk, Forest.Ok;
    RemovedFree(s, f, r);
    RemovedCore(s, f, frees, r, u, bumped);
    RemovedIndex(s, f, r, u, ix);
  }

  // ----- what the stored orders decide

  lemma {:induction false} ExtendsKeepsAncestry(g: Forest, f: Forest, r: nat, x: nat)
    requires g.Ok() && f.Ok() && Extends(g, f) && x in g.kids
    ensures x in f.kids
    ensures g.Anc(r, x) <==> f.Anc(r, x)
    decreases g.birth[x]
  {
    if x != r && x != NIL {
      ExtendsKeepsAncestry(g, f, r, g.parent[x]);
    }
  }

  lemma OrdersKnown(n: nat, pre: seq<nat>, post: seq<nat>, numbered: Forest, f: Forest, x: nat)
    requires OrdersOk(n, pre, post, numbered, f) && |pre| == n && x < n && x in f.parent
    ensures |post| == n && numbered.Ok() && f.Ok() && Extends(numbered, f) && x in f.kids && x != NIL
    ensures Stored(numbered, pre[x], post[x], x)
  {
  }

  lemma BothNumbered(f: Forest, a: nat, b: nat, c: nat, d: nat, r: nat, x: nat)
    requires f.Ok() && r in f.kids && x in f.kids && r != NIL && x != NIL
    requires EventAt(f, a + 1, Enter(r)) && EventAt(f, b + 1, Exit(r))
    requires EventAt(f, c + 1, Enter(x)) && EventAt(f, d + 1, Exit(x))
    ensures a <= c && d <= b <==> f.Anc(r, x)
  {
    hide Forest.Ok, Forest.Anc;
    IntervalsDecideAncestry(f, r, a + 1, b + 1, x, c + 1, d + 1);
  }

  /** The interval test on the stored orders is the ancestor test for nodes that were there when the orders were
      computed. About a node pushed since then it says that it has no numbered ancestor, and that it is a
      descendant of every other node pushed since. */
  lemma OrdersDecide(n: nat, pre: seq<nat>, post: seq<nat>, numbered: Forest, f: Forest, x: nat, r: nat)
    requires OrdersOk(n, pre, post, numbered, f) && |pre| == n
    requires x in f.parent && r in f.parent && x < n && r < n
    ensures (pre[r] <= pre[x] && post[x] <= post[r])
       <==> if x in numbered.parent then f.Anc(r, x) else r !in numbered.parent
  {
    hide *;
    OrdersKnown(n, pre, post, numbered, f, x);
    OrdersKnown(n, pre, post, numbered, f, r);
    StoredDecide(numbered, f, pre[x], post[x], pre[r], post[r], x, r);
  }

  /** What is known of the orders stored for `x`. */
  ghost predicate Stored(g: Forest, p: nat, q: nat, x: nat)
    requires g.Ok()
  {
    && (x in g.parent ==> x in g.kids && p < NIL && q < NIL && EventAt(g, p + 1, Enter(x)) && EventAt(g, q + 1, Exit(x)))
    && (x !in g.parent ==> p == NIL && q == NIL && x !in g.kids)
  }

  lemma StoredDecide(g: Forest, f: Forest, px: nat, qx: nat, pr: nat, qr: nat, x: nat, r: nat)
    requires g.Ok() && f.Ok() && Extends(g, f) && x in f.kids && x != NIL && r != NIL
    requires Stored(g, px, qx, x) && Stored(g, pr, qr, r)
    ensures pr <= px && qx <= qr <==> if x in g.parent then f.Anc(r, x) else r !in g.parent
  {
    hide EventAt, Forest.Ok, Forest.Anc, Extends;
    if x in g.parent {
      NumberedDecide(g, f, px, qx, pr, qr, x, r);
    }
  }

  lemma NumberedDecide(g: Forest, f: Forest, preX: nat, postX: nat, preR: nat, postR: nat, x: nat, r: nat)
    requires g.Ok() && f.Ok() && Extends(g, f) && x in g.parent && x in g.kids && x in f.kids && x != NIL && r != NIL
    requires preX < NIL && postX < NIL && EventAt(g, preX + 1, Enter(x)) && EventAt(g, postX + 1, Exit(x))
    requires r in g.parent ==> r in g.kids && EventAt(g, preR + 1, Enter(r)) && EventAt(g, postR + 1, Exit(r))
    requires r !in g.parent ==> preR == NIL && r !in g.kids
    ensures preR <= preX && postX <= postR <==> f.Anc(r, x)
  {
    hide EventAt, Forest.Ok, Forest.Anc, Forest.Walk, Extends;
    ExtendsKeepsAncestry(g, f, r, x);
    if r in g.parent {
      BothNumbered(g, preR, postR, preX, postX, r, x);
    } else if g.Anc(r, x) {
      AncBirth(g, r, x);
    }
  }

  // ----- when the answer of the ancestor test is right

  /** What the test answers about two different live nodes: from the orders if there is one for each slot, else by a
      bounded walk. */
  ghost predicate Answer(f: Forest, numbered: Forest, oneEach: bool, x: nat, r: nat)
    requires f.Ok() && x in f.parent && x in f.kids && f.parent[x] in f.kids
  {
    if !oneEach then Within(f, r, f.parent[x], MAX_HOPS)
    else if x in numbered.parent then f.Anc(r, x) else r !in numbered.parent
  }

  /** With orders it is right exactly for numbered nodes and where being an ancestor and being unnumbered agree;
      without, exactly up to 513 generations. */
  lemma AnswerIsAncestry(f: Forest, numbered: Forest, oneEach: bool, x: nat, r: nat)
    requires f.Ok() && x != r && x in f.parent && r in f.parent && x in f.kids && r in f.kids && f.parent[x] in f.kids
    ensures (Answer(f, numbered, oneEach, x, r) <==> f.Anc(r, x))
       <==> if oneEach then x in numbered.parent || (f.Anc(r, x) <==> r !in numbered.parent)
            else f.Anc(r, x) ==> Depth(f, x) - Depth(f, r) <= MAX_HOPS + 1
  {
    assert x != NIL;
    hide Forest.Ok;
    WithinIsBoundedAncestry(f, r, f.parent[x], MAX_HOPS);
    assert f.Anc(r, x) <==> f.Anc(r, f.parent[x]);
  }

  /** A leaf pushed into a reused slot after the numbering is not seen below its parent. */
  lemma PushedLeafMissed(g: Forest, p: nat, n: nat, f: Forest)
    requires g.Ok() && p in g.parent && p in g.kids && n !in g.kids && f == AddLeaf(g, p, n) && f.Ok()
    ensures n in f.parent && n in f.kids && f.parent[n] == p && p in f.kids
    ensures f.Anc(p, n) && !Answer(f, g, true, n, p)
  {
    assert n != NIL && n !in g.parent;
    hide Forest.Ok;
    assert f.Anc(p, p);
  }

  /** And it is taken for an ancestor of the next such leaf, wherever that was put. */
  lemma PushedLeafMistaken(g: Forest, f: Forest, n: nat, m: nat)
    requires g.Ok() && f.Ok() && Extends(g, f) && n != m && n !in g.parent && m !in g.parent
    requires n in f.parent && m in f.parent && m in f.kids && f.parent[m] in f.kids && f.parent[m] in g.kids
    ensures !f.Anc(n, m) && Answer(f, g, true, m, n)
  {
    assert n != NIL && m != NIL && n !in g.kids;
    hide Forest.Ok;
    OldNotBelow(g, f, n, f.parent[m]);
  }

  /** What was there before is below nothing that was pushed since. */
  lemma {:induction false} OldNotBelow(g: Forest, f: Forest, n: nat, x: nat)
    requires g.Ok() && f.Ok() && Extends(g, f) && x in g.kids && x in f.kids && n !in g.kids && n != NIL
    ensures !f.Anc(n, x)
    decreases f.birth[x]
  {
    if x != NIL {
      OldNotBelow(g, f, n, f.parent[x]);
    }
  }

  // ----- ids over a whole run

  datatype Snapshot = Snapshot(s: Slots, frees: seq<nat>)

  predicate ValidId(s: Slots, id: NodeId) {
    && id.index < |s.parents| == |s.flags| == |s.generations|
    && s.flags[id.index] != 0 && s.generations[id.index] == id.generation
  }

  /** A run: each arena comes out of the one before by pushes and removals, and generations count frees. */
  ghost predicate Run(run: seq<Snapshot>) {
    && (forall i | 0 <= i < |run| :: Counted(run[i]))
    && (forall i | 0 <= i < |run| - 1 :: Evolves(run[i].s, run[i].frees, run[i + 1].s, run[i + 1].frees))
  }

  ghost predicate Counted(c: Snapshot) {
    && c.s.Shape() && |c.frees| == |c.s.parents|
    && forall x: nat | x < |c.frees| :: c.s.generations[x] == c.frees[x] % GENERATIONS
  }

  lemma {:induction false} RunEvolves(run: seq<Snapshot>, i: nat, j: nat)
    requires Run(run) && i <= j < |run|
    ensures Counted(run[i]) && Evolves(run[i].s, run[i].frees, run[j].s, run[j].frees)
    decreases j - i
  {
    assert Counted(run[i]);
    if i < j {
      RunEvolves(run, i, j - 1);
      assert Evolves(run[j - 1].s, run[j - 1].frees, run[j - 1 + 1].s, run[j - 1 + 1].frees);
    }
  }

  /** An id that was valid and then was not becomes valid again only once its slot has been freed 2^32 times. */
  lemma RevivalTakesAWrap(run: seq<Snapshot>, i: nat, j: nat, k: nat, id: NodeId)
    requires Run(run) && i <= j <= k < |run|
    requires ValidId(run[i].s, id) && !ValidId(run[j].s, id) && ValidId(run[k].s, id)
    ensures id.index < |run[i].frees| && id.index < |run[k].frees|
    ensures run[k].frees[id.index] - run[i].frees[id.index] >= GENERATIONS
  {
    RunEvolves(run, i, j);
    RunEvolves(run, j, k);
    assert Counted(run[j]) && Counted(run[k]);
    var x := id.index;
    var a, b, c := run[i].frees[x], run[j].frees[x], run[k].frees[x];
    assert a < b;
    SameResidue(a, c);
  }

  lemma SameResidue(a: nat, c: nat)
    requires a < c && a % GENERATIONS == c % GENERATIONS
    ensures c - a >= GENERATIONS
  {
  }

  class DomTree {
    var parents: seq<nat>
    var firstChild: seq<nat>
    var lastChild: seq<nat>
    var nextSibling: seq<nat>
    var prevSibling: seq<nat>
    var tagIds: seq<nat>
    var flags: seq<nat>
    var generations: seq<nat>
    var free: seq<nat>
    var rootsHead: nat
    var rootsTail: nat
    var truncated: bool
    var preOrder: seq<nat>
    var postOrder: seq<nat>
    var scripts: seq<nat>
    var forms: seq<nat>
    var inputs: seq<nat>
    var titleNode: Option<nat>
    var metaDescNode: Option<nat>

    /** The document the vectors represent. */
    ghost var f: Forest
    /** How often each slot has been freed, without wrap-around. */
    ghost var frees: seq<nat>
    /** The document as it was when the orders were last computed. */
    ghost var numbered: Forest

    ghost function View(): Slots
      reads this
    {
      Slots(parents, firstChild, lastChild, nextSibling, prevSibling, tagIds, flags, generations, free, rootsHead, rootsTail)
    }

    ghost function Ix(): Index
      reads this
    {
      Index(scripts, forms, inputs, titleNode, metaDescNode)
    }

    ghost predicate Valid()
      reads this
    {
      && CoreOk(View(), f, frees)
      && IndexOk(View(), Ix())
      && IndexInOrder(f, Ix())
      && OrdersOk(|parents|, preOrder, postOrder, numbered, f)
    }

    constructor ()
      ensures Valid()
      ensures f.kids == map[NIL := []] && parents == [] && !truncated
    {
      parents, firstChild, lastChild, nextSibling, prevSibling := [], [], [], [], [];
      tagIds, flags, generations, free := [], [], [], [];
      rootsHead, rootsTail, truncated := NIL, NIL, false;
      preOrder, postOrder := [], [];
      scripts, forms, inputs, titleNode, metaDescNode := [], [], [], None, None;
      f := Forest(map[NIL := []], map[], map[NIL := 0], 1);
      numbered := Forest(map[NIL := []], map[], map[NIL := 0], 1);
      frees := [];
    }

    method AllocSlot() returns (r: Option<nat>)
      requires View().Shape()
      modifies this`free, this`truncated
      ensures old(free) != [] ==>
        r == Some(old(free)[|old(free)| - 1]) && free == old(free)[..|old(free)| - 1] && truncated == old(truncated)
      ensures old(free) == [] && |parents| < MAX_NODES ==>
        r == Some(|parents|) && free == [] && truncated == old(truncated)
      ensures old(free) == [] && |parents| == MAX_NODES ==>
        r == None && free == [] && truncated
    {
      if free != [] {
        r := Some(free[|free| - 1]);
        free := free[..|free| - 1];
      } else if |parents| < MAX_NODES {
        r := Some(|parents|);
      } else {
        truncated := true;
        r := None;
      }
    }

    method SetHead(parent: nat, v: nat)
      requires View().Shape() && (parent == NIL || parent < |parents|)
      modifies this`rootsHead, this`firstChild
      ensures View() == if parent == NIL then old(View()).(rootsHead := v)
                        else old(View()).(firstChild := old(firstChild)[parent := v])
    {
      if parent == NIL {
        rootsHead := v;
      } else {
        firstChild := firstChild[parent := v];
      }
    }

    method SetTail(parent: nat, v: nat)
      requires View().Shape() && (parent == NIL || parent < |parents|)
      modifies this`rootsTail, this`lastChild
      ensures View() == if parent == NIL then old(View()).(rootsTail := v)
                        else old(View()).(lastChild := old(lastChild)[parent := v])
    {
      if parent == NIL {
        rootsTail := v;
      } else {
        lastChild := lastChild[parent := v];
      }
    }

    method LinkChild(parent: nat, child: nat)
      requires View().Shape() && child < |parents| && (parent == NIL || parent < |parents|)
      requires View().Tail(parent) == NIL || View().Tail(parent) < |parents|
      modifies this`parents, this`nextSibling, this`prevSibling, this`rootsHead, this`firstChild, this`rootsTail, this`lastChild
      ensures View() == Linked(old(View()), parent, child)
    {
      parents := parents[child := parent];
      var prev := if parent == NIL then rootsTail else lastChild[parent];
      if prev == NIL {
        SetHead(parent, child);
      } else {
        nextSibling := nextSibling[prev := child];
        prevSibling := prevSibling[child := prev];
      }
      SetTail(parent, child);
    }

    method FillSlot(i: nat, tag: nat, flag: nat)
      requires View().Shape() && CanPush(View(), i)
      modifies this`parents, this`firstChild, this`lastChild, this`nextSibling, this`prevSibling, this`tagIds,
               this`flags, this`generations
      ensures View() == Filled(old(View()), i, tag, flag)
    {
      if i == |parents| {
        parents, firstChild, lastChild := parents + [NIL], firstChild + [NIL], lastChild + [NIL];
        nextSibling, prevSibling := nextSibling + [NIL], prevSibling + [NIL];
        tagIds, flags, generations := tagIds + [TAG_UNKNOWN], flags + [0], generations + [0];
      }
      firstChild := firstChild[i := NIL];
      lastChild := lastChild[i := NIL];
      nextSibling := nextSibling[i := NIL];
      prevSibling := prevSibling[i := NIL];
      tagIds := tagIds[i := tag];
      flags := flags[i := flag];
    }

    /** Takes a slot, fills it and links it as the last child of `parent`. */
    method LinkNewSlot(parent: nat, tag: nat, flag: nat) returns (r: Option<nat>)
      requires CoreOk(View(), f, frees) && parent in f.kids && flag != 0
      modifies this`parents, this`firstChild, this`lastChild, this`nextSibling, this`prevSibling, this`tagIds, this`flags,
               this`generations, this`rootsHead, this`rootsTail, this`free, this`truncated
      ensures r == None <==> old(free) == [] && old(|parents|) == MAX_NODES
      ensures r == None ==> View() == old(View()) && truncated
      ensures r.Some? ==> r.value !in f.kids && r.value <= old(|parents|) && truncated == old(truncated)
      ensures r.Some? ==> CoreOk(View(), AddLeaf(f, parent, r.value), if r.value < old(|parents|) then frees else frees + [0])
      ensures r.Some? ==> SameNodes(old(View()), View(), r.value)
      ensures r.Some? ==> |parents| == if r.value < old(|parents|) then old(|parents|) else old(|parents|) + 1
      ensures r.Some? ==> r.value < |View().parents| && View().flags[r.value] == flag && View().tagIds[r.value] == tag
    {
      hide Forest.Ok, Slots.Rep, Slots.FreeOk, Ready, Filled, Linked, SameNodes;
      ghost var s := View();
      r := AllocSlot();
      if r == None {
        return;
      }
      var i := r.value;
      PushWhole(s, f, frees, parent, i, tag, flag, free);
      FillSlot(i, tag, flag);
      LinkChild(parent, i);
    }

    method PushSlot(parent: nat, tag: nat, flag: nat) returns (r: Option<nat>)
      requires CoreOk(View(), f, frees) && OrdersOk(|parents|, preOrder, postOrder, numbered, f)
      requires parent in f.kids && flag != 0
      modifies this`parents, this`firstChild, this`lastChild, this`nextSibling, this`prevSibling, this`tagIds, this`flags,
               this`generations, this`rootsHead, this`rootsTail, this`free, this`truncated, this`f, this`frees
      ensures r == None <==> old(free) == [] && old(|parents|) == MAX_NODES
      ensures r == None ==> View() == old(View()) && f == old(f) && frees == old(frees) && truncated
      ensures r.Some? ==> r.value !in old(f).kids && r.value <= old(|parents|) && truncated == old(truncated)
      ensures r.Some? ==> f == AddLeaf(old(f), parent, r.value)
      ensures r.Some? ==> frees == if r.value < old(|parents|) then old(frees) else old(frees) + [0]
      ensures r.Some? ==> SameNodes(old(View()), View(), r.value)
      ensures r.Some? ==> |parents| == if r.value < old(|parents|) then old(|parents|) else old(|parents|) + 1
      ensures r.Some? ==> r.value < |View().parents| == |View().flags| == |View().tagIds|
      ensures r.Some? ==> View().flags[r.value] == flag && View().tagIds[r.value] == tag
      ensures CoreOk(View(), f, frees) && OrdersOk(|parents|, preOrder, postOrder, numbered, f)
    {
      hide Forest.Ok, OrdersOk, Slots.FreeOk;
      r := LinkNewSlot(parent, tag, flag);
      if r.Some? {
        PushOrders(old(|parents|), |parents|, preOrder, postOrder, numbered, f, parent, r.value);
        if r.value == old(|parents|) {
          frees := frees + [0];
        }
        f := AddLeaf(f, parent, r.value);
      }
    }

    method AddToIndex(i: nat, tag: nat, describes: bool)
      modifies this`scripts, this`forms, this`inputs, this`titleNode, this`metaDescNode
      ensures Ix() == Indexed(old(Ix()), i, tag, describes)
    {
      if tag == SCRIPT {
        scripts := scripts + [i];
      } else if tag == FORM {
        forms := forms + [i];
      } else if IsInputTag(tag) {
        inputs := inputs + [i];
      } else if tag == TITLE && titleNode == None {
        titleNode := Some(i);
      } else if tag == META && metaDescNode == None && describes {
        metaDescNode := Some(i);
      }
    }

    /** The element itself, before the side indexes learn of it. */
    method PushElement(parent: nat, tag: nat, ghost describes: bool) returns (r: Option<nat>)
      requires Valid() && parent in f.kids
      modifies this`parents, this`firstChild, this`lastChild, this`nextSibling, this`prevSibling, this`tagIds, this`flags,
               this`generations, this`rootsHead, this`rootsTail, this`free, this`truncated, this`f, this`frees
      ensures CoreOk(View(), f, frees) && OrdersOk(|parents|, preOrder, postOrder, numbered, f)
      ensures r == None <==> |old(f).parent.Keys| == MAX_NODES
      ensures r == None ==> f == old(f) && View() == old(View()) && truncated
      ensures r.Some? ==> ElementAdded(old(View()), old(f), View(), f, parent, tag, r.value)
      ensures r.Some? ==> IndexOk(View(), Indexed(Ix(), r.value, tag, describes))
      ensures r.Some? ==> IndexInOrder(f, Indexed(Ix(), r.value, tag, describes))
      ensures Evolves(old(View()), old(frees), View(), frees)
    {
      hide CoreOk, OrdersOk, IndexOk, IndexInOrder, SameNodes, Evolves, AddLeaf, Forest.Ok, Indexed, ElementAdded;
      CoreForest(View(), f, frees);
      NodeCount(View(), f, frees);
      ghost var s, s_f, s_frees := View(), f, frees;
      r := PushSlot(parent, tag, ELEMENT);
      if r.Some? {
        ElementOpened(s, s_f, s_frees, View(), f, frees, parent, r.value, Ix(), tag, describes);
      } else {
        EvolvesRefl(View(), f, frees);
      }
    }

    /** Adds an element as the last child of `parent`, or fails when every slot of a full arena is live.
        `describes` says whether a meta element is the page description. */
    method OpenElement(parent: nat, tag: nat, describes: bool) returns (r: Option<nat>)
      requires Valid() && parent in f.kids
      modifies this
      ensures Valid() && preOrder == old(preOrder) && postOrder == old(postOrder) && numbered == old(numbered)
      ensures r == None <==> |old(f).parent.Keys| == MAX_NODES
      ensures r == None ==> f == old(f) && View() == old(View()) && Ix() == old(Ix()) && truncated
      ensures r.Some? ==> ElementAdded(old(View()), old(f), View(), f, parent, tag, r.value)
      ensures r.Some? ==> Ix() == Indexed(old(Ix()), r.value, tag, describes)
      ensures titleNode == if old(titleNode) == None && tag == TITLE then r else old(titleNode)
      ensures metaDescNode == if old(metaDescNode) == None && tag == META && describes then r else old(metaDescNode)
      ensures Evolves(old(View()), old(frees), View(), frees)
    {
      hide CoreOk, OrdersOk, IndexOk, IndexInOrder, Evolves, Indexed, ElementAdded;
      r := PushElement(parent, tag, describes);
      if r.Some? {
        FirstTaken(Ix(), r.value, tag, describes);
        AddToIndex(r.value, tag, describes);
      }
    }

    /** A new text node, if there is a slot for it. */
    method AppendText(parent: nat)
      requires Valid() && parent in f.kids
      modifies this
      ensures Valid() && Ix() == old(Ix()) && numbered == old(numbered)
      ensures if |old(f).parent.Keys| == MAX_NODES then f == old(f) && View() == old(View())
              else exists i :: TextAdded(View(), old(f), f, parent, i)
      ensures Evolves(old(View()), old(frees), View(), frees)
    {
      hide CoreOk, OrdersOk, IndexOk, IndexInOrder, SameNodes, Evolves, AddLeaf, Forest.Ok;
      ghost var s, s_f, s_frees := View(), f, frees;
      CoreForest(s, f, frees);
      NodeCount(s, f, frees);
      var r := PushSlot(parent, TAG_UNKNOWN, TEXT);
      if r.Some? {
        OpenedOk(s, s_f, s_frees, View(), r.value, Ix(), TAG_UNKNOWN, false);
        OpenedInOrder(s_f, parent, r.value, Ix(), TAG_UNKNOWN, false);
        assert TextAdded(View(), s_f, f, parent, r.value);
      } else {
        EvolvesRefl(View(), f, frees);
      }
    }

    /** Adds a text node below `parent`, unless there is no parent or the text was merged into an adjacent one.
        `merges` says whether the new text continues the last child's in the pool and still fits. */
    method PushText(parent: nat, merges: bool)
      requires Valid() && parent in f.kids
      modifies this
      ensures Valid() && Ix() == old(Ix()) && numbered == old(numbered)
      ensures var dropped := parent == NIL || Continues(old(View()), old(f), parent, merges);
              if dropped || |old(f).parent.Keys| == MAX_NODES then f == old(f) && View() == old(View())
              else exists i :: TextAdded(View(), old(f), f, parent, i)
      ensures Evolves(old(View()), old(frees), View(), frees)
    {
      hide CoreOk, OrdersOk, IndexOk, IndexInOrder, TextAdded, Evolves, Forest.Ok;
      EvolvesRefl(View(), f, frees);
      if parent == NIL {
        return;
      }
      LastChildInRange(View(), f, frees, parent);
      var last := lastChild[parent];
      if last != NIL && flags[last] / TEXT % 2 == 1 && merges {
        return;
      }
      AppendText(parent);
    }

    method UnlinkNode(node: nat)
      requires View().Shape() && node < |parents| && CanUnlink(View(), node, parents[node])
      modifies this`nextSibling, this`prevSibling, this`rootsHead, this`firstChild, this`rootsTail, this`lastChild
      ensures View() == Unlinked(old(View()), node)
    {
      var prev, next, parent := prevSibling[node], nextSibling[node], parents[node];
      if prev != NIL {
        nextSibling := nextSibling[prev := next];
      } else {
        SetHead(parent, next);
      }
      if next != NIL {
        prevSibling := prevSibling[next := prev];
      } else {
        SetTail(parent, prev);
      }
      prevSibling := prevSibling[node := NIL];
      nextSibling := nextSibling[node := NIL];
    }

    method FreeNode(node: nat)
      requires View().Shape() && node < |parents|
      modifies this`parents, this`firstChild, this`lastChild, this`nextSibling, this`prevSibling, this`tagIds, this`flags,
               this`generations, this`free
      ensures View() == Freed(old(View()), node)
    {
      generations := generations[node := (generations[node] + 1) % GENERATIONS];
      flags := flags[node := 0];
      tagIds := tagIds[node := TAG_UNKNOWN];
      parents := parents[node := NIL];
      firstChild := firstChild[node := NIL];
      lastChild := lastChild[node := NIL];
      nextSibling := nextSibling[node := NIL];
      prevSibling := prevSibling[node := NIL];
      free := free + [node];
    }

    /** Frees the unlinked subtree at `root` in place: down to a leaf, then leaf by leaf, sibling by sibling and back up. */
    method FreeSubtree(root: nat)
      requires View().Shape() && f.Ok() && root in f.parent && SubtreeOk(View(), f, root)
      requires root < |parents| && nextSibling[root] == NIL
      modifies this`parents, this`firstChild, this`lastChild, this`nextSibling, this`prevSibling, this`tagIds, this`flags,
               this`generations, this`free
      ensures InRange(old(View()), PostOrder(f, root))
      ensures View() == FreedAll(old(View()), PostOrder(f, root))
    {
      hide Standing, SubtreeOk, Forest.Ok, InRange, Freed, FreedAll;
      ghost var s := View();
      var node := root;
      ghost var done: seq<Event> := [];
      StandingFirst(s, f, root);
      while true
        invariant Standing(View(), s, f, root, node, done, true)
        decreases |f.Walk(root)| - |done|
      {
        EnterStep(View(), s, f, root, node, done);
        done := done + [Enter(node)];
        var child := firstChild[node];
        if child != NIL {
          node := child;
          continue;
        }
        ghost var entered := |done|;
        while true
          invariant Standing(View(), s, f, root, node, done, false)
          invariant entered <= |done|
          decreases |f.Walk(root)| - |done|
        {
          ExitStep(View(), s, f, root, node, done);
          var parent := parents[node];
          var next := nextSibling[node];
          FreeNode(node);
          done := done + [Exit(node)];
          if node == root {
            break;
          }
          if next != NIL {
            node := next;
            break;
          }
          node := parent;
        }
        if node == root {
          break;
        }
      }
    }

    /** The children of `p` in order, read off the sibling links. */
    method CollectKids(p: nat) returns (kids: seq<nat>)
      requires CoreOk(View(), f, frees) && p in f.kids
      ensures kids == f.kids[p]
    {
      hide Forest.Ok;
      ghost var l := f.kids[p];
      NoNil(View(), f, p);
      var cur := if p == NIL then rootsHead else firstChild[p];
      kids := [];
      while cur != NIL
        invariant |kids| <= |l| && kids == l[..|kids|] && cur == Nth(l, |kids|)
        decreases |l| - |kids|
      {
        assert View().LinkOk(p, l, |kids|);
        kids := kids + [cur];
        cur := nextSibling[cur];
      }
    }

    /** Pushes the siblings so that the first one ends up on top. */
    static method PushReversed(stack0: seq<(nat, bool)>, kids: seq<nat>) returns (stack: seq<(nat, bool)>)
      ensures stack == stack0 + Frames(kids)
    {
      stack := stack0;
      var i := |kids|;
      while i > 0
        invariant 0 <= i <= |kids|
        invariant stack == stack0 + Frames(kids[i..])
      {
        i := i - 1;
        assert kids[i..][0] == kids[i] && kids[i..][1..] == kids[i + 1..];
        stack := stack + [(kids[i], false)];
      }
      assert kids[0..] == kids;
    }

    /** Numbers the nodes by entering and leaving times of a depth-first traversal with an explicit stack. */
    method ComputeOrders()
      requires CoreOk(View(), f, frees)
      modifies this`preOrder, this`postOrder, this`numbered
      ensures numbered == f && |preOrder| == |parents|
      ensures OrdersOk(|parents|, preOrder, postOrder, numbered, f)
    {
      hide Numbering, OrdersOk, CoreOk, Forest.Ok, Forest.Walk, NextTick;
      var n := |parents|;
      CoreNodes(View(), f, frees);
      preOrder := seq(n, _ => NIL);
      postOrder := seq(n, _ => NIL);
      var roots := CollectKids(NIL);
      var stack := PushReversed([], roots);
      assert [] + Frames(roots) == Frames(roots);
      NumberingFirst(n, f, preOrder);
      var tick := 0;
      ghost var done: seq<Event> := [];
      while stack != []
        invariant Numbering(n, preOrder, postOrder, f, done, stack)
        invariant tick == |done| && |preOrder| == |postOrder| == n
        decreases |f.Walk(NIL)| - |done|
      {
        NumberingStep(n, preOrder, postOrder, f, done, stack);
        var (node, exit) := stack[|stack| - 1];
        stack := stack[..|stack| - 1];
        if exit {
          postOrder := postOrder[node := tick];
          done := done + [Exit(node)];
          tick := NextTick(tick);
        } else {
          preOrder := preOrder[node := tick];
          done := done + [Enter(node)];
          tick := NextTick(tick);
          stack := stack + [(node, true)];
          var kids := CollectKids(node);
          stack := PushReversed(stack, kids);
        }
      }
      NumberingDone(n, preOrder, postOrder, f, done);
      numbered := f;
    }

    function IsValid(id: NodeId): bool
      requires View().Shape()
      reads this
      ensures IsValid(id) <==> ValidId(View(), id)
    {
      id.index < |parents| && flags[id.index] != 0 && generations[id.index] == id.generation
    }

    /** Keeps the nodes of a side index that are still live, in their order. */
    method Retain(list: seq<nat>) returns (kept: seq<nat>)
      requires forall i | 0 <= i < |list| :: list[i] < |flags|
      ensures kept == Kept(list, flags)
    {
      kept := [];
      for i := 0 to |list|
        invariant kept == Kept(list[..i], flags)
      {
        assert list[..i + 1][..i] == list[..i];
        if flags[list[i]] != 0 {
          kept := kept + [list[i]];
        }
      }
      assert list[..|list|] == list;
    }

    method RetainIndexes()
      requires InFlags(Ix(), flags)
      modifies this`scripts, this`forms, this`inputs, this`titleNode, this`metaDescNode
      ensures Ix() == KeptIndex(old(Ix()), flags)
    {
      scripts := Retain(scripts);
      forms := Retain(forms);
      inputs := Retain(inputs);
      if titleNode.Some? && flags[titleNode.value] == 0 {
        titleNode := None;
      }
      if metaDescNode.Some? && flags[metaDescNode.value] == 0 {
        metaDescNode := None;
      }
    }

    /** Unlinks the subtree and frees it node by node; the arena then represents the pruned document. */
    method CutSubtree(root: nat)
      requires CoreOk(View(), f, frees) && root in f.parent
      modifies this`parents, this`firstChild, this`lastChild, this`nextSibling, this`prevSibling, this`tagIds, this`flags,
               this`generations, this`free, this`rootsHead, this`rootsTail
      ensures old(View()).Rep(f) && View() == Removed(old(View()), f, root)
    {
      hide Forest.Ok, Slots.Rep, Slots.FreeOk, Unlinked, FreedAll, SubtreeOk, Forest.Anc;
      CutReady(View(), f, frees, root);
      UnlinkNode(root);
      FreeSubtree(root);
    }

    /** Cuts the subtree and drops its nodes from the side indexes. */
    method CutAndForget(root: nat)
      requires CoreOk(View(), f, frees) && IndexOk(View(), Ix()) && IndexInOrder(f, Ix()) && root in f.parent
      modifies this`parents, this`firstChild, this`lastChild, this`nextSibling, this`prevSibling, this`tagIds, this`flags,
               this`generations, this`free, this`rootsHead, this`rootsTail,
               this`scripts, this`forms, this`inputs, this`titleNode, this`metaDescNode, this`f, this`frees
      ensures old(f).Ok() && root in old(f).kids
      ensures f == Prune(old(f), root) && frees == Bumped(old(frees), old(f), root)
      ensures free == old(free) + PostOrder(old(f), root)
      ensures InFlags(old(Ix()), flags) && Ix() == KeptIndex(old(Ix()), flags)
      ensures CoreOk(View(), f, frees) && IndexOk(View(), Ix()) && IndexInOrder(f, Ix())
      ensures Evolves(old(View()), old(frees), View(), frees)
    {
      hide CoreOk, IndexOk, IndexInOrder, InFlags, KeptIndex, Removed, Prune, Evolves, Bumped, PostOrder, Forest.Ok, Slots.Shape;
      ghost var s, g, counts, ix := View(), f, frees, Ix();
      NodeFacts(s, f, frees, root);
      CutSubtree(root);
      ghost var u := View();
      ghost var bumped := Bumped(counts, g, root);
      RemovedWhole(s, g, counts, root, u, bumped, ix);
      RemovedInOrder(g, bumped, root, u, ix);
      RetainIndexes();
      f := Prune(g, root);
      frees := bumped;
    }

    /** Removes the subtree of a valid id: exactly its nodes are freed, children before parents; every other node
        keeps its parent and its place among the surviving siblings. */
    method RemoveNode(id: NodeId) returns (ok: bool)
      requires Valid()
      modifies this
      ensures Valid()
      ensures ok <==> old(IsValid(id))
      ensures !ok ==> f == old(f) && View() == old(View()) && frees == old(frees) && Ix() == old(Ix())
      ensures ok ==> old(f).Ok() && id.index in old(f).parent && id.index in old(f).kids
      ensures ok ==> f == Prune(old(f), id.index) && frees == Bumped(old(frees), old(f), id.index)
      ensures ok ==> free == old(free) + PostOrder(old(f), id.index)
      ensures ok ==> InFlags(old(Ix()), flags) && Ix() == KeptIndex(old(Ix()), flags)
      ensures ok ==> titleNode == Surviving(f, old(titleNode)) && metaDescNode == Surviving(f, old(metaDescNode))
      ensures ok ==> numbered == f && |preOrder| == |parents|
      ensures Evolves(old(View()), old(frees), View(), frees)
    {
      hide IndexOk, IndexInOrder, OrdersOk, Slots.Rep, Slots.FreeOk, InFlags, KeptIndex, Removed, Prune, Evolves, Bumped, PostOrder, Forest.Ok;
      if !IsValid(id) {
        EvolvesRefl(View(), f, frees);
        return false;
      }
      LiveIsNode(View(), f, frees, id.index);
      ghost var ix := Ix();
      CutAndForget(id.index);
      KeptSingles(View(), f, frees, ix);
      ComputeOrders();
      return true;
    }

    /** Whether `node` lies in the subtree of `root`. */
    method IsDescendant(node: nat, root: nat) returns (r: bool)
      requires Valid()
      ensures node == root ==> r
      ensures node != root && !(node in f.parent && root in f.parent) ==> !r
      ensures node != root && node in f.parent && root in f.parent ==>
        node in f.kids && f.parent[node] in f.kids &&
        (r <==> Answer(f, numbered, |preOrder| == |parents|, node, root))
    {
      hide IndexOk, OrdersOk, Slots.FreeOk, Forest.Ok, Forest.Anc, Slots.ListOk;
      if node == root {
        return true;
      }
      if node >= |parents| || root >= |parents| {
        NodesInRange(View(), f, frees, node, root);
        return false;
      }
      NodesInRange(View(), f, frees, node, root);
      if flags[node] == 0 || flags[root] == 0 {
        return false;
      }
      if |preOrder| == |parents| {
        OrdersDecide(|parents|, preOrder, postOrder, numbered, f, node, root);
        OrdersShape(|parents|, preOrder, postOrder, numbered, f);
        return preOrder[root] <= preOrder[node] && postOrder[node] <= postOrder[root];
      }
      var cur := parents[node];
      var hops := 0;
      WithinStep(View(), f, frees, root, node);
      while cur != NIL
        invariant cur in f.kids && 0 <= hops <= MAX_HOPS
        invariant Within(f, root, f.parent[node], MAX_HOPS) <==> Within(f, root, cur, MAX_HOPS - hops)
        decreases MAX_HOPS - hops
      {
        if cur == root {
          return true;
        }
        WithinStep(View(), f, frees, root, cur);
        cur := parents[cur];
        hops := hops + 1;
        if hops > MAX_HOPS {
          return false;
        }
      }
      return false;
    }
  }
}
