/** The timer queue: a heap of keys whose cancelled entries stay behind, and a table of the tasks still wanted. */
module Timer {
  import opened Words

  const TIMER_CAP := 4096
  const MAX_ID := 0xFFFF_FFFF

  datatype Key = Key(dueUs: u64, order: u64, id: word, intervalUs: u64)

  /** Earlier due time first, then earlier arrival. */
  predicate Before(a: Key, b: Key) {
    a.dueUs < b.dueUs || (a.dueUs == b.dueUs && a.order < b.order)
  }

  // ----- ids

  /** The next id, never 0. */
  function BumpId(n: word): (r: word)
    ensures r >= 1
  {
    var next: int := (n + 1) % 0x1_0000_0000;
    if next >= 1 then next else 1
  }

  /** The id issued after `n` others. */
  function IdAfter(n: nat): word {
    if n == 0 then 1 else BumpId(IdAfter(n - 1))
  }

  /** Ids come round after 2^32 - 1 of them, not earlier. */
  lemma {:induction false} IdsComeRound(n: nat)
    ensures IdAfter(n) == n % MAX_ID + 1
  {
    if n > 0 {
      IdsComeRound(n - 1);
      hide IdAfter;
      Bumped(n - 1);
    }
  }

  lemma Bumped(n: nat)
    ensures BumpId(n % MAX_ID + 1) == (n + 1) % MAX_ID + 1
  {
    var m := n % MAX_ID;
    assert (n + 1) % MAX_ID == if m + 1 == MAX_ID then 0 else m + 1;
  }

  lemma LaterId(id: word, n: nat)
    requires 1 <= id <= n < MAX_ID
    ensures IdAfter(n) != id
  {
    IdsComeRound(n);
  }

  // ----- the heap as a collection of keys

  ghost predicate Has(heap: seq<Key>, id: word) {
    exists k :: k in heap && k.id == id
  }

  /** No two keys share an id or a sequence number, and all were given out. */
  ghost predicate Keyed(heap: seq<Key>, issued: nat, pushes: nat) {
    && (forall i, j | 0 <= i < j < |heap| :: heap[i].id != heap[j].id && heap[i].order != heap[j].order)
    && (forall k | k in heap :: 1 <= k.id <= issued && 1 <= k.order <= pushes)
  }

  function Without(heap: seq<Key>, i: nat): (r: seq<Key>)
    requires i < |heap|
    ensures |r| == |heap| - 1
    ensures forall k :: k in r ==> k in heap
    ensures forall k :: k in heap ==> k in r || k == heap[i]
  {
    assert forall k :: k in heap[..i] || k in heap[i + 1..] ==> k in heap;
    assert heap == heap[..i] + [heap[i]] + heap[i + 1..];
    heap[..i] + heap[i + 1..]
  }

  lemma WithoutKeyed(heap: seq<Key>, i: nat, issued: nat, pushes: nat)
    requires Keyed(heap, issued, pushes) && i < |heap|
    ensures Keyed(Without(heap, i), issued, pushes) && !Has(Without(heap, i), heap[i].id)
  {
    var r := Without(heap, i);
    assert forall j | 0 <= j < |r| :: r[j] == if j < i then heap[j] else heap[j + 1];
  }

  /** The position of a key that no other comes before. */
  function Top(heap: seq<Key>): (i: nat)
    requires heap != []
    ensures i < |heap| && forall k | k in heap :: !Before(k, heap[i])
  {
    if |heap| == 1 then 0 else
      var rest := heap[..|heap| - 1];
      var i, last := Top(rest), |heap| - 1;
      assert heap == rest + [heap[last]];
      if Before(heap[last], heap[i]) then last else i
  }

  /** The keys whose task is still wanted. */
  function Retain<Task>(heap: seq<Key>, tails: map<word, Task>): (r: seq<Key>)
    ensures forall k :: k in r <==> k in heap && k.id in tails
  {
    if heap == [] then [] else
      var rest, last := Retain(heap[..|heap| - 1], tails), heap[|heap| - 1];
      assert heap == heap[..|heap| - 1] + [last];
      if last.id in tails then rest + [last] else rest
  }

  lemma {:induction false} RetainKeyed<Task>(heap: seq<Key>, tails: map<word, Task>, issued: nat, pushes: nat)
    requires Keyed(heap, issued, pushes)
    ensures Keyed(Retain(heap, tails), issued, pushes)
    ensures |Retain(heap, tails)| <= |tails|
  {
    if heap != [] {
      var front, last := heap[..|heap| - 1], heap[|heap| - 1];
      if last.id in tails {
        RetainKeyed(front, tails - {last.id}, issued, pushes);
        SameRetain(front, tails, last.id);
      } else {
        RetainKeyed(front, tails, issued, pushes);
      }
    }
  }

  lemma {:induction false} SameRetain<Task>(heap: seq<Key>, tails: map<word, Task>, id: word)
    requires forall k | k in heap :: k.id != id
    ensures Retain(heap, tails - {id}) == Retain(heap, tails)
  {
    if heap != [] {
      SameRetain(heap[..|heap| - 1], tails, id);
    }
  }

  // ----- ids, the count of tasks and the tasks, as scripts change them

  datatype Op<Task> = Set(nowUs: u64, delayUs: u64, interval: bool, tail: Task) | Clear(id: word)

  datatype Book<Task> = Book(nextId: word, live: nat, tails: map<word, Task>)

  ghost function Pushed<Task>(b: Book<Task>, id: word, tail: Task): Book<Task> {
    if b.live >= TIMER_CAP then b else b.(live := b.live + 1, tails := b.tails[id := tail])
  }

  ghost function Removed<Task>(b: Book<Task>, id: word): Book<Task>
    requires |b.tails| <= b.live
  {
    if id in b.tails then b.(live := b.live - 1, tails := b.tails - {id}) else b
  }

  ghost function Done<Task>(b: Book<Task>, op: Op<Task>): (r: Book<Task>)
    requires |b.tails| <= b.live
    ensures |r.tails| <= r.live
  {
    match op
    case Set(_, _, _, tail) =>
      SizeAtMost(b.tails, b.nextId, tail);
      Pushed(b, b.nextId, tail).(nextId := BumpId(b.nextId))
    case Clear(id) => Removed(b, id)
  }

  ghost function DoneAll<Task>(b: Book<Task>, ops: seq<Op<Task>>): (r: Book<Task>)
    requires |b.tails| <= b.live
    ensures |r.tails| <= r.live
  {
    if ops == [] then b else Done(DoneAll(b, ops[..|ops| - 1]), ops[|ops| - 1])
  }

  /** How often a timer is set under an id that is still pending. */
  ghost function Clashes<Task>(b: Book<Task>, ops: seq<Op<Task>>): nat
    requires |b.tails| <= b.live
  {
    if ops == [] then 0 else
      var before, last := DoneAll(b, ops[..|ops| - 1]), ops[|ops| - 1];
      Clashes(b, ops[..|ops| - 1]) + if last.Set? && before.live < TIMER_CAP && before.nextId in before.tails then 1 else 0
  }

  /** The count runs ahead of the tasks by exactly the number of clashes, so it is right exactly when there were none. */
  lemma {:induction false} CountDrifts<Task>(b: Book<Task>, ops: seq<Op<Task>>)
    requires |b.tails| <= b.live
    ensures DoneAll(b, ops).live - |DoneAll(b, ops).tails| == b.live - |b.tails| + Clashes(b, ops)
  {
    if ops != [] {
      CountDrifts(b, ops[..|ops| - 1]);
      var before := DoneAll(b, ops[..|ops| - 1]);
      match ops[|ops| - 1] {
        case Set(_, _, _, tail) => SizeAtMost(before.tails, before.nextId, tail);
        case Clear(id) =>
      }
    }
  }

  /** Setting a timer keeps the count right exactly when the queue is full or the id is not pending. */
  lemma SetKeepsCount<Task>(b: Book<Task>, op: Op<Task>)
    requires b.live == |b.tails| && op.Set?
    ensures Done(b, op).live == |Done(b, op).tails| <==> b.live >= TIMER_CAP || b.nextId !in b.tails
  {
    SizeAtMost(b.tails, b.nextId, op.tail);
  }

  /** `n` timers, each cancelled at once, after one that is not. */
  ghost function Churn<Task>(n: nat, tail: Task): seq<Op<Task>> {
    if n == 0 then [] else Churn(n - 1, tail) + [Set(0, 1, false, tail), Clear(IdAfter(n))]
  }

  lemma {:induction false} ChurnKeeps<Task>(b: Book<Task>, n: nat, tail: Task)
    requires |b.tails| <= b.live < TIMER_CAP && b.nextId == IdAfter(1) && n < MAX_ID
    requires forall id | id in b.tails :: id == 1
    ensures DoneAll(b, Churn(n, tail)) == b.(nextId := IdAfter(n + 1))
  {
    hide IdAfter, Done, BumpId;
    if n > 0 {
      ChurnKeeps(b, n - 1, tail);
      ChurnStep(b, n, tail);
      DoneTwo(b, Churn(n - 1, tail), Set(0, 1, false, tail), Clear(IdAfter(n)));
    }
  }

  lemma ChurnStep<Task>(b: Book<Task>, n: nat, tail: Task)
    requires |b.tails| <= b.live < TIMER_CAP && 0 < n < MAX_ID
    requires forall id | id in b.tails :: id == 1
    ensures Done(Done(b.(nextId := IdAfter(n)), Set(0, 1, false, tail)), Clear(IdAfter(n))) == b.(nextId := IdAfter(n + 1))
  {
    IdsComeRound(n);
    hide IdAfter;
    var id := IdAfter(n);
    assert id != 1 && b.tails[id := tail] - {id} == b.tails;
    NextId(n);
  }

  lemma NextId(n: nat)
    ensures IdAfter(n + 1) == BumpId(IdAfter(n))
  {
  }

  lemma DoneTwo<Task>(b: Book<Task>, ops: seq<Op<Task>>, x: Op<Task>, y: Op<Task>)
    requires |b.tails| <= b.live
    ensures DoneAll(b, ops + [x, y]) == Done(Done(DoneAll(b, ops), x), y)
  {
    DoneOne(b, ops, x);
    DoneOne(b, ops + [x], y);
    assert ops + [x] + [y] == ops + [x, y];
  }

  /** One timer that stays, 2^32 - 2 more that are cancelled at once, and the next takes the id of the first: one
      task, counted as two. */
  lemma ComeRound<Task>(long: Task, tail: Task, n: nat, ops: seq<Op<Task>>)
    requires n + 1 == MAX_ID && ops == Churn(n, tail)
    ensures var start: Book<Task> := Book(1, 0, map[]);
            var set1: Op<Task> := Set(0, 3_600_000, false, long);
            var set2: Op<Task> := Set(0, 1, false, tail);
            Done(DoneAll(Done(start, set1), ops), set2) == Book(2, 2, map[1 := tail])
  {
    hide Churn, DoneAll, IdAfter;
    var b := Book(2, 1, map[1 := long]);
    IdsComeRound(1);
    IdsComeRound(MAX_ID);
    ChurnKeeps(b, n, tail);
    assert b.(nextId := IdAfter(n + 1)) == Book(1, 1, map[1 := long]);
  }

  /** The ops without the clearing of `id`. */
  ghost function Sans<Task>(ops: seq<Op<Task>>, id: word): seq<Op<Task>> {
    if ops == [] then [] else
      var rest, last := Sans(ops[..|ops| - 1], id), ops[|ops| - 1];
      if last == Clear(id) then rest else rest + [last]
  }

  ghost function Sets<Task>(ops: seq<Op<Task>>): (n: nat)
    ensures n <= |ops|
  {
    if ops == [] then 0 else Sets(ops[..|ops| - 1]) + if ops[|ops| - 1].Set? then 1 else 0
  }

  lemma {:induction false} IdsGiven<Task>(b: Book<Task>, ops: seq<Op<Task>>, issued: nat)
    requires |b.tails| <= b.live && b.nextId == IdAfter(issued)
    ensures DoneAll(b, ops).nextId == IdAfter(issued + Sets(ops))
  {
    hide IdAfter, BumpId;
    if ops != [] {
      IdsGiven(b, ops[..|ops| - 1], issued);
      NextId(issued + Sets(ops[..|ops| - 1]));
    }
  }

  /** To clear an id that is not pending and not yet to come changes nothing, whatever else is done. */
  lemma {:induction false} OwnClearIgnored<Task>(b: Book<Task>, ops: seq<Op<Task>>, id: word, issued: nat)
    requires |b.tails| <= b.live && b.nextId == IdAfter(issued) && issued + |ops| <= MAX_ID
    requires 1 <= id <= issued && id !in b.tails
    ensures DoneAll(b, Sans(ops, id)) == DoneAll(b, ops) && id !in DoneAll(b, ops).tails
  {
    hide IdAfter, Done;
    if ops != [] {
      var front, last := ops[..|ops| - 1], ops[|ops| - 1];
      OwnClearIgnored(b, front, id, issued);
      IdsGiven(b, front, issued);
      if last.Set? {
        LaterId(id, issued + Sets(front));
      }
      StepAvoids(DoneAll(b, front), last, id);
      if last != Clear(id) {
        DoneOne(b, Sans(front, id), last);
      }
    }
  }

  lemma StepAvoids<Task>(b: Book<Task>, op: Op<Task>, id: word)
    requires |b.tails| <= b.live && id !in b.tails && (op.Set? ==> b.nextId != id)
    ensures id !in Done(b, op).tails && (op == Clear(id) ==> Done(b, op) == b)
  {
  }

  lemma DoneOne<Task>(b: Book<Task>, ops: seq<Op<Task>>, x: Op<Task>)
    requires |b.tails| <= b.live
    ensures DoneAll(b, ops + [x]) == Done(DoneAll(b, ops), x)
  {
    assert (ops + [x])[..|ops|] == ops;
  }

  // ----- the invariant on values

  /** `live` counts the tasks, each pending id has exactly one key, there are never more keys than the cap, and
      neither a cancelled timer nor the running one is pending. */
  ghost predicate Sound<Task>(heap: seq<Key>, tails: map<word, Task>, live: nat, issued: nat, pushes: nat,
                              running: Option<word>, cancelled: set<word>) {
    && live == |tails| && |heap| <= TIMER_CAP
    && Keyed(heap, issued, pushes)
    && (forall id | id in tails :: Has(heap, id))
    && (forall id | id in cancelled :: id !in tails && 1 <= id <= issued)
    && (running != None ==> 1 <= running.value <= issued && !Has(heap, running.value) && running.value !in cancelled)
  }

  /** Every key whose task is wanted is still there. */
  ghost predicate Kept<Task>(before: seq<Key>, after: seq<Key>, tails: map<word, Task>) {
    forall k | k in before && k.id in tails :: k in after
  }

  /** No wanted timer comes before `k`. */
  ghost predicate First<Task>(heap: seq<Key>, tails: map<word, Task>, k: Key) {
    forall o | o in heap && o.id in tails :: k.dueUs < o.dueUs || (k.dueUs == o.dueUs && k.order <= o.order)
  }

  /** `k` was set at `nowUs` to be due `delayUs` later; at the end of time if that is past it. */
  ghost predicate DueAfter(k: Key, nowUs: u64, delayUs: u64) {
    if nowUs + delayUs < TWO64 then k.dueUs - nowUs == delayUs else k.dueUs == TWO64 - 1
  }

  /** A wanted timer is not due before its delay is over, and something is due at every time from then on. */
  lemma DelayKept<Task>(heap: seq<Key>, tails: map<word, Task>, k: Key, setUs: u64, delayUs: u64, nowUs: u64)
    requires k in heap && k.id in tails && DueAfter(k, setUs, delayUs)
    ensures setUs + delayUs < TWO64 && nowUs - setUs < delayUs ==> k.dueUs > nowUs
    ensures nowUs - setUs >= delayUs ==> k.dueUs <= nowUs && !NoneDue(heap, tails, nowUs)
  {
  }

  ghost predicate NoneDue<Task>(heap: seq<Key>, tails: map<word, Task>, nowUs: u64) {
    forall o | o in heap && o.id in tails :: o.dueUs > nowUs
  }

  lemma TopIsFirst<Task>(before: seq<Key>, heap: seq<Key>, tails: map<word, Task>, nowUs: u64)
    requires Kept(before, heap, tails)
    ensures heap != [] ==> First(before, tails, heap[Top(heap)])
    ensures heap == [] || heap[Top(heap)].dueUs > nowUs ==> NoneDue(before, tails, nowUs)
  {
  }

  lemma KeptAll<Task>(heap: seq<Key>, tails: map<word, Task>)
    ensures Kept(heap, heap, tails)
  {
  }

  lemma KeptWithout<Task>(before: seq<Key>, heap: seq<Key>, tails: map<word, Task>, i: nat)
    requires Kept(before, heap, tails) && i < |heap|
    ensures heap[i].id !in tails ==> Kept(before, Without(heap, i), tails)
    ensures Kept(before, Without(heap, i), tails - {heap[i].id})
  {
    hide Without;
  }

  lemma HasMore(heap: seq<Key>, key: Key, id: word)
    ensures Has(heap + [key], id) <==> Has(heap, id) || id == key.id
  {
    assert key in heap + [key];
    assert forall k :: k in heap ==> k in heap + [key];
  }

  lemma KeyedMore(heap: seq<Key>, key: Key, issued: nat, pushes: nat)
    requires Keyed(heap, issued, pushes) && !Has(heap, key.id) && 1 <= key.id <= issued && key.order == pushes + 1
    ensures Keyed(heap + [key], issued, pushes + 1)
  {
    var h := heap + [key];
    forall i | 0 <= i < |heap| ensures h[i].id != key.id && h[i].order != key.order {
    }
  }

  lemma PushSound<Task>(heap: seq<Key>, tails: map<word, Task>, live: nat, issued: nat, pushes: nat,
                        running: Option<word>, cancelled: set<word>, key: Key, tail: Task)
    requires Sound(heap, tails, live, issued, pushes, running, cancelled) && |heap| < TIMER_CAP
    requires 1 <= key.id <= issued && !Has(heap, key.id) && key.id !in cancelled && running != Some(key.id)
    requires key.order == pushes + 1
    ensures Sound(heap + [key], tails[key.id := tail], live + 1, issued, pushes + 1, running, cancelled)
  {
    hide Keyed, Has;
    KeyedMore(heap, key, issued, pushes);
    assert key.id !in tails;
    assert tails[key.id := tail].Keys == tails.Keys + {key.id};
    forall id ensures Has(heap + [key], id) <==> Has(heap, id) || id == key.id {
      HasMore(heap, key, id);
    }
  }

  lemma RetainHas<Task>(heap: seq<Key>, tails: map<word, Task>, id: word)
    ensures Has(Retain(heap, tails), id) <==> Has(heap, id) && id in tails
  {
  }

  lemma RetainSound<Task>(heap: seq<Key>, tails: map<word, Task>, live: nat, issued: nat, pushes: nat,
                          running: Option<word>, cancelled: set<word>)
    requires Sound(heap, tails, live, issued, pushes, running, cancelled) && live <= TIMER_CAP
    ensures Sound(Retain(heap, tails), tails, live, issued, pushes, running, cancelled)
    ensures |Retain(heap, tails)| <= live
  {
    hide Keyed, Has, Retain;
    RetainKeyed(heap, tails, issued, pushes);
    forall id ensures Has(Retain(heap, tails), id) <==> Has(heap, id) && id in tails {
      RetainHas(heap, tails, id);
    }
  }

  ghost predicate Rounds(issued: nat, pushes: nat) {
    issued > MAX_ID || pushes >= TWO64
  }

  /** All of it holds until a counter comes round. */
  ghost predicate SoundFor<Task>(heap: seq<Key>, tails: map<word, Task>, live: nat, issued: nat, order: u64, pushes: nat,
                                 running: Option<word>, cancelled: set<word>) {
    !Rounds(issued, pushes) ==> order == pushes && Sound(heap, tails, live, issued, pushes, running, cancelled)
  }

  lemma PushSoundFor<Task>(heap: seq<Key>, tails: map<word, Task>, live: nat, issued: nat, order: u64, pushes: nat,
                           running: Option<word>, cancelled: set<word>, key: Key, tail: Task)
    requires SoundFor(heap, tails, live, issued, order, pushes, running, cancelled) && live < TIMER_CAP
    requires !Rounds(issued, pushes) ==>
               1 <= key.id <= issued && !Has(heap, key.id) && key.id !in cancelled && running != Some(key.id)
    requires key.order == (order + 1) % TWO64
    ensures SoundFor(Compacted(heap, tails) + [key], tails[key.id := tail], live + 1, issued, key.order, pushes + 1,
                     running, cancelled)
  {
    hide Sound, Has, Compacted;
    if !Rounds(issued, pushes + 1) {
      CompactedSound(heap, tails, live, issued, pushes, running, cancelled, key.id);
      PushSound(Compacted(heap, tails), tails, live, issued, pushes, running, cancelled, key, tail);
    }
  }

  lemma TakeSoundFor<Task>(heap: seq<Key>, tails: map<word, Task>, live: nat, issued: nat, order: u64, pushes: nat,
                           cancelled: set<word>, i: nat)
    requires SoundFor(heap, tails, live, issued, order, pushes, None, cancelled)
    requires i < |heap| && |tails| <= live
    ensures var id := heap[i].id;
            if id in tails then
              live >= 1 && |tails - {id}| <= live - 1 && (!Rounds(issued, pushes) ==> id !in cancelled)
              && SoundFor(Without(heap, i), tails - {id}, live - 1, issued, order, pushes, Some(id), cancelled)
            else SoundFor(Without(heap, i), tails, live, issued, order, pushes, None, cancelled)
  {
    hide Sound, Without;
    if !Rounds(issued, pushes) {
      PopSound(heap, tails, live, issued, pushes, cancelled, i);
    }
    RemovedSize(tails, heap[i].id);
  }

  lemma RemovedSize<Task>(tails: map<word, Task>, id: word)
    ensures id in tails ==> |tails - {id}| + 1 == |tails|
  {
    assert (tails - {id}).Keys == tails.Keys - {id};
  }

  // ----- one key for each pending timer, with or without wrapped counters

  /** The count is right, and each pending id has a key, the only one with that id. */
  ghost predicate Tidy<Task>(heap: seq<Key>, tails: map<word, Task>, live: nat) {
    && live == |tails| && |heap| <= TIMER_CAP
    && (forall i, j | 0 <= i < j < |heap| :: heap[i].id != heap[j].id)
    && (forall id | id in tails :: Has(heap, id))
  }

  /** The heap before a push: a full one first loses the keys nobody wants. */
  function Compacted<Task>(heap: seq<Key>, tails: map<word, Task>): seq<Key> {
    if |heap| >= TIMER_CAP then Retain(heap, tails) else heap
  }

  lemma CompactedSound<Task>(heap: seq<Key>, tails: map<word, Task>, live: nat, issued: nat, pushes: nat,
                             running: Option<word>, cancelled: set<word>, id: word)
    requires Sound(heap, tails, live, issued, pushes, running, cancelled) && live < TIMER_CAP && !Has(heap, id)
    ensures Sound(Compacted(heap, tails), tails, live, issued, pushes, running, cancelled)
    ensures |Compacted(heap, tails)| < TIMER_CAP && !Has(Compacted(heap, tails), id)
  {
    hide Sound, Has, Retain;
    RetainSound(heap, tails, live, issued, pushes, running, cancelled);
    RetainHas(heap, tails, id);
  }

  lemma CompactedKept<Task>(heap: seq<Key>, tails: map<word, Task>, key: Key)
    ensures Kept(heap, Compacted(heap, tails) + [key], tails)
    ensures forall k :: k in Compacted(heap, tails) + [key] ==> k in heap || k == key
  {
  }

  lemma SoundIsTidy<Task>(heap: seq<Key>, tails: map<word, Task>, live: nat, issued: nat, pushes: nat,
                          running: Option<word>, cancelled: set<word>)
    requires Sound(heap, tails, live, issued, pushes, running, cancelled)
    ensures Tidy(heap, tails, live)
  {
  }

  lemma {:induction false} RetainTidy<Task>(heap: seq<Key>, tails: map<word, Task>)
    requires forall i, j | 0 <= i < j < |heap| :: heap[i].id != heap[j].id
    ensures forall i, j | 0 <= i < j < |Retain(heap, tails)| :: Retain(heap, tails)[i].id != Retain(heap, tails)[j].id
    ensures |Retain(heap, tails)| <= |tails|
  {
    if heap != [] {
      var front, last := heap[..|heap| - 1], heap[|heap| - 1];
      if last.id in tails {
        RetainTidy(front, tails - {last.id});
        SameRetain(front, tails, last.id);
      } else {
        RetainTidy(front, tails);
      }
    }
  }

  lemma CompactedTidy<Task>(heap: seq<Key>, tails: map<word, Task>, live: nat)
    requires Tidy(heap, tails, live) && live < TIMER_CAP
    ensures Tidy(Compacted(heap, tails), tails, live) && |Compacted(heap, tails)| < TIMER_CAP
  {
    hide Retain, Has;
    RetainTidy(heap, tails);
    forall id ensures Has(Retain(heap, tails), id) <==> Has(heap, id) && id in tails {
      RetainHas(heap, tails, id);
    }
  }

  lemma DistinctMore(heap: seq<Key>, key: Key)
    requires forall i, j | 0 <= i < j < |heap| :: heap[i].id != heap[j].id
    ensures (forall i, j | 0 <= i < j < |heap + [key]| :: (heap + [key])[i].id != (heap + [key])[j].id) <==> !Has(heap, key.id)
  {
    var h := heap + [key];
    if Has(heap, key.id) {
      var k :| k in heap && k.id == key.id;
      var i :| 0 <= i < |heap| && heap[i] == k;
      assert h[i].id == h[|heap|].id;
    } else {
      forall i | 0 <= i < |heap| ensures h[i].id != key.id {
        assert heap[i] in heap;
      }
    }
  }

  /** A push keeps that exactly when no key left in the heap carries the id. */
  lemma PushTidy<Task>(heap: seq<Key>, tails: map<word, Task>, live: nat, key: Key, tail: Task)
    requires Tidy(heap, tails, live) && live < TIMER_CAP
    ensures Tidy(Compacted(heap, tails) + [key], tails[key.id := tail], live + 1) <==> !Has(Compacted(heap, tails), key.id)
  {
    var h := Compacted(heap, tails);
    CompactedTidy(heap, tails, live);
    hide Compacted, Has;
    DistinctMore(h, key);
    SizeAtMost(tails, key.id, tail);
    forall id ensures Has(h + [key], id) <==> Has(h, id) || id == key.id {
      HasMore(h, key, id);
    }
  }

  /** To take a key away, with its task if that is wanted, or to cancel a task keeps it always. */
  lemma TakeTidy<Task>(heap: seq<Key>, tails: map<word, Task>, live: nat, i: nat)
    requires Tidy(heap, tails, live) && i < |heap|
    ensures var id := heap[i].id;
            if id in tails then live >= 1 && Tidy(Without(heap, i), tails - {id}, live - 1)
            else Tidy(Without(heap, i), tails, live)
  {
    var r, id := Without(heap, i), heap[i].id;
    assert forall j | 0 <= j < |r| :: r[j] == if j < i then heap[j] else heap[j + 1];
    hide Without;
    forall o | o in tails && o != id ensures Has(r, o) {
      var k :| k in heap && k.id == o;
      assert k in r;
    }
  }

  lemma CancelTidy<Task>(heap: seq<Key>, tails: map<word, Task>, live: nat, id: word)
    requires Tidy(heap, tails, live) && id in tails
    ensures live >= 1 && Tidy(heap, tails - {id}, live - 1)
  {
    hide Has;
  }

  // ----- the queue

  class TimerState<Task> {
    var nextId: word
    var order: u64
    var live: nat
    var heap: seq<Key>
    var tails: map<word, Task>
    /** Ids issued and keys pushed since the last clearing, the timer whose callback is running, and the timers
        cancelled while they were pending. */
    ghost var issued: nat
    ghost var pushes: nat
    ghost var running: Option<word>
    ghost var cancelled: set<word>

    ghost function Now(): Book<Task>
      reads this
    {
      Book(nextId, live, tails)
    }

    ghost predicate InOrder()
      reads this
    {
      Tidy(heap, tails, live)
    }

    /** Everything holds until a counter comes round. */
    ghost predicate Valid()
      reads this
    {
      && nextId == IdAfter(issued)
      && |tails| <= live <= TIMER_CAP
      && SoundFor(heap, tails, live, issued, order, pushes, running, cancelled)
    }

    ghost predicate Wrapped()
      reads this
    {
      Rounds(issued, pushes)
    }

    constructor ()
      ensures Valid() && tails == map[] && heap == [] && issued == 0 && running == None && cancelled == {}
    {
      nextId, order, live, heap, tails := 1, 0, 0, [], map[];
      issued, pushes, running, cancelled := 0, 0, None, {};
    }

    /** Between requests, when no callback is running. */
    method ClearAll()
      requires running == None
      modifies this
      ensures Valid() && tails == map[] && heap == [] && issued == 0 && cancelled == {} && running == None
    {
      heap, tails := [], map[];
      order, live, nextId := 0, 0, 1;
      issued, pushes, cancelled := 0, 0, {};
    }

    method PushTimer(dueUs: u64, id: word, intervalUs: u64, tail: Task)
      requires Valid()
      requires !Wrapped() ==> 1 <= id <= issued && !Has(heap, id) && id !in cancelled && running != Some(id)
      modifies this`heap, this`order, this`live, this`tails, this`pushes
      ensures Valid() && pushes >= old(pushes) && Now() == Pushed(old(Now()), id, tail)
      ensures old(live) >= TIMER_CAP ==> heap == old(heap)
      ensures old(live) < TIMER_CAP ==> heap == Compacted(old(heap), old(tails)) + [Key(dueUs, order, id, intervalUs)]
      ensures old(InOrder()) ==>
                (InOrder() <==> old(live) >= TIMER_CAP || !Has(Compacted(old(heap), old(tails)), id))
      ensures Kept(old(heap), heap, old(tails)) && forall k | k in heap :: k in old(heap) || k == Key(dueUs, order, id, intervalUs)
    {
      hide SoundFor, Tidy, Has, Retain, Kept;
      KeptAll(heap, tails);
      if live >= TIMER_CAP {
        return;
      }
      var key := Key(dueUs, (order + 1) % TWO64, id, intervalUs);
      PushSoundFor(heap, tails, live, issued, order, pushes, running, cancelled, key, tail);
      if InOrder() {
        PushTidy(heap, tails, live, key, tail);
      }
      CompactedKept(heap, tails, key);
      SizeAtMost(tails, id, tail);
      if |heap| >= TIMER_CAP {
        heap := Retain(heap, tails);
      }
      order := (order + 1) % TWO64;
      pushes := pushes + 1;
      live := live + 1;
      tails := tails[id := tail];
      heap := heap + [key];
    }

    /** Gives out an id even when the queue is full and the timer is dropped. */
    method Schedule(nowUs: u64, delayUs: u64, interval: bool, tail: Task) returns (id: word)
      requires Valid() && delayUs >= 1
      modifies this`nextId, this`issued, this`heap, this`order, this`live, this`tails, this`pushes
      ensures Valid() && issued == old(issued) + 1 && pushes >= old(pushes) && id == IdAfter(old(issued))
      ensures var due := Saturating(nowUs, delayUs);
              && Now() == Done(old(Now()), Set(nowUs, delayUs, interval, tail))
              && if old(live) >= TIMER_CAP then heap == old(heap)
              else heap == Compacted(old(heap), old(tails)) + [Key(due, order, id, if interval then delayUs else 0)]
                   && DueAfter(heap[|heap| - 1], nowUs, delayUs)
      ensures Kept(old(heap), heap, old(tails))
      ensures old(InOrder()) ==>
                (InOrder() <==> old(live) >= TIMER_CAP || !Has(Compacted(old(heap), old(tails)), old(nextId)))
      ensures old(issued) < MAX_ID && old(pushes) < TWO64 ==> id !in old(tails) && id !in cancelled && running != Some(id)
    {
      hide Keyed, Retain, Tidy, Compacted, Has;
      id := nextId;
      IdsComeRound(issued);
      if issued < MAX_ID && pushes < TWO64 {
        FreshId(heap, tails, live, issued, pushes, running, cancelled);
      }
      nextId := BumpId(nextId);
      issued := issued + 1;
      PushTimer(Saturating(nowUs, delayUs), id, if interval then delayUs else 0, tail);
    }

    /** Cancels a pending timer; for any other id nothing happens. */
    method Unschedule(id: word)
      requires Valid()
      modifies this`tails, this`live, this`cancelled
      ensures Valid() && Now() == Done(old(Now()), Clear(id)) && (old(InOrder()) ==> InOrder())
      ensures cancelled == if id in old(tails) then old(cancelled) + {id} else old(cancelled)
    {
      hide Keyed, Has, Sound, Tidy;
      if id in tails {
        if InOrder() {
          CancelTidy(heap, tails, live, id);
        }
        if !Wrapped() {
          CancelSound(heap, tails, live, issued, pushes, running, cancelled, id);
        }
        tails := tails - {id};
        live := live - 1;
        cancelled := cancelled + {id};
      }
    }

    /** Removes the key at `i`, and its task if that is still wanted. */
    method Take(i: nat) returns (r: Option<(Key, Task)>)
      requires Valid() && running == None && i < |heap|
      modifies this`heap, this`tails, this`live, this`running
      ensures Valid() && heap == Without(old(heap), i) && (old(InOrder()) ==> InOrder())
      ensures var k := old(heap)[i];
              if k.id in old(tails)
              then r == Some((k, old(tails)[k.id])) && tails == old(tails) - {k.id} && live + 1 == old(live)
                   && running == Some(k.id) && (!Wrapped() ==> k.id !in cancelled)
              else r == None && tails == old(tails) && live == old(live) && running == None
    {
      hide SoundFor, Without, Tidy;
      var key := heap[i];
      if InOrder() {
        TakeTidy(heap, tails, live, i);
      }
      TakeSoundFor(heap, tails, live, issued, order, pushes, cancelled, i);
      heap := Without(heap, i);
      r := None;
      if key.id in tails {
        r := Some((key, tails[key.id]));
        tails := tails - {key.id};
        live := live - 1;
        running := Some(key.id);
      }
    }

    /** Takes the first wanted timer that is due, dropping the keys of cancelled ones on the way. */
    method PopDue(nowUs: u64) returns (r: Option<(Key, Task)>)
      requires Valid() && running == None
      modifies this`heap, this`tails, this`live, this`running
      ensures Valid() && (old(InOrder()) ==> InOrder())
      ensures r == None ==> tails == old(tails) && running == None && NoneDue(old(heap), old(tails), nowUs)
      ensures r != None ==> r.value.0 in old(heap) && r.value.0.dueUs <= nowUs && First(old(heap), old(tails), r.value.0)
      ensures r != None ==> r.value.0.id in old(tails) && r.value.1 == old(tails)[r.value.0.id]
      ensures r != None ==> tails == old(tails) - {r.value.0.id} && live + 1 == old(live) && running == Some(r.value.0.id)
      ensures r != None && !Wrapped() ==> r.value.0.id !in cancelled
      ensures Kept(old(heap), heap, tails)
    {
      hide Sound, Tidy, Has, Without, Top, First, NoneDue, Kept, Before;
      r := None;
      KeptAll(heap, tails);
      while heap != []
        invariant r == None && Valid() && (old(InOrder()) ==> InOrder()) && running == None && tails == old(tails) && live == old(live)
        invariant Kept(old(heap), heap, tails) && forall k | k in heap :: k in old(heap)
        decreases |heap|
      {
        var i := Top(heap);
        var key := heap[i];
        TopIsFirst(old(heap), heap, tails, nowUs);
        KeptWithout(old(heap), heap, tails, i);
        if key.dueUs > nowUs {
          return;
        }
        r := Take(i);
        if r != None {
          return;
        }
      }
      TopIsFirst(old(heap), heap, tails, nowUs);
    }

    /** After the callback: an interval whose callback went well goes back, even if it was cancelled meanwhile. */
    method Rearm(key: Key, nowUs: u64, alive: bool, task: Task)
      requires Valid() && running == Some(key.id)
      modifies this`running, this`heap, this`order, this`live, this`tails, this`pushes
      ensures Valid() && running == None && pushes >= old(pushes) && Kept(old(heap), heap, old(tails))
      ensures Now() == if key.intervalUs != 0 && alive then Pushed(old(Now()), key.id, task) else old(Now())
      ensures if key.intervalUs != 0 && alive && old(live) < TIMER_CAP
              then heap == Compacted(old(heap), old(tails))
                           + [Key(Saturating(nowUs, key.intervalUs), order, key.id, key.intervalUs)]
                   && DueAfter(heap[|heap| - 1], nowUs, key.intervalUs)
              else heap == old(heap)
      ensures old(InOrder()) ==>
                (InOrder() <==> key.intervalUs == 0 || !alive || old(live) >= TIMER_CAP
                                || !Has(Compacted(old(heap), old(tails)), key.id))
    {
      hide Keyed, Tidy, Compacted, Has;
      running := None;
      if key.intervalUs != 0 && alive {
        PushTimer(Saturating(nowUs, key.intervalUs), key.id, key.intervalUs, task);
      }
    }
  }

  /** What a callback does to the queue. */
  method RunCallback<Task>(q: TimerState<Task>, ops: seq<Op<Task>>)
    requires q.Valid() && forall o | o in ops && o.Set? :: o.delayUs >= 1
    modifies q
    ensures q.Valid() && q.running == old(q.running) && old(q.cancelled) <= q.cancelled
    ensures q.issued >= old(q.issued) && q.pushes >= old(q.pushes)
    ensures q.Now() == DoneAll(old(q.Now()), ops)
  {
    hide Done;
    for i := 0 to |ops|
      invariant q.Valid() && q.running == old(q.running) && old(q.cancelled) <= q.cancelled
      invariant q.issued >= old(q.issued) && q.pushes >= old(q.pushes)
      invariant q.Now() == DoneAll(old(q.Now()), ops[..i])
    {
      assert ops[..i + 1][..i] == ops[..i];
      match ops[i] {
        case Set(nowUs, delayUs, interval, tail) =>
          var _ := q.Schedule(nowUs, delayUs, interval, tail);
        case Clear(id) =>
          q.Unschedule(id);
      }
    }
    assert ops[..|ops|] == ops;
  }

  /** A round in which `key` fires: its task leaves, the callback runs, and an interval comes back. */
  ghost function Round<Task>(b: Book<Task>, key: Key, ops: seq<Op<Task>>, alive: bool): Book<Task>
    requires |b.tails| <= b.live && key.id in b.tails
  {
    var ran := DoneAll(Removed(b, key.id), ops);
    if key.intervalUs != 0 && alive then Pushed(ran, key.id, b.tails[key.id]) else ran
  }

  /** Whatever its callback does, an interval goes on whether or not it cancels itself: a round is the same without
      that cancellation. It is pending afterwards unless the callback filled the queue. */
  lemma IntervalGoesOn<Task>(b: Book<Task>, key: Key, ops: seq<Op<Task>>, issued: nat)
    requires |b.tails| <= b.live && b.nextId == IdAfter(issued) && issued + |ops| <= MAX_ID
    requires key.id in b.tails && 1 <= key.id <= issued && key.intervalUs != 0
    ensures Round(b, key, ops, true) == Round(b, key, Sans(ops, key.id), true)
    ensures key.id in Round(b, key, ops, true).tails <==> DoneAll(Removed(b, key.id), ops).live < TIMER_CAP
  {
    hide IdAfter;
    OwnClearIgnored(Removed(b, key.id), ops, key.id, issued);
  }

  /** One round of the loop with any callback: what fires was never cancelled while pending, in this round or before. */
  method Fire<Task>(q: TimerState<Task>, nowUs: u64, ops: seq<Op<Task>>, alive: bool, laterUs: u64) returns (fired: Option<Key>)
    requires q.Valid() && q.running == None && forall o | o in ops && o.Set? :: o.delayUs >= 1
    modifies q
    ensures q.Valid() && q.running == None && old(q.cancelled) <= q.cancelled && (!q.Wrapped() ==> q.InOrder())
    ensures fired == None ==> NoneDue(old(q.heap), old(q.tails), nowUs) && q.tails == old(q.tails)
    ensures fired != None ==> fired.value in old(q.heap) && fired.value.dueUs <= nowUs
    ensures fired != None ==> fired.value.id in old(q.tails) && First(old(q.heap), old(q.tails), fired.value)
    ensures fired != None ==> q.Now() == Round(old(q.Now()), fired.value, ops, alive)
    ensures fired != None && !q.Wrapped() ==> fired.value.id !in old(q.cancelled)
  {
    hide Sound, Tidy, First, NoneDue, Kept, DoneAll;
    var next := q.PopDue(nowUs);
    if next == None {
      WholeIsTidy(q);
      return None;
    }
    fired := Some(next.value.0);
    assert q.Now() == Removed(old(q.Now()), fired.value.id);
    RunCallback(q, ops);
    q.Rearm(next.value.0, laterUs, alive, next.value.1);
    WholeIsTidy(q);
  }

  lemma WholeIsTidy<Task>(q: TimerState<Task>)
    requires q.Valid()
    ensures !q.Wrapped() ==> q.InOrder()
  {
    hide Sound, Tidy;
    if !q.Wrapped() {
      SoundIsTidy(q.heap, q.tails, q.live, q.issued, q.pushes, q.running, q.cancelled);
    }
  }

  function Saturating(a: u64, b: u64): u64 {
    if a + b < TWO64 then a + b else TWO64 - 1
  }

  lemma FreshId<Task>(heap: seq<Key>, tails: map<word, Task>, live: nat, issued: nat, pushes: nat,
                      running: Option<word>, cancelled: set<word>)
    requires Sound(heap, tails, live, issued, pushes, running, cancelled) && issued < MAX_ID
    ensures var id := IdAfter(issued);
            id == issued + 1 && !Has(heap, id) && id !in tails && id !in cancelled && running != Some(id)
    ensures Sound(heap, tails, live, issued + 1, pushes, running, cancelled)
  {
    hide IdAfter;
    IdsComeRound(issued);
  }

  lemma CancelSound<Task>(heap: seq<Key>, tails: map<word, Task>, live: nat, issued: nat, pushes: nat,
                          running: Option<word>, cancelled: set<word>, id: word)
    requires Sound(heap, tails, live, issued, pushes, running, cancelled) && id in tails
    ensures live >= 1 && Sound(heap, tails - {id}, live - 1, issued, pushes, running, cancelled + {id})
  {
    assert Has(heap, id);
  }

  /** Removing a key: a wanted one together with its task, which then runs; or one that nobody wants. */
  lemma PopSound<Task>(heap: seq<Key>, tails: map<word, Task>, live: nat, issued: nat, pushes: nat,
                       cancelled: set<word>, i: nat)
    requires Sound(heap, tails, live, issued, pushes, None, cancelled) && i < |heap|
    ensures heap[i].id !in tails ==> Sound(Without(heap, i), tails, live, issued, pushes, None, cancelled)
    ensures heap[i].id in tails ==> live >= 1 && heap[i].id !in cancelled
    ensures heap[i].id in tails ==>
              var id := heap[i].id;
              Sound(Without(heap, i), tails - {id}, live - 1, issued, pushes, Some(id), cancelled)
  {
    hide Without;
    var id := heap[i].id;
    WithoutKeyed(heap, i, issued, pushes);
    assert heap[i] in heap;
    forall o | o in tails && o != id ensures Has(Without(heap, i), o) {
      var k :| k in heap && k.id == o;
      assert k in Without(heap, i);
    }
  }

  lemma SizeAtMost<Task>(tails: map<word, Task>, id: word, tail: Task)
    ensures |tails[id := tail]| == if id in tails then |tails| else |tails| + 1
  {
    assert tails[id := tail].Keys == tails.Keys + {id};
  }
}
