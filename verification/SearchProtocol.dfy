/** The search protocol as a state machine: a producer, a queue of jobs, workers, and shared cells. */
module SearchProtocol {
  import opened Words
  import opened Decimal
  import opened WidthSearch

  /** A worker between its atomic steps. One producer sends jobs down a queue, workers take them, a shared cell
      holds the least nonce claimed so far, and a stop flag cuts the work short. Every load of a shared cell is a
      step of its own and may return an older value than the current one. */
  datatype Worker =
    | Idle
    | Got(j: nat)
    | Checked(j: nat)
    | Running(j: nat)
    | Found(j: nat, n: nat)
    | Claiming(j: nat, n: nat)
    | Sending(j: nat, n: nat)
    | Done

  /** How a job that has left its worker ended. */
  datatype Fate =
    | Clean
    | Reported(n: nat)
    | Skipped
    | Beaten
    | Dropped

  /** `aborted` says that the caller or the watchdog has called the search off. */
  datatype State = State(
    sent: nat,
    taken: nat,
    closed: bool,
    stop: bool,
    aborted: bool,
    found: Option<nat>,
    results: seq<nat>,
    workers: seq<Worker>,
    fate: map<nat, Fate>)

  datatype Action =
    | Send
    | Stop
    | Close
    | Abort
    | Take(i: nat)
    | Leave(i: nat)
    | Drop(i: nat)
    | Pass(i: nat)
    | Skip(i: nat)
    | Start(i: nat)
    | Scan(i: nat)
    | Yield(i: nat)
    | Claim(i: nat)
    | Lower(i: nat)
    | Report(i: nat)

  /** The least nonce of [base, end) in `hits`. */
  ghost function Least(hits: iset<nat>, base: nat, end: nat): (r: Option<nat>)
    ensures r == None ==> forall n: nat | base <= n < end :: n !in hits
    ensures r.Some? ==> base <= r.value < end && r.value in hits && forall n: nat | base <= n < r.value :: n !in hits
    decreases if base < end then end - base else 0
  {
    if base >= end then None else if base in hits then Some(base) else Least(hits, base + 1, end)
  }

  function Init(workers: nat): State {
    State(0, 0, false, false, false, None, [], seq(workers, i => Idle), map[])
  }

  /** Worker `i` after its scan. */
  function Scanned(s: State, i: nat, r: Option<nat>): State
    requires i < |s.workers| && s.workers[i].Running?
  {
    var j := s.workers[i].j;
    match r
    case None => s.(workers := s.workers[i := Idle], fate := s.fate[j := Clean])
    case Some(n) => s.(workers := s.workers[i := Found(j, n)])
  }

  function Min(o: Option<nat>, n: nat): nat {
    if o.Some? && o.value < n then o.value else n
  }

  function Reporting(s: State, i: nat): State
    requires i < |s.workers| && s.workers[i].Sending?
  {
    var (j, n) := (s.workers[i].j, s.workers[i].n);
    s.(results := s.results + [n], workers := s.workers[i := Idle], fate := s.fate[j := Reported(n)])
  }

  ghost predicate Next(jobs: seq<Job>, hits: iset<nat>, s: State, a: Action, t: State) {
    match a
    // the producer
    case Send => !s.closed && s.sent < |jobs| && t == s.(sent := s.sent + 1)
    case Stop => !s.closed && s.sent < |jobs| && s.found.Some? && t == s.(stop := true, closed := true)
    case Close => !s.closed && (s.sent == |jobs| || s.aborted) && t == s.(closed := true)
    case Abort => t == s.(stop := true, aborted := true)
    // a worker waits for a job
    case Take(i) => i < |s.workers| && s.workers[i] == Idle && s.taken < s.sent
      && t == s.(taken := s.taken + 1, workers := s.workers[i := Got(s.taken)])
    case Leave(i) => i < |s.workers| && s.workers[i] == Idle && s.taken == s.sent && s.closed
      && t == s.(workers := s.workers[i := Done])
    // it looks at the stop flag
    case Drop(i) => i < |s.workers| && s.workers[i].Got? && s.stop
      && t == s.(workers := s.workers[i := Done], fate := s.fate[s.workers[i].j := Dropped])
    case Pass(i) => i < |s.workers| && s.workers[i].Got?
      && t == s.(workers := s.workers[i := Checked(s.workers[i].j)])
    // it looks at the claimed nonce
    case Skip(i) => i < |s.workers| && s.workers[i].Checked? && s.workers[i].j < |jobs|
      && s.found.Some? && jobs[s.workers[i].j].base > s.found.value
      && t == s.(workers := s.workers[i := Idle], fate := s.fate[s.workers[i].j := Skipped])
    case Start(i) => i < |s.workers| && s.workers[i].Checked?
      && t == s.(workers := s.workers[i := Running(s.workers[i].j)])
    // it scans its range
    case Scan(i) => i < |s.workers| && s.workers[i].Running? && s.workers[i].j < |jobs|
      && t == Scanned(s, i, Least(hits, jobs[s.workers[i].j].base, jobs[s.workers[i].j].end))
    // it has a nonce: is it better than the claimed one?
    case Yield(i) => i < |s.workers| && s.workers[i].Found? && s.found.Some? && s.found.value <= s.workers[i].n
      && t == s.(workers := s.workers[i := Idle], fate := s.fate[s.workers[i].j := Beaten])
    case Claim(i) => i < |s.workers| && s.workers[i].Found?
      && t == s.(workers := s.workers[i := Claiming(s.workers[i].j, s.workers[i].n)])
    case Lower(i) => i < |s.workers| && s.workers[i].Claiming?
      && t == s.(found := Some(Min(s.found, s.workers[i].n)), workers := s.workers[i := Sending(s.workers[i].j, s.workers[i].n)])
    case Report(i) => i < |s.workers| && s.workers[i].Sending? && t == Reporting(s, i)
  }

  ghost predicate Run(jobs: seq<Job>, hits: iset<nat>, workers: nat, trace: seq<State>, actions: seq<Action>) {
    && |trace| == |actions| + 1
    && trace[0] == Init(workers)
    && forall i | 0 <= i < |actions| :: Next(jobs, hits, trace[i], actions[i], trace[i + 1])
  }

  /** The producer has closed the queue and every worker has left. */
  predicate Finished(s: State) {
    s.closed && forall i | 0 <= i < |s.workers| :: s.workers[i] == Done
  }

  /** The answer: the least of the reported nonces. */
  function Best(results: seq<nat>): (r: Option<nat>)
    ensures r == None <==> results == []
    ensures r.Some? ==> r.value in results && forall n | n in results :: r.value <= n
  {
    if results == [] then None
    else
      var b := Best(results[..|results| - 1]);
      var n := results[|results| - 1];
      assert results == results[..|results| - 1] + [n];
      if b.Some? && b.value <= n then b else Some(n)
  }

  // ----- the invariant

  ghost predicate Holds(w: Worker, j: nat) {
    !w.Idle? && !w.Done? && w.j == j
  }

  ghost predicate IsLeast(jobs: seq<Job>, hits: iset<nat>, j: nat, n: nat) {
    j < |jobs| && Least(hits, jobs[j].base, jobs[j].end) == Some(n)
  }

  ghost predicate WorkerOk(jobs: seq<Job>, hits: iset<nat>, s: State, w: Worker) {
    && (!w.Idle? && !w.Done? ==> w.j < s.taken && w.j !in s.fate)
    && (w.Found? || w.Claiming? || w.Sending? ==> IsLeast(jobs, hits, w.j, w.n))
    && (w.Sending? ==> s.found.Some? && s.found.value <= w.n)
    && (w.Done? ==> s.stop || (s.closed && s.taken == s.sent))
  }

  ghost predicate FateOk(jobs: seq<Job>, hits: iset<nat>, s: State, j: nat, f: Fate) {
    && j < s.taken <= |jobs|
    && match f
       case Clean => Least(hits, jobs[j].base, jobs[j].end) == None
       case Reported(n) => IsLeast(jobs, hits, j, n) && n in s.results && s.found.Some? && s.found.value <= n
       case Skipped => s.found.Some? && jobs[j].base > s.found.value
       case Beaten => s.found.Some? && exists n :: IsLeast(jobs, hits, j, n) && s.found.value <= n
       case Dropped => s.stop
  }

  /** Whoever claimed the present value has reported it or is about to. */
  ghost predicate Backed(s: State) {
    s.found.Some? ==>
      || s.found.value in s.results
      || exists i | 0 <= i < |s.workers| :: s.workers[i].Sending? && s.workers[i].n == s.found.value
  }

  ghost predicate Inv(jobs: seq<Job>, hits: iset<nat>, s: State) {
    && s.taken <= s.sent <= |jobs|
    && (s.closed ==> s.stop || s.sent == |jobs|)
    && (s.stop && !s.aborted ==> s.found.Some? && s.closed && s.sent < |jobs|)
    && (s.aborted ==> s.stop)
    && (forall i | 0 <= i < |s.workers| :: WorkerOk(jobs, hits, s, s.workers[i]))
    && (forall i, k | 0 <= i < k < |s.workers| && !s.workers[i].Idle? && !s.workers[i].Done? :: !Holds(s.workers[k], s.workers[i].j))
    && (forall j | j in s.fate :: FateOk(jobs, hits, s, j, s.fate[j]))
    && (forall j: nat | j < s.taken && j !in s.fate :: exists i | 0 <= i < |s.workers| :: Holds(s.workers[i], j))
    && (forall n | n in s.results :: exists j | j in s.fate :: s.fate[j] == Reported(n))
    && Backed(s)
  }

  // ----- every step keeps the invariant

  lemma InvInit(jobs: seq<Job>, hits: iset<nat>, workers: nat)
    ensures Inv(jobs, hits, Init(workers))
  {
  }

  /** A worker goes on with the job it holds. */
  lemma Move(jobs: seq<Job>, hits: iset<nat>, s: State, i: nat, w: Worker, t: State)
    requires Inv(jobs, hits, s) && i < |s.workers| && t == s.(workers := s.workers[i := w])
    requires !s.workers[i].Idle? && !s.workers[i].Done? && !s.workers[i].Sending? && Holds(w, s.workers[i].j)
    requires WorkerOk(jobs, hits, s, w)
    ensures Inv(jobs, hits, t)
  {
    hide IsLeast;
    forall k | 0 <= k < |t.workers| ensures WorkerOk(jobs, hits, t, t.workers[k]) {
      assert WorkerOk(jobs, hits, s, s.workers[k]);
    }
    forall j | j in t.fate ensures FateOk(jobs, hits, t, j, t.fate[j]) {
      assert FateOk(jobs, hits, s, j, s.fate[j]);
    }
    forall j: nat | j < t.taken && j !in t.fate ensures exists k | 0 <= k < |t.workers| :: Holds(t.workers[k], j) {
      var k :| 0 <= k < |s.workers| && Holds(s.workers[k], j);
      assert Holds(t.workers[k], j);
    }
    BackedKept(s, t, i);
  }

  lemma BackedKept(s: State, t: State, i: nat)
    requires Backed(s) && i < |s.workers| == |t.workers| && !s.workers[i].Sending?
    requires t.found == s.found && t.results == s.results
    requires forall k | 0 <= k < |s.workers| && k != i :: t.workers[k] == s.workers[k]
    ensures Backed(t)
  {
    if t.found.Some? && t.found.value !in t.results {
      var k :| 0 <= k < |s.workers| && s.workers[k].Sending? && s.workers[k].n == s.found.value;
      assert t.workers[k].Sending? && t.workers[k].n == t.found.value;
    }
  }

  /** A worker lets go of its job, whose fate is thereby decided. */
  lemma Settle(jobs: seq<Job>, hits: iset<nat>, s: State, i: nat, w: Worker, f: Fate, t: State)
    requires Inv(jobs, hits, s) && i < |s.workers|
    requires !s.workers[i].Idle? && !s.workers[i].Done? && !s.workers[i].Sending? && (w.Idle? || w.Done?)
    requires t == s.(workers := s.workers[i := w], fate := s.fate[s.workers[i].j := f])
    requires FateOk(jobs, hits, t, s.workers[i].j, f) && !f.Reported? && (w.Done? ==> s.stop)
    ensures Inv(jobs, hits, t)
  {
    SettleChecks(jobs, hits, s, i, w, f, t);
    hide IsLeast, FateOk;
    var j0 := s.workers[i].j;
    assert WorkerOk(jobs, hits, s, s.workers[i]);
    hide WorkerOk;
    forall j: nat | j < t.taken && j !in t.fate ensures exists k | 0 <= k < |t.workers| :: Holds(t.workers[k], j) {
      var k :| 0 <= k < |s.workers| && Holds(s.workers[k], j);
      assert Holds(t.workers[k], j);
    }
    forall n | n in t.results ensures exists j | j in t.fate :: t.fate[j] == Reported(n) {
      var j :| j in s.fate && s.fate[j] == Reported(n);
      assert t.fate[j] == Reported(n);
    }
    BackedKept(s, t, i);
  }

  lemma SettleChecks(jobs: seq<Job>, hits: iset<nat>, s: State, i: nat, w: Worker, f: Fate, t: State)
    requires Inv(jobs, hits, s) && i < |s.workers|
    requires !s.workers[i].Idle? && !s.workers[i].Done? && !s.workers[i].Sending? && (w.Idle? || w.Done?)
    requires t == s.(workers := s.workers[i := w], fate := s.fate[s.workers[i].j := f])
    requires FateOk(jobs, hits, t, s.workers[i].j, f) && !f.Reported? && (w.Done? ==> s.stop)
    ensures forall k | 0 <= k < |t.workers| :: WorkerOk(jobs, hits, t, t.workers[k])
    ensures forall j | j in t.fate :: FateOk(jobs, hits, t, j, t.fate[j])
  {
    hide IsLeast, Backed;
    var j0 := s.workers[i].j;
    assert WorkerOk(jobs, hits, s, s.workers[i]);
    forall k | 0 <= k < |t.workers| ensures WorkerOk(jobs, hits, t, t.workers[k]) {
      assert WorkerOk(jobs, hits, s, s.workers[k]);
    }
    forall j | j in t.fate ensures FateOk(jobs, hits, t, j, t.fate[j]) {
      assert j != j0 ==> FateOk(jobs, hits, s, j, s.fate[j]);
    }
  }

  lemma InvTake(jobs: seq<Job>, hits: iset<nat>, s: State, i: nat, t: State)
    requires Inv(jobs, hits, s) && Next(jobs, hits, s, Take(i), t)
    ensures Inv(jobs, hits, t)
  {
    hide IsLeast;
    forall k | 0 <= k < |t.workers| ensures WorkerOk(jobs, hits, t, t.workers[k]) {
      assert WorkerOk(jobs, hits, s, s.workers[k]);
      assert s.taken in s.fate ==> FateOk(jobs, hits, s, s.taken, s.fate[s.taken]);
    }
    forall j | j in t.fate ensures FateOk(jobs, hits, t, j, t.fate[j]) {
      assert FateOk(jobs, hits, s, j, s.fate[j]);
    }
    forall j: nat | j < t.taken && j !in t.fate ensures exists k | 0 <= k < |t.workers| :: Holds(t.workers[k], j) {
      if j == s.taken {
        assert Holds(t.workers[i], j);
      } else {
        var k :| 0 <= k < |s.workers| && Holds(s.workers[k], j);
        assert Holds(t.workers[k], j);
      }
    }
    BackedKept(s, t, i);
  }

  lemma InvLower(jobs: seq<Job>, hits: iset<nat>, s: State, i: nat, t: State)
    requires Inv(jobs, hits, s) && Next(jobs, hits, s, Lower(i), t)
    ensures Inv(jobs, hits, t)
  {
    LowerMoves(jobs, hits, s, i, t);
    hide IsLeast, Next, Least, Min;
    forall k | 0 <= k < |t.workers| ensures WorkerOk(jobs, hits, t, t.workers[k]) {
      assert WorkerOk(jobs, hits, s, s.workers[k]);
    }
    forall j | j in t.fate ensures FateOk(jobs, hits, t, j, t.fate[j]) {
      assert FateOk(jobs, hits, s, j, s.fate[j]);
    }
    StillHeld(s, t);
  }

  lemma LowerMoves(jobs: seq<Job>, hits: iset<nat>, s: State, i: nat, t: State)
    requires Inv(jobs, hits, s) && Next(jobs, hits, s, Lower(i), t)
    ensures i < |s.workers| && s.workers[i].Claiming?
    ensures t == s.(found := t.found, workers := s.workers[i := Sending(s.workers[i].j, s.workers[i].n)])
    ensures t.found.Some? && t.found.value <= s.workers[i].n && (s.found.Some? ==> t.found.value <= s.found.value)
    ensures Backed(t)
  {
    hide WorkerOk, FateOk;
    if t.found == s.found {
      BackedKept(s, t, i);
    } else {
      assert t.workers[i].Sending? && t.workers[i].n == t.found.value;
    }
  }

  /** Jobs that are under way stay under way. */
  lemma StillHeld(s: State, t: State)
    requires |t.workers| == |s.workers| && t.taken == s.taken && t.fate == s.fate
    requires forall j: nat | j < s.taken && j !in s.fate :: exists i | 0 <= i < |s.workers| :: Holds(s.workers[i], j)
    requires forall k, j: nat | 0 <= k < |s.workers| && Holds(s.workers[k], j) :: Holds(t.workers[k], j)
    ensures forall j: nat | j < t.taken && j !in t.fate :: exists i | 0 <= i < |t.workers| :: Holds(t.workers[i], j)
  {
  }

  lemma InvReport(jobs: seq<Job>, hits: iset<nat>, s: State, i: nat, t: State)
    requires Inv(jobs, hits, s) && Next(jobs, hits, s, Report(i), t)
    ensures Inv(jobs, hits, t)
  {
    assert s.workers[i].Sending? && t == Reporting(s, i);
    ReportChecks(jobs, hits, s, i, t);
    hide IsLeast, Next, Least, WorkerOk, FateOk;
    ReportKeeps(jobs, hits, s, i, t);
    FoundKept(jobs, hits, s, i, t);
  }

  lemma ReportChecks(jobs: seq<Job>, hits: iset<nat>, s: State, i: nat, t: State)
    requires Inv(jobs, hits, s) && i < |s.workers| && s.workers[i].Sending? && t == Reporting(s, i)
    ensures forall k | 0 <= k < |t.workers| :: WorkerOk(jobs, hits, t, t.workers[k])
    ensures forall j | j in t.fate :: FateOk(jobs, hits, t, j, t.fate[j])
  {
    hide IsLeast, Backed, Least;
    var w := s.workers[i];
    assert WorkerOk(jobs, hits, s, w);
    forall k | 0 <= k < |t.workers| ensures WorkerOk(jobs, hits, t, t.workers[k]) {
      assert WorkerOk(jobs, hits, s, s.workers[k]);
    }
    forall j | j in t.fate ensures FateOk(jobs, hits, t, j, t.fate[j]) {
      assert j != w.j ==> FateOk(jobs, hits, s, j, s.fate[j]);
    }
  }

  lemma ReportKeeps(jobs: seq<Job>, hits: iset<nat>, s: State, i: nat, t: State)
    requires Inv(jobs, hits, s) && i < |s.workers| && s.workers[i].Sending? && t == Reporting(s, i)
    ensures forall j: nat | j < t.taken && j !in t.fate :: exists k | 0 <= k < |t.workers| :: Holds(t.workers[k], j)
    ensures forall n | n in t.results :: exists j | j in t.fate :: t.fate[j] == Reported(n)
  {
    hide IsLeast, FateOk, Backed;
    var w := s.workers[i];
    assert WorkerOk(jobs, hits, s, w);
    forall j: nat | j < t.taken && j !in t.fate ensures exists k | 0 <= k < |t.workers| :: Holds(t.workers[k], j) {
      var k :| 0 <= k < |s.workers| && Holds(s.workers[k], j);
      assert Holds(t.workers[k], j);
    }
    forall n | n in t.results ensures exists j | j in t.fate :: t.fate[j] == Reported(n) {
      if n == w.n {
        assert t.fate[w.j] == Reported(n);
      } else {
        var j :| j in s.fate && s.fate[j] == Reported(n);
        assert t.fate[j] == Reported(n);
      }
    }
  }

  /** A hit noted but not yet reported is still on its way. */
  lemma FoundKept(jobs: seq<Job>, hits: iset<nat>, s: State, i: nat, t: State)
    requires Inv(jobs, hits, s) && Next(jobs, hits, s, Report(i), t)
    ensures t.found.Some? && t.found.value !in t.results ==>
              exists k :: 0 <= k < |t.workers| && t.workers[k].Sending? && t.workers[k].n == t.found.value
  {
    hide IsLeast, WorkerOk, FateOk;
    if t.found.Some? && t.found.value !in t.results {
      var k :| 0 <= k < |s.workers| && s.workers[k].Sending? && s.workers[k].n == s.found.value;
      assert t.workers[k].Sending? && t.workers[k].n == t.found.value;
    }
  }

  lemma InvProducer(jobs: seq<Job>, hits: iset<nat>, s: State, a: Action, t: State)
    requires Inv(jobs, hits, s) && Next(jobs, hits, s, a, t) && (a.Send? || a.Stop? || a.Close? || a.Abort?)
    ensures Inv(jobs, hits, t)
  {
    hide IsLeast;
    assert t.workers == s.workers && t.results == s.results && t.found == s.found && t.taken == s.taken && t.fate == s.fate;
    assert t.taken <= t.sent <= |jobs| && (t.closed ==> t.stop || t.sent == |jobs|) && (t.aborted ==> t.stop);
    assert t.stop && !t.aborted ==> t.found.Some? && t.closed && t.sent < |jobs|;
    assert (s.stop ==> t.stop) && (s.closed ==> t.closed && t.sent == s.sent);
    hide Next;
    SameWork(jobs, hits, s, t);
  }

  lemma SameWork(jobs: seq<Job>, hits: iset<nat>, s: State, t: State)
    requires Inv(jobs, hits, s)
    requires t.workers == s.workers && t.results == s.results && t.found == s.found && t.taken == s.taken && t.fate == s.fate
    requires t.taken <= t.sent <= |jobs| && (t.closed ==> t.stop || t.sent == |jobs|) && (t.aborted ==> t.stop)
    requires t.stop && !t.aborted ==> t.found.Some? && t.closed && t.sent < |jobs|
    requires (s.stop ==> t.stop) && (s.closed ==> t.closed && t.sent == s.sent)
    ensures Inv(jobs, hits, t)
  {
    hide IsLeast, Holds;
    forall k | 0 <= k < |t.workers| ensures WorkerOk(jobs, hits, t, t.workers[k]) {
      assert WorkerOk(jobs, hits, s, s.workers[k]);
    }
    forall j | j in t.fate ensures FateOk(jobs, hits, t, j, t.fate[j]) {
      assert FateOk(jobs, hits, s, j, s.fate[j]);
    }
    assert Backed(t);
  }

  lemma InvLeave(jobs: seq<Job>, hits: iset<nat>, s: State, i: nat, t: State)
    requires Inv(jobs, hits, s) && Next(jobs, hits, s, Leave(i), t)
    ensures Inv(jobs, hits, t)
  {
    hide IsLeast;
    forall k | 0 <= k < |t.workers| ensures WorkerOk(jobs, hits, t, t.workers[k]) {
      assert WorkerOk(jobs, hits, s, s.workers[k]);
    }
    forall j | j in t.fate ensures FateOk(jobs, hits, t, j, t.fate[j]) {
      assert FateOk(jobs, hits, s, j, s.fate[j]);
    }
    forall j: nat | j < t.taken && j !in t.fate ensures exists k | 0 <= k < |t.workers| :: Holds(t.workers[k], j) {
      var k :| 0 <= k < |s.workers| && Holds(s.workers[k], j);
      assert Holds(t.workers[k], j);
    }
    BackedKept(s, t, i);
  }

  lemma InvScan(jobs: seq<Job>, hits: iset<nat>, s: State, i: nat, t: State)
    requires Inv(jobs, hits, s) && Next(jobs, hits, s, Scan(i), t)
    ensures Inv(jobs, hits, t)
  {
    var j := s.workers[i].j;
    assert WorkerOk(jobs, hits, s, s.workers[i]);
    match Least(hits, jobs[j].base, jobs[j].end)
    case None => Settle(jobs, hits, s, i, Idle, Clean, t);
    case Some(n) => Move(jobs, hits, s, i, Found(j, n), t);
  }

  lemma InvNext(jobs: seq<Job>, hits: iset<nat>, s: State, a: Action, t: State)
    requires Inv(jobs, hits, s) && Next(jobs, hits, s, a, t)
    ensures Inv(jobs, hits, t)
  {
    match a
    case Send => InvProducer(jobs, hits, s, a, t);
    case Stop => InvProducer(jobs, hits, s, a, t);
    case Close => InvProducer(jobs, hits, s, a, t);
    case Abort => InvProducer(jobs, hits, s, a, t);
    case Leave(i) => InvLeave(jobs, hits, s, i, t);
    case Take(i) => InvTake(jobs, hits, s, i, t);
    case Lower(i) => InvLower(jobs, hits, s, i, t);
    case Report(i) => InvReport(jobs, hits, s, i, t);
    case Scan(i) => InvScan(jobs, hits, s, i, t);
    case _ => InvLocal(jobs, hits, s, a, t);
  }

  lemma InvLocal(jobs: seq<Job>, hits: iset<nat>, s: State, a: Action, t: State)
    requires Inv(jobs, hits, s) && Next(jobs, hits, s, a, t)
    requires a.Drop? || a.Pass? || a.Skip? || a.Start? || a.Yield? || a.Claim?
    ensures Inv(jobs, hits, t)
  {
    var i := a.i;
    var w := s.workers[i];
    assert WorkerOk(jobs, hits, s, w);
    match a
    case Drop(_) => Settle(jobs, hits, s, i, Done, Dropped, t);
    case Skip(_) => Settle(jobs, hits, s, i, Idle, Skipped, t);
    case Yield(_) => Settle(jobs, hits, s, i, Idle, Beaten, t);
    case Pass(_) => Move(jobs, hits, s, i, Checked(w.j), t);
    case Start(_) => Move(jobs, hits, s, i, Running(w.j), t);
    case Claim(_) => Move(jobs, hits, s, i, Claiming(w.j, w.n), t);
  }

  lemma {:induction false} RunInv(jobs: seq<Job>, hits: iset<nat>, workers: nat, trace: seq<State>, actions: seq<Action>, k: nat)
    requires Run(jobs, hits, workers, trace, actions) && k < |trace|
    ensures Inv(jobs, hits, trace[k])
    decreases k
  {
    hide Inv, Next, Init;
    if k == 0 {
      InvInit(jobs, hits, workers);
    } else {
      RunInv(jobs, hits, workers, trace, actions, k - 1);
      assert Next(jobs, hits, trace[k - 1], actions[k - 1], trace[k - 1 + 1]);
      InvNext(jobs, hits, trace[k - 1], actions[k - 1], trace[k]);
    }
  }

  // ----- what a finished search returns

  /** The answer of a finished search is the least claimed nonce, a real hit; without an answer there is no hit at
      all; and a hit smaller than the answer can only lie in a job that a worker took and dropped at the stop. */
  lemma Outcome(jobs: seq<Job>, hits: iset<nat>, to: nat, s: State)
    requires Tiles(jobs, 0, to) && Inv(jobs, hits, s) && Finished(s) && !s.aborted && |s.workers| > 0
    ensures Best(s.results) == s.found
    ensures s.found.Some? ==> s.found.value in hits && s.found.value < to
    ensures s.found == None ==> forall n: nat | n < to :: n !in hits
    ensures s.found.Some? ==> forall m: nat | m < s.found.value && m in hits ::
      exists j | j in s.fate :: s.fate[j] == Dropped && jobs[j].base <= m < jobs[j].end
  {
    ReportedAtLeast(jobs, hits, s);
    if s.found == None {
      assert WorkerOk(jobs, hits, s, s.workers[0]);
      forall n: nat | n < to ensures n !in hits {
        var j := TileOf(jobs, 0, to, n);
        AllSettled(jobs, hits, s, j);
      }
    } else {
      var v := s.found.value;
      var jv :| jv in s.fate && s.fate[jv] == Reported(v);
      assert FateOk(jobs, hits, s, jv, s.fate[jv]);
      TilesStart(jobs, 0, to, jv);
      forall m: nat | m < v && m in hits
        ensures exists j | j in s.fate :: s.fate[j] == Dropped && jobs[j].base <= m < jobs[j].end
      {
        SmallerIsDropped(jobs, hits, to, s, jv, m);
      }
    }
  }

  lemma SmallerIsDropped(jobs: seq<Job>, hits: iset<nat>, to: nat, s: State, jv: nat, m: nat)
    requires Tiles(jobs, 0, to) && Inv(jobs, hits, s) && Finished(s) && s.found.Some? && m < s.found.value && m in hits
    requires jv in s.fate && s.fate[jv] == Reported(s.found.value)
    ensures exists j | j in s.fate :: s.fate[j] == Dropped && jobs[j].base <= m < jobs[j].end
  {
    assert FateOk(jobs, hits, s, jv, s.fate[jv]);
    TilesStart(jobs, 0, to, jv);
    var j := TileOf(jobs, 0, to, m);
    if jv < j {
      TilesOrdered(jobs, 0, to, jv, j);
    }
    AllSettled(jobs, hits, s, j);
  }

  lemma ReportedAtLeast(jobs: seq<Job>, hits: iset<nat>, s: State)
    requires Inv(jobs, hits, s) && Finished(s)
    ensures s.results == [] <==> s.found == None
    ensures s.found.Some? ==> s.found.value in s.results && forall n | n in s.results :: s.found.value <= n
    ensures Best(s.results) == s.found
  {
    forall n | n in s.results ensures s.found.Some? && s.found.value <= n {
      ReportedOne(jobs, hits, s, n);
    }
    hide Inv, Holds;
    if s.results != [] {
      assert s.results[0] in s.results;
    }
  }

  lemma ReportedOne(jobs: seq<Job>, hits: iset<nat>, s: State, n: nat)
    requires Inv(jobs, hits, s) && n in s.results
    ensures s.found.Some? && s.found.value <= n
  {
    var j :| j in s.fate && s.fate[j] == Reported(n);
    assert FateOk(jobs, hits, s, j, s.fate[j]);
  }

  lemma AllSettled(jobs: seq<Job>, hits: iset<nat>, s: State, j: nat)
    requires Inv(jobs, hits, s) && Finished(s) && j < |jobs|
    ensures j < s.taken ==> j in s.fate && FateOk(jobs, hits, s, j, s.fate[j])
  {
    assert forall i | 0 <= i < |s.workers| :: !Holds(s.workers[i], j);
  }

  // ----- one worker

  /** With a single worker a job is dropped only after an earlier job has reported the claimed nonce. */
  ghost predicate InOrder(s: State) {
    s.aborted || Ordered(s)
  }

  ghost predicate Ordered(s: State) {
    && |s.workers| == 1
    && (!s.workers[0].Idle? && !s.workers[0].Done? ==> s.workers[0].j + 1 == s.taken)
    && forall j | j in s.fate && s.fate[j] == Dropped ::
         s.workers[0].Done? && s.found.Some? && exists i | i in s.fate :: i < j && s.fate[i] == Reported(s.found.value)
  }

  lemma InOrderNext(jobs: seq<Job>, hits: iset<nat>, s: State, a: Action, t: State)
    requires Inv(jobs, hits, s) && InOrder(s) && Next(jobs, hits, s, a, t)
    ensures InOrder(t)
  {
    if t.aborted {
    } else if a.Drop? {
      InOrderDrop(jobs, hits, s, a.i, t);
    } else {
      assert forall j | j in s.fate :: FateOk(jobs, hits, s, j, s.fate[j]);
      hide Inv, Least, IsLeast, WorkerOk, Backed, Holds;
      assert forall j | j in s.fate :: s.fate[j] != Dropped;
      assert forall j | j in t.fate :: t.fate[j] != Dropped;
    }
  }

  lemma InOrderDrop(jobs: seq<Job>, hits: iset<nat>, s: State, w: nat, t: State)
    requires Inv(jobs, hits, s) && Ordered(s) && !s.aborted && Next(jobs, hits, s, Drop(w), t)
    ensures Ordered(t)
  {
    assert WorkerOk(jobs, hits, s, s.workers[0]);
    var v, j0 := s.found.value, s.workers[0].j;
    var i :| i in s.fate && s.fate[i] == Reported(v);
    assert FateOk(jobs, hits, s, i, s.fate[i]);
    hide Inv;
    assert t.fate[i] == Reported(v) && i < j0;
    assert forall j | j in t.fate && t.fate[j] == Dropped :: j == j0;
  }

  lemma {:induction false} RunInOrder(jobs: seq<Job>, hits: iset<nat>, trace: seq<State>, actions: seq<Action>, k: nat)
    requires Run(jobs, hits, 1, trace, actions) && k < |trace|
    ensures InOrder(trace[k])
    decreases k
  {
    if k > 0 {
      RunInOrder(jobs, hits, trace, actions, k - 1);
      RunInv(jobs, hits, 1, trace, actions, k - 1);
      assert Next(jobs, hits, trace[k - 1], actions[k - 1], trace[k - 1 + 1]);
      hide Inv, Next, InOrder, Init;
      InOrderNext(jobs, hits, trace[k - 1], actions[k - 1], trace[k]);
    }
  }

  /** With one worker the answer is the least hit of all. */
  lemma OneWorkerFindsLeast(jobs: seq<Job>, hits: iset<nat>, to: nat, trace: seq<State>, actions: seq<Action>)
    requires Tiles(jobs, 0, to) && Run(jobs, hits, 1, trace, actions)
    requires Finished(trace[|trace| - 1]) && !trace[|trace| - 1].aborted
    ensures var r := Best(trace[|trace| - 1].results);
      && (r == None ==> forall n: nat | n < to :: n !in hits)
      && (r.Some? ==> r.value in hits && r.value < to && forall m: nat | m < r.value :: m !in hits)
  {
    var s := trace[|trace| - 1];
    RunInv(jobs, hits, 1, trace, actions, |trace| - 1);
    RunInOrder(jobs, hits, trace, actions, |trace| - 1);
    Outcome(jobs, hits, to, s);
    if s.found.Some? {
      var v := s.found.value;
      forall m: nat | m < v ensures m !in hits {
        if m in hits {
          var j :| j in s.fate && s.fate[j] == Dropped && jobs[j].base <= m < jobs[j].end;
          var i :| i in s.fate && i < j && s.fate[i] == Reported(v);
          assert FateOk(jobs, hits, s, i, s.fate[i]) && FateOk(jobs, hits, s, j, s.fate[j]);
          TilesOrdered(jobs, 0, to, i, j);
        }
      }
    }
  }

  // ----- any number of workers

  ghost predicate HasHit(hits: iset<nat>, job: Job) {
    exists n: nat :: n in hits && job.base <= n < job.end
  }

  /** Two jobs hold a hit, and neither is the last. */
  ghost predicate Crowded(jobs: seq<Job>, hits: iset<nat>) {
    exists j: nat, k: nat :: j < k && k + 1 < |jobs| && HasHit(hits, jobs[j]) && HasHit(hits, jobs[k])
  }

  /** `r` is the least hit below `to`, or nothing when there is none. */
  ghost predicate IsAnswer(hits: iset<nat>, to: nat, r: Option<nat>) {
    && (r == None ==> forall n: nat | n < to :: n !in hits)
    && (r.Some? ==> r.value in hits && r.value < to && forall m: nat | m < r.value :: m !in hits)
  }

  /** A run to its end that nobody called off. */
  ghost predicate Completed(jobs: seq<Job>, hits: iset<nat>, workers: nat, trace: seq<State>, actions: seq<Action>) {
    && Run(jobs, hits, workers, trace, actions)
    && var last := trace[|trace| - 1]; Finished(last) && !last.aborted
  }

  /** Without two such jobs the answer is the least hit, however many workers there are. */
  lemma UncrowdedFindsLeast(jobs: seq<Job>, hits: iset<nat>, to: nat, workers: nat, trace: seq<State>, actions: seq<Action>)
    requires Tiles(jobs, 0, to) && Completed(jobs, hits, workers, trace, actions) && workers > 0 && !Crowded(jobs, hits)
    ensures IsAnswer(hits, to, Best(trace[|trace| - 1].results))
  {
    var s := trace[|trace| - 1];
    RunInv(jobs, hits, workers, trace, actions, |trace| - 1);
    RunWorkers(jobs, hits, workers, trace, actions, |trace| - 1);
    Outcome(jobs, hits, to, s);
    if s.found.Some? {
      forall m: nat | m < s.found.value ensures m !in hits {
        if m in hits {
          DroppedIsCrowded(jobs, hits, to, s, m);
        }
      }
    }
  }

  lemma {:induction false} RunWorkers(jobs: seq<Job>, hits: iset<nat>, workers: nat, trace: seq<State>, actions: seq<Action>, k: nat)
    requires Run(jobs, hits, workers, trace, actions) && k < |trace|
    ensures |trace[k].workers| == workers
  {
    if k == 0 {
      assert trace[0] == Init(workers);
    } else {
      RunWorkers(jobs, hits, workers, trace, actions, k - 1);
      assert Next(jobs, hits, trace[k - 1], actions[k - 1], trace[k - 1 + 1]);
    }
  }

  lemma DroppedIsCrowded(jobs: seq<Job>, hits: iset<nat>, to: nat, s: State, m: nat)
    requires Tiles(jobs, 0, to) && Inv(jobs, hits, s) && Finished(s) && !s.aborted && |s.workers| > 0
    requires s.found.Some? && m < s.found.value && m in hits
    ensures Crowded(jobs, hits)
  {
    Outcome(jobs, hits, to, s);
    ReportedAtLeast(jobs, hits, s);
    var v := s.found.value;
    var j :| j in s.fate && s.fate[j] == Dropped && jobs[j].base <= m < jobs[j].end;
    var k :| k in s.fate && s.fate[k] == Reported(v);
    assert FateOk(jobs, hits, s, j, s.fate[j]) && FateOk(jobs, hits, s, k, s.fate[k]);
    assert v in hits && jobs[k].base <= v < jobs[k].end;
    if k < j {
      TilesOrdered(jobs, 0, to, k, j);
    }
    assert HasHit(hits, jobs[j]) && HasHit(hits, jobs[k]);
  }

  // ----- a run that misses

  ghost predicate Reached(jobs: seq<Job>, hits: iset<nat>, workers: nat, s: State) {
    exists trace, actions :: Run(jobs, hits, workers, trace, actions) && trace[|trace| - 1] == s
  }

  lemma ReachedStep(jobs: seq<Job>, hits: iset<nat>, workers: nat, s: State, a: Action, t: State)
    requires Reached(jobs, hits, workers, s) && Next(jobs, hits, s, a, t)
    ensures Reached(jobs, hits, workers, t)
  {
    hide Next;
    var trace, actions :| Run(jobs, hits, workers, trace, actions) && trace[|trace| - 1] == s;
    var trace', actions' := trace + [t], actions + [a];
    forall i | 0 <= i < |actions'| ensures Next(jobs, hits, trace'[i], actions'[i], trace'[i + 1]) {
      if i < |actions| {
        assert Next(jobs, hits, trace[i], actions[i], trace[i + 1]);
      }
    }
    assert Run(jobs, hits, workers, trace', actions');
  }

  /** The first `x` jobs are done without a hit, except that worker 0 sits on job `j`. */
  function Quiet(workers: nat, x: nat, j: nat): State
    requires workers >= 2
  {
    State(x, x, false, false, false, None, [], if x > j then Crew(workers, Got(j), Idle) else Crew(workers, Idle, Idle),
          Cleans(x, j))
  }

  function Cleans(x: nat, j: nat): map<nat, Fate> {
    if x == 0 then map[] else if x - 1 == j then Cleans(x - 1, j) else Cleans(x - 1, j)[x - 1 := Clean]
  }

  /** Workers 0 and 1 as given, the others idle. */
  function Crew(workers: nat, a: Worker, b: Worker): (c: seq<Worker>)
    requires workers >= 2
    ensures |c| == workers
  {
    seq(workers, i => if i == 0 then a else if i == 1 then b else Idle)
  }

  lemma CrewChanges(workers: nat, a: Worker, b: Worker, c: Worker)
    requires workers >= 2
    ensures Crew(workers, a, b)[0 := c] == Crew(workers, c, b) && Crew(workers, a, b)[1 := c] == Crew(workers, a, c)
  {
  }

  lemma {:induction false} QuietReached(jobs: seq<Job>, hits: iset<nat>, workers: nat, x: nat, j: nat)
    requires workers >= 2 && x < |jobs| && forall i | 0 <= i < x && i != j :: !HasHit(hits, jobs[i])
    ensures Reached(jobs, hits, workers, Quiet(workers, x, j))
  {
    if x == 0 {
      assert Quiet(workers, 0, j) == Init(workers);
      assert Run(jobs, hits, workers, [Init(workers)], []);
    } else {
      QuietReached(jobs, hits, workers, x - 1, j);
      QuietNext(jobs, hits, workers, x - 1, j);
    }
  }

  /** The next job is under way: worker 1 is at `b`, worker 0 where it was. */
  function Busy(workers: nat, x: nat, j: nat, b: Worker): State
    requires workers >= 2
  {
    Quiet(workers, x, j).(sent := x + 1, taken := x + 1, workers := if x > j then Crew(workers, Got(j), b) else Crew(workers, Idle, b))
  }

  /** Worker 1 takes the next job and gets as far as scanning it. */
  lemma BusyReached(jobs: seq<Job>, hits: iset<nat>, workers: nat, x: nat, j: nat)
    requires workers >= 2 && x < |jobs| && Reached(jobs, hits, workers, Quiet(workers, x, j))
    ensures Reached(jobs, hits, workers, Busy(workers, x, j, Running(x)))
  {
    hide Reached;
    var s := Quiet(workers, x, j);
    var a := if x > j then Got(j) else Idle;
    CrewChanges(workers, a, Idle, Got(x));
    CrewChanges(workers, a, Got(x), Checked(x));
    CrewChanges(workers, a, Checked(x), Running(x));
    var s1 := s.(sent := x + 1);
    ReachedStep(jobs, hits, workers, s, Send, s1);
    ReachedStep(jobs, hits, workers, s1, Take(1), Busy(workers, x, j, Got(x)));
    ReachedStep(jobs, hits, workers, Busy(workers, x, j, Got(x)), Pass(1), Busy(workers, x, j, Checked(x)));
    ReachedStep(jobs, hits, workers, Busy(workers, x, j, Checked(x)), Start(1), Busy(workers, x, j, Running(x)));
  }

  lemma QuietNext(jobs: seq<Job>, hits: iset<nat>, workers: nat, x: nat, j: nat)
    requires workers >= 2 && x < |jobs| && Reached(jobs, hits, workers, Quiet(workers, x, j))
    requires x != j ==> !HasHit(hits, jobs[x])
    ensures Reached(jobs, hits, workers, Quiet(workers, x + 1, j))
  {
    hide Reached;
    var s := Quiet(workers, x, j);
    if x == j {
      CrewChanges(workers, Idle, Idle, Got(j));
      var s1 := s.(sent := x + 1);
      ReachedStep(jobs, hits, workers, s, Send, s1);
      assert Quiet(workers, x + 1, j).fate == s.fate;
      ReachedStep(jobs, hits, workers, s1, Take(0), Quiet(workers, x + 1, j));
    } else {
      BusyReached(jobs, hits, workers, x, j);
      CrewChanges(workers, if x > j then Got(j) else Idle, Running(x), Idle);
      assert Least(hits, jobs[x].base, jobs[x].end) == None;
      assert Quiet(workers, x + 1, j).fate == s.fate[x := Clean];
      ReachedStep(jobs, hits, workers, Busy(workers, x, j, Running(x)), Scan(1), Quiet(workers, x + 1, j));
    }
  }

  /** Worker 1 has reported `n` from job `k`, the search has stopped, and the first `d` workers have left. */
  function Ending(workers: nat, k: nat, j: nat, n: nat, d: nat): State
    requires workers >= 2
  {
    State(k + 1, k + 1, true, true, false, Some(n), [n], seq(workers, i => if i < d then Done else Idle),
          Quiet(workers, k, j).fate[k := Reported(n)][j := Dropped])
  }

  lemma {:induction false} EndingReached(jobs: seq<Job>, hits: iset<nat>, workers: nat, k: nat, j: nat, n: nat, d: nat)
    requires workers >= 2 && j < k && k + 1 < |jobs| && 1 <= d <= workers
    requires Reached(jobs, hits, workers, Quiet(workers, k, j)) && IsLeast(jobs, hits, k, n)
    ensures Reached(jobs, hits, workers, Ending(workers, k, j, n, d))
    decreases d
  {
    hide Reached;
    if d == 1 {
      ReportReached(jobs, hits, workers, k, j, n);
    } else {
      EndingReached(jobs, hits, workers, k, j, n, d - 1);
      var s, t := Ending(workers, k, j, n, d - 1), Ending(workers, k, j, n, d);
      assert t.workers == s.workers[d - 1 := Done];
      ReachedStep(jobs, hits, workers, s, Leave(d - 1), t);
    }
  }

  /** From the scan of job `k` to the stop, at which worker 0 drops job `j`. */
  lemma ReportReached(jobs: seq<Job>, hits: iset<nat>, workers: nat, k: nat, j: nat, n: nat)
    requires workers >= 2 && j < k && k + 1 < |jobs|
    requires Reached(jobs, hits, workers, Quiet(workers, k, j)) && IsLeast(jobs, hits, k, n)
    ensures Reached(jobs, hits, workers, Ending(workers, k, j, n, 1))
  {
    hide Reached;
    BusyReached(jobs, hits, workers, k, j);
    var a := Got(j);
    CrewChanges(workers, a, Running(k), Found(k, n));
    CrewChanges(workers, a, Found(k, n), Claiming(k, n));
    CrewChanges(workers, a, Claiming(k, n), Sending(k, n));
    CrewChanges(workers, a, Sending(k, n), Idle);
    CrewChanges(workers, a, Idle, Done);
    ReachedStep(jobs, hits, workers, Busy(workers, k, j, Running(k)), Scan(1), Busy(workers, k, j, Found(k, n)));
    ReachedStep(jobs, hits, workers, Busy(workers, k, j, Found(k, n)), Claim(1), Busy(workers, k, j, Claiming(k, n)));
    var s := Busy(workers, k, j, Sending(k, n)).(found := Some(n));
    ReachedStep(jobs, hits, workers, Busy(workers, k, j, Claiming(k, n)), Lower(1), s);
    var t := Reporting(s, 1);
    ReachedStep(jobs, hits, workers, s, Report(1), t);
    var u := t.(stop := true, closed := true);
    ReachedStep(jobs, hits, workers, t, Stop, u);
    assert Ending(workers, k, j, n, 1).workers == Crew(workers, Done, Idle);
    ReachedStep(jobs, hits, workers, u, Drop(0), Ending(workers, k, j, n, 1));
  }

  lemma {:induction false} FirstHolder(jobs: seq<Job>, hits: iset<nat>, from: nat, at: nat) returns (j: nat)
    requires from <= at < |jobs| && HasHit(hits, jobs[at])
    ensures from <= j <= at && HasHit(hits, jobs[j]) && forall i | from <= i < j :: !HasHit(hits, jobs[i])
    decreases at - from
  {
    if HasHit(hits, jobs[from]) {
      j := from;
    } else {
      j := FirstHolder(jobs, hits, from + 1, at);
    }
  }

  /** With two such jobs and a second worker there is a run that misses the least hit: one worker sits on the first
      job while the other reports from the second. No more than one job ever waits in the queue. */
  lemma CrowdedMayMiss(jobs: seq<Job>, hits: iset<nat>, to: nat, workers: nat)
      returns (trace: seq<State>, actions: seq<Action>)
    requires Tiles(jobs, 0, to) && Crowded(jobs, hits) && workers >= 2
    ensures Completed(jobs, hits, workers, trace, actions)
    ensures Best(trace[|trace| - 1].results).Some? && !IsAnswer(hits, to, Best(trace[|trace| - 1].results))
  {
    var j0: nat, k0: nat :| j0 < k0 && k0 + 1 < |jobs| && HasHit(hits, jobs[j0]) && HasHit(hits, jobs[k0]);
    var j := FirstHolder(jobs, hits, 0, j0);
    var k := FirstHolder(jobs, hits, j + 1, k0);
    QuietReached(jobs, hits, workers, k, j);
    var h :| h in hits && jobs[k].base <= h < jobs[k].end;
    var n := Least(hits, jobs[k].base, jobs[k].end).value;
    EndingReached(jobs, hits, workers, k, j, n, workers);
    trace, actions :| Run(jobs, hits, workers, trace, actions) && trace[|trace| - 1] == Ending(workers, k, j, n, workers);
    var m: nat :| m in hits && jobs[j].base <= m < jobs[j].end;
    TilesOrdered(jobs, 0, to, j, k);
    assert Best([n]) == Some(n);
  }

  /** Every run to the end finds the least hit exactly when there is one worker, or no two jobs before the last
      both hold a hit. */
  lemma FindsLeastExactly(jobs: seq<Job>, hits: iset<nat>, to: nat, workers: nat)
    requires Tiles(jobs, 0, to) && workers > 0
    ensures (forall trace: seq<State>, actions: seq<Action> | Completed(jobs, hits, workers, trace, actions) ::
               IsAnswer(hits, to, Best(trace[|trace| - 1].results)))
       <==> workers == 1 || !Crowded(jobs, hits)
  {
    if workers == 1 || !Crowded(jobs, hits) {
      forall trace: seq<State>, actions: seq<Action> | Completed(jobs, hits, workers, trace, actions)
        ensures IsAnswer(hits, to, Best(trace[|trace| - 1].results))
      {
        if workers == 1 {
          OneWorkerFindsLeast(jobs, hits, to, trace, actions);
        } else {
          UncrowdedFindsLeast(jobs, hits, to, workers, trace, actions);
        }
      }
    } else {
      var trace, actions := CrowdedMayMiss(jobs, hits, to, workers);
    }
  }

  /** Even a search that is called off returns hits only. */
  lemma ReportsAreHits(jobs: seq<Job>, hits: iset<nat>, workers: nat, trace: seq<State>, actions: seq<Action>, k: nat)
    requires Run(jobs, hits, workers, trace, actions) && k < |trace|
    ensures forall n | n in trace[k].results :: n in hits
    ensures Best(trace[k].results).Some? ==> Best(trace[k].results).value in hits
  {
    RunInv(jobs, hits, workers, trace, actions, k);
    var s := trace[k];
    forall n | n in s.results ensures n in hits {
      var j :| j in s.fate && s.fate[j] == Reported(n);
      assert FateOk(jobs, hits, s, j, s.fate[j]);
    }
  }

  /** For it, nonces of up to two digits and more make jobs 0 to 7, 8 to 9, 10 to 17 and so on; the hits 3 and 9
      lie in the first two, so two workers may return 9. */
  lemma TwoWorkersMayMiss(maxWidth: nat) returns (trace: seq<State>, actions: seq<Action>)
    requires maxWidth >= 2
    ensures Completed(AllJobs(maxWidth, TWO_THREADS), iset{3, 9}, 2, trace, actions)
    ensures Best(trace[|trace| - 1].results) == Some(9)
  {
    var jobs, hits := AllJobs(maxWidth, TWO_THREADS), iset{3, 9};
    FirstJobs(maxWidth);
    AllJobsTile(maxWidth, TWO_THREADS);
    assert HasHit(hits, jobs[0]) && HasHit(hits, jobs[1]);
    trace, actions := CrowdedMayMiss(jobs, hits, Pow10(maxWidth), 2);
    ReportsAreHits(jobs, hits, 2, trace, actions, |trace| - 1);
    Pow10Monotone(1, maxWidth);
    assert Pow10(1) == 10;
  }
}
