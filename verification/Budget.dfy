/** A budget of entries and bytes kept in two separate counters, reserved and given back by tasks whose
    atomic steps interleave in any order. */
module Budget {
  import opened Words

  datatype Limits = Limits(entries: u64, bytes: u64)

  /** Where a task is between asking for a charge and having given it back. */
  datatype Task =
    | Started(units: u64, bytes: u64)
    | SawEntries(units: u64, bytes: u64, entriesSeen: u64)
    | SawBoth(units: u64, bytes: u64, entriesSeen: u64, bytesSeen: u64)
    | TookEntries(units: u64, bytes: u64, bytesSeen: u64)
    | RollingBack(units: u64, bytes: u64)
    | Held(units: u64, bytes: u64)
    | HalfDropped(bytes: u64)
    | Done

  datatype Sys = Sys(entries: u64, bytes: u64, tasks: seq<Task>)

  /** One atomic step of task `i`. */
  datatype Step =
    | Spawn(units: u64, bytes: u64)
    | LoadEntries(i: nat, v: u64)
    | LoadBytes(i: nat, v: u64)
    | Refuse(i: nat)
    | SwapEntries(i: nat)
    | MissEntries(i: nat)
    | SwapBytes(i: nat)
    | MissBytes(i: nat)
    | RollBack(i: nat)
    | DropEntries(i: nat)
    | DropBytes(i: nat)

  function Sub64(a: u64, b: u64): u64 {
    (a - b) % TWO64
  }

  /** Whether the values seen leave room, without overflow. */
  predicate Room(l: Limits, t: Task)
    requires t.SawBoth?
  {
    t.entriesSeen + t.units < TWO64 && t.entriesSeen + t.units <= l.entries
    && t.bytesSeen + t.bytes < TWO64 && t.bytesSeen + t.bytes <= l.bytes
  }

  function Put(s: Sys, i: nat, t: Task): Sys
    requires i < |s.tasks|
  {
    s.(tasks := s.tasks[i := t])
  }

  /** The step relation. A relaxed load may see any value at all; the weak exchange of the entry counter may
      fail for no reason; the exchange of the byte counter fails only if the counter is not as expected. */
  ghost predicate Next(l: Limits, s: Sys, step: Step, s': Sys) {
    match step
    case Spawn(units, bytes) => s' == s.(tasks := s.tasks + [Started(units, bytes)])
    case LoadEntries(i, v) =>
      i < |s.tasks| && s.tasks[i].Started?
      && s' == Put(s, i, SawEntries(s.tasks[i].units, s.tasks[i].bytes, v))
    case LoadBytes(i, v) =>
      i < |s.tasks| && s.tasks[i].SawEntries?
      && s' == Put(s, i, SawBoth(s.tasks[i].units, s.tasks[i].bytes, s.tasks[i].entriesSeen, v))
    case Refuse(i) =>
      i < |s.tasks| && s.tasks[i].SawBoth? && !Room(l, s.tasks[i])
      && s' == Put(s, i, Done)
    case SwapEntries(i) =>
      i < |s.tasks| && s.tasks[i].SawBoth? && Room(l, s.tasks[i]) && s.entries == s.tasks[i].entriesSeen
      && s' == Put(s, i, TookEntries(s.tasks[i].units, s.tasks[i].bytes, s.tasks[i].bytesSeen))
                 .(entries := s.tasks[i].entriesSeen + s.tasks[i].units)
    case MissEntries(i) =>
      i < |s.tasks| && s.tasks[i].SawBoth? && Room(l, s.tasks[i])
      && s' == Put(s, i, Started(s.tasks[i].units, s.tasks[i].bytes))
    case SwapBytes(i) =>
      i < |s.tasks| && s.tasks[i].TookEntries? && s.bytes == s.tasks[i].bytesSeen
      && s.tasks[i].bytesSeen + s.tasks[i].bytes < TWO64
      && s' == Put(s, i, Held(s.tasks[i].units, s.tasks[i].bytes)).(bytes := s.tasks[i].bytesSeen + s.tasks[i].bytes)
    case MissBytes(i) =>
      i < |s.tasks| && s.tasks[i].TookEntries? && s.bytes != s.tasks[i].bytesSeen
      && s' == Put(s, i, RollingBack(s.tasks[i].units, s.tasks[i].bytes))
    case RollBack(i) =>
      i < |s.tasks| && s.tasks[i].RollingBack?
      && s' == Put(s, i, Started(s.tasks[i].units, s.tasks[i].bytes)).(entries := Sub64(s.entries, s.tasks[i].units))
    case DropEntries(i) =>
      i < |s.tasks| && s.tasks[i].Held?
      && s' == Put(s, i, HalfDropped(s.tasks[i].bytes)).(entries := Sub64(s.entries, s.tasks[i].units))
    case DropBytes(i) =>
      i < |s.tasks| && s.tasks[i].HalfDropped?
      && s' == Put(s, i, Done).(bytes := Sub64(s.bytes, s.tasks[i].bytes))
  }

  const EMPTY := Sys(0, 0, [])

  /** A run from the empty budget. */
  ghost predicate Run(l: Limits, states: seq<Sys>, steps: seq<Step>) {
    && |states| == |steps| + 1 && states[0] == EMPTY
    && forall k | 0 <= k < |steps| :: Next(l, states[k], steps[k], states[k + 1])
  }

  // ----- the invariant

  /** The entries and bytes a task has in the counters. */
  function EntryShare(t: Task): nat {
    if t.TookEntries? || t.RollingBack? || t.Held? then t.units else 0
  }

  function ByteShare(t: Task): nat {
    if t.Held? || t.HalfDropped? then t.bytes else 0
  }

  function Entries(ts: seq<Task>): nat {
    if ts == [] then 0 else Entries(ts[..|ts| - 1]) + EntryShare(ts[|ts| - 1])
  }

  function Bytes(ts: seq<Task>): nat {
    if ts == [] then 0 else Bytes(ts[..|ts| - 1]) + ByteShare(ts[|ts| - 1])
  }

  lemma {:induction false} SumsChange(ts: seq<Task>, i: nat, t: Task)
    requires i < |ts|
    ensures Entries(ts[i := t]) == Entries(ts) - EntryShare(ts[i]) + EntryShare(t)
    ensures Bytes(ts[i := t]) == Bytes(ts) - ByteShare(ts[i]) + ByteShare(t)
    ensures EntryShare(ts[i]) <= Entries(ts) && ByteShare(ts[i]) <= Bytes(ts)
  {
    var n := |ts| - 1;
    if i == n {
      assert ts[i := t][..n] == ts[..n];
    } else {
      SumsChange(ts[..n], i, t);
      assert ts[i := t][..n] == ts[..n][i := t];
    }
  }

  /** What a task remembers having checked. */
  predicate Checked(l: Limits, t: Task) {
    t.TookEntries? ==> t.bytesSeen + t.bytes <= l.bytes
  }

  /** The counters are the sums over held, in-flight and half-dropped charges, and within the limits. */
  ghost predicate Inv(l: Limits, s: Sys) {
    && s.entries == Entries(s.tasks) <= l.entries
    && s.bytes == Bytes(s.tasks) <= l.bytes
    && forall i | 0 <= i < |s.tasks| :: Checked(l, s.tasks[i])
  }

  lemma SumsGrow(ts: seq<Task>, t: Task)
    ensures Entries(ts + [t]) == Entries(ts) + EntryShare(t) && Bytes(ts + [t]) == Bytes(ts) + ByteShare(t)
  {
    assert (ts + [t])[..|ts|] == ts;
  }

  lemma InvNext(l: Limits, s: Sys, step: Step, s': Sys)
    requires Inv(l, s) && Next(l, s, step, s')
    ensures Inv(l, s')
  {
    hide Entries, Bytes;
    if step.Spawn? {
      SumsGrow(s.tasks, Started(step.units, step.bytes));
    } else {
      SumsChange(s.tasks, step.i, s'.tasks[step.i]);
    }
  }

  /** In every state of every run the counters are within the limits and equal to what is outstanding. */
  lemma {:induction false} RunSafe(l: Limits, states: seq<Sys>, steps: seq<Step>, k: nat)
    requires Run(l, states, steps) && k < |states|
    ensures Inv(l, states[k])
  {
    if k > 0 {
      RunSafe(l, states, steps, k - 1);
      InvNext(l, states[k - 1], steps[k - 1], states[k]);
    }
  }

  /** No subtraction ever goes below zero. */
  lemma NoUnderflow(l: Limits, states: seq<Sys>, steps: seq<Step>, k: nat)
    requires Run(l, states, steps) && k < |steps|
    ensures var s, step := states[k], steps[k];
            && (step.RollBack? || step.DropEntries? ==>
                  step.i < |s.tasks| && (s.tasks[step.i].RollingBack? || s.tasks[step.i].Held?)
                  && s.tasks[step.i].units <= s.entries)
            && (step.DropBytes? ==> step.i < |s.tasks| && s.tasks[step.i].HalfDropped? && s.tasks[step.i].bytes <= s.bytes)
  {
    RunSafe(l, states, steps, k);
    var s, step := states[k], steps[k];
    assert Next(l, s, step, states[k + 1]);
    if step.RollBack? || step.DropEntries? || step.DropBytes? {
      SumsChange(s.tasks, step.i, Done);
    }
  }

  /** A task that saw the current counters is refused exactly when its charge would exceed a limit together
      with everything outstanding. */
  lemma FreshViewDecides(l: Limits, s: Sys, t: Task)
    requires Inv(l, s) && t.SawBoth? && t.entriesSeen == s.entries && t.bytesSeen == s.bytes
    ensures Room(l, t) <==> Entries(s.tasks) + t.units <= l.entries && Bytes(s.tasks) + t.bytes <= l.bytes
  {
    hide Entries, Bytes;
  }

  lemma RunMore(l: Limits, states: seq<Sys>, steps: seq<Step>, step: Step, s': Sys)
    requires Run(l, states, steps) && Next(l, states[|states| - 1], step, s')
    ensures Run(l, states + [s'], steps + [step])
  {
    hide Next;
  }

  /** A charge fits if the limits leave room for it beside everything outstanding. */
  ghost predicate Fits(l: Limits, s: Sys, t: Task)
    requires t.Started?
  {
    Entries(s.tasks) + t.units <= l.entries && Bytes(s.tasks) + t.bytes <= l.bytes
  }

  lemma Loaded(l: Limits, states: seq<Sys>, steps: seq<Step>, i: nat) returns (states': seq<Sys>, steps': seq<Step>)
    requires Run(l, states, steps)
    requires i < |states[|states| - 1].tasks| && states[|states| - 1].tasks[i].Started?
    ensures Run(l, states', steps') && |states'| > |states| && states'[..|states|] == states
    ensures var s := states[|states| - 1];
            states'[|states'| - 1] == Put(s, i, SawBoth(s.tasks[i].units, s.tasks[i].bytes, s.entries, s.bytes))
  {
    var s := states[|states| - 1];
    hide Run;
    var t := s.tasks[i];
    var s1 := Put(s, i, SawEntries(t.units, t.bytes, s.entries));
    var s2 := Put(s, i, SawBoth(t.units, t.bytes, s.entries, s.bytes));
    assert Next(l, s, LoadEntries(i, s.entries), s1);
    RunMore(l, states, steps, LoadEntries(i, s.entries), s1);
    assert Next(l, s1, LoadBytes(i, s.bytes), s2);
    RunMore(l, states + [s1], steps + [LoadEntries(i, s.entries)], LoadBytes(i, s.bytes), s2);
    states' := states + [s1] + [s2];
    steps' := steps + [LoadEntries(i, s.entries)] + [LoadBytes(i, s.bytes)];
  }

  /** What a reservation that runs undisturbed comes to: its charge is in both counters if the charge fits, and it is
      refused if not. */
  lemma SoloReserve(l: Limits, states: seq<Sys>, steps: seq<Step>, i: nat) returns (states': seq<Sys>, steps': seq<Step>)
    requires Run(l, states, steps)
    requires i < |states[|states| - 1].tasks| && states[|states| - 1].tasks[i].Started?
    ensures Run(l, states', steps') && |states'| > |states| && states'[..|states|] == states
    ensures var s, end := states[|states| - 1], states'[|states'| - 1];
            var t := s.tasks[i];
            && end.tasks == s.tasks[i := if Fits(l, s, t) then Held(t.units, t.bytes) else Done]
            && (Fits(l, s, t) ==> end.entries == s.entries + t.units && end.bytes == s.bytes + t.bytes)
            && (!Fits(l, s, t) ==> end.entries == s.entries && end.bytes == s.bytes)
  {
    var s := states[|states| - 1];
    hide Run, Entries, Bytes;
    var t := s.tasks[i];
    RunSafe(l, states, steps, |states| - 1);
    var seen := SawBoth(t.units, t.bytes, s.entries, s.bytes);
    var s2 := Put(s, i, seen);
    FreshViewDecides(l, s, seen);
    states', steps' := Loaded(l, states, steps, i);
    if Fits(l, s, t) {
      var s3 := Put(s, i, TookEntries(t.units, t.bytes, s.bytes)).(entries := s.entries + t.units);
      assert Next(l, s2, SwapEntries(i), s3);
      RunMore(l, states', steps', SwapEntries(i), s3);
      states', steps' := states' + [s3], steps' + [SwapEntries(i)];
      var s4 := Put(s3, i, Held(t.units, t.bytes)).(bytes := s.bytes + t.bytes);
      assert Next(l, s3, SwapBytes(i), s4);
      RunMore(l, states', steps', SwapBytes(i), s4);
      states', steps' := states' + [s4], steps' + [SwapBytes(i)];
    } else {
      var s3 := Put(s, i, Done);
      assert Next(l, s2, Refuse(i), s3);
      RunMore(l, states', steps', Refuse(i), s3);
      states', steps' := states' + [s3], steps' + [Refuse(i)];
    }
  }

  /** When no task holds anything or is on its way, both counters are zero again. */
  lemma AllReturned(l: Limits, states: seq<Sys>, steps: seq<Step>, k: nat)
    requires Run(l, states, steps) && k < |states|
    requires forall i | 0 <= i < |states[k].tasks| :: states[k].tasks[i] == Done
    ensures states[k].entries == 0 && states[k].bytes == 0
  {
    RunSafe(l, states, steps, k);
    NothingOutstanding(states[k].tasks);
  }

  lemma {:induction false} NothingOutstanding(ts: seq<Task>)
    requires forall i | 0 <= i < |ts| :: ts[i] == Done
    ensures Entries(ts) == 0 && Bytes(ts) == 0
  {
    if ts != [] {
      NothingOutstanding(ts[..|ts| - 1]);
    }
  }

  /** The charges held at one time never exceed the limits together. */
  lemma HeldWithinLimits(l: Limits, states: seq<Sys>, steps: seq<Step>, k: nat)
    requires Run(l, states, steps) && k < |states|
    ensures HeldUnits(states[k].tasks) <= l.entries && HeldBytes(states[k].tasks) <= l.bytes
  {
    RunSafe(l, states, steps, k);
    HeldAtMost(states[k].tasks);
  }

  function HeldUnits(ts: seq<Task>): nat {
    if ts == [] then 0 else
      HeldUnits(ts[..|ts| - 1]) + if ts[|ts| - 1].Held? then ts[|ts| - 1].units else 0
  }

  function HeldBytes(ts: seq<Task>): nat {
    if ts == [] then 0 else
      HeldBytes(ts[..|ts| - 1]) + if ts[|ts| - 1].Held? then ts[|ts| - 1].bytes else 0
  }

  lemma {:induction false} HeldAtMost(ts: seq<Task>)
    ensures HeldUnits(ts) <= Entries(ts) && HeldBytes(ts) <= Bytes(ts)
  {
    if ts != [] {
      HeldAtMost(ts[..|ts| - 1]);
    }
  }
}
