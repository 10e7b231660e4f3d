/** The overlay under concurrent requests.  A read in migrate mode is two transactions, a fetch and
    a rewrite of the fetched row, and the calls of other requests come in between.  A request is some
    sequence of these calls, so what holds for every sequence of calls holds under every schedule of
    requests; the failing ones below are those of single requests on keys. */
module OverlayRaces {
  import opened Text
  import opened Sqlite
  import opened Overlay
  import Interleaving

  /** One transaction.  `Put` and `Span` are the calls of creating requests, which never replace;
      `Cut` is a key DELETE or the end of a container DELETE; listings change nothing. */
  datatype Step = Put(pid: nat, key: string, value: string) | Span(pid: nat, key: string)
                | Cut(pid: nat, key: string) | Fetch(pid: nat, key: string) | Rewrite(pid: nat)

  /** What a migrating read has fetched and will write back. */
  datatype Repinning = Repinning(key: string, plain: string)

  /** The log holds what was answered: insertions and cuts that succeeded. */
  datatype State = State(table: Backing, pending: map<nat, Repinning>, log: seq<Interleaving.Event>)

  /** Migrate mode writes back the rows of the overlay's own key that have no pin. */
  predicate Writable(t: Backing, mkey: nat, mode: Mode, key: string) {
    mode == Migrate && Own(t, mkey, key) && t[key].value.pin.None?
  }

  function Next(s: State, mkey: nat, mode: Mode, step: Step): State {
    match step
    case Put(pid, key, value) =>
      var w := SetOf(s.table, key, Held(Seal(mkey, mode, key, value)), false);
      State(w.table, s.pending,
            s.log + if w.outcome.Stored? then [Interleaving.Inserted(pid, key, Held(value))] else [])
    case Span(pid, key) =>
      var w := SpanOf(s.table, key);
      State(w.table, s.pending,
            s.log + if w.outcome.Stored? then [Interleaving.Inserted(pid, RStrip(key), Blank)] else [])
    case Cut(pid, key) =>
      var c := CutOf(s.table, key);
      State(c.table, s.pending, s.log + if c.removed then [Interleaving.Removed(pid, key)] else [])
    case Fetch(pid, key) =>
      if pid in s.pending || !Writable(s.table, mkey, mode, key) then s
      else s.(pending := s.pending[pid := Repinning(key, s.table[key].value.plain)])
    case Rewrite(pid) =>
      if pid !in s.pending then s
      else
        var f := s.pending[pid];
        State(SetOf(s.table, f.key, Held(Seal(mkey, mode, f.key, f.plain)), true).table, s.pending - {pid}, s.log)
  }

  function Perform(s: State, mkey: nat, mode: Mode, steps: seq<Step>): State
    decreases steps
  {
    if steps == [] then s else Perform(Next(s, mkey, mode, steps[0]), mkey, mode, steps[1..])
  }

  function Begin(t: Backing): State {
    State(t, map[], [])
  }

  /** Nobody in between: the two transactions are the read. */
  lemma FetchThenRewrite(s: State, mkey: nat, mode: Mode, pid: nat, key: string)
    requires pid !in s.pending
    ensures var e := Next(Next(s, mkey, mode, Fetch(pid, key)), mkey, mode, Rewrite(pid));
            e == s.(table := GetOf(s.table, mkey, mode, key).table)
  {
    if Writable(s.table, mkey, mode, key) {
      assert s.pending[pid := Repinning(key, s.table[key].value.plain)] - {pid} == s.pending;
    }
  }

  // ---------------------------------------------------------------- what clients rely on

  /** Successful inserts of a key exceed its successful cuts by one exactly while its row is there,
      a row that was there at first counting as inserted. */
  predicate Balanced(t: Backing, s: State, key: string) {
    (if key in t then 1 else 0) + Interleaving.Inserts(s.log, key) - Interleaving.Cuts(s.log, key)
    == if key in s.table then 1 else 0
  }

  ghost predicate KeepsCount(t: Backing, mkey: nat, mode: Mode) {
    forall steps: seq<Step>, key: string :: Balanced(t, Perform(Begin(t), mkey, mode, steps), key)
  }

  /** From `mid` to `end` the row of `key` was not cut; it is still there and reads the same. */
  predicate SameRow(mid: State, end: State, mkey: nat, mode: Mode, key: string) {
    key in mid.table && |mid.log| <= |end.log| && Interleaving.NoCut(end.log, |mid.log|, |end.log|, key) ==>
      key in end.table && GetOf(end.table, mkey, mode, key).got == GetOf(mid.table, mkey, mode, key).got
  }

  ghost predicate KeepsValues(t: Backing, mkey: nat, mode: Mode) {
    forall first: seq<Step>, second: seq<Step>, key: string ::
      SameRow(Perform(Begin(t), mkey, mode, first),
              Perform(Perform(Begin(t), mkey, mode, first), mkey, mode, second), mkey, mode, key)
  }

  /** No row is left that a migrating read would rewrite. */
  ghost predicate Migrated(t: Backing, mkey: nat, mode: Mode) {
    forall k :: Writable(t, mkey, mode, k) ==> EndsWithSlash(k)
  }

  // ---------------------------------------------------------------- nothing left to migrate

  ghost predicate Settled(s: State, mkey: nat, mode: Mode) {
    Migrated(s.table, mkey, mode) && forall pid :: pid in s.pending ==> EndsWithSlash(s.pending[pid].key)
  }

  lemma SettledStep(s: State, mkey: nat, mode: Mode, step: Step)
    requires Settled(s, mkey, mode)
    ensures Settled(Next(s, mkey, mode, step), mkey, mode)
    ensures s.log <= Next(s, mkey, mode, step).log
  {
    var s' := Next(s, mkey, mode, step);
    forall k | Writable(s'.table, mkey, mode, k) ensures EndsWithSlash(k) {
      assert Writable(s.table, mkey, mode, k);
    }
  }

  lemma CountAppend(log: seq<Interleaving.Event>, e: Interleaving.Event, key: string)
    ensures Interleaving.Inserts(log + [e], key) ==
            Interleaving.Inserts(log, key) + if e.Inserted? && e.key == key then 1 else 0
    ensures Interleaving.Cuts(log + [e], key) ==
            Interleaving.Cuts(log, key) + if e.Removed? && e.key == key then 1 else 0
  {
    assert (log + [e])[..|log|] == log;
  }

  /** A step logs nothing and keeps the row's presence, or logs one event that explains it. */
  predicate Explains(s: State, s': State, key: string) {
    || (s'.log == s.log && (key in s'.table <==> key in s.table))
    || (|s'.log| == |s.log| + 1 && s'.log == s.log + [s'.log[|s.log|]]
        && var e := s'.log[|s.log|];
           if e.key != key then key in s'.table <==> key in s.table
           else if e.Inserted? then key !in s.table && key in s'.table
           else key in s.table && key !in s'.table)
  }

  lemma BalancedStep(t: Backing, s: State, mkey: nat, mode: Mode, step: Step, key: string)
    requires Settled(s, mkey, mode) && Balanced(t, s, key)
    ensures Balanced(t, Next(s, mkey, mode, step), key)
  {
    var s' := Next(s, mkey, mode, step);
    StepExplained(s, mkey, mode, step, key);
    if s'.log != s.log { CountAppend(s.log, s'.log[|s.log|], key); }
  }

  lemma StepExplained(s: State, mkey: nat, mode: Mode, step: Step, key: string)
    requires Settled(s, mkey, mode)
    ensures Explains(s, Next(s, mkey, mode, step), key)
  {
    assert s.log + [] == s.log;
  }

  lemma {:induction false} BalancedRun(t: Backing, s: State, mkey: nat, mode: Mode, steps: seq<Step>, key: string)
    requires Settled(s, mkey, mode) && Balanced(t, s, key)
    ensures Balanced(t, Perform(s, mkey, mode, steps), key)
    decreases steps
  {
    if steps != [] {
      SettledStep(s, mkey, mode, steps[0]);
      BalancedStep(t, s, mkey, mode, steps[0], key);
      BalancedRun(t, Next(s, mkey, mode, steps[0]), mkey, mode, steps[1..], key);
    }
  }

  lemma {:induction false} SettledRun(s: State, mkey: nat, mode: Mode, steps: seq<Step>)
    requires Settled(s, mkey, mode)
    ensures Settled(Perform(s, mkey, mode, steps), mkey, mode)
    ensures s.log <= Perform(s, mkey, mode, steps).log
    decreases steps
  {
    if steps != [] {
      SettledStep(s, mkey, mode, steps[0]);
      SettledRun(Next(s, mkey, mode, steps[0]), mkey, mode, steps[1..]);
    }
  }

  /** Only a cut takes a row away, and nothing changes it. */
  lemma RowStep(s: State, mkey: nat, mode: Mode, step: Step, key: string)
    requires Settled(s, mkey, mode) && key in s.table
    ensures var s' := Next(s, mkey, mode, step);
            && |s.log| <= |s'.log|
            && (Interleaving.NoCut(s'.log, |s.log|, |s'.log|, key) ==> Look(s'.table, key) == Look(s.table, key))
  {
    var s' := Next(s, mkey, mode, step);
    if step.Cut? && step.key == key {
      assert s'.log[|s.log|] == Interleaving.Removed(step.pid, key);
    }
  }

  lemma {:induction false} RowRun(s: State, mkey: nat, mode: Mode, steps: seq<Step>, key: string)
    requires Settled(s, mkey, mode) && key in s.table
    ensures var e := Perform(s, mkey, mode, steps);
            && |s.log| <= |e.log|
            && (Interleaving.NoCut(e.log, |s.log|, |e.log|, key) ==> Look(e.table, key) == Look(s.table, key))
    decreases steps
  {
    if steps != [] {
      var s' := Next(s, mkey, mode, steps[0]);
      var e := Perform(s', mkey, mode, steps[1..]);
      SettledStep(s, mkey, mode, steps[0]);
      SettledRun(s', mkey, mode, steps[1..]);
      if Interleaving.NoCut(e.log, |s.log|, |e.log|, key) {
        NoCutParts(s.log, s'.log, e.log, key);
        RowStep(s, mkey, mode, steps[0], key);
        RowRun(s', mkey, mode, steps[1..], key);
      }
    }
  }

  lemma NoCutParts(a: seq<Interleaving.Event>, b: seq<Interleaving.Event>, c: seq<Interleaving.Event>, key: string)
    requires a <= b <= c && Interleaving.NoCut(c, |a|, |c|, key)
    ensures Interleaving.NoCut(b, |a|, |b|, key) && Interleaving.NoCut(c, |b|, |c|, key)
  {
    assert forall i :: 0 <= i < |b| ==> b[i] == c[i];
  }

  lemma SameCellReads(t: Backing, u: Backing, mkey: nat, mode: Mode, key: string)
    requires Look(t, key) == Look(u, key)
    ensures GetOf(t, mkey, mode, key).got == GetOf(u, mkey, mode, key).got
  {
  }

  // ---------------------------------------------------------------- a row left to migrate

  lemma PerformCons(s: State, mkey: nat, mode: Mode, step: Step, rest: seq<Step>)
    ensures Perform(s, mkey, mode, [step] + rest) == Perform(Next(s, mkey, mode, step), mkey, mode, rest)
  {
    assert ([step] + rest)[1..] == rest;
  }

  /** GET k fetches, DELETE k succeeds, and the rewrite of the GET brings the row back. */
  lemma DeleteUndone(t: Backing, mkey: nat, key: string)
    requires Writable(t, mkey, Migrate, key) && !EndsWithSlash(key)
    ensures var e := Perform(Begin(t), mkey, Migrate, [Fetch(0, key)] + ([Cut(1, key)] + ([Rewrite(0)] + [])));
            && e.log == [Interleaving.Removed(1, key)] && key in e.table
            && GetOf(e.table, mkey, Migrate, key).got == Value(t[key].value.plain)
            && !Balanced(t, e, key)
  {
    var s1 := Next(Begin(t), mkey, Migrate, Fetch(0, key));
    var s2 := Next(s1, mkey, Migrate, Cut(1, key));
    PerformCons(s2, mkey, Migrate, Rewrite(0), []);
    PerformCons(s1, mkey, Migrate, Cut(1, key), [Rewrite(0)] + []);
    PerformCons(Begin(t), mkey, Migrate, Fetch(0, key), [Cut(1, key)] + ([Rewrite(0)] + []));
    assert s2.log == [] + [Interleaving.Removed(1, key)];
    CountAppend([], Interleaving.Removed(1, key), key);
  }

  /** GET k fetches, k is deleted and stored anew, and the rewrite of the GET brings the old value
      back over the new one. */
  lemma PutOverwritten(t: Backing, mkey: nat, key: string, value: string)
    requires Writable(t, mkey, Migrate, key) && !EndsWithSlash(key) && value != t[key].value.plain
    ensures var first := [Fetch(0, key)] + ([Cut(1, key)] + ([Put(1, key, value)] + []));
            var mid := Perform(Begin(t), mkey, Migrate, first);
            var end := Perform(mid, mkey, Migrate, [Rewrite(0)] + []);
            && GetOf(mid.table, mkey, Migrate, key).got == Value(value)
            && GetOf(end.table, mkey, Migrate, key).got == Value(t[key].value.plain)
            && end.log == mid.log && !SameRow(mid, end, mkey, Migrate, key)
  {
    var s1 := Next(Begin(t), mkey, Migrate, Fetch(0, key));
    var s2 := Next(s1, mkey, Migrate, Cut(1, key));
    var mid := Next(s2, mkey, Migrate, Put(1, key, value));
    PerformCons(s2, mkey, Migrate, Put(1, key, value), []);
    PerformCons(s1, mkey, Migrate, Cut(1, key), [Put(1, key, value)] + []);
    PerformCons(Begin(t), mkey, Migrate, Fetch(0, key), [Cut(1, key)] + ([Put(1, key, value)] + []));
    PerformCons(mid, mkey, Migrate, Rewrite(0), []);
  }

  // ---------------------------------------------------------------- exactly when

  /** Behind the overlay inserts and cuts account for the rows under every schedule exactly if no row
      is left that a migrating read would rewrite. */
  lemma KeepsCountExactly(t: Backing, mkey: nat, mode: Mode)
    ensures KeepsCount(t, mkey, mode) <==> Migrated(t, mkey, mode)
  {
    if Migrated(t, mkey, mode) {
      forall steps: seq<Step>, key: string ensures Balanced(t, Perform(Begin(t), mkey, mode, steps), key) {
        BalancedRun(t, Begin(t), mkey, mode, steps, key);
      }
    } else {
      var key :| Writable(t, mkey, mode, key) && !EndsWithSlash(key);
      DeleteUndone(t, mkey, key);
    }
  }

  /** And exactly then a value only changes across a cut of its row. */
  lemma KeepsValuesExactly(t: Backing, mkey: nat, mode: Mode)
    ensures KeepsValues(t, mkey, mode) <==> Migrated(t, mkey, mode)
  {
    if Migrated(t, mkey, mode) {
      forall first: seq<Step>, second: seq<Step>, key: string
        ensures SameRow(Perform(Begin(t), mkey, mode, first),
                        Perform(Perform(Begin(t), mkey, mode, first), mkey, mode, second), mkey, mode, key)
      {
        var mid := Perform(Begin(t), mkey, mode, first);
        SettledRun(Begin(t), mkey, mode, first);
        if key in mid.table {
          RowRun(mid, mkey, mode, second, key);
          var end := Perform(mid, mkey, mode, second);
          if Look(mid.table, key) == Look(end.table, key) {
            SameCellReads(mid.table, end.table, mkey, mode, key);
          }
        }
      }
    } else {
      var key :| Writable(t, mkey, mode, key) && !EndsWithSlash(key);
      var plain := t[key].value.plain;
      PutOverwritten(t, mkey, key, plain + "x");
    }
  }

  /** A rewrite leaves the clients' view of its row alone exactly if the row still reads as fetched. */
  lemma RewriteHarmlessExactly(s: State, mkey: nat, pid: nat)
    requires pid in s.pending && !EndsWithSlash(s.pending[pid].key)
    ensures var f, t, t' := s.pending[pid], s.table, Next(s, mkey, Migrate, Rewrite(pid)).table;
            (f.key in t <==> f.key in t') && GetOf(t, mkey, Migrate, f.key).got == GetOf(t', mkey, Migrate, f.key).got
            <==> GetOf(t, mkey, Migrate, f.key).got == Value(f.plain)
  {
  }
}
