/** What interleaving does to the tree: which store calls, under any schedule, leave a row without
    its parent's row. */
module Closure {
  import opened Text
  import opened Sqlite
  import opened Secrets
  import opened Tree
  import opened Interleaving
  import Runs

  // ---------------------------------------------------------------- where a request can be

  /** The steps a request gets to. */
  predicate Reached(req: Request, pc: Pc) {
    match pc
    case ParentList => Creation(req) && |NodeTrail(req)| >= 2
    case NamespaceSpan => Creation(req) && |NodeTrail(req)| >= 2
    case Writing => Creation(req) && |req.trail| >= 2
    case Cutting => req.command == DELETE && OnKey(req) && |req.trail| >= 2
    case DestroyList => req.command == DELETE && Slashed(req.trail) && |req.trail| >= 2
    case DestroyCut => req.command == DELETE && Slashed(req.trail) && |req.trail| >= 2
    case _ => true
  }

  predicate Creation(req: Request) {
    if Slashed(req.trail) then req.command == POST else req.command == PUT
  }

  lemma BeginReached(req: Request)
    ensures Reached(req, Begin(req))
  {
  }

  lemma AdvanceReached(t: Rows, pid: nat, req: Request, pc: Pc)
    requires Reached(req, pc)
    ensures Reached(req, Advance(t, pid, req, pc).pc)
  {
  }

  lemma {:induction false} ReachedAt(s: System, schedule: seq<nat>, pid: nat, n: nat)
    requires Initial(s) && pid in s.procs && n <= |schedule|
    ensures Reached(s.procs[pid].req, PcAt(s, schedule, n, pid))
  {
    if n == 0 {
      StartPc(s, schedule, pid);
      BeginReached(s.procs[pid].req);
    } else {
      ReachedAt(s, schedule, pid, n - 1);
      PcNext(s, schedule, n - 1, pid);
      AdvanceReached(Upto(s, schedule, n - 1).table, pid, s.procs[pid].req, PcAt(s, schedule, n - 1, pid));
    }
  }

  // ---------------------------------------------------------------- one store call

  /** The call removes a row from above others. */
  ghost predicate CutsAbove(t: Rows, req: Request, pc: Pc) {
    (pc.Cutting? || pc.DestroyCut?) && KeyOf(Target(req.trail)) in t && Below(t, KeyOf(Target(req.trail))) != {}
  }

  /** The call writes a row whose parent's row is not there any more. */
  predicate WritesUnder(t: Rows, req: Request, pc: Pc) {
    var cs := Target(req.trail);
    pc.Writing? && |cs| >= 2 && KeyOf(cs) !in t && KeyOf(cs[..|cs| - 1]) !in t
  }

  lemma CreatedNode(req: Request)
    requires CleanTrail(req.trail) && Creation(req) && |req.trail| >= 2
    ensures CleanNames(Target(req.trail)) && NodeTrail(req) == Target(req.trail)
    ensures CreatedKey(req) == KeyOf(Target(req.trail)) && Storable(req)
  {
    TrailKey(req.trail);
    TargetClean(req.trail);
    KeyOfBare(Target(req.trail));
  }

  lemma CutNode(req: Request)
    requires CleanTrail(req.trail) && |req.trail| >= 2
    ensures CleanNames(Target(req.trail)) && RStrip(Node(req)) == KeyOf(Target(req.trail))
    ensures !Slashed(req.trail) ==> Node(req) == KeyOf(Target(req.trail))
  {
    TrailKey(req.trail);
    TargetClean(req.trail);
  }

  lemma AddClosesIff(t: Rows, cs: seq<string>, cell: Cell<string>)
    requires Runs.ParentClosed(t) && CleanNames(cs)
    ensures Runs.ParentClosed(t[KeyOf(cs) := cell]) <==>
            (|cs| >= 2 ==> KeyOf(cs[..|cs| - 1]) in t)
  {
    KeyOfComps(cs);
    if |cs| >= 2 && KeyOf(cs[..|cs| - 1]) !in t {
      assert CleanNames(cs[..|cs| - 1]);
      KeyOfComps(cs[..|cs| - 1]);
      assert Runs.ParentRow(KeyOf(cs)) == KeyOf(cs[..|cs| - 1]);
    } else {
      Runs.AddKeepsClosed(t, cs, cell);
    }
  }

  lemma WriteClosure(t: Rows, pid: nat, req: Request)
    requires Runs.ParentClosed(t) && CleanTrail(req.trail) && Reached(req, Writing)
    ensures Runs.ParentClosed(Advance(t, pid, req, Writing).table) <==> !WritesUnder(t, req, Writing)
  {
    var cs := Target(req.trail);
    CreatedNode(req);
    if KeyOf(cs) !in t {
      AddClosesIff(t, cs, if req.command == PUT then PutCell(req) else Blank);
    }
  }

  lemma SpanClosure(t: Rows, pid: nat, req: Request)
    requires Runs.ParentClosed(t) && CleanTrail(req.trail) && Reached(req, NamespaceSpan)
    ensures Runs.ParentClosed(Advance(t, pid, req, NamespaceSpan).table)
  {
    var cs := NodeTrail(req);
    CreatedNode(req);
    ParentTrailKey(cs);
    assert CleanNames(cs[..1]);
    AddClosesIff(t, cs[..1], Blank);
  }

  lemma CutClosure(t: Rows, pid: nat, req: Request, pc: Pc)
    requires Runs.ParentClosed(t) && CleanTrail(req.trail) && Reached(req, pc) && (pc.Cutting? || pc.DestroyCut?)
    ensures Runs.ParentClosed(Advance(t, pid, req, pc).table) <==> !CutsAbove(t, req, pc)
  {
    CutNode(req);
    if KeyOf(Target(req.trail)) in t { Runs.RemoveKeepsClosed(t, Target(req.trail)); }
  }

  /** A store call keeps every row's parent present exactly if it neither cuts a row with rows below
      nor writes one whose parent is gone by then. */
  lemma ClosureStep(t: Rows, pid: nat, req: Request, pc: Pc)
    requires Runs.ParentClosed(t) && CleanTrail(req.trail) && Reached(req, pc)
    ensures Runs.ParentClosed(Advance(t, pid, req, pc).table) <==> !CutsAbove(t, req, pc) && !WritesUnder(t, req, pc)
  {
    match pc {
      case NamespaceSpan => SpanClosure(t, pid, req);
      case Writing => WriteClosure(t, pid, req);
      case Cutting => CutClosure(t, pid, req, pc);
      case DestroyCut => CutClosure(t, pid, req, pc);
      case _ =>
    }
  }

  // ---------------------------------------------------------------- runs

  ghost predicate CleanProcesses(s: System) {
    forall pid :: pid in s.procs ==> CleanTrail(s.procs[pid].req.trail)
  }

  /** Step n of the schedule leaves a row without its parent's. */
  ghost predicate Orphans(s: System, schedule: seq<nat>, n: nat)
    requires n < |schedule|
  {
    var pid := schedule[n];
    pid in s.procs && (CutsAbove(Upto(s, schedule, n).table, s.procs[pid].req, PcAt(s, schedule, n, pid))
                       || WritesUnder(Upto(s, schedule, n).table, s.procs[pid].req, PcAt(s, schedule, n, pid)))
  }

  lemma {:induction false} ProcessesStay(s: System, schedule: seq<nat>)
    ensures Run(s, schedule).procs.Keys == s.procs.Keys
    decreases schedule
  {
    if schedule != [] { ProcessesStay(Tick(s, schedule[0]), schedule[1..]); }
  }

  lemma ClosureTick(s: System, schedule: seq<nat>, n: nat)
    requires Initial(s) && CleanProcesses(s) && n < |schedule| && Runs.ParentClosed(Upto(s, schedule, n).table)
    ensures Runs.ParentClosed(Upto(s, schedule, n + 1).table) <==> !Orphans(s, schedule, n)
  {
    var pid := schedule[n];
    UptoNext(s, schedule, n);
    ProcessesStay(s, schedule[..n]);
    if pid in s.procs {
      ProcessStays(s, schedule, n, pid);
      ReachedAt(s, schedule, pid, n);
      ClosureStep(Upto(s, schedule, n).table, pid, s.procs[pid].req, PcAt(s, schedule, n, pid));
    }
  }

  lemma {:induction false} ClosedUpto(s: System, schedule: seq<nat>, n: nat)
    requires Initial(s) && CleanProcesses(s) && n <= |schedule|
    requires forall k :: 0 <= k < n ==> !Orphans(s, schedule, k)
    ensures Runs.ParentClosed(Upto(s, schedule, n).table)
  {
    if n == 0 {
      assert schedule[..0] == [];
    } else {
      ClosedUpto(s, schedule, n - 1);
      ClosureTick(s, schedule, n - 1);
    }
  }

  /** Under any schedule, every row has its parent's at all times exactly if no step orphans one. */
  lemma ClosedThroughoutExactly(s: System, schedule: seq<nat>)
    requires Initial(s) && CleanProcesses(s)
    ensures (forall n :: 0 <= n <= |schedule| ==> Runs.ParentClosed(Upto(s, schedule, n).table)) <==>
            (forall n :: 0 <= n < |schedule| ==> !Orphans(s, schedule, n))
  {
    if forall n :: 0 <= n < |schedule| ==> !Orphans(s, schedule, n) {
      forall n | 0 <= n <= |schedule| ensures Runs.ParentClosed(Upto(s, schedule, n).table) {
        ClosedUpto(s, schedule, n);
      }
    }
    if forall n :: 0 <= n <= |schedule| ==> Runs.ParentClosed(Upto(s, schedule, n).table) {
      forall n | 0 <= n < |schedule| ensures !Orphans(s, schedule, n) {
        ClosureTick(s, schedule, n);
      }
    }
  }

  // ---------------------------------------------------------------- deleting a container

  /** `pid` found its container empty at step i and has changed nothing since. */
  ghost predicate EmptyAt(s: System, schedule: seq<nat>, pid: nat, i: nat, n: nat)
    requires pid in s.procs && n <= |schedule|
  {
    i < n && Turn(s, schedule, pid, i, DestroyList)
    && Below(Upto(s, schedule, i).table, RStrip(Node(s.procs[pid].req))) == {}
    && Upto(s, schedule, i).log <= Upto(s, schedule, n).log
    && OthersOnly(Upto(s, schedule, n).log, |Upto(s, schedule, i).log|, pid)
  }

  lemma ToDestroyCut(t: Rows, pid: nat, req: Request, pc: Pc)
    requires Advance(t, pid, req, pc).pc.DestroyCut?
    ensures pc.DestroyList? && Below(t, RStrip(Node(req))) == {} && Advance(t, pid, req, pc).events == []
  {
    EntriesEmpty(t, RStrip(Node(req)));
  }

  lemma EmptyEntered(s: System, schedule: seq<nat>, pid: nat, i: nat)
    requires pid in s.procs && i < |schedule| && schedule[i] == pid && PcAt(s, schedule, i + 1, pid).DestroyCut?
    ensures EmptyAt(s, schedule, pid, i, i + 1)
  {
    PcNext(s, schedule, i, pid);
    UptoNext(s, schedule, i);
    ProcessStays(s, schedule, i, pid);
    ToDestroyCut(Upto(s, schedule, i).table, pid, s.procs[pid].req, PcAt(s, schedule, i, pid));
  }

  lemma EmptyNext(s: System, schedule: seq<nat>, pid: nat, i: nat, n: nat)
    requires pid in s.procs && n < |schedule| && schedule[n] != pid && EmptyAt(s, schedule, pid, i, n)
    ensures EmptyAt(s, schedule, pid, i, n + 1)
  {
    LogNext(s, schedule, n, pid);
    OthersOnlyThrough(Upto(s, schedule, n).log, Upto(s, schedule, n + 1).log, |Upto(s, schedule, i).log|, pid);
  }

  lemma CutNotFirst(s: System, schedule: seq<nat>, pid: nat, n: nat)
    requires Initial(s) && pid in s.procs && n <= |schedule| && PcAt(s, schedule, n, pid).DestroyCut?
    ensures n > 0
  {
    StartPc(s, schedule, pid);
  }

  lemma {:induction false} CutFoundEmpty(s: System, schedule: seq<nat>, pid: nat, n: nat) returns (i: nat)
    requires Initial(s) && pid in s.procs && n <= |schedule| && PcAt(s, schedule, n, pid).DestroyCut?
    ensures EmptyAt(s, schedule, pid, i, n)
  {
    CutNotFirst(s, schedule, pid, n);
    i := n - 1;
    PcNext(s, schedule, i, pid);
    if schedule[i] == pid {
      EmptyEntered(s, schedule, pid, i);
    } else {
      i := CutFoundEmpty(s, schedule, pid, n - 1);
      EmptyNext(s, schedule, pid, i, n - 1);
    }
  }

  /** Between finding the container empty (step i) and cutting it (step k), another process put
      the row `under` below it. */
  ghost predicate FilledSince(s: System, schedule: seq<nat>, pid: nat, i: nat, k: nat, under: string)
    requires pid in s.procs && k < |schedule|
  {
    && i < k && Turn(s, schedule, pid, i, DestroyList)
    && StrictlyBelow(RStrip(Node(s.procs[pid].req)), under)
    && InsertedByOther(Upto(s, schedule, k).log, |Upto(s, schedule, i).log|, pid, under)
  }

  lemma FilledPresent(s: System, schedule: seq<nat>, pid: nat, i: nat, k: nat, under: string)
    requires Initial(s) && pid in s.procs && k < |schedule| && FilledSince(s, schedule, pid, i, k, under)
    ensures under in Below(Upto(s, schedule, k).table, RStrip(Node(s.procs[pid].req)))
  {
    TableIsReplay(s, schedule, k);
    var log, from := Upto(s, schedule, k).log, |Upto(s, schedule, i).log|;
    var m :| InsertedAt(log, from, m, |log|, under) && log[m].pid != pid;
    assert log[..|log|] == log;
    InsertedStays(log, from, m, |log|, under);
  }

  lemma BelowFilled(s: System, schedule: seq<nat>, pid: nat, k: nat, under: string) returns (i: nat)
    requires Initial(s) && pid in s.procs && Turn(s, schedule, pid, k, DestroyCut)
    requires under in Below(Upto(s, schedule, k).table, RStrip(Node(s.procs[pid].req)))
    ensures FilledSince(s, schedule, pid, i, k, under)
  {
    i := CutFoundEmpty(s, schedule, pid, k);
    TableIsReplay(s, schedule, i);
    TableIsReplay(s, schedule, k);
    assert under !in Upto(s, schedule, i).table by {
      assert under !in Below(Upto(s, schedule, i).table, RStrip(Node(s.procs[pid].req)));
    }
    InsertedSince(Upto(s, schedule, i).log, Upto(s, schedule, k).log, pid, under);
  }

  /** Under any schedule, a container DELETE cuts its row from above others exactly if another
      process put one there since the DELETE found the container empty. */
  lemma DestroyRaceExactly(s: System, schedule: seq<nat>, pid: nat, k: nat)
    requires Initial(s) && pid in s.procs && Turn(s, schedule, pid, k, DestroyCut)
    ensures Below(Upto(s, schedule, k).table, RStrip(Node(s.procs[pid].req))) != {} <==>
            exists i: nat, under: string :: FilledSince(s, schedule, pid, i, k, under)
  {
    if under :| under in Below(Upto(s, schedule, k).table, RStrip(Node(s.procs[pid].req))) {
      var i := BelowFilled(s, schedule, pid, k, under);
    }
    if i: nat, under: string :| FilledSince(s, schedule, pid, i, k, under) {
      FilledPresent(s, schedule, pid, i, k, under);
    }
  }

  // ---------------------------------------------------------------- a schedule that orphans

  lemma TickIs(s: System, pid: nat, req: Request, pc: Pc, m: Move)
    requires pid in s.procs && s.procs[pid] == Process(req, pc) && Advance(s.table, pid, req, pc) == m
    ensures Tick(s, pid) == System(m.table, s.procs[pid := Process(req, m.pc)], s.log + m.events)
  {
  }

  lemma FindsParent(t: Rows, pid: nat, req: Request)
    requires CleanTrail(req.trail) && Reached(req, ParentList) && |Target(req.trail)| >= 2
    requires KeyOf(Target(req.trail)[..|Target(req.trail)| - 1]) in t
    ensures Advance(t, pid, req, ParentList) == Move(t, Writing, [])
  {
    var cs := Target(req.trail);
    CreatedNode(req);
    ParentTrailKey(cs);
    OccupiedListed(t, cs[..|cs| - 1], ParentKey(cs));
    assert At(KeyOf(cs[..|cs| - 1]), KeyOf(cs[..|cs| - 1]));
  }

  lemma WritesRow(t: Rows, pid: nat, req: Request)
    requires CleanTrail(req.trail) && Reached(req, Writing) && KeyOf(Target(req.trail)) !in t
    ensures var m := Advance(t, pid, req, Writing);
            m.pc == Done(Status(201)) && m.table.Keys == t.Keys + {KeyOf(Target(req.trail))}
  {
    CreatedNode(req);
  }

  lemma DestroysRow(t: Rows, pid: nat, req: Request)
    requires CleanTrail(req.trail) && Reached(req, DestroyList) && KeyOf(Target(req.trail)) in t
    ensures Below(t, KeyOf(Target(req.trail))) == {} ==> Advance(t, pid, req, DestroyList) == Move(t, DestroyCut, [])
    ensures var m := Advance(t, pid, req, DestroyCut);
            m.pc == Done(Status(204)) && m.table == t - {KeyOf(Target(req.trail))}
  {
    var cs := Target(req.trail);
    CutNode(req);
    assert At(KeyOf(cs), KeyOf(cs));
    OccupiedListed(t, cs, Node(req));
  }

  /** A PUT has found its parent when a container DELETE of that parent runs, and then writes: both
      succeed, and the row written has no parent. */
  lemma PutDestroyRace(s: System, p: nat, q: nat, put: Request, delete: Request)
    requires p != q && p in s.procs && q in s.procs
    requires CleanTrail(put.trail) && CleanTrail(delete.trail)
    requires Reached(put, ParentList) && Reached(delete, DestroyList) && |Target(put.trail)| >= 2
    requires Target(delete.trail) == Target(put.trail)[..|Target(put.trail)| - 1]
    requires s.procs[p] == Process(put, ParentList) && s.procs[q] == Process(delete, DestroyList)
    requires KeyOf(Target(delete.trail)) in s.table && KeyOf(Target(put.trail)) !in s.table
    requires Below(s.table, KeyOf(Target(delete.trail))) == {}
    ensures var e := Run(s, [p] + ([q] + ([q] + ([p] + []))));
            && p in e.procs && q in e.procs
            && e.procs[p].pc == Done(Status(201)) && e.procs[q].pc == Done(Status(204))
            && KeyOf(Target(put.trail)) in e.table && KeyOf(Target(delete.trail)) !in e.table
  {
    var t := s.table;
    FindsParent(t, p, put);
    TickIs(s, p, put, ParentList, Advance(t, p, put, ParentList));
    var s1 := Tick(s, p);
    DestroysRow(t, q, delete);
    TickIs(s1, q, delete, DestroyList, Advance(t, q, delete, DestroyList));
    var s2 := Tick(s1, q);
    TickIs(s2, q, delete, DestroyCut, Advance(t, q, delete, DestroyCut));
    var s3 := Tick(s2, q);
    var u := t - {KeyOf(Target(delete.trail))};
    WritesRow(u, p, put);
    TickIs(s3, p, put, Writing, Advance(u, p, put, Writing));
    CreatedNode(put);
    KeyOfComps(Target(put.trail));
    CutNode(delete);
    KeyOfComps(Target(delete.trail));
    RunCons(s3, p, []);
    RunCons(s2, q, [p] + []);
    RunCons(s1, q, [q] + ([p] + []));
    RunCons(s, p, [q] + ([q] + ([p] + [])));
  }
}
