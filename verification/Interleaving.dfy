/** The server forks per request and every store call is its own transaction, so requests
    interleave between store calls.  Here a request is a small program over the shared table, and
    what is proved holds under every schedule of any number of requests. */
module Interleaving {
  import opened Text
  import opened Sqlite
  import opened Secrets
  import Tree

  /** The store call a request makes next, or its answer. */
  datatype Pc = ParentList | NamespaceSpan | Writing | Listing | Fetching | Cutting | DestroyList | DestroyCut
              | Done(answer: Answer)

  datatype Event = Inserted(pid: nat, key: string, cell: Cell<string>) | Removed(pid: nat, key: string)

  datatype Move = Move(table: Rows, pc: Pc, events: seq<Event>)

  function Begin(req: Request): Pc {
    if OnKey(req) then
      if req.client.None? then Done(Status(500))
      else match req.command
        case GET =>
          if !req.message.Parsed? then Done(Status(406))
          else if |req.trail| < 2 then Done(Status(403)) else Fetching
        case PUT =>
          (match PutPayload(req)
           case Bad(code) => Done(Status(code))
           case Payload(_) => if |req.trail| < 2 then Done(Status(403)) else ParentList)
        case DELETE =>
          if !MaybeBodyOk(req) then Done(Status(406))
          else if |req.trail| < 2 then Done(Status(403)) else Cutting
    else match req.command
      case GET =>
        if !req.message.Parsed? then Done(Status(406))
        else if DbContainerKey(req.defaultNs, req.trail).None? then Done(Status(403)) else Listing
      case PUT => Done(Status(405))
      case POST =>
        if !Slashed(req.trail) then Done(Status(405))
        else if !MaybeBodyOk(req) then Done(Status(406))
        else if |req.trail| < 2 then Done(Status(403))
        else if |req.trail| > 2 then ParentList else Writing
      case DELETE =>
        if !Slashed(req.trail) then Done(Status(405))
        else if !MaybeBodyOk(req) then Done(Status(406))
        else if |req.trail| < 2 then Done(Status(403)) else DestroyList
  }

  function Node(req: Request): string {
    PosixJoin("keys", req.trail)
  }

  /** The row a creating request creates. */
  function CreatedKey(req: Request): string {
    if req.command == PUT then Node(req) else RStrip(Node(req))
  }

  function NodeTrail(req: Request): seq<string> {
    if req.command == POST && req.trail != [] then req.trail[..|req.trail| - 1] else req.trail
  }

  function PutCell(req: Request): Cell<string> {
    if PutPayload(req).Payload? then ToCell(PutPayload(req).value) else Null
  }

  /** One store call, atomic, by request `req` of process `pid`. */
  ghost function Advance(t: Rows, pid: nat, req: Request, pc: Pc): Move {
    var trail := NodeTrail(req);
    match pc
    case ParentList =>
      if |trail| < 2 then Move(t, Done(Status(403)), [])
      else if ListOf(t, ParentKey(trail)).Some? then Move(t, Writing, [])
      else if CreatesNamespace(req.defaultNs, trail) then Move(t, NamespaceSpan, [])
      else Move(t, Done(Status(404)), [])
    case NamespaceSpan =>
      if |trail| < 2 then Move(t, Done(Status(403)), [])
      else
        var key := RStrip(NamespaceKey(trail[0]));
        if key in t then Move(t, Done(Status(if req.command == PUT then 409 else 200)), [])
        else Move(t[key := Blank], Writing, [Inserted(pid, key, Blank)])
    case Writing =>
      var key := CreatedKey(req);
      if req.command == PUT && EndsWithSlash(key) then Move(t, Done(Status(500)), [])
      else if key in t then Move(t, Done(Status(if req.command == PUT then 409 else 200)), [])
      else
        var cell := if req.command == PUT then PutCell(req) else Blank;
        Move(t[key := cell], Done(Status(201)), [Inserted(pid, key, cell)])
    case Listing => Move(t, Done(List(t, req)), [])
    case Fetching => Move(t, Done(Sendable(GetKey(t, req))), [])
    case Cutting => Cut(t, pid, Node(req))
    case DestroyList =>
      (match ListOf(t, Node(req))
       case None => Move(t, Done(Status(404)), [])
       case Some(names) => if names != [] then Move(t, Done(Status(409)), []) else Move(t, DestroyCut, []))
    case DestroyCut => Cut(t, pid, RStrip(Node(req)))
    case Done(_) => Move(t, pc, [])
  }

  function Cut(t: Rows, pid: nat, key: string): Move {
    if key in t then Move(t - {key}, Done(Status(204)), [Removed(pid, key)]) else Move(t, Done(Status(404)), [])
  }

  // ---------------------------------------------------------------- one request alone

  function Rank(pc: Pc): nat {
    match pc
    case ParentList => 3
    case NamespaceSpan => 2
    case DestroyList => 2
    case Done(_) => 0
    case _ => 1
  }

  /** Running one request to its answer with nobody else in between. */
  ghost function Complete(t: Rows, pid: nat, req: Request, pc: Pc): Reply
    decreases Rank(pc)
  {
    if pc.Done? then Reply(t, pc.answer)
    else var m := Advance(t, pid, req, pc); Complete(m.table, pid, req, m.pc)
  }

  lemma CompleteWrite(t: Rows, pid: nat, req: Request)
    ensures Complete(t, pid, req, Writing) ==
            if req.command == PUT then SetReply(t, Node(req), PutCell(req)) else SpanReply(t, Node(req))
  {
  }

  lemma CompleteParent(t: Rows, pid: nat, req: Request)
    requires |NodeTrail(req)| >= 2
    ensures var p := ParentExists(t, req.defaultNs, NodeTrail(req));
            Complete(t, pid, req, ParentList) ==
            match p.verdict
            case Missing => Reply(p.table, Status(404))
            case Clash => Reply(p.table, Status(if req.command == PUT then 409 else 200))
            case Present => Complete(p.table, pid, req, Writing)
  {
    var m := Advance(t, pid, req, ParentList);
    if m.pc.NamespaceSpan? {
      var m' := Advance(t, pid, req, NamespaceSpan);
      assert Complete(t, pid, req, NamespaceSpan) == Complete(m'.table, pid, req, m'.pc);
    }
  }

  lemma AloneOnKey(t: Rows, pid: nat, req: Request)
    requires OnKey(req) && req.client.Some?
    ensures Complete(t, pid, req, Begin(req)) ==
            Reply(KeyOperation(t, req).table, Sendable(KeyOperation(t, req).answer))
  {
    var pc := Begin(req);
    if pc.ParentList? {
      CompleteParent(t, pid, req);
      CompleteWrite(ParentExists(t, req.defaultNs, NodeTrail(req)).table, pid, req);
    } else if pc.Cutting? {
      CompleteCut(t, pid, req);
    }
  }

  lemma AloneOnContainer(t: Rows, pid: nat, req: Request)
    requires !OnKey(req)
    ensures Complete(t, pid, req, Begin(req)) == ContainerOperation(t, req)
  {
    var pc := Begin(req);
    if pc.ParentList? {
      CompleteParent(t, pid, req);
      CompleteWrite(ParentExists(t, req.defaultNs, NodeTrail(req)).table, pid, req);
    } else if pc.Writing? {
      CompleteWrite(t, pid, req);
    } else if pc.DestroyList? {
      CompleteDestroy(t, pid, req);
    }
  }

  /** The steps of a request, run without interruption, are the sequential request. */
  lemma AloneIsSequential(t: Rows, pid: nat, req: Request)
    ensures Complete(t, pid, req, Begin(req)) == Reply(Handle(t, req).table, Handle(t, req).answer)
  {
    if !OnKey(req) {
      AloneOnContainer(t, pid, req);
    } else if req.client.Some? {
      AloneOnKey(t, pid, req);
    }
  }

  lemma CompleteCut(t: Rows, pid: nat, req: Request)
    ensures Complete(t, pid, req, Cutting) == CutReply(t, Node(req))
  {
    assert Node(req) !in t ==> t - {Node(req)} == t;
  }

  lemma CompleteDestroy(t: Rows, pid: nat, req: Request)
    ensures Complete(t, pid, req, DestroyList) ==
            match ListOf(t, Node(req))
            case None => Reply(t, Status(404))
            case Some(names) => if names != [] then Reply(t, Status(409)) else CutReply(t, RStrip(Node(req)))
  {
    var key := RStrip(Node(req));
    assert key !in t ==> t - {key} == t;
    assert Complete(t, pid, req, DestroyCut) == CutReply(t, key);
  }

  // ---------------------------------------------------------------- the system

  datatype Process = Process(req: Request, pc: Pc)

  datatype System = System(table: Rows, procs: map<nat, Process>, log: seq<Event>)

  ghost predicate Initial(s: System) {
    s.table == map[] && s.log == [] && forall pid :: pid in s.procs ==> s.procs[pid].pc == Begin(s.procs[pid].req)
  }

  ghost function Tick(s: System, pid: nat): System {
    if pid !in s.procs then s
    else
      var p := s.procs[pid];
      var m := Advance(s.table, pid, p.req, p.pc);
      System(m.table, s.procs[pid := p.(pc := m.pc)], s.log + m.events)
  }

  /** Every interleaving is the run of some schedule. */
  ghost function Run(s: System, schedule: seq<nat>): System
    decreases schedule
  {
    if schedule == [] then s else Run(Tick(s, schedule[0]), schedule[1..])
  }

  // ---------------------------------------------------------------- the log determines the table

  function Replay(log: seq<Event>): Rows {
    if log == [] then map[]
    else Happen(Replay(log[..|log| - 1]), log[|log| - 1])
  }

  function Happen(t: Rows, e: Event): Rows {
    if e.Inserted? then t[e.key := e.cell] else t - {e.key}
  }

  lemma ReplayPrefix(log: seq<Event>, j: nat)
    requires 0 < j <= |log|
    ensures Replay(log[..j]) == Happen(Replay(log[..j - 1]), log[j - 1])
  {
    assert log[..j][..j - 1] == log[..j - 1];
  }

  /** Inserts hit absent keys, cuts present ones. */
  ghost predicate Legal(log: seq<Event>) {
    forall i :: 0 <= i < |log| ==> (log[i].Inserted? <==> log[i].key !in Replay(log[..i]))
  }

  lemma ReplayOne(log: seq<Event>, e: Event)
    requires Legal(log) && (e.Inserted? <==> e.key !in Replay(log))
    ensures Legal(log + [e])
    ensures Replay(log + [e]) == Happen(Replay(log), e)
  {
    var longer := log + [e];
    assert longer[..|log|] == log;
    forall i | 0 <= i < |longer| ensures longer[i].Inserted? <==> longer[i].key !in Replay(longer[..i]) {
      if i < |log| { assert longer[..i] == log[..i]; }
    }
  }

  /** An answered creation left its insertion in the log. */
  ghost predicate Recorded(log: seq<Event>, pid: nat, req: Request) {
    exists i :: 0 <= i < |log| && log[i].Inserted? && log[i].pid == pid && log[i].key == CreatedKey(req)
  }

  ghost predicate Accounted(s: System, pid: nat)
    requires pid in s.procs
  {
    var p := s.procs[pid];
    p.pc.Done? && p.pc.answer.code == 201 ==> Recorded(s.log, pid, p.req)
  }

  ghost predicate Invariant(s: System) {
    Legal(s.log) && s.table == Replay(s.log) && forall pid :: pid in s.procs ==> Accounted(s, pid)
  }

  lemma RecordedLater(log: seq<Event>, more: seq<Event>, pid: nat, req: Request)
    requires Recorded(log, pid, req)
    ensures Recorded(log + more, pid, req)
  {
    var i :| 0 <= i < |log| && log[i].Inserted? && log[i].pid == pid && log[i].key == CreatedKey(req);
    assert (log + more)[i] == log[i];
  }

  lemma OnlyWritingCreates(t: Rows, pid: nat, req: Request, pc: Pc)
    requires !pc.Done?
    ensures var m := Advance(t, pid, req, pc);
            m.pc.Done? && m.pc.answer.code == 201 ==>
              |m.events| == 1 && m.events[0].Inserted? && m.events[0].pid == pid && m.events[0].key == CreatedKey(req)
  {
  }

  /** A store call changes the table exactly by the event it logs, if any. */
  lemma AdvanceShape(t: Rows, pid: nat, req: Request, pc: Pc)
    ensures var m := Advance(t, pid, req, pc);
            if m.events == [] then m.table == t
            else |m.events| == 1 && m.table == Happen(t, m.events[0])
                 && (m.events[0].Inserted? <==> m.events[0].key !in t)
  {
  }

  lemma AdvanceLogs(t: Rows, m: Move, log: seq<Event>)
    requires Legal(log) && t == Replay(log)
    requires if m.events == [] then m.table == t
             else |m.events| == 1 && m.table == Happen(t, m.events[0])
                  && (m.events[0].Inserted? <==> m.events[0].key !in t)
    ensures Legal(log + m.events) && m.table == Replay(log + m.events)
  {
    if m.events == [] {
      assert log + m.events == log;
    } else {
      assert m.events == [m.events[0]];
      ReplayOne(log, m.events[0]);
    }
  }

  lemma TickAccounted(s: System, pid: nat, q: nat)
    requires pid in s.procs && q in s.procs && Accounted(s, q)
    ensures Accounted(Tick(s, pid), q)
  {
    var p := s.procs[pid];
    var m := Advance(s.table, pid, p.req, p.pc);
    if q == pid && !p.pc.Done? {
      OnlyWritingCreates(s.table, pid, p.req, p.pc);
      if m.pc.Done? && m.pc.answer.code == 201 {
        assert (s.log + m.events)[|s.log|] == m.events[0];
      }
    } else if s.procs[q].pc.Done? && s.procs[q].pc.answer.code == 201 {
      RecordedLater(s.log, m.events, q, s.procs[q].req);
    }
  }

  lemma TickKeeps(s: System, pid: nat)
    requires Invariant(s)
    ensures Invariant(Tick(s, pid))
  {
    if pid in s.procs {
      var p := s.procs[pid];
      AdvanceShape(s.table, pid, p.req, p.pc);
      AdvanceLogs(s.table, Advance(s.table, pid, p.req, p.pc), s.log);
      forall q | q in s.procs ensures Accounted(Tick(s, pid), q) {
        TickAccounted(s, pid, q);
      }
    }
  }

  lemma InitialInvariant(s: System)
    requires Initial(s)
    ensures Invariant(s)
  {
  }

  lemma {:induction false} RunKeeps(s: System, schedule: seq<nat>)
    requires Invariant(s)
    ensures Invariant(Run(s, schedule))
    ensures s.log <= Run(s, schedule).log
    decreases schedule
  {
    if schedule != [] {
      TickKeeps(s, schedule[0]);
      RunKeeps(Tick(s, schedule[0]), schedule[1..]);
    }
  }

  // ---------------------------------------------------------------- counting inserts and cuts

  function Inserts(log: seq<Event>, key: string): nat {
    if log == [] then 0
    else Inserts(log[..|log| - 1], key) + if log[|log| - 1].Inserted? && log[|log| - 1].key == key then 1 else 0
  }

  function Cuts(log: seq<Event>, key: string): nat {
    if log == [] then 0
    else Cuts(log[..|log| - 1], key) + if log[|log| - 1].Removed? && log[|log| - 1].key == key then 1 else 0
  }

  lemma {:induction false} Balance(log: seq<Event>, key: string)
    requires Legal(log)
    ensures Inserts(log, key) - Cuts(log, key) == if key in Replay(log) then 1 else 0
  {
    if log != [] {
      var init, last := log[..|log| - 1], log[|log| - 1];
      assert forall i :: 0 <= i < |init| ==> init[..i] == log[..i];
      assert last.Inserted? <==> last.key !in Replay(init);
      Balance(init, key);
    }
  }

  /** Under every interleaving, the successful inserts of a key exceed its successful cuts by one
      exactly while its row is there, auto-created namespaces included. */
  lemma InsertsMinusCuts(s: System, schedule: seq<nat>, key: string)
    requires Initial(s)
    ensures var e := Run(s, schedule);
            Inserts(e.log, key) - Cuts(e.log, key) == if key in e.table then 1 else 0
  {
    InitialInvariant(s);
    RunKeeps(s, schedule);
    Balance(Run(s, schedule).log, key);
  }

  // ---------------------------------------------------------------- values between cuts

  predicate NoCut(log: seq<Event>, from: nat, to: nat, key: string)
    requires to <= |log|
  {
    forall i :: from <= i < to ==> !(log[i].Removed? && log[i].key == key)
  }

  /** What event j - 1 does to one key. */
  lemma LookAfter(log: seq<Event>, j: nat, key: string)
    requires 0 < j <= |log|
    ensures Look(Replay(log[..j]), key) ==
            var e := log[j - 1];
            if e.key != key then Look(Replay(log[..j - 1]), key) else if e.Inserted? then Some(e.cell) else None
  {
    ReplayPrefix(log, j);
  }

  lemma {:induction false} Persists(log: seq<Event>, i: nat, j: nat, key: string)
    requires Legal(log) && i <= j <= |log| && key in Replay(log[..i]) && NoCut(log, i, j, key)
    ensures Look(Replay(log[..j]), key) == Look(Replay(log[..i]), key)
    decreases j
  {
    if i < j {
      Persists(log, i, j - 1, key);
      LookAfter(log, j, key);
      assert log[j - 1].Inserted? <==> log[j - 1].key !in Replay(log[..j - 1]);
    }
  }

  /** A key's value never changes without a successful cut in between. */
  lemma ValueFixedBetweenCuts(s: System, first: seq<nat>, second: seq<nat>, key: string)
    requires Initial(s)
    requires var mid := Run(s, first);
             var end := Run(mid, second);
             key in mid.table && |mid.log| <= |end.log| && NoCut(end.log, |mid.log|, |end.log|, key)
    ensures Look(Run(Run(s, first), second).table, key) == Look(Run(s, first).table, key)
  {
    InitialInvariant(s);
    RunKeeps(s, first);
    var mid := Run(s, first);
    RunKeeps(mid, second);
    var end := Run(mid, second);
    assert end.log[..|mid.log|] == mid.log && end.log[..|end.log|] == end.log;
    Persists(end.log, |mid.log|, |end.log|, key);
  }

  /** Two inserts of a key always have a cut of it between them. */
  lemma InsertsAlternate(log: seq<Event>, i: nat, j: nat)
    requires Legal(log) && i < j < |log| && log[i].Inserted? && log[j].Inserted? && log[i].key == log[j].key
    ensures !NoCut(log, i + 1, j, log[i].key)
  {
    var key := log[i].key;
    ReplayPrefix(log, i + 1);
    assert key in Replay(log[..i + 1]);
    if NoCut(log, i + 1, j, key) {
      Persists(log, i + 1, j, key);
    }
  }

  /** At i one of p and q inserted the key, at m it was cut, at j the other inserted it. */
  predicate Separated(log: seq<Event>, key: string, p: nat, q: nat, i: nat, m: nat, j: nat) {
    i < m < j < |log|
    && log[i].Inserted? && log[i].key == key
    && log[m].Removed? && log[m].key == key
    && log[j].Inserted? && log[j].key == key
    && ((log[i].pid == p && log[j].pid == q) || (log[i].pid == q && log[j].pid == p))
  }

  lemma CreationsSeparated(log: seq<Event>, key: string, p: nat, q: nat, i: nat, j: nat)
    requires Legal(log) && i < j < |log|
    requires log[i].Inserted? && log[i].key == key && log[j].Inserted? && log[j].key == key
    requires (log[i].pid == p && log[j].pid == q) || (log[i].pid == q && log[j].pid == p)
    ensures exists m :: Separated(log, key, p, q, i, m, j)
  {
    InsertsAlternate(log, i, j);
    var m :| i + 1 <= m < j && log[m].Removed? && log[m].key == key;
    assert Separated(log, key, p, q, i, m, j);
  }

  ghost predicate Created(s: System, pid: nat) {
    pid in s.procs && s.procs[pid].pc.Done? && s.procs[pid].pc.answer.code == 201
  }

  /** Of two requests creating the same row that both answered 201, whatever else ran, one
      inserted it first, a cut of it succeeded, and then the other inserted it. */
  lemma OneCreationBetweenCuts(s: System, schedule: seq<nat>, p: nat, q: nat)
    requires Initial(s) && p != q
    requires Created(Run(s, schedule), p) && Created(Run(s, schedule), q)
    requires CreatedKey(Run(s, schedule).procs[p].req) == CreatedKey(Run(s, schedule).procs[q].req)
    ensures exists i, m, j ::
              Separated(Run(s, schedule).log, CreatedKey(Run(s, schedule).procs[p].req), p, q, i, m, j)
  {
    InitialInvariant(s);
    RunKeeps(s, schedule);
    var e := Run(s, schedule);
    var log, key := e.log, CreatedKey(e.procs[p].req);
    assert Accounted(e, p) && Accounted(e, q);
    var a :| 0 <= a < |log| && log[a].Inserted? && log[a].pid == p && log[a].key == key;
    var b :| 0 <= b < |log| && log[b].Inserted? && log[b].pid == q && log[b].key == key;
    if a < b {
      CreationsSeparated(log, key, p, q, a, b);
    } else {
      CreationsSeparated(log, key, p, q, b, a);
    }
  }

  // ---------------------------------------------------------------- one step decides each answer

  /** The system after n steps of the schedule. */
  ghost function Upto(s: System, schedule: seq<nat>, n: nat): System
    requires n <= |schedule|
  {
    Run(s, schedule[..n])
  }

  lemma {:induction false} RunSnoc(s: System, schedule: seq<nat>, pid: nat)
    ensures Run(s, schedule + [pid]) == Tick(Run(s, schedule), pid)
    decreases schedule
  {
    if schedule == [] {
      assert Run(Tick(s, pid), []) == Tick(s, pid);
      assert [] + [pid] == [pid] && [pid][1..] == [];
    } else {
      assert (schedule + [pid])[1..] == schedule[1..] + [pid];
      RunSnoc(Tick(s, schedule[0]), schedule[1..], pid);
    }
  }

  lemma UptoNext(s: System, schedule: seq<nat>, n: nat)
    requires n < |schedule|
    ensures Upto(s, schedule, n + 1) == Tick(Upto(s, schedule, n), schedule[n])
  {
    assert schedule[..n + 1] == schedule[..n] + [schedule[n]];
    RunSnoc(s, schedule[..n], schedule[n]);
  }

  lemma {:induction false} ProcessStays(s: System, schedule: seq<nat>, n: nat, pid: nat)
    requires n <= |schedule| && pid in s.procs
    ensures pid in Upto(s, schedule, n).procs && Upto(s, schedule, n).procs[pid].req == s.procs[pid].req
  {
    if n > 0 {
      ProcessStays(s, schedule, n - 1, pid);
      UptoNext(s, schedule, n - 1);
    }
  }

  ghost function PcAt(s: System, schedule: seq<nat>, n: nat, pid: nat): Pc
    requires n <= |schedule| && pid in s.procs
  {
    ProcessStays(s, schedule, n, pid);
    Upto(s, schedule, n).procs[pid].pc
  }

  lemma StartPc(s: System, schedule: seq<nat>, pid: nat)
    requires pid in s.procs
    ensures PcAt(s, schedule, 0, pid) == s.procs[pid].pc
  {
    assert schedule[..0] == [];
  }

  /** Step k of the schedule is a turn of `pid`, at `pc`. */
  ghost predicate Turn(s: System, schedule: seq<nat>, pid: nat, k: nat, pc: Pc)
    requires pid in s.procs
  {
    k < |schedule| && schedule[k] == pid && PcAt(s, schedule, k, pid) == pc
  }

  /** What step n does to a process. */
  lemma PcNext(s: System, schedule: seq<nat>, n: nat, pid: nat)
    requires n < |schedule| && pid in s.procs
    ensures PcAt(s, schedule, n + 1, pid) ==
            if schedule[n] == pid then
              Advance(Upto(s, schedule, n).table, pid, s.procs[pid].req, PcAt(s, schedule, n, pid)).pc
            else PcAt(s, schedule, n, pid)
  {
    UptoNext(s, schedule, n);
    ProcessStays(s, schedule, n, pid);
  }

  /** Step k is the one at which `pid` arrives at the answer. */
  ghost predicate Settles(s: System, schedule: seq<nat>, pid: nat, k: nat, answer: Answer)
    requires pid in s.procs
  {
    k < |schedule| && schedule[k] == pid && !PcAt(s, schedule, k, pid).Done?
    && Advance(Upto(s, schedule, k).table, pid, s.procs[pid].req, PcAt(s, schedule, k, pid)).pc == Done(answer)
  }

  lemma {:induction false} DoneStays(s: System, schedule: seq<nat>, pid: nat, n: nat, m: nat)
    requires pid in s.procs && n <= m <= |schedule| && PcAt(s, schedule, n, pid).Done?
    ensures PcAt(s, schedule, m, pid) == PcAt(s, schedule, n, pid)
    decreases m
  {
    if n < m {
      DoneStays(s, schedule, pid, n, m - 1);
      PcNext(s, schedule, m - 1, pid);
    }
  }

  lemma {:induction false} SettledBefore(s: System, schedule: seq<nat>, pid: nat, n: nat, answer: Answer)
    requires pid in s.procs && n <= |schedule| && PcAt(s, schedule, n, pid) == Done(answer)
    ensures s.procs[pid].pc == Done(answer) || exists k: nat :: Settles(s, schedule, pid, k, answer)
  {
    if n > 0 {
      PcNext(s, schedule, n - 1, pid);
      if PcAt(s, schedule, n - 1, pid).Done? {
        SettledBefore(s, schedule, pid, n - 1, answer);
      } else {
        assert Settles(s, schedule, pid, n - 1, answer);
      }
    }
  }

  /** Under every schedule a request's answer is that of a single one of its store calls. */
  lemma AnsweredExactly(s: System, schedule: seq<nat>, pid: nat, answer: Answer)
    requires pid in s.procs
    ensures PcAt(s, schedule, |schedule|, pid) == Done(answer) <==>
            s.procs[pid].pc == Done(answer) || exists k: nat :: Settles(s, schedule, pid, k, answer)
  {
    var n := |schedule|;
    if PcAt(s, schedule, n, pid) == Done(answer) {
      SettledBefore(s, schedule, pid, n, answer);
    }
    StartPc(s, schedule, pid);
    if s.procs[pid].pc == Done(answer) {
      DoneStays(s, schedule, pid, 0, n);
    }
    if k: nat :| Settles(s, schedule, pid, k, answer) {
      PcNext(s, schedule, k, pid);
      DoneStays(s, schedule, pid, k + 1, n);
    }
  }

  // ---------------------------------------------------------------- where a creation can be

  predicate Creating(req: Request) {
    req.command == PUT || req.command == POST
  }

  predicate OnTheWay(pc: Pc) {
    pc.ParentList? || pc.NamespaceSpan? || pc.Writing? || pc.Done?
  }

  lemma BeginOnTheWay(req: Request)
    requires Creating(req)
    ensures OnTheWay(Begin(req)) && !Begin(req).NamespaceSpan?
  {
  }

  lemma StaysOnTheWay(t: Rows, pid: nat, req: Request, pc: Pc)
    requires OnTheWay(pc)
    ensures OnTheWay(Advance(t, pid, req, pc).pc)
  {
  }

  lemma {:induction false} CreatingAt(s: System, schedule: seq<nat>, pid: nat, n: nat)
    requires Initial(s) && pid in s.procs && Creating(s.procs[pid].req) && n <= |schedule|
    ensures OnTheWay(PcAt(s, schedule, n, pid))
  {
    StartPc(s, schedule, pid);
    BeginOnTheWay(s.procs[pid].req);
    if n > 0 {
      CreatingAt(s, schedule, pid, n - 1);
      PcNext(s, schedule, n - 1, pid);
      StaysOnTheWay(Upto(s, schedule, n - 1).table, pid, s.procs[pid].req, PcAt(s, schedule, n - 1, pid));
    }
  }

  /** The answer for a row that is there already. */
  function Taken(req: Request): Answer {
    Status(if req.command == PUT then 409 else 200)
  }

  function OwnNamespace(req: Request): string
    requires |NodeTrail(req)| >= 2
  {
    RStrip(NamespaceKey(NodeTrail(req)[0]))
  }

  /** A key that ends in a slash is refused before the table is looked at. */
  predicate Storable(req: Request) {
    req.command == POST || !EndsWithSlash(CreatedKey(req))
  }

  lemma TakenStep(t: Rows, pid: nat, req: Request, pc: Pc)
    requires Creating(req) && OnTheWay(pc) && !pc.Done?
    ensures Advance(t, pid, req, pc).pc == Done(Taken(req)) <==>
            (pc.Writing? && Storable(req) && CreatedKey(req) in t)
            || (pc.NamespaceSpan? && |NodeTrail(req)| >= 2 && OwnNamespace(req) in t)
  {
  }

  lemma CreatedStep(t: Rows, pid: nat, req: Request, pc: Pc)
    requires Creating(req) && OnTheWay(pc) && !pc.Done?
    ensures Advance(t, pid, req, pc).pc == Done(Status(201)) <==>
            pc.Writing? && Storable(req) && CreatedKey(req) !in t
    ensures Advance(t, pid, req, pc).pc == Done(Status(404)) <==>
            pc.ParentList? && |NodeTrail(req)| >= 2 && ListOf(t, ParentKey(NodeTrail(req))).None?
            && !CreatesNamespace(req.defaultNs, NodeTrail(req))
  {
  }

  // ---------------------------------------------------------------- how a namespace got in the way

  /** Since `from` only other processes than `pid` changed the table. */
  predicate OthersOnly(log: seq<Event>, from: nat, pid: nat) {
    forall m :: from <= m < |log| ==> log[m].pid != pid
  }

  /** `pid` found its namespace missing at step i and has changed nothing since. */
  ghost predicate MissedAt(s: System, schedule: seq<nat>, pid: nat, i: nat, n: nat)
    requires pid in s.procs && n <= |schedule|
  {
    var req := s.procs[pid].req;
    i < n && Turn(s, schedule, pid, i, ParentList) && CreatesNamespace(req.defaultNs, NodeTrail(req))
    && OwnNamespace(req) !in Upto(s, schedule, i).table
    && Upto(s, schedule, i).log <= Upto(s, schedule, n).log
    && OthersOnly(Upto(s, schedule, n).log, |Upto(s, schedule, i).log|, pid)
  }

  lemma ParentMissed(t: Rows, pid: nat, req: Request)
    requires Advance(t, pid, req, ParentList).pc.NamespaceSpan?
    ensures CreatesNamespace(req.defaultNs, NodeTrail(req)) && OwnNamespace(req) !in t
    ensures Advance(t, pid, req, ParentList).events == []
  {
    var trail := NodeTrail(req);
    assert trail[..1] + [""] == [trail[0], ""];
  }

  lemma ToSpan(t: Rows, pid: nat, req: Request, pc: Pc)
    requires Advance(t, pid, req, pc).pc.NamespaceSpan?
    ensures pc.ParentList?
  {
  }

  lemma EventsByPid(t: Rows, pid: nat, req: Request, pc: Pc)
    ensures forall m :: 0 <= m < |Advance(t, pid, req, pc).events| ==> Advance(t, pid, req, pc).events[m].pid == pid
  {
  }

  lemma LogNext(s: System, schedule: seq<nat>, n: nat, pid: nat)
    requires n < |schedule| && schedule[n] != pid
    ensures Upto(s, schedule, n).log <= Upto(s, schedule, n + 1).log
    ensures OthersOnly(Upto(s, schedule, n + 1).log, |Upto(s, schedule, n).log|, pid)
  {
    UptoNext(s, schedule, n);
    var before, p := Upto(s, schedule, n), schedule[n];
    if p in before.procs {
      EventsByPid(before.table, p, before.procs[p].req, before.procs[p].pc);
    }
  }

  lemma OthersOnlyThrough(log: seq<Event>, longer: seq<Event>, from: nat, pid: nat)
    requires log <= longer && from <= |log| && OthersOnly(log, from, pid) && OthersOnly(longer, |log|, pid)
    ensures OthersOnly(longer, from, pid)
  {
    forall m | from <= m < |longer| ensures longer[m].pid != pid {
      if m < |log| { assert longer[m] == log[m]; }
    }
  }

  lemma MissedNext(s: System, schedule: seq<nat>, pid: nat, i: nat, n: nat)
    requires pid in s.procs && n < |schedule| && schedule[n] != pid && MissedAt(s, schedule, pid, i, n)
    ensures MissedAt(s, schedule, pid, i, n + 1)
  {
    LogNext(s, schedule, n, pid);
    OthersOnlyThrough(Upto(s, schedule, n).log, Upto(s, schedule, n + 1).log, |Upto(s, schedule, i).log|, pid);
  }

  lemma {:induction false} SpanMissed(s: System, schedule: seq<nat>, pid: nat, n: nat) returns (i: nat)
    requires Initial(s) && pid in s.procs && Creating(s.procs[pid].req) && n <= |schedule|
    requires PcAt(s, schedule, n, pid).NamespaceSpan?
    ensures MissedAt(s, schedule, pid, i, n)
  {
    SpanNotFirst(s, schedule, pid, n);
    i := n - 1;
    PcNext(s, schedule, i, pid);
    if schedule[i] == pid {
      SpanEntered(s, schedule, pid, i);
    } else {
      i := SpanMissed(s, schedule, pid, n - 1);
      MissedNext(s, schedule, pid, i, n - 1);
    }
  }

  lemma SpanNotFirst(s: System, schedule: seq<nat>, pid: nat, n: nat)
    requires Initial(s) && pid in s.procs && Creating(s.procs[pid].req) && n <= |schedule|
    requires PcAt(s, schedule, n, pid).NamespaceSpan?
    ensures n > 0
  {
    StartPc(s, schedule, pid);
    BeginOnTheWay(s.procs[pid].req);
  }

  lemma SpanEntered(s: System, schedule: seq<nat>, pid: nat, i: nat)
    requires pid in s.procs && i < |schedule| && schedule[i] == pid
    requires PcAt(s, schedule, i + 1, pid).NamespaceSpan?
    ensures MissedAt(s, schedule, pid, i, i + 1)
  {
    var t, req := Upto(s, schedule, i).table, s.procs[pid].req;
    PcNext(s, schedule, i, pid);
    UptoNext(s, schedule, i);
    ProcessStays(s, schedule, i, pid);
    ToSpan(t, pid, req, PcAt(s, schedule, i, pid));
    ParentMissed(t, pid, req);
  }

  /** Another process than `pid` inserted the key since `from`, and it has not been cut since. */
  ghost predicate InsertedByOther(log: seq<Event>, from: nat, pid: nat, key: string) {
    exists m :: InsertedAt(log, from, m, |log|, key) && log[m].pid != pid
  }

  predicate InsertedAt(log: seq<Event>, i: int, m: int, j: int, key: string) {
    0 <= i <= m < j <= |log| && log[m].Inserted? && log[m].key == key && NoCut(log, m, j, key)
  }

  lemma InsertedAtLater(log: seq<Event>, i: nat, m: nat, j: nat, key: string)
    requires 0 < j <= |log| && InsertedAt(log, i, m, j - 1, key) && !(log[j - 1].Removed? && log[j - 1].key == key)
    ensures InsertedAt(log, i, m, j, key)
  {
  }

  /** A key absent at i and present at j was inserted in between, and not cut after that. */
  lemma {:induction false} AppearsByInsert(log: seq<Event>, i: nat, j: nat, key: string) returns (m: nat)
    requires i < j <= |log| && Look(Replay(log[..i]), key).None? && Look(Replay(log[..j]), key).Some?
    ensures InsertedAt(log, i, m, j, key)
    decreases j
  {
    LookAfter(log, j, key);
    if log[j - 1].key == key {
      m := j - 1;
    } else {
      m := AppearsByInsert(log, i, j - 1, key);
      InsertedAtLater(log, i, m, j, key);
    }
  }

  lemma {:induction false} InsertedStays(log: seq<Event>, i: nat, m: nat, j: nat, key: string)
    requires InsertedAt(log, i, m, j, key)
    ensures Look(Replay(log[..j]), key).Some?
    decreases j
  {
    LookAfter(log, j, key);
    if m < j - 1 {
      assert InsertedAt(log, i, m, j - 1, key);
      InsertedStays(log, i, m, j - 1, key);
    }
  }

  lemma InvariantAt(s: System, schedule: seq<nat>, n: nat)
    requires Initial(s) && n <= |schedule|
    ensures Invariant(Upto(s, schedule, n))
  {
    InitialInvariant(s);
    RunKeeps(s, schedule[..n]);
  }

  /** Between finding its namespace missing (step i) and trying to create it (step k), `pid` was
      overtaken by another process that created it. */
  ghost predicate Overtaken(s: System, schedule: seq<nat>, pid: nat, i: nat, k: nat)
    requires pid in s.procs
  {
    var req := s.procs[pid].req;
    && i < k && CreatesNamespace(req.defaultNs, NodeTrail(req))
    && Turn(s, schedule, pid, i, ParentList) && Turn(s, schedule, pid, k, NamespaceSpan)
    && InsertedByOther(Upto(s, schedule, k).log, |Upto(s, schedule, i).log|, pid, OwnNamespace(req))
  }

  /** At step k `pid` was about to write its row and found it there. */
  ghost predicate FoundRow(s: System, schedule: seq<nat>, pid: nat, k: nat)
    requires pid in s.procs
  {
    var req := s.procs[pid].req;
    Turn(s, schedule, pid, k, Writing) && Storable(req) && CreatedKey(req) in Upto(s, schedule, k).table
  }

  lemma InsertedSince(early: seq<Event>, log: seq<Event>, pid: nat, key: string)
    requires early <= log && OthersOnly(log, |early|, pid)
    requires Look(Replay(early), key).None? && Look(Replay(log), key).Some?
    ensures InsertedByOther(log, |early|, pid, key)
  {
    assert log[..|early|] == early && log[..|log|] == log;
    var m := AppearsByInsert(log, |early|, |log|, key);
    assert log[m].pid != pid;
  }

  lemma TableIsReplay(s: System, schedule: seq<nat>, n: nat)
    requires Initial(s) && n <= |schedule|
    ensures Upto(s, schedule, n).table == Replay(Upto(s, schedule, n).log)
  {
    InvariantAt(s, schedule, n);
  }

  lemma SpanOvertaken(s: System, schedule: seq<nat>, pid: nat, k: nat) returns (i: nat)
    requires Initial(s) && pid in s.procs && Creating(s.procs[pid].req) && Turn(s, schedule, pid, k, NamespaceSpan)
    requires |NodeTrail(s.procs[pid].req)| >= 2 && OwnNamespace(s.procs[pid].req) in Upto(s, schedule, k).table
    ensures Overtaken(s, schedule, pid, i, k)
  {
    i := SpanMissed(s, schedule, pid, k);
    TableIsReplay(s, schedule, i);
    TableIsReplay(s, schedule, k);
    InsertedSince(Upto(s, schedule, i).log, Upto(s, schedule, k).log, pid, OwnNamespace(s.procs[pid].req));
  }

  lemma OvertakenPresent(s: System, schedule: seq<nat>, pid: nat, i: nat, k: nat)
    requires Initial(s) && pid in s.procs && Overtaken(s, schedule, pid, i, k)
    ensures OwnNamespace(s.procs[pid].req) in Upto(s, schedule, k).table
  {
    InvariantAt(s, schedule, k);
    var log, key := Upto(s, schedule, k).log, OwnNamespace(s.procs[pid].req);
    var from := |Upto(s, schedule, i).log|;
    var m :| InsertedAt(log, from, m, |log|, key) && log[m].pid != pid;
    assert log[..|log|] == log;
    InsertedStays(log, from, m, |log|, key);
  }

  lemma TakenSettles(s: System, schedule: seq<nat>, pid: nat, k: nat)
    requires Initial(s) && pid in s.procs && Creating(s.procs[pid].req)
    ensures Settles(s, schedule, pid, k, Taken(s.procs[pid].req)) <==>
            FoundRow(s, schedule, pid, k) || exists i: nat :: Overtaken(s, schedule, pid, i, k)
  {
    if k < |schedule| {
      var req, t, pc := s.procs[pid].req, Upto(s, schedule, k).table, PcAt(s, schedule, k, pid);
      CreatingAt(s, schedule, pid, k);
      if !pc.Done? { TakenStep(t, pid, req, pc); }
      if schedule[k] == pid && pc.NamespaceSpan? && |NodeTrail(req)| >= 2 && OwnNamespace(req) in t {
        var i := SpanOvertaken(s, schedule, pid, k);
      }
      if i: nat :| Overtaken(s, schedule, pid, i, k) {
        OvertakenPresent(s, schedule, pid, i, k);
      }
    }
  }

  /** Under every schedule a PUT ends in 409, and a POST in 200, exactly when it found its row or
      was overtaken in creating its own namespace. */
  lemma TakenExactly(s: System, schedule: seq<nat>, pid: nat)
    requires Initial(s) && pid in s.procs && Creating(s.procs[pid].req)
    ensures PcAt(s, schedule, |schedule|, pid) == Done(Taken(s.procs[pid].req)) <==>
            (exists k: nat :: FoundRow(s, schedule, pid, k))
            || (exists i: nat, k: nat :: Overtaken(s, schedule, pid, i, k))
  {
    var taken := Taken(s.procs[pid].req);
    AnsweredExactly(s, schedule, pid, taken);
    if k: nat :| Settles(s, schedule, pid, k, taken) {
      TakenSettles(s, schedule, pid, k);
    }
    if k: nat :| FoundRow(s, schedule, pid, k) {
      TakenSettles(s, schedule, pid, k);
    }
    if i: nat, k: nat :| Overtaken(s, schedule, pid, i, k) {
      TakenSettles(s, schedule, pid, k);
    }
  }

  /** Outside the creation of one's own namespace the sequential meaning survives every schedule. */
  lemma TakenMeansPresent(s: System, schedule: seq<nat>, pid: nat)
    requires Initial(s) && pid in s.procs && Creating(s.procs[pid].req)
    requires !CreatesNamespace(s.procs[pid].req.defaultNs, NodeTrail(s.procs[pid].req))
    ensures PcAt(s, schedule, |schedule|, pid) == Done(Taken(s.procs[pid].req)) <==>
            exists k: nat :: FoundRow(s, schedule, pid, k)
  {
    TakenExactly(s, schedule, pid);
  }

  /** 201 and 404 keep their sequential meaning under every schedule: the row was absent when
      written, the parent absent, and not to be created, when looked for. */
  lemma CreatedOrParentless(s: System, schedule: seq<nat>, pid: nat)
    requires Initial(s) && pid in s.procs && Creating(s.procs[pid].req)
    ensures PcAt(s, schedule, |schedule|, pid) == Done(Status(201)) <==>
            exists k: nat :: Turn(s, schedule, pid, k, Writing) && Storable(s.procs[pid].req)
                             && CreatedKey(s.procs[pid].req) !in Upto(s, schedule, k).table
    ensures PcAt(s, schedule, |schedule|, pid) == Done(Status(404)) <==>
            exists k: nat :: Turn(s, schedule, pid, k, ParentList) && |NodeTrail(s.procs[pid].req)| >= 2
                             && ListOf(Upto(s, schedule, k).table, ParentKey(NodeTrail(s.procs[pid].req))).None?
                             && !CreatesNamespace(s.procs[pid].req.defaultNs, NodeTrail(s.procs[pid].req))
  {
    var req := s.procs[pid].req;
    AnsweredExactly(s, schedule, pid, Status(201));
    AnsweredExactly(s, schedule, pid, Status(404));
    forall k: nat | k < |schedule| && !PcAt(s, schedule, k, pid).Done?
      ensures OnTheWay(PcAt(s, schedule, k, pid))
    {
      CreatingAt(s, schedule, pid, k);
    }
    forall k: nat | k < |schedule| && OnTheWay(PcAt(s, schedule, k, pid)) && !PcAt(s, schedule, k, pid).Done?
      ensures Settles(s, schedule, pid, k, Status(201)) <==>
              Turn(s, schedule, pid, k, Writing) && Storable(req) && CreatedKey(req) !in Upto(s, schedule, k).table
      ensures Settles(s, schedule, pid, k, Status(404)) <==>
              Turn(s, schedule, pid, k, ParentList) && |NodeTrail(req)| >= 2
              && ListOf(Upto(s, schedule, k).table, ParentKey(NodeTrail(req))).None?
              && !CreatesNamespace(req.defaultNs, NodeTrail(req))
    {
      CreatedStep(Upto(s, schedule, k).table, pid, req, PcAt(s, schedule, k, pid));
    }
  }

  // ---------------------------------------------------------------- refused, yet changed

  /** The table holds a change made by `pid`. */
  predicate Changed(log: seq<Event>, pid: nat) {
    exists m :: 0 <= m < |log| && log[m].pid == pid
  }

  /** Step k is a store call of `pid` that changed the table. */
  ghost predicate ChangesAt(s: System, schedule: seq<nat>, pid: nat, k: nat)
    requires pid in s.procs
  {
    k < |schedule| && schedule[k] == pid
    && Advance(Upto(s, schedule, k).table, pid, s.procs[pid].req, PcAt(s, schedule, k, pid)).events != []
  }

  lemma ChangedNext(s: System, schedule: seq<nat>, pid: nat, n: nat)
    requires pid in s.procs && n < |schedule|
    ensures Changed(Upto(s, schedule, n + 1).log, pid) <==>
            Changed(Upto(s, schedule, n).log, pid) || ChangesAt(s, schedule, pid, n)
  {
    var before, p := Upto(s, schedule, n), schedule[n];
    UptoNext(s, schedule, n);
    ProcessStays(s, schedule, n, pid);
    if p in before.procs {
      var events := Advance(before.table, p, before.procs[p].req, before.procs[p].pc).events;
      EventsByPid(before.table, p, before.procs[p].req, before.procs[p].pc);
      ChangedAppend(before.log, events, pid);
      assert events != [] ==> events[0].pid == p;
    }
  }

  lemma ChangedAppend(log: seq<Event>, events: seq<Event>, pid: nat)
    ensures Changed(log + events, pid) <==> Changed(log, pid) || Changed(events, pid)
  {
    if m :| 0 <= m < |log| && log[m].pid == pid { assert (log + events)[m] == log[m]; }
    if m :| 0 <= m < |events| && events[m].pid == pid { assert (log + events)[|log| + m] == events[m]; }
  }

  lemma {:induction false} ChangedExactly(s: System, schedule: seq<nat>, pid: nat, n: nat)
    requires pid in s.procs && s.log == [] && n <= |schedule|
    ensures Changed(Upto(s, schedule, n).log, pid) <==> exists k :: 0 <= k < n && ChangesAt(s, schedule, pid, k)
  {
    if n > 0 {
      ChangedExactly(s, schedule, pid, n - 1);
      ChangedNext(s, schedule, pid, n - 1);
    } else {
      assert schedule[..0] == [];
    }
  }

  lemma ChangingStep(t: Rows, pid: nat, req: Request, pc: Pc)
    ensures var m := Advance(t, pid, req, pc);
            m.events != [] ==>
              (m.pc.Done? && (m.pc.answer.code == 201 || m.pc.answer.code == 204))
              || (m.pc.Writing? && pc.NamespaceSpan? && |NodeTrail(req)| >= 2 && OwnNamespace(req) !in t)
    ensures pc.NamespaceSpan? && |NodeTrail(req)| >= 2 && OwnNamespace(req) !in t ==>
              Advance(t, pid, req, pc).events != []
  {
  }

  /** At step k `pid` created its caller's namespace. */
  ghost predicate MadeNamespace(s: System, schedule: seq<nat>, pid: nat, k: nat)
    requires pid in s.procs
  {
    var req := s.procs[pid].req;
    Turn(s, schedule, pid, k, NamespaceSpan) && |NodeTrail(req)| >= 2
    && OwnNamespace(req) !in Upto(s, schedule, k).table
  }

  /** At step j `pid` could not write its row. */
  ghost predicate LostRow(s: System, schedule: seq<nat>, pid: nat, j: nat)
    requires pid in s.procs
  {
    var req := s.procs[pid].req;
    Turn(s, schedule, pid, j, Writing)
    && (CreatedKey(req) in Upto(s, schedule, j).table || (req.command == PUT && !Storable(req)))
  }

  lemma WritingStep(t: Rows, pid: nat, req: Request)
    ensures var m := Advance(t, pid, req, Writing);
            && m.pc.Done?
            && (m.pc.answer.code == 201 <==> !(CreatedKey(req) in t || (req.command == PUT && !Storable(req))))
  {
  }

  lemma {:induction false} WritingTurn(s: System, schedule: seq<nat>, pid: nat, n: nat) returns (j: nat)
    requires pid in s.procs && n <= |schedule|
    requires PcAt(s, schedule, n, pid) == Writing && PcAt(s, schedule, |schedule|, pid).Done?
    ensures n <= j && Turn(s, schedule, pid, j, Writing)
    decreases |schedule| - n
  {
    j := n;
    if schedule[n] != pid {
      PcNext(s, schedule, n, pid);
      j := WritingTurn(s, schedule, pid, n + 1);
    }
  }

  lemma MakingLoses(s: System, schedule: seq<nat>, pid: nat, k: nat, answer: Answer) returns (j: nat)
    requires pid in s.procs && PcAt(s, schedule, |schedule|, pid) == Done(answer)
    requires answer.code != 201 && answer.code != 204 && ChangesAt(s, schedule, pid, k)
    ensures k < j && MadeNamespace(s, schedule, pid, k) && LostRow(s, schedule, pid, j)
  {
    var req := s.procs[pid].req;
    ChangingStep(Upto(s, schedule, k).table, pid, req, PcAt(s, schedule, k, pid));
    PcNext(s, schedule, k, pid);
    if PcAt(s, schedule, k + 1, pid).Done? { DoneStays(s, schedule, pid, k + 1, |schedule|); }
    j := WritingTurn(s, schedule, pid, k + 1);
    WritingStep(Upto(s, schedule, j).table, pid, req);
    PcNext(s, schedule, j, pid);
    DoneStays(s, schedule, pid, j + 1, |schedule|);
  }

  /** Under every schedule, a request that ended in neither 201 nor 204 has changed the table exactly
      if it created its caller's namespace and later could not write its own row. */
  lemma RefusedYetChanged(s: System, schedule: seq<nat>, pid: nat, answer: Answer)
    requires Initial(s) && pid in s.procs && PcAt(s, schedule, |schedule|, pid) == Done(answer)
    requires answer.code != 201 && answer.code != 204
    ensures Changed(Run(s, schedule).log, pid) <==>
            exists k: nat, j: nat :: k < j && MadeNamespace(s, schedule, pid, k) && LostRow(s, schedule, pid, j)
  {
    assert schedule[..|schedule|] == schedule;
    ChangedExactly(s, schedule, pid, |schedule|);
    if k :| 0 <= k < |schedule| && ChangesAt(s, schedule, pid, k) {
      var j := MakingLoses(s, schedule, pid, k, answer);
    }
    if k: nat, j: nat :| k < j && MadeNamespace(s, schedule, pid, k) && LostRow(s, schedule, pid, j) {
      ChangingStep(Upto(s, schedule, k).table, pid, s.procs[pid].req, NamespaceSpan);
      assert ChangesAt(s, schedule, pid, k);
    }
  }

  // ---------------------------------------------------------------- what interleaving loses

  /** A PUT of a key, or a POST of a container, directly in the caller's own namespace, that has
      passed its checks. */
  predicate OwnCreation(req: Request, ns: string, name: string) {
    && Creating(req) && req.trail == (if req.command == PUT then [ns, name] else [ns, name, ""])
    && req.defaultNs == Some(ns) && Begin(req) == ParentList
  }

  lemma RunCons(s: System, pid: nat, rest: seq<nat>)
    ensures Run(s, [pid] + rest) == Run(Tick(s, pid), rest)
  {
    assert ([pid] + rest)[1..] == rest;
  }

  lemma OwnCreationKeys(req: Request, ns: string, name: string)
    requires OwnCreation(req, ns, name) && CleanNames([ns, name])
    ensures NodeTrail(req) == [ns, name]
    ensures RStrip(NamespaceKey(ns)) == Tree.KeyOf([ns]) && CreatedKey(req) == Tree.KeyOf([ns, name])
    ensures ListOf<string>(map[], ParentKey([ns, name])).None?
  {
    Tree.ParentTrailKey([ns, name]);
    assert [ns, name][..1] == [ns];
    Tree.TrailKey([ns, name]);
    Tree.ContainerKey([ns, name]);
    assert [ns, name] + [""] == [ns, name, ""];
    Tree.KeyOfBare([ns, name]);
    ListOfAbsent<string>(map[], ParentKey([ns, name]));
  }

  lemma CreatedKeyDiffers(req: Request, ns: string, name: string)
    requires OwnCreation(req, ns, name) && CleanNames([ns, name])
    ensures CreatedKey(req) != Tree.KeyOf([ns])
  {
    OwnCreationKeys(req, ns, name);
    Tree.KeyOfComps([ns, name]);
    assert CleanNames([ns]) by { assert [ns, name][0] == ns; }
    Tree.KeyOfComps([ns]);
  }

  /** Alone, a PUT answers 409 and a POST 200 only if the row exists.  Of two of them racing to
      create their common namespace, the second is told that its key or container exists, though
      nobody ever created it. */
  lemma RaceRefusesFreshKey(p: Request, q: Request, ns: string, x: string, y: string)
    requires CleanNames([ns, x]) && CleanNames([ns, y]) && OwnCreation(p, ns, x) && OwnCreation(q, ns, y)
    ensures var s := System(map[], map[0 := Process(p, Begin(p)), 1 := Process(q, Begin(q))], []);
            var e := Run(s, [0] + ([1] + ([0] + ([1] + []))));
            && Initial(s) && 1 in e.procs
            && e.procs[1].pc == Done(Status(if q.command == PUT then 409 else 200))
            && CreatedKey(q) !in e.table && forall i :: 0 <= i < |e.log| ==> e.log[i].key != CreatedKey(q)
  {
    CreatedKeyDiffers(q, ns, y);
    RaceRuns(p, q, ns, x, y);
  }

  lemma RaceRuns(p: Request, q: Request, ns: string, x: string, y: string)
    requires CleanNames([ns, x]) && CleanNames([ns, y]) && OwnCreation(p, ns, x) && OwnCreation(q, ns, y)
    ensures var s := System(map[], map[0 := Process(p, ParentList), 1 := Process(q, ParentList)], []);
            var e := Run(s, [0] + ([1] + ([0] + ([1] + []))));
            && e.table == map[Tree.KeyOf([ns]) := Blank] && e.log == [Inserted(0, Tree.KeyOf([ns]), Blank)]
            && 1 in e.procs && e.procs[1] == Process(q, Done(Taken(q)))
  {
    var s0 := System(map[], map[0 := Process(p, ParentList), 1 := Process(q, ParentList)], []);
    var s1 := System(map[], s0.procs[0 := Process(p, NamespaceSpan)], []);
    var s2 := System(map[], s1.procs[1 := Process(q, NamespaceSpan)], []);
    FirstStep(s0, 0, p, ns, x);
    FirstStep(s1, 1, q, ns, y);
    RunCons(s1, 1, [0] + ([1] + []));
    RunCons(s0, 0, [1] + ([0] + ([1] + [])));
    RaceEnds(s2, p, q, ns, x, y);
  }

  /** Both are about to create the namespace. */
  lemma RaceEnds(s: System, p: Request, q: Request, ns: string, x: string, y: string)
    requires CleanNames([ns, x]) && CleanNames([ns, y]) && OwnCreation(p, ns, x) && OwnCreation(q, ns, y)
    requires s.table == map[] && s.log == [] && 0 in s.procs && 1 in s.procs
    requires s.procs[0] == Process(p, NamespaceSpan) && s.procs[1] == Process(q, NamespaceSpan)
    ensures var e := Run(s, [0] + ([1] + []));
            && e.table == map[Tree.KeyOf([ns]) := Blank] && e.log == [Inserted(0, Tree.KeyOf([ns]), Blank)]
            && 1 in e.procs && e.procs[1] == Process(q, Done(Taken(q)))
  {
    var t := Tick(s, 0);
    SecondStep(s, 0, p, ns, x);
    SecondStep(t, 1, q, ns, y);
    RunCons(t, 1, []);
    RunCons(s, 0, [1] + []);
  }

  /** On an empty table the parent is missing and the namespace is to be created. */
  lemma FirstStep(s: System, pid: nat, req: Request, ns: string, name: string)
    requires OwnCreation(req, ns, name) && CleanNames([ns, name])
    requires s.table == map[] && pid in s.procs && s.procs[pid] == Process(req, ParentList)
    ensures Tick(s, pid) == System(map[], s.procs[pid := Process(req, NamespaceSpan)], s.log)
  {
    OwnCreationKeys(req, ns, name);
    assert Advance(s.table, pid, req, ParentList) == Move(map[], NamespaceSpan, []);
    assert s.log + [] == s.log;
  }

  /** The first to create the namespace goes on to write, any other is refused. */
  lemma SecondStep(s: System, pid: nat, req: Request, ns: string, name: string)
    requires OwnCreation(req, ns, name) && CleanNames([ns, name])
    requires pid in s.procs && s.procs[pid] == Process(req, NamespaceSpan)
    ensures var key := Tree.KeyOf([ns]);
            Tick(s, pid) ==
            if key in s.table then System(s.table, s.procs[pid := Process(req, Done(Taken(req)))], s.log)
            else System(s.table[key := Blank], s.procs[pid := Process(req, Writing)],
                        s.log + [Inserted(pid, key, Blank)])
  {
    OwnCreationKeys(req, ns, name);
    assert s.log + [] == s.log;
  }

  /** The parent is found once its row is there. */
  lemma ParentStep(s: System, pid: nat, req: Request, ns: string, name: string)
    requires OwnCreation(req, ns, name) && CleanNames([ns, name])
    requires Tree.KeyOf([ns]) in s.table && pid in s.procs && s.procs[pid] == Process(req, ParentList)
    ensures Tick(s, pid) == System(s.table, s.procs[pid := Process(req, Writing)], s.log)
  {
    OwnCreationKeys(req, ns, name);
    assert [ns, name][..1] + [""] == [ns, ""];
    assert ListOf(s.table, ParentKey([ns, name])).Some?;
    assert Advance(s.table, pid, req, ParentList) == Move(s.table, Writing, []);
    assert s.log + [] == s.log;
  }

  /** Writing puts the row in the table; where it is already, nothing happens to it. */
  lemma WriteStep(s: System, pid: nat, req: Request, ns: string, name: string)
    requires OwnCreation(req, ns, name) && CleanNames([ns, name])
    requires pid in s.procs && s.procs[pid] == Process(req, Writing)
    ensures var e := Tick(s, pid);
            && CreatedKey(req) in e.table && s.log <= e.log
            && e.procs ==
               s.procs[pid := Process(req, Done(if CreatedKey(req) in s.table then Taken(req) else Status(201)))]
  {
    Tree.KeyOfBare([ns, name]);
    OwnCreationKeys(req, ns, name);
  }

  /** Two requests creating the same row in a missing namespace: the first creates the namespace,
      the second takes the row, and the first is refused though the table holds its change. */
  lemma RefusedButChanged(p: Request, q: Request, ns: string, name: string)
    requires CleanNames([ns, name]) && OwnCreation(p, ns, name) && OwnCreation(q, ns, name)
    ensures var s := System(map[], map[0 := Process(p, Begin(p)), 1 := Process(q, Begin(q))], []);
            var e := Run(s, [0] + ([0] + ([1] + ([1] + ([0] + [])))));
            && Initial(s) && 0 in e.procs && e.procs[0].pc == Done(Taken(p))
            && |e.log| > 0 && e.log[0] == Inserted(0, Tree.KeyOf([ns]), Blank)
  {
    var s0 := System(map[], map[0 := Process(p, ParentList), 1 := Process(q, ParentList)], []);
    var s1 := Tick(s0, 0);
    FirstStep(s0, 0, p, ns, name);
    var s2 := Tick(s1, 0);
    SecondStep(s1, 0, p, ns, name);
    var rest := [1] + ([1] + ([0] + []));
    RunCons(s1, 0, rest);
    RunCons(s0, 0, [0] + rest);
    RowLost(s2, p, q, ns, name);
  }

  /** From the created namespace on. */
  lemma RowLost(s: System, p: Request, q: Request, ns: string, name: string)
    requires CleanNames([ns, name]) && OwnCreation(p, ns, name) && OwnCreation(q, ns, name)
    requires Tree.KeyOf([ns]) in s.table && 0 in s.procs && 1 in s.procs
    requires s.procs[0] == Process(p, Writing) && s.procs[1] == Process(q, ParentList)
    ensures var e := Run(s, [1] + ([1] + ([0] + [])));
            0 in e.procs && e.procs[0].pc == Done(Taken(p)) && s.log <= e.log
  {
    OwnCreationKeys(p, ns, name);
    OwnCreationKeys(q, ns, name);
    var s1 := Tick(s, 1);
    ParentStep(s, 1, q, ns, name);
    var s2 := Tick(s1, 1);
    WriteStep(s1, 1, q, ns, name);
    WriteStep(s2, 0, p, ns, name);
    RunCons(s2, 0, []);
    RunCons(s1, 1, [0] + []);
    RunCons(s, 1, [1] + ([0] + []));
  }
}
