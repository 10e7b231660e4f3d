/** Users stay apart under every interleaving: taking all of one user's processes out of a system
    changes no step and no answer of another user's processes, whatever the schedule. */
module Isolation {
  import opened Text
  import opened Sqlite
  import opened Secrets
  import opened Interleaving
  import opened NonInterference
  import Routing

  // ---------------------------------------------------------------- one store call

  lemma NodeOwned(ns: string, req: Request)
    requires Within(ns, req.trail)
    ensures Owns(ns, Node(req)) && Owns(ns, RStrip(Node(req))) && Owns(ns, CreatedKey(req))
    ensures |NodeTrail(req)| >= 2 ==> Within(ns, NodeTrail(req))
  {
    TrailOwned(ns, req.trail);
  }

  ghost predicate SameStep(ns: string, m: Move, n: Move) {
    m.pc == n.pc && Agree(m.table, n.table, ns)
  }

  lemma ParentStepsAlike(t: Rows, u: Rows, ns: string, pid: nat, req: Request)
    requires Agree(t, u, ns) && Within(ns, req.trail)
    ensures SameStep(ns, Advance(t, pid, req, ParentList), Advance(u, pid, req, ParentList))
    ensures SameStep(ns, Advance(t, pid, req, NamespaceSpan), Advance(u, pid, req, NamespaceSpan))
  {
    var trail := NodeTrail(req);
    NodeOwned(ns, req);
    if |trail| >= 2 {
      ParentOwned(ns, trail);
      ListAlike(t, u, ns, ParentKey(trail));
      var key := RStrip(NamespaceKey(trail[0]));
      assert Look(t, key) == Look(u, key);
    }
  }

  lemma WriteStepAlike(t: Rows, u: Rows, ns: string, pid: nat, req: Request)
    requires Agree(t, u, ns) && Within(ns, req.trail)
    ensures SameStep(ns, Advance(t, pid, req, Writing), Advance(u, pid, req, Writing))
  {
    NodeOwned(ns, req);
    assert Look(t, CreatedKey(req)) == Look(u, CreatedKey(req));
  }

  lemma CutStepAlike(t: Rows, u: Rows, ns: string, pid: nat, key: string)
    requires Agree(t, u, ns) && Owns(ns, key)
    ensures SameStep(ns, Interleaving.Cut(t, pid, key), Interleaving.Cut(u, pid, key))
  {
    assert Look(t, key) == Look(u, key);
  }

  /** A store call of a request within a namespace depends on the rows of that namespace only. */
  lemma AdvanceAlike(t: Rows, u: Rows, ns: string, pid: nat, req: Request, pc: Pc)
    requires Agree(t, u, ns) && Within(ns, req.trail)
    ensures SameStep(ns, Advance(t, pid, req, pc), Advance(u, pid, req, pc))
  {
    NodeOwned(ns, req);
    match pc {
      case ParentList => ParentStepsAlike(t, u, ns, pid, req);
      case NamespaceSpan => ParentStepsAlike(t, u, ns, pid, req);
      case Writing => WriteStepAlike(t, u, ns, pid, req);
      case Listing => ListAlike(t, u, ns, Node(req));
      case Fetching => assert Look(t, Node(req)) == Look(u, Node(req));
      case Cutting => CutStepAlike(t, u, ns, pid, Node(req));
      case DestroyList => ListAlike(t, u, ns, Node(req));
      case DestroyCut => CutStepAlike(t, u, ns, pid, RStrip(Node(req)));
      case Done(_) =>
    }
  }

  /** A store call of a request rooted in another namespace leaves these rows alone. */
  lemma AdvanceSpares(t: Rows, ns: string, mine: string, pid: nat, req: Request, pc: Pc)
    requires Rooted(ns, req.trail) && Named(mine) && mine != ns
    ensures Agree(Advance(t, pid, req, pc).table, t, mine)
  {
    KeySpared(ns, mine, req.trail);
    KeySpared(ns, mine, [ns, ""]);
    assert NodeTrail(req) != [] ==> NodeTrail(req)[0] == ns;
  }

  // ---------------------------------------------------------------- the system

  /** Where the server takes a call: refused by the pipeline, or about to make its first store call. */
  ghost function Start(base: string, unquote: string -> string, call: Call): Pc {
    if !Admitted(base, call) then Done(Status(403))
    else if !Routing.Selected({MountOf(base)}, Routing.Chain(call.path, unquote), MountOf(base)) then Done(Status(404))
    else Begin(Handed(base, unquote, call))
  }

  /** A process that runs alone gives the answer, and leaves the table, of the call served at once. */
  lemma AloneServes(base: string, unquote: string -> string, t: Rows, pid: nat, call: Call)
    ensures Complete(t, pid, Handed(base, unquote, call), Start(base, unquote, call)) == Serve(base, unquote, t, call)
  {
    AloneIsSequential(t, pid, Handed(base, unquote, call));
  }

  ghost function Launched(base: string, unquote: string -> string, call: Call): Process {
    Process(Handed(base, unquote, call), Start(base, unquote, call))
  }

  ghost function Launch(base: string, unquote: string -> string, t: Rows, calls: map<nat, Call>): System {
    System(t, map pid | pid in calls :: Launched(base, unquote, calls[pid]), [])
  }

  function Lacking(calls: map<nat, Call>, gone: string): map<nat, Call> {
    map pid | pid in calls && calls[pid].user != gone :: calls[pid]
  }

  /** As `ProperRun`, for processes. */
  predicate ProperCalls(unquote: string -> string, calls: map<nat, Call>, who: string) {
    forall pid :: pid in calls ==>
      if calls[pid].user == who then Proper(unquote, calls[pid])
      else ProperUser(unquote, calls[pid].user) && unquote(calls[pid].user) != unquote(who)
  }

  /** A process still runs the request it was launched with, and is over if that was refused. */
  ghost predicate Runs(base: string, unquote: string -> string, calls: map<nat, Call>, s: System) {
    s.procs.Keys == calls.Keys
    && forall pid :: pid in calls ==>
         s.procs[pid].req == Handed(base, unquote, calls[pid])
         && (!Admitted(base, calls[pid]) ==> s.procs[pid].pc.Done?)
  }

  /** The system and the one without `gone` look the same to `who`. */
  ghost predicate Indistinct(calls: map<nat, Call>, ns: string, who: string, s: System, u: System) {
    Agree(s.table, u.table, ns)
    && forall pid :: pid in calls && calls[pid].user == who ==>
         pid in s.procs && pid in u.procs && s.procs[pid].pc == u.procs[pid].pc
  }

  lemma LaunchRuns(base: string, unquote: string -> string, t: Rows, calls: map<nat, Call>)
    ensures Runs(base, unquote, calls, Launch(base, unquote, t, calls))
    ensures Launch(base, unquote, t, calls).table == t
    ensures forall pid :: pid in calls ==>
              Launch(base, unquote, t, calls).procs[pid] == Launched(base, unquote, calls[pid])
  {
    var s := Launch(base, unquote, t, calls);
    forall pid | pid in calls && !Admitted(base, calls[pid]) ensures s.procs[pid].pc.Done? {
      assert s.procs[pid] == Launched(base, unquote, calls[pid]);
    }
  }

  /** A process that is done, or whose turn it is not, stays as it is; requests never change. */
  lemma TickOne(s: System, pid: nat, q: nat)
    ensures Tick(s, pid).procs.Keys == s.procs.Keys
    ensures q in s.procs ==> q in Tick(s, pid).procs && Tick(s, pid).procs[q].req == s.procs[q].req
    ensures q in s.procs && (q != pid || s.procs[q].pc.Done?) ==> Tick(s, pid).procs[q] == s.procs[q]
  {
  }

  lemma TickRuns(base: string, unquote: string -> string, calls: map<nat, Call>, s: System, pid: nat)
    requires Runs(base, unquote, calls, s)
    ensures Runs(base, unquote, calls, Tick(s, pid))
  {
    forall q | q in calls
      ensures q in Tick(s, pid).procs && Tick(s, pid).procs[q].req == Handed(base, unquote, calls[q])
      ensures !Admitted(base, calls[q]) ==> Tick(s, pid).procs[q].pc.Done?
    {
      TickOne(s, pid, q);
    }
    TickOne(s, pid, pid);
  }

  lemma OthersTick(base: string, unquote: string -> string, calls: map<nat, Call>, s: System, pid: nat, mine: string)
    requires Site(base, unquote) && Runs(base, unquote, calls, s) && Named(mine)
    requires pid in calls ==> ProperUser(unquote, calls[pid].user) && unquote(calls[pid].user) != mine
    ensures Agree(Tick(s, pid).table, s.table, mine)
  {
    if pid in calls {
      var p := s.procs[pid];
      if Admitted(base, calls[pid]) {
        HandedRooted(base, unquote, calls[pid]);
        AdvanceSpares(s.table, unquote(calls[pid].user), mine, pid, p.req, p.pc);
      }
    }
  }

  lemma OwnTick(base: string, unquote: string -> string, call: Call, s: System, u: System, pid: nat)
    requires Site(base, unquote) && Proper(unquote, call) && Agree(s.table, u.table, unquote(call.user))
    requires pid in s.procs && pid in u.procs && s.procs[pid] == u.procs[pid]
    requires s.procs[pid].req == Handed(base, unquote, call)
    requires !Admitted(base, call) ==> s.procs[pid].pc.Done?
    ensures Agree(Tick(s, pid).table, Tick(u, pid).table, unquote(call.user))
    ensures Tick(s, pid).procs[pid].pc == Tick(u, pid).procs[pid].pc
  {
    var p := s.procs[pid];
    if Admitted(base, call) {
      HandedRooted(base, unquote, call);
      AdvanceAlike(s.table, u.table, unquote(call.user), pid, p.req, p.pc);
    }
  }

  lemma TickIndistinct(base: string, unquote: string -> string, calls: map<nat, Call>, s: System, u: System,
                       pid: nat, gone: string, who: string)
    requires Site(base, unquote) && ProperCalls(unquote, calls, who) && gone != who && Named(unquote(who))
    requires Runs(base, unquote, calls, s) && Runs(base, unquote, Lacking(calls, gone), u)
    requires Indistinct(calls, unquote(who), who, s, u)
    ensures Indistinct(calls, unquote(who), who, Tick(s, pid), Tick(u, pid))
  {
    var mine, less := unquote(who), Lacking(calls, gone);
    forall q | q in calls && calls[q].user == who && q != pid
      ensures q in Tick(s, pid).procs && q in Tick(u, pid).procs && Tick(s, pid).procs[q].pc == Tick(u, pid).procs[q].pc
    {
      TickOne(s, pid, q);
      TickOne(u, pid, q);
    }
    TickOne(s, pid, pid);
    TickOne(u, pid, pid);
    if pid in calls && calls[pid].user == who {
      assert less[pid] == calls[pid];
      OwnTick(base, unquote, calls[pid], s, u, pid);
    } else {
      OthersTick(base, unquote, calls, s, pid, mine);
      OthersTick(base, unquote, less, u, pid, mine);
      AgreeThrough(Tick(s, pid).table, s.table, u.table, Tick(u, pid).table, mine);
    }
  }

  lemma {:induction false} RunIndistinct(base: string, unquote: string -> string, calls: map<nat, Call>,
                                         s: System, u: System, schedule: seq<nat>, gone: string, who: string)
    requires Site(base, unquote) && ProperCalls(unquote, calls, who) && gone != who && Named(unquote(who))
    requires Runs(base, unquote, calls, s) && Runs(base, unquote, Lacking(calls, gone), u)
    requires Indistinct(calls, unquote(who), who, s, u)
    ensures Indistinct(calls, unquote(who), who, Run(s, schedule), Run(u, schedule))
    decreases schedule
  {
    if schedule != [] {
      var pid := schedule[0];
      TickRuns(base, unquote, calls, s, pid);
      TickRuns(base, unquote, Lacking(calls, gone), u, pid);
      TickIndistinct(base, unquote, calls, s, u, pid, gone, who);
      RunIndistinct(base, unquote, calls, Tick(s, pid), Tick(u, pid), schedule[1..], gone, who);
    }
  }

  /** From any table and under any schedule, taking every process of `gone` out of the system
      leaves each process of `who` at the same step, with the same answer once it is done. */
  lemma Isolation(base: string, unquote: string -> string, t: Rows, calls: map<nat, Call>, schedule: seq<nat>,
                  gone: string, who: string, pid: nat)
    requires Site(base, unquote) && ProperCalls(unquote, calls, who) && gone != who
    requires pid in calls && calls[pid].user == who
    ensures var all := Run(Launch(base, unquote, t, calls), schedule);
            var rest := Run(Launch(base, unquote, t, Lacking(calls, gone)), schedule);
            pid in all.procs && pid in rest.procs && all.procs[pid].pc == rest.procs[pid].pc
  {
    var less := Lacking(calls, gone);
    LaunchRuns(base, unquote, t, calls);
    LaunchRuns(base, unquote, t, less);
    RunIndistinct(base, unquote, calls, Launch(base, unquote, t, calls), Launch(base, unquote, t, less),
                  schedule, gone, who);
  }
}
