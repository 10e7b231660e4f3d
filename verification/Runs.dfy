/** What holds over every sequential run of requests on clean trails. */
module Runs {
  import opened Text
  import opened Sqlite
  import opened Secrets
  import opened Tree
  import Answers
  import Base64
  import Headers
  import Interleaving

  ghost predicate CleanRun(reqs: seq<Request>) {
    forall i :: 0 <= i < |reqs| ==> CleanTrail(reqs[i].trail)
  }

  ghost function After(t: Rows, reqs: seq<Request>): Rows
    decreases reqs
  {
    if reqs == [] then t else After(Handle(t, reqs[0]).table, reqs[1..])
  }

  // ---------------------------------------------------------------- failed requests

  /** A creation in the caller's missing namespace whose own row cannot be written: it is there
      already, or it is the namespace's own, or its key ends in a slash. */
  ghost predicate LeavesNamespace(t: Rows, req: Request) {
    && Interleaving.Begin(req).ParentList?
    && CreatesNamespace(req.defaultNs, Interleaving.NodeTrail(req))
    && ListOf(t, ParentKey(Interleaving.NodeTrail(req))).None?
    && (Interleaving.CreatedKey(req) in t
        || Interleaving.CreatedKey(req) == Interleaving.OwnNamespace(req)
        || !Interleaving.Storable(req))
  }

  /** On all trails, a request that answers neither 201 nor 204 has changed the table exactly if it
      created the caller's namespace and then could not write its own row. */
  lemma RefusalChangesExactly(t: Rows, req: Request)
    requires Handle(t, req).answer.code != 201 && Handle(t, req).answer.code != 204
    ensures Handle(t, req).table != t <==> LeavesNamespace(t, req)
    ensures LeavesNamespace(t, req) ==>
              && Interleaving.OwnNamespace(req) !in t
              && Handle(t, req).table == t[Interleaving.OwnNamespace(req) := Blank]
  {
    match req.command {
      case GET =>
      case PUT => if OnKey(req) && req.client.Some? { PutRefused(t, req); }
      case POST => if Slashed(req.trail) { PostRefused(t, req); }
      case DELETE => DeleteRefused(t, req);
    }
  }

  lemma OwnNamespaceMissing(t: Rows, req: Request)
    requires CreatesNamespace(req.defaultNs, Interleaving.NodeTrail(req))
    requires ListOf(t, ParentKey(Interleaving.NodeTrail(req))).None?
    ensures Interleaving.OwnNamespace(req) !in t
    ensures ParentExists(t, req.defaultNs, Interleaving.NodeTrail(req)) ==
            Parent(t[Interleaving.OwnNamespace(req) := Blank], Present)
  {
    var trail := Interleaving.NodeTrail(req);
    assert trail[..1] + [""] == [trail[0], ""];
  }

  lemma PutRefused(t: Rows, req: Request)
    requires OnKey(req) && req.command == PUT && req.client.Some? && SetKey(t, req).answer.code != 201
    ensures SetKey(t, req).table != t <==> LeavesNamespace(t, req)
    ensures LeavesNamespace(t, req) ==>
              && Interleaving.OwnNamespace(req) !in t
              && SetKey(t, req).table == t[Interleaving.OwnNamespace(req) := Blank]
  {
    if Interleaving.Begin(req).ParentList? && CreatesNamespace(req.defaultNs, req.trail)
       && ListOf(t, ParentKey(req.trail)).None? {
      OwnNamespaceMissing(t, req);
    }
  }

  lemma PostRefused(t: Rows, req: Request)
    requires Slashed(req.trail) && req.command == POST && Create(t, req).answer.code != 201
    ensures Create(t, req).table != t <==> LeavesNamespace(t, req)
    ensures LeavesNamespace(t, req) ==>
              && Interleaving.OwnNamespace(req) !in t
              && Create(t, req).table == t[Interleaving.OwnNamespace(req) := Blank]
  {
    if Interleaving.Begin(req).ParentList? && CreatesNamespace(req.defaultNs, Interleaving.NodeTrail(req))
       && ListOf(t, ParentKey(Interleaving.NodeTrail(req))).None? {
      OwnNamespaceMissing(t, req);
    }
  }

  lemma DeleteRefused(t: Rows, req: Request)
    requires req.command == DELETE && Handle(t, req).answer.code != 204
    ensures Handle(t, req).table == t
  {
    var key := PosixJoin("keys", req.trail);
    assert key !in t ==> t - {key} == t;
    assert RStrip(key) !in t ==> t - {RStrip(key)} == t;
  }

  lemma NodeClean(req: Request)
    requires CleanTrail(req.trail) && Interleaving.Begin(req).ParentList?
    ensures CleanNames(Interleaving.NodeTrail(req)) && |Interleaving.NodeTrail(req)| >= 2
    ensures Interleaving.CreatedKey(req) == KeyOf(Interleaving.NodeTrail(req)) && Interleaving.Storable(req)
  {
    TrailKey(req.trail);
    TargetClean(req.trail);
    KeyOfBare(Target(req.trail));
  }

  lemma CleanLeavesNothing(t: Rows, req: Request)
    requires CleanTrail(req.trail)
    ensures !LeavesNamespace(t, req)
  {
    if Interleaving.Begin(req).ParentList? {
      var cs := Interleaving.NodeTrail(req);
      NodeClean(req);
      ParentEffect(t, req.defaultNs, cs);
      ParentTrailKey(cs);
      OccupiedListed(t, cs[..|cs| - 1], ParentKey(cs));
      assert |cs| == 2 ==> cs[..1] == [cs[0]];
    }
  }

  /** On a clean trail a request that does not answer 2xx has changed nothing, and neither has a
      POST that answers 200: when the default namespace had to be created first, the second insert
      cannot collide. */
  lemma FailureChangesNothing(t: Rows, req: Request)
    requires CleanTrail(req.trail)
    ensures !Success(Handle(t, req).answer) ==> Handle(t, req).table == t
    ensures Handle(t, req).answer.code == 200 ==> Handle(t, req).table == t
  {
    if Handle(t, req).answer.code != 201 && Handle(t, req).answer.code != 204 {
      RefusalChangesExactly(t, req);
      CleanLeavesNothing(t, req);
    }
  }

  // ---------------------------------------------------------------- parent closure

  function ParentRow(key: string): string
    requires IsNode(key)
  {
    KeyOf(Comps(key)[..|Comps(key)| - 1])
  }

  /** Every row is a tree node, and every row at depth two or more has its parent's row. */
  ghost predicate ParentClosed(t: Rows) {
    forall k :: k in t ==> IsNode(k) && (|Comps(k)| >= 2 ==> ParentRow(k) in t)
  }

  lemma {:induction false} AncestorsPresent(t: Rows, cs: seq<string>, p: seq<string>)
    requires ParentClosed(t) && CleanNames(cs) && KeyOf(cs) in t
    requires p <= cs && p != []
    ensures KeyOf(p) in t
    decreases |cs|
  {
    if p != cs {
      KeyOfComps(cs);
      var parent := cs[..|cs| - 1];
      assert ParentRow(KeyOf(cs)) == KeyOf(parent);
      assert p == cs[..|p|] == parent[..|p|];
      AncestorsPresent(t, parent, p);
    }
  }

  lemma OccupiedIffPresent(t: Rows, cs: seq<string>)
    requires ParentClosed(t) && CleanNames(cs)
    ensures Occupied(t, cs) <==> KeyOf(cs) in t
  {
    if KeyOf(cs) in t {
      assert At(KeyOf(cs), KeyOf(cs));
    }
    if Occupied(t, cs) {
      var k :| k in t && (At(KeyOf(cs), k) || StrictlyBelow(KeyOf(cs), k));
      CompsKeyOf(k);
      KeyOfBelow(cs, Comps(k));
      AncestorsPresent(t, Comps(k), cs);
    }
  }

  lemma AddKeepsClosed(t: Rows, cs: seq<string>, cell: Cell<string>)
    requires ParentClosed(t) && CleanNames(cs)
    requires |cs| >= 2 ==> KeyOf(cs[..|cs| - 1]) in t
    ensures ParentClosed(t[KeyOf(cs) := cell])
  {
    KeyOfComps(cs);
  }

  /** Removing a row keeps the tree closed exactly when nothing is below it. */
  lemma RemoveKeepsClosed(t: Rows, cs: seq<string>)
    requires ParentClosed(t) && CleanNames(cs) && KeyOf(cs) in t
    ensures ParentClosed(t - {KeyOf(cs)}) <==> Below(t, KeyOf(cs)) == {}
  {
    var key := KeyOf(cs);
    var t' := t - {key};
    KeyOfComps(cs);
    if Below(t, key) == {} {
      forall k | k in t' && |Comps(k)| >= 2 ensures ParentRow(k) in t' {
        assert k !in Below(t, key);
        if ParentRow(k) == key {
          ParentIsAbove(k, cs);
        }
      }
    } else {
      var k :| k in Below(t, key);
      var c := Comps(k);
      CompsKeyOf(k);
      KeyOfBelow(cs, c);
      var child := c[..|cs| + 1];
      AncestorsPresent(t, c, child);
      KeyOfComps(child);
      assert child[..|cs|] == cs;
      assert KeyOf(child) in t' && ParentRow(KeyOf(child)) == key;
    }
  }

  lemma ParentIsAbove(k: string, cs: seq<string>)
    requires IsNode(k) && |Comps(k)| >= 2 && CleanNames(cs) && ParentRow(k) == KeyOf(cs)
    ensures StrictlyBelow(KeyOf(cs), k)
  {
    var c := Comps(k);
    KeyOfComps(c[..|c| - 1]);
    KeyOfComps(cs);
    CompsKeyOf(k);
    KeyOfBelow(cs, c);
  }

  /** A slashless DELETE that will remove a row from above others. */
  ghost predicate Orphaning(t: Rows, req: Request) {
    req.command == DELETE && OnKey(req) && |req.trail| >= 2 && req.client.Some? && MaybeBodyOk(req)
    && Below(t, KeyOf(req.trail)) != {}
  }

  lemma AddBelowKeepsClosed(t: Rows, cs: seq<string>, cell: Cell<string>)
    requires ParentClosed(t) && CleanNames(cs) && (|cs| >= 2 ==> Occupied(t, cs[..|cs| - 1]))
    ensures ParentClosed(t[KeyOf(cs) := cell])
  {
    if |cs| >= 2 { OccupiedIffPresent(t, cs[..|cs| - 1]); }
    AddKeepsClosed(t, cs, cell);
  }

  lemma AddTwoKeepClosed(t: Rows, ns: string, name: string, cell: Cell<string>)
    requires ParentClosed(t) && CleanNames([ns, name])
    ensures ParentClosed(t[KeyOf([ns]) := Blank][KeyOf([ns, name]) := cell])
  {
    assert CleanNames([ns]) by { assert [ns, name][0] == ns; }
    AddKeepsClosed(t, [ns], Blank);
    assert [ns, name][..1] == [ns];
    AddKeepsClosed(t[KeyOf([ns]) := Blank], [ns, name], cell);
  }

  lemma ParentClosureEffect(t: Rows, e: Effect)
    requires ParentClosed(t) && Enabled(t, e)
    ensures ParentClosed(Apply(t, e)) <==> !(e.Removed? && Below(t, KeyOf(e.node)) != {})
  {
    match e {
      case Same => assert Apply(t, e) == t;
      case Added(cs, cell) =>
        assert Apply(t, e) == t[KeyOf(cs) := cell];
        AddBelowKeepsClosed(t, cs, cell);
      case AddedWithNamespace(ns, name, cell) =>
        assert Apply(t, e) == t[KeyOf([ns]) := Blank][KeyOf([ns, name]) := cell];
        AddTwoKeepClosed(t, ns, name, cell);
      case Removed(cs) =>
        assert Apply(t, e) == t - {KeyOf(cs)};
        RemoveKeepsClosed(t, cs);
    }
  }

  /** Every other request keeps the tree closed; this one always breaks it. */
  lemma ParentClosureStep(t: Rows, req: Request)
    requires ParentClosed(t) && CleanTrail(req.trail)
    ensures ParentClosed(Handle(t, req).table) <==> !Orphaning(t, req)
  {
    var e := HandleEffect(t, req);
    ParentClosureEffect(t, e);
    if Orphaning(t, req) {
      OrphaningRemoves(t, req);
    }
  }

  lemma OrphaningRemoves(t: Rows, req: Request)
    requires ParentClosed(t) && CleanTrail(req.trail) && Orphaning(t, req)
    ensures Handle(t, req).answer.code == 204
  {
    TargetClean(req.trail);
    var k :| k in Below(t, KeyOf(req.trail));
    assert Occupied(t, req.trail) by { assert k in t; }
    OccupiedIffPresent(t, req.trail);
    TrailKey(req.trail);
  }

  /** No request of the run is, when its turn comes, an orphaning one. */
  ghost predicate Gentle(t: Rows, reqs: seq<Request>)
    decreases reqs
  {
    reqs == [] || (!Orphaning(t, reqs[0]) && Gentle(Handle(t, reqs[0]).table, reqs[1..]))
  }

  lemma {:induction false} ParentClosureFrom(t: Rows, reqs: seq<Request>)
    requires ParentClosed(t) && CleanRun(reqs) && Gentle(t, reqs)
    ensures ParentClosed(After(t, reqs))
    decreases reqs
  {
    if reqs != [] {
      ParentClosureStep(t, reqs[0]);
      ParentClosureFrom(Handle(t, reqs[0]).table, reqs[1..]);
    }
  }

  /** From the empty table, every gentle run keeps each row's parent. */
  lemma ParentClosure(reqs: seq<Request>)
    requires CleanRun(reqs) && Gentle(map[], reqs)
    ensures ParentClosed(After(map[], reqs))
  {
    ParentClosureFrom(map[], reqs);
  }

  /** A container DELETE that answers 204 removed exactly one row, and nothing was below it. */
  lemma DestroyRemovesOneLeaf(t: Rows, req: Request)
    requires CleanTrail(req.trail) && req.command == DELETE && Slashed(req.trail)
    requires Handle(t, req).answer.code == 204
    ensures var key := KeyOf(Target(req.trail));
            key in t && Handle(t, req).table == t - {key} && Below(t, key) == {}
  {
    var e := HandleEffect(t, req);
  }

  // ---------------------------------------------------------------- the audit log

  ghost function LogAfter(t: Rows, log: seq<Record>, reqs: seq<Request>): seq<Record>
    decreases reqs
  {
    if reqs == [] then log
    else var o := Handle(t, reqs[0]); LogAfter(o.table, log + o.records, reqs[1..])
  }

  /** A key request with a known client leaves one record, ALLOWED exactly when it succeeded; a
      request that is not on a key leaves none. */
  lemma OneRecordPerKeyRequest(t: Rows, req: Request)
    requires CleanTrail(req.trail) && req.client.Some?
    ensures var o := Handle(t, req);
            o.records ==
            if !Answers.NamesKey(req.trail) || req.command == POST then []
            else [Record(match req.command
                         case GET => if o.answer.code == 200 then GetAllowed else GetDenied
                         case PUT => if o.answer.code == 201 then SetAllowed else SetDenied
                         case DELETE => if o.answer.code == 204 then DelAllowed else DelDenied,
                         req.client.value, SlashJoin(req.trail))]
  {
    if OnKey(req) {
      TargetClean(req.trail);
      KeyOfBare(req.trail);
    }
  }

  /** Record i allowed storing `key`, and no later record allowed deleting it. */
  predicate Explains(log: seq<Record>, i: nat, key: string) {
    i < |log| && log[i].action == SetAllowed && key == "keys/" + log[i].key
    && forall j :: i < j < |log| ==> !(log[j].action == DelAllowed && log[j].key == log[i].key)
  }

  ghost predicate Explained(t: Rows, log: seq<Record>) {
    forall k :: k in t && t[k].Held? ==> exists i: nat :: Explains(log, i, k)
  }

  /** More records keep an explanation, unless one of them allowed deleting the key. */
  lemma ExplainsLater(log: seq<Record>, more: seq<Record>, i: nat, key: string)
    requires Explains(log, i, key)
    requires forall j :: 0 <= j < |more| ==> !(more[j].action == DelAllowed && key == "keys/" + more[j].key)
    ensures Explains(log + more, i, key)
  {
    forall j | i < j < |log + more|
      ensures !((log + more)[j].action == DelAllowed && (log + more)[j].key == (log + more)[i].key)
    {
      if j >= |log| { assert (log + more)[j] == more[j - |log|]; }
    }
  }

  lemma AuditStep(t: Rows, log: seq<Record>, req: Request)
    requires CleanTrail(req.trail) && Explained(t, log)
    ensures Explained(Handle(t, req).table, log + Handle(t, req).records)
  {
    var e := HandleEffect(t, req);
    var o := Handle(t, req);
    if req.client.Some? { OneRecordPerKeyRequest(t, req); }
    forall k | k in o.table && o.table[k].Held? ensures exists i: nat :: Explains(log + o.records, i, k) {
      if k in t && t[k] == o.table[k] {
        var i: nat :| Explains(log, i, k);
        SurvivorNotDeleted(t, req, e, k);
        ExplainsLater(log, o.records, i, k);
      } else {
        assert (e.Added? || e.AddedWithNamespace?) && k == KeyOf(req.trail) && OnKey(req) && req.command == PUT;
        assert Explains(log + o.records, |log|, k);
      }
    }
  }

  /** A row that is still there was not the one an allowed DELETE record names. */
  lemma SurvivorNotDeleted(t: Rows, req: Request, e: Effect, k: string)
    requires CleanTrail(req.trail) && Handle(t, req).table == Apply(t, e) && k in Handle(t, req).table
    requires Announced(t, req, Handle(t, req).answer.code, e)
    ensures forall j :: 0 <= j < |Handle(t, req).records| ==>
              !(Handle(t, req).records[j].action == DelAllowed && k == "keys/" + Handle(t, req).records[j].key)
  {
    if req.client.Some? { OneRecordPerKeyRequest(t, req); }
    var o := Handle(t, req);
    if OnKey(req) && req.command == DELETE && Success(o.answer) {
      assert o.answer.code == 204 && e == Removed(req.trail);
    }
  }

  lemma {:induction false} AuditFrom(t: Rows, log: seq<Record>, reqs: seq<Request>)
    requires CleanRun(reqs) && Explained(t, log)
    ensures Explained(After(t, reqs), LogAfter(t, log, reqs))
    decreases reqs
  {
    if reqs != [] {
      var o := Handle(t, reqs[0]);
      AuditStep(t, log, reqs[0]);
      AuditFrom(o.table, log + o.records, reqs[1..]);
    }
  }

  /** After any run from the empty table, every secret present was stored by an allowed request
      that no later allowed deletion of the same key has overtaken. */
  lemma AuditExplainsStore(reqs: seq<Request>)
    requires CleanRun(reqs)
    ensures Explained(After(map[], reqs), LogAfter(map[], [], reqs))
  {
    AuditFrom(map[], [], reqs);
  }

  // ---------------------------------------------------------------- what the audit log leaves out

  /** The request removed the node; with a trailing slash it did so without an audit record. */
  ghost predicate CutsNode(t: Rows, req: Request, cs: seq<string>) {
    req.command == DELETE && Target(req.trail) == cs && Handle(t, req).answer.code == 204
  }

  /** The latest change of the row of `cs` was its removal by a DELETE with a trailing slash. */
  ghost predicate GoneSilently(t: Rows, req: Request, cs: seq<string>, before: bool) {
    if CutsNode(t, req, cs) then Slashed(req.trail)
    else before && (KeyOf(cs) in t || KeyOf(cs) !in Handle(t, req).table)
  }

  ghost predicate GoneSilentlyAfter(t: Rows, reqs: seq<Request>, cs: seq<string>, before: bool)
    decreases reqs
  {
    if reqs == [] then before
    else GoneSilentlyAfter(Handle(t, reqs[0]).table, reqs[1..], cs, GoneSilently(t, reqs[0], cs, before))
  }

  /** A row that some allowed PUT explains is there unless it went silently. */
  ghost predicate Trusted(t: Rows, log: seq<Record>, cs: seq<string>, silent: bool) {
    && (silent ==> KeyOf(cs) !in t)
    && forall i: nat :: Explains(log, i, KeyOf(cs)) ==> (KeyOf(cs) in t <==> !silent)
  }

  lemma CutNodeGone(t: Rows, req: Request, cs: seq<string>)
    requires CleanTrail(req.trail) && CleanNames(cs) && CutsNode(t, req, cs)
    ensures KeyOf(cs) !in Handle(t, req).table
  {
    var e := HandleEffect(t, req);
  }

  /** Only the removal of its own node takes a row away. */
  lemma RowKept(t: Rows, req: Request, cs: seq<string>)
    requires CleanTrail(req.trail) && CleanNames(cs) && KeyOf(cs) in t && !CutsNode(t, req, cs)
    ensures KeyOf(cs) in Handle(t, req).table
  {
    var e := HandleEffect(t, req);
    if e.Removed? {
      KeyOfComps(e.node);
      KeyOfComps(cs);
    }
  }

  /** A removal without trailing slash leaves nothing unretracted. */
  lemma OpenCutRetracts(t: Rows, log: seq<Record>, req: Request, cs: seq<string>, i: nat)
    requires CleanTrail(req.trail) && CutsNode(t, req, cs) && !Slashed(req.trail) && cs != []
    ensures !Explains(log + Handle(t, req).records, i, KeyOf(cs))
  {
    if req.client.Some? { OneRecordPerKeyRequest(t, req); }
    var records, longer := Handle(t, req).records, log + Handle(t, req).records;
    assert longer[|log|] == records[0] && records[0].action == DelAllowed && records[0].key == SlashJoin(cs);
    if i < |longer| && KeyOf(cs) == "keys/" + longer[i].key {
      assert KeyOf(cs)[5..] == longer[i].key == SlashJoin(cs);
    }
  }

  /** A record of another request, or of a failed one, explains nothing new about a row unless
      the request created it. */
  lemma ExplainedBefore(t: Rows, log: seq<Record>, req: Request, cs: seq<string>, i: nat)
    requires CleanTrail(req.trail) && CleanNames(cs) && Explains(log + Handle(t, req).records, i, KeyOf(cs))
    requires KeyOf(cs) in t || KeyOf(cs) !in Handle(t, req).table
    ensures Explains(log, i, KeyOf(cs))
  {
    var records, longer := Handle(t, req).records, log + Handle(t, req).records;
    if req.client.Some? { OneRecordPerKeyRequest(t, req); }
    if i >= |log| {
      assert longer[i] == records[0] && records[0].action == SetAllowed;
      AllowedPutCreates(t, req);
    } else {
      assert longer[i] == log[i];
      forall j | i < j < |log| ensures !(log[j].action == DelAllowed && log[j].key == log[i].key) {
        assert longer[j] == log[j];
      }
    }
  }

  lemma AllowedPutCreates(t: Rows, req: Request)
    requires CleanTrail(req.trail) && OnKey(req) && req.command == PUT && Success(Handle(t, req).answer)
    ensures KeyOf(req.trail) !in t && KeyOf(req.trail) in Handle(t, req).table
  {
    var e := HandleEffect(t, req);
    if e.AddedWithNamespace? { NamespaceFresh(t, e.ns, e.name); }
  }

  lemma TrustedStep(t: Rows, log: seq<Record>, req: Request, cs: seq<string>, silent: bool)
    requires CleanTrail(req.trail) && CleanNames(cs) && Trusted(t, log, cs, silent)
    ensures Trusted(Handle(t, req).table, log + Handle(t, req).records, cs, GoneSilently(t, req, cs, silent))
  {
    var o, key := Handle(t, req), KeyOf(cs);
    if CutsNode(t, req, cs) {
      CutNodeGone(t, req, cs);
      if !Slashed(req.trail) {
        forall i: nat ensures !Explains(log + o.records, i, key) { OpenCutRetracts(t, log, req, cs, i); }
      }
    } else if key in t || key !in o.table {
      if key in t { RowKept(t, req, cs); }
      forall i: nat | Explains(log + o.records, i, key) ensures Explains(log, i, key) {
        ExplainedBefore(t, log, req, cs, i);
      }
    }
  }

  lemma {:induction false} TrustedFrom(t: Rows, log: seq<Record>, reqs: seq<Request>, cs: seq<string>, silent: bool)
    requires CleanRun(reqs) && CleanNames(cs) && Trusted(t, log, cs, silent)
    ensures Trusted(After(t, reqs), LogAfter(t, log, reqs), cs, GoneSilentlyAfter(t, reqs, cs, silent))
    decreases reqs
  {
    if reqs != [] {
      var o := Handle(t, reqs[0]);
      TrustedStep(t, log, reqs[0], cs, silent);
      TrustedFrom(o.table, log + o.records, reqs[1..], cs, GoneSilently(t, reqs[0], cs, silent));
    }
  }

  /** The converse of `AuditExplainsStore`, exactly: a row whose allowed PUT no later allowed DELETE
      has overtaken in the log is there, unless the last request to change it was a DELETE with a
      trailing slash, which leaves no record. */
  lemma StoreExplainsAudit(reqs: seq<Request>, cs: seq<string>, i: nat)
    requires CleanRun(reqs) && CleanNames(cs) && Explains(LogAfter(map[], [], reqs), i, KeyOf(cs))
    ensures KeyOf(cs) in After(map[], reqs) <==> !GoneSilentlyAfter(map[], reqs, cs, false)
  {
    TrustedFrom(map[], [], reqs, cs, false);
  }

  // ---------------------------------------------------------------- raw secrets

  /** A request that removes the row of `trail` if it succeeds. */
  predicate Deletes(req: Request, trail: seq<string>) {
    req.command == DELETE && Target(req.trail) == trail
  }

  /** A row survives, with its value, every request but a successful DELETE of its own trail. */
  lemma RowSurvives(t: Rows, req: Request, trail: seq<string>)
    requires CleanTrail(req.trail) && CleanNames(trail) && KeyOf(trail) in t
    requires !(Deletes(req, trail) && Success(Handle(t, req).answer))
    ensures Look(Handle(t, req).table, KeyOf(trail)) == Look(t, KeyOf(trail))
  {
    var e := HandleEffect(t, req);
    match e {
      case Same =>
      case Added(cs, _) =>
      case AddedWithNamespace(ns, name, _) =>
        NamespaceFresh(t, ns, name);
      case Removed(cs) =>
        KeyOfComps(cs);
        KeyOfComps(trail);
    }
  }

  lemma NamespaceFresh(t: Rows, ns: string, name: string)
    requires CleanNames([ns, name]) && !Occupied(t, [ns])
    ensures KeyOf([ns]) !in t && KeyOf([ns, name]) !in t
  {
    assert CleanNames([ns]) by { assert [ns, name][0] == ns; }
    KeyOfBelow([ns], [ns]);
    KeyOfBelow([ns], [ns, name]);
  }

  /** No request of the run deletes `trail` successfully. */
  ghost predicate NeverCut(t: Rows, reqs: seq<Request>, trail: seq<string>)
    decreases reqs
  {
    reqs == []
    || (!(Deletes(reqs[0], trail) && Success(Handle(t, reqs[0]).answer))
        && NeverCut(Handle(t, reqs[0]).table, reqs[1..], trail))
  }

  lemma {:induction false} RowSurvivesRun(t: Rows, reqs: seq<Request>, trail: seq<string>)
    requires CleanRun(reqs) && CleanNames(trail) && KeyOf(trail) in t && NeverCut(t, reqs, trail)
    ensures Look(After(t, reqs), KeyOf(trail)) == Look(t, KeyOf(trail))
    decreases reqs
  {
    if reqs != [] {
      RowSurvives(t, reqs[0], trail);
      RowSurvivesRun(Handle(t, reqs[0]).table, reqs[1..], trail);
    }
  }

  lemma ValueStored(t: Rows, put: Request, kind: string)
    requires CleanTrail(put.trail) && Answers.NamesKey(put.trail) && put.command == PUT
    requires Headers.ContentType(put.contentType, kind) && Handle(t, put).answer.code == 201
    ensures CleanNames(put.trail) && |put.trail| >= 2 && Answers.Stores(put, kind)
    ensures Look(Handle(t, put).table, KeyOf(put.trail)) == Some(Answers.StoredCell(put, kind))
  {
    Answers.PayloadExactly(put, kind);
    if put.client.Some? && |put.trail| >= 2 && Answers.Stores(put, kind) { Answers.PutAnswers(t, put, kind); }
    TargetClean(put.trail);
  }

  /** A GET of the key of an earlier PUT, with the row still there. */
  ghost predicate ReadsBack(put: Request, get: Request, types: seq<string>) {
    get.command == GET && get.trail == put.trail && get.client.Some? && get.message.Parsed?
    && Answers.Accepting(get, types)
  }

  lemma ValueSurvives(t: Rows, put: Request, kind: string, between: seq<Request>, get: Request, types: seq<string>)
    requires CleanTrail(put.trail) && Answers.NamesKey(put.trail) && put.command == PUT
    requires Headers.ContentType(put.contentType, kind) && Handle(t, put).answer.code == 201
    requires CleanRun(between) && NeverCut(Handle(t, put).table, between, put.trail)
    requires ReadsBack(put, get, types)
    ensures Answers.Stores(put, kind)
    ensures var cell, a := Answers.StoredCell(put, kind), Handle(After(Handle(t, put).table, between), get).answer;
            cell.Held? ==>
              if "application/octet-stream" in types && "application/json" !in types then
                a == if Base64.Decode(cell.value).Some? then Answer(200, Bytes(Base64.Decode(cell.value).value))
                     else Status(500)
              else a == Answer(200, Secret(cell.value))
  {
    var stored := Handle(t, put).table;
    ValueStored(t, put, kind);
    RowSurvivesRun(stored, between, put.trail);
    TrailKey(put.trail);
    Answers.GetAnswers(After(stored, between), get, types);
  }

  /** A nonempty body stored raw comes back byte for byte, whatever clean requests ran in
      between, as long as none of them deleted it. */
  lemma RawRoundTrip(t: Rows, put: Request, between: seq<Request>, get: Request, types: seq<string>)
    requires CleanTrail(put.trail) && Answers.NamesKey(put.trail) && put.command == PUT
    requires Headers.ContentType(put.contentType, "application/octet-stream")
    requires put.body.Some? && put.body.value != []
    requires Handle(t, put).answer.code == 201
    requires CleanRun(between) && NeverCut(Handle(t, put).table, between, put.trail)
    requires ReadsBack(put, get, types) && "application/octet-stream" in types && "application/json" !in types
    ensures Handle(After(Handle(t, put).table, between), get).answer == Answer(200, Bytes(put.body.value))
  {
    Base64.RoundTrip(put.body.value);
    ValueSurvives(t, put, "application/octet-stream", between, get, types);
  }

  /** So does a nonempty JSON value, character for character, read without asking for octets. */
  lemma JsonRoundTrip(t: Rows, put: Request, v: string, between: seq<Request>, get: Request, types: seq<string>)
    requires CleanTrail(put.trail) && Answers.NamesKey(put.trail) && put.command == PUT
    requires Headers.ContentType(put.contentType, "application/json")
    requires put.message == Parsed(Some(v)) && v != ""
    requires Handle(t, put).answer.code == 201
    requires CleanRun(between) && NeverCut(Handle(t, put).table, between, put.trail)
    requires ReadsBack(put, get, types) && ("application/octet-stream" !in types || "application/json" in types)
    ensures Handle(After(Handle(t, put).table, between), get).answer == Answer(200, Secret(v))
  {
    ValueSurvives(t, put, "application/json", between, get, types);
  }
}
