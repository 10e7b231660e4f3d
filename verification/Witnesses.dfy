/** Concrete inputs for the promises the code does not keep in general. */
module Witnesses {
  import opened Text
  import opened Sqlite
  import opened Secrets
  import opened Tree
  import Answers
  import Authorizers
  import Closure
  import opened Headers
  import Interleaving
  import NonInterference
  import Routing
  import Runs
  import Vault

  // ---------------------------------------------------------------- requests

  /** A JSON request by the user `ns`, carrying the value "v". */
  function Sent(ns: string, command: Command, trail: seq<string>): Request {
    Request(command, trail, Some(ns), Some(ns), JSON, None, Some([]), Parsed(Some("v")))
  }

  /** A media type without parameters and surrounding space is taken as it is. */
  lemma PlainKind(kind: string)
    requires ';' !in kind && kind != [] && !IsSpace(kind[0]) && !IsSpace(kind[|kind| - 1])
    ensures Strip(Split(kind, ';')[0]) == kind
  {
    SplitWhole(kind, ';');
  }

  lemma JsonStored(ns: string, trail: seq<string>)
    ensures PutPayload(Sent(ns, PUT, trail)) == Payload(Some("v"))
  {
    PlainKind(JSON);
  }

  lemma AddedOne(t: Rows, req: Request, cs: seq<string>)
    requires CleanTrail(req.trail) && Target(req.trail) == cs && CleanNames(cs) && Handle(t, req).answer.code == 201
    requires |cs| >= 2 ==> KeyOf(cs[..|cs| - 1]) in t
    ensures Handle(t, req).table == t[KeyOf(cs) := NewCell(req)]
  {
    var e := HandleEffect(t, req);
    var parent := cs[..|cs| - 1];
    assert At(KeyOf(parent), KeyOf(parent));
    assert |cs| == 2 ==> parent == [cs[0]];
  }

  /** POST of a container whose parent is there and whose row is not adds exactly that row. */
  lemma PostAdds(t: Rows, ns: string, cs: seq<string>)
    requires CleanNames(cs) && KeyOf(cs) !in t && (|cs| >= 2 ==> KeyOf(cs[..|cs| - 1]) in t)
    ensures Handle(t, Sent(ns, POST, cs + [""])).table == t[KeyOf(cs) := Blank]
  {
    var req := Sent(ns, POST, cs + [""]);
    assert Target(req.trail) == cs;
    if |cs| >= 2 { assert At(KeyOf(cs[..|cs| - 1]), KeyOf(cs[..|cs| - 1])); }
    Answers.PostAnswers(t, req);
    AddedOne(t, req, cs);
  }

  /** So does PUT of a key. */
  lemma PutAdds(t: Rows, ns: string, cs: seq<string>)
    requires CleanNames(cs) && KeyOf(cs) !in t && |cs| >= 2 && KeyOf(cs[..|cs| - 1]) in t
    ensures Handle(t, Sent(ns, PUT, cs)).table == t[KeyOf(cs) := Held("v")]
  {
    JsonStored(ns, cs);
    PutAddsValue(t, Sent(ns, PUT, cs), cs);
  }

  lemma PutAddsValue(t: Rows, req: Request, cs: seq<string>)
    requires CleanNames(cs) && KeyOf(cs) !in t && |cs| >= 2 && KeyOf(cs[..|cs| - 1]) in t
    requires req.command == PUT && req.trail == cs && req.client.Some? && PutPayload(req) == Payload(Some("v"))
    ensures Handle(t, req).table == t[KeyOf(cs) := Held("v")]
  {
    assert At(KeyOf(cs[..|cs| - 1]), KeyOf(cs[..|cs| - 1]));
    Answers.PutCodes(t, req);
    AddedOne(t, req, cs);
  }

  lemma AfterCons(t: Rows, log: seq<Record>, req: Request, rest: seq<Request>)
    ensures Runs.After(t, [req] + rest) == Runs.After(Handle(t, req).table, rest)
    ensures Runs.LogAfter(t, log, [req] + rest) ==
            Runs.LogAfter(Handle(t, req).table, log + Handle(t, req).records, rest)
  {
    assert ([req] + rest)[1..] == rest;
  }

  // ---------------------------------------------------------------- the broken promises

  /** POST a/, POST a/b/, PUT a/b/c, DELETE a/b: the secret a/b/c is left without its container. */
  lemma Orphan(a: string, b: string, c: string)
    requires CleanNames([a, b, c])
    ensures var t := Runs.After(map[], [Sent(a, POST, [a, ""])] + ([Sent(a, POST, [a, b, ""])]
                                       + ([Sent(a, PUT, [a, b, c])] + ([Sent(a, DELETE, [a, b])] + []))));
            KeyOf([a, b, c]) in t && KeyOf([a, b]) !in t && !Runs.ParentClosed(t)
  {
    OrphanKeys(a, b, c);
    var post, post' := Sent(a, POST, [a, ""]), Sent(a, POST, [a, b, ""]);
    var put, delete := Sent(a, PUT, [a, b, c]), Sent(a, DELETE, [a, b]);
    var t0: Rows := map[];
    var t1 := t0[KeyOf([a]) := Blank];
    var t2 := t1[KeyOf([a, b]) := Blank];
    var t3 := t2[KeyOf([a, b, c]) := Held("v")];
    PostAdds(t0, a, [a]);
    PostAdds(t1, a, [a, b]);
    PutAdds(t2, a, [a, b, c]);
    Removal(t3, a, [a, b]);
    AfterCons(t3, [], delete, []);
    AfterCons(t2, [], put, [delete] + []);
    AfterCons(t1, [], post', [put] + ([delete] + []));
    AfterCons(t0, [], post, [post'] + ([put] + ([delete] + [])));
    NotClosed(t3 - {KeyOf([a, b])}, [a, b, c]);
  }

  lemma OrphanKeys(a: string, b: string, c: string)
    requires CleanNames([a, b, c])
    ensures CleanNames([a]) && CleanNames([a, b])
    ensures KeyOf([a]) != KeyOf([a, b]) && KeyOf([a, b]) != KeyOf([a, b, c]) && KeyOf([a]) != KeyOf([a, b, c])
    ensures [a, b][..1] == [a] && [a, b, c][..2] == [a, b]
    ensures [a] + [""] == [a, ""] && [a, b] + [""] == [a, b, ""]
  {
    assert forall i :: 0 <= i < 2 ==> [a, b][i] == [a, b, c][i];
    assert [a, b, c][0] == a;
    KeyOfComps([a]);
    KeyOfComps([a, b]);
    KeyOfComps([a, b, c]);
  }

  lemma Removal(t: Rows, ns: string, cs: seq<string>)
    requires CleanNames(cs) && |cs| >= 2 && KeyOf(cs) in t
    ensures Handle(t, Sent(ns, DELETE, cs)).table == t - {KeyOf(cs)}
  {
    Answers.DeleteAnswers(t, Sent(ns, DELETE, cs));
    var e := HandleEffect(t, Sent(ns, DELETE, cs));
  }

  lemma NotClosed(t: Rows, cs: seq<string>)
    requires CleanNames(cs) && |cs| >= 2 && KeyOf(cs) in t && KeyOf(cs[..|cs| - 1]) !in t
    ensures !Runs.ParentClosed(t)
  {
    KeyOfComps(cs);
    assert Runs.ParentRow(KeyOf(cs)) == KeyOf(cs[..|cs| - 1]);
  }

  /** The four processes of the race below. */
  function Racers(a: string, b: string, c: string): map<nat, Interleaving.Process> {
    map[0 := Interleaving.Process(Sent(a, POST, [a, ""]), Interleaving.Writing),
        1 := Interleaving.Process(Sent(a, POST, [a, b, ""]), Interleaving.ParentList),
        2 := Interleaving.Process(Sent(a, PUT, [a, b, c]), Interleaving.ParentList),
        3 := Interleaving.Process(Sent(a, DELETE, [a, b, ""]), Interleaving.DestroyList)]
  }

  /** POST a/, POST a/b/, then PUT a/b/c finds its parent, DELETE a/b/ finds it empty and removes
      it, and the PUT writes: no slashless DELETE, and the secret is left without its container. */
  lemma RacedOrphan(a: string, b: string, c: string)
    requires CleanNames([a, b, c])
    ensures var s := Interleaving.System(map[], Racers(a, b, c), []);
            var e := Interleaving.Run(s, [0] + ([1] + ([1] + ([2] + ([3] + ([3] + ([2] + [])))))));
            && Interleaving.Initial(s) && 2 in e.procs && 3 in e.procs
            && e.procs[2].pc == Interleaving.Done(Status(201)) && e.procs[3].pc == Interleaving.Done(Status(204))
            && KeyOf([a, b, c]) in e.table && KeyOf([a, b]) !in e.table
  {
    var s := Interleaving.System(map[], Racers(a, b, c), []);
    RacersBegin(a, b, c);
    RacersStart(a, b, c);
    var s1 := Interleaving.Tick(s, 0);
    var s2 := Interleaving.Tick(s1, 1);
    var rest := [2] + ([3] + ([3] + ([2] + [])));
    Interleaving.RunCons(s2, 1, rest);
    Interleaving.RunCons(s1, 1, [1] + rest);
    Interleaving.RunCons(s, 0, [1] + ([1] + rest));
    RacersEnd(Interleaving.Tick(s2, 1), a, b, c);
  }

  lemma RacersBegin(a: string, b: string, c: string)
    requires CleanNames([a, b, c])
    ensures Interleaving.Initial(Interleaving.System(map[], Racers(a, b, c), []))
  {
    RacersTargets(a, b, c);
    BeginJson(a, [a, b, c]);
    BeginSlashed(Sent(a, POST, [a, ""]));
    BeginSlashed(Sent(a, POST, [a, b, ""]));
    BeginSlashed(Sent(a, DELETE, [a, b, ""]));
    AllBegin(Sent(a, POST, [a, ""]), Sent(a, POST, [a, b, ""]), Sent(a, PUT, [a, b, c]), Sent(a, DELETE, [a, b, ""]));
  }

  lemma AllBegin(w: Request, x: Request, y: Request, z: Request)
    requires Interleaving.Begin(w) == Interleaving.Writing && Interleaving.Begin(x) == Interleaving.ParentList
    requires Interleaving.Begin(y) == Interleaving.ParentList && Interleaving.Begin(z) == Interleaving.DestroyList
    ensures Interleaving.Initial(Interleaving.System(map[], map[
              0 := Interleaving.Process(w, Interleaving.Writing),
              1 := Interleaving.Process(x, Interleaving.ParentList),
              2 := Interleaving.Process(y, Interleaving.ParentList),
              3 := Interleaving.Process(z, Interleaving.DestroyList)], []))
  {
  }

  lemma BeginJson(ns: string, trail: seq<string>)
    requires CleanTrail(trail) && |trail| > 2 && !Slashed(trail)
    ensures Interleaving.Begin(Sent(ns, PUT, trail)) == Interleaving.ParentList
  {
    JsonStored(ns, trail);
    BeginPut(Sent(ns, PUT, trail));
  }

  lemma BeginPut(req: Request)
    requires CleanTrail(req.trail) && |req.trail| > 2 && !Slashed(req.trail)
    requires req.command == PUT && req.client.Some? && PutPayload(req).Payload?
    ensures Interleaving.Begin(req) == Interleaving.ParentList
  {
  }

  lemma BeginSlashed(req: Request)
    requires Slashed(req.trail) && |req.trail| >= 2 && MaybeBodyOk(req)
    requires req.command == POST || req.command == DELETE
    ensures Interleaving.Begin(req) ==
            if req.command == DELETE then Interleaving.DestroyList
            else if |req.trail| > 2 then Interleaving.ParentList else Interleaving.Writing
  {
  }

  /** The race proper. */
  lemma RacersEnd(s: Interleaving.System, a: string, b: string, c: string)
    requires CleanNames([a, b, c]) && s.table.Keys == {KeyOf([a]), KeyOf([a, b])}
    requires 2 in s.procs && s.procs[2] == Racers(a, b, c)[2] && 3 in s.procs && s.procs[3] == Racers(a, b, c)[3]
    ensures var e := Interleaving.Run(s, [2] + ([3] + ([3] + ([2] + []))));
            && 2 in e.procs && 3 in e.procs
            && e.procs[2].pc == Interleaving.Done(Status(201)) && e.procs[3].pc == Interleaving.Done(Status(204))
            && KeyOf([a, b, c]) in e.table && KeyOf([a, b]) !in e.table
  {
    OrphanKeys(a, b, c);
    RacersTargets(a, b, c);
    BelowNothing(s.table, a, b);
    assert [a, b, c][2] == c;
    Closure.PutDestroyRace(s, 2, 3, Sent(a, PUT, [a, b, c]), Sent(a, DELETE, [a, b, ""]));
  }

  lemma RacersTargets(a: string, b: string, c: string)
    requires CleanNames([a, b, c])
    ensures Target([a, ""]) == [a] && Target([a, b, ""]) == [a, b] && Target([a, b, c]) == [a, b, c]
    ensures CleanTrail([a, ""]) && CleanTrail([a, b, ""]) && CleanTrail([a, b, c]) && !Slashed([a, b, c])
  {
    assert [a, b, c][0] == a && [a, b, c][1] == b && [a, b, c][2] == c;
  }

  /** The two containers are created. */
  lemma RacersStart(a: string, b: string, c: string)
    requires CleanNames([a, b, c])
    ensures var s := Interleaving.System(map[], Racers(a, b, c), []);
            var s3 := Interleaving.Tick(Interleaving.Tick(Interleaving.Tick(s, 0), 1), 1);
            && s3.table.Keys == {KeyOf([a]), KeyOf([a, b])}
            && 2 in s3.procs && s3.procs[2] == Racers(a, b, c)[2]
            && 3 in s3.procs && s3.procs[3] == Racers(a, b, c)[3]
  {
    var s := Interleaving.System(map[], Racers(a, b, c), []);
    var post, post' := Sent(a, POST, [a, ""]), Sent(a, POST, [a, b, ""]);
    OrphanKeys(a, b, c);
    RacersTargets(a, b, c);
    Closure.WritesRow(s.table, 0, post);
    Closure.TickIs(s, 0, post, Interleaving.Writing, Interleaving.Advance(s.table, 0, post, Interleaving.Writing));
    var s1 := Interleaving.Tick(s, 0);
    Closure.FindsParent(s1.table, 1, post');
    Closure.TickIs(s1, 1, post', Interleaving.ParentList, Interleaving.Move(s1.table, Interleaving.Writing, []));
    var s2 := Interleaving.Tick(s1, 1);
    Closure.WritesRow(s2.table, 1, post');
    Closure.TickIs(s2, 1, post', Interleaving.Writing, Interleaving.Advance(s2.table, 1, post', Interleaving.Writing));
  }

  lemma BelowNothing(t: Rows, a: string, b: string)
    requires CleanNames([a]) && CleanNames([a, b]) && t.Keys == {KeyOf([a]), KeyOf([a, b])}
    ensures Below(t, KeyOf([a, b])) == {}
  {
    KeyOfBelow([a, b], [a]);
    KeyOfBelow([a, b], [a, b]);
  }

  /** PUT a/k, DELETE a/k/: the log says that a/k was stored, and nothing takes it back, but the
      row is gone. */
  lemma SilentDeletion(a: string, k: string)
    requires CleanNames([a, k])
    ensures var run := [Sent(a, PUT, [a, k])] + ([Sent(a, DELETE, [a, k, ""])] + []);
            && Runs.Explains(Runs.LogAfter(map[], [], run), 0, KeyOf([a, k]))
            && KeyOf([a, k]) !in Runs.After(map[], run)
  {
    var put, delete := Sent(a, PUT, [a, k]), Sent(a, DELETE, [a, k, ""]);
    var t := Handle(map[], put).table;
    OwnPut(a, k);
    SlashedRemoval(t, a, [a, k]);
    assert [a, k] + [""] == [a, k, ""];
    AfterCons(t, Handle(map[], put).records, delete, []);
    AfterCons(map[], [], put, [delete] + []);
  }

  lemma OwnPut(a: string, k: string)
    requires CleanNames([a, k])
    ensures var o := Handle(map[], Sent(a, PUT, [a, k]));
            && o.records == [Record(SetAllowed, a, SlashJoin([a, k]))]
            && KeyOf([a, k]) in o.table && Below(o.table, KeyOf([a, k])) == {}
  {
    JsonStored(a, [a, k]);
    OwnPutValue(Sent(a, PUT, [a, k]), a, k);
  }

  lemma OwnPutValue(req: Request, a: string, k: string)
    requires CleanNames([a, k]) && req.command == PUT && req.trail == [a, k] && req.defaultNs == Some(a)
    requires req.client == Some(a) && PutPayload(req) == Payload(Some("v"))
    ensures var o := Handle(map[], req);
            && o.records == [Record(SetAllowed, a, SlashJoin([a, k]))]
            && KeyOf([a, k]) in o.table && Below(o.table, KeyOf([a, k])) == {}
  {
    Answers.PutCodes(map[], req);
    Runs.OneRecordPerKeyRequest(map[], req);
    var e := HandleEffect(map[], req);
    assert CleanNames([a]) by { assert [a, k][0] == a; }
    KeyOfBelow([a, k], [a]);
    KeyOfBelow([a, k], [a, k]);
  }

  lemma SlashedRemoval(t: Rows, ns: string, cs: seq<string>)
    requires CleanNames(cs) && KeyOf(cs) in t && Below(t, KeyOf(cs)) == {}
    ensures Handle(t, Sent(ns, DELETE, cs + [""])).table == t - {KeyOf(cs)}
    ensures Handle(t, Sent(ns, DELETE, cs + [""])).records == []
  {
    var req := Sent(ns, DELETE, cs + [""]);
    assert Target(req.trail) == cs;
    Answers.DestroyAnswers(t, req);
    var e := HandleEffect(t, req);
  }

  /** PUT <own name>/x%2F on an empty table: 500, since the store takes no key that ends in a slash,
      and the namespace has been created. */
  lemma RefusedPut(ns: string)
    requires CleanNames([ns])
    ensures var o := Handle(map[], Sent(ns, PUT, [ns, "x/"]));
            o.answer == Status(500) && o.table == map[KeyOf([ns]) := Blank]
  {
    var req := Sent(ns, PUT, [ns, "x/"]);
    JsonStored(ns, req.trail);
    FirstParent(ns, "x/");
    ContainerKey([ns]);
    assert [ns] + [""] == [ns, ""];
    SlashEndedKey(ns);
    RefusedWrite(req, map[KeyOf([ns]) := Blank]);
  }

  lemma SlashEndedKey(ns: string)
    ensures EndsWithSlash(PosixJoin("keys", [ns, "x/"]))
  {
    assert [ns, "x/"][1..] == ["x/"] && ["x/"][1..] == [];
    var a := JoinOne("keys", ns);
    var key := JoinOne(a, "x/");
    assert PosixJoin("keys", [ns, "x/"]) == PosixJoin(a, ["x/"]) == PosixJoin(key, []) == key;
    assert key[|key| - 1] == '/';
  }

  lemma RefusedWrite(req: Request, t: Rows)
    requires OnKey(req) && req.command == PUT && req.client.Some? && |req.trail| >= 2 && PutPayload(req).Payload?
    requires ParentExists<string>(map[], req.defaultNs, req.trail) == Parent(t, Present)
    requires EndsWithSlash(PosixJoin("keys", req.trail))
    ensures Handle(map[], req).answer == Status(500) && Handle(map[], req).table == t
  {
  }

  /** On an empty table the parent check creates the user's own namespace. */
  lemma FirstParent(ns: string, name: string)
    requires CleanNames([ns])
    ensures ParentExists<string>(map[], Some(ns), [ns, name]) == Parent(map[RStrip(NamespaceKey(ns)) := Blank], Present)
  {
    ContainerKey([ns]);
    assert [ns] + [""] == [ns, ""] && [ns, name][..1] + [""] == [ns, ""];
    ListOfAbsent<string>(map[], ParentKey([ns, name]));
    var t: Rows := map[];
    assert t[RStrip(NamespaceKey(ns)) := Blank] == map[RStrip(NamespaceKey(ns)) := Blank];
  }

  /** POST <own name>// on an empty table: 200, as if the container had been there, and the namespace
      has been created. */
  lemma RefusedPost(ns: string)
    requires CleanNames([ns])
    ensures var o := Handle(map[], Sent(ns, POST, [ns, "", ""]));
            o.answer == Status(200) && o.table == map[KeyOf([ns]) := Blank]
  {
    var req := Sent(ns, POST, [ns, "", ""]);
    FirstParent(ns, "");
    ContainerKey([ns]);
    assert [ns] + [""] == [ns, ""] && req.trail[..2] == [ns, ""];
    DoubleSlashKey(ns);
    assert Create<string>(map[], req) == SpanReply<string>(map[KeyOf([ns]) := Blank], PosixJoin("keys", req.trail));
  }

  lemma DoubleSlashKey(ns: string)
    ensures PosixJoin("keys", [ns, "", ""]) == PosixJoin("keys", [ns, ""])
  {
    assert [ns, "", ""][1..] == ["", ""] && ["", ""][1..] == [""] && [""][1..] == [] && [ns, ""][1..] == [""];
    var a := JoinOne("keys", ns);
    var key := JoinOne(a, "");
    assert JoinOne(key, "") == key;
    assert PosixJoin("keys", [ns, "", ""]) == PosixJoin(a, ["", ""]) == PosixJoin(key, [""]) == PosixJoin(key, []);
    assert PosixJoin("keys", [ns, ""]) == PosixJoin(a, [""]) == PosixJoin(key, []);
  }

  /** A user stores a secret at <own name>/%2Fx.  Any other user reads it at <own name>/%2Fx, where
      without the first there is nothing. */
  lemma SharedSecret(unquote: string -> string, alice: string, bob: string)
    requires NonInterference.Site("/secrets", unquote) && unquote("%2Fx") == "/x"
    requires NonInterference.Named(alice) && NonInterference.Named(bob)
    requires unquote(alice) == alice && unquote(bob) == bob
    ensures var put := NonInterference.Call(alice, "/secrets/" + alice + "/%2Fx", Sent("", PUT, []));
            var get := NonInterference.Call(bob, "/secrets/" + bob + "/%2Fx", Sent("", GET, []));
            var t := NonInterference.Serve("/secrets", unquote, map[], put).table;
            && NonInterference.Serve("/secrets", unquote, map[], get).answer == Status(404)
            && NonInterference.Serve("/secrets", unquote, t, get).answer == Answer(200, Secret("v"))
  {
    EscapedServed(unquote, map[], alice, PUT);
    EscapedServed(unquote, map[], bob, GET);
    var t := Handle(map[], EscapedRequest(alice, PUT)).table;
    EscapedServed(unquote, t, bob, GET);
    EscapedPut(alice);
    EscapedGet(bob, t);
  }

  /** What the consumer is handed of the user's call on %2Fx. */
  function EscapedRequest(user: string, command: Command): Request {
    Sent("", command, [user, "/x"]).(defaultNs := Some(user))
  }

  lemma EscapedServed(unquote: string -> string, t: Rows, user: string, command: Command)
    requires NonInterference.Site("/secrets", unquote) && NonInterference.Named(user) && unquote(user) == user
    requires unquote("%2Fx") == "/x"
    ensures var call := NonInterference.Call(user, "/secrets/" + user + "/%2Fx", Sent("", command, []));
            var o := Handle(t, EscapedRequest(user, command));
            NonInterference.Serve("/secrets", unquote, t, call) == Reply(o.table, o.answer)
  {
    var call := NonInterference.Call(user, "/secrets/" + user + "/%2Fx", Sent("", command, []));
    assert RStrip("/secrets") == "/secrets";
    assert call.path == Authorizers.Namespace("/secrets", user) + "%2Fx";
    SplitWhole("%2Fx", '/');
    assert [user] + NonInterference.Decoded(unquote, ["%2Fx"]) == [user, "/x"];
    NonInterference.ReachingServed("/secrets", unquote, t, call, "%2Fx", EscapedRequest(user, command));
  }

  lemma EscapedKey(user: string)
    ensures PosixJoin("keys", [user, "/x"]) == "/x"
  {
    assert [user, "/x"][1..] == ["/x"] && ["/x"][1..] == [];
    assert PosixJoin(JoinOne("keys", user), ["/x"]) == PosixJoin("/x", []);
  }

  /** Her namespace is created on the way. */
  lemma EscapedParent(user: string)
    requires NonInterference.Named(user)
    ensures ParentExists<string>(map[], Some(user), [user, "/x"]) ==
            Parent(map[RStrip(NamespaceKey(user)) := Blank], Present)
    ensures RStrip(NamespaceKey(user)) != "/x"
  {
    NonInterference.TrailOwned(user, [user, ""]);
    NonInterference.AbsoluteUnowned(user, "/x");
    assert [user, "/x"][..1] + [""] == [user, ""];
    var t: Rows := map[];
    assert t[RStrip(NamespaceKey(user)) := Blank] == map[RStrip(NamespaceKey(user)) := Blank];
  }

  lemma EscapedPut(user: string)
    requires NonInterference.Named(user)
    ensures Look(Handle(map[], EscapedRequest(user, PUT)).table, "/x") == Some(Held("v"))
  {
    var req := EscapedRequest(user, PUT);
    JsonStored("", [user, "/x"]);
    assert PutPayload(req) == PutPayload(Sent("", PUT, [user, "/x"]));
    EscapedKey(user);
    EscapedParent(user);
    EscapedStore(req, map[RStrip(NamespaceKey(user)) := Blank]);
  }

  lemma EscapedStore(req: Request, t: Rows)
    requires |req.trail| == 2 && req.trail[1] != [] && req.command == PUT && req.client.Some?
    requires PutPayload(req) == Payload(Some("v")) && PosixJoin("keys", req.trail) == "/x" && "/x" !in t
    requires ParentExists<string>(map[], req.defaultNs, req.trail) == Parent(t, Present)
    ensures Look(Handle(map[], req).table, "/x") == Some(Held("v"))
  {
  }

  lemma EscapedGet(user: string, t: Rows)
    requires NonInterference.Named(user)
    ensures Handle(map[], EscapedRequest(user, GET)).answer == Status(404)
    ensures Look(t, "/x") == Some(Held("v")) ==> Handle(t, EscapedRequest(user, GET)).answer == Answer(200, Secret("v"))
  {
    var joined := user + "/" + "/x";
    EscapedKey(user);
    assert SlashJoin([user, "/x"]) == joined && joined[|joined| - 1] == 'x';
  }

  /** With the entry "//x." the authorizer lets "//x" pass on the strict match, though the walk up
      from it never ends. */
  lemma StrictMatchOnly()
    ensures Authorizers.StrictMatch(["//x."], "//x") && !Authorizers.WalkEnds(["//x."], "//x")
  {
    var paths := ["//x."];
    assert !EndsWithSlash(paths[0]) && Authorizers.Undotted(paths[0]) == "//x";
    assert "//x"[..2] == "//";
    StuckAtSlashes();
    Authorizers.WalkEndsExactly(paths, "//x");
  }

  lemma StuckAtSlashes()
    ensures !Authorizers.MetInTime(["//x."], "//x")
  {
    forall n | 0 <= n <= 3 ensures !Authorizers.Matches(["//x."], Authorizers.Up("//x", n)) {
      if n > 0 {
        assert "//x"[..2] == "//";
        assert Authorizers.AfterLastSlash("//x") == 2;
        Authorizers.DoubleSlashStays(n - 1);
      }
    }
  }

  /** A sub-consumer two levels down: the loop stops after the first level. */
  method NestedSub() returns (root: Routing.Consumer, sub: Routing.Consumer, leaf: Routing.Consumer)
    ensures fresh(root) && fresh(sub) && fresh(leaf) && sub != leaf
    ensures Routing.Popping(root, ["a", "b"], 0) == (sub, ["b"]) && Routing.Descend(root, ["a", "b"]) == (leaf, [])
  {
    root := new Routing.Consumer();
    sub := new Routing.Consumer();
    leaf := new Routing.Consumer();
    sub.AddSub("b", leaf);
    root.AddSub("a", sub);
    NestedLookup(root, sub, leaf);
  }

  lemma NestedLookup(root: Routing.Consumer, sub: Routing.Consumer, leaf: Routing.Consumer)
    requires root.subs == map["a" := sub] && sub.subs == map["b" := leaf] && leaf.subs == map[]
    ensures Routing.Popping(root, ["a", "b"], 0) == (sub, ["b"]) && Routing.Descend(root, ["a", "b"]) == (leaf, [])
  {
    assert ["a", "b"][1..] == ["b"] && ["b"][1..] == [];
    assert Routing.Popping(sub, ["b"], 1) == (sub, ["b"]);
    assert Routing.Descend(leaf, []) == (leaf, []);
    assert Routing.Descend(sub, ["b"]) == (leaf, []);
  }

  /** The vault key "a_/b" is listed as "a/_b". */
  lemma VaultMisread()
    ensures Vault.Mangle("a_/b") == Some("a___b") && Vault.Unmangle("a___b") == "a/_b"
  {
    var key, name := "a_/b", "a___b";
    assert key[1..] == "_/b" && "_/b"[1..] == "/b" && "/b"[1..] == "b" && "b"[1..] == "";
    assert Vault.Widen("b") == "b" && Vault.Widen("/b") == "__b" && Vault.Widen("_/b") == "___b";
    assert Vault.Widen(key) == name;
    assert !Vault.HasPair(key, '_', '_');
    assert name[1..] == "___b" && "___b"[2..] == "_b" && "_b"[1..] == "b";
    assert Vault.Unmangle("b") == "b" && Vault.Unmangle("_b") == "_b" && Vault.Unmangle("___b") == "/_b";
  }
}
