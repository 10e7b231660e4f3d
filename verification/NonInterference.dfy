/** User namespaces keep users apart: behind `UserNameSpace` no request of one user can be told,
    from the answers to another user, to have happened. */
module NonInterference {
  import opened Text
  import opened Sqlite
  import opened Secrets
  import Authorizers
  import Routing

  // ---------------------------------------------------------------- the rows of a namespace

  predicate Owns(ns: string, key: string) {
    key == "keys/" + ns || "keys/" + ns + "/" <= key
  }

  predicate Named(ns: string) {
    ns != [] && SlashFree(ns)
  }

  lemma OwnsFirst(ns: string, key: string)
    requires SlashFree(ns) && Owns(ns, key)
    ensures "keys/" <= key && Split(key[5..], '/')[0] == ns
  {
    if key == "keys/" + ns {
      assert key[5..] == ns;
      SplitWhole(ns, '/');
    } else {
      var rest := key[6 + |ns|..];
      assert key[..6 + |ns|] == "keys/" + ns + "/";
      assert key[5..] == ns + ['/'] + rest;
      SplitSeparated(ns, rest, '/');
      SplitWhole(ns, '/');
    }
  }

  lemma NamespacesDisjoint(a: string, b: string, key: string)
    requires SlashFree(a) && SlashFree(b) && a != b && Owns(a, key)
    ensures !Owns(b, key)
  {
    OwnsFirst(a, key);
    if Owns(b, key) { OwnsFirst(b, key); }
  }

  lemma StripOwned(ns: string, key: string)
    requires Named(ns) && "keys/" + ns + "/" <= key
    ensures Owns(ns, RStrip(key)) && Owns(ns, key)
  {
    var p, r := "keys/" + ns, RStrip(key);
    assert p[|p| - 1] == ns[|ns| - 1];
    RStripKeeps(p, key);
    if r != p {
      assert r[|p|] == key[|p|] == '/';
      assert r[..|p| + 1] == p + "/";
    }
  }

  lemma SubtreeOwned(ns: string, path: string, key: string)
    requires Owns(ns, path) && (At(path, key) || StrictlyBelow(path, key))
    ensures Owns(ns, key)
  {
    assert path <= key;
    assert path == "keys/" + ns ==> ChildPrefix(path) == "keys/" + ns + "/";
  }

  /** A request of the namespace: its trail starts there and no component is absolute. */
  predicate Within(ns: string, trail: seq<string>) {
    Named(ns) && |trail| >= 2 && trail[0] == ns && Relative(trail)
  }

  lemma TrailOwned(ns: string, trail: seq<string>)
    requires Within(ns, trail)
    ensures "keys/" + ns + "/" <= PosixJoin("keys", trail)
    ensures Owns(ns, PosixJoin("keys", trail)) && Owns(ns, RStrip(PosixJoin("keys", trail)))
  {
    var p := JoinOne("keys", ns);
    assert p == "keys/" + ns;
    assert p[|p| - 1] == ns[|ns| - 1];
    assert forall i :: 0 <= i < |trail[1..]| ==> trail[1..][i] == trail[i + 1];
    PosixJoinExtends(p, trail[1..]);
    StripOwned(ns, PosixJoin("keys", trail));
  }

  lemma {:induction false} StaysAbsolute(a: string, parts: seq<string>)
    requires a != [] && a[0] == '/'
    ensures PosixJoin(a, parts) != [] && PosixJoin(a, parts)[0] == '/'
    decreases parts
  {
    if parts != [] {
      StaysAbsolute(JoinOne(a, parts[0]), parts[1..]);
    }
  }

  lemma {:induction false} AbsoluteEscapes(a: string, parts: seq<string>)
    requires !Relative(parts)
    ensures PosixJoin(a, parts) != [] && PosixJoin(a, parts)[0] == '/'
    decreases parts
  {
    if parts[0] != [] && parts[0][0] == '/' {
      StaysAbsolute(parts[0], parts[1..]);
    } else {
      AbsoluteEscapes(JoinOne(a, parts[0]), parts[1..]);
    }
  }

  lemma AbsoluteUnowned(ns: string, key: string)
    requires key == [] || key[0] == '/'
    ensures !Owns(ns, key)
  {
    assert "keys/"[0] == 'k';
  }

  /** A trail of the namespace, whatever the components that follow. */
  predicate Rooted(ns: string, trail: seq<string>) {
    Named(ns) && |trail| >= 2 && trail[0] == ns
  }

  /** A trail that starts in a namespace stays in it exactly when no component is absolute:
      `os.path.join` drops everything before such a component, the namespace included. */
  lemma OwnsExactly(ns: string, trail: seq<string>)
    requires Rooted(ns, trail)
    ensures Owns(ns, PosixJoin("keys", trail)) <==> Relative(trail)
  {
    if Relative(trail) {
      TrailOwned(ns, trail);
    } else {
      AbsoluteEscapes("keys", trail);
      AbsoluteUnowned(ns, PosixJoin("keys", trail));
    }
  }

  /** Wherever a trail leads, it is to no other namespace. */
  lemma KeySpared(ns: string, mine: string, trail: seq<string>)
    requires Rooted(ns, trail) && Named(mine) && mine != ns
    ensures !Owns(mine, PosixJoin("keys", trail)) && !Owns(mine, RStrip(PosixJoin("keys", trail)))
  {
    var key := PosixJoin("keys", trail);
    if Relative(trail) {
      TrailOwned(ns, trail);
      NamespacesDisjoint(ns, mine, key);
      NamespacesDisjoint(ns, mine, RStrip(key));
    } else {
      AbsoluteEscapes("keys", trail);
      AbsoluteUnowned(mine, key);
      AbsoluteUnowned(mine, RStrip(key));
    }
  }

  lemma ParentOwned(ns: string, trail: seq<string>)
    requires Within(ns, trail)
    ensures Owns(ns, RStrip(ParentKey(trail))) && Owns(ns, RStrip(NamespaceKey(ns)))
  {
    TrailOwned(ns, trail[..|trail| - 1] + [""]);
    TrailOwned(ns, [ns, ""]);
  }

  // ---------------------------------------------------------------- one request

  ghost predicate Agree(t: Rows, u: Rows, ns: string) {
    forall k :: Owns(ns, k) ==> Look(t, k) == Look(u, k)
  }

  ghost predicate Confined(t: Rows, t': Rows, ns: string) {
    forall k :: !Owns(ns, k) ==> Look(t', k) == Look(t, k)
  }

  /** Two runs of one operation: same answer, still agreeing inside, nothing changed outside. */
  ghost predicate Alike(ns: string, t: Rows, u: Rows, x: Reply, y: Reply) {
    x.answer == y.answer && Agree(x.table, y.table, ns) && Confined(t, x.table, ns) && Confined(u, y.table, ns)
  }

  lemma ListAlike(t: Rows, u: Rows, ns: string, keyfilter: string)
    requires Agree(t, u, ns) && Owns(ns, RStrip(keyfilter))
    ensures ListOf(t, keyfilter) == ListOf(u, keyfilter)
  {
    forall k | At(RStrip(keyfilter), k) || StrictlyBelow(RStrip(keyfilter), k) ensures Shape(t, k) == Shape(u, k) {
      SubtreeOwned(ns, RStrip(keyfilter), k);
      assert Look(t, k) == Look(u, k);
    }
    ListOfLocal(t, u, keyfilter);
  }

  lemma WriteAlike(t: Rows, u: Rows, ns: string, key: string, cell: Cell<string>)
    requires Agree(t, u, ns) && Owns(ns, key)
    ensures key in t <==> key in u
    ensures Agree(t[key := cell], u[key := cell], ns)
    ensures Confined(t, t[key := cell], ns) && Confined(u, u[key := cell], ns)
  {
    assert Look(t, key) == Look(u, key);
  }

  lemma CutAlike(t: Rows, u: Rows, ns: string, key: string)
    requires Agree(t, u, ns) && Owns(ns, key)
    ensures Alike(ns, t, u, CutReply(t, key), CutReply(u, key))
  {
    assert Look(t, key) == Look(u, key);
  }

  lemma SpanAlike(t: Rows, u: Rows, ns: string, key: string)
    requires Agree(t, u, ns) && Owns(ns, RStrip(key))
    ensures Alike(ns, t, u, SpanReply(t, key), SpanReply(u, key))
  {
    WriteAlike(t, u, ns, RStrip(key), Blank);
  }

  lemma ParentAlike(t: Rows, u: Rows, ns: string, defaultNs: Option<string>, trail: seq<string>)
    requires Agree(t, u, ns) && Within(ns, trail)
    ensures ParentsAlike(ns, t, u, ParentExists(t, defaultNs, trail), ParentExists(u, defaultNs, trail))
  {
    ParentOwned(ns, trail);
    ListAlike(t, u, ns, ParentKey(trail));
    WriteAlike(t, u, ns, RStrip(NamespaceKey(ns)), Blank);
  }

  /** Two parent checks that agree, followed by the same write. */
  ghost predicate ParentsAlike(ns: string, t: Rows, u: Rows, p: Parent, q: Parent) {
    p.verdict == q.verdict && Agree(p.table, q.table, ns) && Confined(t, p.table, ns) && Confined(u, q.table, ns)
  }

  lemma SetAfterAlike(t: Rows, u: Rows, ns: string, p: Parent, q: Parent, key: string, cell: Cell<string>)
    requires ParentsAlike(ns, t, u, p, q) && Owns(ns, key)
    ensures Alike(ns, t, u, SetAfter(p, key, cell), SetAfter(q, key, cell))
  {
    WriteAlike(p.table, q.table, ns, key, cell);
  }

  lemma SpanAfterAlike(t: Rows, u: Rows, ns: string, p: Parent, q: Parent, key: string)
    requires ParentsAlike(ns, t, u, p, q) && Owns(ns, RStrip(key))
    ensures Alike(ns, t, u, SpanAfter(p, key), SpanAfter(q, key))
  {
    WriteAlike(p.table, q.table, ns, RStrip(key), Blank);
  }

  lemma SetKeyAlike(t: Rows, u: Rows, ns: string, req: Request)
    requires Agree(t, u, ns) && Within(ns, req.trail)
    ensures Alike(ns, t, u, SetKey(t, req), SetKey(u, req))
  {
    if PutPayload(req).Payload? {
      TrailOwned(ns, req.trail);
      ParentAlike(t, u, ns, req.defaultNs, req.trail);
      SetAfterAlike(t, u, ns, ParentExists(t, req.defaultNs, req.trail), ParentExists(u, req.defaultNs, req.trail),
                    PosixJoin("keys", req.trail), ToCell(PutPayload(req).value));
    }
  }

  lemma CreateAlike(t: Rows, u: Rows, ns: string, req: Request)
    requires Agree(t, u, ns) && Within(ns, req.trail)
    ensures Alike(ns, t, u, Create(t, req), Create(u, req))
  {
    var key, init := PosixJoin("keys", req.trail), req.trail[..|req.trail| - 1];
    TrailOwned(ns, req.trail);
    if |req.trail| > 2 {
      ParentAlike(t, u, ns, req.defaultNs, init);
      SpanAfterAlike(t, u, ns, ParentExists(t, req.defaultNs, init), ParentExists(u, req.defaultNs, init), key);
    } else {
      SpanAlike(t, u, ns, key);
    }
  }

  lemma DestroyAlike(t: Rows, u: Rows, ns: string, req: Request)
    requires Agree(t, u, ns) && Within(ns, req.trail)
    ensures Alike(ns, t, u, Destroy(t, req), Destroy(u, req))
  {
    TrailOwned(ns, req.trail);
    ListAlike(t, u, ns, PosixJoin("keys", req.trail));
    CutAlike(t, u, ns, RStrip(PosixJoin("keys", req.trail)));
  }

  /** A request within a namespace sees and touches the rows of that namespace only. */
  lemma HandleAlike(t: Rows, u: Rows, ns: string, req: Request)
    requires Agree(t, u, ns) && Within(ns, req.trail)
    ensures Handle(t, req).answer == Handle(u, req).answer
    ensures Agree(Handle(t, req).table, Handle(u, req).table, ns)
    ensures Confined(t, Handle(t, req).table, ns)
  {
    TrailOwned(ns, req.trail);
    var key := PosixJoin("keys", req.trail);
    assert Look(t, key) == Look(u, key);
    match req.command {
      case GET => ListAlike(t, u, ns, key);
      case PUT => SetKeyAlike(t, u, ns, req);
      case POST => CreateAlike(t, u, ns, req);
      case DELETE =>
        DestroyAlike(t, u, ns, req);
        CutAlike(t, u, ns, key);
    }
  }

  // ---------------------------------------------------------------- other users' rows

  lemma ParentSpares(t: Rows, ns: string, mine: string, defaultNs: Option<string>, trail: seq<string>)
    requires Rooted(ns, trail) && Named(mine) && mine != ns
    ensures Agree(ParentExists(t, defaultNs, trail).table, t, mine)
  {
    KeySpared(ns, mine, [ns, ""]);
    assert Agree(t[RStrip(NamespaceKey(ns)) := Blank], t, mine);
  }

  lemma SetKeySpares(t: Rows, ns: string, mine: string, req: Request)
    requires Rooted(ns, req.trail) && Named(mine) && mine != ns
    ensures Agree(SetKey(t, req).table, t, mine)
  {
    KeySpared(ns, mine, req.trail);
    ParentSpares(t, ns, mine, req.defaultNs, req.trail);
  }

  lemma CreateSpares(t: Rows, ns: string, mine: string, req: Request)
    requires Rooted(ns, req.trail) && Named(mine) && mine != ns
    ensures Agree(Create(t, req).table, t, mine)
  {
    var init := req.trail[..|req.trail| - 1];
    KeySpared(ns, mine, req.trail);
    if |req.trail| > 2 { ParentSpares(t, ns, mine, req.defaultNs, init); }
  }

  /** A request rooted in one namespace leaves every row of another alone, even where absolute
      components take it out of its own. */
  lemma HandleSpares(t: Rows, ns: string, mine: string, req: Request)
    requires Rooted(ns, req.trail) && Named(mine) && mine != ns
    ensures Agree(Handle(t, req).table, t, mine)
  {
    KeySpared(ns, mine, req.trail);
    match req.command {
      case GET =>
      case PUT => SetKeySpares(t, ns, mine, req);
      case POST => CreateSpares(t, ns, mine, req);
      case DELETE =>
    }
  }

  // ---------------------------------------------------------------- the server

  /** A request as it arrives: who sent it, the URL path, and everything but its trail. */
  datatype Call = Call(user: string, path: string, request: Request)

  /** The chain at which the consumer of a configuration section is mounted. */
  function MountOf(base: string): seq<string> {
    Split(RStrip(base), '/')
  }

  /** The base path is absolute, has at most one trailing slash and nothing percent-encoded. */
  ghost predicate Site(base: string, unquote: string -> string) {
    MountOf(base)[0] == []
    && (base == RStrip(base) || base == RStrip(base) + "/")
    && forall i :: 0 <= i < |MountOf(base)| ==> unquote(MountOf(base)[i]) == MountOf(base)[i]
  }

  predicate Admitted(base: string, call: Call) {
    base <= call.path && Authorizers.Namespace(base, call.user) <= call.path
  }

  /** The request the `Secrets` mounted at `base` is handed. */
  function Handed(base: string, unquote: string -> string, call: Call): Request {
    var chain := Routing.Chain(call.path, unquote);
    var n := |MountOf(base)|;
    call.request.(trail := if n <= |chain| then chain[n..] else [], defaultNs := Some(call.user))
  }

  /** One call: refused outside the caller's namespace, otherwise handled. */
  ghost function Serve(base: string, unquote: string -> string, t: Rows, call: Call): Reply {
    if !Admitted(base, call) then Reply(t, Status(403))
    else if !Routing.Selected({MountOf(base)}, Routing.Chain(call.path, unquote), MountOf(base)) then
      Reply(t, Status(404))
    else var o := Handle(t, Handed(base, unquote, call)); Reply(o.table, o.answer)
  }

  /** A call outside the base path, or outside the caller's own name below it, is refused. */
  lemma OutsideRefused(base: string, unquote: string -> string, t: Rows, call: Call)
    requires !(base <= call.path) || !(RStrip(base) + "/" + call.user + "/" <= call.path)
    ensures Serve(base, unquote, t, call) == Reply(t, Status(403))
  {
  }

  lemma ChainOfAdmitted(base: string, unquote: string -> string, call: Call)
    requires Site(base, unquote) && Admitted(base, call) && SlashFree(call.user)
    ensures var chain, mount := Routing.Chain(call.path, unquote), MountOf(base);
            && mount <= chain && |chain| >= |mount| + 2 && chain[|mount|] == unquote(call.user)
            && Routing.Selected({mount}, chain, mount)
  {
    var stem, rest := RStrip(base), call.path[|Authorizers.Namespace(base, call.user)|..];
    assert call.path == stem + ['/'] + (call.user + ['/'] + rest);
    SplitSeparated(stem, call.user + ['/'] + rest, '/');
    SplitSeparated(call.user, rest, '/');
    SplitWhole(call.user, '/');
    var chain, mount := Routing.Chain(call.path, unquote), MountOf(base);
    assert chain[..|mount|] == mount;
  }

  /** A user name that is one nonempty path component, before and after decoding. */
  predicate ProperUser(unquote: string -> string, user: string) {
    SlashFree(user) && Named(unquote(user))
  }

  /** A call none of whose decoded components is absolute. */
  predicate Proper(unquote: string -> string, call: Call) {
    ProperUser(unquote, call.user) && Relative(Routing.Chain(call.path, unquote))
  }

  lemma HandedRooted(base: string, unquote: string -> string, call: Call)
    requires Site(base, unquote) && Admitted(base, call) && ProperUser(unquote, call.user)
    ensures Rooted(unquote(call.user), Handed(base, unquote, call).trail)
    ensures Proper(unquote, call) ==> Within(unquote(call.user), Handed(base, unquote, call).trail)
  {
    ChainOfAdmitted(base, unquote, call);
    var chain, n := Routing.Chain(call.path, unquote), |MountOf(base)|;
    assert forall i :: 0 <= i < |chain[n..]| ==> chain[n..][i] == chain[i + n];
  }

  /** A call depends on and changes the rows of the caller's namespace only. */
  lemma ServeAlike(base: string, unquote: string -> string, t: Rows, u: Rows, call: Call)
    requires Site(base, unquote) && Proper(unquote, call) && Agree(t, u, unquote(call.user))
    ensures Serve(base, unquote, t, call).answer == Serve(base, unquote, u, call).answer
    ensures Agree(Serve(base, unquote, t, call).table, Serve(base, unquote, u, call).table, unquote(call.user))
    ensures Confined(t, Serve(base, unquote, t, call).table, unquote(call.user))
  {
    if Admitted(base, call) {
      HandedRooted(base, unquote, call);
      HandleAlike(t, u, unquote(call.user), Handed(base, unquote, call));
    }
  }

  /** No call, whatever its path decodes to, changes the rows of another user's namespace. */
  lemma ServeSpares(base: string, unquote: string -> string, t: Rows, call: Call, mine: string)
    requires Site(base, unquote) && ProperUser(unquote, call.user) && Named(mine) && unquote(call.user) != mine
    ensures Agree(Serve(base, unquote, t, call).table, t, mine)
  {
    if Admitted(base, call) {
      HandedRooted(base, unquote, call);
      HandleSpares(t, unquote(call.user), mine, Handed(base, unquote, call));
    }
  }

  // ---------------------------------------------------------------- runs

  /** The answers `who` receives in a run. */
  ghost function AnswersTo(base: string, unquote: string -> string, t: Rows, calls: seq<Call>, who: string): seq<Answer>
    decreases calls
  {
    if calls == [] then []
    else
      var r := Serve(base, unquote, t, calls[0]);
      (if calls[0].user == who then [r.answer] else []) + AnswersTo(base, unquote, r.table, calls[1..], who)
  }

  function Without(calls: seq<Call>, who: string): seq<Call> {
    if calls == [] then []
    else (if calls[0].user == who then [] else [calls[0]]) + Without(calls[1..], who)
  }

  /** Nobody else's name decodes to that of `who`, and the calls of `who` itself are proper; the
      paths of the others are arbitrary. */
  predicate ProperRun(unquote: string -> string, calls: seq<Call>, who: string) {
    forall i :: 0 <= i < |calls| ==>
      if calls[i].user == who then Proper(unquote, calls[i])
      else ProperUser(unquote, calls[i].user) && unquote(calls[i].user) != unquote(who)
  }

  lemma SamePurged(calls: seq<Call>, who: string)
    requires calls != []
    ensures calls[0].user == who ==> Without(calls, who) == Without(calls[1..], who)
    ensures calls[0].user != who ==> Without(calls, who) != [] && Without(calls, who)[0] == calls[0]
                                     && Without(calls, who)[1..] == Without(calls[1..], who)
  {
  }

  lemma AgreeThrough(t': Rows, t: Rows, u: Rows, u': Rows, ns: string)
    requires Agree(t', t, ns) && Agree(t, u, ns) && Agree(u', u, ns)
    ensures Agree(t', u', ns) && Agree(t', u, ns)
  {
  }

  lemma {:induction false} PurgeFrom(base: string, unquote: string -> string, t: Rows, u: Rows,
                                     calls: seq<Call>, gone: string, who: string)
    requires Site(base, unquote) && ProperRun(unquote, calls, who) && gone != who
    requires Named(unquote(who)) && Agree(t, u, unquote(who))
    ensures AnswersTo(base, unquote, t, calls, who) == AnswersTo(base, unquote, u, Without(calls, gone), who)
    decreases calls
  {
    if calls != [] {
      var call, rest, mine := calls[0], calls[1..], unquote(who);
      var t', u' := Serve(base, unquote, t, call).table, Serve(base, unquote, u, call).table;
      SamePurged(calls, gone);
      assert ProperRun(unquote, rest, who);
      if call.user == who {
        ServeAlike(base, unquote, t, u, call);
        PurgeFrom(base, unquote, t', u', rest, gone, who);
      } else {
        ServeSpares(base, unquote, t, call, mine);
        ServeSpares(base, unquote, u, call, mine);
        AgreeThrough(t', t, u, u', mine);
        PurgeFrom(base, unquote, t', if call.user == gone then u else u', rest, gone, who);
      }
    }
  }

  lemma {:induction false} Unheard(base: string, unquote: string -> string, t: Rows, calls: seq<Call>,
                                   gone: string, who: string)
    requires forall i :: 0 <= i < |calls| ==> calls[i].user != who
    ensures AnswersTo(base, unquote, t, calls, who) == []
    ensures forall i :: 0 <= i < |Without(calls, gone)| ==> Without(calls, gone)[i].user != who
    decreases calls
  {
    if calls != [] {
      Unheard(base, unquote, Serve(base, unquote, t, calls[0]).table, calls[1..], gone, who);
    }
  }

  /** Non-interference: from any table, deleting every request of one user from a run leaves
      every answer to another user unchanged, if that user's own paths are proper. */
  lemma NonInterference(base: string, unquote: string -> string, t: Rows, calls: seq<Call>, gone: string, who: string)
    requires Site(base, unquote) && ProperRun(unquote, calls, who) && gone != who
    ensures AnswersTo(base, unquote, t, calls, who) == AnswersTo(base, unquote, t, Without(calls, gone), who)
  {
    if i :| 0 <= i < |calls| && calls[i].user == who {
      assert Proper(unquote, calls[i]);
      PurgeFrom(base, unquote, t, t, calls, gone, who);
    } else {
      Unheard(base, unquote, t, calls, gone, who);
      Unheard(base, unquote, t, Without(calls, gone), gone, who);
    }
  }

  // ---------------------------------------------------------------- exactly when

  /** A front end that lets through the paths all of whose raw segments pass `lets`. */
  predicate LetsThrough(lets: string -> bool, path: string) {
    forall i :: 0 <= i < |Split(path, '/')| ==> lets(Split(path, '/')[i])
  }

  /** Calls by a and b only, on any paths that are let through. */
  predicate Between(lets: string -> bool, calls: seq<Call>, a: string, b: string) {
    forall i :: 0 <= i < |calls| ==> (calls[i].user == a || calls[i].user == b) && LetsThrough(lets, calls[i].path)
  }

  /** Behind that front end b can never tell from the answers that a ever called. */
  ghost predicate KeptApart(base: string, unquote: string -> string, lets: string -> bool, a: string, b: string) {
    forall t: Rows, calls: seq<Call> :: Between(lets, calls, a, b) ==>
      AnswersTo(base, unquote, t, calls, b) == AnswersTo(base, unquote, t, Without(calls, a), b)
  }

  predicate Absolute(s: string) {
    s != [] && s[0] == '/'
  }

  /** No segment that is let through decodes to an absolute component. */
  ghost predicate NoAbsolute(unquote: string -> string, lets: string -> bool) {
    forall seg :: SlashFree(seg) && lets(seg) ==> !Absolute(unquote(seg))
  }

  /** The front end lets the segments through that are needed to reach a namespace. */
  predicate Reachable(base: string, unquote: string -> string, lets: string -> bool, user: string) {
    ProperUser(unquote, user) && lets(user) && lets("") && unquote("") == ""
    && forall i :: 0 <= i < |MountOf(base)| ==> lets(MountOf(base)[i])
  }

  /** Two users are kept apart, whatever they call, exactly when percent-decoding keeps their
      names apart and no segment they may send decodes to something that starts with a slash. */
  lemma KeptApartExactly(base: string, unquote: string -> string, lets: string -> bool, a: string, b: string)
    requires Site(base, unquote) && a != b
    requires Reachable(base, unquote, lets, a) && Reachable(base, unquote, lets, b)
    ensures KeptApart(base, unquote, lets, a, b) <==> unquote(a) != unquote(b) && NoAbsolute(unquote, lets)
  {
    if unquote(a) == unquote(b) {
      Meeting(base, unquote, lets, a, b);
    } else if !NoAbsolute(unquote, lets) {
      var seg :| SlashFree(seg) && lets(seg) && Absolute(unquote(seg));
      Escaping(base, unquote, lets, a, b, seg);
    } else {
      forall t: Rows, calls: seq<Call> | Between(lets, calls, a, b)
        ensures AnswersTo(base, unquote, t, calls, b) == AnswersTo(base, unquote, t, Without(calls, a), b)
      {
        forall i | 0 <= i < |calls| ensures Proper(unquote, calls[i]) {
          RelativeChain(unquote, lets, calls[i].path);
        }
        PurgeFrom(base, unquote, t, t, calls, a, b);
      }
    }
  }

  lemma RelativeChain(unquote: string -> string, lets: string -> bool, path: string)
    requires NoAbsolute(unquote, lets) && LetsThrough(lets, path)
    ensures Relative(Routing.Chain(path, unquote))
  {
    SplitPieces(path, '/');
    var segments, chain := Split(path, '/'), Routing.Chain(path, unquote);
    forall i | 0 <= i < |chain| ensures chain[i] == [] || chain[i][0] != '/' {
      assert SlashFree(segments[i]) && lets(segments[i]);
    }
  }

  // ---------------------------------------------------------------- the two leaks

  /** The call of a user on `tail`, given relative to the user's namespace. */
  function Reaching(base: string, user: string, tail: string, command: Command): Call {
    Call(user, Authorizers.Namespace(base, user) + tail,
         Request(command, [], None, Some(user), "", None, None, Parsed(Some(""))))
  }

  lemma NamespaceSplit(base: string, user: string, tail: string)
    requires SlashFree(user)
    ensures Split(Authorizers.Namespace(base, user) + tail, '/') == MountOf(base) + [user] + Split(tail, '/')
  {
    var stem := RStrip(base);
    assert Authorizers.Namespace(base, user) + tail == stem + ['/'] + (user + ['/'] + tail);
    SplitSeparated(stem, user + ['/'] + tail, '/');
    SplitSeparated(user, tail, '/');
    SplitWhole(user, '/');
  }

  function Decoded(unquote: string -> string, segments: seq<string>): seq<string> {
    seq(|segments|, i requires 0 <= i < |segments| => unquote(segments[i]))
  }

  lemma ReachingChain(base: string, unquote: string -> string, user: string, tail: string)
    requires Site(base, unquote) && SlashFree(user)
    ensures Routing.Chain(Authorizers.Namespace(base, user) + tail, unquote) ==
            MountOf(base) + ([unquote(user)] + Decoded(unquote, Split(tail, '/')))
  {
    NamespaceSplit(base, user, tail);
    var mount, path := MountOf(base), Authorizers.Namespace(base, user) + tail;
    var chain, meant := Routing.Chain(path, unquote), mount + ([unquote(user)] + Decoded(unquote, Split(tail, '/')));
    assert |chain| == |meant|;
    forall i | 0 <= i < |chain| ensures chain[i] == meant[i] {
      assert chain[i] == unquote(Split(path, '/')[i]);
    }
  }

  lemma ReachingAdmitted(base: string, user: string, tail: string, call: Call)
    requires base == RStrip(base) || base == RStrip(base) + "/"
    requires call.user == user && call.path == Authorizers.Namespace(base, user) + tail
    ensures Admitted(base, call)
  {
    var stem := RStrip(base);
    assert call.path == stem + "/" + (user + "/" + tail);
  }

  /** Such a call passes `UserNameSpace`, reaches the consumer and is handed the decoded tail. */
  lemma ReachingHanded(base: string, unquote: string -> string, user: string, call: Call, tail: string)
    requires Site(base, unquote) && ProperUser(unquote, user)
    requires call.user == user && call.path == Authorizers.Namespace(base, user) + tail
    ensures Admitted(base, call)
    ensures Routing.Selected({MountOf(base)}, Routing.Chain(call.path, unquote), MountOf(base))
    ensures Handed(base, unquote, call).trail == [unquote(user)] + Decoded(unquote, Split(tail, '/'))
  {
    ReachingAdmitted(base, user, tail, call);
    ReachingChain(base, unquote, user, tail);
    ChainOfAdmitted(base, unquote, call);
  }

  lemma ReachingPasses(base: string, unquote: string -> string, lets: string -> bool, user: string, tail: string)
    requires Reachable(base, unquote, lets, user) && LetsThrough(lets, tail)
    ensures LetsThrough(lets, Authorizers.Namespace(base, user) + tail)
  {
    NamespaceSplit(base, user, tail);
  }

  /** A call on `tail` is served as a request with the decoded trail. */
  lemma ReachingServed(base: string, unquote: string -> string, t: Rows, call: Call, tail: string, req: Request)
    requires Site(base, unquote) && ProperUser(unquote, call.user)
    requires call.path == Authorizers.Namespace(base, call.user) + tail
    requires req == call.request.(trail := [unquote(call.user)] + Decoded(unquote, Split(tail, '/')),
                                  defaultNs := Some(call.user))
    ensures Serve(base, unquote, t, call) == Reply(Handle(t, req).table, Handle(t, req).answer)
  {
    ReachingHanded(base, unquote, call.user, call, tail);
    assert Handed(base, unquote, call) == req;
  }

  /** POST on an empty table: the container of the namespace. */
  lemma Opens(base: string, unquote: string -> string, user: string)
    requires Site(base, unquote) && ProperUser(unquote, user) && unquote("") == ""
    ensures Serve(base, unquote, map[], Reaching(base, user, "", POST)).table ==
            map[RStrip(NamespaceKey(unquote(user))) := Blank]
  {
    var call, ns := Reaching(base, user, "", POST), unquote(user);
    assert [ns] + Decoded(unquote, Split("", '/')) == [ns, ""];
    ReachingServed(base, unquote, map[], call, "", call.request.(trail := [ns, ""], defaultNs := Some(user)));
  }

  /** GET of a container that has its own row: 200; on the empty table: 404. */
  lemma ContainerRead(t: Rows, req: Request)
    requires |req.trail| >= 2 && Slashed(req.trail) && req.command == GET && req.message.Parsed?
    requires RStrip(PosixJoin("keys", req.trail)) in t && PosixJoin("keys", req.trail) != []
    ensures Handle(t, req).answer.code == 200 && Handle(map[], req) == Outcome(map[], Status(404), [])
  {
  }

  lemma AnswersCons(base: string, unquote: string -> string, t: Rows, call: Call, rest: seq<Call>, who: string)
    ensures AnswersTo(base, unquote, t, [call] + rest, who) ==
            (if call.user == who then [Serve(base, unquote, t, call).answer] else [])
            + AnswersTo(base, unquote, Serve(base, unquote, t, call).table, rest, who)
    ensures Without([call] + rest, who) == (if call.user == who then [] else [call]) + Without(rest, who)
  {
    assert ([call] + rest)[1..] == rest;
  }

  lemma LastCall(base: string, unquote: string -> string, t: Rows, call: Call, other: string)
    requires call.user != other
    ensures Without([call], other) == [call]
    ensures AnswersTo(base, unquote, t, [call], call.user) == [Serve(base, unquote, t, call).answer]
  {
    AnswersCons(base, unquote, t, call, [], call.user);
    AnswersCons(base, unquote, t, call, [], other);
    assert [call] + [] == [call];
    var answer := Serve(base, unquote, t, call).answer;
    assert [answer] + [] == [answer];
  }

  lemma TwoCalls(base: string, unquote: string -> string, t: Rows, first: Call, second: Call)
    requires first.user != second.user
    ensures Without([first] + [second], first.user) == [second]
    ensures AnswersTo(base, unquote, t, [first] + [second], second.user) ==
            [Serve(base, unquote, Serve(base, unquote, t, first).table, second).answer]
  {
    AnswersCons(base, unquote, t, first, [second], second.user);
    AnswersCons(base, unquote, t, first, [second], first.user);
    LastCall(base, unquote, Serve(base, unquote, t, first).table, second, first.user);
  }

  lemma ToldApart(base: string, unquote: string -> string, lets: string -> bool, calls: seq<Call>, a: string, b: string)
    requires Between(lets, calls, a, b)
    requires AnswersTo(base, unquote, map[], calls, b) != AnswersTo(base, unquote, map[], Without(calls, a), b)
    ensures !KeptApart(base, unquote, lets, a, b)
  {
  }

  lemma MeetingServed(base: string, unquote: string -> string, a: string, b: string)
    requires Site(base, unquote) && ProperUser(unquote, a) && ProperUser(unquote, b) && unquote("") == ""
    requires unquote(a) == unquote(b)
    ensures var post, get := Reaching(base, a, "", POST), Reaching(base, b, "", GET);
            && Serve(base, unquote, map[], get).answer.code == 404
            && Serve(base, unquote, Serve(base, unquote, map[], post).table, get).answer.code == 200
  {
    var post, get, ns := Reaching(base, a, "", POST), Reaching(base, b, "", GET), unquote(a);
    var t := Serve(base, unquote, map[], post).table;
    Opens(base, unquote, a);
    var req := get.request.(trail := [ns, ""], defaultNs := Some(b));
    assert [ns] + Decoded(unquote, Split("", '/')) == [ns, ""];
    ReachingServed(base, unquote, t, get, "", req);
    ReachingServed(base, unquote, map[], get, "", req);
    TrailOwned(ns, [ns, ""]);
    ContainerRead(t, req);
  }

  /** Names that decode to one: a container one user creates answers the other's listing. */
  lemma Meeting(base: string, unquote: string -> string, lets: string -> bool, a: string, b: string)
    requires Site(base, unquote) && a != b && unquote(a) == unquote(b)
    requires Reachable(base, unquote, lets, a) && Reachable(base, unquote, lets, b)
    ensures !KeptApart(base, unquote, lets, a, b)
  {
    var post, get := Reaching(base, a, "", POST), Reaching(base, b, "", GET);
    MeetingServed(base, unquote, a, b);
    SegmentSplit(unquote, lets, unquote(a), "");
    TwoCalls(base, unquote, map[], post, get);
    LastCall(base, unquote, map[], get, a);
    ReachingPasses(base, unquote, lets, a, "");
    ReachingPasses(base, unquote, lets, b, "");
    ToldApart(base, unquote, lets, [post] + [get], a, b);
  }

  lemma SegmentSplit(unquote: string -> string, lets: string -> bool, ns: string, seg: string)
    requires SlashFree(seg) && lets(seg) && lets("") && unquote("") == ""
    ensures LetsThrough(lets, seg + "/") && LetsThrough(lets, "")
    ensures [ns] + Decoded(unquote, Split(seg + "/", '/')) == [ns, unquote(seg), ""]
  {
    assert seg + "/" == seg + ['/'] + "";
    SplitSeparated(seg, "", '/');
    SplitWhole(seg, '/');
  }

  /** Every user's trail through an absolute component leads to the same row. */
  lemma SharedKey(ns: string, abs: string)
    requires Absolute(abs)
    ensures PosixJoin("keys", [ns, abs, ""]) == JoinOne(abs, "") != []
  {
    assert [ns, abs, ""][1..] == [abs, ""] && [abs, ""][1..] == [""] && [""][1..] == [];
    var a := JoinOne("keys", ns);
    assert PosixJoin("keys", [ns, abs, ""]) == PosixJoin(a, [abs, ""]) == PosixJoin(abs, [""]);
    assert PosixJoin(JoinOne(abs, ""), []) == JoinOne(abs, "");
  }

  /** A container below an absolute component, in an existing namespace. */
  lemma EscapedPost(t: Rows, req: Request, ns: string, abs: string)
    requires Named(ns) && Absolute(abs) && req.trail == [ns, abs, ""] && req.command == POST && MaybeBodyOk(req)
    requires RStrip(NamespaceKey(ns)) in t
    ensures RStrip(JoinOne(abs, "")) in Handle(t, req).table
  {
    SharedKey(ns, abs);
    assert req.trail[..2] == [ns, abs] && [ns, abs][..1] + [""] == [ns, ""];
    assert ListOf(t, ParentKey([ns, abs])).Some?;
    assert Create(t, req) == SpanReply(t, JoinOne(abs, ""));
  }

  /** An absolute component: a container one user creates through it answers the other's listing
      through it, though the names are kept apart. */
  lemma Escaping(base: string, unquote: string -> string, lets: string -> bool, a: string, b: string, seg: string)
    requires Site(base, unquote) && a != b && SlashFree(seg) && lets(seg) && Absolute(unquote(seg))
    requires Reachable(base, unquote, lets, a) && Reachable(base, unquote, lets, b)
    ensures !KeptApart(base, unquote, lets, a, b)
  {
    var open, post := Reaching(base, a, "", POST), Reaching(base, a, seg + "/", POST);
    var get := Reaching(base, b, seg + "/", GET);
    var t := Serve(base, unquote, map[], open).table;
    var u := Serve(base, unquote, t, post).table;
    Opens(base, unquote, a);
    SegmentSplit(unquote, lets, unquote(a), seg);
    SegmentSplit(unquote, lets, unquote(b), seg);
    var made := post.request.(trail := [unquote(a), unquote(seg), ""], defaultNs := Some(a));
    var read := get.request.(trail := [unquote(b), unquote(seg), ""], defaultNs := Some(b));
    ReachingServed(base, unquote, t, post, seg + "/", made);
    EscapedPost(t, made, unquote(a), unquote(seg));
    ReachingServed(base, unquote, u, get, seg + "/", read);
    ReachingServed(base, unquote, map[], get, seg + "/", read);
    SharedKey(unquote(b), unquote(seg));
    ContainerRead(u, read);
    ThreeCalls(base, unquote, open, post, get);
    ReachingPasses(base, unquote, lets, a, "");
    ReachingPasses(base, unquote, lets, a, seg + "/");
    ReachingPasses(base, unquote, lets, b, seg + "/");
    ToldApart(base, unquote, lets, [open] + ([post] + [get]), a, b);
  }

  lemma ThreeCalls(base: string, unquote: string -> string, first: Call, second: Call, third: Call)
    requires first.user == second.user != third.user
    ensures Without([first] + ([second] + [third]), first.user) == [third]
    ensures AnswersTo(base, unquote, map[], [third], third.user) == [Serve(base, unquote, map[], third).answer]
    ensures var t := Serve(base, unquote, map[], first).table;
            AnswersTo(base, unquote, map[], [first] + ([second] + [third]), third.user) ==
            [Serve(base, unquote, Serve(base, unquote, t, second).table, third).answer]
  {
    var t := Serve(base, unquote, map[], first).table;
    AnswersCons(base, unquote, map[], first, [second] + [third], third.user);
    AnswersCons(base, unquote, map[], first, [second] + [third], first.user);
    TwoCalls(base, unquote, t, second, third);
    LastCall(base, unquote, map[], third, first.user);
  }
}
