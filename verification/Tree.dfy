/** How requests on clean trails act on the tree: the flat keys are a faithful encoding of trails,
    and every request leaves the table alone, adds one row, adds one row together with a missing
    default namespace, or removes one row. */
module Tree {
  import opened Text
  import opened Sqlite
  import opened Secrets

  function KeyOf(cs: seq<string>): string {
    "keys/" + SlashJoin(cs)
  }

  /** The trail a row key stands for. */
  function Comps(key: string): seq<string>
    requires "keys/" <= key
  {
    Split(key[5..], '/')
  }

  predicate IsNode(key: string) {
    "keys/" <= key && CleanNames(Comps(key))
  }

  /** Keys and clean trails determine each other. */
  lemma KeyOfComps(cs: seq<string>)
    requires CleanNames(cs)
    ensures IsNode(KeyOf(cs)) && Comps(KeyOf(cs)) == cs
  {
    assert KeyOf(cs)[5..] == SlashJoin(cs);
    SplitJoin(cs);
  }

  lemma CompsKeyOf(key: string)
    requires IsNode(key)
    ensures KeyOf(Comps(key)) == key
  {
    JoinSplit(key[5..]);
  }

  lemma {:induction false} KeyOfBare(cs: seq<string>)
    requires CleanNames(cs)
    ensures SlashJoin(cs) != [] && !EndsWithSlash(SlashJoin(cs))
    ensures !EndsWithSlash(KeyOf(cs)) && RStrip(KeyOf(cs) + "/") == KeyOf(cs) == RStrip(KeyOf(cs))
  {
    if |cs| > 1 {
      KeyOfBare(cs[1..]);
    }
    assert !EndsWithSlash(SlashJoin(cs));
    RStripOne(KeyOf(cs));
  }

  /** Being strictly below, read off the strings, is being a longer trail. */
  lemma KeyOfBelow(a: seq<string>, b: seq<string>)
    requires CleanNames(a) && CleanNames(b)
    ensures At(KeyOf(a), KeyOf(b)) <==> a == b
    ensures StrictlyBelow(KeyOf(a), KeyOf(b)) <==> a < b
  {
    KeyOfBare(a);
    KeyOfBare(b);
    KeyOfComps(a);
    KeyOfComps(b);
    SlashJoinBelow(a, b);
    assert KeyOf(a) + "/" == "keys/" + (SlashJoin(a) + "/");
    PrefixCancels("keys/", SlashJoin(a) + "/", SlashJoin(b));
  }

  lemma PrefixCancels(p: string, a: string, b: string)
    ensures p + a <= p + b <==> a <= b
  {
    if p + a <= p + b {
      assert a == (p + a)[|p|..] && b == (p + b)[|p|..];
    }
  }

  // ---------------------------------------------------------------- trails

  /** The node a trail addresses, with or without the trailing slash. */
  function Target(trail: seq<string>): seq<string> {
    if Slashed(trail) then trail[..|trail| - 1] else trail
  }

  lemma TargetClean(trail: seq<string>)
    requires CleanTrail(trail) && Target(trail) != []
    ensures CleanNames(Target(trail))
  {
  }

  /** What `_db_key` computes on a clean trail. */
  lemma TrailKey(trail: seq<string>)
    requires CleanTrail(trail) && Target(trail) != []
    ensures PosixJoin("keys", trail) == if Slashed(trail) then KeyOf(Target(trail)) + "/" else KeyOf(trail)
    ensures RStrip(PosixJoin("keys", trail)) == KeyOf(Target(trail))
  {
    PosixJoinClean("keys", trail);
    TargetClean(trail);
    KeyOfBare(Target(trail));
    assert "keys" + "/" == "keys/";
    if Slashed(trail) {
      SlashedJoin(trail);
    }
  }

  lemma SlashedJoin(trail: seq<string>)
    requires Slashed(trail) && |trail| >= 2
    ensures SlashJoin(trail) == SlashJoin(Target(trail)) + "/"
    ensures "keys/" + SlashJoin(trail) == KeyOf(Target(trail)) + "/"
  {
    var cs := Target(trail);
    assert SlashJoin(trail) == SlashJoin(cs) + "/" + "" by {
      SlashJoinSnoc(cs, "");
      assert cs + [""] == trail;
    }
    Append(SlashJoin(cs));
  }

  lemma Append(j: string)
    ensures j + "/" + "" == j + "/"
    ensures "keys/" + (j + "/") == "keys/" + j + "/"
  {
  }

  lemma ContainerKey(cs: seq<string>)
    requires CleanNames(cs)
    ensures RStrip(PosixJoin("keys", cs + [""])) == KeyOf(cs)
  {
    TrailKey(cs + [""]);
    assert Target(cs + [""]) == cs;
  }

  lemma ParentTrailKey(cs: seq<string>)
    requires CleanNames(cs) && |cs| >= 2
    ensures CleanNames(cs[..|cs| - 1])
    ensures RStrip(ParentKey(cs)) == KeyOf(cs[..|cs| - 1])
    ensures RStrip(NamespaceKey(cs[0])) == KeyOf(cs[..1])
  {
    ContainerKey(cs[..|cs| - 1]);
    ContainerKey(cs[..1]);
    assert cs[..1] + [""] == [cs[0], ""];
  }

  // ---------------------------------------------------------------- effects

  datatype Effect = Same
                  | Added(node: seq<string>, cell: Cell<string>)
                  | AddedWithNamespace(ns: string, name: string, cell: Cell<string>)
                  | Removed(node: seq<string>)

  /** Some row is at or below the node. */
  ghost predicate Occupied(t: Rows, cs: seq<string>) {
    exists k :: k in t && (At(KeyOf(cs), k) || StrictlyBelow(KeyOf(cs), k))
  }

  function Apply(t: Rows, e: Effect): Rows {
    match e
    case Same => t
    case Added(cs, cell) => t[KeyOf(cs) := cell]
    case AddedWithNamespace(ns, name, cell) => t[KeyOf([ns]) := Blank][KeyOf([ns, name]) := cell]
    case Removed(cs) => t - {KeyOf(cs)}
  }

  /** When an effect can happen. */
  ghost predicate Enabled(t: Rows, e: Effect) {
    match e
    case Same => true
    case Added(cs, _) => CleanNames(cs) && KeyOf(cs) !in t && (|cs| >= 2 ==> Occupied(t, cs[..|cs| - 1]))
    case AddedWithNamespace(ns, name, _) => CleanNames([ns, name]) && !Occupied(t, [ns])
    case Removed(cs) => CleanNames(cs) && KeyOf(cs) in t
  }

  /** What a creating request stores. */
  function NewCell(req: Request): Cell<string> {
    if req.command == PUT && PutPayload(req).Payload? then ToCell(PutPayload(req).value) else Blank
  }

  /** The requests and answers an effect goes with. */
  ghost predicate Announced(t: Rows, req: Request, code: int, e: Effect) {
    match e
    case Same => code != 201 && code != 204
    case Added(cs, cell) =>
      code == 201 && cs == Target(req.trail) && cell == NewCell(req) && Creates(req)
    case AddedWithNamespace(ns, name, cell) =>
      code == 201 && [ns, name] == Target(req.trail) && cell == NewCell(req) && Creates(req)
      && req.defaultNs == Some(ns)
    case Removed(cs) =>
      code == 204 && cs == Target(req.trail) && req.command == DELETE
      && (Slashed(req.trail) ==> Below(t, KeyOf(cs)) == {})
  }

  predicate Creates(req: Request) {
    if Slashed(req.trail) then req.command == POST else req.command == PUT
  }

  lemma OccupiedListed(t: Rows, cs: seq<string>, keyfilter: string)
    requires CleanNames(cs) && RStrip(keyfilter) == KeyOf(cs)
    ensures ListOf(t, keyfilter).Some? <==> Occupied(t, cs)
    ensures ListOf(t, keyfilter).Some? ==> (ListOf(t, keyfilter).value == [] <==> Below(t, KeyOf(cs)) == {})
  {
    ListOfAbsent(t, keyfilter);
  }

  /** The parent check on a clean node: present, or created because it was the only missing piece. */
  ghost predicate ParentSays(t: Rows, defaultNs: Option<string>, cs: seq<string>, p: Parent)
    requires |cs| >= 2
  {
    if Occupied(t, cs[..|cs| - 1]) then p == Parent(t, Present)
    else if CreatesNamespace(defaultNs, cs) then
      p == Parent(t[KeyOf([cs[0]]) := Blank], Present)
      && !Occupied(t, [cs[0]]) && KeyOf(cs) !in t && KeyOf(cs) != KeyOf([cs[0]]) && cs == [cs[0], cs[1]]
    else p == Parent(t, Missing)
  }

  lemma ParentEffect(t: Rows, defaultNs: Option<string>, cs: seq<string>)
    requires CleanNames(cs) && |cs| >= 2
    ensures ParentSays(t, defaultNs, cs, ParentExists(t, defaultNs, cs))
  {
    var parent := cs[..|cs| - 1];
    ParentTrailKey(cs);
    OccupiedListed(t, parent, ParentKey(cs));
    if CreatesNamespace(defaultNs, cs) && !Occupied(t, parent) {
      assert parent == cs[..1] == [cs[0]];
      assert KeyOf(parent) !in t by { assert At(KeyOf(parent), KeyOf(parent)); }
      KeyOfBelow(parent, cs);
    }
  }

  /** Writing a node after its parent check, by `set` or by `span`. */
  ghost function WriteReply(p: Parent, key: string, cell: Cell<string>, taken: int): Reply {
    match p.verdict
    case Missing => Reply(p.table, Status(404))
    case Clash => Reply(p.table, Status(taken))
    case Present => if key in p.table then Reply(p.table, Status(taken)) else Reply(p.table[key := cell], Status(201))
  }

  lemma WriteEffect(t: Rows, defaultNs: Option<string>, cs: seq<string>, p: Parent, cell: Cell<string>, taken: int)
    returns (e: Effect)
    requires CleanNames(cs) && |cs| >= 2 && taken != 201 && taken != 204
    requires ParentSays(t, defaultNs, cs, p)
    ensures Enabled(t, e) && WriteReply(p, KeyOf(cs), cell, taken).table == Apply(t, e)
    ensures var code := WriteReply(p, KeyOf(cs), cell, taken).answer.code;
            match e
            case Same => code != 201 && code != 204
            case Added(node, c) => code == 201 && node == cs && c == cell
            case AddedWithNamespace(ns, name, c) =>
              code == 201 && [ns, name] == cs && c == cell && defaultNs == Some(ns)
            case Removed(_) => false
  {
    if Occupied(t, cs[..|cs| - 1]) {
      e := if KeyOf(cs) in t then Same else Added(cs, cell);
    } else if CreatesNamespace(defaultNs, cs) {
      e := AddedWithNamespace(cs[0], cs[1], cell);
    } else {
      e := Same;
    }
  }

  /** POST on a clean trail is the parent check, where there is a parent, and the write. */
  lemma CreateIsWrite(t: Rows, req: Request)
    requires CleanTrail(req.trail) && Slashed(req.trail) && |req.trail| >= 2 && MaybeBodyOk(req)
    ensures var cs := Target(req.trail);
            var p := if |cs| >= 2 then ParentExists(t, req.defaultNs, cs) else Parent(t, Present);
            Create(t, req) == WriteReply(p, KeyOf(cs), Blank, 200)
  {
    var cs, basename := Target(req.trail), PosixJoin("keys", req.trail);
    CreateShape(t, req, basename);
    TrailKey(req.trail);
    SpanIsWrite(if |cs| >= 2 then ParentExists(t, req.defaultNs, cs) else Parent(t, Present), basename, cs);
  }

  lemma CreateShape(t: Rows, req: Request, basename: string)
    requires |req.trail| >= 2 && Slashed(req.trail) && MaybeBodyOk(req) && DbKey(req.trail) == Some(basename)
    ensures var p := if |req.trail| > 2 then ParentExists(t, req.defaultNs, Target(req.trail)) else Parent(t, Present);
            Create(t, req) == SpanAfter(p, basename)
  {
  }

  lemma SpanIsWrite(p: Parent, basename: string, cs: seq<string>)
    requires RStrip(basename) == KeyOf(cs)
    ensures WriteReply(p, KeyOf(cs), Blank, 200) == SpanAfter(p, basename)
  {
  }

  lemma CreateEffect(t: Rows, req: Request) returns (e: Effect)
    requires CleanTrail(req.trail) && Slashed(req.trail) && req.command == POST
    ensures Enabled(t, e) && Create(t, req).table == Apply(t, e) && Announced(t, req, Create(t, req).answer.code, e)
  {
    var cs := Target(req.trail);
    if !MaybeBodyOk(req) || cs == [] {
      e := Same;
    } else {
      CreateIsWrite(t, req);
      TargetClean(req.trail);
      if |cs| >= 2 {
        ParentEffect(t, req.defaultNs, cs);
        e := WriteEffect(t, req.defaultNs, cs, ParentExists(t, req.defaultNs, cs), Blank, 200);
      } else {
        e := if KeyOf(cs) in t then Same else Added(cs, Blank);
      }
    }
  }

  lemma SetKeyEffect(t: Rows, req: Request) returns (e: Effect)
    requires CleanTrail(req.trail) && OnKey(req) && req.command == PUT
    ensures Enabled(t, e) && SetKey(t, req).table == Apply(t, e) && Announced(t, req, SetKey(t, req).answer.code, e)
  {
    if PutPayload(req).Bad? || |req.trail| < 2 {
      e := Same;
    } else {
      TrailKey(req.trail);
      TargetClean(req.trail);
      KeyOfBare(req.trail);
      var cs, cell := req.trail, NewCell(req);
      var p := ParentExists(t, req.defaultNs, cs);
      ParentEffect(t, req.defaultNs, cs);
      assert SetKey(t, req) == WriteReply(p, KeyOf(cs), cell, 409);
      e := WriteEffect(t, req.defaultNs, cs, p, cell, 409);
    }
  }

  lemma DestroyEffect(t: Rows, req: Request) returns (e: Effect)
    requires CleanTrail(req.trail) && req.command == DELETE && Slashed(req.trail)
    ensures Enabled(t, e) && Destroy(t, req).table == Apply(t, e) && Announced(t, req, Destroy(t, req).answer.code, e)
  {
    var cs := Target(req.trail);
    if !MaybeBodyOk(req) || cs == [] {
      e := Same;
    } else {
      var basename := PosixJoin("keys", req.trail);
      TrailKey(req.trail);
      TargetClean(req.trail);
      OccupiedListed(t, cs, basename);
      assert t - {KeyOf(cs)} == t || KeyOf(cs) in t;
      e := if ListOf(t, basename) == Some([]) && KeyOf(cs) in t then Removed(cs) else Same;
    }
  }

  lemma DelKeyEffect(t: Rows, req: Request) returns (e: Effect)
    requires CleanTrail(req.trail) && req.command == DELETE && OnKey(req)
    ensures Enabled(t, e) && DelKey(t, req).table == Apply(t, e) && Announced(t, req, DelKey(t, req).answer.code, e)
  {
    if !MaybeBodyOk(req) || |req.trail| < 2 {
      e := Same;
    } else {
      var cs := req.trail;
      TrailKey(cs);
      TargetClean(cs);
      assert t - {KeyOf(cs)} == t || KeyOf(cs) in t;
      e := if KeyOf(cs) in t then Removed(cs) else Same;
    }
  }

  /** Every request on a clean trail has one of the four effects, and its answer says which. */
  lemma HandleEffect(t: Rows, req: Request) returns (e: Effect)
    requires CleanTrail(req.trail)
    ensures Enabled(t, e) && Handle(t, req).table == Apply(t, e)
    ensures Announced(t, req, Handle(t, req).answer.code, e)
  {
    if OnKey(req) && req.client.None? {
      e := Same;
    } else if OnKey(req) && req.command == PUT {
      e := SetKeyEffect(t, req);
    } else if req.command == POST && Slashed(req.trail) {
      e := CreateEffect(t, req);
    } else if req.command == DELETE && Slashed(req.trail) {
      e := DestroyEffect(t, req);
    } else if req.command == DELETE && OnKey(req) {
      e := DelKeyEffect(t, req);
    } else {
      e := Same;
    }
  }
}
