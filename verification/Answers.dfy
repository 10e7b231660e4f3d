/** What each status code of the `Secrets` consumer says about the tree, for well-formed requests on
    clean trails and any table. */
module Answers {
  import opened Text
  import opened Sqlite
  import opened Secrets
  import opened Tree
  import Base64
  import Headers

  // ---------------------------------------------------------------- requests, field by field

  /** The last component is not empty. */
  predicate NamesKey(trail: seq<string>) {
    trail != [] && trail[|trail| - 1] != ""
  }

  /** The path ended in a slash. */
  predicate NamesContainer(trail: seq<string>) {
    trail != [] && trail[|trail| - 1] == ""
  }

  /** What a PUT of this media type needs: a body, and for JSON one that decodes to a message that
      is allowed. */
  predicate Stores(req: Request, kind: string) {
    req.body.Some? && (kind == "application/octet-stream" || (kind == "application/json" && req.message.Parsed?))
  }

  /** What it stores: octets in Base64, a JSON value as it is. */
  function StoredCell(req: Request, kind: string): Cell<string>
    requires Stores(req, kind)
  {
    if kind == "application/octet-stream" then
      if req.body.value == [] then Blank else Held(Base64.Encode(req.body.value))
    else match req.message.payload
      case None => Null
      case Some(v) => if v == "" then Blank else Held(v)
  }

  lemma PayloadExactly(req: Request, kind: string)
    requires Headers.ContentType(req.contentType, kind)
    ensures PutPayload(req).Payload? <==> Stores(req, kind)
    ensures Stores(req, kind) ==> ToCell(PutPayload(req).value) == StoredCell(req, kind)
    ensures !Stores(req, kind) ==>
              PutPayload(req) ==
              Bad(if kind == "application/json" && req.body.Some? && req.message.Refused? then 406 else 400)
  {
    Headers.KindExactly(req.contentType, kind);
    if req.body.Some? && req.body.value != [] { Base64.EncodeNonempty(req.body.value); }
  }

  /** The container above a node is there, or is the caller's own namespace and will be made. */
  ghost predicate HasParent(t: Rows, defaultNs: Option<string>, cs: seq<string>) {
    |cs| < 2 || Occupied(t, cs[..|cs| - 1]) || (|cs| == 2 && defaultNs == Some(cs[0]))
  }

  // ---------------------------------------------------------------- creating

  /** PUT: 404 without a parent, 409 on an existing row of either kind, 201 otherwise, and then the
      row holds what was sent. */
  lemma PutAnswers(t: Rows, req: Request, kind: string)
    requires CleanTrail(req.trail) && NamesKey(req.trail) && req.command == PUT && |req.trail| >= 2
    requires req.client.Some? && Headers.ContentType(req.contentType, kind) && Stores(req, kind)
    ensures var o := Handle(t, req);
            && o.answer.code ==
               (if !HasParent(t, req.defaultNs, req.trail) then 404 else if KeyOf(req.trail) in t then 409 else 201)
            && (o.answer.code == 201 ==> Look(o.table, KeyOf(req.trail)) == Some(StoredCell(req, kind)))
  {
    PayloadExactly(req, kind);
    PutCodes(t, req);
    var e := HandleEffect(t, req);
  }

  lemma PutCodes(t: Rows, req: Request)
    requires CleanTrail(req.trail) && OnKey(req) && req.command == PUT && |req.trail| >= 2
    requires req.client.Some? && PutPayload(req).Payload?
    ensures Handle(t, req).answer.code ==
            if !HasParent(t, req.defaultNs, req.trail) then 404 else if KeyOf(req.trail) in t then 409 else 201
  {
    var cs := req.trail;
    TrailKey(cs);
    TargetClean(cs);
    KeyOfBare(cs);
    ParentEffect(t, req.defaultNs, cs);
    var p, cell := ParentExists(t, req.defaultNs, cs), ToCell(PutPayload(req).value);
    assert SetKey(t, req) == WriteReply(p, KeyOf(cs), cell, 409);
    WriteAnswers(t, req.defaultNs, cs, p, cell, 409);
  }

  /** POST: 404 without a parent, 200 on an existing row of either kind, 201 otherwise. */
  lemma PostAnswers(t: Rows, req: Request)
    requires CleanTrail(req.trail) && NamesContainer(req.trail) && req.command == POST && |req.trail| >= 2
    requires req.body.None? || req.message.Parsed?
    ensures Handle(t, req).answer.code ==
            if !HasParent(t, req.defaultNs, Target(req.trail)) then 404
            else if KeyOf(Target(req.trail)) in t then 200 else 201
  {
    var cs := Target(req.trail);
    CreateIsWrite(t, req);
    TargetClean(req.trail);
    if |cs| >= 2 {
      ParentEffect(t, req.defaultNs, cs);
      WriteAnswers(t, req.defaultNs, cs, ParentExists(t, req.defaultNs, cs), Blank, 200);
    }
    assert Handle(t, req).answer == Create(t, req).answer;
  }

  lemma WriteAnswers(t: Rows, defaultNs: Option<string>, cs: seq<string>, p: Parent, cell: Cell<string>, taken: int)
    requires |cs| >= 2 && ParentSays(t, defaultNs, cs, p)
    ensures WriteReply(p, KeyOf(cs), cell, taken).answer.code ==
            if !HasParent(t, defaultNs, cs) then 404 else if KeyOf(cs) in t then taken else 201
  {
  }

  // ---------------------------------------------------------------- deleting

  /** DELETE of a container: 409 with rows below it, 204 for a leaf, of either kind, 404 otherwise. */
  lemma DestroyAnswers(t: Rows, req: Request)
    requires CleanTrail(req.trail) && NamesContainer(req.trail) && |req.trail| >= 2
    requires req.command == DELETE && (req.body.None? || req.message.Parsed?)
    ensures var key := KeyOf(Target(req.trail));
            Handle(t, req).answer.code == if Below(t, key) != {} then 409 else if key in t then 204 else 404
  {
    var cs := Target(req.trail);
    TrailKey(req.trail);
    TargetClean(req.trail);
    OccupiedListed(t, cs, PosixJoin("keys", req.trail));
    BelowOccupies(t, cs);
  }

  lemma BelowOccupies(t: Rows, cs: seq<string>)
    ensures Below(t, KeyOf(cs)) != {} || KeyOf(cs) in t ==> Occupied(t, cs)
  {
    if k :| k in Below(t, KeyOf(cs)) {
      assert k in t && StrictlyBelow(KeyOf(cs), k);
    }
    if KeyOf(cs) in t {
      assert At(KeyOf(cs), KeyOf(cs));
    }
  }

  /** DELETE of a key: 204 if there is a row, of either kind and whatever is below it, else 404. */
  lemma DeleteAnswers(t: Rows, req: Request)
    requires CleanTrail(req.trail) && NamesKey(req.trail) && req.command == DELETE && |req.trail| >= 2
    requires req.client.Some? && (req.body.None? || req.message.Parsed?)
    ensures Handle(t, req).answer.code == if KeyOf(req.trail) in t then 204 else 404
  {
    TrailKey(req.trail);
  }

  /** POST and DELETE, on all trails they support, answer 406 exactly if there is a body that is not
      an allowed message, and then change nothing. */
  lemma BodyRefusedExactly(t: Rows, req: Request)
    requires (req.command == POST && NamesContainer(req.trail))
             || (req.command == DELETE && req.trail != [] && (NamesKey(req.trail) ==> req.client.Some?))
    ensures Handle(t, req).answer.code == 406 <==> req.body.Some? && !req.message.Parsed?
    ensures Handle(t, req).answer.code == 406 ==> Handle(t, req).table == t
  {
  }

  // ---------------------------------------------------------------- reading

  /** GET of a container: 404 if nothing is at or below it, else the rows strictly below. */
  lemma ListAnswers(t: Rows, req: Request)
    requires CleanTrail(req.trail) && NamesContainer(req.trail) && |req.trail| >= 2
    requires req.command == GET && req.message.Parsed?
    ensures var a, cs := Handle(t, req).answer, Target(req.trail);
            if Occupied(t, cs) then a.code == 200 && a.output.Names? && IsListing(t, KeyOf(cs), t.Keys, a.output.names)
            else a == Status(404)
  {
    TrailKey(req.trail);
    TargetClean(req.trail);
    OccupiedListed(t, Target(req.trail), PosixJoin("keys", req.trail));
    SlashedJoin(req.trail);
  }

  /** GET without a container: the caller's default namespace, 403 when there is none. */
  lemma DefaultListAnswers(t: Rows, req: Request)
    requires (req.trail == [] || req.trail == [""]) && req.command == GET && req.message.Parsed?
    requires req.defaultNs.Some? ==> CleanNames([req.defaultNs.value])
    ensures var a := Handle(t, req).answer;
            if req.defaultNs.None? then a == Status(403)
            else if Occupied(t, [req.defaultNs.value]) then
              a.code == 200 && a.output.Wrapped? && IsListing(t, KeyOf([req.defaultNs.value]), t.Keys, a.output.wrapped)
            else a == Status(404)
  {
    if req.defaultNs.Some? {
      var ns := req.defaultNs.value;
      ContainerKey([ns]);
      assert [ns] + [""] == [ns, ""];
      OccupiedListed(t, [ns], PosixJoin("keys", [ns, ""]));
    }
  }

  /** The request's Accept header, if any, lists these media types. */
  ghost predicate Accepting(req: Request, types: seq<string>) {
    if req.accept.Some? then Headers.Lists(req.accept.value, types) else types == []
  }

  lemma BinaryFor(req: Request, types: seq<string>)
    requires Accepting(req, types)
    ensures Headers.WantsBinary(req.accept) <==> "application/octet-stream" in types && "application/json" !in types
  {
    if req.accept.Some? { Headers.BinaryExactly(req.accept.value, types); }
  }

  lemma JoinEnd(trail: seq<string>)
    requires NamesKey(trail)
    ensures EndsWithSlash(SlashJoin(trail)) <==> EndsWithSlash(trail[|trail| - 1])
  {
    if |trail| > 1 {
      var init, last := trail[..|trail| - 1], trail[|trail| - 1];
      SlashJoinSnoc(init, last);
      assert init + [last] == trail;
      var joined := SlashJoin(init) + "/" + last;
      assert joined[|joined| - 1] == last[|last| - 1];
    }
  }

  /** GET of a key, on every trail: 404 without a value, 406 on a container, else the value, decoded
      if octets are accepted and JSON is not; 500 for one that does not decode and for a name that
      ends in an encoded slash. */
  lemma GetAnswers(t: Rows, req: Request, types: seq<string>)
    requires NamesKey(req.trail) && req.command == GET && |req.trail| >= 2
    requires req.client.Some? && req.message.Parsed? && Accepting(req, types)
    ensures Handle(t, req).table == t
    ensures Handle(t, req).answer ==
            match Look(t, PosixJoin("keys", req.trail))
            case None => Status(404)
            case Some(Null) => Status(404)
            case Some(Blank) => Status(406)
            case Some(Held(value)) =>
              if EndsWithSlash(req.trail[|req.trail| - 1]) then Status(500)
              else if !("application/octet-stream" in types && "application/json" !in types) then
                Answer(200, Secret(value))
              else if Base64.Decode(value).Some? then Answer(200, Bytes(Base64.Decode(value).value))
              else Status(500)
  {
    BinaryFor(req, types);
    JoinEnd(req.trail);
  }

  // ---------------------------------------------------------------- refused early

  /** A message or body the command cannot use. */
  predicate BadMessage(req: Request, kind: string) {
    match req.command
    case GET => !req.message.Parsed?
    case PUT => !Stores(req, kind)
    case _ => req.body.Some? && !req.message.Parsed?
  }

  /** A method the addressed kind of node does not support. */
  predicate Unsupported(req: Request) {
    match req.command
    case GET => false
    case PUT => !NamesKey(req.trail)
    case POST => !NamesContainer(req.trail)
    case DELETE => req.trail == []
  }

  /** A request on a key, by a client that has no name. */
  predicate Nameless(req: Request) {
    NamesKey(req.trail) && req.client.None?
  }

  /** Requests answered without looking at the table: 405 for a method that is not supported, 500
      for a key request by a client without a name, 400 for a PUT that brings nothing to store, 406
      for every other bad message and a PUT of a message that is refused, 403 outside a container. */
  lemma RefusedBeforeStore(t: Rows, req: Request, kind: string)
    requires Headers.ContentType(req.contentType, kind)
    requires Unsupported(req) || Nameless(req) || BadMessage(req, kind)
             || (|req.trail| < 2 && (req.command == GET ==> NamesKey(req.trail)))
    ensures Handle(t, req).table == t
    ensures var code := Handle(t, req).answer.code;
            if Unsupported(req) then code == 405
            else if Nameless(req) then code == 500
            else if BadMessage(req, kind) then
              code == if req.command != PUT || (kind == "application/json" && req.body.Some? && req.message.Refused?)
                      then 406 else 400
            else code == 403
  {
    PayloadExactly(req, kind);
  }
}
