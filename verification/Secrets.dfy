/** The `Secrets` consumer: a tree of containers and keys kept in the flat table.  Each request is
    given twice, as a function from table to table and answer, and as the method on a mutable
    store that is proved to compute that function. */
module Secrets {
  import opened Text
  import opened Sqlite
  import opened Headers
  import Base64

  type Rows = Table<string>

  datatype Command = GET | PUT | POST | DELETE

  /** The outcome of decoding and validating the query or the JSON body as a simple message. */
  datatype Parse = Parsed(payload: Option<string>) | Malformed | Refused

  /** `client` is `None` when no client name can be formed; `message` is what the query (GET) or
      the JSON body (the others) decodes to. */
  datatype Request = Request(
    command: Command,
    trail: seq<string>,
    defaultNs: Option<string>,
    client: Option<string>,
    contentType: string,
    accept: Option<string>,
    body: Option<seq<Base64.byte>>,
    message: Parse)

  /** `Names` goes out as a JSON list, `Wrapped` and `Secret` inside a simple message, `Bytes` as
      they are; `Text` is a bare string, which the HTTP layer cannot send. */
  datatype Output = Nothing | Names(names: seq<string>) | Wrapped(wrapped: seq<string>)
                  | Secret(secret: string) | Text(text: string) | Bytes(bytes: seq<Base64.byte>)

  datatype Answer = Answer(code: int, output: Output)

  /** An answer without output. */
  function Status(code: int): Answer { Answer(code, Nothing) }

  predicate Success(a: Answer) { 200 <= a.code < 300 }

  datatype Action = GetAllowed | GetDenied | SetAllowed | SetDenied | DelAllowed | DelDenied

  datatype Record = Record(action: Action, client: string, key: string)

  datatype ReplyOn<T> = Reply(table: Table<T>, answer: Answer)

  type Reply = ReplyOn<string>

  datatype OutcomeOn<T> = Outcome(table: Table<T>, answer: Answer, records: seq<Record>)

  // ---------------------------------------------------------------- keys

  /** `None` stands for the 403 raised outside a container. */
  function DbKey(trail: seq<string>): Option<string> {
    if |trail| < 2 then None else Some(PosixJoin("keys", trail))
  }

  function DbContainerKey(defaultNs: Option<string>, trail: seq<string>): Option<string> {
    if |trail| > 1 then DbKey(trail)
    else if |trail| == 1 && trail[0] != [] then None
    else if defaultNs.None? then None
    else DbKey([defaultNs.value, ""])
  }

  function ParentKey(trail: seq<string>): string
    requires |trail| >= 2
  {
    PosixJoin("keys", trail[..|trail| - 1] + [""])
  }

  function NamespaceKey(ns: string): string {
    PosixJoin("keys", [ns, ""])
  }

  predicate CreatesNamespace(defaultNs: Option<string>, trail: seq<string>) {
    |trail| == 2 && defaultNs == Some(trail[0])
  }

  datatype Verdict = Present | Missing | Clash

  datatype ParentOn<T> = Parent(table: Table<T>, verdict: Verdict)

  type Parent = ParentOn<string>

  ghost function ParentExists<T>(t: Table<T>, defaultNs: Option<string>, trail: seq<string>): ParentOn<T>
    requires |trail| >= 2
  {
    if ListOf(t, ParentKey(trail)).Some? then Parent(t, Present)
    else if CreatesNamespace(defaultNs, trail) then
      var w := SpanOf(t, NamespaceKey(trail[0]));
      Parent(w.table, if w.outcome.Stored? then Present else Clash)
    else Parent(t, Missing)
  }

  // ---------------------------------------------------------------- messages

  datatype Payload = Payload(value: Option<string>) | Bad(code: int)

  function PutPayload(req: Request): Payload {
    var kind := Strip(Split(req.contentType, ';')[0]);
    if kind == OCTETS then
      if req.body.None? then Bad(400) else Payload(Some(Base64.Encode(req.body.value)))
    else if kind == JSON then
      if req.body.None? then Bad(400)
      else match req.message
        case Parsed(p) => Payload(p)
        case Malformed => Bad(400)
        case Refused => Bad(406)
    else Bad(400)
  }

  /** POST and DELETE accept a missing body. */
  predicate MaybeBodyOk(req: Request) {
    req.body.None? || req.message.Parsed?
  }

  function ToCell(payload: Option<string>): Cell<string> {
    match payload
    case None => Null
    case Some(s) => if s == [] then Blank else Held(s)
  }

  // ---------------------------------------------------------------- operations as functions

  function FormatListing(trail: seq<string>, names: seq<string>): Output {
    if EndsWithSlash(SlashJoin(trail)) then Names(names) else Wrapped(names)
  }

  ghost function List<T>(t: Table<T>, req: Request): Answer {
    if !req.message.Parsed? then Status(406)
    else match DbContainerKey(req.defaultNs, req.trail)
      case None => Status(403)
      case Some(basename) =>
        match ListOf(t, basename)
        case None => Status(404)
        case Some(names) => Answer(200, FormatListing(req.trail, names))
  }

  ghost function Create<T>(t: Table<T>, req: Request): ReplyOn<T> {
    if !MaybeBodyOk(req) then Reply(t, Status(406))
    else match DbContainerKey(None, req.trail)
      case None => Reply(t, Status(403))
      case Some(basename) =>
        if |req.trail| > 2 then
          SpanAfter(ParentExists(t, req.defaultNs, req.trail[..|req.trail| - 1]), basename)
        else SpanReply(t, basename)
  }

  function SpanAfter<T>(p: ParentOn<T>, basename: string): ReplyOn<T> {
    match p.verdict
    case Missing => Reply(p.table, Status(404))
    case Clash => Reply(p.table, Status(200))
    case Present => SpanReply(p.table, basename)
  }

  function SpanReply<T>(t: Table<T>, basename: string): ReplyOn<T> {
    var w := SpanOf(t, basename);
    Reply(w.table, Status(if w.outcome.Stored? then 201 else 200))
  }

  ghost function Destroy<T>(t: Table<T>, req: Request): ReplyOn<T> {
    if !MaybeBodyOk(req) then Reply(t, Status(406))
    else match DbContainerKey(None, req.trail)
      case None => Reply(t, Status(403))
      case Some(basename) =>
        match ListOf(t, basename)
        case None => Reply(t, Status(404))
        case Some(names) =>
          if names != [] then Reply(t, Status(409)) else CutReply(t, RStrip(basename))
  }

  function CutReply<T>(t: Table<T>, key: string): ReplyOn<T> {
    var c := CutOf(t, key);
    Reply(c.table, Status(if c.removed then 204 else 404))
  }

  function FormatReply(req: Request, value: string): Answer {
    var bare := EndsWithSlash(SlashJoin(req.trail));
    if WantsBinary(req.accept) then
      if bare then Status(500)
      else match Base64.Decode(value)
        case None => Status(500)
        case Some(bytes) => Answer(200, Bytes(bytes))
    else Answer(200, if bare then Text(value) else Secret(value))
  }

  function GetKey(t: Rows, req: Request): Answer {
    if !req.message.Parsed? then Status(406)
    else match DbKey(req.trail)
      case None => Status(403)
      case Some(key) =>
        match Look(t, key)
        case None => Status(404)
        case Some(Null) => Status(404)
        case Some(Blank) => Status(406)
        case Some(Held(value)) => FormatReply(req, value)
  }

  ghost function SetKey(t: Rows, req: Request): Reply {
    match PutPayload(req)
    case Bad(code) => Reply(t, Status(code))
    case Payload(value) =>
      match DbKey(req.trail)
      case None => Reply(t, Status(403))
      case Some(key) => SetAfter(ParentExists(t, req.defaultNs, req.trail), key, ToCell(value))
  }

  function SetAfter(p: Parent, key: string, cell: Cell<string>): Reply {
    match p.verdict
    case Missing => Reply(p.table, Status(404))
    case Clash => Reply(p.table, Status(409))
    case Present => SetReply(p.table, key, cell)
  }

  function SetReply(t: Rows, key: string, cell: Cell<string>): Reply {
    var w := SetOf(t, key, cell, false);
    Reply(w.table, Status(match w.outcome case Stored => 201 case AlreadyExists => 409 case BadKey => 500))
  }

  function DelKey<T>(t: Table<T>, req: Request): ReplyOn<T> {
    if !MaybeBodyOk(req) then Reply(t, Status(406))
    else match DbKey(req.trail)
      case None => Reply(t, Status(403))
      case Some(key) => CutReply(t, key)
  }

  /** `trail[-1]` names a container. */
  predicate Slashed(trail: seq<string>) {
    trail != [] && trail[|trail| - 1] == []
  }

  /** Requests on keys, the ones that are audited. */
  predicate OnKey(req: Request) {
    req.trail != [] && !Slashed(req.trail) && req.command != POST
  }

  function AuditAction(command: Command, ok: bool): Action
    requires command != POST
  {
    match command
    case GET => if ok then GetAllowed else GetDenied
    case PUT => if ok then SetAllowed else SetDenied
    case DELETE => if ok then DelAllowed else DelDenied
  }

  ghost function KeyOperation(t: Rows, req: Request): Reply
    requires OnKey(req)
  {
    match req.command
    case GET => Reply(t, GetKey(t, req))
    case PUT => SetKey(t, req)
    case DELETE => DelKey(t, req)
  }

  ghost function ContainerOperation<T>(t: Table<T>, req: Request): ReplyOn<T>
    requires !OnKey(req)
  {
    match req.command
    case GET => Reply(t, List(t, req))
    case PUT => Reply(t, Status(405))
    case POST => if Slashed(req.trail) then Create(t, req) else Reply(t, Status(405))
    case DELETE => if Slashed(req.trail) then Destroy(t, req) else Reply(t, Status(405))
  }

  /** The HTTP layer cannot send a bare string. */
  function Sendable(a: Answer): Answer {
    if a.output.Text? then Status(500) else a
  }

  /** One whole request, run without interruption. */
  ghost function Handle(t: Rows, req: Request): OutcomeOn<string> {
    if !OnKey(req) then
      var r := ContainerOperation(t, req);
      Outcome(r.table, r.answer, [])
    else if req.client.None? then
      Outcome(t, Status(500), [])
    else
      var r := KeyOperation(t, req);
      Outcome(r.table, Sendable(r.answer),
              [Record(AuditAction(req.command, Success(r.answer)), req.client.value, SlashJoin(req.trail))])
  }

  // ---------------------------------------------------------------- operations on the store

  /** `_format_reply`'s loop over the Accept header. */
  method AcceptsBinary(accept: Option<string>) returns (binary: bool)
    ensures binary <==> WantsBinary(accept)
    ensures accept.None? ==> !binary
    ensures forall types :: accept.Some? && Lists(accept.value, types) ==>
              (binary <==> "application/octet-stream" in types && "application/json" !in types)
  {
    if accept.Some? { ListsExactly(accept.value); }
    binary := false;
    if accept.Some? {
      var pieces := Split(accept.value, ',');
      ghost var types := AcceptedTypes(accept.value);
      for i := 0 to |pieces|
        invariant |types| == |pieces|
        invariant JSON !in types[..i]
        invariant binary <==> OCTETS in types[..i]
      {
        assert types[i] == Strip(pieces[i]);
        assert types[..i + 1] == types[..i] + [types[i]];
        if Strip(pieces[i]) == JSON {
          assert types[i] in types;
          binary := false;
          return;
        } else if Strip(pieces[i]) == OCTETS {
          binary := true;
        }
      }
      assert types[..|pieces|] == types;
    }
  }

  class SecretsConsumer {
    const store: SqliteStore<string>
    var auditLog: seq<Record>

    constructor (store: SqliteStore<string>)
      ensures this.store == store && auditLog == []
    {
      this.store := store;
      auditLog := [];
    }

    method CheckParent(defaultNs: Option<string>, trail: seq<string>) returns (verdict: Verdict)
      requires |trail| >= 2
      modifies store
      ensures Parent(store.rows, verdict) == ParentExists(old(store.rows), defaultNs, trail)
    {
      var names := store.List(ParentKey(trail));
      if names.Some? { return Present; }
      if CreatesNamespace(defaultNs, trail) {
        var outcome := store.Span(NamespaceKey(trail[0]));
        return if outcome.Stored? then Present else Clash;
      }
      return Missing;
    }

    method DoList(req: Request) returns (answer: Answer)
      ensures answer == List(store.rows, req)
    {
      if !req.message.Parsed? { return Status(406); }
      var basename := DbContainerKey(req.defaultNs, req.trail);
      if basename.None? { return Status(403); }
      var names := store.List(basename.value);
      if names.None? { return Status(404); }
      return Answer(200, FormatListing(req.trail, names.value));
    }

    method DoCreate(req: Request) returns (answer: Answer)
      modifies store
      ensures Reply(store.rows, answer) == Create(old(store.rows), req)
    {
      if !MaybeBodyOk(req) { return Status(406); }
      var basename := DbContainerKey(None, req.trail);
      if basename.None? { return Status(403); }
      if |req.trail| > 2 {
        var verdict := CheckParent(req.defaultNs, req.trail[..|req.trail| - 1]);
        if verdict.Missing? { return Status(404); }
        if verdict.Clash? { return Status(200); }
      }
      var outcome := store.Span(basename.value);
      return Status(if outcome.Stored? then 201 else 200);
    }

    method DoDestroy(req: Request) returns (answer: Answer)
      modifies store
      ensures Reply(store.rows, answer) == Destroy(old(store.rows), req)
    {
      if !MaybeBodyOk(req) { return Status(406); }
      var basename := DbContainerKey(None, req.trail);
      if basename.None? { return Status(403); }
      var names := store.List(basename.value);
      if names.None? { return Status(404); }
      if names.value != [] { return Status(409); }
      var removed := store.Cut(RStrip(basename.value));
      return Status(if removed then 204 else 404);
    }

    method DoGetKey(req: Request) returns (answer: Answer)
      ensures answer == GetKey(store.rows, req)
    {
      if !req.message.Parsed? { return Status(406); }
      var key := DbKey(req.trail);
      if key.None? { return Status(403); }
      var output := store.Get(key.value);
      if output.None? { return Status(404); }
      if output.value.Blank? { return Status(406); }
      var value := output.value.value;
      var bare := EndsWithSlash(SlashJoin(req.trail));
      var binary := AcceptsBinary(req.accept);
      if !binary { return Answer(200, if bare then Text(value) else Secret(value)); }
      if bare { return Status(500); }
      var bytes := Base64.Decode(value);
      return if bytes.None? then Status(500) else Answer(200, Bytes(bytes.value));
    }

    method DoSetKey(req: Request) returns (answer: Answer)
      modifies store
      ensures Reply(store.rows, answer) == SetKey(old(store.rows), req)
    {
      var payload := PutPayload(req);
      if payload.Bad? { return Status(payload.code); }
      var key := DbKey(req.trail);
      if key.None? { return Status(403); }
      var verdict := CheckParent(req.defaultNs, req.trail);
      if verdict.Missing? { return Status(404); }
      if verdict.Clash? { return Status(409); }
      var outcome := store.Set(key.value, ToCell(payload.value), false);
      return Status(match outcome case Stored => 201 case AlreadyExists => 409 case BadKey => 500);
    }

    method DoDelKey(req: Request) returns (answer: Answer)
      modifies store
      ensures Reply(store.rows, answer) == DelKey(old(store.rows), req)
    {
      if !MaybeBodyOk(req) { return Status(406); }
      var key := DbKey(req.trail);
      if key.None? { return Status(403); }
      var removed := store.Cut(key.value);
      return Status(if removed then 204 else 404);
    }

    /** Dispatch, with the audit record appended whether or not the operation raised. */
    method Serve(req: Request) returns (answer: Answer)
      modifies this, store
      ensures old(auditLog) <= auditLog
      ensures Outcome(store.rows, answer, auditLog[|old(auditLog)|..]) == Handle(old(store.rows), req)
    {
      if OnKey(req) {
        if req.client.None? {
          return Status(500);
        }
        match req.command {
          case GET => answer := DoGetKey(req);
          case PUT => answer := DoSetKey(req);
          case DELETE => answer := DoDelKey(req);
        }
        var action := AuditAction(req.command, Success(answer));
        auditLog := auditLog + [Record(action, req.client.value, SlashJoin(req.trail))];
        answer := Sendable(answer);
      } else {
        match req.command {
          case GET => answer := DoList(req);
          case PUT => answer := Status(405);
          case POST =>
            if Slashed(req.trail) { answer := DoCreate(req); } else { answer := Status(405); }
          case DELETE =>
            if Slashed(req.trail) { answer := DoDestroy(req); } else { answer := Status(405); }
        }
      }
    }
  }
}
