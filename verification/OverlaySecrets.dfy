/** The `Secrets` consumer on top of the encrypting overlay: to its clients, the overlay is not
    there. */
module OverlaySecrets {
  import opened Text
  import opened Sqlite
  import opened Secrets
  import Overlay

  /** `_int_get_key` reading through the overlay, whose errors answer 500. */
  function GetKeyOver(o: Overlay.Backing, mkey: nat, mode: Overlay.Mode, req: Request): ReplyOn<Overlay.Token> {
    if !req.message.Parsed? then Reply(o, Status(406))
    else match DbKey(req.trail)
      case None => Reply(o, Status(403))
      case Some(key) =>
        var r := Overlay.GetOf(o, mkey, mode, key);
        Reply(r.table, match r.got
                       case Absent => Status(404)
                       case Error => Status(500)
                       case Value(v) => if v == [] then Status(406) else FormatReply(req, v))
  }

  /** `_int_set_key` writing through the overlay. */
  ghost function SetKeyOver(o: Overlay.Backing, mkey: nat, mode: Overlay.Mode, req: Request): ReplyOn<Overlay.Token> {
    match PutPayload(req)
    case Bad(code) => Reply(o, Status(code))
    case Payload(value) =>
      match DbKey(req.trail)
      case None => Reply(o, Status(403))
      case Some(key) => SetAfterOver(ParentExists(o, req.defaultNs, req.trail), mkey, mode, key, value)
  }

  /** The overlay cannot encrypt a null value. */
  function SetAfterOver(p: ParentOn<Overlay.Token>, mkey: nat, mode: Overlay.Mode, key: string,
                        value: Option<string>): ReplyOn<Overlay.Token>
  {
    match p.verdict
    case Missing => Reply(p.table, Status(404))
    case Clash => Reply(p.table, Status(409))
    case Present =>
      if value.None? then Reply(p.table, Status(500))
      else
        var w := SetOf(p.table, key, Held(Overlay.Seal(mkey, mode, key, value.value)), false);
        Reply(w.table, Status(match w.outcome case Stored => 201 case AlreadyExists => 409 case BadKey => 500))
  }

  ghost function HandleOver(o: Overlay.Backing, mkey: nat, mode: Overlay.Mode, req: Request): OutcomeOn<Overlay.Token> {
    if !OnKey(req) then
      var r := ContainerOperation(o, req);
      Outcome(r.table, r.answer, [])
    else if req.client.None? then
      Outcome(o, Status(500), [])
    else
      var r := match req.command
               case GET => GetKeyOver(o, mkey, mode, req)
               case PUT => SetKeyOver(o, mkey, mode, req)
               case DELETE => DelKey(o, req);
      Outcome(r.table, Sendable(r.answer),
              [Record(AuditAction(req.command, Success(r.answer)), req.client.value, SlashJoin(req.trail))])
  }

  // ---------------------------------------------------------------- the two servers side by side

  /** The two tables correspond and so do the answers. */
  ghost predicate Match(mkey: nat, mode: Overlay.Mode, x: Reply, y: ReplyOn<Overlay.Token>) {
    x.answer == y.answer && Overlay.Sealing(x.table, y.table, mkey, mode)
  }

  /** A well-formed GET does not read a container as a key; a well-formed PUT that gets to its write,
      under a key the store takes, does not carry null, nor an empty value for an absent row. */
  ghost predicate Fits(t: Rows, req: Request) {
    OnKey(req) && req.client.Some? && |req.trail| >= 2 ==>
      var key := PosixJoin("keys", req.trail);
      && (req.command == GET && req.message.Parsed? ==> Look(t, key) != Some(Blank))
      && (req.command == PUT && PutPayload(req).Payload? && !EndsWithSlash(key) ==>
            Writes(ParentExists(t, req.defaultNs, req.trail), key, PutPayload(req).value))
  }

  predicate Writes(p: Parent, key: string, value: Option<string>) {
    p.verdict.Present? ==> value.Some? && (value.value == [] ==> key in p.table)
  }

  lemma SpanMatches(t: Rows, o: Overlay.Backing, mkey: nat, mode: Overlay.Mode, key: string)
    requires Overlay.Sealing(t, o, mkey, mode)
    ensures SpanOf(t, key).outcome == SpanOf(o, key).outcome
    ensures Overlay.Sealing(SpanOf(t, key).table, SpanOf(o, key).table, mkey, mode)
  {
    Overlay.SimulationStep(t, o, mkey, mode, Overlay.OpSpan(key));
  }

  lemma CutMatches(t: Rows, o: Overlay.Backing, mkey: nat, mode: Overlay.Mode, key: string)
    requires Overlay.Sealing(t, o, mkey, mode)
    ensures Match(mkey, mode, CutReply(t, key), CutReply(o, key))
  {
    Overlay.SimulationStep(t, o, mkey, mode, Overlay.OpCut(key));
  }

  lemma ParentMatches(t: Rows, o: Overlay.Backing, mkey: nat, mode: Overlay.Mode,
                      defaultNs: Option<string>, trail: seq<string>)
    requires Overlay.Sealing(t, o, mkey, mode) && |trail| >= 2
    ensures var p, q := ParentExists(t, defaultNs, trail), ParentExists(o, defaultNs, trail);
            p.verdict == q.verdict && Overlay.Sealing(p.table, q.table, mkey, mode)
  {
    Overlay.SameListing(t, o, mkey, mode, ParentKey(trail));
    SpanMatches(t, o, mkey, mode, NamespaceKey(trail[0]));
  }

  lemma CreateMatches(t: Rows, o: Overlay.Backing, mkey: nat, mode: Overlay.Mode, req: Request)
    requires Overlay.Sealing(t, o, mkey, mode)
    ensures Match(mkey, mode, Create(t, req), Create(o, req))
  {
    var basename := DbContainerKey(None, req.trail);
    if basename.Some? {
      if |req.trail| > 2 {
        var init := req.trail[..|req.trail| - 1];
        ParentMatches(t, o, mkey, mode, req.defaultNs, init);
        SpanMatches(ParentExists(t, req.defaultNs, init).table, ParentExists(o, req.defaultNs, init).table,
                    mkey, mode, basename.value);
      } else {
        SpanMatches(t, o, mkey, mode, basename.value);
      }
    }
  }

  lemma DestroyMatches(t: Rows, o: Overlay.Backing, mkey: nat, mode: Overlay.Mode, req: Request)
    requires Overlay.Sealing(t, o, mkey, mode)
    ensures Match(mkey, mode, Destroy(t, req), Destroy(o, req))
  {
    var basename := DbContainerKey(None, req.trail);
    if basename.Some? {
      Overlay.SameListing(t, o, mkey, mode, basename.value);
      CutMatches(t, o, mkey, mode, RStrip(basename.value));
    }
  }

  lemma ContainerMatches(t: Rows, o: Overlay.Backing, mkey: nat, mode: Overlay.Mode, req: Request)
    requires Overlay.Sealing(t, o, mkey, mode) && !OnKey(req)
    ensures Match(mkey, mode, ContainerOperation(t, req), ContainerOperation(o, req))
  {
    match req.command {
      case GET =>
        var basename := DbContainerKey(req.defaultNs, req.trail);
        if basename.Some? { Overlay.SameListing(t, o, mkey, mode, basename.value); }
      case PUT =>
      case POST => CreateMatches(t, o, mkey, mode, req);
      case DELETE => DestroyMatches(t, o, mkey, mode, req);
    }
  }

  lemma WriteMatches(p: Parent, q: ParentOn<Overlay.Token>, mkey: nat, mode: Overlay.Mode, key: string,
                     value: Option<string>)
    requires p.verdict == q.verdict && Overlay.Sealing(p.table, q.table, mkey, mode)
    ensures Match(mkey, mode, SetAfter(p, key, ToCell(value)), SetAfterOver(q, mkey, mode, key, value)) <==>
            (!EndsWithSlash(key) ==> Writes(p, key, value))
  {
    if p.verdict.Present? && value.Some? && !EndsWithSlash(key) && key !in p.table {
      var x, y := SetAfter(p, key, ToCell(value)).table, SetAfterOver(q, mkey, mode, key, value).table;
      assert x == p.table[key := ToCell(value)];
      assert y == q.table[key := Held(Overlay.Seal(mkey, mode, key, value.value))];
      assert Overlay.SealedCell(x[key], y[key], mkey, mode, key) <==> value.value != [];
    }
  }

  lemma SetKeyMatches(t: Rows, o: Overlay.Backing, mkey: nat, mode: Overlay.Mode, req: Request)
    requires Overlay.Sealing(t, o, mkey, mode) && OnKey(req) && req.command == PUT && req.client.Some?
    ensures Match(mkey, mode, SetKey(t, req), SetKeyOver(o, mkey, mode, req)) <==> Fits(t, req)
  {
    if PutPayload(req).Payload? && |req.trail| >= 2 {
      ParentMatches(t, o, mkey, mode, req.defaultNs, req.trail);
      WriteMatches(ParentExists(t, req.defaultNs, req.trail), ParentExists(o, req.defaultNs, req.trail), mkey, mode,
                   PosixJoin("keys", req.trail), PutPayload(req).value);
    }
  }

  lemma GetKeyMatches(t: Rows, o: Overlay.Backing, mkey: nat, mode: Overlay.Mode, req: Request)
    requires Overlay.Sealing(t, o, mkey, mode) && OnKey(req) && req.command == GET && req.client.Some?
    ensures Match(mkey, mode, Reply(t, GetKey(t, req)), GetKeyOver(o, mkey, mode, req)) <==> Fits(t, req)
    ensures GetKey(t, req) == GetKeyOver(o, mkey, mode, req).answer <==> Fits(t, req)
    ensures !Fits(t, req) ==> GetKey(t, req).code == 406 && GetKeyOver(o, mkey, mode, req).answer.code == 500
  {
    if |req.trail| >= 2 && req.message.Parsed? {
      var key := PosixJoin("keys", req.trail);
      if key in t { assert Overlay.SealedCell(t[key], o[key], mkey, mode, key); }
      if Look(t, key) != Some(Blank) { Overlay.SimulationStep(t, o, mkey, mode, Overlay.OpGet(key)); }
    }
  }

  /** The two servers give the same answer and the same audit record, and their tables still
      correspond. */
  ghost predicate Indistinct(t: Rows, o: Overlay.Backing, mkey: nat, mode: Overlay.Mode, req: Request) {
    && Handle(t, req).answer == HandleOver(o, mkey, mode, req).answer
    && Handle(t, req).records == HandleOver(o, mkey, mode, req).records
    && Overlay.Sealing(Handle(t, req).table, HandleOver(o, mkey, mode, req).table, mkey, mode)
  }

  lemma PutUnsent(t: Rows, o: Overlay.Backing, mkey: nat, mode: Overlay.Mode, req: Request)
    requires OnKey(req) && req.command == PUT
    ensures Sendable(SetKey(t, req).answer) == SetKey(t, req).answer
    ensures Sendable(SetKeyOver(o, mkey, mode, req).answer) == SetKeyOver(o, mkey, mode, req).answer
  {
  }

  /** One request: the overlay makes no difference, now or later, exactly if the request fits. */
  lemma HandleMatches(t: Rows, o: Overlay.Backing, mkey: nat, mode: Overlay.Mode, req: Request)
    requires Overlay.Sealing(t, o, mkey, mode)
    ensures Indistinct(t, o, mkey, mode, req) <==> Fits(t, req)
  {
    if !OnKey(req) {
      ContainerMatches(t, o, mkey, mode, req);
    } else if req.client.Some? {
      match req.command {
        case GET => GetKeyMatches(t, o, mkey, mode, req);
        case PUT =>
          SetKeyMatches(t, o, mkey, mode, req);
          PutUnsent(t, o, mkey, mode, req);
        case DELETE => if |req.trail| >= 2 { CutMatches(t, o, mkey, mode, PosixJoin("keys", req.trail)); }
      }
    }
  }

  // ---------------------------------------------------------------- runs

  datatype Seen = Seen(answer: Answer, records: seq<Record>)

  ghost function PlainRun(t: Rows, reqs: seq<Request>): seq<Seen>
    decreases reqs
  {
    if reqs == [] then []
    else var h := Handle(t, reqs[0]); [Seen(h.answer, h.records)] + PlainRun(h.table, reqs[1..])
  }

  ghost function OverRun(o: Overlay.Backing, mkey: nat, mode: Overlay.Mode, reqs: seq<Request>): seq<Seen>
    decreases reqs
  {
    if reqs == [] then []
    else
      var h := HandleOver(o, mkey, mode, reqs[0]);
      [Seen(h.answer, h.records)] + OverRun(h.table, mkey, mode, reqs[1..])
  }

  ghost predicate FittingRun(t: Rows, reqs: seq<Request>)
    decreases reqs
  {
    reqs == [] || (Fits(t, reqs[0]) && FittingRun(Handle(t, reqs[0]).table, reqs[1..]))
  }

  /** In every protection mode, from any table whose rows the overlay can read, every run of
      requests that fit gets the answers, and leaves the audit log, of a server without overlay. */
  lemma {:induction false} OverlayIsTransparent(t: Rows, o: Overlay.Backing, mkey: nat, mode: Overlay.Mode,
                                                reqs: seq<Request>)
    requires Overlay.Sealing(t, o, mkey, mode) && FittingRun(t, reqs)
    ensures PlainRun(t, reqs) == OverRun(o, mkey, mode, reqs)
    decreases reqs
  {
    if reqs != [] {
      HandleMatches(t, o, mkey, mode, reqs[0]);
      OverlayIsTransparent(Handle(t, reqs[0]).table, HandleOver(o, mkey, mode, reqs[0]).table, mkey, mode, reqs[1..]);
    }
  }

  // ---------------------------------------------------------------- what tells them apart

  /** A container read as a key: 406 without the overlay, 500 behind it. */
  lemma ContainerReadDiffers(t: Rows, o: Overlay.Backing, mkey: nat, mode: Overlay.Mode, req: Request)
    requires Overlay.Sealing(t, o, mkey, mode) && OnKey(req) && req.command == GET && req.client.Some?
    ensures Handle(t, req).answer == HandleOver(o, mkey, mode, req).answer <==> Fits(t, req)
    ensures !Fits(t, req) ==> Handle(t, req).answer.code == 406 && HandleOver(o, mkey, mode, req).answer.code == 500
  {
    GetKeyMatches(t, o, mkey, mode, req);
    if Fits(t, req) { HandleMatches(t, o, mkey, mode, req); }
  }

  /** A null value: 500 behind the overlay, whatever the other answer is.  An empty value: the same
      answer, but a container on one side and contents on the other. */
  lemma EmptyPutDiffers(t: Rows, o: Overlay.Backing, mkey: nat, mode: Overlay.Mode, req: Request)
    requires Overlay.Sealing(t, o, mkey, mode) && OnKey(req) && req.command == PUT && !Fits(t, req)
    ensures var x, y, key := Handle(t, req), HandleOver(o, mkey, mode, req), PosixJoin("keys", req.trail);
            if PutPayload(req).value.None? then
              && y.answer.code == 500
              && x.answer.code == if key in ParentExists(t, req.defaultNs, req.trail).table then 409 else 201
            else
              && x.answer == y.answer == Status(201)
              && Look(x.table, key) == Some(Blank) && Shape(y.table, key) == Some(true)
  {
    ParentMatches(t, o, mkey, mode, req.defaultNs, req.trail);
  }
}
