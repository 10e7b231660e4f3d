/** The KEM exchange over a network that belongs to someone else: every message may be recorded,
    dropped, replayed, re-wrapped or made up, with any set of corrupted keys at hand. */
module KemProtocol {
  import opened Text
  import opened Kem

  /** An honest client sends a request, or the server is handed some message and, if it accepts it,
      answers with `output`. */
  datatype Step = Send(client: Client, name: string, value: Option<string>, encrypted: bool, now: real)
                | Deliver(msg: Token, name: string, early: real, late: real, output: Option<string>, now: real)

  /** The two parties' keys and the keys the network has got hold of. */
  datatype Setting = Setting(rows: map<string, Jwk>, server: KeyPair, corrupt: set<nat>)

  function Accepted(g: Setting, step: Step): Option<Kem.Accepted>
    requires step.Deliver?
  {
    Accepts(g.rows, Some(g.server), step.msg, step.name, step.early, step.late)
  }

  /** The token a step puts on the network. */
  function Emitted(g: Setting, step: Step): Option<Token> {
    match step
    case Send(c, name, value, encrypted, now) => Some(MakeRequest(c, name, value, encrypted, now))
    case Deliver(_, name, _, _, output, now) =>
      if Accepted(g, step).None? then None
      else Some(MakeEncrypted(Some(name), output, g.server.sig, Accepted(g, step).value.keys.enc, now))
  }

  /** A token and what the corrupted keys find inside it. */
  function Parts(corrupt: set<nat>, tok: Token): set<Token> {
    {tok} + if tok.Jwe? && tok.opener in corrupt then Parts(corrupt, tok.inner) else {}
  }

  /** What the network knows after a run, starting from nothing. */
  function Known(g: Setting, steps: seq<Step>): set<Token> {
    if steps == [] then {}
    else
      var last := Emitted(g, steps[|steps| - 1]);
      Known(g, steps[..|steps| - 1]) + if last.None? then {} else Parts(g.corrupt, last.value)
  }

  /** What the network can put together: known tokens, signatures by corrupted keys, anything
      encrypted to anyone. */
  predicate Synthesized(known: set<Token>, corrupt: set<nat>, tok: Token) {
    tok in known
    || match tok
       case Garbage => true
       case Jws(_, _, signer) => signer in corrupt
       case Jwe(_, inner) => Synthesized(known, corrupt, inner)
  }

  // ---------------------------------------------------------------- every part comes from a step

  /** The signed token at the heart of a message. */
  function Core(tok: Token): Token {
    if tok.Jwe? then Core(tok.inner) else tok
  }

  lemma {:induction false} PartsShareCore(corrupt: set<nat>, tok: Token, part: Token)
    requires part in Parts(corrupt, tok)
    ensures Core(part) == Core(tok)
    decreases tok
  {
    if part != tok { PartsShareCore(corrupt, tok.inner, part); }
  }

  ghost predicate ComesFrom(g: Setting, step: Step, part: Token) {
    Emitted(g, step).Some? && part in Parts(g.corrupt, Emitted(g, step).value)
  }

  lemma {:induction false} KnownComesFrom(g: Setting, steps: seq<Step>, tok: Token)
    requires tok in Known(g, steps)
    ensures exists i :: 0 <= i < |steps| && ComesFrom(g, steps[i], tok)
  {
    var n := |steps| - 1;
    if ComesFrom(g, steps[n], tok) {
    } else {
      KnownComesFrom(g, steps[..n], tok);
      var i :| 0 <= i < n && ComesFrom(g, steps[..n][i], tok);
      assert steps[..n][i] == steps[i];
    }
  }

  // ---------------------------------------------------------------- authorship

  /** The step in which the owner of a signing key signs `value` for `name` at time `stamp`. */
  predicate Signs(g: Setting, step: Step, pair: nat, name: string, value: Option<string>, stamp: real) {
    match step
    case Send(c, n, v, _, now) => c.own.sig.pair == pair && n == name && v == value && now == stamp
    case Deliver(_, n, _, _, output, now) =>
      Accepted(g, step).Some? && g.server.sig.pair == pair && n == name && output == value && now == stamp
  }

  /** Some step of the run signed this, within the window. */
  ghost predicate Meant(g: Setting, steps: seq<Step>, pair: nat, name: string, value: Option<string>,
                        early: real, late: real)
  {
    exists i :: 0 <= i < |steps| && Signs(g, steps[i], pair, name, value, steps[i].now)
                && InWindow(steps[i].now, early, late)
  }

  /** Every signature by an uncorrupted key was made in a step of the run. */
  lemma {:induction false} SignatureHasAuthor(g: Setting, steps: seq<Step>, tok: Token, name: string,
                                              early: real, late: real)
    requires Synthesized(Known(g, steps), g.corrupt, tok)
    requires Core(tok).Jws? && Core(tok).signer !in g.corrupt && ClaimsOk(Core(tok).claims, name, early, late)
    ensures Meant(g, steps, Core(tok).signer, name, Core(tok).claims.value, early, late)
    decreases tok
  {
    if tok in Known(g, steps) {
      KnownComesFrom(g, steps, tok);
      var i :| 0 <= i < |steps| && ComesFrom(g, steps[i], tok);
      PartsShareCore(g.corrupt, Emitted(g, steps[i]).value, tok);
      WindowExactly(steps[i].name, Core(tok).claims.value, name, steps[i].now, early, late);
    } else {
      SignatureHasAuthor(g, steps, tok.inner, name, early, late);
    }
  }

  /** After any run, whatever the server accepts under a kid whose signing key is not corrupted was
      signed in a step of that run by that key's owner, for that name, with that value, within the
      window. */
  lemma AcceptedWasMeant(g: Setting, steps: seq<Step>, msg: Token, name: string, early: real, late: real)
    requires Synthesized(Known(g, steps), g.corrupt, msg)
    requires var a := Accepts(g.rows, Some(g.server), msg, name, early, late);
             a.Some? && a.value.keys.sig.pair !in g.corrupt
    ensures var a := Accepts(g.rows, Some(g.server), msg, name, early, late).value;
            Meant(g, steps, a.keys.sig.pair, name, a.claims.value, early, late)
  {
    assert Core(msg) == Unwrap(Some(g.server), msg).value;
    SignatureHasAuthor(g, steps, msg, name, early, late);
  }

  /** The exception is a real one: with a corrupted signing key the network gets any value accepted for
      any name, signed or encrypted to the server as well. */
  lemma CorruptKeyForges(g: Setting, steps: seq<Step>, kid: string, keys: KeyPair, name: string,
                         value: Option<string>, early: real, late: real, encrypted: bool)
    requires Registered(g.rows, kid, keys) && keys.sig.pair in g.corrupt && late.Floor <= early.Floor + 600
    ensures var claims := Claims(Some(name), Some(late.Floor), value);
            var jws := Jws(Some(kid), claims, keys.sig.pair);
            var msg := if encrypted then Jwe(g.server.enc.pair, jws) else jws;
            && Synthesized(Known(g, steps), g.corrupt, msg)
            && Accepts(g.rows, Some(g.server), msg, name, early, late) == Some(Kem.Accepted(keys, claims))
  {
    PairExactly(g.rows, kid, keys);
  }

  /** And what was sent can be sent again. */
  lemma NetworkReplays(g: Setting, steps: seq<Step>, step: Step)
    requires Emitted(g, step).Some?
    ensures Synthesized(Known(g, steps + [step]), g.corrupt, Emitted(g, step).value)
  {
    assert (steps + [step])[..|steps|] == steps;
  }

  /** After any run, a value a client takes from a reply was signed in a step of that run by the
      server, for that name, within the window, unless the server's signing key is corrupted. */
  lemma RecoveredWasAnswered(g: Setting, steps: seq<Step>, c: Client, msg: Token, name: string, early: real, late: real)
    requires Synthesized(Known(g, steps), g.corrupt, msg) && c.server.sig.pair !in g.corrupt
    requires ParseReply(c, name, msg, early, late).Some?
    ensures Meant(g, steps, c.server.sig.pair, name, ParseReply(c, name, msg, early, late), early, late)
  {
    assert Core(msg) == msg.inner;
    SignatureHasAuthor(g, steps, msg, name, early, late);
  }

  // ---------------------------------------------------------------- secrecy

  /** A step that lets a corrupted key read `value`: a request sent in the clear or to a corrupted
      key, or an answer to a kid whose registered encryption key is corrupted. */
  predicate Discloses(g: Setting, step: Step, value: string) {
    match step
    case Send(c, _, v, encrypted, _) => v == Some(value) && (!encrypted || c.server.enc.pair in g.corrupt)
    case Deliver(_, _, _, _, output, _) =>
      output == Some(value) && Accepted(g, step).Some? && Accepted(g, step).value.keys.enc.pair in g.corrupt
  }

  /** The network can read a value. */
  ghost predicate Readable(g: Setting, steps: seq<Step>, value: string) {
    exists tok :: tok in Known(g, steps) && tok.Jws? && tok.claims.value == Some(value)
  }

  lemma {:induction false} KnownKeeps(g: Setting, steps: seq<Step>, i: nat, part: Token)
    requires i < |steps| && ComesFrom(g, steps[i], part)
    ensures part in Known(g, steps)
  {
    var n := |steps| - 1;
    if i < n {
      assert steps[..n][i] == steps[i];
      KnownKeeps(g, steps[..n], i, part);
    }
  }

  /** After any run, the network can read a value exactly if some step of the run disclosed it. */
  lemma ReadableExactly(g: Setting, steps: seq<Step>, value: string)
    ensures Readable(g, steps, value) <==> exists i :: 0 <= i < |steps| && Discloses(g, steps[i], value)
  {
    if Readable(g, steps, value) {
      var tok :| tok in Known(g, steps) && tok.Jws? && tok.claims.value == Some(value);
      KnownComesFrom(g, steps, tok);
      var i :| 0 <= i < |steps| && ComesFrom(g, steps[i], tok);
      PartsShareCore(g.corrupt, Emitted(g, steps[i]).value, tok);
      assert Discloses(g, steps[i], value);
    }
    if i :| 0 <= i < |steps| && Discloses(g, steps[i], value) {
      var sent := Emitted(g, steps[i]).value;
      var core := if sent.Jwe? then sent.inner else sent;
      assert core.Jws? && core.claims.value == Some(value);
      assert core in Parts(g.corrupt, core);
      KnownKeeps(g, steps, i, core);
    }
  }
}
