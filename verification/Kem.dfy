/** The KEM message exchange: signed requests, optionally encrypted to the server, and replies that
    are signed by the server and encrypted to the client, each valid for a window of time.
    Signatures and encryption are symbolic: a token names the key that made it or that opens it. */
module Kem {
  import opened Text

  datatype Usage = SigUse | EncUse

  datatype KeyType = RSA | EC | OtherType

  /** `pair` identifies the key pair; public and private halves share it. */
  datatype Jwk = Jwk(kid: string, ktype: KeyType, pair: nat)

  /** A subject that is null is no different from a missing one: it equals no name. */
  datatype Claims = Claims(sub: Option<string>, exp: Option<int>, value: Option<string>)

  /** `signer` made the signature; only `opener` decrypts. */
  datatype Token = Jws(kid: Option<string>, claims: Claims, signer: nat)
                 | Jwe(opener: nat, inner: Token)
                 | Garbage

  // ---------------------------------------------------------------- time

  /** `int(time.time())` */
  function Seconds(now: real): int {
    now.Floor
  }

  /** The expiry put into a message: five minutes ahead. */
  function Expiry(now: real): int {
    (now + 300.0).Floor
  }

  lemma ExpiryIsFiveMinutes(now: real)
    ensures Expiry(now) == Seconds(now) + 300
  {
    var f := now.Floor;
    assert f as real <= now < f as real + 1.0;
    assert (f + 300) as real <= now + 300.0 < (f + 300) as real + 1.0;
  }

  /** `check_kem_claims`, which reads the clock twice. */
  predicate ClaimsOk(claims: Claims, name: string, early: real, late: real) {
    claims.sub == Some(name)
    && claims.exp.Some?
    && !(claims.exp.value - 10 * 60 > Seconds(early))
    && !(claims.exp.value < Seconds(late))
  }

  // ---------------------------------------------------------------- keys

  function DbKey(usage: Usage, kid: string): string {
    PosixJoin("kemkeys", [(if usage == SigUse then "sig" else "enc") + "/" + kid])
  }

  /** `find_key`; `None` is its UnknownPublicKey. */
  function FindKey(rows: map<string, Jwk>, kid: string, usage: Usage): Option<Jwk> {
    if DbKey(usage, kid) in rows then Some(rows[DbKey(usage, kid)]) else None
  }

  function Folder(usage: Usage): string {
    if usage == SigUse then "kemkeys/sig/" else "kemkeys/enc/"
  }

  lemma DbKeyIs(usage: Usage, kid: string)
    ensures DbKey(usage, kid) == Folder(usage) + kid
  {
    var part := (if usage == SigUse then "sig" else "enc") + "/" + kid;
    assert [part][1..] == [];
    assert PosixJoin("kemkeys", [part]) == JoinOne("kemkeys", part) == "kemkeys" + "/" + part;
  }

  /** Keys of different owners, and of different uses, are filed apart. */
  lemma KeysFiledApart(a: string, b: string, u: Usage, v: Usage)
    requires DbKey(u, a) == DbKey(v, b)
    ensures a == b && u == v
  {
    DbKeyIs(u, a);
    DbKeyIs(v, b);
    assert DbKey(u, a)[8] == Folder(u)[8] && DbKey(v, b)[8] == Folder(v)[8];
    assert DbKey(u, a)[12..] == a && DbKey(v, b)[12..] == b;
  }

  datatype KeyPair = KeyPair(sig: Jwk, enc: Jwk)

  function FindPair(rows: map<string, Jwk>, kid: string): Option<KeyPair> {
    var sig, enc := FindKey(rows, kid, SigUse), FindKey(rows, kid, EncUse);
    if sig.Some? && enc.Some? then Some(KeyPair(sig.value, enc.value)) else None
  }

  class KEMKeysStore {
    var rows: map<string, Jwk>
    const serverKid: Option<string>
    const signingAlgorithm: Option<string>
    var serverKeys: Option<KeyPair>
    var alg: Option<string>

    constructor (rows: map<string, Jwk>, serverKid: Option<string>, signingAlgorithm: Option<string>)
      ensures this.rows == rows && this.serverKid == serverKid && this.signingAlgorithm == signingAlgorithm
      ensures serverKeys == None && alg == None
    {
      this.rows, this.serverKid, this.signingAlgorithm := rows, serverKid, signingAlgorithm;
      serverKeys, alg := None, None;
    }

    /** The keys in force: once looked up they are kept. */
    function Keys(): Option<KeyPair>
      reads this
    {
      if serverKeys.Some? then serverKeys
      else if serverKid.None? then None
      else FindPair(rows, serverKid.value)
    }

    function Algorithm(): Option<string>
      reads this
    {
      if alg.Some? then alg
      else if signingAlgorithm.Some? then signingAlgorithm
      else if Keys().None? then None
      else match Keys().value.sig.ktype
        case RSA => Some("RS256")
        case EC => Some("ES256")
        case OtherType => None
    }

    method GetServerKeys() returns (r: Option<KeyPair>)
      modifies `serverKeys
      ensures r == old(Keys()) == Keys()
      ensures old(serverKeys).Some? ==> r == old(serverKeys)
      ensures old(serverKeys).None? && serverKid.None? ==> r.None?
      ensures old(serverKeys).None? && serverKid.Some? ==>
                forall keys :: r == Some(keys) <==> Registered(rows, serverKid.value, keys)
      ensures Algorithm() == old(Algorithm())
    {
      if serverKid.Some? {
        forall keys ensures FindPair(rows, serverKid.value) == Some(keys) <==> Registered(rows, serverKid.value, keys) {
          PairExactly(rows, serverKid.value, keys);
        }
      }
      if serverKeys.None? {
        if serverKid.None? { return None; }
        var sig := FindKey(rows, serverKid.value, SigUse);
        if sig.None? { return None; }
        var enc := FindKey(rows, serverKid.value, EncUse);
        if enc.None? { return None; }
        serverKeys := Some(KeyPair(sig.value, enc.value));
      }
      return serverKeys;
    }

    method GetAlgorithm() returns (r: Option<string>)
      modifies `serverKeys, `alg
      ensures r == old(Algorithm()) == Algorithm() && Keys() == old(Keys())
      ensures old(alg).Some? ==> r == old(alg)
      ensures old(alg).None? && signingAlgorithm.Some? ==> r == signingAlgorithm
      ensures old(alg).None? && signingAlgorithm.None? ==>
                && (r == Some("RS256") <==> Keys().Some? && Keys().value.sig.ktype == RSA)
                && (r == Some("ES256") <==> Keys().Some? && Keys().value.sig.ktype == EC)
                && (r.None? <==> Keys().None? || Keys().value.sig.ktype == OtherType)
    {
      if alg.None? {
        var a := signingAlgorithm;
        if a.None? {
          var keys := GetServerKeys();
          if keys.None? { return None; }
          match keys.value.sig.ktype {
            case RSA => a := Some("RS256");
            case EC => a := Some("ES256");
            case OtherType => return None;
          }
        }
        alg := a;
      }
      return alg;
    }
  }

  // ---------------------------------------------------------------- messages

  function MakeSigned(sub: Option<string>, value: Option<string>, key: Jwk, now: real): Token {
    Jws(Some(key.kid), Claims(sub, Some(Expiry(now)), value), key.pair)
  }

  function MakeEncrypted(sub: Option<string>, value: Option<string>, sigKey: Jwk, encKey: Jwk, now: real): Token {
    Jwe(encKey.pair, MakeSigned(sub, value, sigKey, now))
  }

  /** The signed token inside a message, opening it with the server's key if it is encrypted. */
  function Unwrap(server: Option<KeyPair>, msg: Token): Option<Token> {
    match msg
    case Garbage => None
    case Jws(_, _, _) => Some(msg)
    case Jwe(opener, inner) =>
      if server.Some? && server.value.enc.pair == opener && inner.Jws? then Some(inner) else None
  }

  datatype Accepted = Accepted(keys: KeyPair, claims: Claims)

  /** What `KEMHandler.parse` accepts, and with which client keys. */
  function Accepts(rows: map<string, Jwk>, server: Option<KeyPair>, msg: Token, name: string, early: real, late: real)
    : Option<Accepted>
  {
    match Unwrap(server, msg)
    case None => None
    case Some(jws) =>
      if jws.kid.None? then None
      else match FindPair(rows, jws.kid.value)
        case None => None
        case Some(keys) =>
          if jws.signer == keys.sig.pair && ClaimsOk(jws.claims, name, early, late)
          then Some(Accepted(keys, jws.claims)) else None
  }

  /** The registered keys of a kid. */
  predicate Registered(rows: map<string, Jwk>, kid: string, keys: KeyPair) {
    && "kemkeys/sig/" + kid in rows && rows["kemkeys/sig/" + kid] == keys.sig
    && "kemkeys/enc/" + kid in rows && rows["kemkeys/enc/" + kid] == keys.enc
  }

  lemma PairExactly(rows: map<string, Jwk>, kid: string, keys: KeyPair)
    ensures FindPair(rows, kid) == Some(keys) <==> Registered(rows, kid, keys)
  {
    DbKeyIs(SigUse, kid);
    DbKeyIs(EncUse, kid);
  }

  /** The signed token of a message: the message itself, or what the server's key finds inside. */
  predicate Carries(server: Option<KeyPair>, msg: Token, jws: Token) {
    jws.Jws? && (msg == jws || (server.Some? && msg == Jwe(server.value.enc.pair, jws)))
  }

  /** A message is accepted exactly if it carries a signed token whose kid has a registered pair, its
      signature is that of the registered key, its subject is the name asked for, and its expiry is
      neither past nor more than ten minutes ahead; what is accepted is those keys and claims. */
  lemma AcceptsExactly(rows: map<string, Jwk>, server: Option<KeyPair>, msg: Token, name: string, early: real,
                       late: real, a: Accepted)
    ensures Accepts(rows, server, msg, name, early, late) == Some(a) <==>
            exists kid: string, exp: int, jws: Token ::
              && Carries(server, msg, jws) && Registered(rows, kid, a.keys)
              && jws == Jws(Some(kid), Claims(Some(name), Some(exp), a.claims.value), a.keys.sig.pair)
              && a.claims == jws.claims
              && late.Floor <= exp <= early.Floor + 600
  {
    if Accepts(rows, server, msg, name, early, late) == Some(a) {
      var jws := Unwrap(server, msg).value;
      PairExactly(rows, jws.kid.value, a.keys);
      assert Carries(server, msg, jws) && Registered(rows, jws.kid.value, a.keys);
    }
    if kid: string, exp: int, jws: Token :|
      && Carries(server, msg, jws) && Registered(rows, kid, a.keys)
      && jws == Jws(Some(kid), Claims(Some(name), Some(exp), a.claims.value), a.keys.sig.pair)
      && a.claims == jws.claims
      && late.Floor <= exp <= early.Floor + 600
    {
      PairExactly(rows, kid, a.keys);
      assert Unwrap(server, msg) == Some(jws);
    }
  }

  class KEMHandler {
    const kkstore: KEMKeysStore
    var clientKeys: Option<KeyPair>
    var name: Option<string>
    var payload: Option<string>
    var msgType: Option<string>

    constructor (kkstore: KEMKeysStore)
      ensures this.kkstore == kkstore && clientKeys == None && name == None && payload == None && msgType == None
    {
      this.kkstore := kkstore;
      clientKeys, name, payload, msgType := None, None, None, None;
    }

    /** `parse`; false is its InvalidMessage. */
    method Parse(msg: Token, name: string, early: real, late: real) returns (ok: bool)
      modifies this, kkstore`serverKeys
      ensures kkstore.Keys() == old(kkstore.Keys()) && kkstore.Algorithm() == old(kkstore.Algorithm())
      ensures ok <==> Accepts(kkstore.rows, kkstore.Keys(), msg, name, early, late).Some?
      ensures ok ==> var a := Accepts(kkstore.rows, kkstore.Keys(), msg, name, early, late).value;
                     && clientKeys == Some(a.keys) && this.name == Some(name)
                     && payload == a.claims.value && msgType == Some("kem")
    {
      var token := msg;
      match msg {
        case Garbage => return false;
        case Jws(_, _, _) =>
        case Jwe(opener, inner) =>
          var server := kkstore.GetServerKeys();
          if server.None? || server.value.enc.pair != opener || !inner.Jws? { return false; }
          token := inner;
      }
      if token.kid.None? { return false; }
      var sig := FindKey(kkstore.rows, token.kid.value, SigUse);
      if sig.None? { return false; }
      var enc := FindKey(kkstore.rows, token.kid.value, EncUse);
      if enc.None? { return false; }
      clientKeys := Some(KeyPair(sig.value, enc.value));
      if token.signer != sig.value.pair { return false; }
      if !ClaimsOk(token.claims, name, early, late) { return false; }
      this.name, payload, msgType := Some(name), token.claims.value, Some("kem");
      return true;
    }

    /** `reply`; `None` stands for its exceptions.  After a parse that failed late the name is null. */
    method Reply(output: Option<string>, now: real) returns (r: Option<Token>)
      modifies kkstore`serverKeys, kkstore`alg
      ensures r == if clientKeys.None? || clientKeys.value.enc.ktype != RSA
                      || kkstore.Keys().None? || kkstore.Algorithm().None? then None
                   else Some(MakeEncrypted(name, output, kkstore.Keys().value.sig, clientKeys.value.enc, now))
    {
      if clientKeys.None? { return None; }
      if clientKeys.value.enc.ktype != RSA { return None; }
      var server := kkstore.GetServerKeys();
      var alg := kkstore.GetAlgorithm();
      if server.None? || alg.None? { return None; }
      return Some(MakeEncrypted(name, output, server.value.sig, clientKeys.value.enc, now));
    }
  }

  datatype Client = Client(own: KeyPair, server: KeyPair)

  function MakeRequest(c: Client, name: string, value: Option<string>, encrypted: bool, now: real): Token {
    if encrypted then MakeEncrypted(Some(name), value, c.own.sig, c.server.enc, now)
    else MakeSigned(Some(name), value, c.own.sig, now)
  }

  /** `parse_reply`; `None` stands for its exceptions, a missing value among them. */
  function ParseReply(c: Client, name: string, msg: Token, early: real, late: real): Option<string> {
    if msg.Jwe? && msg.opener == c.own.enc.pair && msg.inner.Jws? && msg.inner.signer == c.server.sig.pair
       && ClaimsOk(msg.inner.claims, name, early, late)
    then msg.inner.claims.value else None
  }

  // ---------------------------------------------------------------- what the exchange guarantees

  /** Client and server hold each other's keys. */
  predicate Acquainted(rows: map<string, Jwk>, server: KeyPair, c: Client) {
    FindPair(rows, c.own.sig.kid) == Some(c.own) && c.server == server
  }

  predicate InWindow(stamped: real, early: real, late: real) {
    Seconds(stamped) - 300 <= Seconds(early) && Seconds(late) <= Seconds(stamped) + 300
  }

  lemma WindowExactly(name: string, value: Option<string>, expected: string, stamped: real, early: real, late: real)
    ensures ClaimsOk(Claims(Some(name), Some(Expiry(stamped)), value), expected, early, late)
            <==> name == expected && InWindow(stamped, early, late)
  {
    ExpiryIsFiveMinutes(stamped);
  }

  /** A known client's request, encrypted or not, is accepted for its own name exactly within five
      minutes either way of the second it was stamped. */
  lemma RequestAcceptedExactly(rows: map<string, Jwk>, server: KeyPair, c: Client, name: string, value: Option<string>,
                               encrypted: bool, expected: string, sent: real, early: real, late: real)
    requires Acquainted(rows, server, c)
    ensures var r := Accepts(rows, Some(server), MakeRequest(c, name, value, encrypted, sent), expected, early, late);
            && (r.Some? <==> name == expected && InWindow(sent, early, late))
            && (r.Some? ==> r.value.keys == c.own && r.value.claims.value == value)
  {
    WindowExactly(name, value, expected, sent, early, late);
  }

  /** With one clock reading s for both checks, a request stamped in second t is accepted exactly
      for t - 300 <= s <= t + 300. */
  lemma OneClockWindow(rows: map<string, Jwk>, server: KeyPair, c: Client, name: string, value: Option<string>,
                       encrypted: bool, sent: real, now: real)
    requires Acquainted(rows, server, c)
    ensures Accepts(rows, Some(server), MakeRequest(c, name, value, encrypted, sent), name, now, now).Some?
            <==> Seconds(sent) - 300 <= Seconds(now) <= Seconds(sent) + 300
  {
    RequestAcceptedExactly(rows, server, c, name, value, encrypted, name, sent, now, now);
  }

  /** Whatever message is accepted, the answer to it is understood by a client, any client at all,
      exactly if that client holds the encryption key registered under the kid the message names,
      trusts the server's signing key, asked about the same name and reads it in time. */
  lemma ReplyGoesToSigner(rows: map<string, Jwk>, server: KeyPair, msg: Token, name: string, early: real, late: real,
                          output: Option<string>, now: real, c: Client, asked: string, rearly: real, rlate: real)
    requires Accepts(rows, Some(server), msg, name, early, late).Some?
    ensures Unwrap(Some(server), msg).Some? && Unwrap(Some(server), msg).value.kid.Some?
    ensures var a := Accepts(rows, Some(server), msg, name, early, late).value;
            var filed := FindKey(rows, Unwrap(Some(server), msg).value.kid.value, EncUse);
            var reply := MakeEncrypted(Some(name), output, server.sig, a.keys.enc, now);
            var r := ParseReply(c, asked, reply, rearly, rlate);
            && filed.Some?
            && (r.Some? <==> output.Some? && asked == name && c.own.enc.pair == filed.value.pair
                             && c.server.sig.pair == server.sig.pair && InWindow(now, rearly, rlate))
            && (r.Some? ==> r == output)
  {
    WindowExactly(name, output, asked, now, rearly, rlate);
  }

  /** The client recovers a value exactly when it is the server's output, for the name it asked
      about and within the reply's window. */
  lemma ReplyRecoveredExactly(server: KeyPair, c: Client, name: string, output: Option<string>, sent: real,
                              expected: string, early: real, late: real, v: string)
    requires c.server == server
    ensures var reply := MakeEncrypted(Some(name), output, server.sig, c.own.enc, sent);
            ParseReply(c, expected, reply, early, late) == Some(v)
            <==> output == Some(v) && name == expected && InWindow(sent, early, late)
  {
    WindowExactly(name, output, expected, sent, early, late);
  }

  /** A whole exchange: the request is answered and its answer understood exactly when both
      messages arrive within their windows and there is an output to send. */
  lemma ExchangeExactly(rows: map<string, Jwk>, server: KeyPair, c: Client, name: string, value: Option<string>,
                        encrypted: bool, sent: real, early: real, late: real,
                        output: Option<string>, answered: real, rearly: real, rlate: real, v: string)
    requires Acquainted(rows, server, c)
    ensures var a := Accepts(rows, Some(server), MakeRequest(c, name, value, encrypted, sent), name, early, late);
            (a.Some? &&
             var reply := MakeEncrypted(Some(name), output, server.sig, a.value.keys.enc, answered);
             ParseReply(c, name, reply, rearly, rlate) == Some(v))
            <==> InWindow(sent, early, late) && InWindow(answered, rearly, rlate) && output == Some(v)
  {
    RequestAcceptedExactly(rows, server, c, name, value, encrypted, name, sent, early, late);
    ReplyRecoveredExactly(server, c, name, output, answered, name, rearly, rlate, v);
  }
}
