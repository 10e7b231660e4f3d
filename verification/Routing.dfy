/** From a URL path to the handler that serves it: the pipeline's checks and its choice of the
    longest mounted prefix, and the descent through sub-consumers that pops the list it iterates. */
module Routing {
  import opened Text
  import opened Authorizers

  // ---------------------------------------------------------------- the path chain

  /** The unquoted segments of a path. */
  function Chain(path: string, unquote: string -> string): (chain: seq<string>)
    ensures |chain| == |Split(path, '/')|
  {
    seq(|Split(path, '/')|, i requires 0 <= i < |Split(path, '/')| => unquote(Split(path, '/')[i]))
  }

  method ParsePath(path: string, unquote: string -> string) returns (chain: seq<string>)
    ensures chain == Chain(path, unquote)
  {
    var segments := Split(path, '/');
    chain := [];
    for i := 0 to |segments|
      invariant |chain| == i && forall j :: 0 <= j < i ==> chain[j] == unquote(segments[j])
    {
      chain := chain + [unquote(segments[i])];
    }
  }

  // ---------------------------------------------------------------- the pipeline

  /** Nobody said False and somebody said True. */
  predicate Accepted(verdicts: seq<Verdict>) {
    Deny !in verdicts && Pass in verdicts
  }

  predicate Cleared(verdicts: Option<seq<Verdict>>) {
    verdicts.Some? && Accepted(verdicts.value)
  }

  datatype Routed = Refused(code: int) | Reached(mount: seq<string>, trail: seq<string>)

  /** `mount` is the longest nonempty prefix of the chain that has a consumer. */
  ghost predicate Selected(consumers: set<seq<string>>, chain: seq<string>, mount: seq<string>) {
    mount in consumers && mount != [] && mount <= chain
    && forall n :: |mount| < n <= |chain| ==> chain[..n] !in consumers
  }

  ghost predicate Mounted(consumers: set<seq<string>>, chain: seq<string>) {
    exists n :: 0 < n <= |chain| && chain[..n] in consumers
  }

  /** `HTTPRequestHandler.pipeline`; the verdicts are those the configured plugins give in order. */
  method Pipeline(authenticators: Option<seq<Verdict>>, authorizers: Option<seq<Verdict>>,
                  consumers: set<seq<string>>, chain: seq<string>) returns (r: Routed)
    ensures r.Reached? <==> chain != [] && chain[0] == [] && Cleared(authenticators) && Cleared(authorizers)
                            && Mounted(consumers, chain)
    ensures r.Reached? ==> Selected(consumers, chain, r.mount) && r.mount + r.trail == chain
    ensures r.Refused? ==> r.code == if chain == [] || chain[0] != [] then 400
                                     else if !Cleared(authenticators) || !Cleared(authorizers) then 403
                                     else 404
  {
    if chain == [] || chain[0] != [] { return Refused(400); }
    if authenticators.None? { return Refused(403); }
    var validOnce := false;
    for i := 0 to |authenticators.value|
      invariant Deny !in authenticators.value[..i]
      invariant validOnce <==> Pass in authenticators.value[..i]
    {
      var valid := authenticators.value[i];
      PrefixGrows(authenticators.value, i);
      if valid == Deny { return Refused(403); }
      if valid == Pass { validOnce := true; }
    }
    assert authenticators.value[..|authenticators.value|] == authenticators.value;
    if !validOnce { return Refused(403); }

    if authorizers.None? { return Refused(403); }
    var authzOk := Abstain;
    for i := 0 to |authorizers.value|
      invariant Deny !in authorizers.value[..i]
      invariant authzOk == if Pass in authorizers.value[..i] then Pass else Abstain
    {
      var valid := authorizers.value[i];
      PrefixGrows(authorizers.value, i);
      if valid == Pass {
        authzOk := Pass;
      } else if valid == Deny {
        authzOk := Deny;
        return Refused(403);
      }
    }
    assert authorizers.value[..|authorizers.value|] == authorizers.value;
    if authzOk != Pass { return Refused(403); }

    var trail, rest := [], chain;
    while rest != []
      invariant rest <= chain && rest + trail == chain
      invariant forall n :: |rest| < n <= |chain| ==> chain[..n] !in consumers
    {
      assert chain[..|rest|] == rest;
      if rest in consumers {
        return Reached(rest, trail);
      }
      trail := [rest[|rest| - 1]] + trail;
      rest := rest[..|rest| - 1];
    }
    return Refused(404);
  }

  lemma PrefixGrows(vs: seq<Verdict>, i: nat)
    requires i < |vs|
    ensures vs[..i + 1] == vs[..i] + [vs[i]] && vs[i] in vs
  {
  }

  /** The pipeline has no choice: a chain selects at most one mount. */
  lemma SelectionUnique(consumers: set<seq<string>>, chain: seq<string>, a: seq<string>, b: seq<string>)
    requires Selected(consumers, chain, a) && Selected(consumers, chain, b)
    ensures a == b
  {
    assert chain[..|a|] == a && chain[..|b|] == b;
  }

  // ---------------------------------------------------------------- sub-consumers

  class Consumer {
    var subs: map<string, Consumer>
    var root: Consumer

    constructor ()
      ensures subs == map[] && root == this
    {
      subs := map[];
      root := this;
    }

    method AddSub(name: string, sub: Consumer)
      modifies this, sub
      ensures subs == old(subs)[name := sub]
      ensures sub.root == old(root)
      ensures sub != this ==> root == old(root) && sub.subs == old(sub.subs)
    {
      subs := subs[name := sub];
      sub.root := root;
    }

    /** `_find_handler`'s loop: the list is iterated by position while its head is popped. */
    method FindHandler(trail: seq<string>) returns (base: Consumer, rest: seq<string>)
      ensures (base, rest) == Popping(this, trail, 0)
      ensures Flat(this) ==> (base, rest) == Descend(this, trail)
    {
      base, rest := this, trail;
      var i := 0;
      while i < |rest|
        invariant 0 <= i
        invariant Popping(base, rest, i) == Popping(this, trail, 0)
        decreases |rest| - i
      {
        var comp := rest[i];
        if comp in base.subs {
          base, rest := base.subs[comp], rest[1..];
          i := i + 1;
        } else {
          break;
        }
      }
      if Flat(this) { PoppingWhenFlat(this, trail); }
    }
  }

  ghost function Popping(base: Consumer, trail: seq<string>, i: nat): (Consumer, seq<string>)
    reads *
    decreases |trail| - i
  {
    if i < |trail| && trail[i] in base.subs then Popping(base.subs[trail[i]], trail[1..], i + 1) else (base, trail)
  }

  /** The descent that is meant: one component after the other, as far as they name a sub. */
  ghost function Descend(base: Consumer, trail: seq<string>): (Consumer, seq<string>)
    reads *
    decreases |trail|
  {
    if trail != [] && trail[0] in base.subs then Descend(base.subs[trail[0]], trail[1..]) else (base, trail)
  }

  /** No sub-consumer has subs of its own. */
  ghost predicate Flat(base: Consumer)
    reads *
  {
    forall name :: name in base.subs ==> base.subs[name].subs == map[]
  }

  lemma PoppingWhenFlat(base: Consumer, trail: seq<string>)
    requires Flat(base)
    ensures Popping(base, trail, 0) == Descend(base, trail)
  {
    if trail != [] && trail[0] in base.subs {
      var sub := base.subs[trail[0]];
      assert Popping(sub, trail[1..], 1) == (sub, trail[1..]);
      assert Descend(sub, trail[1..]) == (sub, trail[1..]);
    }
  }

  /** Popping the iterated list finds the meant handler on every trail exactly when the tree of
      consumers is one level deep: with a second level, it stops after the first. */
  lemma PoppingCorrectIffFlat(base: Consumer)
    ensures Flat(base) <==> forall trail :: Popping(base, trail, 0) == Descend(base, trail)
  {
    if Flat(base) {
      forall trail ensures Popping(base, trail, 0) == Descend(base, trail) {
        PoppingWhenFlat(base, trail);
      }
    } else {
      var a :| a in base.subs && base.subs[a].subs != map[];
      var sub := base.subs[a];
      var b :| b in sub.subs;
      var trail := [a, b];
      assert trail[1..] == [b] && [b][1..] == [];
      assert Popping(sub, [b], 1) == (sub, [b]);
      assert Popping(base, trail, 0) == (sub, [b]);
      assert Descend(sub, [b]) == Descend(sub.subs[b], []);
      assert Descend(base, trail) == Descend(sub, [b]);
    }
  }

  /** `Root.__init__`: a store brings a `Secrets` consumer with it. */
  method MakeRoot(hasStore: bool) returns (root: Consumer, secrets: Consumer?)
    ensures fresh(root) && (secrets != null ==> fresh(secrets))
    ensures if hasStore then secrets != null && secrets != root && root.subs == map["secrets" := secrets]
                             && secrets.subs == map[] && secrets.root == root
            else secrets == null && root.subs == map[]
  {
    root := new Consumer();
    secrets := null;
    if hasStore {
      var sub := new Consumer();
      root.AddSub("secrets", sub);
      secrets := sub;
    }
  }

  /** On every path below /secrets, a `Secrets` under a Root mounted at / is handed the same
      trail as one mounted at /secrets. */
  lemma SecretsSeesSameTrail(root: Consumer, under: Consumer, mounted: Consumer, rest: seq<string>)
    requires root.subs == map["secrets" := under] && under.subs == map[] && mounted.subs == map[]
    ensures var chain := ["", "secrets"] + rest;
            && Selected({[""]}, chain, [""])
            && Popping(root, chain[1..], 0) == (under, rest)
            && Selected({["", "secrets"]}, chain, ["", "secrets"])
            && Popping(mounted, chain[2..], 0) == (mounted, rest)
  {
    var chain := ["", "secrets"] + rest;
    assert chain[1..] == ["secrets"] + rest && chain[1..][1..] == rest && chain[2..] == rest;
    assert chain[..1] == [""] && chain[..2] == ["", "secrets"];
    assert Flat(root) by { assert forall name :: name in root.subs ==> name == "secrets"; }
    PoppingWhenFlat(root, chain[1..]);
    assert Descend(under, rest) == (under, rest);
    assert Descend(root, chain[1..]) == Descend(under, rest);
  }
}
