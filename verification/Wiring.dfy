/** Two-phase plugin initialization: every plugin that names a store is attached to it, and the
    store is finalized in turn, over whatever graph of stores the configuration describes. */
module Wiring {
  import opened Text

  class Plugin {
    const storeName: Option<string>
    var store: Plugin?

    constructor (storeName: Option<string>)
      ensures this.storeName == storeName && store == null
    {
      this.storeName := storeName;
      store := null;
    }

    /** `finalize_init`; the result is false for the ValueError of a missing store. */
    method FinalizeInit(stores: map<string, Plugin>, ghost all: set<Plugin>) returns (ok: bool)
      requires this in all && stores.Values <= all && Sound(stores, all)
      modifies all`store
      ensures Sound(stores, all) && Kept(all)
      ensures ok ==> Settled(this) && NewSettled(all)
      ensures NewReached(stores, all, this)
      ensures !ok ==> exists p :: p in all && Dangling(stores, p) && Reaches(stores, this, p)
      decreases |Unattached(all)|, 1
    {
      if storeName.Some? {
        ok := AttachStore(stores, all);
      } else {
        ok := true;
      }
    }

    /** `_attach_store` */
    method AttachStore(stores: map<string, Plugin>, ghost all: set<Plugin>) returns (ok: bool)
      requires this in all && stores.Values <= all && Sound(stores, all) && storeName.Some?
      modifies all`store
      ensures Sound(stores, all) && Kept(all)
      ensures ok ==> Settled(this) && NewSettled(all)
      ensures NewReached(stores, all, this)
      ensures !ok ==> exists p :: p in all && Dangling(stores, p) && Reaches(stores, this, p)
      decreases |Unattached(all)|, 0
    {
      ReachesSelf(stores, this);
      if store != null { return true; }
      if storeName.value !in stores { return false; }
      var plugin := stores[storeName.value];
      ghost var before := Unattached(all);
      store := plugin;
      assert Unattached(all) == before - {this};
      ok := plugin.FinalizeInit(stores, all);
      forall p | p in all && Reaches(stores, plugin, p) ensures Reaches(stores, this, p) {
        ReachesThrough(stores, this, p);
      }
    }
  }

  // ---------------------------------------------------------------- the named graph

  /** The store a plugin names, if there is one. */
  function NamedStore(stores: map<string, Plugin>, p: Plugin): Plugin? {
    if p.storeName.Some? && p.storeName.value in stores then stores[p.storeName.value] else null
  }

  predicate Dangling(stores: map<string, Plugin>, p: Plugin) {
    p.storeName.Some? && p.storeName.value !in stores
  }

  /** Following the named stores n times. */
  function Follow(stores: map<string, Plugin>, p: Plugin, n: nat): Plugin?
    decreases n
  {
    if n == 0 then p
    else if NamedStore(stores, p) == null then null
    else Follow(stores, NamedStore(stores, p), n - 1)
  }

  ghost predicate Reaches(stores: map<string, Plugin>, p: Plugin, q: Plugin) {
    exists n: nat :: Follow(stores, p, n) == q
  }

  lemma ReachesSelf(stores: map<string, Plugin>, p: Plugin)
    ensures Reaches(stores, p, p)
  {
    assert Follow(stores, p, 0) == p;
  }

  lemma ReachesThrough(stores: map<string, Plugin>, p: Plugin, q: Plugin)
    requires NamedStore(stores, p) != null && Reaches(stores, NamedStore(stores, p), q)
    ensures Reaches(stores, p, q)
  {
    var n: nat :| Follow(stores, NamedStore(stores, p), n) == q;
    assert Follow(stores, p, n + 1) == q;
  }

  // ---------------------------------------------------------------- attachments

  ghost function Unattached(all: set<Plugin>): set<Plugin>
    reads all
  {
    set p | p in all && p.store == null
  }

  /** Whoever is attached is attached to exactly the store it names. */
  ghost predicate Sound(stores: map<string, Plugin>, all: set<Plugin>)
    reads all
  {
    forall p :: p in all && p.store != null ==> p.store == NamedStore(stores, p)
  }

  /** Nothing left to attach. */
  predicate Settled(p: Plugin)
    reads p
  {
    p.storeName.None? || p.store != null
  }

  twostate predicate Kept(all: set<Plugin>)
    reads all
  {
    forall p :: p in all && old(p.store) != null ==> p.store == old(p.store)
  }

  twostate predicate NewSettled(all: set<Plugin>)
    reads all, set p | p in all && p.store != null :: p.store
  {
    forall p :: p in all && old(p.store) == null && p.store != null ==> Settled(p.store)
  }

  twostate predicate NewReached(stores: map<string, Plugin>, all: set<Plugin>, start: Plugin)
    reads all
  {
    forall p :: p in all && old(p.store) == null && p.store != null ==> Reaches(stores, start, p)
  }

  // ---------------------------------------------------------------- the whole configuration

  /** Whoever is attached is attached to a settled store. */
  ghost predicate Closed(all: set<Plugin>)
    reads all, set p | p in all && p.store != null :: p.store
  {
    forall p :: p in all && p.store != null ==> Settled(p.store)
  }

  /** Attached exactly as its configuration says. */
  predicate Wired(stores: map<string, Plugin>, p: Plugin)
    reads p
  {
    if p.storeName.None? then p.store == null
    else p.storeName.value in stores && p.store == stores[p.storeName.value]
  }

  /** Settledness spreads along the named stores, cycles or not. */
  lemma {:induction false} SettledSpreads(stores: map<string, Plugin>, all: set<Plugin>, p: Plugin, n: nat)
    requires p in all && stores.Values <= all && Sound(stores, all) && Closed(all) && Settled(p)
    ensures Follow(stores, p, n) != null ==> Follow(stores, p, n) in all && Settled(Follow(stores, p, n))
    decreases n
  {
    if n > 0 && NamedStore(stores, p) != null {
      assert p.store != null && p.store == NamedStore(stores, p);
      SettledSpreads(stores, all, p.store, n - 1);
    }
  }

  lemma SettledIsWired(stores: map<string, Plugin>, all: set<Plugin>, p: Plugin)
    requires p in all && Sound(stores, all) && Settled(p)
    ensures Wired(stores, p)
  {
  }

  lemma ReachedIsWired(stores: map<string, Plugin>, all: set<Plugin>, p: Plugin, q: Plugin)
    requires p in all && stores.Values <= all && Sound(stores, all) && Closed(all) && Settled(p)
    requires Reaches(stores, p, q)
    ensures Wired(stores, q)
  {
    var n: nat :| Follow(stores, p, n) == q;
    SettledSpreads(stores, all, p, n);
    SettledIsWired(stores, all, q);
  }

  ghost predicate ReachedFrom(stores: map<string, Plugin>, plugins: seq<Plugin>, q: Plugin) {
    exists i :: 0 <= i < |plugins| && Reaches(stores, plugins[i], q)
  }

  /** The second initialization stage.  It ends on every graph of stores; unless some name in
      reach is dangling it succeeds, and then it has attached exactly the plugins reached from the
      given ones, each to the store it names: the order of the plugins leaves no trace. */
  method FinalizeAll(plugins: seq<Plugin>, stores: map<string, Plugin>, ghost all: set<Plugin>) returns (ok: bool)
    requires (forall p :: p in plugins ==> p in all) && stores.Values <= all
    requires forall p :: p in all ==> p.store == null
    modifies all`store
    ensures !ok ==> exists p :: p in all && Dangling(stores, p) && ReachedFrom(stores, plugins, p)
    ensures ok ==> forall p :: p in all && ReachedFrom(stores, plugins, p) ==> Wired(stores, p)
    ensures forall p :: p in all && !ReachedFrom(stores, plugins, p) ==> p.store == null
  {
    for i := 0 to |plugins|
      invariant Sound(stores, all) && Closed(all)
      invariant forall j :: 0 <= j < i ==> Settled(plugins[j])
      invariant forall p :: p in all && p.store != null ==> ReachedFrom(stores, plugins, p)
    {
      label before:
      ok := plugins[i].FinalizeInit(stores, all);
      forall p | p in all && p.store != null ensures ReachedFrom(stores, plugins, p) {
        if old@before(p.store) == null { assert Reaches(stores, plugins[i], p); }
      }
      if !ok { return false; }
      assert Closed(all);
    }
    forall p | p in all && ReachedFrom(stores, plugins, p) ensures Wired(stores, p) {
      var i :| 0 <= i < |plugins| && Reaches(stores, plugins[i], p);
      ReachedIsWired(stores, all, plugins[i], p);
    }
    ok := true;
  }
}
