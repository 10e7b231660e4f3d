/** The encrypting overlay.  Encryption is ideal: a token is a value that only the overlay's master
    key makes and opens, as a JWE token is (section 5.1 of RFC 7516). */
module Overlay {
  import opened Text
  import opened Sqlite

  /** `Pinning` stands for every setting that is neither "encrypt" nor "migrate". */
  datatype Mode = Encrypt | Migrate | Pinning

  /** A token sealed with a master key, with or without the key name in its protected header, or
      text that is no token at all. */
  datatype Token = Sealed(mkey: nat, pin: Option<string>, plain: string) | Junk(text: string)

  type Backing = Table<Token>

  datatype Got = Value(value: string) | Absent | Error

  datatype Read = Read(table: Backing, got: Got)

  function Seal(mkey: nat, mode: Mode, key: string, value: string): Token {
    Sealed(mkey, if mode == Encrypt then None else Some(key), value)
  }

  function GetOf(t: Backing, mkey: nat, mode: Mode, key: string): Read {
    if key !in t || t[key].Null? then Read(t, Absent)
    else if t[key].Blank? then Read(t, Error)
    else match t[key].value
      case Junk(_) => Read(t, Error)
      case Sealed(m, pin, plain) =>
        if m != mkey then Read(t, Error)
        else if mode == Encrypt then Read(t, Value(plain))
        else if pin.None? then
          if mode == Pinning then Read(t, Error)
          else
            var w := SetOf(t, key, Held(Seal(mkey, mode, key, plain)), true);
            if w.outcome.Stored? then Read(w.table, Value(plain)) else Read(t, Error)
        else if pin.value != key then Read(t, Error)
        else Read(t, Value(plain))
  }

  /** A read finds nothing, or a token of the overlay's own key whose pin fits; everything else,
      a failed pinning check included, is an error.  It writes only to pin such a token. */
  lemma GetExactly(t: Backing, mkey: nat, mode: Mode, key: string)
    ensures var r := GetOf(t, mkey, mode, key);
            && (r.got == Absent <==> key !in t || t[key] == Null)
            && (r.got.Value? <==> Own(t, mkey, key) && PinFits(mode, t[key].value.pin, key))
            && (r.got.Value? ==> r.got.value == t[key].value.plain)
            && (r.got == Error <==>
                  key in t && t[key] != Null && !(Own(t, mkey, key) && PinFits(mode, t[key].value.pin, key)))
            && r.table ==
               if mode == Migrate && Own(t, mkey, key) && t[key].value.pin == None && !EndsWithSlash(key)
               then t[key := Held(Sealed(mkey, Some(key), t[key].value.plain))] else t
  {
  }

  datatype Header = Header(pin: Option<string>)

  class EncryptedOverlay {
    const mkey: nat
    const mode: Mode
    const store: SqliteStore<Token>
    var protectedHeader: Option<Header>

    constructor (mkey: nat, mode: Mode, store: SqliteStore<Token>)
      ensures this.mkey == mkey && this.mode == mode && this.store == store && protectedHeader == None
    {
      this.mkey, this.mode, this.store, protectedHeader := mkey, mode, store, None;
    }

    method Set(key: string, value: string, replace: bool) returns (outcome: Outcome)
      modifies this, store
      ensures Write(store.rows, outcome) == SetOf(old(store.rows), key, Held(Seal(mkey, mode, key, value)), replace)
      ensures outcome.Stored? ==>
                var pin := if mode == Encrypt then None else Some(key);
                store.rows == old(store.rows)[key := Held(Sealed(mkey, pin, value))]
      ensures protectedHeader == Some(Header(if mode == Encrypt then None else Some(key)))
    {
      protectedHeader := Some(Header(None));
      if mode != Encrypt {
        protectedHeader := Some(Header(Some(key)));
      }
      var token := Sealed(mkey, protectedHeader.value.pin, value);
      outcome := store.Set(key, Held(token), replace);
    }

    method Get(key: string) returns (got: Got)
      modifies this, store
      ensures Read(store.rows, got) == GetOf(old(store.rows), mkey, mode, key)
    {
      var row := store.Get(key);
      if row.None? { return Absent; }
      if row.value.Blank? || row.value.value.Junk? || row.value.value.mkey != mkey { return Error; }
      var token := row.value.value;
      if mode == Encrypt { return Value(token.plain); }
      if token.pin.None? {
        if mode != Migrate { return Error; }
        var outcome := Set(key, token.plain, true);
        if !outcome.Stored? { return Error; }
      } else if token.pin.value != key {
        return Error;
      }
      return Value(token.plain);
    }

    method Span(key: string) returns (outcome: Outcome)
      modifies store
      ensures Write(store.rows, outcome) == SpanOf(old(store.rows), key)
    {
      outcome := store.Span(key);
    }

    method List(keyfilter: string) returns (r: Option<seq<string>>)
      ensures r == ListOf(store.rows, keyfilter)
    {
      r := store.List(keyfilter);
    }

    method Cut(key: string) returns (removed: bool)
      modifies store
      ensures Removal(store.rows, removed) == CutOf(old(store.rows), key)
    {
      removed := store.Cut(key);
    }
  }

  // ---------------------------------------------------------------- simulation of the plain store

  datatype Op = OpSet(key: string, value: string, replace: bool) | OpSpan(key: string) | OpList(keyfilter: string)
              | OpCut(key: string) | OpGet(key: string)

  datatype Result = Wrote(outcome: Outcome) | Listed(names: Option<seq<string>>) | Took(removed: bool)
                  | Fetched(got: Got)

  /** The same call on the backing store alone, holding the value itself. */
  ghost function PlainStep(t: Table<string>, op: Op): (Table<string>, Result) {
    match op
    case OpSet(k, v, replace) =>
      var w := SetOf(t, k, if v == [] then Blank else Held(v), replace); (w.table, Wrote(w.outcome))
    case OpSpan(k) => var w := SpanOf(t, k); (w.table, Wrote(w.outcome))
    case OpList(f) => (t, Listed(ListOf(t, f)))
    case OpCut(k) => var c := CutOf(t, k); (c.table, Took(c.removed))
    case OpGet(k) => (t, Fetched(match Look(t, k)
                                 case None => Absent
                                 case Some(Null) => Absent
                                 case Some(Blank) => Value("")
                                 case Some(Held(v)) => Value(v)))
  }

  ghost function OverlayStep(t: Backing, mkey: nat, mode: Mode, op: Op): (Backing, Result) {
    match op
    case OpSet(k, v, replace) =>
      var w := SetOf(t, k, Held(Seal(mkey, mode, k, v)), replace); (w.table, Wrote(w.outcome))
    case OpSpan(k) => var w := SpanOf(t, k); (w.table, Wrote(w.outcome))
    case OpList(f) => (t, Listed(ListOf(t, f)))
    case OpCut(k) => var c := CutOf(t, k); (c.table, Took(c.removed))
    case OpGet(k) => var r := GetOf(t, mkey, mode, k); (r.table, Fetched(r.got))
  }

  /** Nonempty values, and no reads of containers. */
  predicate Eligible(t: Table<string>, op: Op) {
    (op.OpSet? ==> op.value != []) && (op.OpGet? ==> op.key !in t || !t[op.key].Blank?)
  }

  /** The pins under which the overlay returns what the row at `k` holds: its own key in every mode,
      any pin or none in encrypt mode, and none in migrate mode if the row can be rewritten. */
  predicate PinFits(mode: Mode, pin: Option<string>, k: string) {
    mode == Encrypt || pin == Some(k) || (mode == Migrate && pin.None? && !EndsWithSlash(k))
  }

  /** The backing rows are the plain rows, each nonempty value sealed so that it can be read. */
  ghost predicate Sealing(p: Table<string>, o: Backing, mkey: nat, mode: Mode) {
    p.Keys == o.Keys
    && forall k :: k in p ==> SealedCell(p[k], o[k], mkey, mode, k)
  }

  predicate SealedCell(x: Cell<string>, y: Cell<Token>, mkey: nat, mode: Mode, k: string) {
    (x.Null? && y.Null?) || (x.Blank? && y.Blank?)
    || (x.Held? && x.value != [] && y.Held? && y.value.Sealed? && y.value.mkey == mkey && y.value.plain == x.value
        && PinFits(mode, y.value.pin, k))
  }

  /** No other pins would do: a sealed row reads back exactly if its pin fits. */
  lemma FittingReads(o: Backing, mkey: nat, mode: Mode, k: string)
    requires k in o && o[k].Held? && o[k].value.Sealed? && o[k].value.mkey == mkey
    ensures GetOf(o, mkey, mode, k).got == Value(o[k].value.plain) <==> PinFits(mode, o[k].value.pin, k)
  {
  }

  lemma SameListing(p: Table<string>, o: Backing, mkey: nat, mode: Mode, keyfilter: string)
    requires Sealing(p, o, mkey, mode)
    ensures ListOf(p, keyfilter) == ListOf(o, keyfilter)
  {
    forall k ensures Shape(p, k) == Shape(o, k) {
      if k in p { assert SealedCell(p[k], o[k], mkey, mode, k); }
    }
    assert p == map[] <==> p.Keys == {};
    assert o == map[] <==> o.Keys == {};
    ListOfLocal(p, o, keyfilter);
  }

  lemma SimulationStep(p: Table<string>, o: Backing, mkey: nat, mode: Mode, op: Op)
    requires Sealing(p, o, mkey, mode) && Eligible(p, op)
    ensures PlainStep(p, op).1 == OverlayStep(o, mkey, mode, op).1
    ensures Sealing(PlainStep(p, op).0, OverlayStep(o, mkey, mode, op).0, mkey, mode)
  {
    match op {
      case OpSet(k, v, replace) =>
      case OpSpan(k) =>
      case OpList(f) => SameListing(p, o, mkey, mode, f);
      case OpCut(k) =>
      case OpGet(k) => if k in p { assert SealedCell(p[k], o[k], mkey, mode, k); }
    }
  }

  ghost function PlainResults(t: Table<string>, ops: seq<Op>): seq<Result>
    decreases ops
  {
    if ops == [] then [] else var r := PlainStep(t, ops[0]); [r.1] + PlainResults(r.0, ops[1..])
  }

  ghost function OverlayResults(t: Backing, mkey: nat, mode: Mode, ops: seq<Op>): seq<Result>
    decreases ops
  {
    if ops == [] then []
    else var r := OverlayStep(t, mkey, mode, ops[0]); [r.1] + OverlayResults(r.0, mkey, mode, ops[1..])
  }

  ghost predicate EligibleRun(t: Table<string>, ops: seq<Op>)
    decreases ops
  {
    ops == [] || (Eligible(t, ops[0]) && EligibleRun(PlainStep(t, ops[0]).0, ops[1..]))
  }

  /** In every mode, from any table whose rows the overlay can read, unpinned ones awaiting their
      migration included, every eligible run gives the results, refusals included, that the same
      run gives on the backing store alone. */
  lemma {:induction false} OverlaySimulatesStore(p: Table<string>, o: Backing, mkey: nat, mode: Mode, ops: seq<Op>)
    requires Sealing(p, o, mkey, mode) && EligibleRun(p, ops)
    ensures PlainResults(p, ops) == OverlayResults(o, mkey, mode, ops)
    decreases ops
  {
    if ops != [] {
      SimulationStep(p, o, mkey, mode, ops[0]);
      OverlaySimulatesStore(PlainStep(p, ops[0]).0, OverlayStep(o, mkey, mode, ops[0]).0, mkey, mode, ops[1..]);
    }
  }


  // ---------------------------------------------------------------- pinning

  /** A call through the overlay, or someone rewriting the backing rows. */
  datatype Act = Do(op: Op) | Tamper(rows: Backing)

  /** `seen` holds every token that was ever in the backing rows, `stored` the pairs of key and
      value of every set that succeeded. */
  datatype World = World(table: Backing, seen: set<Token>, stored: set<(string, string)>)

  function Tokens(t: Backing): set<Token> {
    set k | k in t && t[k].Held? :: t[k].value
  }

  ghost function Happen(w: World, mkey: nat, mode: Mode, act: Act): World {
    match act
    case Tamper(rows) => World(rows, w.seen + Tokens(rows), w.stored)
    case Do(op) =>
      var r := OverlayStep(w.table, mkey, mode, op);
      World(r.0, w.seen + Tokens(r.0),
            if op.OpSet? && r.1 == Wrote(Stored) then w.stored + {(op.key, op.value)} else w.stored)
  }

  /** Rows may be copied, permuted, dropped, brought back or invented, but no token of the
      overlay's own key can be made up. */
  ghost predicate Possible(w: World, mkey: nat, act: Act) {
    act.Tamper? ==>
      forall tok :: tok in Tokens(act.rows) && tok.Sealed? && tok.mkey == mkey ==> tok in w.seen
  }

  ghost predicate PossibleRun(w: World, mkey: nat, mode: Mode, acts: seq<Act>)
    decreases acts
  {
    acts == [] || (Possible(w, mkey, acts[0]) && PossibleRun(Happen(w, mkey, mode, acts[0]), mkey, mode, acts[1..]))
  }

  ghost function AfterActs(w: World, mkey: nat, mode: Mode, acts: seq<Act>): World
    decreases acts
  {
    if acts == [] then w else AfterActs(Happen(w, mkey, mode, acts[0]), mkey, mode, acts[1..])
  }

  /** Every pinned token of the overlay's key holds what was stored under the key it is pinned to;
      in migrate mode, which trusts unpinned tokens, there is no unpinned one. */
  ghost predicate Pinned(w: World, mkey: nat, mode: Mode) {
    Tokens(w.table) <= w.seen
    && forall tok :: tok in w.seen && tok.Sealed? && tok.mkey == mkey ==>
         if tok.pin.Some? then (tok.pin.value, tok.plain) in w.stored else mode == Pinning
  }

  lemma TokenOf(t: Backing, k: string)
    requires k in t && t[k].Held?
    ensures t[k].value in Tokens(t)
  {
  }

  lemma PinnedGetWritesNothing(w: World, mkey: nat, mode: Mode, key: string)
    requires mode != Encrypt && Pinned(w, mkey, mode)
    ensures GetOf(w.table, mkey, mode, key).table == w.table
    ensures Honest(w, mkey, mode, key)
  {
    if key in w.table && w.table[key].Held? { TokenOf(w.table, key); }
  }

  lemma PinnedStep(w: World, mkey: nat, mode: Mode, act: Act)
    requires mode != Encrypt && Pinned(w, mkey, mode) && Possible(w, mkey, act)
    ensures Pinned(Happen(w, mkey, mode, act), mkey, mode)
  {
    var w' := Happen(w, mkey, mode, act);
    if act.Do? {
      if act.op.OpGet? { PinnedGetWritesNothing(w, mkey, mode, act.op.key); }
      forall tok | tok in Tokens(w'.table)
        ensures tok in w.seen || (act.op.OpSet? && tok == Seal(mkey, mode, act.op.key, act.op.value)
                                  && (act.op.key, act.op.value) in w'.stored)
      {
        var k :| k in w'.table && w'.table[k].Held? && w'.table[k].value == tok;
        if k in w.table && w.table[k] == w'.table[k] { TokenOf(w.table, k); }
      }
    }
  }

  lemma {:induction false} PinnedRun(w: World, mkey: nat, mode: Mode, acts: seq<Act>)
    requires mode != Encrypt && Pinned(w, mkey, mode) && PossibleRun(w, mkey, mode, acts)
    ensures Pinned(AfterActs(w, mkey, mode, acts), mkey, mode)
    decreases acts
  {
    if acts != [] {
      PinnedStep(w, mkey, mode, acts[0]);
      PinnedRun(Happen(w, mkey, mode, acts[0]), mkey, mode, acts[1..]);
    }
  }

  ghost predicate Honest(w: World, mkey: nat, mode: Mode, key: string) {
    var got := GetOf(w.table, mkey, mode, key).got;
    got.Value? ==> (key, got.value) in w.stored
  }

  predicate Own(t: Backing, mkey: nat, k: string) {
    k in t && t[k].Held? && t[k].value.Sealed? && t[k].value.mkey == mkey
  }

  /** A table to start from: pinned rows are pinned to their own keys. */
  ghost predicate Rooted(t: Backing, mkey: nat) {
    forall k :: Own(t, mkey, k) ==> t[k].value.pin.None? || t[k].value.pin == Some(k)
  }

  /** The contents of the rows there are count as stored. */
  function Opening(t: Backing, mkey: nat): World {
    World(t, Tokens(t), set k | k in t && Own(t, mkey, k) :: (k, t[k].value.plain))
  }

  function UnpinnedOwn(t: Backing, mkey: nat): set<string> {
    set k | k in t && Own(t, mkey, k) && t[k].value.pin.None?
  }

  /** Starting from `t`, a read returns only what was there or was stored under that very key, in
      every run with arbitrary rewriting of the backing rows. */
  ghost predicate PinsSecrets(t: Backing, mkey: nat, mode: Mode) {
    forall acts: seq<Act>, key: string :: PossibleRun(Opening(t, mkey), mkey, mode, acts) ==>
      Honest(AfterActs(Opening(t, mkey), mkey, mode, acts), mkey, mode, key)
  }

  lemma OpeningPinned(t: Backing, mkey: nat, mode: Mode)
    requires Rooted(t, mkey) && (mode == Pinning || (mode == Migrate && UnpinnedOwn(t, mkey) == {}))
    ensures Pinned(Opening(t, mkey), mkey, mode)
  {
    var w := Opening(t, mkey);
    forall tok | tok in w.seen && tok.Sealed? && tok.mkey == mkey
      ensures if tok.pin.Some? then (tok.pin.value, tok.plain) in w.stored else mode == Pinning
    {
      var k :| k in t && t[k].Held? && t[k].value == tok;
      assert Own(t, mkey, k) && (k, tok.plain) in w.stored;
      if tok.pin.None? { assert k in UnpinnedOwn(t, mkey); }
    }
  }

  /** Pinning mode pins from every table.  Migrate mode does exactly once there is nothing left to
      migrate: before that it pins whatever unpinned token it finds to the key it finds it under.
      Encrypt mode never does. */
  lemma PinningExactly(t: Backing, mkey: nat, mode: Mode)
    requires Rooted(t, mkey)
    ensures PinsSecrets(t, mkey, mode) <==> mode == Pinning || (mode == Migrate && UnpinnedOwn(t, mkey) == {})
  {
    var start := Opening(t, mkey);
    if mode == Pinning || (mode == Migrate && UnpinnedOwn(t, mkey) == {}) {
      OpeningPinned(t, mkey, mode);
      forall acts: seq<Act>, key: string | PossibleRun(start, mkey, mode, acts)
        ensures Honest(AfterActs(start, mkey, mode, acts), mkey, mode, key)
      {
        PinnedRun(start, mkey, mode, acts);
        PinnedGetWritesNothing(AfterActs(start, mkey, mode, acts), mkey, mode, key);
      }
    } else if mode == Migrate {
      var k :| k in UnpinnedOwn(t, mkey);
      UnpinnedSwap(t, mkey, k);
    } else {
      EncryptedSwap(t, mkey);
    }
  }

  // ---------------------------------------------------------------- the swaps that go unnoticed

  /** There is always a key left that no row has. */
  lemma {:induction false} FreshKey(keys: set<string>) returns (n: nat)
    ensures forall k :: k in keys ==> |k| < n
  {
    n := 1;
    if keys != {} {
      var k :| k in keys;
      n := FreshKey(keys - {k});
      n := if |k| < n then n else |k| + 1;
    }
  }

  function Bees(n: nat): (s: string)
    ensures |s| == n && !EndsWithSlash(s)
  {
    seq(n, _ => 'b')
  }

  /** In migrate mode an unpinned row copied to another key is read there, pinned there, and read
      there for good. */
  lemma MigrationTrusts(t: Backing, mkey: nat, from: string, to: string)
    requires from in UnpinnedOwn(t, mkey) && !EndsWithSlash(to)
    ensures var r := GetOf(t[to := t[from]], mkey, Migrate, to);
            r.got == Value(t[from].value.plain) && GetOf(r.table, mkey, Pinning, to) == Read(r.table, r.got)
  {
  }

  lemma TamperedRun(w: World, mkey: nat, mode: Mode, rows: Backing)
    requires Possible(w, mkey, Tamper(rows))
    ensures PossibleRun(w, mkey, mode, [Tamper(rows)])
    ensures AfterActs(w, mkey, mode, [Tamper(rows)]) == Happen(w, mkey, mode, Tamper(rows))
  {
    assert [Tamper(rows)][1..] == [];
  }

  lemma CopyPossible(w: World, mkey: nat, from: string, to: string)
    requires from in w.table && w.table[from].Held? && Tokens(w.table) <= w.seen
    ensures Possible(w, mkey, Tamper(w.table[to := w.table[from]]))
  {
    var rows := w.table[to := w.table[from]];
    forall tok | tok in Tokens(rows) ensures tok in w.seen {
      var k :| k in rows && rows[k].Held? && rows[k].value == tok;
      TokenOf(w.table, if k == to then from else k);
    }
  }

  lemma UnpinnedSwap(t: Backing, mkey: nat, from: string)
    requires from in UnpinnedOwn(t, mkey)
    ensures !PinsSecrets(t, mkey, Migrate)
  {
    var start := Opening(t, mkey);
    var n := FreshKey(t.Keys);
    var to := Bees(n);
    CopyPossible(start, mkey, from, to);
    TamperedRun(start, mkey, Migrate, t[to := t[from]]);
    MigrationTrusts(t, mkey, from, to);
    assert to !in t;
    assert !Honest(AfterActs(start, mkey, Migrate, [Tamper(t[to := t[from]])]), mkey, Migrate, to);
  }

  /** In encrypt mode a row stored a moment ago and copied to another key is read there. */
  lemma EncryptedSwap(t: Backing, mkey: nat)
    ensures !PinsSecrets(t, mkey, Encrypt)
  {
    var start := Opening(t, mkey);
    var n := FreshKey(t.Keys);
    var from, to := Bees(n), Bees(n + 1);
    assert from !in t && to !in t && from != to;
    var put := Do(OpSet(from, "v", false));
    var w := Happen(start, mkey, Encrypt, put);
    assert w.table == t[from := Held(Seal(mkey, Encrypt, from, "v"))];
    CopyPossible(w, mkey, from, to);
    var swap := Tamper(w.table[to := w.table[from]]);
    TamperedRun(w, mkey, Encrypt, swap.rows);
    var acts := [put] + [swap];
    assert acts[1..] == [swap];
    assert PossibleRun(start, mkey, Encrypt, acts);
    assert !Honest(AfterActs(start, mkey, Encrypt, acts), mkey, Encrypt, to);
  }

  // ---------------------------------------------------------------- migration

  /** Rows written before pinning or pinned to their own key, under keys that can be rewritten. */
  ghost predicate Migratable(t: Backing, mkey: nat) {
    forall k :: k in t && t[k].Held? ==>
      !EndsWithSlash(k) && t[k].value.Sealed? && t[k].value.mkey == mkey
      && (t[k].value.pin == None || t[k].value.pin == Some(k))
  }

  function Unpinned(t: Backing): set<string> {
    set k | k in t && t[k].Held? && t[k].value.Sealed? && t[k].value.pin.None?
  }

  function Repinned(t: Backing, mkey: nat, key: string): Backing {
    if key in Unpinned(t) then t[key := Held(Sealed(mkey, Some(key), t[key].value.plain))] else t
  }

  lemma MigrateWrites(t: Backing, mkey: nat, key: string)
    requires Migratable(t, mkey)
    ensures GetOf(t, mkey, Migrate, key) == Read(Repinned(t, mkey, key), GetOf(t, mkey, Encrypt, key).got)
  {
    assert key in Unpinned(t) <==> key in t && t[key].Held? && t[key].value.Sealed? && t[key].value.pin.None?;
  }

  lemma RepinnedKeeps(t: Backing, mkey: nat, key: string)
    requires Migratable(t, mkey)
    ensures Migratable(Repinned(t, mkey, key), mkey)
    ensures Unpinned(Repinned(t, mkey, key)) == Unpinned(t) - {key}
  {
    assert key !in Unpinned(t) ==> Unpinned(t) - {key} == Unpinned(t);
  }

  lemma RepinnedReads(t: Backing, mkey: nat, key: string, k: string)
    requires Migratable(t, mkey)
    ensures GetOf(Repinned(t, mkey, key), mkey, Encrypt, k).got == GetOf(t, mkey, Encrypt, k).got
  {
  }

  /** A migrating read returns what encrypt mode would, and pins the row it read: the unpinned
      rows become one fewer, or stay as they are. */
  lemma MigrateGet(t: Backing, mkey: nat, key: string)
    requires Migratable(t, mkey)
    ensures var r := GetOf(t, mkey, Migrate, key);
            && r.got == GetOf(t, mkey, Encrypt, key).got
            && Migratable(r.table, mkey)
            && Unpinned(r.table) == Unpinned(t) - {key}
            && |Unpinned(r.table)| == |Unpinned(t)| - (if key in Unpinned(t) then 1 else 0)
    ensures forall k ::
              GetOf(GetOf(t, mkey, Migrate, key).table, mkey, Encrypt, k).got == GetOf(t, mkey, Encrypt, k).got
  {
    MigrateWrites(t, mkey, key);
    RepinnedKeeps(t, mkey, key);
    forall k ensures GetOf(Repinned(t, mkey, key), mkey, Encrypt, k).got == GetOf(t, mkey, Encrypt, k).got {
      RepinnedReads(t, mkey, key, k);
    }
  }

  ghost function MigrateAll(t: Backing, mkey: nat, keys: seq<string>): Backing
    decreases keys
  {
    if keys == [] then t else MigrateAll(GetOf(t, mkey, Migrate, keys[0]).table, mkey, keys[1..])
  }

  lemma {:induction false} MigrateAllKeeps(t: Backing, mkey: nat, keys: seq<string>)
    requires Migratable(t, mkey)
    ensures Migratable(MigrateAll(t, mkey, keys), mkey)
    ensures Unpinned(MigrateAll(t, mkey, keys)) == Unpinned(t) - set k | k in keys
    decreases keys
  {
    if keys != [] {
      MigrateWrites(t, mkey, keys[0]);
      RepinnedKeeps(t, mkey, keys[0]);
      MigrateAllKeeps(Repinned(t, mkey, keys[0]), mkey, keys[1..]);
      assert keys == [keys[0]] + keys[1..];
    }
  }

  lemma {:induction false} MigrateAllReads(t: Backing, mkey: nat, keys: seq<string>, k: string)
    requires Migratable(t, mkey)
    ensures GetOf(MigrateAll(t, mkey, keys), mkey, Encrypt, k).got == GetOf(t, mkey, Encrypt, k).got
    decreases keys
  {
    if keys != [] {
      MigrateWrites(t, mkey, keys[0]);
      RepinnedKeeps(t, mkey, keys[0]);
      RepinnedReads(t, mkey, keys[0], k);
      MigrateAllReads(Repinned(t, mkey, keys[0]), mkey, keys[1..], k);
    }
  }

  /** Once every key has been read in migrate mode, in any order and however often, pinning mode
      reads exactly what encrypt mode read before. */
  lemma MigrationConverges(t: Backing, mkey: nat, keys: seq<string>)
    requires Migratable(t, mkey) && forall k :: k in t ==> k in keys
    ensures Unpinned(MigrateAll(t, mkey, keys)) == {}
    ensures forall k :: GetOf(MigrateAll(t, mkey, keys), mkey, Pinning, k).got == GetOf(t, mkey, Encrypt, k).got
  {
    MigrateAllKeeps(t, mkey, keys);
    var done := MigrateAll(t, mkey, keys);
    forall k ensures GetOf(done, mkey, Pinning, k).got == GetOf(t, mkey, Encrypt, k).got {
      MigrateAllReads(t, mkey, keys, k);
      assert k !in Unpinned(done);
    }
  }
}
