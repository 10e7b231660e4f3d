/** The flat table behind every store: one row per key, containers kept as rows with an empty
    value.  `List` is the fast form (a LIKE prefilter and a filter loop); `ListOf` is the simple
    subtree specification it has to meet. */
module Sqlite {
  import opened Text

  /** A value column: SQL NULL, the empty string, or contents of type T. */
  datatype Cell<+T> = Null | Blank | Held(value: T)

  type Table<T> = map<string, Cell<T>>

  datatype Outcome = Stored | AlreadyExists | BadKey

  datatype Write<T> = Write(table: Table<T>, outcome: Outcome)

  datatype Removal<T> = Removal(table: Table<T>, removed: bool)

  /** What the table says about one key. */
  function Look<T>(t: Table<T>, k: string): Option<Cell<T>> {
    if k in t then Some(t[k]) else None
  }

  // ---------------------------------------------------------------- point operations

  function SetOf<T>(t: Table<T>, key: string, cell: Cell<T>, replace: bool): Write<T> {
    if EndsWithSlash(key) then Write(t, BadKey)
    else if !replace && key in t then Write(t, AlreadyExists)
    else Write(t[key := cell], Stored)
  }

  function SpanOf<T>(t: Table<T>, key: string): Write<T> {
    if RStrip(key) in t then Write(t, AlreadyExists) else Write(t[RStrip(key) := Blank], Stored)
  }

  function CutOf<T>(t: Table<T>, key: string): Removal<T> {
    Removal(t - {key}, key in t)
  }

  // ---------------------------------------------------------------- LIKE

  /** SQLite folds case for the ASCII letters only. */
  function Fold(c: char): char {
    if 'A' <= c <= 'Z' then c - 'A' + 'a' else c
  }

  /** `s LIKE p`, without an ESCAPE character. */
  predicate Like(p: string, s: string)
    decreases |p| + |s|
  {
    if p == [] then s == []
    else if p[0] == '%' then Like(p[1..], s) || (s != [] && Like(p, s[1..]))
    else s != [] && (p[0] == '_' || Fold(p[0]) == Fold(s[0])) && Like(p[1..], s[1..])
  }

  lemma {:induction false} LikeAnything(s: string)
    ensures Like("%", s)
  {
    if s == [] {
      assert Like("", s);
    } else {
      LikeAnything(s[1..]);
    }
  }

  /** The prefilter never loses a row: whatever wildcards the path itself contains, every key
      that starts with it matches. */
  lemma {:induction false} PrefilterKeeps(path: string, key: string)
    requires path <= key
    ensures Like(path + "%", key)
  {
    if path == [] {
      assert path + "%" == "%";
      LikeAnything(key);
    } else {
      PrefilterKeeps(path[1..], key[1..]);
      assert (path + "%")[1..] == path[1..] + "%";
    }
  }

  /** It does let more through: an underscore in the path stands for any character, and ASCII
      letters for either case. */
  lemma PrefilterIsWider(c: char, s: string)
    ensures Like("_%", [c] + s)
    ensures 'a' <= c <= 'z' ==> Like([c - 'a' + 'A'] + "%", [c] + s)
  {
    var key := [c] + s;
    assert key[1..] == s && ("_%")[1..] == "%";
    LikeAnything(s);
    if 'a' <= c <= 'z' {
      var p := [c - 'a' + 'A'] + "%";
      assert p[1..] == "%" && p[0] != '%';
    }
  }

  // ---------------------------------------------------------------- the listing specification

  function ChildPrefix(path: string): string {
    if path == [] then path else path + "/"
  }

  predicate At(path: string, key: string) {
    key == path || key == ChildPrefix(path)
  }

  predicate StrictlyBelow(path: string, key: string) {
    ChildPrefix(path) <= key && !At(path, key)
  }

  /** Which rows lie below a path, read off the keys. */
  lemma BelowExactly(path: string, key: string)
    ensures StrictlyBelow(path, key) <==>
            if path == "" then key != "" else exists rest: string :: rest != "" && key == path + "/" + rest
  {
    if StrictlyBelow(path, key) && path != "" {
      var rest := key[|path| + 1..];
      assert key == path + "/" + rest && (rest == "" ==> key == path + "/");
    }
  }

  function Below<T>(t: Table<T>, path: string): set<string> {
    set k | k in t && StrictlyBelow(path, k)
  }

  /** The name under which a row is listed: relative to the path, marked `/` when empty. */
  function EntryName<T>(path: string, key: string, cell: Cell<T>): string
    requires ChildPrefix(path) <= key
  {
    var rel := LStrip(key[|ChildPrefix(path)|..]);
    if cell.Held? then rel else rel + "/"
  }

  /** The name is what follows the path, without slashes in front, and marked if the row is empty. */
  lemma EntryNameExactly<T>(path: string, slashes: string, rest: string, cell: Cell<T>)
    requires (forall i :: 0 <= i < |slashes| ==> slashes[i] == '/') && (rest == [] || rest[0] != '/')
    ensures EntryName(path, ChildPrefix(path) + (slashes + rest), cell) ==
            if cell.Null? || cell.Blank? then rest + "/" else rest
  {
    var p := ChildPrefix(path);
    assert (p + (slashes + rest))[|p|..] == slashes + rest;
    LStripRun(slashes, rest);
  }

  predicate Bears<T>(t: Table<T>, path: string, k: string, name: string) {
    k in t && StrictlyBelow(path, k) && EntryName(path, k, t[k]) == name
  }

  ghost function NamedBy<T>(t: Table<T>, path: string, ks: set<string>, name: string): set<string> {
    set k | k in ks && Bears(t, path, k, name)
  }

  /** `names` lists the rows `ks` that lie strictly below `path`: sorted, each name as often as
      there are rows bearing it. */
  ghost predicate IsListing<T>(t: Table<T>, path: string, ks: set<string>, names: seq<string>) {
    Sorted(names) && Counts(t, path, ks, names)
  }

  ghost predicate Counts<T>(t: Table<T>, path: string, ks: set<string>, names: seq<string>) {
    forall n :: multiset(names)[n] == |NamedBy(t, path, ks, n)|
  }

  /** Taking one more row into account adds its name once if it lies below, nothing otherwise. */
  lemma CountsGrow<T>(t: Table<T>, path: string, ks: set<string>, k: string, names: seq<string>, names': seq<string>)
    requires k in t && k !in ks && Counts(t, path, ks, names)
    requires if StrictlyBelow(path, k) then multiset(names') == multiset(names) + multiset{EntryName(path, k, t[k])}
             else names' == names
    ensures Counts(t, path, ks + {k}, names')
  {
    forall n ensures multiset(names')[n] == |NamedBy(t, path, ks + {k}, n)| {
      NamedGrows(t, path, ks, k, n);
      assert multiset(names)[n] == |NamedBy(t, path, ks, n)|;
      assert multiset(names')[n] == multiset(names)[n] + if Bears(t, path, k, n) then 1 else 0;
    }
  }

  lemma NamedGrows<T>(t: Table<T>, path: string, ks: set<string>, k: string, n: string)
    requires k !in ks
    ensures |NamedBy(t, path, ks + {k}, n)| == |NamedBy(t, path, ks, n)| + if Bears(t, path, k, n) then 1 else 0
  {
    var before, after := NamedBy(t, path, ks, n), NamedBy(t, path, ks + {k}, n);
    if Bears(t, path, k, n) {
      assert after == before + {k};
    } else {
      assert after == before;
    }
  }

  lemma ListingUnique<T>(t: Table<T>, path: string, ks: set<string>, a: seq<string>, b: seq<string>)
    requires IsListing(t, path, ks, a) && IsListing(t, path, ks, b)
    ensures a == b
  {
    assert multiset(a) == multiset(b) by {
      forall n ensures multiset(a)[n] == multiset(b)[n] {
        assert multiset(a)[n] == |NamedBy(t, path, ks, n)|;
      }
    }
    SortedUnique(a, b);
  }

  /** The listing itself, built from the rows in any order. */
  ghost function Entries<T>(t: Table<T>, path: string, ks: set<string>): (names: seq<string>)
    requires ks <= t.Keys
    ensures IsListing(t, path, ks, names)
  {
    if ks == {} then
      assert forall n :: NamedBy(t, path, ks, n) == {};
      []
    else
      var k :| k in ks;
      var rest := Entries(t, path, ks - {k});
      var names := if StrictlyBelow(path, k) then Insert(EntryName(path, k, t[k]), rest) else rest;
      CountsGrow(t, path, ks - {k}, k, rest, names);
      assert ks - {k} + {k} == ks;
      assert Sorted(names) by {
        if StrictlyBelow(path, k) { InsertSorted(EntryName(path, k, t[k]), rest); }
      }
      names
  }

  /** The simple subtree specification of `list`. */
  ghost function ListOf<T>(t: Table<T>, keyfilter: string): Option<seq<string>> {
    var path := RStrip(keyfilter);
    if Below(t, path) != {} || path in t || ChildPrefix(path) in t || (t == map[] && keyfilter == []) then
      Some(Entries(t, path, t.Keys))
    else
      None
  }

  /** What is returned lists exactly the rows strictly below the path. */
  lemma ListOfIsListing<T>(t: Table<T>, keyfilter: string)
    requires ListOf(t, keyfilter).Some?
    ensures IsListing(t, RStrip(keyfilter), t.Keys, ListOf(t, keyfilter).value)
  {
  }

  /** For a nonempty path, `None` means exactly that no row is at or below it, and an empty
      listing that the only rows there are at it. */
  lemma ListOfAbsent<T>(t: Table<T>, keyfilter: string)
    requires RStrip(keyfilter) != []
    ensures ListOf(t, keyfilter).None? <==>
            forall k :: k in t ==> !At(RStrip(keyfilter), k) && !StrictlyBelow(RStrip(keyfilter), k)
    ensures ListOf(t, keyfilter).Some? ==>
            (ListOf(t, keyfilter).value == [] <==> Below(t, RStrip(keyfilter)) == {})
  {
    var path := RStrip(keyfilter);
    if ListOf(t, keyfilter).None? {
      forall k | k in t ensures !At(path, k) && !StrictlyBelow(path, k) {
        assert k !in Below(t, path);
      }
    } else if k :| k in Below(t, path) {
      assert k in t && StrictlyBelow(path, k);
    } else {
      assert At(path, path) && At(path, ChildPrefix(path));
    }
    EntriesEmpty(t, path);
  }

  lemma EntriesEmpty<T>(t: Table<T>, path: string)
    ensures Entries(t, path, t.Keys) == [] <==> Below(t, path) == {}
  {
    var names := Entries(t, path, t.Keys);
    if names != [] {
      var n := names[0];
      assert n in multiset(names);
      assert |NamedBy(t, path, t.Keys, n)| > 0;
      var k :| k in NamedBy(t, path, t.Keys, n);
      assert k in Below(t, path);
    }
    forall k | k in Below(t, path) ensures names != [] {
      var n := EntryName(path, k, t[k]);
      assert k in NamedBy(t, path, t.Keys, n);
      assert multiset(names)[n] == |NamedBy(t, path, t.Keys, n)|;
    }
  }

  /** What a listing can see of one key: absent, a container, or contents. */
  function Shape<T>(t: Table<T>, k: string): Option<bool> {
    if k in t then Some(t[k].Held?) else None
  }

  /** A listing depends on nothing but which rows are at or below its path and which of them are
      empty. */
  lemma ListOfLocal<S, T>(t: Table<S>, u: Table<T>, keyfilter: string)
    requires forall k :: At(RStrip(keyfilter), k) || StrictlyBelow(RStrip(keyfilter), k) ==> Shape(t, k) == Shape(u, k)
    requires RStrip(keyfilter) == [] ==> (t == map[] <==> u == map[])
    ensures ListOf(t, keyfilter) == ListOf(u, keyfilter)
  {
    var path := RStrip(keyfilter);
    assert Below(t, path) == Below(u, path) by {
      forall k ensures k in Below(t, path) <==> k in Below(u, path) {
        if StrictlyBelow(path, k) { assert Shape(t, k) == Shape(u, k); }
      }
    }
    assert At(path, path) && At(path, ChildPrefix(path));
    assert Shape(t, path) == Shape(u, path) && Shape(t, ChildPrefix(path)) == Shape(u, ChildPrefix(path));
    var names := Entries(t, path, t.Keys);
    forall n ensures multiset(names)[n] == |NamedBy(u, path, u.Keys, n)| {
      SameNames(t, u, path, n);
    }
    ListingUnique(u, path, u.Keys, names, Entries(u, path, u.Keys));
  }

  lemma SameNames<S, T>(t: Table<S>, u: Table<T>, path: string, n: string)
    requires forall k :: At(path, k) || StrictlyBelow(path, k) ==> Shape(t, k) == Shape(u, k)
    ensures NamedBy(t, path, t.Keys, n) == NamedBy(u, path, u.Keys, n)
  {
    forall k ensures k in NamedBy(t, path, t.Keys, n) <==> k in NamedBy(u, path, u.Keys, n) {
      if StrictlyBelow(path, k) { assert Shape(t, k) == Shape(u, k); }
    }
  }

  // ---------------------------------------------------------------- clean tables

  /** No doubled slash and no trailing one: the shape every stored key has. */
  predicate CleanKey(key: string) {
    !EndsWithSlash(key) && forall i :: 0 <= i < |key| - 1 ==> !(key[i] == '/' && key[i + 1] == '/')
  }

  ghost predicate CleanTable<T>(t: Table<T>) {
    forall k :: k in t ==> CleanKey(k)
  }

  /** A clean listed name rejoins to its row. */
  lemma EntryRejoins<T>(path: string, key: string, cell: Cell<T>)
    requires path != [] && CleanKey(key) && StrictlyBelow(path, key)
    ensures EntryName(path, key, cell) ==
            if cell.Held? then key[|ChildPrefix(path)|..] else key[|ChildPrefix(path)|..] + "/"
    ensures ChildPrefix(path) + RStrip(EntryName(path, key, cell)) == key
  {
    var p := ChildPrefix(path);
    var rel := key[|p|..];
    assert key == p + rel;
    assert p[|p| - 1] == '/' && key[|p| - 1] == '/';
    assert rel != [] && rel[0] == key[|p|];
    assert rel[|rel| - 1] == key[|key| - 1];
    RStripOne(rel);
  }

  lemma RepeatCounts(names: seq<string>, i: nat, j: nat)
    requires i < j < |names| && names[i] == names[j]
    ensures multiset(names)[names[i]] >= 2
  {
    assert names == names[..j] + names[j..];
    assert names[i] in multiset(names[..j]) && names[j] in multiset(names[j..]);
  }

  /** On a clean table no two rows are listed under the same name. */
  lemma ListedNamesDistinct<T>(t: Table<T>, keyfilter: string)
    requires CleanTable(t) && RStrip(keyfilter) != [] && ListOf(t, keyfilter).Some?
    ensures forall i, j :: 0 <= i < j < |ListOf(t, keyfilter).value| ==>
              ListOf(t, keyfilter).value[i] != ListOf(t, keyfilter).value[j]
    ensures forall n :: n in ListOf(t, keyfilter).value <==>
              exists k :: k in t && StrictlyBelow(RStrip(keyfilter), k) && EntryName(RStrip(keyfilter), k, t[k]) == n
  {
    var path, names := RStrip(keyfilter), ListOf(t, keyfilter).value;
    forall n ensures multiset(names)[n] <= 1 {
      var rows := NamedBy(t, path, t.Keys, n);
      assert multiset(names)[n] == |rows|;
      if |rows| > 1 {
        var k :| k in rows;
        assert |rows - {k}| == |rows| - 1;
        var k' :| k' in rows - {k};
        EntryRejoins(path, k, t[k]);
        EntryRejoins(path, k', t[k']);
      }
    }
    forall i, j | 0 <= i < j < |names| ensures names[i] != names[j] {
      if names[i] == names[j] {
        RepeatCounts(names, i, j);
      }
    }
    forall n ensures n in names <==>
                     exists k :: k in t && StrictlyBelow(path, k) && EntryName(path, k, t[k]) == n
    {
      var rows := NamedBy(t, path, t.Keys, n);
      assert multiset(names)[n] == |rows|;
      assert n in names <==> n in multiset(names);
      if n in names {
        assert rows != {};
        var k :| k in rows;
      }
      if k :| k in t && StrictlyBelow(path, k) && EntryName(path, k, t[k]) == n {
        assert k in rows;
      }
    }
  }

  // ---------------------------------------------------------------- the store

  /** The SQLite store.  Every method is one transaction. */
  class SqliteStore<T> {
    var rows: Table<T>

    constructor ()
      ensures rows == map[]
    {
      rows := map[];
    }

    /** `None` for a missing row and for a row whose value is NULL. */
    method Get(key: string) returns (r: Option<Cell<T>>)
      ensures r == if key in rows && !rows[key].Null? then Some(rows[key]) else None
    {
      r := if key in rows && !rows[key].Null? then Some(rows[key]) else None;
    }

    method Set(key: string, cell: Cell<T>, replace: bool) returns (outcome: Outcome)
      modifies this
      ensures Write(rows, outcome) == SetOf(old(rows), key, cell, replace)
    {
      if EndsWithSlash(key) { return BadKey; }
      if !replace && key in rows { return AlreadyExists; }
      rows := rows[key := cell];
      return Stored;
    }

    method Span(key: string) returns (outcome: Outcome)
      modifies this
      ensures Write(rows, outcome) == SpanOf(old(rows), key)
    {
      var name := RStrip(key);
      if name in rows { return AlreadyExists; }
      rows := rows[name := Blank];
      return Stored;
    }

    method Cut(key: string) returns (removed: bool)
      modifies this
      ensures Removal(rows, removed) == CutOf(old(rows), key)
    {
      removed := key in rows;
      rows := rows - {key};
    }

    /** The query and the filter loop, rows arriving in any order. */
    method List(keyfilter: string) returns (r: Option<seq<string>>)
      ensures r == ListOf(rows, keyfilter)
    {
      var path := RStrip(keyfilter);
      var childPrefix := ChildPrefix(path);
      var matched := set k | k in rows && Like(path + "%", k);
      MatchedCovers(rows, path, matched);
      ghost var skipped := rows.Keys - matched;
      if matched != {} {
        var parentExists, result := false, [];
        var pending := matched;
        assert Counts(rows, path, skipped, result) by {
          assert forall n :: NamedBy(rows, path, skipped, n) == {};
        }
        while pending != {}
          invariant pending <= matched
          invariant Counts(rows, path, rows.Keys - pending, result)
          invariant parentExists <==> exists k :: k in matched - pending && At(path, k)
        {
          var key :| key in pending;
          ghost var seen, before := rows.Keys - pending, result;
          pending := pending - {key};
          assert matched - pending == (matched - (pending + {key})) + {key};
          if key == path || key == childPrefix {
            parentExists := true;
          } else if childPrefix <= key {
            var name := LStrip(key[|childPrefix|..]);
            result := result + [if rows[key].Held? then name else name + "/"];
          }
          CountsGrow(rows, path, seen, key, before, result);
          assert seen + {key} == rows.Keys - pending;
        }
        assert rows.Keys - pending == rows.Keys && matched - pending == matched;
        ListAnswer(rows, keyfilter, matched, result, parentExists);
        if result != [] {
          return Some(Sort(result));
        } else if parentExists {
          return Some([]);
        }
      } else if keyfilter == [] {
        ListAnswerEmpty(rows, keyfilter, matched);
        return Some([]);
      } else {
        ListAnswerEmpty(rows, keyfilter, matched);
      }
      return None;
    }
  }

  /** What the loop has collected when it ends is the specified listing. */
  lemma ListAnswer<T>(t: Table<T>, keyfilter: string, matched: set<string>, result: seq<string>, parentExists: bool)
    requires matched == (set k | k in t && Like(RStrip(keyfilter) + "%", k)) && matched != {}
    requires Counts(t, RStrip(keyfilter), t.Keys, result)
    requires parentExists <==> exists k :: k in matched && At(RStrip(keyfilter), k)
    ensures ListOf(t, keyfilter) ==
            if result != [] then Some(Sort(result)) else if parentExists then Some([]) else None
  {
    var path := RStrip(keyfilter);
    MatchedCovers(t, path, matched);
    CountsSorted(t, path, result);
    ListingUnique(t, path, t.Keys, Sort(result), Entries(t, path, t.Keys));
    EntriesEmpty(t, path);
    assert At(path, path) && At(path, ChildPrefix(path));
    assert parentExists <==> path in t || ChildPrefix(path) in t;
  }

  lemma ListAnswerEmpty<T>(t: Table<T>, keyfilter: string, matched: set<string>)
    requires matched == (set k | k in t && Like(RStrip(keyfilter) + "%", k)) && matched == {}
    ensures ListOf(t, keyfilter) == if keyfilter == [] then Some([]) else None
  {
    var path := RStrip(keyfilter);
    MatchedCovers(t, path, matched);
    EntriesEmpty(t, path);
    assert At(path, path) && At(path, ChildPrefix(path));
    assert Below(t, path) == {} by {
      assert forall k :: k in Below(t, path) ==> k in matched;
    }
    assert keyfilter == [] ==> t.Keys == {} && t == map[];
  }

  lemma CountsSorted<T>(t: Table<T>, path: string, names: seq<string>)
    requires Counts(t, path, t.Keys, names)
    ensures IsListing(t, path, t.Keys, Sort(names))
    ensures Sort(names) == [] <==> names == []
  {
    assert |multiset(names)| == |names| && |multiset(Sort(names))| == |Sort(names)|;
    assert forall n :: multiset(Sort(names))[n] == multiset(names)[n];
    forall n ensures multiset(Sort(names))[n] == |NamedBy(t, path, t.Keys, n)| {
      assert multiset(names)[n] == |NamedBy(t, path, t.Keys, n)|;
    }
  }

  lemma MatchedCovers<T>(t: Table<T>, path: string, matched: set<string>)
    requires matched == set k | k in t && Like(path + "%", k)
    ensures forall k :: k in t && (At(path, k) || StrictlyBelow(path, k)) ==> k in matched
    ensures path == [] ==> matched == t.Keys
  {
    forall k | k in t && path <= k ensures k in matched {
      PrefilterKeeps(path, k);
    }
  }
}
