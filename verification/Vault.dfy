/** Vault names: keys with their slashes written as double underscores, and the decoder that
    listing applies to the names it finds. */
module Vault {
  import opened Text

  /** `"ab" in s` for a pair of characters. */
  predicate HasPair(s: string, a: char, b: char) {
    exists i :: 0 <= i < |s| - 1 && s[i] == a && s[i + 1] == b
  }

  /** `s.replace('/', '__')` */
  function Widen(s: string): string {
    if s == [] then ""
    else if s[0] == '/' then "__" + Widen(s[1..])
    else [s[0]] + Widen(s[1..])
  }

  /** `_mangle_key`; `None` is its ValueError. */
  function Mangle(key: string): Option<string> {
    if HasPair(key, '_', '_') then None else Some(Widen(key))
  }

  /** `cn.replace('__', '/')`: leftmost pairs first. */
  function Unmangle(cn: string): string {
    if |cn| >= 2 && cn[0] == '_' && cn[1] == '_' then "/" + Unmangle(cn[2..])
    else if cn == [] then ""
    else [cn[0]] + Unmangle(cn[1..])
  }

  /** The keys whose names decode to them. */
  predicate Recoverable(key: string) {
    !HasPair(key, '_', '_') && !HasPair(key, '_', '/')
  }

  lemma PairTail(s: string, a: char, b: char)
    requires s != []
    ensures HasPair(s, a, b) <==> (|s| >= 2 && s[0] == a && s[1] == b) || HasPair(s[1..], a, b)
  {
    if i :| 0 <= i < |s| - 1 && s[i] == a && s[i + 1] == b {
      if i > 0 { assert s[1..][i - 1] == a && s[1..][i] == b; }
    }
    if i :| 0 <= i < |s[1..]| - 1 && s[1..][i] == a && s[1..][i + 1] == b {
      assert s[i + 1] == a && s[i + 2] == b;
    }
  }

  lemma WidenHead(s: string)
    requires s != []
    ensures Widen(s) != [] && (Widen(s)[0] == '_' <==> s[0] == '/' || s[0] == '_')
    ensures s[0] == '/' ==> |Widen(s)| >= 2 && Widen(s)[1] == '_' && Widen(s)[2..] == Widen(s[1..])
    ensures s[0] != '/' ==> Widen(s)[0] == s[0] && Widen(s)[1..] == Widen(s[1..])
  {
  }

  /** Widening is replacing, character by character. */
  lemma {:induction false} WidenParts(a: string, b: string)
    ensures Widen(a + b) == Widen(a) + Widen(b)
  {
    if a == [] {
      assert a + b == b;
    } else {
      var one := if a[0] == '/' then "__" else [a[0]];
      WidenParts(a[1..], b);
      assert (a + b)[1..] == a[1..] + b;
      assert Widen(a + b) == one + Widen(a[1..] + b) && Widen(a) == one + Widen(a[1..]);
      Reassociate(one, Widen(a[1..]), Widen(b));
    }
  }

  lemma Reassociate(x: string, y: string, z: string)
    ensures x + (y + z) == x + y + z
  {
  }

  lemma WidenOne(c: char)
    ensures Widen([c]) == if c == '/' then "__" else [c]
  {
    assert [c][1..] == [];
    assert "__" + "" == "__";
  }

  /** Decoding is replacing the leftmost pair first: a name with a pair in it is decoded up to the
      pair, which becomes a slash, and after it. */
  lemma {:induction false} UnmangleParts(a: string, b: string)
    requires !HasPair(a, '_', '_') && (a == [] || a[|a| - 1] != '_')
    ensures Unmangle(a + "__" + b) == a + "/" + Unmangle(b)
    ensures Unmangle(a) == a
  {
    if a == [] {
      assert a + "__" + b == "__" + b && ("__" + b)[2..] == b;
      assert a + "/" + Unmangle(b) == "/" + Unmangle(b);
    } else {
      PairTail(a, '_', '_');
      UnmangleParts(a[1..], b);
      var name := a + "__" + b;
      assert name[1..] == a[1..] + "__" + b;
      assert |a| >= 2 ==> name[1] == a[1];
      assert Unmangle(name) == [a[0]] + Unmangle(name[1..]);
      Rejoin(a, Unmangle(b));
    }
  }

  lemma Rejoin(a: string, b: string)
    requires a != []
    ensures [a[0]] + (a[1..] + "/" + b) == a + "/" + b && [a[0]] + a[1..] == a
  {
  }

  /** Decoding gives a key back exactly when no underscore precedes a slash in it. */
  lemma {:induction false} DecodesExactly(key: string)
    requires !HasPair(key, '_', '_')
    ensures Unmangle(Widen(key)) == key <==> !HasPair(key, '_', '/')
  {
    if key == [] {
      assert Widen(key) == [];
    } else {
      PairTail(key, '_', '_');
      PairTail(key, '_', '/');
      DecodesExactly(key[1..]);
      WidenHead(key);
      var name, decoded := Widen(key), Unmangle(Widen(key));
      if key[1..] != [] { WidenHead(key[1..]); }
      if key[0] == '_' && |key| >= 2 && key[1] == '/' {
        assert decoded[0] == '/';
      } else {
        assert decoded[0] == key[0] && decoded[1..] == Unmangle(Widen(key[1..]));
        assert key == [key[0]] + key[1..] && decoded == [decoded[0]] + decoded[1..];
      }
    }
  }

  lemma {:induction false} WidenSlashFree(s: string)
    ensures SlashFree(Widen(s))
  {
    if s != [] { WidenSlashFree(s[1..]); }
  }

  /** Decoding a name and mangling the result gives the name back, and the result is recoverable. */
  lemma {:induction false} NamesRoundTrip(cn: string)
    requires SlashFree(cn)
    ensures Recoverable(Unmangle(cn)) && Widen(Unmangle(cn)) == cn
  {
    var key := Unmangle(cn);
    if |cn| >= 2 && cn[0] == '_' && cn[1] == '_' {
      NamesRoundTrip(cn[2..]);
      assert key[1..] == Unmangle(cn[2..]);
      PairTail(key, '_', '_');
      PairTail(key, '_', '/');
      assert "__" + cn[2..] == cn;
    } else if cn != [] {
      NamesRoundTrip(cn[1..]);
      assert key[1..] == Unmangle(cn[1..]);
      PairTail(key, '_', '_');
      PairTail(key, '_', '/');
      assert [cn[0]] + cn[1..] == cn;
      if |cn| >= 2 && cn[0] == '_' { assert key[1] == cn[1]; }
    }
  }

  /** Mangling pairs the recoverable keys off with the slash-free names, decoding being the
      inverse; every other legal key shares its name with the recoverable key it decodes to. */
  lemma MangleIsInjectiveExactly(a: string, b: string)
    requires Mangle(a).Some? && Mangle(b).Some? && Mangle(a) == Mangle(b)
    ensures Recoverable(a) && Recoverable(b) ==> a == b
    ensures !Recoverable(a) ==>
              Unmangle(Mangle(a).value) != a && Recoverable(Unmangle(Mangle(a).value))
              && Mangle(Unmangle(Mangle(a).value)) == Mangle(a)
  {
    DecodesExactly(a);
    DecodesExactly(b);
    WidenSlashFree(a);
    NamesRoundTrip(Widen(a));
  }

  // ---------------------------------------------------------------- listing

  /** `key.rsplit('/', 1)[-1]` */
  function LastName(key: string): string {
    var pieces := Split(key, '/');
    pieces[|pieces| - 1]
  }

  /** The last name is what stands behind the last slash, the whole key if there is none. */
  lemma LastNameExactly(key: string, name: string)
    ensures LastName(key) == name <==>
            SlashFree(name) && (key == name || exists front: string :: key == front + "/" + name)
  {
    var pieces := Split(key, '/');
    SplitPieces(key, '/');
    JoinSplit(key);
    if LastName(key) == name && |pieces| > 1 {
      var front := SlashJoin(pieces[..|pieces| - 1]);
      SlashJoinSnoc(pieces[..|pieces| - 1], name);
      assert pieces[..|pieces| - 1] + [name] == pieces;
      assert key == front + "/" + name;
    }
    if SlashFree(name) {
      SplitWhole(name, '/');
      if front: string :| key == front + "/" + name {
        SplitSeparated(front, name, '/');
        assert front + ['/'] + name == key;
      }
    }
  }

  predicate Wanted(keyfilter: Option<string>, key: string) {
    keyfilter.None? || keyfilter.value <= key
  }

  /** The last names of the wanted keys, in order. */
  function LastNames(keys: seq<string>, keyfilter: Option<string>): seq<string> {
    if keys == [] then []
    else (if Wanted(keyfilter, keys[0]) then [LastName(keys[0])] else []) + LastNames(keys[1..], keyfilter)
  }

  /** A name is listed exactly if it is the last name of a key that starts with the filter, if any. */
  lemma {:induction false} LastNamesExactly(keys: seq<string>, keyfilter: Option<string>, name: string)
    ensures name in LastNames(keys, keyfilter) <==>
            exists key :: key in keys && (keyfilter.Some? ==> keyfilter.value <= key) && LastName(key) == name
  {
    if keys != [] {
      LastNamesExactly(keys[1..], keyfilter, name);
      assert keys == [keys[0]] + keys[1..];
      assert keys[0] in keys;
    }
  }

  lemma {:induction false} LastNamesSnoc(keys: seq<string>, key: string, keyfilter: Option<string>)
    ensures LastNames(keys + [key], keyfilter) ==
            LastNames(keys, keyfilter) + if Wanted(keyfilter, key) then [LastName(key)] else []
  {
    if keys == [] {
      assert keys + [key] == [key] && [key][1..] == [];
    } else {
      LastNamesSnoc(keys[1..], key, keyfilter);
      assert (keys + [key])[1..] == keys[1..] + [key];
    }
  }

  function Decoded(entries: seq<string>): seq<string> {
    seq(|entries|, i requires 0 <= i < |entries| => Unmangle(entries[i]))
  }

  /** The loop in `list` over the common names the vault service returns. */
  method List(entries: seq<string>, keyfilter: Option<string>) returns (names: seq<string>)
    ensures names == LastNames(Decoded(entries), keyfilter)
  {
    names := [];
    ghost var keys := Decoded(entries);
    for i := 0 to |entries|
      invariant names == LastNames(keys[..i], keyfilter)
    {
      var key := Unmangle(entries[i]);
      LastNamesSnoc(keys[..i], keys[i], keyfilter);
      assert keys[..i + 1] == keys[..i] + [keys[i]];
      if keyfilter.Some? && !(keyfilter.value <= key) { continue; }
      names := names + [LastName(key)];
    }
    assert keys[..|entries|] == keys;
  }

  function Names(keys: seq<string>): seq<string> {
    seq(|keys|, i requires 0 <= i < |keys| => Widen(keys[i]))
  }

  /** Listing a vault finds exactly the keys stored in it, if and only if all are recoverable. */
  lemma ListingFindsKeys(keys: seq<string>)
    requires forall i :: 0 <= i < |keys| ==> Mangle(keys[i]).Some?
    ensures Decoded(Names(keys)) == keys <==> forall i :: 0 <= i < |keys| ==> Recoverable(keys[i])
  {
    forall i | 0 <= i < |keys| ensures Decoded(Names(keys))[i] == keys[i] <==> Recoverable(keys[i]) {
      DecodesExactly(keys[i]);
    }
  }
}
