/** The two path authorizers: `SimplePathAuthz`, which walks the request path up to the root, and
    `UserNameSpace`, which confines a user to the paths below the user's own name. */
module Authorizers {
  import opened Text

  /** What an authenticator or authorizer answers: True, False or None. */
  datatype Verdict = Pass | Deny | Abstain

  // ---------------------------------------------------------------- walking up a path

  /** One past the position of the last slash, 0 without one. */
  function AfterLastSlash(path: string): (i: nat)
    ensures i <= |path|
  {
    if path == [] || EndsWithSlash(path) then |path| else AfterLastSlash(path[..|path| - 1])
  }

  lemma {:induction false} LastSlash(path: string)
    ensures AfterLastSlash(path) > 0 ==> path[AfterLastSlash(path) - 1] == '/'
    ensures forall j :: AfterLastSlash(path) <= j < |path| ==> path[j] != '/'
  {
    if path != [] && !EndsWithSlash(path) {
      LastSlash(path[..|path| - 1]);
    }
  }

  predicate AllSlashes(s: string) {
    forall i :: 0 <= i < |s| ==> s[i] == '/'
  }

  /** `os.path.split(path)[0]` on POSIX: a head made of slashes only is kept as it is. */
  function Head(path: string): string {
    var head := path[..AfterLastSlash(path)];
    if AllSlashes(head) then head else RStrip(head)
  }

  lemma {:induction false} LastSlashIs(front: string, tail: string)
    requires SlashFree(tail) && (front == [] || EndsWithSlash(front))
    ensures AfterLastSlash(front + tail) == |front|
    decreases tail
  {
    var path := front + tail;
    if tail == [] {
      assert path == front;
    } else {
      var init := tail[..|tail| - 1];
      LastSlashIs(front, init);
      assert path[|path| - 1] == tail[|tail| - 1] && path[..|path| - 1] == front + init;
    }
  }

  lemma {:induction false} RStripRun(stem: string, slashes: string)
    requires !EndsWithSlash(stem) && AllSlashes(slashes)
    ensures RStrip(stem + slashes) == stem
    decreases slashes
  {
    var s := stem + slashes;
    if slashes == [] {
      assert s == stem;
    } else {
      RStripRun(stem, slashes[..|slashes| - 1]);
      assert s[|s| - 1] == '/' && s[..|s| - 1] == stem + slashes[..|slashes| - 1];
    }
  }

  /** What the head of a path is: the path without what follows its last slash, and without the
      slashes before that, unless there are only slashes. */
  lemma HeadExactly(stem: string, slashes: string, tail: string)
    requires !EndsWithSlash(stem) && AllSlashes(slashes) && (stem != [] ==> slashes != []) && SlashFree(tail)
    ensures Head(stem + slashes + tail) == if stem == [] then slashes else stem
  {
    var front := stem + slashes;
    assert slashes != [] ==> front[|front| - 1] == slashes[|slashes| - 1];
    LastSlashIs(front, tail);
    assert (front + tail)[..|front|] == front;
    RStripRun(stem, slashes);
    if stem == [] {
      assert front == slashes;
    } else {
      assert front[|stem| - 1] == stem[|stem| - 1];
    }
  }

  /** Every path has such parts. */
  lemma HeadParts(path: string) returns (stem: string, slashes: string, tail: string)
    ensures !EndsWithSlash(stem) && AllSlashes(slashes) && (stem != [] ==> slashes != []) && SlashFree(tail)
    ensures path == stem + slashes + tail
  {
    var i := AfterLastSlash(path);
    LastSlash(path);
    var front := path[..i];
    RStripTail(front);
    stem, slashes, tail := RStrip(front), front[|RStrip(front)|..], path[i..];
    assert i > 0 ==> front[|front| - 1] == '/';
  }

  /** One turn of the authorizer's loop. */
  function Walk(path: string): string {
    if path == "/" then "" else Head(path)
  }

  function Up(path: string, n: nat): string
    decreases n
  {
    if n == 0 then path else Up(Walk(path), n - 1)
  }

  lemma WalkShrinks(path: string)
    requires path != [] && Walk(path) != path
    ensures |Walk(path)| < |path|
  {
  }

  lemma LongSlashes(path: string)
    requires |path| >= 2 && AllSlashes(path)
    ensures "//" <= path
  {
    assert path[..2] == "//";
  }

  /** A path that starts with two slashes keeps them; any other one never gets them and shrinks. */
  lemma WalkSlashes(path: string)
    ensures "//" <= path ==> "//" <= Walk(path)
    ensures !("//" <= path) && path != [] ==> !("//" <= Walk(path)) && |Walk(path)| < |path|
  {
    var i := AfterLastSlash(path);
    LastSlash(path);
    if "//" <= path {
      assert path[1] == '/';
      var head := path[..i];
      if !AllSlashes(head) {
        var j :| 0 <= j < |head| && head[j] != '/';
        assert head[0] == '/' && head[1] == '/';
        RStripKeeps(head[..j + 1], head);
      }
    } else if path != [] && path != "/" && i == |path| {
      if AllSlashes(path) { LongSlashes(path); }
    }
  }

  lemma {:induction false} UpKeepsSlashes(path: string, n: nat)
    requires "//" <= path
    ensures "//" <= Up(path, n)
    decreases n
  {
    if n > 0 {
      WalkSlashes(path);
      UpKeepsSlashes(Walk(path), n - 1);
    }
  }

  lemma {:induction false} UpReachesEmpty(path: string, n: nat)
    requires !("//" <= path) && n >= |path|
    ensures Up(path, n) == ""
    decreases n
  {
    if n > 0 {
      WalkSlashes(path);
      assert path == [] ==> Walk(path) == [];
      UpReachesEmpty(Walk(path), n - 1);
    }
  }

  // ---------------------------------------------------------------- SimplePathAuthz

  /** An entry that does not end in a slash, less one trailing dot, is the path itself. */
  predicate StrictMatch(paths: seq<string>, path: string) {
    exists i :: 0 <= i < |paths| && !EndsWithSlash(paths[i]) && Undotted(paths[i]) == path
  }

  /** On the strict match a path is listed as it stands, or with a dot behind it. */
  lemma StrictMatchExactly(paths: seq<string>, path: string)
    ensures StrictMatch(paths, path) <==>
            || path + "." in paths
            || (path in paths && (path == "" || (path[|path| - 1] != '/' && path[|path| - 1] != '.')))
  {
    if i :| 0 <= i < |paths| && !EndsWithSlash(paths[i]) && Undotted(paths[i]) == path {
      var e := paths[i];
      assert e != [] && e[|e| - 1] == '.' ==> e == path + ".";
    }
    if i :| 0 <= i < |paths| && paths[i] == path + "." {
      assert paths[i][..|paths[i]| - 1] == path;
    }
    if path in paths {
      var i :| 0 <= i < |paths| && paths[i] == path;
    }
  }

  function Undotted(entry: string): string {
    if entry != [] && entry[|entry| - 1] == '.' then entry[..|entry| - 1] else entry
  }

  /** Some entry is the path or one of its ancestors. */
  ghost predicate AncestorMatch(paths: seq<string>, path: string) {
    exists n: nat :: Matches(paths, Up(path, n))
  }

  predicate Matches(paths: seq<string>, path: string) {
    path != [] && path in paths
  }

  /** The loop reaches its end: the empty path, or an entry. */
  ghost predicate WalkEnds(paths: seq<string>, path: string) {
    exists n: nat :: Up(path, n) == [] || Matches(paths, Up(path, n))
  }

  lemma {:induction false} StuckStays(path: string, n: nat)
    requires Walk(path) == path
    ensures Up(path, n) == path
  {
    if n > 0 { StuckStays(path, n - 1); }
  }

  /** After as many turns as the path is long the walk stands still. */
  lemma {:induction false} WalkSettles(path: string, n: nat)
    requires n >= |path|
    ensures Up(path, n) == Up(path, |path|)
    decreases |path|
  {
    if Walk(path) == path {
      StuckStays(path, n);
      StuckStays(path, |path|);
    } else {
      var next := Walk(path);
      assert path != [];
      WalkShrinks(path);
      WalkSettles(next, n - 1);
      WalkSettles(next, |path| - 1);
    }
  }

  /** Some entry is met within as many turns as the path is long. */
  predicate MetInTime(paths: seq<string>, path: string) {
    exists n :: 0 <= n <= |path| && Matches(paths, Up(path, n))
  }

  lemma AncestorMatchInTime(paths: seq<string>, path: string)
    ensures AncestorMatch(paths, path) <==> MetInTime(paths, path)
  {
    if AncestorMatch(paths, path) {
      var n: nat :| Matches(paths, Up(path, n));
      if n > |path| { WalkSettles(path, n); }
      assert Matches(paths, Up(path, if n > |path| then |path| else n));
    }
    if n :| 0 <= n <= |path| && Matches(paths, Up(path, n)) {
      assert Matches(paths, Up(path, n));
    }
  }

  /** The walk is finite exactly for the paths that do not start with two slashes and the ones it
      accepts within as many turns as they are long. */
  lemma WalkEndsExactly(paths: seq<string>, path: string)
    ensures WalkEnds(paths, path) <==> !("//" <= path) || MetInTime(paths, path)
  {
    AncestorMatchInTime(paths, path);
    if !("//" <= path) {
      UpReachesEmpty(path, |path|);
    } else if WalkEnds(paths, path) {
      var n: nat :| Up(path, n) == [] || Matches(paths, Up(path, n));
      UpKeepsSlashes(path, n);
    }
    if AncestorMatch(paths, path) {
      var n: nat :| Matches(paths, Up(path, n));
      assert Up(path, n) == [] || Matches(paths, Up(path, n));
    }
  }

  /** The shortest path the walk never leaves. */
  lemma DoubleSlashStays(n: nat)
    ensures Up("//", n) == "//"
  {
    if n > 0 {
      assert AfterLastSlash("//") == 2;
      assert "//"[..2] == "//";
      DoubleSlashStays(n - 1);
    }
  }

  lemma AncestorMatchStep(paths: seq<string>, path: string)
    ensures AncestorMatch(paths, path) <==> Matches(paths, path) || AncestorMatch(paths, Walk(path))
  {
    if AncestorMatch(paths, path) {
      var n: nat :| Matches(paths, Up(path, n));
      if n > 0 { assert Up(path, n) == Up(Walk(path), n - 1); }
    }
    if Matches(paths, path) { assert Up(path, 0) == path; }
    if AncestorMatch(paths, Walk(path)) {
      var n: nat :| Matches(paths, Up(Walk(path), n));
      assert Up(path, n + 1) == Up(Walk(path), n);
    }
  }

  lemma StuckUnmatched(paths: seq<string>, path: string)
    requires Walk(path) == path && !Matches(paths, path)
    ensures !AncestorMatch(paths, path)
  {
    forall n: nat ensures !Matches(paths, Up(path, n)) {
      StuckStays(path, n);
    }
  }

  /** `SimplePathAuthz.handle`, on every path for which it returns at all. */
  method SimplePathAuthz(paths: seq<string>, request: string) returns (v: Verdict)
    requires StrictMatch(paths, request) || WalkEnds(paths, request)
    ensures v == if StrictMatch(paths, request) || AncestorMatch(paths, request) then Pass else Abstain
  {
    for i := 0 to |paths|
      invariant forall j :: 0 <= j < i ==> EndsWithSlash(paths[j]) || Undotted(paths[j]) != request
    {
      var authz := paths[i];
      if EndsWithSlash(authz) { continue; }
      if authz != [] && authz[|authz| - 1] == '.' {
        authz := authz[..|authz| - 1];
      }
      if authz == request { return Pass; }
    }
    WalkEndsExactly(paths, request);
    AncestorMatchInTime(paths, request);
    var path := request;
    while path != []
      invariant AncestorMatch(paths, path) <==> AncestorMatch(paths, request)
      invariant !("//" <= path) || AncestorMatch(paths, path)
      decreases |path|
    {
      AncestorMatchStep(paths, path);
      WalkSlashes(path);
      if path in paths { return Pass; }
      ghost var before := path;
      if path == "/" {
        path := "";
      } else {
        path := Head(path);
      }
      if path == before {
        StuckUnmatched(paths, path);
      } else {
        WalkShrinks(before);
      }
    }
    StuckUnmatched(paths, "");
    return Abstain;
  }

  // ---------------------------------------------------------------- ancestors by components

  /** An absolute path with single slashes and no trailing one; the root has no components. */
  function AbsPath(cs: seq<string>): string {
    "/" + SlashJoin(cs)
  }

  predicate Components(cs: seq<string>) {
    cs == [] || CleanNames(cs)
  }

  lemma {:induction false} LastPiece(cs: seq<string>)
    requires CleanNames(cs)
    ensures SlashJoin(cs) != [] && !EndsWithSlash(SlashJoin(cs)) && SlashJoin(cs)[0] != '/'
  {
    if |cs| > 1 { LastPiece(cs[1..]); }
  }

  lemma AfterLastSlashIs(head: string, tail: string)
    requires SlashFree(tail)
    ensures AfterLastSlash(head + "/" + tail) == |head| + 1
  {
    LastSlashIs(head + "/", tail);
  }

  /** Walking up drops the last component. */
  lemma WalkDropsLast(cs: seq<string>)
    requires CleanNames(cs)
    ensures Walk(AbsPath(cs)) == AbsPath(cs[..|cs| - 1])
  {
    var parent, last := cs[..|cs| - 1], cs[|cs| - 1];
    assert AbsPath(cs) != "/" by { LastPiece(cs); assert |AbsPath(cs)| > 1; }
    if parent == [] {
      assert cs == [last] && AbsPath(cs) == "" + "/" + last;
      AfterLastSlashIs("", last);
      assert AbsPath(cs)[..1] == "/";
    } else {
      SlashJoinSnoc(parent, last);
      assert parent + [last] == cs;
      var head := AbsPath(parent);
      assert AbsPath(cs) == head + "/" + last;
      AfterLastSlashIs(head, last);
      LastPiece(parent);
      assert AbsPath(cs)[..|head| + 1] == head + "/";
      assert (head + "/")[1] == SlashJoin(parent)[0];
      RStripOne(head);
    }
  }

  lemma AbsPathInjective(a: seq<string>, b: seq<string>)
    requires Components(a) && Components(b) && AbsPath(a) == AbsPath(b)
    ensures a == b
  {
    assert SlashJoin(a) == AbsPath(a)[1..] && SlashJoin(b) == AbsPath(b)[1..];
    if a != [] { LastPiece(a); }
    if b != [] { LastPiece(b); }
    if a != [] && b != [] { SlashJoinInjective(a, b); }
  }

  function Entries(entries: seq<seq<string>>): seq<string> {
    seq(|entries|, i requires 0 <= i < |entries| => AbsPath(entries[i]))
  }

  /** On single-slash absolute paths an entry is met on the way up exactly when its components
      are a prefix of the path's: never because one string merely starts with the other. */
  lemma AncestorIsComponentPrefix(entries: seq<seq<string>>, cs: seq<string>)
    requires Components(cs) && forall i :: 0 <= i < |entries| ==> Components(entries[i])
    ensures AncestorMatch(Entries(entries), AbsPath(cs)) <==> exists i :: 0 <= i < |entries| && entries[i] <= cs
  {
    var paths := Entries(entries);
    if AncestorMatch(paths, AbsPath(cs)) {
      var n: nat :| Matches(paths, Up(AbsPath(cs), n));
      var i :| 0 <= i < |paths| && paths[i] == Up(AbsPath(cs), n);
      ReachedIsPrefix(entries[i], cs, n);
    }
    if i :| 0 <= i < |entries| && entries[i] <= cs {
      PrefixMatches(paths, entries[i], cs, i);
    }
  }

  /** For any entries: on a path with single slashes and no trailing one, the entries that count are
      those equal to the path itself or to the path cut off after some component. */
  lemma AncestorsExactly(paths: seq<string>, cs: seq<string>)
    requires Components(cs)
    ensures AncestorMatch(paths, AbsPath(cs)) <==> exists n :: 0 <= n <= |cs| && AbsPath(cs[..n]) in paths
    decreases |cs|
  {
    var path := AbsPath(cs);
    AncestorMatchStep(paths, path);
    assert cs[..|cs|] == cs;
    if cs == [] {
      assert Walk(path) == "";
      StuckUnmatched(paths, "");
      if n :| 0 <= n <= |cs| && AbsPath(cs[..n]) in paths { assert cs[..n] == cs; }
    } else {
      var parent := cs[..|cs| - 1];
      WalkDropsLast(cs);
      AncestorsExactly(paths, parent);
      assert forall n :: 0 <= n <= |parent| ==> parent[..n] == cs[..n];
      if n :| 0 <= n <= |cs| && AbsPath(cs[..n]) in paths {
        if n <= |parent| { assert AbsPath(parent[..n]) in paths; } else { assert cs[..n] == cs; }
      }
      if n :| 0 <= n <= |parent| && AbsPath(parent[..n]) in paths { assert AbsPath(cs[..n]) in paths; }
    }
  }

  /** On a container's path, which ends in a slash, that path as it stands counts too. */
  lemma ContainerAncestorsExactly(paths: seq<string>, cs: seq<string>)
    requires CleanNames(cs)
    ensures AncestorMatch(paths, AbsPath(cs) + "/") <==>
            AbsPath(cs) + "/" in paths || exists n :: 0 <= n <= |cs| && AbsPath(cs[..n]) in paths
  {
    var stem := AbsPath(cs);
    LastPiece(cs);
    assert stem[|stem| - 1] == SlashJoin(cs)[|SlashJoin(cs)| - 1];
    HeadExactly(stem, "/", "");
    assert stem + "/" + "" == stem + "/";
    AncestorMatchStep(paths, stem + "/");
    AncestorsExactly(paths, cs);
  }

  /** An entry of components admits a container's path exactly if they begin it, itself included. */
  lemma ContainerBelowEntry(entries: seq<seq<string>>, cs: seq<string>)
    requires CleanNames(cs) && forall i :: 0 <= i < |entries| ==> Components(entries[i])
    ensures AncestorMatch(Entries(entries), AbsPath(cs) + "/") <==> exists i :: 0 <= i < |entries| && entries[i] <= cs
  {
    ContainerAncestorsExactly(Entries(entries), cs);
    AncestorsExactly(Entries(entries), cs);
    AncestorIsComponentPrefix(entries, cs);
    if AbsPath(cs) + "/" in Entries(entries) {
      var i :| 0 <= i < |entries| && AbsPath(entries[i]) == AbsPath(cs) + "/";
      NoTrailingSlash(entries[i], cs);
    }
  }

  lemma NoTrailingSlash(entry: seq<string>, cs: seq<string>)
    requires Components(entry) && CleanNames(cs)
    ensures AbsPath(entry) != AbsPath(cs) + "/"
  {
    LastPiece(cs);
    if entry != [] {
      LastPiece(entry);
      var path := AbsPath(entry);
      assert path[|path| - 1] == SlashJoin(entry)[|SlashJoin(entry)| - 1];
    }
  }

  lemma PrefixMatches(paths: seq<string>, entry: seq<string>, cs: seq<string>, i: nat)
    requires Components(cs) && entry <= cs && i < |paths| && paths[i] == AbsPath(entry)
    ensures AncestorMatch(paths, AbsPath(cs))
  {
    PrefixIsReached(entry, cs);
    assert Matches(paths, Up(AbsPath(cs), |cs| - |entry|));
  }

  lemma {:induction false} ReachedIsPrefix(entry: seq<string>, cs: seq<string>, n: nat)
    requires Components(entry) && Components(cs) && Up(AbsPath(cs), n) == AbsPath(entry)
    ensures entry <= cs
    decreases n
  {
    if n == 0 {
      AbsPathInjective(entry, cs);
    } else if cs == [] {
      assert AbsPath(cs) == "/";
      UpReachesEmpty("", n - 1);
    } else {
      WalkDropsLast(cs);
      ReachedIsPrefix(entry, cs[..|cs| - 1], n - 1);
    }
  }

  lemma {:induction false} PrefixIsReached(entry: seq<string>, cs: seq<string>)
    requires Components(cs) && entry <= cs
    ensures Up(AbsPath(cs), |cs| - |entry|) == AbsPath(entry)
    decreases |cs|
  {
    if entry != cs {
      var parent := cs[..|cs| - 1];
      WalkDropsLast(cs);
      assert entry == cs[..|entry|] == parent[..|entry|];
      PrefixIsReached(entry, parent);
    }
  }

  // ---------------------------------------------------------------- UserNameSpace

  function Namespace(base: string, user: string): string {
    RStrip(base) + "/" + user + "/"
  }

  /** `UserNameSpace.handle`: the verdict, and the default namespace it leaves in the request. */
  method UserNameSpace(base: string, path: string, user: Option<string>) returns (v: Verdict, defaultNs: Option<string>)
    ensures v == Pass <==> base <= path && user.Some? && Namespace(base, user.value) <= path
    ensures v == Abstain <==> !(base <= path)
    ensures defaultNs == if v == Pass then user else None
  {
    if !(base <= path) { return Abstain, None; }
    if user.None? { return Deny, None; }
    var namespace := RStrip(base) + "/" + user.value + "/";
    if !(namespace <= path) { return Deny, None; }
    return Pass, user;
  }
}
