/** The Python string and POSIX path operations the server is built from, and the laws about
    them that the store, the namespaces and the authorizers rest on. */
module Text {

  datatype Option<+T> = None | Some(value: T)

  // ---------------------------------------------------------------- slashes

  predicate EndsWithSlash(s: string) {
    |s| > 0 && s[|s| - 1] == '/'
  }

  predicate SlashFree(s: string) {
    '/' !in s
  }

  /** `s.rstrip('/')` */
  function RStrip(s: string): (r: string)
    ensures r <= s && !EndsWithSlash(r)
  {
    if EndsWithSlash(s) then RStrip(s[..|s| - 1]) else s
  }

  /** `s.lstrip('/')` */
  function LStrip(s: string): (r: string)
    ensures r == [] || r[0] != '/'
    ensures |r| <= |s| && r == s[|s| - |r|..]
    ensures forall i :: 0 <= i < |s| - |r| ==> s[i] == '/'
  {
    if s != [] && s[0] == '/' then LStrip(s[1..]) else s
  }

  /** Stripping stops exactly at the last character that is not a slash. */
  lemma {:induction false} RStripOne(s: string)
    ensures !EndsWithSlash(s) ==> RStrip(s + "/") == s
    ensures RStrip(s + "/") == RStrip(s)
  {
    assert (s + "/")[..|s|] == s;
  }

  lemma {:induction false} RStripTail(s: string)
    ensures forall i :: |RStrip(s)| <= i < |s| ==> s[i] == '/'
  {
    if EndsWithSlash(s) {
      RStripTail(s[..|s| - 1]);
    }
  }

  /** A prefix that ends in an ordinary character survives stripping. */
  lemma RStripKeeps(p: string, s: string)
    requires p <= s && p != [] && !EndsWithSlash(p)
    ensures p <= RStrip(s)
  {
    RStripTail(s);
    assert p[|p| - 1] == s[|p| - 1];
  }

  lemma {:induction false} LStripRun(slashes: string, rest: string)
    requires (forall i :: 0 <= i < |slashes| ==> slashes[i] == '/') && (rest == [] || rest[0] != '/')
    ensures LStrip(slashes + rest) == rest
    decreases slashes
  {
    if slashes == [] {
      assert slashes + rest == rest;
    } else {
      assert (slashes + rest)[1..] == slashes[1..] + rest;
      LStripRun(slashes[1..], rest);
    }
  }

  // ---------------------------------------------------------------- joining and splitting

  /** `'/'.join(parts)` */
  function SlashJoin(parts: seq<string>): string {
    if |parts| == 0 then ""
    else if |parts| == 1 then parts[0]
    else parts[0] + "/" + SlashJoin(parts[1..])
  }

  lemma {:induction false} SlashJoinSnoc(parts: seq<string>, last: string)
    requires parts != []
    ensures SlashJoin(parts + [last]) == SlashJoin(parts) + "/" + last
  {
    var all := parts + [last];
    if |parts| == 1 {
      assert all[1..] == [last];
    } else {
      SlashJoinSnoc(parts[1..], last);
      assert all[1..] == parts[1..] + [last];
    }
  }

  /** One step of `os.path.join` on POSIX. */
  function JoinOne(a: string, b: string): string {
    if b != [] && b[0] == '/' then b
    else if a == [] || EndsWithSlash(a) then a + b
    else a + "/" + b
  }

  /** `os.path.join(a, *parts)` on POSIX: an absolute component discards what precedes it. */
  function PosixJoin(a: string, parts: seq<string>): string
    decreases parts
  {
    if parts == [] then a else PosixJoin(JoinOne(a, parts[0]), parts[1..])
  }

  predicate Relative(parts: seq<string>) {
    forall i :: 0 <= i < |parts| ==> parts[i] == [] || parts[i][0] != '/'
  }

  /** Joining components that are not absolute only ever extends the path. */
  lemma {:induction false} PosixJoinExtends(a: string, parts: seq<string>)
    requires Relative(parts)
    ensures a <= PosixJoin(a, parts)
    ensures parts != [] && a != [] && !EndsWithSlash(a) ==> a + "/" <= PosixJoin(a, parts)
    decreases parts
  {
    if parts != [] {
      PosixJoinExtends(JoinOne(a, parts[0]), parts[1..]);
    }
  }

  /** Nonempty slash-free components, with an optional final empty one. */
  predicate CleanTrail(trail: seq<string>) {
    forall i :: 0 <= i < |trail| ==>
      SlashFree(trail[i]) && (trail[i] != [] || i == |trail| - 1)
  }

  /** Nonempty slash-free components, at least one. */
  predicate CleanNames(cs: seq<string>) {
    cs != [] && forall i :: 0 <= i < |cs| ==> cs[i] != [] && SlashFree(cs[i])
  }

  /** On a clean trail `os.path.join` is plain joining with slashes. */
  lemma {:induction false} PosixJoinClean(a: string, trail: seq<string>)
    requires CleanTrail(trail) && trail != []
    requires a != [] && !EndsWithSlash(a)
    ensures PosixJoin(a, trail) == a + "/" + SlashJoin(trail)
    decreases trail
  {
    var c, rest := trail[0], trail[1..];
    assert CleanTrail(rest);
    var a' := JoinOne(a, c);
    assert a' == a + "/" + c;
    if rest != [] {
      assert a'[|a'| - 1] == c[|c| - 1];
      PosixJoinClean(a', rest);
      assert a + "/" + SlashJoin(trail) == a' + "/" + SlashJoin(rest);
    } else {
      assert PosixJoin(a', rest) == a';
    }
  }

  /** Everything before an absolute component is discarded, wherever it stands. */
  lemma {:induction false} PosixJoinRestarts(a: string, before: seq<string>, b: string, after: seq<string>)
    requires b != [] && b[0] == '/'
    ensures PosixJoin(a, before + [b] + after) == PosixJoin(b, after)
    decreases before
  {
    var parts := before + [b] + after;
    if before == [] {
      assert parts[1..] == after;
    } else {
      assert parts[1..] == before[1..] + [b] + after;
      PosixJoinRestarts(JoinOne(a, before[0]), before[1..], b, after);
    }
  }

  /** The components that are not empty. */
  function Solid(parts: seq<string>): seq<string> {
    if parts == [] then []
    else (if parts[0] == [] then [] else [parts[0]]) + Solid(parts[1..])
  }

  /** What a path looks like after joining slash-free components to it. */
  function Appended(a: string, parts: seq<string>): string {
    a + (if Solid(parts) == [] then "" else "/" + SlashJoin(Solid(parts)))
    + (if parts != [] && parts[|parts| - 1] == [] then "/" else "")
  }

  /** On slash-free components `os.path.join` joins the nonempty ones with slashes; a final empty one
      leaves a trailing slash, any other empty one nothing. */
  lemma {:induction false} PosixJoinExactly(a: string, parts: seq<string>)
    requires a != [] && !EndsWithSlash(a) && forall i :: 0 <= i < |parts| ==> SlashFree(parts[i])
    ensures PosixJoin(a, parts) == Appended(a, parts)
    ensures PosixJoin(a + "/", parts) == if parts == [] then a + "/" else Appended(a, parts)
    decreases parts
  {
    if parts != [] {
      var b, rest := parts[0], parts[1..];
      assert parts == [b] + rest;
      if b == [] {
        PosixJoinExactly(a, rest);
        assert JoinOne(a, b) == a + "/" == JoinOne(a + "/", b);
        AppendedSkip(a, parts, rest);
      } else {
        var a' := a + "/" + b;
        assert a'[|a'| - 1] == b[|b| - 1];
        assert JoinOne(a, b) == a' && JoinOne(a + "/", b) == a';
        PosixJoinExactly(a', rest);
        AppendedCons(a, b, parts, rest);
      }
    }
  }

  lemma AppendedSkip(a: string, parts: seq<string>, rest: seq<string>)
    requires parts == [[]] + rest
    ensures Appended(a, parts) == if rest == [] then a + "/" else Appended(a, rest)
  {
    assert parts[0] == [] && parts[1..] == rest && Solid(parts) == [] + Solid(rest) == Solid(rest);
    assert parts[|parts| - 1] == if rest == [] then [] else rest[|rest| - 1];
    assert a + "" + "/" == a + "/";
  }

  lemma AppendedCons(a: string, b: string, parts: seq<string>, rest: seq<string>)
    requires parts == [b] + rest && b != []
    ensures Appended(a + "/" + b, rest) == Appended(a, parts)
  {
    var solid, slash := Solid(rest), if rest != [] && rest[|rest| - 1] == [] then "/" else "";
    assert parts[1..] == rest && Solid(parts) == [b] + solid;
    assert parts[|parts| - 1] == if rest == [] then b else rest[|rest| - 1];
    if solid == [] {
      assert SlashJoin([b]) == b;
      assert a + "/" + b + "" + slash == a + ("/" + b) + slash;
    } else {
      assert ([b] + solid)[1..] == solid;
      Reassociate(a, b, SlashJoin(solid), slash);
    }
  }

  lemma Reassociate(a: string, b: string, j: string, slash: string)
    ensures a + "/" + b + ("/" + j) + slash == a + ("/" + (b + "/" + j)) + slash
  {
  }

  /** `s.split(c)` */
  function Split(s: string, c: char): (r: seq<string>)
    ensures |r| >= 1
  {
    if s == [] then [""]
    else if s[0] == c then [""] + Split(s[1..], c)
    else Glue(s[0], Split(s[1..], c))
  }

  /** Puts a character in front of the first piece. */
  function Glue(x: char, pieces: seq<string>): (r: seq<string>)
    requires |pieces| >= 1
    ensures |r| == |pieces|
  {
    [[x] + pieces[0]] + pieces[1..]
  }

  lemma GlueAppend(x: char, a: seq<string>, b: seq<string>)
    requires |a| >= 1
    ensures Glue(x, a + b) == Glue(x, a) + b
  {
    assert (a + b)[1..] == a[1..] + b;
  }

  lemma {:induction false} SplitPieces(s: string, c: char)
    ensures forall i :: 0 <= i < |Split(s, c)| ==> c !in Split(s, c)[i]
  {
    if s != [] {
      SplitPieces(s[1..], c);
    }
  }

  lemma {:induction false} SplitSeparated(a: string, b: string, c: char)
    ensures Split(a + [c] + b, c) == Split(a, c) + Split(b, c)
  {
    var s := a + [c] + b;
    if a == [] {
      assert s[1..] == b;
    } else {
      SplitSeparated(a[1..], b, c);
      assert s[1..] == a[1..] + [c] + b;
      var r, tail := Split(a[1..], c), Split(b, c);
      if a[0] == c {
        assert ([""] + r) + tail == [""] + (r + tail);
      } else {
        GlueAppend(a[0], r, tail);
      }
    }
  }

  lemma {:induction false} SplitWhole(a: string, c: char)
    requires c !in a
    ensures Split(a, c) == [a]
  {
    if a != [] {
      SplitWhole(a[1..], c);
      assert [a[0]] + a[1..] == a;
    }
  }

  /** Joining undoes splitting, so splitting loses nothing. */
  lemma {:induction false} JoinSplit(s: string)
    ensures SlashJoin(Split(s, '/')) == s
  {
    if s != [] {
      var r := Split(s[1..], '/');
      JoinSplit(s[1..]);
      var whole := Split(s, '/');
      if s[0] == '/' {
        assert whole[1..] == r;
      } else {
        assert whole[1..] == r[1..];
      }
    }
  }

  /** Splitting undoes joining on slash-free components. */
  lemma {:induction false} SplitJoin(parts: seq<string>)
    requires parts != [] && forall i :: 0 <= i < |parts| ==> SlashFree(parts[i])
    ensures Split(SlashJoin(parts), '/') == parts
  {
    SplitWhole(parts[0], '/');
    if |parts| > 1 {
      SplitJoin(parts[1..]);
      SplitSeparated(parts[0], SlashJoin(parts[1..]), '/');
      assert parts[0] + ['/'] + SlashJoin(parts[1..]) == SlashJoin(parts);
      assert [parts[0]] + parts[1..] == parts;
    } else {
      assert parts == [parts[0]];
    }
  }

  /** Joining slash-free components is injective. */
  lemma SlashJoinInjective(a: seq<string>, b: seq<string>)
    requires a != [] && forall i :: 0 <= i < |a| ==> SlashFree(a[i])
    requires b != [] && forall i :: 0 <= i < |b| ==> SlashFree(b[i])
    requires SlashJoin(a) == SlashJoin(b)
    ensures a == b
  {
    SplitJoin(a);
    SplitJoin(b);
  }

  /** The string test "is strictly below" is the component-wise test "is a longer trail". */
  lemma SlashJoinBelow(a: seq<string>, b: seq<string>)
    requires a != [] && forall i :: 0 <= i < |a| ==> SlashFree(a[i])
    requires b != [] && forall i :: 0 <= i < |b| ==> SlashFree(b[i])
    ensures SlashJoin(a) + "/" <= SlashJoin(b) <==> a < b
  {
    if SlashJoin(a) + "/" <= SlashJoin(b) {
      var rest := SlashJoin(b)[|SlashJoin(a)| + 1..];
      assert SlashJoin(b) == SlashJoin(a) + ['/'] + rest;
      SplitSeparated(SlashJoin(a), rest, '/');
      SplitJoin(a);
      SplitJoin(b);
    }
    if a < b {
      SlashJoinAppend(a, b[|a|..]);
      assert b == a + b[|a|..];
    }
  }

  lemma {:induction false} SlashJoinAppend(a: seq<string>, b: seq<string>)
    requires a != [] && b != []
    ensures SlashJoin(a + b) == SlashJoin(a) + "/" + SlashJoin(b)
  {
    if |a| == 1 {
      assert (a + b)[1..] == b;
    } else {
      SlashJoinAppend(a[1..], b);
      assert (a + b)[1..] == a[1..] + b;
    }
  }

  // ---------------------------------------------------------------- substrings

  predicate OccursAt(needle: string, s: string, i: nat) {
    i + |needle| <= |s| && s[i..i + |needle|] == needle
  }

  /** Python's `needle in s` on strings. */
  predicate Contains(s: string, needle: string) {
    exists i: nat :: i <= |s| && OccursAt(needle, s, i)
  }

  // ---------------------------------------------------------------- sorting

  /** Python compares strings by code point, first difference first. */
  predicate StrLe(a: string, b: string) {
    a == [] || (b != [] && (a[0] < b[0] || (a[0] == b[0] && StrLe(a[1..], b[1..]))))
  }

  /** The first difference decides, the smaller code point first, and a prefix comes first. */
  lemma {:induction false} StrLeExactly(a: string, b: string)
    ensures StrLe(a, b) <==>
            a <= b || exists i :: 0 <= i < |a| && i < |b| && a[..i] == b[..i] && a[i] < b[i]
  {
    if a != [] && b != [] && a[0] == b[0] {
      var a', b' := a[1..], b[1..];
      StrLeExactly(a', b');
      if i :| 0 <= i < |a| && i < |b| && a[..i] == b[..i] && a[i] < b[i] {
        assert a'[..i - 1] == a[..i][1..] == b[..i][1..] == b'[..i - 1] && a'[i - 1] < b'[i - 1];
      }
      if i :| 0 <= i < |a'| && i < |b'| && a'[..i] == b'[..i] && a'[i] < b'[i] {
        assert a[..i + 1] == [a[0]] + a'[..i] == [b[0]] + b'[..i] == b[..i + 1] && a[i + 1] < b[i + 1];
      }
      assert a <= b <==> a' <= b';
    } else if a != [] && b != [] && a[0] < b[0] {
      assert a[..0] == b[..0];
    }
  }

  lemma {:induction false} StrLeTotal(a: string, b: string)
    ensures StrLe(a, b) || StrLe(b, a)
    ensures StrLe(a, b) && StrLe(b, a) ==> a == b
  {
    if a != [] && b != [] && a[0] == b[0] {
      StrLeTotal(a[1..], b[1..]);
    }
  }

  lemma {:induction false} StrLeTransitive(a: string, b: string, c: string)
    requires StrLe(a, b) && StrLe(b, c)
    ensures StrLe(a, c)
  {
    if a != [] && a[0] == b[0] == c[0] {
      StrLeTransitive(a[1..], b[1..], c[1..]);
    }
  }

  ghost predicate Sorted(s: seq<string>) {
    forall i, j :: 0 <= i < j < |s| ==> StrLe(s[i], s[j])
  }

  function Insert(x: string, s: seq<string>): (r: seq<string>)
    ensures multiset(r) == multiset(s) + multiset{x}
  {
    if s == [] || StrLe(x, s[0]) then
      [x] + s
    else
      assert s == [s[0]] + s[1..];
      [s[0]] + Insert(x, s[1..])
  }

  lemma {:induction false} InsertSorted(x: string, s: seq<string>)
    requires Sorted(s)
    ensures Sorted(Insert(x, s))
  {
    var r := Insert(x, s);
    if s == [] {
    } else if StrLe(x, s[0]) {
      forall j | 0 < j < |r| ensures StrLe(r[0], r[j]) {
        if j > 1 { StrLeTransitive(x, s[0], s[j - 1]); }
      }
    } else {
      InsertSorted(x, s[1..]);
      StrLeTotal(x, s[0]);
      forall j | 0 < j < |r| ensures StrLe(r[0], r[j]) {
        assert r[j] in multiset(Insert(x, s[1..]));
        assert r[j] == x || r[j] in s[1..];
      }
    }
  }

  /** `sorted(s)` */
  function Sort(s: seq<string>): (r: seq<string>)
    ensures Sorted(r) && multiset(r) == multiset(s)
  {
    if s == [] then []
    else
      assert s == [s[0]] + s[1..];
      InsertSorted(s[0], Sort(s[1..]));
      Insert(s[0], Sort(s[1..]))
  }

  lemma SortedHead(a: seq<string>, b: seq<string>)
    requires a != [] && Sorted(b) && multiset(a) == multiset(b)
    ensures |b| == |a| && StrLe(b[0], a[0])
  {
    assert |multiset(a)| == |a| && |multiset(b)| == |b|;
    assert a[0] in multiset(b);
    var i :| 0 <= i < |b| && b[i] == a[0];
    StrLeTotal(a[0], a[0]);
  }

  lemma SameTails(a: seq<string>, b: seq<string>)
    requires a != [] && b != [] && a[0] == b[0] && multiset(a) == multiset(b)
    ensures multiset(a[1..]) == multiset(b[1..])
  {
    assert a == [a[0]] + a[1..] && b == [b[0]] + b[1..];
    assert multiset(a[1..]) == multiset(a) - multiset{a[0]};
  }

  /** A sorted sequence is determined by how often each element occurs in it. */
  lemma {:induction false} SortedUnique(a: seq<string>, b: seq<string>)
    requires Sorted(a) && Sorted(b) && multiset(a) == multiset(b)
    ensures a == b
  {
    if a == [] {
      assert |multiset(b)| == 0;
    } else {
      SortedHead(a, b);
      SortedHead(b, a);
      StrLeTotal(a[0], b[0]);
      SameTails(a, b);
      SortedUnique(a[1..], b[1..]);
    }
  }
}
