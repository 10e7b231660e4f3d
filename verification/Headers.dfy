/** What the Accept and Content-Type headers mean, read off their text: whitespace around a media
    type does not matter, parameters of a content type neither, and the order of types does not. */
module Headers {
  import opened Text

  const OCTETS := "application/octet-stream"
  const JSON := "application/json"

  /** `str.isspace` for one character. */
  predicate IsSpace(c: char) {
    var n := c as int;
    0x9 <= n <= 0xd || 0x1c <= n <= 0x20 || n == 0x85 || n == 0xa0 || n == 0x1680
    || 0x2000 <= n <= 0x200a || n == 0x2028 || n == 0x2029 || n == 0x202f || n == 0x205f || n == 0x3000
  }

  /** `s.strip()` */
  function Strip(s: string): string {
    if s != [] && IsSpace(s[0]) then Strip(s[1..])
    else if s != [] && IsSpace(s[|s| - 1]) then Strip(s[..|s| - 1])
    else s
  }

  /** The media types of an Accept header. */
  function AcceptedTypes(accept: string): seq<string> {
    var pieces := Split(accept, ',');
    seq(|pieces|, i requires 0 <= i < |pieces| => Strip(pieces[i]))
  }

  /** Binary output is chosen when octets are listed and JSON is not, in any order. */
  predicate WantsBinary(accept: Option<string>) {
    accept.Some? && OCTETS in AcceptedTypes(accept.value) && JSON !in AcceptedTypes(accept.value)
  }

  // ---------------------------------------------------------------- whitespace

  /** The 29 characters that count as whitespace. */
  lemma WhitespaceExactly(c: char)
    ensures IsSpace(c) <==>
            c as int in {9, 10, 11, 12, 13, 28, 29, 30, 31, 32, 133, 160, 5760, 8192, 8193, 8194, 8195, 8196, 8197,
                         8198, 8199, 8200, 8201, 8202, 8232, 8233, 8239, 8287, 12288}
  {
  }

  predicate Spaces(s: string) {
    forall i :: 0 <= i < |s| ==> IsSpace(s[i])
  }

  /** No whitespace at either end. */
  predicate Bare(s: string) {
    s == [] || (!IsSpace(s[0]) && !IsSpace(s[|s| - 1]))
  }

  /** `s` is `core` with whitespace around it. */
  ghost predicate Padded(s: string, core: string) {
    Bare(core) && exists a: string, b: string :: Spaces(a) && Spaces(b) && s == a + core + b
  }

  /** Stripping finds the core. */
  lemma {:induction false} StripFinds(a: string, core: string, b: string)
    requires Spaces(a) && Spaces(b) && Bare(core)
    ensures Strip(a + core + b) == core
    decreases |a| + |b|
  {
    var s := a + core + b;
    if a != [] {
      StripFinds(a[1..], core, b);
      assert s[0] == a[0] && s[1..] == a[1..] + core + b;
    } else if core == [] {
      if b != [] {
        StripFinds([], [], b[1..]);
        assert s == b && s[1..] == [] + [] + b[1..];
      }
    } else if b != [] {
      StripFinds([], core, b[..|b| - 1]);
      assert s[0] == core[0] && s[|s| - 1] == b[|b| - 1] && s[..|s| - 1] == [] + core + b[..|b| - 1];
    } else {
      assert s == core;
    }
  }

  /** There is always a core to find. */
  lemma {:induction false} StripDecomposes(s: string) returns (a: string, b: string)
    ensures Spaces(a) && Spaces(b) && Bare(Strip(s)) && s == a + Strip(s) + b
    decreases |s|
  {
    if s != [] && IsSpace(s[0]) {
      a, b := StripDecomposes(s[1..]);
      a := [s[0]] + a;
    } else if s != [] && IsSpace(s[|s| - 1]) {
      a, b := StripDecomposes(s[..|s| - 1]);
      b := b + [s[|s| - 1]];
    } else {
      a, b := [], [];
    }
  }

  lemma StripExactly(s: string, core: string)
    ensures Strip(s) == core <==> Padded(s, core)
  {
    var a, b := StripDecomposes(s);
    if Padded(s, core) {
      var c: string, d: string :| Spaces(c) && Spaces(d) && s == c + core + d;
      StripFinds(c, core, d);
    }
  }

  // ---------------------------------------------------------------- Accept

  /** `c.join(parts)` */
  function Joined(c: char, parts: seq<string>): string {
    if |parts| == 0 then "" else if |parts| == 1 then parts[0] else parts[0] + [c] + Joined(c, parts[1..])
  }

  lemma {:induction false} SplitJoined(c: char, parts: seq<string>)
    requires parts != [] && forall i :: 0 <= i < |parts| ==> c !in parts[i]
    ensures Split(Joined(c, parts), c) == parts
  {
    SplitWhole(parts[0], c);
    if |parts| > 1 {
      SplitJoined(c, parts[1..]);
      SplitSeparated(parts[0], Joined(c, parts[1..]), c);
      assert [parts[0]] + parts[1..] == parts;
    } else {
      assert parts == [parts[0]];
    }
  }

  lemma {:induction false} JoinedSplit(c: char, s: string)
    ensures Joined(c, Split(s, c)) == s
  {
    if s != [] {
      var r := Split(s[1..], c);
      JoinedSplit(c, s[1..]);
      var whole := Split(s, c);
      if s[0] == c { assert whole[1..] == r; } else { assert whole[1..] == r[1..]; }
    }
  }

  /** The header is a comma-separated list of these media types, with whitespace around each. */
  ghost predicate Lists(header: string, types: seq<string>) {
    exists pieces: seq<string> ::
      && |pieces| == |types| > 0 && header == Joined(',', pieces)
      && forall i :: 0 <= i < |pieces| ==> ',' !in pieces[i] && Padded(pieces[i], types[i])
  }

  lemma ListedTypes(header: string, types: seq<string>)
    ensures AcceptedTypes(header) == types <==> Lists(header, types)
  {
    var found := Split(header, ',');
    SplitPieces(header, ',');
    JoinedSplit(',', header);
    if AcceptedTypes(header) == types {
      forall i | 0 <= i < |found| ensures Padded(found[i], types[i]) {
        StripExactly(found[i], types[i]);
      }
    }
    if Lists(header, types) {
      var pieces: seq<string> :| |pieces| == |types| > 0 && header == Joined(',', pieces)
        && forall i :: 0 <= i < |pieces| ==> ',' !in pieces[i] && Padded(pieces[i], types[i]);
      SplitJoined(',', pieces);
      forall i | 0 <= i < |types| ensures AcceptedTypes(header)[i] == types[i] {
        StripExactly(pieces[i], types[i]);
      }
    }
  }

  /** A reply is binary exactly when the header lists the octet stream and not JSON. */
  lemma BinaryExactly(header: string, types: seq<string>)
    requires Lists(header, types)
    ensures WantsBinary(Some(header)) <==> "application/octet-stream" in types && "application/json" !in types
  {
    ListedTypes(header, types);
  }

  lemma ListsExactly(header: string)
    ensures forall types :: Lists(header, types) ==>
              (WantsBinary(Some(header)) <==> "application/octet-stream" in types && "application/json" !in types)
  {
    forall types | Lists(header, types)
      ensures WantsBinary(Some(header)) <==> "application/octet-stream" in types && "application/json" !in types
    {
      BinaryExactly(header, types);
    }
  }

  lemma EveryAcceptParses(header: string)
    ensures Lists(header, AcceptedTypes(header))
  {
    ListedTypes(header, AcceptedTypes(header));
  }

  // ---------------------------------------------------------------- Content-Type

  /** What stands before the first semicolon, if any, is `kind` with whitespace around it. */
  ghost predicate ContentType(header: string, kind: string) {
    exists first: string, rest: string ::
      header == first + rest && ';' !in first && (rest == [] || rest[0] == ';') && Padded(first, kind)
  }

  lemma FirstPiece(first: string, rest: string)
    requires ';' !in first && (rest == [] || rest[0] == ';')
    ensures Split(first + rest, ';')[0] == first
  {
    SplitWhole(first, ';');
    if rest == [] {
      assert first + rest == first;
    } else {
      assert first + rest == first + [';'] + rest[1..];
      SplitSeparated(first, rest[1..], ';');
    }
  }

  /** The kind the consumer computes is the one the header names. */
  lemma KindExactly(header: string, kind: string)
    ensures Strip(Split(header, ';')[0]) == kind <==> ContentType(header, kind)
  {
    var first := Split(header, ';')[0];
    if Strip(first) == kind {
      var pieces := Split(header, ';');
      SplitPieces(header, ';');
      JoinedSplit(';', header);
      var rest := header[|first|..];
      assert header == first + rest && (rest == [] || rest[0] == ';');
      StripExactly(first, kind);
    }
    if ContentType(header, kind) {
      var f: string, rest: string :|
        header == f + rest && ';' !in f && (rest == [] || rest[0] == ';') && Padded(f, kind);
      FirstPiece(f, rest);
      StripExactly(f, kind);
    }
  }
}
