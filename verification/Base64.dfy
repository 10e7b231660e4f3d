/** Base64 as section 4 of RFC 4648 defines it: the encoder, and the lenient decoder of Python's
    `b64decode`, which skips characters outside the alphabet and stops at complete padding. */
module Base64 {
  import opened Text

  newtype byte = x: int | 0 <= x < 256

  function Letter(i: int): (c: char)
    requires 0 <= i < 64
  {
    if i < 26 then 'A' + i as char
    else if i < 52 then 'a' + (i - 26) as char
    else if i < 62 then '0' + (i - 52) as char
    else if i == 62 then '+' else '/'
  }

  function Index(c: char): (r: Option<int>)
    ensures r.Some? ==> 0 <= r.value < 64
  {
    if 'A' <= c <= 'Z' then Some((c - 'A') as int)
    else if 'a' <= c <= 'z' then Some((c - 'a') as int + 26)
    else if '0' <= c <= '9' then Some((c - '0') as int + 52)
    else if c == '+' then Some(62)
    else if c == '/' then Some(63)
    else None
  }

  lemma IndexLetter(i: int)
    requires 0 <= i < 64
    ensures Index(Letter(i)) == Some(i) && Letter(i) != '='
  {
  }

  function Encode(b: seq<byte>): (s: string) {
    if |b| == 0 then ""
    else
      var x := b[0] as int;
      if |b| == 1 then
        [Letter(x / 4), Letter(x % 4 * 16), '=', '=']
      else
        var y := b[1] as int;
        if |b| == 2 then
          [Letter(x / 4), Letter(x % 4 * 16 + y / 16), Letter(y % 16 * 4), '=']
        else
          var z := b[2] as int;
          [Letter(x / 4), Letter(x % 4 * 16 + y / 16), Letter(y % 16 * 4 + z / 64), Letter(z % 64)] + Encode(b[3..])
  }

  /** The decoder's loop: `quad` characters of the current group have been read, `left` holds
      their bits not yet emitted, `pads` counts the padding characters just read. */
  function Scan(s: string, quad: int, left: int, pads: nat): (r: Option<seq<byte>>)
    requires 0 <= quad < 4
    requires if quad == 0 then left == 0 else if quad == 1 then 0 <= left < 64
             else if quad == 2 then 0 <= left < 16 else 0 <= left < 4
  {
    if s == [] then
      if quad == 0 then Some([]) else None
    else if s[0] == '=' then
      if quad >= 2 && quad + pads + 1 >= 4 then Some([])
      else Scan(s[1..], quad, left, if quad >= 2 then pads + 1 else pads)
    else match Index(s[0])
      case None => Scan(s[1..], quad, left, pads)
      case Some(v) =>
        if quad == 0 then Scan(s[1..], 1, v, 0)
        else if quad == 1 then Emit((left * 4 + v / 16) as byte, Scan(s[1..], 2, v % 16, 0))
        else if quad == 2 then Emit((left * 16 + v / 4) as byte, Scan(s[1..], 3, v % 4, 0))
        else Emit((left * 64 + v) as byte, Scan(s[1..], 0, 0, 0))
  }

  function Emit(b: byte, rest: Option<seq<byte>>): Option<seq<byte>> {
    if rest.None? then None else Some([b] + rest.value)
  }

  predicate Ascii(s: string) {
    forall i :: 0 <= i < |s| ==> s[i] < 128 as char
  }

  /** `b64decode(s)`; `None` is its padding error, or its refusal of a non-ASCII string. */
  function Decode(s: string): (r: Option<seq<byte>>) {
    if Ascii(s) then Scan(s, 0, 0, 0) else None
  }

  /** One encoded character takes the decoder one step. */
  lemma ScanLetter(s: string, quad: int, left: int, pads: nat, v: int)
    requires 0 <= quad < 4 && 0 <= v < 64
    requires if quad == 0 then left == 0 else if quad == 1 then 0 <= left < 64
             else if quad == 2 then 0 <= left < 16 else 0 <= left < 4
    ensures Scan([Letter(v)] + s, quad, left, pads) ==
            if quad == 0 then Scan(s, 1, v, 0)
            else if quad == 1 then Emit((left * 4 + v / 16) as byte, Scan(s, 2, v % 16, 0))
            else if quad == 2 then Emit((left * 16 + v / 4) as byte, Scan(s, 3, v % 4, 0))
            else Emit((left * 64 + v) as byte, Scan(s, 0, 0, 0))
  {
    IndexLetter(v);
    assert ([Letter(v)] + s)[1..] == s;
  }

  /** The four characters of a group carry its three bytes. */
  lemma GroupBits(x: int, y: int, z: int)
    requires 0 <= x < 256 && 0 <= y < 256 && 0 <= z < 256
    ensures var j, k := x % 4 * 16 + y / 16, y % 16 * 4 + z / 64;
            0 <= j < 64 && 0 <= k < 64 &&
            x / 4 * 4 + j / 16 == x && j % 16 * 16 + k / 4 == y && k % 4 * 64 + z % 64 == z
  {
  }

  lemma ScanGroup(i: int, j: int, k: int, l: int, rest: string, b: seq<byte>)
    requires 0 <= i < 64 && 0 <= j < 64 && 0 <= k < 64 && 0 <= l < 64
    requires |b| >= 3 && Scan(rest, 0, 0, 0) == Some(b[3..])
    requires i * 4 + j / 16 == b[0] as int && j % 16 * 16 + k / 4 == b[1] as int && k % 4 * 64 + l == b[2] as int
    ensures Scan([Letter(i), Letter(j), Letter(k), Letter(l)] + rest, 0, 0, 0) == Some(b)
  {
    var s3 := [Letter(l)] + rest;
    var s2 := [Letter(k)] + s3;
    var s1 := [Letter(j)] + s2;
    assert [Letter(i), Letter(j), Letter(k), Letter(l)] + rest == [Letter(i)] + s1;
    assert Scan(s3, 3, k % 4, 0) == Some(b[2..]) by {
      ScanLetter(rest, 3, k % 4, 0, l);
      assert [b[2]] + b[3..] == b[2..];
    }
    assert Scan(s2, 2, j % 16, 0) == Some(b[1..]) by {
      ScanLetter(s3, 2, j % 16, 0, k);
      assert [b[1]] + b[2..] == b[1..];
    }
    assert Scan(s1, 1, i, 0) == Some(b) by {
      ScanLetter(s2, 1, i, 0, j);
      assert [b[0]] + b[1..] == b;
    }
    ScanLetter(s1, 0, 0, 0, i);
  }

  lemma ScanOne(i: int, j: int, b: seq<byte>)
    requires 0 <= i < 64 && 0 <= j < 64
    requires |b| == 1 && i * 4 + j / 16 == b[0] as int
    ensures Scan([Letter(i), Letter(j), '=', '='], 0, 0, 0) == Some(b)
  {
    var s1 := [Letter(j)] + "==";
    assert [Letter(i), Letter(j), '=', '='] == [Letter(i)] + s1;
    ScanLetter(s1, 0, 0, 0, i);
    ScanLetter("==", 1, i, 0, j);
    assert "=="[1..] == "=";
    assert Scan("=", 2, j % 16, 1) == Some([]);
    assert [b[0]] + [] == b;
  }

  lemma ScanTwo(i: int, j: int, k: int, b: seq<byte>)
    requires 0 <= i < 64 && 0 <= j < 64 && 0 <= k < 64
    requires |b| == 2 && i * 4 + j / 16 == b[0] as int && j % 16 * 16 + k / 4 == b[1] as int
    ensures Scan([Letter(i), Letter(j), Letter(k), '='], 0, 0, 0) == Some(b)
  {
    var s2 := [Letter(k)] + "=";
    var s1 := [Letter(j)] + s2;
    assert [Letter(i), Letter(j), Letter(k), '='] == [Letter(i)] + s1;
    ScanLetter(s1, 0, 0, 0, i);
    ScanLetter(s2, 1, i, 0, j);
    ScanLetter("=", 2, j % 16, 0, k);
    assert [b[0]] + ([b[1]] + []) == b;
  }

  lemma {:induction false} EncodeAscii(b: seq<byte>)
    ensures Ascii(Encode(b))
  {
    if |b| >= 3 {
      EncodeAscii(b[3..]);
    }
  }

  /** Every byte string survives encoding and decoding. */
  lemma {:induction false} RoundTrip(b: seq<byte>)
    ensures Decode(Encode(b)) == Some(b)
  {
    EncodeAscii(b);
    if |b| == 0 {
      assert b == [];
    } else if |b| < 3 {
      LastGroup(b);
    } else {
      var x, y, z := b[0] as int, b[1] as int, b[2] as int;
      GroupBits(x, y, z);
      RoundTrip(b[3..]);
      ScanGroup(x / 4, x % 4 * 16 + y / 16, y % 16 * 4 + z / 64, z % 64, Encode(b[3..]), b);
    }
  }

  lemma LastGroup(b: seq<byte>)
    requires |b| == 1 || |b| == 2
    ensures Scan(Encode(b), 0, 0, 0) == Some(b)
  {
    var x := b[0] as int;
    if |b| == 1 {
      GroupBits(x, 0, 0);
      ScanOne(x / 4, x % 4 * 16, b);
    } else {
      var y := b[1] as int;
      GroupBits(x, y, 0);
      ScanTwo(x / 4, x % 4 * 16 + y / 16, y % 16 * 4, b);
    }
  }

  /** A nonempty byte string never encodes to the empty string. */
  lemma EncodeNonempty(b: seq<byte>)
    requires b != []
    ensures Encode(b) != []
  {
  }

  /** Test vectors of section 10 of RFC 4648, for each kind of final group. */
  lemma TestVectors()
    ensures Encode([102]) == "Zg=="
    ensures Encode([102, 111]) == "Zm8="
    ensures Encode([102, 111, 111]) == "Zm9v"
  {
    var foo: seq<byte> := [102, 111, 111];
    assert foo[3..] == [];
    assert Encode(foo) == [Letter(25), Letter(38), Letter(61), Letter(47)] + Encode(foo[3..]);
  }

  // ---------------------------------------------------------------- the encoding, bit by bit

  /** The alphabet: capitals, small letters, digits, plus and slash, in order. */
  lemma AlphabetExactly(i: int)
    requires 0 <= i < 63
    ensures Letter(0) == 'A' && Letter(26) == 'a' && Letter(52) == '0' && Letter(62) == '+' && Letter(63) == '/'
    ensures i != 25 && i != 51 && i < 61 ==> Letter(i + 1) == Letter(i) + 1 as char
  {
  }

  lemma IndexExactly(c: char)
    ensures Index(c).None? <==> forall i :: 0 <= i < 64 ==> Letter(i) != c
    ensures Index(c).Some? ==> Letter(Index(c).value) == c
  {
    if Index(c).Some? { assert Letter(Index(c).value) == c; }
    if i :| 0 <= i < 64 && Letter(i) == c { IndexLetter(i); }
  }

  /** The next three bytes, missing ones zero, as one number. */
  function Group(b: seq<byte>): int {
    (if |b| > 0 then b[0] as int * 65536 else 0) + (if |b| > 1 then b[1] as int * 256 else 0)
    + (if |b| > 2 then b[2] as int else 0)
  }

  /** Each group of three bytes is written as the four digits of its number to the base of 64, with
      padding for the digits that no byte reaches into. */
  lemma EncodesGroups(b: seq<byte>) returns (i: int, j: int, k: int, l: int)
    requires b != []
    ensures 0 <= i < 64 && 0 <= j < 64 && 0 <= k < 64 && 0 <= l < 64
    ensures Group(b) == i * 262144 + j * 4096 + k * 64 + l
    ensures Encode(b) == [Letter(i), Letter(j), if |b| > 1 then Letter(k) else '=', if |b| > 2 then Letter(l) else '=']
                         + if |b| > 3 then Encode(b[3..]) else ""
  {
    var x := b[0] as int;
    var y := if |b| > 1 then b[1] as int else 0;
    var z := if |b| > 2 then b[2] as int else 0;
    i, j, k, l := x / 4, x % 4 * 16 + y / 16, y % 16 * 4 + z / 64, z % 64;
    if |b| == 3 { assert Encode(b[3..]) == ""; }
  }

  // ---------------------------------------------------------------- what the decoder makes of the rest

  predicate Ready(quad: int, left: int) {
    0 <= quad < 4
    && if quad == 0 then left == 0 else if quad == 1 then 0 <= left < 64
       else if quad == 2 then 0 <= left < 16 else 0 <= left < 4
  }

  /** The bits of a digit that wait for the next one. */
  function LeftOver(quad: int, v: int): int {
    if quad == 0 then v else if quad == 1 then v % 16 else if quad == 2 then v % 4 else 0
  }

  lemma {:induction false} ScanSkips(p: string, c: char, q: string, quad: int, left: int, pads: nat)
    requires Ready(quad, left) && Index(c).None? && c != '='
    ensures Scan(p + [c] + q, quad, left, pads) == Scan(p + q, quad, left, pads)
    decreases p
  {
    var s, u := p + [c] + q, p + q;
    if p == [] {
      assert s[1..] == q && u == q;
    } else {
      var p' := p[1..];
      assert s[1..] == p' + [c] + q && u[1..] == p' + q && s[0] == u[0] == p[0];
      if p[0] == '=' {
        ScanSkips(p', c, q, quad, left, if quad >= 2 then pads + 1 else pads);
      } else if Index(p[0]).None? {
        ScanSkips(p', c, q, quad, left, pads);
      } else {
        ScanSkips(p', c, q, (quad + 1) % 4, LeftOver(quad, Index(p[0]).value), 0);
      }
    }
  }

  /** A character outside the alphabet is as good as not there. */
  lemma DecodeSkips(p: string, c: char, q: string)
    requires c < 128 as char && Index(c).None? && c != '='
    ensures Decode(p + [c] + q) == Decode(p + q)
  {
    ScanSkips(p, c, q, 0, 0, 0);
    var s, u := p + [c] + q, p + q;
    if Ascii(s) {
      forall i | 0 <= i < |u| ensures u[i] < 128 as char {
        assert u[i] == s[if i < |p| then i else i + 1];
      }
    }
    if Ascii(u) {
      forall i | 0 <= i < |s| ensures s[i] < 128 as char {
        assert i != |p| ==> s[i] == u[if i < |p| then i else i - 1];
      }
    }
  }

  function Prepend(b: seq<byte>, rest: Option<seq<byte>>): Option<seq<byte>> {
    if rest.None? then None else Some(b + rest.value)
  }

  lemma ScanFour(i: int, j: int, k: int, l: int, rest: string)
    requires 0 <= i < 64 && 0 <= j < 64 && 0 <= k < 64 && 0 <= l < 64
    ensures Scan([Letter(i), Letter(j), Letter(k), Letter(l)] + rest, 0, 0, 0) ==
            Prepend([(i * 4 + j / 16) as byte, (j % 16 * 16 + k / 4) as byte, (k % 4 * 64 + l) as byte],
                    Scan(rest, 0, 0, 0))
  {
    var s3 := [Letter(l)] + rest;
    var s2 := [Letter(k)] + s3;
    var s1 := [Letter(j)] + s2;
    assert [Letter(i), Letter(j), Letter(k), Letter(l)] + rest == [Letter(i)] + s1;
    ScanLetter(rest, 3, k % 4, 0, l);
    ScanLetter(s3, 2, j % 16, 0, k);
    ScanLetter(s2, 1, i, 0, j);
    ScanLetter(s1, 0, 0, 0, i);
    var x, y, z := (i * 4 + j / 16) as byte, (j % 16 * 16 + k / 4) as byte, (k % 4 * 64 + l) as byte;
    var last := Scan(rest, 0, 0, 0);
    if last.Some? { assert [x] + ([y] + ([z] + last.value)) == [x, y, z] + last.value; }
  }

  /** Complete groups are decoded on their own, whatever follows them. */
  lemma {:induction false} GroupsThenRest(b: seq<byte>, s: string)
    requires |b| % 3 == 0
    ensures Scan(Encode(b) + s, 0, 0, 0) == Prepend(b, Scan(s, 0, 0, 0))
  {
    if b == [] {
      assert Encode(b) + s == s;
      PrependTwice(b, b, Scan(s, 0, 0, 0));
    } else {
      ThreeMore(|b|);
      FirstGroup(b, s);
      GroupsThenRest(b[3..], s);
      assert b[..3] + b[3..] == b;
      PrependTwice(b[..3], b[3..], Scan(s, 0, 0, 0));
    }
  }

  lemma ThreeMore(n: nat)
    requires n % 3 == 0 && n > 0
    ensures n >= 3 && (n - 3) % 3 == 0
  {
  }

  lemma FirstGroup(b: seq<byte>, s: string)
    requires |b| >= 3
    ensures Scan(Encode(b) + s, 0, 0, 0) == Prepend(b[..3], Scan(Encode(b[3..]) + s, 0, 0, 0))
  {
    var x, y, z := b[0] as int, b[1] as int, b[2] as int;
    GroupBits(x, y, z);
    var i, j, k, l := x / 4, x % 4 * 16 + y / 16, y % 16 * 4 + z / 64, z % 64;
    ScanFour(i, j, k, l, Encode(b[3..]) + s);
    assert Encode(b) + s == [Letter(i), Letter(j), Letter(k), Letter(l)] + (Encode(b[3..]) + s);
    assert b[..3] == [b[0], b[1], b[2]];
  }

  lemma PrependTwice(a: seq<byte>, b: seq<byte>, rest: Option<seq<byte>>)
    ensures Prepend(a, Prepend(b, rest)) == Prepend(a + b, rest)
    ensures Prepend([], rest) == rest
  {
    if rest.Some? { assert a + (b + rest.value) == a + b + rest.value && [] + rest.value == rest.value; }
  }

  /** Padding ends the data where it completes a group of two or three digits: the bits that no byte
      reaches are ignored, and so is whatever follows. */
  lemma PaddingEnds(i: int, j: int, k: int, tail: string)
    requires 0 <= i < 64 && 0 <= j < 64 && 0 <= k < 64
    ensures Scan([Letter(i), Letter(j), '=', '='] + tail, 0, 0, 0) == Some([(i * 4 + j / 16) as byte])
    ensures Scan([Letter(i), Letter(j), Letter(k), '='] + tail, 0, 0, 0) ==
            Some([(i * 4 + j / 16) as byte, (j % 16 * 16 + k / 4) as byte])
  {
    OnePad(i, j, tail);
    var one := ['='] + tail;
    var x, y := (i * 4 + j / 16) as byte, (j % 16 * 16 + k / 4) as byte;
    assert [Letter(i), Letter(j), Letter(k), '='] + tail == [Letter(i)] + ([Letter(j)] + ([Letter(k)] + one));
    ScanLetter([Letter(j)] + ([Letter(k)] + one), 0, 0, 0, i);
    ScanLetter([Letter(k)] + one, 1, i, 0, j);
    ScanLetter(one, 2, j % 16, 0, k);
    assert Scan(one, 3, k % 4, 0) == Some([]);
    assert [x] + ([y] + []) == [x, y];
  }

  lemma OnePad(i: int, j: int, tail: string)
    requires 0 <= i < 64 && 0 <= j < 64
    ensures Scan([Letter(i), Letter(j), '=', '='] + tail, 0, 0, 0) == Some([(i * 4 + j / 16) as byte])
  {
    var one := ['='] + tail;
    var two := ['='] + one;
    assert two[1..] == one;
    assert [Letter(i), Letter(j), '=', '='] + tail == [Letter(i)] + ([Letter(j)] + two);
    ScanLetter([Letter(j)] + two, 0, 0, 0, i);
    ScanLetter(two, 1, i, 0, j);
    assert Scan(one, 2, j % 16, 1) == Some([]);
    assert [(i * 4 + j / 16) as byte] + [] == [(i * 4 + j / 16) as byte];
  }

  /** Padding before the second digit of a group, or too little of it, ends nothing. */
  lemma PaddingIgnored(i: int, j: int, k: int, s: string)
    requires 0 <= i < 64 && 0 <= j < 64 && 0 <= k < 64
    ensures Scan(['='] + s, 0, 0, 0) == Scan(s, 0, 0, 0)
    ensures Scan([Letter(i)] + (['='] + s), 0, 0, 0) == Scan([Letter(i)] + s, 0, 0, 0)
    ensures Scan([Letter(i)] + ([Letter(j)] + (['='] + ([Letter(k)] + s))), 0, 0, 0) ==
            Scan([Letter(i)] + ([Letter(j)] + ([Letter(k)] + s)), 0, 0, 0)
  {
    assert (['='] + s)[1..] == s;
    ScanLetter(['='] + s, 0, 0, 0, i);
    ScanLetter(s, 0, 0, 0, i);
    var next := [Letter(k)] + s;
    var late := ['='] + next;
    ScanLetter([Letter(j)] + late, 0, 0, 0, i);
    ScanLetter(late, 1, i, 0, j);
    ScanLetter([Letter(j)] + next, 0, 0, 0, i);
    ScanLetter(next, 1, i, 0, j);
    LatePad(j % 16, k, s);
  }

  lemma LatePad(left: int, k: int, s: string)
    requires 0 <= left < 16 && 0 <= k < 64
    ensures Scan(['='] + ([Letter(k)] + s), 2, left, 0) == Scan([Letter(k)] + s, 2, left, 0)
  {
    assert (['='] + ([Letter(k)] + s))[1..] == [Letter(k)] + s;
    ScanLetter(s, 2, left, 1, k);
    ScanLetter(s, 2, left, 0, k);
  }

  function Digits64(s: string): nat {
    if s == [] then 0 else (if Index(s[0]).Some? then 1 else 0) + Digits64(s[1..])
  }

  lemma ScanDigit(s: string, quad: int, left: int, pads: nat)
    requires Ready(quad, left) && s != [] && s[0] != '=' && Index(s[0]).Some?
    ensures Scan(s, quad, left, pads).Some? <==>
            Scan(s[1..], (quad + 1) % 4, LeftOver(quad, Index(s[0]).value), 0).Some?
  {
  }

  lemma {:induction false} ScanUnpadded(s: string, quad: int, left: int, pads: nat)
    requires Ready(quad, left) && '=' !in s
    ensures Scan(s, quad, left, pads).Some? <==> (quad + Digits64(s)) % 4 == 0
    decreases s
  {
    if s != [] {
      if Index(s[0]).None? {
        ScanUnpadded(s[1..], quad, left, pads);
      } else {
        ScanDigit(s, quad, left, pads);
        ScanUnpadded(s[1..], (quad + 1) % 4, LeftOver(quad, Index(s[0]).value), 0);
        FourSteps(quad, Digits64(s[1..]));
      }
    }
  }

  lemma FourSteps(quad: int, n: nat)
    requires 0 <= quad < 4
    ensures (quad + 1 + n) % 4 == ((quad + 1) % 4 + n) % 4
  {
  }

  /** Without padding, ASCII text decodes exactly if its digits fill their groups. */
  lemma UnpaddedExactly(s: string)
    requires '=' !in s
    ensures Decode(s).Some? <==> Ascii(s) && Digits64(s) % 4 == 0
  {
    if Ascii(s) { ScanUnpadded(s, 0, 0, 0); }
  }

  lemma AsciiParts(a: string, b: string)
    ensures Ascii(a + b) <==> Ascii(a) && Ascii(b)
  {
    if Ascii(a + b) {
      assert forall i :: 0 <= i < |a| ==> a[i] == (a + b)[i];
      assert forall i :: 0 <= i < |b| ==> b[i] == (a + b)[|a| + i];
    }
  }

  /** Encoded groups decode to their bytes and leave the rest of the text to itself. */
  lemma DecodesThenRest(b: seq<byte>, s: string)
    requires |b| % 3 == 0
    ensures Decode(Encode(b) + s) == Prepend(b, Decode(s))
  {
    EncodeAscii(b);
    AsciiParts(Encode(b), s);
    GroupsThenRest(b, s);
  }

  /** A final group with its padding decodes to the bytes its digits fill, whatever ASCII follows. */
  lemma DecodesLast(i: int, j: int, k: int, tail: string)
    requires 0 <= i < 64 && 0 <= j < 64 && 0 <= k < 64
    ensures Decode([Letter(i), Letter(j), '=', '='] + tail) ==
            if Ascii(tail) then Some([(i * 4 + j / 16) as byte]) else None
    ensures Decode([Letter(i), Letter(j), Letter(k), '='] + tail) ==
            if Ascii(tail) then Some([(i * 4 + j / 16) as byte, (j % 16 * 16 + k / 4) as byte]) else None
  {
    AsciiParts([Letter(i), Letter(j), '=', '='], tail);
    AsciiParts([Letter(i), Letter(j), Letter(k), '='], tail);
    PaddingEnds(i, j, k, tail);
  }
}
