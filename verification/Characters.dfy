/** UTF-8 and white space, character by character: what `from_utf8` accepts and `trim` takes away. */
module Characters {
  import opened Octets
  import opened Text

  /** The code points UTF-8 encodes. */
  type Scalar = c: int | 0 <= c < 0xD800 || 0xE000 <= c < 0x11_0000

  /** Section 3 of RFC 3629. */
  function Encode(c: Scalar): (b: Bytes)
    ensures 1 <= |b| <= 4
  {
    if c < 0x80 then [c]
    else if c < 0x800 then [0xC0 + c / 0x40, 0x80 + c % 0x40]
    else if c < 0x1_0000 then [0xE0 + c / 0x40 / 0x40, 0x80 + c / 0x40 % 0x40, 0x80 + c % 0x40]
    else [0xF0 + c / 0x40 / 0x40 / 0x40, 0x80 + c / 0x40 / 0x40 % 0x40, 0x80 + c / 0x40 % 0x40, 0x80 + c % 0x40]
  }

  function EncodeAll(cs: seq<Scalar>): Bytes
  {
    if cs == [] then [] else Encode(cs[0]) + EncodeAll(cs[1..])
  }

  lemma CharEncoded(c: Scalar, rest: Bytes)
    ensures CharAt(Encode(c) + rest) == |Encode(c)|
  {
    var b := Encode(c) + rest;
    assert b[..|Encode(c)|] == Encode(c);
  }

  /** The number six bits at a time. */
  lemma Sextets(h: nat, x: Byte) returns (c: nat)
    requires 0x80 <= x < 0xC0
    ensures c == 0x40 * h + (x as int - 0x80) && c / 0x40 == h && 0x80 + c % 0x40 == x
  {
    c := 0x40 * h + (x as int - 0x80);
    DivMod(c, 0x40, h, x as int - 0x80);
  }

  lemma ThreeDecoded(b: Bytes) returns (c: Scalar)
    requires |b| == 3 && 0xE0 <= b[0] <= 0xEF && CharAt(b) == 3
    ensures Encode(c) == b
  {
    var h := Sextets(b[0] as int - 0xE0, b[1]);
    var n := Sextets(h, b[2]);
    c := n;
    assert Encode(c) == [b[0], b[1], b[2]];
  }

  lemma FourDecoded(b: Bytes) returns (c: Scalar)
    requires |b| == 4 && 0xF0 <= b[0] <= 0xF4 && CharAt(b) == 4
    ensures Encode(c) == b
  {
    var g := Sextets(b[0] as int - 0xF0, b[1]);
    var h := Sextets(g, b[2]);
    var n := Sextets(h, b[3]);
    c := n;
    assert Encode(c) == [b[0], b[1], b[2], b[3]];
  }

  /** The character that the octets at the front encode. */
  lemma CharDecoded(b: Bytes) returns (c: Scalar)
    requires CharAt(b) > 0
    ensures Encode(c) == b[..CharAt(b)]
  {
    var n := CharAt(b);
    var x := b[..n];
    assert x[0] == b[0] && CharAt(x) == n;
    if n == 1 {
      c := b[0] as int;
    } else if n == 2 {
      var k := Sextets(b[0] as int - 0xC0, b[1]);
      c := k;
    } else if n == 3 {
      hide Encode;
      c := ThreeDecoded(x);
    } else {
      hide Encode;
      c := FourDecoded(x);
    }
  }

  lemma {:induction false} EncodedIsUtf8(cs: seq<Scalar>)
    ensures Utf8(EncodeAll(cs))
  {
    hide Encode, CharAt;
    if cs != [] {
      var b := EncodeAll(cs);
      CharEncoded(cs[0], EncodeAll(cs[1..]));
      assert b[|Encode(cs[0])|..] == EncodeAll(cs[1..]);
      EncodedIsUtf8(cs[1..]);
    }
  }

  lemma {:induction false} Decoded(b: Bytes) returns (cs: seq<Scalar>)
    requires Utf8(b)
    ensures EncodeAll(cs) == b
    decreases |b|
  {
    hide Encode, CharAt;
    if b == [] {
      cs := [];
    } else {
      var c := CharDecoded(b);
      var rest := Decoded(b[CharAt(b)..]);
      cs := [c] + rest;
      assert cs[1..] == rest && b == b[..CharAt(b)] + b[CharAt(b)..];
    }
  }

  /** Some code points, encoded. */
  ghost predicate IsText(b: Bytes) {
    exists cs :: EncodeAll(cs) == b
  }

  /** Octets are UTF-8 exactly when they are some code points encoded. */
  lemma Utf8Iff(b: Bytes)
    ensures Utf8(b) <==> IsText(b)
  {
    hide Encode, CharAt, Utf8;
    if Utf8(b) {
      var cs := Decoded(b);
    }
    forall cs | EncodeAll(cs) == b ensures Utf8(b) {
      EncodedIsUtf8(cs);
    }
  }

  // ----- White space -----

  /** The code points with the White_Space property. */
  predicate White(c: Scalar) {
    || 9 <= c <= 13 || c == 32 || c == 0x85 || c == 0xA0 || c == 0x1680 || 0x2000 <= c <= 0x200A
    || c == 0x2028 || c == 0x2029 || c == 0x202F || c == 0x205F || c == 0x3000
  }

  ghost predicate WhiteOctets(b: Bytes) {
    exists c :: White(c) && Encode(c) == b
  }

  lemma WhiteEncoded(c: Scalar, a: Bytes, b: Bytes)
    requires White(c)
    ensures SpaceAtFront(Encode(c) + b) == |Encode(c)| && SpaceAtBack(a + Encode(c)) == |Encode(c)|
  {
    var e := Encode(c);
    var f, g := e + b, a + e;
    assert f[..|e|] == e && g[|a|..] == e;
    assert forall i :: 0 <= i < |e| ==> f[i] == e[i] && g[|a| + i] == e[i];
  }

  lemma WhiteDecoded(x: Bytes) returns (c: Scalar)
    requires SpaceAtFront(x) == |x| > 0 || SpaceAtBack(x) == |x| > 0
    ensures White(c) && Encode(c) == x
  {
    if |x| == 3 {
      c := WideDecoded(x);
    } else {
      c := if |x| == 1 then x[0] as int else 0x40 * (x[0] as int - 0xC0) + (x[1] as int - 0x80);
    }
  }

  lemma WideDecoded(x: Bytes) returns (c: Scalar)
    requires |x| == 3 && WideSpace(x[0], x[1], x[2])
    ensures White(c) && Encode(c) == x
  {
    var h := Sextets(x[0] as int - 0xE0, x[1]);
    var n := Sextets(h, x[2]);
    c := n;
    assert Encode(c) == [x[0], x[1], x[2]];
  }

  ghost predicate AllWhite(cs: seq<Scalar>) {
    forall i :: 0 <= i < |cs| ==> White(cs[i])
  }

  /** White space characters and nothing else. */
  ghost predicate WhiteText(b: Bytes) {
    exists cs :: AllWhite(cs) && EncodeAll(cs) == b
  }

  /** Neither the front nor the back is a white space character. */
  ghost predicate Trimmed(b: Bytes) {
    forall x: Bytes, y: Bytes :: b == x + y ==> !WhiteOctets(x) && !WhiteOctets(y)
  }

  lemma FrontIff(b: Bytes)
    ensures SpaceAtFront(b) > 0 <==> exists x: Bytes, y: Bytes :: b == x + y && WhiteOctets(x)
  {
    hide SpaceAtFront, SpaceAtBack, White, Encode;
    var k := SpaceAtFront(b);
    if k > 0 {
      FrontAlone(b);
      var c := WhiteDecoded(b[..k]);
      assert b == b[..k] + b[k..];
    }
    forall x: Bytes, y: Bytes | b == x + y && WhiteOctets(x) ensures k > 0 {
      var c :| White(c) && Encode(c) == x;
      WhiteEncoded(c, [], y);
    }
  }

  lemma FrontAlone(b: Bytes)
    requires SpaceAtFront(b) > 0
    ensures SpaceAtFront(b[..SpaceAtFront(b)]) == SpaceAtFront(b)
  {
  }

  lemma BackIff(b: Bytes)
    ensures SpaceAtBack(b) > 0 <==> exists x: Bytes, y: Bytes :: b == x + y && WhiteOctets(y)
  {
    hide SpaceAtFront, SpaceAtBack, White, Encode;
    var k := SpaceAtBack(b);
    if k > 0 {
      BackAlone(b);
      var c := WhiteDecoded(b[|b| - k..]);
      assert b == b[..|b| - k] + b[|b| - k..];
    }
    forall x: Bytes, y: Bytes | b == x + y && WhiteOctets(y) ensures k > 0 {
      var c :| White(c) && Encode(c) == y;
      WhiteEncoded(c, x, []);
    }
  }

  lemma BackAlone(b: Bytes)
    requires SpaceAtBack(b) > 0
    ensures SpaceAtBack(b[|b| - SpaceAtBack(b)..]) == SpaceAtBack(b)
  {
  }

  lemma TrimmedIff(b: Bytes)
    ensures Trimmed(b) <==> SpaceAtFront(b) == 0 && SpaceAtBack(b) == 0
  {
    hide SpaceAtFront, SpaceAtBack, WhiteOctets;
    FrontIff(b);
    BackIff(b);
  }

  // ----- trim -----

  lemma {:induction false} StartAway(cs: seq<Scalar>, y: Bytes)
    requires AllWhite(cs)
    ensures TrimStart(EncodeAll(cs) + y) == TrimStart(y)
  {
    hide White, Encode, SpaceAtFront;
    if cs == [] {
      assert EncodeAll(cs) + y == y;
    } else {
      var e, rest := Encode(cs[0]), EncodeAll(cs[1..]);
      WhiteEncoded(cs[0], [], rest + y);
      Assoc(e, rest, y);
      assert (e + (rest + y))[|e|..] == rest + y;
      StartAway(cs[1..], y);
    }
  }

  lemma {:induction false} EncodeSnoc(cs: seq<Scalar>, c: Scalar)
    ensures EncodeAll(cs + [c]) == EncodeAll(cs) + Encode(c)
  {
    hide Encode;
    var all := cs + [c];
    if cs == [] {
      assert all[1..] == [];
    } else {
      assert all[1..] == cs[1..] + [c];
      EncodeSnoc(cs[1..], c);
      Assoc(Encode(cs[0]), EncodeAll(cs[1..]), Encode(c));
    }
  }

  lemma {:induction false} EndAway(cs: seq<Scalar>, y: Bytes)
    requires AllWhite(cs)
    ensures TrimEnd(y + EncodeAll(cs)) == TrimEnd(y)
    decreases |cs|
  {
    hide White, Encode, SpaceAtBack;
    if cs == [] {
      assert y + EncodeAll(cs) == y;
    } else {
      var n := |cs| - 1;
      var rest, e := EncodeAll(cs[..n]), Encode(cs[n]);
      assert cs == cs[..n] + [cs[n]];
      EncodeSnoc(cs[..n], cs[n]);
      WhiteEncoded(cs[n], y + rest, []);
      Assoc(y, rest, e);
      var b := (y + rest) + e;
      assert b[..|b| - |e|] == y + rest;
      EndAway(cs[..n], y);
    }
  }

  lemma WhiteEnds(b: Bytes)
    requires WhiteText(b) && b != []
    ensures SpaceAtFront(b) > 0 && SpaceAtBack(b) > 0
  {
    hide White, Encode, SpaceAtFront, SpaceAtBack;
    var cs :| AllWhite(cs) && EncodeAll(cs) == b;
    var n := |cs| - 1;
    WhiteEncoded(cs[0], [], EncodeAll(cs[1..]));
    assert cs == cs[..n] + [cs[n]];
    EncodeSnoc(cs[..n], cs[n]);
    WhiteEncoded(cs[n], EncodeAll(cs[..n]), []);
  }

  /** A character does not run from the trimmed text into white space, nor the other way round. */
  lemma NoneAcross(a: Bytes, v: Bytes, b: Bytes)
    requires v != [] && SpaceAtFront(v) == 0 && SpaceAtBack(v) == 0
    requires (a == [] || SpaceAtBack(a) > 0) && (b == [] || SpaceAtFront(b) > 0)
    ensures SpaceAtFront(v + b) == 0 && SpaceAtBack(a + v) == 0
  {
  }

  /** `trim` takes the white space characters at both ends away, and nothing else. */
  lemma TrimIs(a: Bytes, v: Bytes, b: Bytes)
    requires WhiteText(a) && WhiteText(b) && Trimmed(v) && v != []
    ensures Trim(a + v + b) == v && TrimStart(a + v + b) == v + b && TrimEnd(a + v + b) == a + v
  {
    hide White, Encode, SpaceAtFront, SpaceAtBack, Trimmed, WhiteText;
    TrimmedIff(v);
    if a != [] {
      WhiteEnds(a);
    }
    if b != [] {
      WhiteEnds(b);
    }
    NoneAcross(a, v, b);
    Away(a, v, b);
  }

  lemma Away(a: Bytes, v: Bytes, b: Bytes)
    requires WhiteText(a) && WhiteText(b)
    requires SpaceAtFront(v + b) == 0 && SpaceAtBack(a + v) == 0 && SpaceAtBack(v) == 0
    ensures Trim(a + v + b) == v && TrimStart(a + v + b) == v + b && TrimEnd(a + v + b) == a + v
  {
    hide White, Encode, SpaceAtFront, SpaceAtBack;
    var xs :| AllWhite(xs) && EncodeAll(xs) == a;
    var ys :| AllWhite(ys) && EncodeAll(ys) == b;
    Assoc(a, v, b);
    StartAway(xs, v + b);
    EndAway(ys, v);
    EndAway(ys, a + v);
  }

  lemma StartNone(b: Bytes)
    requires SpaceAtFront(b) == 0
    ensures TrimStart(b) == b == EncodeAll([]) + b
  {
    hide SpaceAtFront;
  }

  lemma StartMore(b: Bytes, c: Scalar, cs: seq<Scalar>)
    requires SpaceAtFront(b) > 0 && White(c) && Encode(c) == b[..SpaceAtFront(b)] && AllWhite(cs)
    requires var rest := b[SpaceAtFront(b)..]; rest == EncodeAll(cs) + TrimStart(rest)
    ensures AllWhite([c] + cs)
    ensures b == EncodeAll([c] + cs) + TrimStart(b) && TrimStart(b) == TrimStart(b[SpaceAtFront(b)..])
  {
    hide SpaceAtFront, White, Encode;
    var n := SpaceAtFront(b);
    TrimmedOne(b);
    hide TrimStart, EncodeAll;
    OneMore(c, cs, TrimStart(b[n..]));
    assert b == b[..n] + b[n..];
  }

  lemma {:induction false} StartIsWhite(b: Bytes) returns (cs: seq<Scalar>)
    ensures AllWhite(cs) && b == EncodeAll(cs) + TrimStart(b) && SpaceAtFront(TrimStart(b)) == 0
    decreases |b|
  {
    hide White, Encode, SpaceAtFront, SpaceAtBack, TrimStart, EncodeAll;
    var n := SpaceAtFront(b);
    if n == 0 {
      cs := [];
      StartNone(b);
    } else {
      FrontAlone(b);
      var c := WhiteDecoded(b[..n]);
      var rest := StartIsWhite(b[n..]);
      cs := [c] + rest;
      StartMore(b, c, rest);
    }
  }

  lemma TrimmedOne(b: Bytes)
    ensures SpaceAtFront(b) > 0 ==> TrimStart(b) == TrimStart(b[SpaceAtFront(b)..])
  {
    hide SpaceAtFront;
  }

  lemma OneMore(c: Scalar, cs: seq<Scalar>, t: Bytes)
    ensures EncodeAll([c] + cs) + t == Encode(c) + (EncodeAll(cs) + t)
  {
    hide Encode;
    assert ([c] + cs)[1..] == cs;
    Assoc(Encode(c), EncodeAll(cs), t);
  }

  lemma {:induction false} EndIsWhite(b: Bytes) returns (cs: seq<Scalar>)
    ensures AllWhite(cs) && b == TrimEnd(b) + EncodeAll(cs) && SpaceAtBack(TrimEnd(b)) == 0
    decreases |b|
  {
    hide White, Encode, SpaceAtFront, SpaceAtBack;
    var n := SpaceAtBack(b);
    if n == 0 {
      cs := [];
      assert b + EncodeAll(cs) == b;
    } else {
      var k := |b| - n;
      BackAlone(b);
      var c := WhiteDecoded(b[k..]);
      var rest := EndIsWhite(b[..k]);
      cs := rest + [c];
          EncodeSnoc(rest, c);
      Assoc(TrimEnd(b[..k]), EncodeAll(rest), Encode(c));
      assert b == b[..k] + b[k..];
    }
  }

  lemma FrontOfPrefix(x: Bytes, b: Bytes)
    requires x <= b && SpaceAtFront(b) == 0
    ensures SpaceAtFront(x) == 0
  {
  }

  /** Every string is white space, its trimmed text and white space. */
  lemma TrimParts(raw: Bytes) returns (a: Bytes, b: Bytes)
    ensures raw == a + Trim(raw) + b && WhiteText(a) && WhiteText(b) && Trimmed(Trim(raw))
  {
    hide White, Encode, EncodeAll, SpaceAtFront, SpaceAtBack, TrimStart, TrimEnd, Trimmed;
    var xs := StartIsWhite(raw);
    var ys := EndIsWhite(TrimStart(raw));
    a, b := EncodeAll(xs), EncodeAll(ys);
    Assoc(a, Trim(raw), b);
    FrontOfPrefix(Trim(raw), TrimStart(raw));
    TrimmedIff(Trim(raw));
  }
}
