/** Searching, splitting, trimming and case folding of octet strings, as the Rust core library does them. */
module Text {
  import opened Octets

  const SPACE: Byte := 32
  const TAB: Byte := 9
  const CR: Byte := 13
  const LF: Byte := 10

  // ----- Searching and splitting -----

  /** Position of the first `c` in `b`, or the length. */
  function Find(b: Bytes, c: Byte): (i: nat)
    ensures i <= |b| && (forall k :: 0 <= k < i ==> b[k] != c) && (i < |b| ==> b[i] == c)
  {
    if b == [] || b[0] == c then 0 else 1 + Find(b[1..], c)
  }

  lemma FindFirst(b: Bytes, c: Byte, i: nat)
    requires i < |b| && b[i] == c && forall k :: 0 <= k < i ==> b[k] != c
    ensures Find(b, c) == i
  {
    var f := Find(b, c);
    assert f >= |b| || b[f] == c;
  }

  /** The pieces of `b` between the octets `c`: `split`. */
  function Split(b: Bytes, c: Byte): (r: seq<Bytes>)
    ensures r != []
    decreases |b|
  {
    var i := Find(b, c);
    if i == |b| then [b] else [b[..i]] + Split(b[i + 1..], c)
  }

  function Join(pieces: seq<Bytes>, c: Byte): Bytes {
    if pieces == [] then []
    else if |pieces| == 1 then pieces[0]
    else pieces[0] + ([c] + Join(pieces[1..], c))
  }

  ghost predicate Without(pieces: seq<Bytes>, c: Byte) {
    forall i :: 0 <= i < |pieces| ==> c !in pieces[i]
  }

  lemma {:induction false} JoinOfSplit(b: Bytes, c: Byte)
    ensures Join(Split(b, c), c) == b && Without(Split(b, c), c)
    decreases |b|
  {
    hide Find, Split, Without;
    var i := Find(b, c);
    SplitStep(b, c);
    if i < |b| {
      var rest := Split(b[i + 1..], c);
      JoinOfSplit(b[i + 1..], c);
      JoinCons(b[..i], rest, c);
      AtFirst(b, c);
    } else {
      JoinOne(b, c);
    }
  }

  lemma SplitStep(b: Bytes, c: Byte)
    ensures var i := Find(b, c);
            if i == |b| then Split(b, c) == [b] && c !in b else Split(b, c) == [b[..i]] + Split(b[i + 1..], c)
  {
    var i := Find(b, c);
    hide Find;
    if i == |b| {
      assert Split(b, c) == [b] && c !in b;
    }
  }

  lemma JoinOne(b: Bytes, c: Byte)
    ensures Join([b], c) == b && (Without([b], c) <==> c !in b)
  {
    assert [b][0] == b;
  }

  lemma AtFirst(b: Bytes, c: Byte)
    requires Find(b, c) < |b|
    ensures var i := Find(b, c); c !in b[..i] && b == b[..i] + ([c] + b[i + 1..])
  {
    var i := Find(b, c);
    var p := b[..i];
    assert forall k :: 0 <= k < |p| ==> p[k] == b[k] != c;
    hide Find;
    AtIndex(b, i);
  }

  lemma AtIndex(b: Bytes, i: nat)
    requires i < |b|
    ensures b == b[..i] + ([b[i]] + b[i + 1..])
  {
  }

  lemma JoinCons(p: Bytes, rest: seq<Bytes>, c: Byte)
    requires rest != []
    ensures Join([p] + rest, c) == p + ([c] + Join(rest, c))
    ensures Without([p] + rest, c) <==> c !in p && Without(rest, c)
  {
    var all := [p] + rest;
    assert all[1..] == rest;
    assert all[0] == p && forall i :: 0 <= i < |rest| ==> rest[i] == all[i + 1];
  }

  lemma {:induction false} SplitOfJoin(pieces: seq<Bytes>, c: Byte)
    requires pieces != [] && Without(pieces, c)
    ensures Split(Join(pieces, c), c) == pieces
    decreases |pieces|
  {
    hide Find, Split;
    var p := pieces[0];
    assert c !in p;
    if |pieces| == 1 {
      SplitWhole(p, c);
      assert pieces == [p];
    } else {
      SplitOfJoin(pieces[1..], c);
      SplitFirst(p, Join(pieces[1..], c), c);
      assert pieces == [p] + pieces[1..];
    }
  }

  lemma SplitWhole(b: Bytes, c: Byte)
    requires c !in b
    ensures Split(b, c) == [b]
  {
  }

  lemma SplitFirst(p: Bytes, rest: Bytes, c: Byte)
    requires c !in p
    ensures Split(p + ([c] + rest), c) == [p] + Split(rest, c)
  {
    var b := p + ([c] + rest);
    FindFirst(b, c, |p|);
    assert b[..|p|] == p && b[|p| + 1..] == rest;
  }

  // ----- Case -----

  function LowerOctet(c: Byte): Byte {
    if 65 <= c <= 90 then c + 32 else c
  }

  /** `to_ascii_lowercase`. */
  function Lower(b: Bytes): (r: Bytes)
    ensures |r| == |b| && forall i :: 0 <= i < |b| ==> r[i] == LowerOctet(b[i])
  {
    seq(|b|, i requires 0 <= i < |b| => LowerOctet(b[i]))
  }

  /** The twenty-six letters and nothing else. */
  lemma LowerLetters(k: nat, c: Byte)
    requires k < 26
    ensures LowerOctet(65 + k) == 97 + k
    ensures LowerOctet(c) == c <==> c < 65 || 90 < c
  {
  }

  predicate EqualIgnoreCase(a: Bytes, b: Bytes) {
    Lower(a) == Lower(b)
  }

  // ----- Trimming -----

  predicate Blank(c: Byte) {
    c == SPACE || c == TAB
  }

  /** How many octets at the front satisfy `p`. */
  function Lead(b: Bytes, p: Byte -> bool): (n: nat)
    ensures n <= |b| && (forall i :: 0 <= i < n ==> p(b[i])) && (n < |b| ==> !p(b[n]))
  {
    if b == [] || !p(b[0]) then 0 else 1 + Lead(b[1..], p)
  }

  lemma {:induction false} LeadIs(b: Bytes, p: Byte -> bool, n: nat)
    requires n <= |b| && (forall i :: 0 <= i < n ==> p(b[i])) && (n < |b| ==> !p(b[n]))
    ensures Lead(b, p) == n
    decreases n
  {
    if n > 0 {
      LeadIs(b[1..], p, n - 1);
    }
  }

  /** How many octets at the end satisfy `p`. */
  function Trail(b: Bytes, p: Byte -> bool): (n: nat)
    ensures n <= |b| && (forall i :: |b| - n <= i < |b| ==> p(b[i])) && (n < |b| ==> !p(b[|b| - 1 - n]))
  {
    if b == [] || !p(b[|b| - 1]) then 0 else 1 + Trail(b[..|b| - 1], p)
  }

  lemma {:induction false} TrailIs(b: Bytes, p: Byte -> bool, n: nat)
    requires n <= |b| && (forall i :: |b| - n <= i < |b| ==> p(b[i])) && (n < |b| ==> !p(b[|b| - 1 - n]))
    ensures Trail(b, p) == n
    decreases n
  {
    if n > 0 {
      TrailIs(b[..|b| - 1], p, n - 1);
    }
  }

  predicate AsciiSpace(c: Byte) {
    9 <= c <= 13 || c == 32
  }

  predicate WideSpace(x: Byte, y: Byte, z: Byte) {
    || (x == 0xE1 && y == 0x9A && z == 0x80)
    || (x == 0xE2 && y == 0x80 && (0x80 <= z <= 0x8A || z == 0xA8 || z == 0xA9 || z == 0xAF))
    || (x == 0xE2 && y == 0x81 && z == 0x9F)
    || (x == 0xE3 && y == 0x80 && z == 0x80)
  }

  /** Octets of the Unicode white space character at the front, 0 if there is none. */
  function SpaceAtFront(b: Bytes): (n: nat)
    ensures n <= |b|
  {
    if |b| >= 1 && AsciiSpace(b[0]) then 1
    else if |b| >= 2 && b[0] == 0xC2 && (b[1] == 0x85 || b[1] == 0xA0) then 2
    else if |b| >= 3 && WideSpace(b[0], b[1], b[2]) then 3
    else 0
  }

  function SpaceAtBack(b: Bytes): (n: nat)
    ensures n <= |b|
  {
    if |b| >= 1 && AsciiSpace(b[|b| - 1]) then 1
    else if |b| >= 2 && b[|b| - 2] == 0xC2 && (b[|b| - 1] == 0x85 || b[|b| - 1] == 0xA0) then 2
    else if |b| >= 3 && WideSpace(b[|b| - 3], b[|b| - 2], b[|b| - 1]) then 3
    else 0
  }

  /** `trim_start`. */
  function TrimStart(b: Bytes): (r: Bytes)
    ensures |r| <= |b|
    decreases |b|
  {
    var n := SpaceAtFront(b);
    if n == 0 then b else TrimStart(b[n..])
  }

  /** `trim_end`. */
  function TrimEnd(b: Bytes): (r: Bytes)
    ensures |r| <= |b| && r == b[..|r|]
    decreases |b|
  {
    var n := SpaceAtBack(b);
    if n == 0 then b else TrimEnd(b[..|b| - n])
  }

  function Trim(b: Bytes): Bytes {
    TrimEnd(TrimStart(b))
  }

  /** The white space `trim_start` removes, and that `trim_end` removes. */
  function StartSpace(b: Bytes): Bytes {
    b[..|b| - |TrimStart(b)|]
  }

  function EndSpace(b: Bytes): Bytes {
    b[|TrimEnd(b)|..]
  }

  // ----- UTF-8 -----

  predicate Tail(c: Byte) {
    0x80 <= c <= 0xBF
  }

  /** Octets of the UTF-8 character at the front, section 4 of RFC 3629; 0 if there is none. */
  function CharAt(b: Bytes): (n: nat)
    ensures n <= |b|
  {
    if b == [] then 0
    else if b[0] < 0x80 then 1
    else if 0xC2 <= b[0] <= 0xDF then if |b| >= 2 && Tail(b[1]) then 2 else 0
    else if 0xE0 <= b[0] <= 0xEF then
      if |b| >= 3 && Tail(b[1]) && Tail(b[2]) && (b[0] == 0xE0 ==> b[1] >= 0xA0) && (b[0] == 0xED ==> b[1] <= 0x9F)
      then 3 else 0
    else if 0xF0 <= b[0] <= 0xF4 then
      if |b| >= 4 && Tail(b[1]) && Tail(b[2]) && Tail(b[3]) && (b[0] == 0xF0 ==> b[1] >= 0x90)
         && (b[0] == 0xF4 ==> b[1] <= 0x8F)
      then 4 else 0
    else 0
  }

  /** `from_utf8` succeeds. */
  predicate Utf8(b: Bytes)
    decreases |b|
  {
    b == [] || (CharAt(b) > 0 && Utf8(b[CharAt(b)..]))
  }
}
