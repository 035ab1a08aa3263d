/** Lines, heads and bodies of HTTP/1.1 as functions of the octets to come (src/h1.rs). */
module Http1Stream {
  import opened Octets
  import opened Text
  import opened Numerals

  const MAX_HEAD: nat := 64 * 1024
  const MAX_CHUNK_LINE: nat := 8192
  const CRLF: Bytes := [13, 10]

  predicate EndsCrlf(l: Bytes) {
    |l| >= 2 && l[|l| - 2] == CR && l[|l| - 1] == LF
  }

  // ----- Lines and heads -----

  datatype Taken = Closed | Broken | Took(octets: Bytes, rest: Bytes)

  /** One line with its CRLF; nothing at the end of the stream. */
  function LineOf(b: Bytes, limit: nat): (r: Taken)
    ensures r.Took? ==> b == r.octets + r.rest && 2 <= |r.octets| <= limit && EndsCrlf(r.octets)
    ensures r.Took? ==> Find(r.octets, LF) == |r.octets| - 1
  {
    if b == [] then Closed
    else
      var n := Find(b, LF) + 1;
      if n > |b| || n > limit || !EndsCrlf(b[..n]) then Broken
      else
        FindFirst(b[..n], LF, n - 1);
        Took(b[..n], b[n..])
  }

  /** Lines up to and with the empty one. */
  function HeadFrom(out: Bytes, b: Bytes): Taken
    requires |out| <= MAX_HEAD
    decreases |b|
  {
    match LineOf(b, MAX_HEAD - |out|)
    case Closed => if out == [] then Closed else Broken
    case Broken => Broken
    case Took(l, rest) => if l == CRLF then Took(out + l, rest) else HeadFrom(out + l, rest)
  }

  // ----- Bodies -----

  datatype Body = Empty | Length(n: nat) | Chunked | UntilEof

  predicate IsHex(c: Byte) {
    48 <= c <= 57 || 65 <= c <= 70 || 97 <= c <= 102
  }

  function HexDigit(c: Byte): nat
    requires IsHex(c)
  {
    if c <= 57 then c - 48 else if c <= 70 then c - 55 else c - 87
  }

  function HexValue(s: Bytes): nat
    requires forall c :: c in s ==> IsHex(c)
  {
    if s == [] then 0 else 16 * HexValue(s[..|s| - 1]) + HexDigit(s[|s| - 1])
  }

  const WORD: nat := 0x1_0000_0000_0000_0000

  /** The part of a chunk line before `;` or CR. */
  function SizeText(l: Bytes): Bytes {
    var i, j := Find(l, 59), Find(l, CR);
    l[..if i < j then i else j]
  }

  /** The size a chunk line announces. */
  function ChunkSize(l: Bytes): Option<nat> {
    var s := SizeText(l);
    if s == [] || exists c :: c in s && !IsHex(c) then None
    else if HexValue(s) >= WORD then None
    else Some(HexValue(s))
  }

  function Add(n: nat, r: Option<nat>): Option<nat> {
    match r
    case None => None
    case Some(k) => Some(n + k)
  }

  /** Octets of the trailer section with its final CRLF, `total` of its octets taken before. */
  function TrailerEnd(b: Bytes, total: nat): (r: Option<nat>)
    requires total <= MAX_HEAD
    ensures r.Some? ==> r.value <= |b|
    decreases |b|
  {
    match LineOf(b, MAX_HEAD - total)
    case Took(l, rest) =>
      if l == CRLF then Some(|l|) else Add(|l|, TrailerEnd(rest, total + |l|))
    case _ => None
  }

  /** Octets of one chunked body at the front of `b`. */
  function ChunkedEnd(b: Bytes): (r: Option<nat>)
    ensures r.Some? ==> r.value <= |b|
    decreases |b|
  {
    match LineOf(b, MAX_CHUNK_LINE)
    case Took(l, rest) =>
      if ChunkSize(l).None? then None
      else
        var n := ChunkSize(l).value;
        if n == 0 then Add(|l|, TrailerEnd(rest, 0))
        else if |rest| < n + 2 || rest[n..n + 2] != CRLF then None
        else Add(|l| + n + 2, ChunkedEnd(rest[n + 2..]))
    case _ => None
  }

  /** Octets of a body of the given framing at the front of `b`, or None where forwarding it fails. */
  function BodyEnd(kind: Body, b: Bytes): (r: Option<nat>)
    ensures r.Some? ==> r.value <= |b|
  {
    match kind
    case Empty => Some(0)
    case Length(n) => if n <= |b| then Some(n) else None
    case UntilEof => Some(|b|)
    case Chunked => ChunkedEnd(b)
  }

  // ----- Delimiting depends only on the octets taken -----

  lemma LineStable(b: Bytes, limit: nat, y: Bytes)
    requires LineOf(b, limit).Took?
    ensures LineOf(LineOf(b, limit).octets + y, limit) == Took(LineOf(b, limit).octets, y)
  {
    var l := LineOf(b, limit).octets;
    var c := l + y;
    var n := |l|;
    FindFirst(c, LF, n - 1);
    assert c[..n] == l && c[n..] == y;
  }

  /** `l` is a line as `LineOf` takes it. */
  ghost predicate IsLine(l: Bytes, limit: nat) {
    LineOf(l, limit) == Took(l, [])
  }

  lemma TakenIsLine(b: Bytes, limit: nat)
    requires LineOf(b, limit).Took?
    ensures IsLine(LineOf(b, limit).octets, limit)
  {
    LineStable(b, limit, []);
    assert LineOf(b, limit).octets + [] == LineOf(b, limit).octets;
  }

  lemma LineThen(l: Bytes, limit: nat, x: Bytes)
    requires IsLine(l, limit)
    ensures LineOf(l + x, limit) == Took(l, x)
  {
    LineStable(l, limit, x);
  }

  lemma TrailerThen(l: Bytes, total: nat, x: Bytes)
    requires total <= MAX_HEAD && IsLine(l, MAX_HEAD - total)
    ensures TrailerEnd(l + x, total) == if l == CRLF then Some(|l|) else Add(|l|, TrailerEnd(x, total + |l|))
  {
    hide LineOf, IsLine;
    LineThen(l, MAX_HEAD - total, x);
  }

  lemma ChunkThen(l: Bytes, x: Bytes)
    requires IsLine(l, MAX_CHUNK_LINE) && ChunkSize(l).Some?
    ensures var n := ChunkSize(l).value;
            ChunkedEnd(l + x)
            == if n == 0 then Add(|l|, TrailerEnd(x, 0))
               else if |x| < n + 2 || x[n..n + 2] != CRLF then None
               else Add(|l| + n + 2, ChunkedEnd(x[n + 2..]))
  {
    hide LineOf, IsLine, ChunkSize, TrailerEnd, Add, Find, EndsCrlf;
    LineThen(l, MAX_CHUNK_LINE, x);
  }

  lemma {:induction false} TrailerStable(b: Bytes, total: nat, y: Bytes)
    requires total <= MAX_HEAD && TrailerEnd(b, total).Some?
    ensures TrailerEnd(b[..TrailerEnd(b, total).value] + y, total) == TrailerEnd(b, total)
    decreases |b|
  {
    hide LineOf, IsLine;
    var t := LineOf(b, MAX_HEAD - total);
    var l, rest := t.octets, t.rest;
    TakenIsLine(b, MAX_HEAD - total);
    var j := if l == CRLF then 0 else TrailerEnd(rest, total + |l|).value;
    if l != CRLF {
      TrailerStable(rest, total + |l|, y);
    }
    hide TrailerEnd;
    TrailerThen(l, total, rest);
    Pieces(l, rest, j, y);
    TrailerThen(l, total, rest[..j] + y);
  }

  lemma {:induction false} ChunkedStable(b: Bytes, y: Bytes)
    requires ChunkedEnd(b).Some?
    ensures ChunkedEnd(b[..ChunkedEnd(b).value] + y) == ChunkedEnd(b)
    decreases |b|
  {
    hide LineOf, IsLine, ChunkSize;
    var t := LineOf(b, MAX_CHUNK_LINE);
    var l, rest := t.octets, t.rest;
    TakenIsLine(b, MAX_CHUNK_LINE);
    assert ChunkSize(l).Some?;
    hide ChunkedEnd, TrailerEnd;
    ChunkThen(l, rest);
    var n := ChunkSize(l).value;
    if n == 0 {
      LastChunkStable(l, rest, y);
    } else {
      ChunkedStable(rest[n + 2..], y);
      ChunkStable(l, rest, n, y);
    }
  }

  lemma LastChunkStable(l: Bytes, rest: Bytes, y: Bytes)
    requires IsLine(l, MAX_CHUNK_LINE) && ChunkSize(l) == Some(0) && TrailerEnd(rest, 0).Some?
    ensures ChunkedEnd(l + rest).Some?
    ensures ChunkedEnd((l + rest)[..ChunkedEnd(l + rest).value] + y) == ChunkedEnd(l + rest)
  {
    hide IsLine, ChunkSize, TrailerEnd, ChunkedEnd;
    ChunkThen(l, rest);
    var j := TrailerEnd(rest, 0).value;
    TrailerStable(rest, 0, y);
    Pieces(l, rest, j, y);
    ChunkThen(l, rest[..j] + y);
  }

  lemma ChunkStable(l: Bytes, rest: Bytes, n: nat, y: Bytes)
    requires IsLine(l, MAX_CHUNK_LINE) && ChunkSize(l) == Some(n) && n > 0
    requires n + 2 <= |rest| && rest[n..n + 2] == CRLF
    requires var tail := rest[n + 2..];
             ChunkedEnd(tail).Some? && ChunkedEnd(tail[..ChunkedEnd(tail).value] + y) == ChunkedEnd(tail)
    ensures ChunkedEnd(l + rest).Some?
    ensures ChunkedEnd((l + rest)[..ChunkedEnd(l + rest).value] + y) == ChunkedEnd(l + rest)
  {
    hide IsLine, ChunkSize, ChunkedEnd;
    ChunkThen(l, rest);
    var tail := rest[n + 2..];
    var j := ChunkedEnd(tail).value;
    assert rest == rest[..n + 2] + tail;
    Pieces(l, rest, n + 2 + j, y);
    Pieces(rest[..n + 2], tail, j, y);
    DataThen(l, rest, n, tail[..j] + y);
  }

  lemma Pieces(l: Bytes, rest: Bytes, j: nat, y: Bytes)
    requires j <= |rest|
    ensures (l + rest)[..|l| + j] + y == l + (rest[..j] + y)
  {
  }

  /** A chunk with its data and CRLF taken, whatever follows. */
  lemma DataThen(l: Bytes, rest: Bytes, n: nat, x: Bytes)
    requires IsLine(l, MAX_CHUNK_LINE) && ChunkSize(l) == Some(n) && n > 0
    requires n + 2 <= |rest| && rest[n..n + 2] == CRLF
    ensures ChunkedEnd(l + (rest[..n + 2] + x)) == Add(|l| + n + 2, ChunkedEnd(x))
  {
    hide IsLine, ChunkSize, ChunkedEnd, LineOf;
    var c := rest[..n + 2] + x;
    assert c[n..n + 2] == rest[n..n + 2] && c[n + 2..] == x;
    ChunkThen(l, c);
  }

  /** After a body is taken, the same octets are taken whatever follows them. */
  lemma SelfDelimiting(kind: Body, b: Bytes, y: Bytes)
    requires kind != UntilEof && BodyEnd(kind, b).Some?
    ensures BodyEnd(kind, b[..BodyEnd(kind, b).value] + y) == BodyEnd(kind, b)
  {
    if kind == Chunked {
      ChunkedStable(b, y);
    }
  }

  // ----- The chunked coding, section 7.1 of RFC 9112 -----

  /** A chunk line and its data. */
  datatype Chunk = Chunk(line: Bytes, data: Bytes)

  datatype ChunkedBody = ChunkedBody(chunks: seq<Chunk>, last: Bytes, trailer: seq<Bytes>)

  /** Octets that end in CR LF and have no LF before. */
  ghost predicate CrlfLine(l: Bytes) {
    |l| >= 2 && l[|l| - 2] == 13 && l[|l| - 1] == 10 && forall i :: 0 <= i < |l| - 1 ==> l[i] != 10
  }

  /** A hexadecimal numeral of `n`, up to `;` or CR. */
  ghost predicate SizeAt(l: Bytes, n: nat) {
    exists text: Bytes, rest: Bytes ::
      && l == text + rest && rest != [] && (rest[0] == 59 || rest[0] == 13)
      && 59 !in text && 13 !in text && Writes(text, n, 16)
  }

  /**
   Digits, then nothing or an extension. The code takes any octets but LF after `;`, and after a bare
   CR, where the grammar is narrower.
   */
  ghost predicate SizeLine(l: Bytes, n: nat) {
    CrlfLine(l) && |l| <= 8192 && n < 0x1_0000_0000_0000_0000 && SizeAt(l, n)
  }

  ghost predicate TrailerLine(l: Bytes) {
    CrlfLine(l) && 2 < |l|
  }

  lemma CrlfLineIff(l: Bytes)
    ensures CrlfLine(l) <==> 2 <= |l| && EndsCrlf(l) && Find(l, LF) == |l| - 1
  {
    if CrlfLine(l) {
      FindFirst(l, LF, |l| - 1);
    }
  }

  // ----- Sizes -----

  lemma HexDigitIs(c: Byte)
    requires IsHex(c)
    ensures HexDigit(c) < 16 && LowerOctet(c) == Digit(HexDigit(c))
  {
  }

  lemma {:induction false} HexWrites(s: Bytes)
    requires s != [] && forall c :: c in s ==> IsHex(c)
    ensures Writes(s, HexValue(s), 16)
    decreases |s|
  {
    hide Writes, HexDigit, IsHex, Digit;
    var n := |s| - 1;
    HexDigitIs(s[n]);
    assert s == s[..n] + [s[n]];
    if n == 0 {
      assert s[..n] == [] && HexValue([]) == 0;
      WritesOne(s[n], HexDigit(s[n]), 16);
    } else {
      HexWrites(s[..n]);
      WritesMore(s[..n], HexValue(s[..n]), s[n], HexDigit(s[n]), 16);
    }
  }

  lemma DigitsAreHex(s: Bytes, n: nat)
    requires Writes(s, n, 16)
    ensures s != [] && forall c :: c in s ==> IsHex(c)
  {
    WritesSomething(s, n, 16);
    forall c | c in s ensures IsHex(c) {
      var i :| 0 <= i < |s| && s[i] == c;
      assert IsDigit(LowerOctet(s[i]), 16);
    }
  }

  lemma TextBefore(l: Bytes)
    requires EndsCrlf(l)
    ensures var s := SizeText(l);
            && |s| < |l| && l == s + l[|s|..] && (l[|s|] == 59 || l[|s|] == 13)
            && 59 !in s && 13 !in s
  {
    var i, j := Find(l, 59), Find(l, CR);
    hide Find;
    assert l[|l| - 2] == CR;
    assert forall k :: 0 <= k < |SizeText(l)| ==> SizeText(l)[k] == l[k];
  }

  lemma TextIs(l: Bytes, text: Bytes, rest: Bytes)
    requires l == text + rest && rest != [] && (rest[0] == 59 || rest[0] == 13) && 59 !in text && 13 !in text
    requires EndsCrlf(l)
    ensures SizeText(l) == text
  {
    TextBefore(l);
    var s := SizeText(l);
    assert l[|text|] == rest[0];
    assert forall k :: 0 <= k < |text| ==> l[k] == text[k];
    assert forall k :: 0 <= k < |s| ==> l[k] == s[k];
    hide SizeText;
    assert |text| == |s|;
    assert s == l[..|s|] && text == l[..|text|];
  }

  /** The size a line announces is the one written in hexadecimal before `;` or CR, within 64 bits. */
  lemma ChunkSizeIff(l: Bytes, n: nat)
    requires EndsCrlf(l)
    ensures ChunkSize(l) == Some(n) <==> n < 0x1_0000_0000_0000_0000 && SizeAt(l, n)
  {
    hide Writes, HexValue, SizeText, IsHex;
    TextBefore(l);
    var s := SizeText(l);
    if ChunkSize(l) == Some(n) {
      HexWrites(s);
    }
    if SizeAt(l, n) {
      var text: Bytes, rest: Bytes :|
        && l == text + rest && rest != [] && (rest[0] == 59 || rest[0] == 13)
        && 59 !in text && 13 !in text && Writes(text, n, 16);
      TextIs(l, text, rest);
      DigitsAreHex(s, n);
      HexWrites(s);
      WritesUnique(s, n, HexValue(s), 16);
    }
  }

  lemma SizeLineIff(l: Bytes, n: nat)
    ensures SizeLine(l, n) <==>
              2 <= |l| <= MAX_CHUNK_LINE && EndsCrlf(l) && Find(l, LF) == |l| - 1 && ChunkSize(l) == Some(n)
  {
    hide CrlfLine, ChunkSize, SizeAt, Find, EndsCrlf;
    CrlfLineIff(l);
    if EndsCrlf(l) {
      ChunkSizeIff(l, n);
    }
  }

  function Flat(lines: seq<Bytes>): Bytes {
    if lines == [] then [] else lines[0] + Flat(lines[1..])
  }

  /** chunked-body = *chunk last-chunk trailer-section CRLF */
  ghost predicate WellFormed(c: ChunkedBody) {
    && (forall i :: 0 <= i < |c.chunks| ==> c.chunks[i].data != [] && SizeLine(c.chunks[i].line, |c.chunks[i].data|))
    && SizeLine(c.last, 0)
    && (forall i :: 0 <= i < |c.trailer| ==> TrailerLine(c.trailer[i]))
    && |Flat(c.trailer)| + 2 <= 65536
  }

  function Render(c: ChunkedBody): Bytes
    decreases |c.chunks|
  {
    if c.chunks == [] then c.last + (Flat(c.trailer) + CRLF)
    else c.chunks[0].line + (c.chunks[0].data + (CRLF + Render(c.(chunks := c.chunks[1..]))))
  }

  lemma Front(l: Bytes, rest: Bytes, j: nat)
    requires j <= |rest|
    ensures (l + rest)[..|l| + j] == l + rest[..j]
  {
  }

  lemma {:induction false} TakenTrailer(b: Bytes, total: nat) returns (trailer: seq<Bytes>)
    requires total <= MAX_HEAD && TrailerEnd(b, total).Some?
    ensures b[..TrailerEnd(b, total).value] == Flat(trailer) + CRLF
    ensures total + |Flat(trailer)| + 2 <= MAX_HEAD
    ensures forall i :: 0 <= i < |trailer| ==> TrailerLine(trailer[i])
    decreases |b|
  {
    hide LineOf, Flat, TrailerLine, Find, EndsCrlf;
    var t := LineOf(b, MAX_HEAD - total);
    var l, rest := t.octets, t.rest;
    var k := if l == CRLF then 0 else TrailerEnd(rest, total + |l|).value;
    assert TrailerEnd(b, total) == Some(|l| + k) && b == l + rest;
    Front(l, rest, k);
    if l == CRLF {
      trailer := [];
      LastLine();
    } else {
      var others := TakenTrailer(rest, total + |l|);
      trailer := [l] + others;
      hide TrailerEnd;
      TrailerCons(l, others);
    }
  }

  lemma LastLine()
    ensures Flat([]) == [] && CRLF + [] == CRLF
  {
  }

  lemma TrailerCons(l: Bytes, others: seq<Bytes>)
    requires |l| >= 2 && EndsCrlf(l) && Find(l, LF) == |l| - 1 && l != CRLF
    ensures TrailerLine(l) && |Flat([l] + others)| == |l| + |Flat(others)|
    ensures Flat([l] + others) + CRLF == l + (Flat(others) + CRLF)
  {
    ShortLine(l);
    assert ([l] + others)[1..] == others;
    Assoc(l, Flat(others), CRLF);
  }

  lemma ShortLine(l: Bytes)
    requires EndsCrlf(l)
    ensures |l| == 2 ==> l == CRLF
  {
  }

  /** What is taken as a chunked body is one complete chunked body. */
  lemma {:induction false} TakenIsChunked(b: Bytes) returns (c: ChunkedBody)
    requires ChunkedEnd(b).Some?
    ensures WellFormed(c) && Render(c) == b[..ChunkedEnd(b).value]
    decreases |b|
  {
    hide ChunkSize, TrailerEnd, LineOf, WellFormed, Render, SizeLine, EndsCrlf, Find;
    var t := LineOf(b, MAX_CHUNK_LINE);
    var l, rest := t.octets, t.rest;
    var n := ChunkSize(l).value;
    assert b == l + rest;
    SizeLineIff(l, n);
    if n == 0 {
      assert ChunkedEnd(b) == Add(|l|, TrailerEnd(rest, 0));
      hide ChunkedEnd;
      var trailer := TakenTrailer(rest, 0);
      c := ChunkedBody([], l, trailer);
      LastChunk(c);
      Front(l, rest, TrailerEnd(rest, 0).value);
    } else {
      var tail := rest[n + 2..];
      assert rest[n..n + 2] == CRLF && ChunkedEnd(b) == Add(|l| + n + 2, ChunkedEnd(tail));
      var others := TakenIsChunked(tail);
      c := others.(chunks := [Chunk(l, rest[..n])] + others.chunks);
      hide ChunkedEnd;
      MoreChunks(c, others);
      TakeData(l, rest, n, ChunkedEnd(tail).value);
    }
  }

  lemma TakeData(l: Bytes, rest: Bytes, n: nat, k: nat)
    requires n + 2 + k <= |rest| && rest[n..n + 2] == CRLF
    ensures (l + rest)[..|l| + n + 2 + k] == l + (rest[..n] + (CRLF + rest[n + 2..][..k]))
  {
    var tail := rest[n + 2..];
    assert rest == (rest[..n] + CRLF) + tail;
    Front(l, rest, n + 2 + k);
    Front(rest[..n] + CRLF, tail, k);
    Assoc(rest[..n], CRLF, tail[..k]);
  }

  lemma LastChunk(c: ChunkedBody)
    requires c.chunks == [] && SizeLine(c.last, 0) && |Flat(c.trailer)| + 2 <= MAX_HEAD
    requires forall i :: 0 <= i < |c.trailer| ==> TrailerLine(c.trailer[i])
    ensures WellFormed(c) && Render(c) == c.last + (Flat(c.trailer) + CRLF)
  {
    hide SizeLine, TrailerLine;
  }

  lemma MoreChunks(c: ChunkedBody, others: ChunkedBody)
    requires c.chunks != [] && others == c.(chunks := c.chunks[1..]) && WellFormed(others)
    requires c.chunks[0].data != [] && SizeLine(c.chunks[0].line, |c.chunks[0].data|)
    ensures WellFormed(c) && Render(c) == c.chunks[0].line + (c.chunks[0].data + (CRLF + Render(others)))
  {
    hide SizeLine, TrailerLine;
    forall i | 0 <= i < |c.chunks| ensures c.chunks[i].data != [] && SizeLine(c.chunks[i].line, |c.chunks[i].data|) {
      if i > 0 {
        assert c.chunks[i] == others.chunks[i - 1];
      }
    }
  }

  /** A complete chunked body within the limits is taken whole, whatever follows it. */
  lemma {:induction false} TrailerTakes(trailer: seq<Bytes>, total: nat, y: Bytes)
    requires forall i :: 0 <= i < |trailer| ==> TrailerLine(trailer[i])
    requires total + |Flat(trailer)| + 2 <= MAX_HEAD
    ensures TrailerEnd(Flat(trailer) + CRLF + y, total) == Some(|Flat(trailer)| + 2)
    decreases |trailer|
  {
    hide TrailerEnd, IsLine;
    if trailer == [] {
      IsLineOf(CRLF, MAX_HEAD - total);
      TrailerThen(CRLF, total, y);
      assert Flat(trailer) + CRLF == CRLF;
    } else {
      var l := trailer[0];
      assert TrailerLine(l);
      IsLineOf(l, MAX_HEAD - total);
      var x := Flat(trailer[1..]) + CRLF + y;
      TrailerTakes(trailer[1..], total + |l|, y);
      TrailerThen(l, total, x);
      Assoc(l, Flat(trailer[1..]), CRLF);
      Assoc(l, Flat(trailer[1..]) + CRLF, y);
    }
  }

  lemma IsLineOf(l: Bytes, limit: nat)
    requires 2 <= |l| <= limit && EndsCrlf(l) && Find(l, LF) == |l| - 1
    ensures IsLine(l, limit)
  {
    assert l[..|l|] == l;
  }

  lemma {:induction false} ChunkedTakes(c: ChunkedBody, y: Bytes)
    requires WellFormed(c)
    ensures ChunkedEnd(Render(c) + y) == Some(|Render(c)|)
    decreases |c.chunks|
  {
    hide ChunkedEnd, SizeLine, TrailerLine, Render;
    if c.chunks == [] {
      LastTakes(c, y);
    } else {
      var others := c.(chunks := c.chunks[1..]);
      assert WellFormed(others);
      ChunkedTakes(others, y);
      hide WellFormed;
      ChunkTakes(c, others, y);
    }
  }

  lemma LastTakes(c: ChunkedBody, y: Bytes)
    requires c.chunks == [] && WellFormed(c)
    ensures ChunkedEnd(Render(c) + y) == Some(|Render(c)|)
  {
    hide ChunkSize, TrailerEnd, ChunkedEnd, LineOf, Find, EndsCrlf, SizeLine, IsLine, TrailerLine;
    var x := Flat(c.trailer) + CRLF + y;
    SizeLineIff(c.last, 0);
    IsLineOf(c.last, MAX_CHUNK_LINE);
    ChunkThen(c.last, x);
    TrailerTakes(c.trailer, 0, y);
    assert Render(c) + y == c.last + x;
  }

  lemma ChunkTakes(c: ChunkedBody, others: ChunkedBody, y: Bytes)
    requires c.chunks != [] && others == c.(chunks := c.chunks[1..])
    requires c.chunks[0].data != [] && SizeLine(c.chunks[0].line, |c.chunks[0].data|)
    requires ChunkedEnd(Render(others) + y) == Some(|Render(others)|)
    ensures ChunkedEnd(Render(c) + y) == Some(|Render(c)|)
  {
    hide ChunkSize, ChunkedEnd, LineOf, Find, EndsCrlf, SizeLine, IsLine;
    var chunk, n := c.chunks[0], |c.chunks[0].data|;
    SizeLineIff(chunk.line, n);
    IsLineOf(chunk.line, MAX_CHUNK_LINE);
    var rest := chunk.data + CRLF;
    assert rest[n..n + 2] == CRLF && rest[..n + 2] == rest;
    DataThen(chunk.line, rest, n, Render(others) + y);
    ChunkRender(c, others, y);
  }

  lemma ChunkRender(c: ChunkedBody, others: ChunkedBody, y: Bytes)
    requires c.chunks != [] && others == c.(chunks := c.chunks[1..])
    ensures var chunk := c.chunks[0];
            && Render(c) + y == chunk.line + (chunk.data + CRLF + (Render(others) + y))
            && |Render(c)| == |chunk.line| + |chunk.data| + 2 + |Render(others)|
  {
    var chunk, r := c.chunks[0], Render(others);
    assert Render(c) == chunk.line + (chunk.data + (CRLF + r));
    hide Render;
    assert Render(c) + y == chunk.line + (chunk.data + CRLF + (r + y));
  }

  /** What is at the front of `b` for each kind of body, and nothing else, is taken. */
  ghost predicate Holds(kind: Body, b: Bytes, n: nat) {
    && n <= |b|
    && match kind
       case Empty => n == 0
       case Length(k) => n == k
       case UntilEof => n == |b|
       case Chunked => exists c :: WellFormed(c) && Render(c) == b[..n]
  }

  lemma BodyIff(kind: Body, b: Bytes, n: nat)
    ensures BodyEnd(kind, b) == Some(n) <==> Holds(kind, b, n)
  {
    hide ChunkedEnd, WellFormed, Render;
    if kind == Chunked {
      if ChunkedEnd(b).Some? {
        var c := TakenIsChunked(b);
      }
      if n <= |b| {
        forall c | WellFormed(c) && Render(c) == b[..n] ensures ChunkedEnd(b) == Some(n) {
          assert b == Render(c) + b[n..];
          ChunkedTakes(c, b[n..]);
        }
      }
    }
  }

  // ----- Heads -----

  /** A head is lines, none of them empty, and the empty line; it takes no octet more. */
  lemma {:induction false} TakenHead(out: Bytes, b: Bytes) returns (lines: seq<Bytes>)
    requires |out| <= MAX_HEAD && HeadFrom(out, b).Took?
    ensures var t := HeadFrom(out, b);
            && t.octets == out + (Flat(lines) + CRLF) && b == (Flat(lines) + CRLF) + t.rest
            && |t.octets| <= 65536
    ensures forall i :: 0 <= i < |lines| ==> TrailerLine(lines[i])
    decreases |b|
  {
    hide LineOf, Flat, TrailerLine, Find, EndsCrlf;
    var l := LineOf(b, MAX_HEAD - |out|);
    if l.octets == CRLF {
      lines := [];
      LastLine();
      assert CRLF == Flat([]) + CRLF;
    } else {
      var others := TakenHead(out + l.octets, l.rest);
      lines := [l.octets] + others;
      TrailerCons(l.octets, others);
      Assoc(out, l.octets, Flat(others) + CRLF);
      Assoc(l.octets, Flat(others) + CRLF, HeadFrom(out, b).rest);
    }
  }

  /** Lines and the empty line, within the limit, are taken as a head whatever follows. */
  lemma {:induction false} HeadTakes(out: Bytes, lines: seq<Bytes>, y: Bytes)
    requires forall i :: 0 <= i < |lines| ==> TrailerLine(lines[i])
    requires |out| + |Flat(lines)| + 2 <= 65536
    ensures HeadFrom(out, Flat(lines) + CRLF + y) == Took(out + (Flat(lines) + CRLF), y)
    decreases |lines|
  {
    hide LineOf, IsLine, Find, EndsCrlf;
    if lines == [] {
      IsLineOf(CRLF, MAX_HEAD - |out|);
      LineThen(CRLF, MAX_HEAD - |out|, y);
      assert Flat(lines) + CRLF == CRLF;
    } else {
      var l := lines[0];
      assert TrailerLine(l);
      IsLineOf(l, MAX_HEAD - |out|);
      var x := Flat(lines[1..]) + CRLF + y;
      LineThen(l, MAX_HEAD - |out|, x);
      HeadTakes(out + l, lines[1..], y);
      Assoc(l, Flat(lines[1..]), CRLF);
      Assoc(l, Flat(lines[1..]) + CRLF, y);
      Assoc(out, l, Flat(lines[1..]) + CRLF);
    }
  }

  /** A head stands at the front of `b`. */
  ghost predicate HeadAt(b: Bytes, h: Bytes, rest: Bytes) {
    && b == h + rest && |h| <= 65536
    && exists lines :: h == Flat(lines) + CRLF && forall i :: 0 <= i < |lines| ==> TrailerLine(lines[i])
  }

  /** A head is taken exactly where one stands; nothing is taken exactly at the end of the stream. */
  lemma HeadIff(b: Bytes, h: Bytes, rest: Bytes)
    ensures HeadFrom([], b) == Took(h, rest) <==> HeadAt(b, h, rest)
    ensures HeadFrom([], b) == Closed <==> b == []
  {
    hide HeadFrom, TrailerLine, Flat;
    HeadClosed(b);
    if HeadFrom([], b) == Took(h, rest) {
      var lines := TakenHead([], b);
      assert [] + (Flat(lines) + CRLF) == Flat(lines) + CRLF;
      assert HeadAt(b, h, rest);
    }
    if HeadAt(b, h, rest) {
      var lines :| h == Flat(lines) + CRLF && forall i :: 0 <= i < |lines| ==> TrailerLine(lines[i]);
      HeadTakes([], lines, rest);
      assert [] + (Flat(lines) + CRLF) == h;
    }
  }

  lemma HeadClosed(b: Bytes)
    ensures HeadFrom([], b) == Closed <==> b == []
  {
    hide LineOf;
    var none: Bytes := [];
    EmptyClosed(MAX_HEAD);
    if b != [] {
      NotClosed(b, MAX_HEAD);
      var t := LineOf(b, MAX_HEAD);
      assert MAX_HEAD - |none| == MAX_HEAD;
      if t.Took? && t.octets != CRLF {
        assert none + t.octets == t.octets;
        LaterNotClosed(t.octets, t.rest);
      }
    }
  }

  lemma EmptyClosed(limit: nat)
    ensures LineOf([], limit) == Closed
  {
  }

  lemma NotClosed(b: Bytes, limit: nat)
    requires b != []
    ensures LineOf(b, limit) != Closed
  {
  }

  lemma {:induction false} LaterNotClosed(out: Bytes, b: Bytes)
    requires out != [] && |out| <= MAX_HEAD
    ensures HeadFrom(out, b) != Closed
    decreases |b|
  {
    hide LineOf;
    var t := LineOf(b, MAX_HEAD - |out|);
    if t.Took? && t.octets != CRLF {
      LaterNotClosed(out + t.octets, t.rest);
    }
  }
}
