/** What `framing` of src/h1.rs decides, field by field, and why `h1_head` cannot change it. */
module Http1Framing {
  import opened Octets
  import opened Text
  import opened StaticTable
  import opened Http1Stream
  import opened Http1Head
  import opened Http1HeadTheorems
  import opened Numerals
  import Mapping

  // ----- The lines of a head, as pieces between LFs -----

  function PieceOf(f: Field): Bytes {
    (f.0 + ([COLON] + f.1)) + [CR]
  }

  function Pieces(fs: seq<Field>): (r: seq<Bytes>)
    ensures |r| == |fs| && forall i :: 0 <= i < |fs| ==> r[i] == PieceOf(fs[i])
  {
    seq(|fs|, i requires 0 <= i < |fs| => PieceOf(fs[i]))
  }

  lemma PiecesOfHead(p: Head)
    requires FirstLine(p.first) && AllClean(p.fields)
    ensures Split(HeadBytes(p), LF)[1..] == Pieces(p.fields) + END
  {
    hide AllLines, StripLine, FieldBytes, Split, PieceOf;
    HeadLinesAre(p);
    HeadLinesLong(p);
    var lines := HeadLines(p);
    HeadPieces(lines);
    assert lines[1..] == FieldLines(p.fields);
    var mid := Strip(FieldLines(p.fields));
    forall i | 0 <= i < |mid| ensures mid[i] == Pieces(p.fields)[i] {
      assert Clean(p.fields[i]);
      FieldPiece(p.fields[i]);
    }
    assert mid == Pieces(p.fields);
  }

  lemma FieldPiece(f: Field)
    requires Clean(f)
    ensures StripLine(FieldBytes(f)) == PieceOf(f)
  {
    FieldIsLine(f);
  }

  lemma SeePiece(seen: Seen, f: Field)
    requires NameOk(f.0)
    ensures See(seen, PieceOf(f))
            == if FramingName(Lower(f.0)) then SeeField(seen, Lower(f.0), f.1 + [CR]) else Some(seen)
  {
    hide FramingName, SeeField, Lower;
    var p := PieceOf(f);
    assert p == f.0 + ([COLON] + (f.1 + [CR]));
    FindFirst(p, COLON, |f.0|);
    assert p[..|f.0|] == f.0 && p[|f.0| + 1..] == f.1 + [CR];
  }

  // ----- Rewriting keeps the framing -----

  lemma RelevantIsNotFraming(lower: Bytes, response: bool)
    requires Mapping.Relevant(lower, response)
    ensures !FramingName(lower)
  {
    assert Ascii("referer")[0] == 114 && Ascii("upgrade")[0] == 117;
  }

  lemma SeeMapped(url: Mapping.Url, m: Mapping.Mapping, f: Field, g: Field, response: bool, seen: Seen)
    requires NameOk(f.0) && g.0 == f.0 && Mapping.Value(url, m, f.0, f.1, response) == Some(g.1)
    ensures See(seen, PieceOf(g)) == See(seen, PieceOf(f))
  {
    hide See, PieceOf, FramingName, SeeField;
    SeePiece(seen, f);
    SeePiece(seen, g);
    if Mapping.Relevant(Lower(f.0), response) {
      RelevantIsNotFraming(Lower(f.0), response);
    }
  }

  lemma {:induction false} SeeAllMapped(url: Mapping.Url, m: Mapping.Mapping, fs: seq<Field>, gs: seq<Field>,
                                        response: bool, seen: Seen)
    requires AllClean(fs) && Mapped(url, m, fs, gs, response)
    ensures SeeAll(seen, Pieces(gs) + END) == SeeAll(seen, Pieces(fs) + END)
    decreases |fs|
  {
    hide See, PieceOf, Mapping.Value;
    if fs == [] {
      assert Pieces(gs) == Pieces(fs);
    } else {
      assert Clean(fs[0]);
      SeeMapped(url, m, fs[0], gs[0], response, seen);
      assert (Pieces(gs) + END)[1..] == Pieces(gs[1..]) + END;
      assert (Pieces(fs) + END)[1..] == Pieces(fs[1..]) + END;
      if See(seen, PieceOf(fs[0])).Some? {
        SeeAllMapped(url, m, fs[1..], gs[1..], response, See(seen, PieceOf(fs[0])).value);
      }
    }
  }

  /** The rewritten head frames its body as the original does. */
  lemma FramingKept(url: Mapping.Url, m: Mapping.Mapping, b: Bytes, response: bool, noBody: bool)
    requires Mapping.Standard(url) && Mapping.Made(url, m)
    requires HeadFrom([], b).Took? && H1Head(url, m, HeadFrom([], b).octets, response).Some?
    ensures var h := HeadFrom([], b).octets;
            Framing(H1Head(url, m, h, response).value, response, noBody) == Framing(h, response, noBody)
  {
    hide HeadFrom, H1Head, HeadBytes, ParseHead, SeeAll, Mapped, AllClean, Split;
    HeadCommutes(url, m, b, response, []);
    var h := HeadFrom([], b).octets;
    var out := H1Head(url, m, h, response).value;
    var p, q := ParseHead(h).value, ParseHead(out).value;
    ParsedIsClean(url, m, b, response);
    MappedClean(url, m, p.fields, q.fields, response);
    PiecesOfHead(p);
    PiecesOfHead(q);
    SeeAllMapped(url, m, p.fields, q.fields, response, NOTHING);
  }

  lemma ParsedIsClean(url: Mapping.Url, m: Mapping.Mapping, b: Bytes, response: bool)
    requires HeadFrom([], b).Took? && H1Head(url, m, HeadFrom([], b).octets, response).Some?
    requires ParseHead(HeadFrom([], b).octets).Some?
    ensures var p := ParseHead(HeadFrom([], b).octets).value; FirstLine(p.first) && AllClean(p.fields)
  {
    hide HeadFrom, H1Head, ParseHead, TrailerLine, Flat, AllClean, FirstLine;
    var lines := TakenHead([], b);
    assert [] + (Flat(lines) + CRLF) == Flat(lines) + CRLF;
    if lines == [] {
      NoLines(url, m, response);
    } else {
      assert AllLines(lines);
      HeadParsesClean(lines);
    }
  }

  // ----- What framing decides -----

  /** The values of the fields of one name, in order. */
  function ValuesOf(fs: seq<Field>, lower: Bytes): seq<Bytes> {
    if fs == [] then []
    else
      var f := fs[|fs| - 1];
      ValuesOf(fs[..|fs| - 1], lower) + (if Lower(f.0) == lower then [f.1] else [])
  }

  /** A decimal numeral of `n` between white space, within 64 bits. */
  ghost predicate LengthIs(v: Bytes, n: nat) {
    n < 0x1_0000_0000_0000_0000 && Writes(Trim(v), n, 10)
  }

  ghost function LengthOf(v: Bytes): Option<nat> {
    if n: nat :| LengthIs(v, n) then Some(n) else None
  }

  lemma {:induction false} DecimalWrites(b: Bytes)
    requires IsNumber(b)
    ensures Writes(b, Number(b), 10)
    decreases |b|
  {
    hide Writes, Digit;
    var n := |b| - 1;
    assert b == b[..n] + [b[n]];
    assert LowerOctet(b[n]) == Digit(b[n] - 48) by { DecimalDigit(b[n]); }
    if n == 0 {
      assert b[..n] == [] && Number([]) == 0;
      WritesOne(b[n], b[n] - 48, 10);
    } else {
      DecimalWrites(b[..n]);
      WritesMore(b[..n], Number(b[..n]), b[n], b[n] - 48, 10);
    }
  }

  lemma DecimalDigit(c: Byte)
    requires 48 <= c <= 57
    ensures LowerOctet(c) == Digit(c - 48)
  {
  }

  /** Digits are a number exactly as they are written in decimal. */
  lemma NumberIff(b: Bytes, n: nat)
    ensures IsNumber(b) && Number(b) == n <==> Writes(b, n, 10)
  {
    hide Writes, Number;
    if IsNumber(b) {
      DecimalWrites(b);
    }
    if Writes(b, n, 10) {
      WritesSomething(b, n, 10);
      forall i | 0 <= i < |b| ensures 48 <= b[i] <= 57 {
        assert IsDigit(LowerOctet(b[i]), 10);
      }
      DecimalWrites(b);
      WritesUnique(b, n, Number(b), 10);
    }
  }

  lemma LengthIff(v: Bytes)
    ensures LengthOf(v) == if IsNumber(Trim(v)) && Number(Trim(v)) < WORD then Some(Number(Trim(v))) else None
  {
    hide Number, Trim, Writes;
    forall n: nat ensures LengthIs(v, n) <==> n < WORD && IsNumber(Trim(v)) && Number(Trim(v)) == n {
      NumberIff(Trim(v), n);
    }
    if IsNumber(Trim(v)) && Number(Trim(v)) < WORD {
      assert LengthIs(v, Number(Trim(v)));
    }
    hide LengthIs;
  }

  predicate AllUtf8(vs: seq<Bytes>) {
    forall i :: 0 <= i < |vs| ==> Utf8(vs[i])
  }

  const CONTENT_LENGTH := Ascii("content-length")
  const TRANSFER_ENCODING := Ascii("transfer-encoding")
  const UPGRADE := Ascii("upgrade")

  /**
   The body a head announces, by its fields: never an upgrade, at most one of Content-Length and
   Transfer-Encoding and once, a length of digits within 64 bits, and no coding but chunked.
   */
  ghost function BodyOf(fs: seq<Field>, response: bool, noBody: bool): Option<Body> {
    var cl, te := ValuesOf(fs, CONTENT_LENGTH), ValuesOf(fs, TRANSFER_ENCODING);
    if ValuesOf(fs, UPGRADE) != [] || |cl| + |te| > 1 || !AllUtf8(cl) || !AllUtf8(te) then None
    else if cl != [] && LengthOf(cl[0]).None? then None
    else if noBody then Some(Empty)
    else if te != [] then if Lower(Trim(te[0])) == Ascii("chunked") then Some(Chunked) else None
    else if cl != [] then Some(Length(LengthOf(cl[0]).value))
    else Some(if response then UntilEof else Empty)
  }

  /** What has been seen after the fields `fs`. */
  function SeenOf(fs: seq<Field>): Option<Seen> {
    var cl, te := ValuesOf(fs, CONTENT_LENGTH), ValuesOf(fs, TRANSFER_ENCODING);
    if ValuesOf(fs, UPGRADE) != [] || |cl| > 1 || |te| > 1 || !AllUtf8(cl) || !AllUtf8(te) then None
    else if cl != [] && !(IsNumber(Trim(cl[0])) && Number(Trim(cl[0])) < WORD) then None
    else Some(Seen(if cl == [] then None else Some(Number(Trim(cl[0]))),
                   if te == [] then None else Some(Lower(Trim(te[0])))))
  }

  lemma {:induction false} Utf8Cr(v: Bytes)
    ensures Utf8(v + [CR]) <==> Utf8(v)
    decreases |v|
  {
    var b := v + [CR];
    if v == [] {
      assert b == [CR] && b[1..] == [];
    } else {
      assert CharAt(b) == CharAt(v) by {
        assert b[..|v|] == v && b[|v|] == CR;
      }
      var n := CharAt(v);
      if n > 0 {
        assert b[n..] == v[n..] + [CR];
        Utf8Cr(v[n..]);
      }
    }
  }

  lemma FrontCr(v: Bytes)
    requires v != []
    ensures SpaceAtFront(v + [CR]) == SpaceAtFront(v)
  {
    var b := v + [CR];
    assert b[0] == v[0] && b[|v|] == CR && b[..|v|] == v;
  }

  lemma {:induction false} StartCr(v: Bytes)
    ensures TrimStart(v + [CR]) == if TrimStart(v) == [] then [] else TrimStart(v) + [CR]
    decreases |v|
  {
    hide SpaceAtFront;
    var b := v + [CR];
    if v == [] {
      OnlyCr();
      assert b == [CR];
    } else {
      FrontCr(v);
      var n := SpaceAtFront(v);
      if n > 0 {
        assert b[n..] == v[n..] + [CR];
        StartCr(v[n..]);
      }
    }
  }

  lemma OnlyCr()
    ensures TrimStart([CR]) == [] && TrimStart([]) == [] && TrimEnd([]) == []
  {
    assert [CR][1..] == [];
  }

  lemma TrimCr(v: Bytes)
    ensures Trim(v + [CR]) == Trim(v)
  {
    hide TrimStart;
    StartCr(v);
    var x := TrimStart(v);
    if x != [] {
      var b := x + [CR];
      assert b[|b| - 1] == CR && b[..|b| - 1] == x;
    }
  }

  lemma SeeFieldIs(seen: Seen, lower: Bytes, v: Bytes)
    ensures SeeField(seen, lower, v + [CR]) == SeeField(seen, lower, v)
  {
    hide Utf8, Trim;
    Utf8Cr(v);
    TrimCr(v);
  }

  lemma {:induction false} SeeAllConcat(seen: Seen, a: seq<Bytes>, b: seq<Bytes>)
    ensures SeeAll(seen, a + b) == match SeeAll(seen, a) case None => None case Some(s) => SeeAll(s, b)
    decreases |a|
  {
    hide See;
    if a == [] {
      assert a + b == b;
    } else {
      assert (a + b)[1..] == a[1..] + b;
      if See(seen, a[0]).Some? {
        SeeAllConcat(See(seen, a[0]).value, a[1..], b);
      }
    }
  }

  lemma SeeOne(seen: Seen, piece: Bytes)
    ensures SeeAll(seen, [piece]) == See(seen, piece)
  {
    hide See;
    assert [piece][1..] == [];
  }

  /** One more field, seen. */
  lemma SeenSnoc(fs: seq<Field>, f: Field)
    requires SeenOf(fs).Some?
    ensures SeenOf(fs + [f])
            == if FramingName(Lower(f.0)) then SeeField(SeenOf(fs).value, Lower(f.0), f.1) else SeenOf(fs)
  {
    hide Utf8, Trim, Lower, Number, IsNumber;
    assert (fs + [f])[..|fs|] == fs;
    DifferentNames();
  }

  lemma SeenFails(fs: seq<Field>, f: Field)
    requires SeenOf(fs).None?
    ensures SeenOf(fs + [f]).None?
  {
    hide Utf8, Trim, Lower, Number, IsNumber;
    assert (fs + [f])[..|fs|] == fs;
  }

  lemma DifferentNames()
    ensures CONTENT_LENGTH != TRANSFER_ENCODING && CONTENT_LENGTH != UPGRADE && TRANSFER_ENCODING != UPGRADE
  {
  }

  lemma {:induction false} SeeAllIs(fs: seq<Field>)
    requires AllClean(fs)
    ensures SeeAll(NOTHING, Pieces(fs)) == SeenOf(fs)
    decreases |fs|
  {
    hide See, PieceOf, SeenOf, SeeField;
    if fs == [] {
      NothingSeen();
    } else {
      var n := |fs| - 1;
      var init, f := fs[..n], fs[n];
      assert fs == init + [f] && Clean(f);
      SeeAllIs(init);
      assert Pieces(fs) == Pieces(init) + [PieceOf(f)];
      SeeAllConcat(NOTHING, Pieces(init), [PieceOf(f)]);
      if SeenOf(init).Some? {
        var seen := SeenOf(init).value;
        SeeOne(seen, PieceOf(f));
        SeePiece(seen, f);
        SeeFieldIs(seen, Lower(f.0), f.1);
        SeenSnoc(init, f);
      } else {
        SeenFails(init, f);
      }
    }
  }

  lemma NothingSeen()
    ensures SeenOf([]) == Some(NOTHING)
  {
  }

  /** `framing` of a head is decided by its fields as `BodyOf` says. */
  lemma FramingMeans(p: Head, response: bool, noBody: bool)
    requires FirstLine(p.first) && AllClean(p.fields)
    ensures Framing(HeadBytes(p), response, noBody) == BodyOf(p.fields, response, noBody)
  {
    hide SeeAll, Split, HeadBytes, AllClean, Utf8, Trim, Lower, ValuesOf, LengthOf, IsNumber, Number;
    PiecesOfHead(p);
    SeeAllIs(p.fields);
    SeeAllConcat(NOTHING, Pieces(p.fields), END);
    LengthsRead(p.fields);
    if SeenOf(p.fields).Some? {
      EndSeen(SeenOf(p.fields).value);
    }
  }

  lemma LengthsRead(fs: seq<Field>)
    ensures var cl := ValuesOf(fs, CONTENT_LENGTH);
            cl != [] ==>
              LengthOf(cl[0]) == if IsNumber(Trim(cl[0])) && Number(Trim(cl[0])) < WORD
                                 then Some(Number(Trim(cl[0]))) else None
  {
    var cl := ValuesOf(fs, CONTENT_LENGTH);
    if cl != [] {
      LengthIff(cl[0]);
    }
  }

  lemma EndSeen(seen: Seen)
    ensures SeeAll(seen, END) == Some(seen)
  {
    var none: Bytes := [];
    assert END == [[13]] + [none] && END[1..] == [none] && [none][1..] == [];
    assert Find([13], COLON) == 1;
    assert See(seen, END[0]) == Some(seen) && See(seen, []) == Some(seen);
  }
}
