/** Rewriting a head commutes with parsing it, and leaves the framing of the body as it was. */
module Http1HeadTheorems {
  import opened Octets
  import opened Text
  import opened StaticTable
  import opened Http1Stream
  import opened Http1Head
  import Mapping
  import MappingTheorems

  // ----- A reference parser -----

  function ParseFields(pieces: seq<Bytes>): (r: Option<seq<Field>>)
    ensures r.Some? ==> |r.value| == |pieces|
  {
    if pieces == [] then Some([])
    else if pieces[0] == [] || pieces[0][|pieces[0]| - 1] != CR then None
    else
      match FieldOf(pieces[0][..|pieces[0]| - 1])
      case None => None
      case Some(f) =>
        match ParseFields(pieces[1..])
        case None => None
        case Some(fs) => Some([f] + fs)
  }

  /** Start line and fields of a head, section 2.1 of RFC 9112. */
  function ParseHead(h: Bytes): Option<Head> {
    var pieces := Split(h, LF);
    var n := |pieces| - 2;
    if n < 1 || pieces[n] != [CR] || pieces[n + 1] != [] then None
    else
      match ParseFields(pieces[1..n])
      case None => None
      case Some(fs) => Some(Head(pieces[0], fs))
  }

  /** The lines of a head before the empty one. */
  ghost predicate AllLines(lines: seq<Bytes>) {
    forall i :: 0 <= i < |lines| ==> TrailerLine(lines[i])
  }

  const END: seq<Bytes> := [[13], []]

  function StripLine(l: Bytes): Bytes {
    if l == [] then [] else l[..|l| - 1]
  }

  /** The lines of a head without their LF. */
  function Strip(lines: seq<Bytes>): (r: seq<Bytes>)
    ensures |r| == |lines| && forall i :: 0 <= i < |lines| ==> r[i] == StripLine(lines[i])
  {
    seq(|lines|, i requires 0 <= i < |lines| => StripLine(lines[i]))
  }

  lemma StripCons(lines: seq<Bytes>)
    requires lines != []
    ensures Strip(lines) == [StripLine(lines[0])] + Strip(lines[1..])
  {
    hide StripLine;
  }

  lemma LinePieces(l: Bytes)
    requires TrailerLine(l)
    ensures l == l[..|l| - 1] + [LF] && LF !in l[..|l| - 1]
    ensures |l[..|l| - 1]| >= 2 && l[..|l| - 1][|l| - 2] == CR
  {
    var p := l[..|l| - 1];
    assert forall k :: 0 <= k < |p| ==> p[k] == l[k] != LF;
  }

  lemma {:induction false} PiecesOfLines(lines: seq<Bytes>)
    requires AllLines(lines)
    ensures Split(Flat(lines) + CRLF, LF) == Strip(lines) + END
    decreases |lines|
  {
    hide Find, Split, TrailerLine;
    if lines == [] {
      PiecesOfEnd();
      assert Flat(lines) + CRLF == CRLF && Strip(lines) + END == END;
    } else {
      var l, rest := lines[0], lines[1..];
      assert TrailerLine(l);
      LinePieces(l);
      PiecesOfLines(rest);
      var p := l[..|l| - 1];
      SplitFirst(p, Flat(rest) + CRLF, LF);
      Assoc(l, Flat(rest), CRLF);
      Assoc(p, [LF], Flat(rest) + CRLF);
      StripCons(lines);
      Assoc([p], Strip(rest), END);
    }
  }

  lemma PiecesOfEnd()
    ensures Split(CRLF, LF) == END
  {
    SplitFirst([13], [], LF);
    SplitWhole([], LF);
    assert CRLF == [13] + ([LF] + []);
    assert [[13]] + [[]] == END;
  }

  // ----- h1_head over a head -----

  function MapFields(url: Mapping.Url, m: Mapping.Mapping, fs: seq<Field>, response: bool): (r: Option<seq<Field>>)
    ensures r.Some? ==> Mapped(url, m, fs, r.value, response)
  {
    if fs == [] then Some([])
    else
      match Mapping.Value(url, m, fs[0].0, fs[0].1, response)
      case None => None
      case Some(v) =>
        match MapFields(url, m, fs[1..], response)
        case None => None
        case Some(gs) => Some([(fs[0].0, v)] + gs)
  }

  /** The same names in the same order, each value mapped. */
  ghost predicate Mapped(url: Mapping.Url, m: Mapping.Mapping, fs: seq<Field>, gs: seq<Field>, response: bool) {
    |gs| == |fs| && forall i :: 0 <= i < |fs| ==>
      gs[i].0 == fs[i].0 && Mapping.Value(url, m, fs[i].0, fs[i].1, response) == Some(gs[i].1)
  }

  function Hosts(fs: seq<Field>): nat {
    if fs == [] then 0 else HostCount(fs[0].0) + Hosts(fs[1..])
  }

  /** The fields of one name, in whatever case it is spelled. */
  function Named(fs: seq<Field>, lower: Bytes): seq<Field> {
    if fs == [] then [] else (if Lower(fs[0].0) == lower then [fs[0]] else []) + Named(fs[1..], lower)
  }

  lemma {:induction false} HostsNamed(fs: seq<Field>)
    ensures Hosts(fs) == |Named(fs, Ascii("host"))|
  {
    hide Lower, Ascii;
    if fs != [] {
      HostsNamed(fs[1..]);
    }
  }

  /** Characters of a token, section 5.6.2 of RFC 9110. */
  predicate TokenOctet(c: Byte) {
    48 <= c <= 57 || 65 <= c <= 90 || 97 <= c <= 122
    || c in [33, 35, 36, 37, 38, 39, 42, 43, 45, 46, 94, 95, 96, 124, 126]
  }

  /** A field line is a token, a colon and the rest, in the one way it can be. */
  lemma FieldIff(line: Bytes, f: Field)
    ensures FieldOf(line) == Some(f) <==>
              line == f.0 + [58] + f.1 && f.0 != [] && forall c :: c in f.0 ==> TokenOctet(c)
  {
    hide Find;
    var (name, value) := f;
    assert name + [58] + value == name + ([58] + value);
    if FieldOf(line) == Some(f) {
      forall c | c in name ensures TokenOctet(c) {
        var i :| 0 <= i < |name| && name[i] == c;
      }
    }
    if line == name + [58] + value && name != [] && forall c :: c in name ==> TokenOctet(c) {
      forall i | 0 <= i < |name| ensures Token(name[i]) && name[i] != 58 {
        assert name[i] in name;
      }
      assert forall i :: 0 <= i < |name| ==> line[i] == name[i];
      FindFirst(line, COLON, |name|);
      assert line[..|name|] == name && line[|name| + 1..] == value;
    }
  }

  /** A piece that is neither empty nor a CR alone. */
  ghost predicate Inner(pieces: seq<Bytes>) {
    forall i :: 0 <= i < |pieces| ==> |pieces[i]| >= 2
  }

  lemma MapLinesStep(url: Mapping.Url, m: Mapping.Mapping, p: Bytes, rest: seq<Bytes>, response: bool)
    requires |p| >= 2
    ensures MapLines(url, m, [p] + rest, response)
            == if p[|p| - 1] != CR || FieldOf(p[..|p| - 1]).None? then None
               else
                 var f := FieldOf(p[..|p| - 1]).value;
                 var v := Mapping.Value(url, m, f.0, f.1, response);
                 if v.None? then None
                 else Before(FieldBytes((f.0, v.value)), HostCount(f.0), MapLines(url, m, rest, response))
  {
    hide Mapping.Value, FieldOf, FieldBytes, HostCount, Before;
    assert ([p] + rest)[1..] == rest && ([p] + rest)[0] == p;
  }

  lemma MapLinesEnd(url: Mapping.Url, m: Mapping.Mapping, response: bool)
    ensures MapLines(url, m, END, response) == Some((CRLF, 0))
  {
    assert END[0] == [13] && [13][..0] == [];
  }

  lemma {:induction false} MapLinesIs(url: Mapping.Url, m: Mapping.Mapping, pieces: seq<Bytes>, response: bool)
    requires Inner(pieces)
    ensures MapLines(url, m, pieces + END, response)
            == if ParseFields(pieces).None? then None
               else
                 var fs := ParseFields(pieces).value;
                 if MapFields(url, m, fs, response).None? then None
                 else Some((FieldsBytes(MapFields(url, m, fs, response).value) + CRLF, Hosts(fs)))
    decreases |pieces|
  {
    hide Mapping.Value, FieldOf, FieldBytes, HostCount, MapLines;
    if pieces == [] {
      MapLinesEnd(url, m, response);
      assert pieces + END == END && [] + CRLF == CRLF;
    } else {
      var p, rest := pieces[0], pieces[1..];
      assert pieces + END == [p] + (rest + END);
      MapLinesStep(url, m, p, rest + END, response);
      MapLinesIs(url, m, rest, response);
      if ParseFields(pieces).Some? {
        var fs := ParseFields(pieces).value;
        assert fs[1..] == ParseFields(rest).value;
        if MapFields(url, m, fs, response).Some? {
          var gs := MapFields(url, m, fs, response).value;
          assert gs[1..] == MapFields(url, m, fs[1..], response).value;
          Assoc(FieldBytes(gs[0]), FieldsBytes(gs[1..]), CRLF);
        }
      }
    }
  }

  // ----- What h1_head does to a head that `head` returned -----

  lemma {:induction false} EndsWithLine(lines: seq<Bytes>)
    requires lines != [] && AllLines(lines)
    ensures EndsCrlf(Flat(lines))
    decreases |lines|
  {
    hide Find;
    assert TrailerLine(lines[0]);
    if |lines| == 1 {
      assert Flat(lines) == lines[0] + [];
    } else {
      EndsWithLine(lines[1..]);
    }
  }

  lemma TwiceEnds(f: Bytes)
    requires EndsCrlf(f)
    ensures EndsTwice(f + CRLF)
  {
    var n := |f| - 2;
    assert f == f[..n] + CRLF;
    assert (f + CRLF)[n..] == CRLF + CRLF;
  }

  lemma LongLines(lines: seq<Bytes>)
    requires AllLines(lines)
    ensures Inner(Strip(lines))
  {
    hide TrailerLine;
    forall i | 0 <= i < |lines| ensures |Strip(lines)[i]| >= 2 {
      TrailerLong(lines[i]);
    }
  }

  lemma HeadPieces(lines: seq<Bytes>)
    requires lines != [] && AllLines(lines)
    ensures var h := Flat(lines) + CRLF;
            && EndsTwice(h) && Split(h, LF) == [StripLine(lines[0])] + (Strip(lines[1..]) + END)
            && Inner(Strip(lines[1..]))
  {
    hide Find, Flat, TrailerLine, EndsTwice, Split, StripLine, EndsCrlf;
    EndsWithLine(lines);
    TwiceEnds(Flat(lines));
    PiecesOfLines(lines);
    LongLines(lines[1..]);
    StripCons(lines);
    Assoc([StripLine(lines[0])], Strip(lines[1..]), END);
  }

  lemma ParseIs(lines: seq<Bytes>)
    requires lines != [] && AllLines(lines)
    ensures ParseHead(Flat(lines) + CRLF)
            == match ParseFields(Strip(lines[1..]))
               case None => None
               case Some(fs) => Some(Head(StripLine(lines[0]), fs))
  {
    hide Flat, TrailerLine, ParseFields, Strip, StripLine, Split;
    HeadPieces(lines);
    var first, mid := StripLine(lines[0]), Strip(lines[1..]);
    var all := [first] + (mid + END);
    assert all[1..|all| - 2] == mid && all[|all| - 2] == END[0] && all[|all| - 1] == END[1];
  }

  lemma TrailerLong(l: Bytes)
    requires TrailerLine(l)
    ensures |StripLine(l)| >= 2 && EndsCrlf(l)
  {
  }

  /** `h1_head` parses the head, maps the values, counts the Host fields of a request, and writes it again. */
  lemma H1HeadIs(url: Mapping.Url, m: Mapping.Mapping, lines: seq<Bytes>, response: bool)
    requires lines != [] && AllLines(lines)
    ensures var h := Flat(lines) + CRLF;
            H1Head(url, m, h, response)
            == if ParseHead(h).None? then None
               else
                 var p := ParseHead(h).value;
                 var gs := MapFields(url, m, p.fields, response);
                 if gs.None? || (!response && |Named(p.fields, Ascii("host"))| != 1) then None
                 else Some(HeadBytes(Head(p.first, gs.value)))
  {
    hide MapLines, MapFields, Flat, TrailerLine, FieldsBytes, Hosts, ParseFields, Strip;
    HeadPieces(lines);
    var first, mid := StripLine(lines[0]), Strip(lines[1..]);
    MapLinesIs(url, m, mid, response);
    var all := [first] + (mid + END);
    assert all[1..] == mid + END && all[1..|all| - 2] == mid;
    assert all[|all| - 2] == END[0] && all[|all| - 1] == END[1];
    hide Split;
    if ParseFields(mid).Some? {
      HostsNamed(ParseFields(mid).value);
    }
    if ParseFields(mid).Some? && MapFields(url, m, ParseFields(mid).value, response).Some? {
      Assoc(first, [LF], FieldsBytes(MapFields(url, m, ParseFields(mid).value, response).value) + CRLF);
    }
  }

  // ----- The head written is a head again -----

  /** A field that stays one line. */
  ghost predicate Clean(f: Field) {
    NameOk(f.0) && LF !in f.1
  }

  ghost predicate AllClean(fs: seq<Field>) {
    forall i :: 0 <= i < |fs| ==> Clean(fs[i])
  }

  function FieldLines(fs: seq<Field>): (r: seq<Bytes>)
    ensures |r| == |fs| && forall i :: 0 <= i < |fs| ==> r[i] == FieldBytes(fs[i])
  {
    seq(|fs|, i requires 0 <= i < |fs| => FieldBytes(fs[i]))
  }

  lemma {:induction false} FlatFields(fs: seq<Field>)
    ensures Flat(FieldLines(fs)) == FieldsBytes(fs)
    decreases |fs|
  {
    if fs != [] {
      FlatFields(fs[1..]);
      assert FieldLines(fs)[1..] == FieldLines(fs[1..]);
    }
  }

  function HeadLines(p: Head): seq<Bytes> {
    [p.first + [LF]] + FieldLines(p.fields)
  }

  lemma HeadLinesAre(p: Head)
    ensures HeadBytes(p) == Flat(HeadLines(p)) + CRLF
  {
    FlatFields(p.fields);
    var first, others := p.first + [LF], FieldLines(p.fields);
    assert HeadLines(p)[1..] == others;
    Assoc(p.first, [LF], FieldsBytes(p.fields) + CRLF);
    Assoc(first, Flat(others), CRLF);
  }

  lemma FieldIsLine(f: Field)
    requires Clean(f)
    ensures TrailerLine(FieldBytes(f))
    ensures StripLine(FieldBytes(f)) == f.0 + ([COLON] + f.1) + [CR]
    ensures FieldOf(f.0 + ([COLON] + f.1)) == Some(f)
  {
    var text := f.0 + ([COLON] + f.1);
    var l := FieldBytes(f);
    assert l == text + CRLF;
    FindFirst(text, COLON, |f.0|);
    assert text[..|f.0|] == f.0 && text[|f.0| + 1..] == f.1;
    forall k | 0 <= k < |l| - 1 ensures l[k] != LF {
      if k < |text| {
        assert l[k] == text[k];
      }
    }
    FindFirst(l, LF, |l| - 1);
  }

  lemma {:induction false} ParseOfFields(fs: seq<Field>)
    requires AllClean(fs)
    ensures ParseFields(Strip(FieldLines(fs))) == Some(fs)
    decreases |fs|
  {
    hide FieldOf, Clean, FieldBytes, StripLine;
    if fs != [] {
      var f := fs[0];
      assert Clean(f);
      FieldIsLine(f);
      ParseOfFields(fs[1..]);
      StripCons(FieldLines(fs));
      assert FieldLines(fs)[1..] == FieldLines(fs[1..]);
      var p := f.0 + ([COLON] + f.1) + [CR];
      assert p[..|p| - 1] == f.0 + ([COLON] + f.1);
      assert Strip(FieldLines(fs))[1..] == Strip(FieldLines(fs[1..]));
      assert [f] + fs[1..] == fs;
    }
  }

  /** The first line of a head as `head` returns it. */
  ghost predicate FirstLine(first: Bytes) {
    LF !in first && |first| >= 2 && first[|first| - 1] == CR
  }

  lemma HeadLinesLong(p: Head)
    requires FirstLine(p.first) && AllClean(p.fields)
    ensures AllLines(HeadLines(p))
  {
    var lines := HeadLines(p);
    var l := p.first + [LF];
    FindFirst(l, LF, |l| - 1);
    hide FieldBytes, TrailerLine;
    assert TrailerLine(l);
    forall i | 0 <= i < |lines| ensures TrailerLine(lines[i]) {
      if i > 0 {
        assert Clean(p.fields[i - 1]) && lines[i] == FieldBytes(p.fields[i - 1]);
        FieldIsLine(p.fields[i - 1]);
      }
    }
  }

  /** A head written out parses to itself. */
  lemma ParseOfHead(p: Head)
    requires FirstLine(p.first) && AllClean(p.fields)
    ensures ParseHead(HeadBytes(p)) == Some(p)
  {
    hide TrailerLine, FieldBytes, Flat, ParseFields, ParseHead, Strip, AllClean;
    HeadLinesAre(p);
    HeadLinesLong(p);
    var lines := HeadLines(p);
    ParseIs(lines);
    ParseOfFields(p.fields);
    assert lines[1..] == FieldLines(p.fields);
    assert StripLine(p.first + [LF]) == p.first;
  }

  lemma {:induction false} ParsedClean(pieces: seq<Bytes>)
    requires ParseFields(pieces).Some? && Without(pieces, LF)
    ensures AllClean(ParseFields(pieces).value)
    decreases |pieces|
  {
    hide NameOk;
    if pieces != [] {
      ParsedClean(pieces[1..]);
      var f := FieldOf(pieces[0][..|pieces[0]| - 1]).value;
      assert pieces[0] == (f.0 + ([COLON] + f.1)) + [CR];
      assert LF !in pieces[0];
      assert Clean(f);
    }
  }

  lemma HeadParsesClean(lines: seq<Bytes>)
    requires lines != [] && AllLines(lines)
    requires ParseHead(Flat(lines) + CRLF).Some?
    ensures var p := ParseHead(Flat(lines) + CRLF).value;
            FirstLine(p.first) && AllClean(p.fields)
  {
    hide Flat, ParseFields, TrailerLine, ParseHead, AllClean, StripLine;
    ParseIs(lines);
    StripWithout(lines);
    assert Strip(lines)[0] == StripLine(lines[0]) && Strip(lines)[1..] == Strip(lines[1..]);
    forall i | 0 <= i < |lines[1..]| ensures LF !in Strip(lines[1..])[i] {
      assert LF !in Strip(lines)[i + 1];
    }
    ParsedClean(Strip(lines[1..]));
    assert TrailerLine(lines[0]);
    StripFirst(lines[0]);
  }

  lemma StripFirst(l: Bytes)
    requires TrailerLine(l)
    ensures FirstLine(StripLine(l)) && l == StripLine(l) + [LF]
  {
    LinePieces(l);
  }

  lemma StripWithout(lines: seq<Bytes>)
    requires AllLines(lines)
    ensures Without(Strip(lines), LF)
  {
    hide TrailerLine, StripLine;
    forall i | 0 <= i < |lines| ensures LF !in Strip(lines)[i] {
      assert TrailerLine(lines[i]);
      StripFirst(lines[i]);
    }
  }

  lemma MappedClean(url: Mapping.Url, m: Mapping.Mapping, fs: seq<Field>, gs: seq<Field>, response: bool)
    requires Mapping.Standard(url) && Mapping.Made(url, m) && AllClean(fs) && Mapped(url, m, fs, gs, response)
    ensures AllClean(gs)
  {
    hide Mapping.Value, Mapping.Made, Mapping.Standard, NameOk;
    forall i | 0 <= i < |gs| ensures Clean(gs[i]) {
      assert Clean(fs[i]);
      MappingTheorems.ValueWithout(url, m, fs[i].0, fs[i].1, response, LF);
    }
  }

  /**
   For any head that `head` returns, what `h1_head` writes parses to the same start line and the same
   names in the same order, with each value mapped; and within the limit it is a head again.
   */
  lemma HeadCommutes(url: Mapping.Url, m: Mapping.Mapping, b: Bytes, response: bool, y: Bytes)
    requires Mapping.Standard(url) && Mapping.Made(url, m)
    requires HeadFrom([], b).Took? && H1Head(url, m, HeadFrom([], b).octets, response).Some?
    ensures var h := HeadFrom([], b).octets;
            var out := H1Head(url, m, h, response).value;
            && ParseHead(h).Some? && ParseHead(out).Some?
            && var (p, q) := (ParseHead(h).value, ParseHead(out).value);
               && q.first == p.first && Mapped(url, m, p.fields, q.fields, response)
               && (response || |Named(p.fields, Ascii("host"))| == 1)
               && h == HeadBytes(p) && out == HeadBytes(q)
               && (|out| <= 65536 ==> HeadFrom([], out + y) == Took(out, y))
  {
    hide Mapping.Made, Mapping.Standard, HeadFrom, H1Head, TrailerLine, ParseHead, MapFields, Mapped, HeadBytes, Flat,
      Named, Ascii;
    var lines := TakenHead([], b);
    var h := Flat(lines) + CRLF;
    assert HeadFrom([], b).octets == h by { assert [] + h == h; }
    if lines == [] {
      NoLines(url, m, response);
    } else {
      H1HeadIs(url, m, lines, response);
      HeadParsesClean(lines);
      var p := ParseHead(h).value;
      var gs := MapFields(url, m, p.fields, response).value;
      MappedClean(url, m, p.fields, gs, response);
      var q := Head(p.first, gs);
      ParseOfHead(q);
      HeadLinesAre(q);
      HeadLinesLong(q);
      BytesOfParse(lines);
      if |HeadBytes(q)| <= MAX_HEAD {
        HeadTakes([], HeadLines(q), y);
        assert [] + (Flat(HeadLines(q)) + CRLF) == HeadBytes(q);
      }
    }
  }

  lemma NoLines(url: Mapping.Url, m: Mapping.Mapping, response: bool)
    ensures H1Head(url, m, Flat([]) + CRLF, response).None?
  {
    assert Flat([]) + CRLF == CRLF;
  }

  lemma {:induction false} BytesOfFields(lines: seq<Bytes>)
    requires AllLines(lines)
    requires ParseFields(Strip(lines)).Some?
    ensures FieldsBytes(ParseFields(Strip(lines)).value) == Flat(lines)
    decreases |lines|
  {
    hide TrailerLine, FieldOf, Strip, StripLine;
    if lines != [] {
      var l := lines[0];
      assert TrailerLine(l) && AllLines(lines[1..]);
      hide AllLines;
      StripCons(lines);
      var pieces := Strip(lines);
      assert pieces[1..] == Strip(lines[1..]);
      BytesOfFields(lines[1..]);
      TextOfLine(l);
      assert ParseFields(pieces).value[1..] == ParseFields(pieces[1..]).value;
    }
  }

  lemma TextOfLine(l: Bytes)
    requires TrailerLine(l)
    ensures var p := StripLine(l); p != [] && l == p[..|p| - 1] + CRLF
  {
    LinePieces(l);
    var p := StripLine(l);
    assert p == p[..|p| - 1] + [CR] && [CR] + [LF] == CRLF;
    Assoc(p[..|p| - 1], [CR], [LF]);
  }

  /** Parsing loses nothing. */
  lemma BytesOfParse(lines: seq<Bytes>)
    requires lines != [] && AllLines(lines)
    requires ParseHead(Flat(lines) + CRLF).Some?
    ensures HeadBytes(ParseHead(Flat(lines) + CRLF).value) == Flat(lines) + CRLF
  {
    hide TrailerLine, ParseFields, ParseHead, Strip, StripLine, FieldsBytes;
    assert TrailerLine(lines[0]) && AllLines(lines[1..]);
    hide AllLines;
    ParseIs(lines);
    StripFirst(lines[0]);
    BytesOfFields(lines[1..]);
    Regroup(StripLine(lines[0]), Flat(lines[1..]));
  }

  lemma Regroup(first: Bytes, fields: Bytes)
    ensures ((first + [LF]) + fields) + CRLF == first + ([LF] + (fields + CRLF))
  {
    Assoc(first + [LF], fields, CRLF);
    Assoc(first, [LF], fields + CRLF);
  }
}
