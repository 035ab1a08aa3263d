/** `h1_head` of src/rewrite.rs and `framing` of src/h1.rs: both go through a head line by line. */
module Http1Head {
  import opened Octets
  import opened Text
  import opened StaticTable
  import opened Http1Stream
  import Mapping

  type Field = (Bytes, Bytes)

  const COLON: Byte := 58

  // ----- Heads as data -----

  predicate Token(c: Byte) {
    || 48 <= c <= 57 || 65 <= c <= 90 || 97 <= c <= 122
    || c == 33 || 35 <= c <= 39 || c == 42 || c == 43 || c == 45 || c == 46 || 94 <= c <= 96 || c == 124 || c == 126
  }

  predicate NameOk(name: Bytes) {
    name != [] && forall i :: 0 <= i < |name| ==> Token(name[i])
  }

  /** Name and value of a field line, without its CRLF. */
  function FieldOf(line: Bytes): (f: Option<Field>)
    ensures f.Some? ==> NameOk(f.value.0) && line == f.value.0 + ([COLON] + f.value.1)
  {
    var colon := Find(line, COLON);
    if colon == |line| || !NameOk(line[..colon]) then None
    else
      AtIndex(line, colon);
      Some((line[..colon], line[colon + 1..]))
  }

  /** A start line, with its CR if it has one, and fields in order. */
  datatype Head = Head(first: Bytes, fields: seq<Field>)

  function FieldBytes(f: Field): Bytes {
    f.0 + ([COLON] + f.1) + CRLF
  }

  function FieldsBytes(fs: seq<Field>): Bytes {
    if fs == [] then [] else FieldBytes(fs[0]) + FieldsBytes(fs[1..])
  }

  function HeadBytes(h: Head): Bytes {
    h.first + ([LF] + (FieldsBytes(h.fields) + CRLF))
  }

  // ----- h1_head -----

  predicate IsHost(name: Bytes) {
    Lower(name) == Ascii("host")
  }

  /** What becomes of one line after the first: nothing more, the end of the head, an error, or a field. */
  datatype Turn = Stop | Last | Bad | Put(f: Field)

  function TurnOf(url: Mapping.Url, m: Mapping.Mapping, piece: Bytes, response: bool): Turn {
    if piece == [] then Stop
    else if piece[|piece| - 1] != CR then Bad
    else
      var line := piece[..|piece| - 1];
      if line == [] then Last
      else
        match FieldOf(line)
        case None => Bad
        case Some(f) =>
          match Mapping.Value(url, m, f.0, f.1, response)
          case None => Bad
          case Some(v) => Put((f.0, v))
  }

  function Before(out: Bytes, hosts: nat, r: Option<(Bytes, nat)>): Option<(Bytes, nat)> {
    match r
    case None => None
    case Some(o) => Some((out + o.0, hosts + o.1))
  }

  function HostCount(name: Bytes): nat {
    if IsHost(name) then 1 else 0
  }

  /** What is written for the lines after the first, and how many Host fields they hold. */
  function MapLines(url: Mapping.Url, m: Mapping.Mapping, lines: seq<Bytes>, response: bool): Option<(Bytes, nat)>
    decreases |lines|
  {
    if lines == [] then Some(([], 0))
    else
      match TurnOf(url, m, lines[0], response)
      case Stop => Some(([], 0))
      case Last => Some((CRLF, 0))
      case Bad => None
      case Put(f) => Before(FieldBytes(f), HostCount(f.0), MapLines(url, m, lines[1..], response))
  }

  predicate EndsTwice(h: Bytes) {
    |h| >= 4 && h[|h| - 4..] == CRLF + CRLF
  }

  /** `h1_head`. */
  function H1Head(url: Mapping.Url, m: Mapping.Mapping, h: Bytes, response: bool): Option<Bytes> {
    if !EndsTwice(h) then None
    else
      var lines := Split(h, LF);
      match MapLines(url, m, lines[1..], response)
      case None => None
      case Some((out, hosts)) => if !response && hosts != 1 then None else Some(lines[0] + [LF] + out)
  }

  method H1HeadLoop(url: Mapping.Url, m: Mapping.Mapping, h: Bytes, response: bool) returns (r: Option<Bytes>)
    ensures r == H1Head(url, m, h, response)
  {
    hide TurnOf, FieldBytes, HostCount, Split, Find, EndsTwice;
    if !EndsTwice(h) {
      return None;
    }
    var lines := Split(h, LF);
    var out := lines[0] + [LF];
    var hosts: nat := 0;
    ghost var all := MapLines(url, m, lines[1..], response);
    var i := 1;
    while i < |lines|
      invariant 1 <= i <= |lines|
      invariant Before(lines[0] + [LF], 0, all) == Before(out, hosts, MapLines(url, m, lines[i..], response))
    {
      assert lines[i..][0] == lines[i] && lines[i..][1..] == lines[i + 1..];
      var turn := TurnOf(url, m, lines[i], response);
      if turn == Stop {
        assert out + [] == out;
        i := |lines|;
      } else if turn == Last {
        out := out + CRLF;
        assert out + [] == out;
        i := |lines|;
      } else if turn == Bad {
        return None;
      } else {
        var f := turn.f;
        BeforeTwice(out, hosts, FieldBytes(f), HostCount(f.0), MapLines(url, m, lines[i + 1..], response));
        hosts := hosts + HostCount(f.0);
        out := out + FieldBytes(f);
        i := i + 1;
      }
    }
    assert lines[i..] == [] && out + [] == out;
    if !response && hosts != 1 {
      return None;
    }
    return Some(out);
  }

  lemma BeforeTwice(a: Bytes, i: nat, b: Bytes, j: nat, r: Option<(Bytes, nat)>)
    ensures Before(a, i, Before(b, j, r)) == Before(a + b, i + j, r)
  {
    if r.Some? {
      Assoc(a, b, r.value.0);
    }
  }

  // ----- framing -----

  predicate IsNumber(b: Bytes) {
    b != [] && forall i :: 0 <= i < |b| ==> 48 <= b[i] <= 57
  }

  function Number(b: Bytes): nat
    requires forall i :: 0 <= i < |b| ==> 48 <= b[i] <= 57
  {
    if b == [] then 0 else 10 * Number(b[..|b| - 1]) + (b[|b| - 1] - 48)
  }

  /** Content-Length and Transfer-Encoding as seen so far. */
  datatype Seen = Seen(length: Option<nat>, te: Option<Bytes>)

  predicate FramingName(lower: Bytes) {
    lower == Ascii("content-length") || lower == Ascii("transfer-encoding") || lower == Ascii("upgrade")
  }

  /** One line, whatever it is: only three names matter, and an upgrade is refused. */
  function See(seen: Seen, piece: Bytes): Option<Seen> {
    var p := Find(piece, COLON);
    if p == |piece| || !FramingName(Lower(piece[..p])) then Some(seen)
    else SeeField(seen, Lower(piece[..p]), piece[p + 1..])
  }

  function SeeField(seen: Seen, lower: Bytes, raw: Bytes): Option<Seen> {
    if !Utf8(raw) then None
    else
      var value := Trim(raw);
      if lower == Ascii("content-length") then
        if seen.length.None? && IsNumber(value) && Number(value) < WORD
        then Some(seen.(length := Some(Number(value))))
        else None
      else if lower == Ascii("transfer-encoding") then
        if seen.te.None? then Some(seen.(te := Some(Lower(value)))) else None
      else None
  }

  function SeeAll(seen: Seen, pieces: seq<Bytes>): Option<Seen>
    decreases |pieces|
  {
    if pieces == [] then Some(seen)
    else
      match See(seen, pieces[0])
      case None => None
      case Some(s) => SeeAll(s, pieces[1..])
  }

  const NOTHING: Seen := Seen(None, None)

  function Settle(seen: Seen, response: bool, noBody: bool): Option<Body> {
    if seen.length.Some? && seen.te.Some? then None
    else if noBody then Some(Empty)
    else if seen.te.Some? then if seen.te.value == Ascii("chunked") then Some(Chunked) else None
    else if seen.length.Some? then Some(Length(seen.length.value))
    else Some(if response then UntilEof else Empty)
  }

  /** `framing`. */
  function Framing(h: Bytes, response: bool, noBody: bool): Option<Body> {
    match SeeAll(NOTHING, Split(h, LF)[1..])
    case None => None
    case Some(seen) => Settle(seen, response, noBody)
  }

  method FramingLoop(h: Bytes, response: bool, noBody: bool) returns (r: Option<Body>)
    ensures r == Framing(h, response, noBody)
  {
    hide Trim, Find, Lower, Utf8, Number;
    var length: Option<nat> := None;
    var te: Option<Bytes> := None;
    var pieces := Split(h, LF);
    var i := 1;
    while i < |pieces|
      invariant 1 <= i <= |pieces|
      invariant SeeAll(NOTHING, pieces[1..]) == SeeAll(Seen(length, te), pieces[i..])
    {
      assert pieces[i..][0] == pieces[i] && pieces[i..][1..] == pieces[i + 1..];
      var line := pieces[i];
      var p := Find(line, COLON);
      if p < |line| {
        var name := Lower(line[..p]);
        if FramingName(name) {
          var raw := line[p + 1..];
          if !Utf8(raw) {
            return None;
          }
          var value := Trim(raw);
          if name == Ascii("content-length") {
            if length.Some? || !IsNumber(value) || Number(value) >= WORD {
              return None;
            }
            length := Some(Number(value));
          } else if name == Ascii("transfer-encoding") {
            if te.Some? {
              return None;
            }
            te := Some(Lower(value));
          } else {
            return None;
          }
        }
      }
      i := i + 1;
    }
    if length.Some? && te.Some? {
      return None;
    }
    if noBody {
      return Some(Empty);
    }
    if te.Some? {
      return if te.value == Ascii("chunked") then Some(Chunked) else None;
    }
    return Some(if length.Some? then Length(length.value) else if response then UntilEof else Empty);
  }
}
