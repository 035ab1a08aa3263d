/** Which field values the bridge rewrites, and how (src/rewrite.rs). */
module Mapping {
  import opened Octets
  import opened Text
  import opened StaticTable

  /** The URL parser: host and port of `https://s/`, or an error. */
  type Url = Bytes -> Option<(Bytes, nat)>

  /** What the URL standard promises of a host: never empty, and graphic ASCII. */
  ghost predicate Standard(url: Url) {
    && url([]).None?
    && forall s :: url(s).Some? ==> url(s).value.0 != [] && forall c :: c in url(s).value.0 ==> 32 < c < 127
  }

  const COLON: Byte := 58
  const SEMICOLON: Byte := 59
  const EQUALS: Byte := 61
  const DOT: Byte := 46
  const BACKSLASH: Byte := 92

  /** An octet that ends an authority: `/`, `?` or `#`. */
  predicate Delimits(c: Byte) {
    c == 47 || c == 63 || c == 35
  }

  predicate Inside(c: Byte) {
    !Delimits(c)
  }

  predicate IsDot(c: Byte) {
    c == DOT
  }

  predicate AuthorityOctet(c: Byte) {
    32 < c < 127 && !Delimits(c) && c != 64
  }

  /** The host in lower case and the port that `s` names. */
  function Authority(url: Url, s: Bytes): Option<(Bytes, nat)> {
    if exists c :: c in s && !AuthorityOctet(c) then None
    else
      match url(s)
      case None => None
      case Some(a) => Some((Lower(a.0), a.1))
  }

  datatype Mapping = Mapping(public: Bytes, upstream: Bytes, publicHost: Bytes, publicPort: nat,
                             upstreamHost: Bytes, upstreamPort: nat)

  /** `Mapping::new`. */
  function New(url: Url, public: Bytes, upstream: Bytes): Option<Mapping> {
    match (Authority(url, public), Authority(url, upstream))
    case (Some(p), Some(u)) => Some(Mapping(public, upstream, p.0, p.1, u.0, u.1))
    case _ => None
  }

  ghost predicate Made(url: Url, m: Mapping) {
    New(url, m.public, m.upstream) == Some(m)
  }

  predicate IsPublic(url: Url, m: Mapping, s: Bytes) {
    Authority(url, s) == Some((m.publicHost, m.publicPort))
  }

  predicate IsUpstream(url: Url, m: Mapping, s: Bytes) {
    Authority(url, s) == Some((m.upstreamHost, m.upstreamPort))
  }

  // ----- URLs -----

  /** Octets before the authority of an absolute or scheme-relative URL. */
  function SchemeLength(s: Bytes): (n: Option<nat>)
    ensures n.Some? ==> n.value <= |s|
  {
    if Ascii("https://") <= s then Some(8)
    else if Ascii("//") <= s then Some(2)
    else None
  }

  function AuthorityEnd(s: Bytes, begin: nat): (n: nat)
    requires begin <= |s|
    ensures begin <= n <= |s|
  {
    begin + Lead(s[begin..], Inside)
  }

  predicate Expected(url: Url, m: Mapping, s: Bytes, response: bool) {
    if response then IsUpstream(url, m, s) else IsPublic(url, m, s)
  }

  function Target(m: Mapping, response: bool): Bytes {
    if response then m.public else m.upstream
  }

  function MapUrl(url: Url, m: Mapping, s: Bytes, response: bool): Bytes {
    match SchemeLength(s)
    case None => s
    case Some(begin) =>
      var end := AuthorityEnd(s, begin);
      if Expected(url, m, s[begin..end], response) then s[..begin] + Target(m, response) + s[end..] else s
  }

  // ----- Cookies -----

  /** The attribute value `raw` is the upstream host, after any dots. */
  predicate NamesUpstream(m: Mapping, raw: Bytes) {
    var v := Trim(raw);
    EqualIgnoreCase(v[Lead(v, IsDot)..], m.upstreamHost)
  }

  /** The public host in place of the upstream one, with one dot if there was any and the white space kept. */
  function PublicDomain(m: Mapping, raw: Bytes): Bytes {
    var v := Trim(raw);
    StartSpace(raw) + (if v != [] && v[0] == DOT then [DOT] else []) + m.publicHost + EndSpace(raw)
  }

  /** `part`, the text between semicolons, is a Domain attribute that names the upstream host. */
  predicate UpstreamDomain(m: Mapping, part: Bytes) {
    var eq := Find(part, EQUALS);
    eq < |part| && Lower(Trim(part[..eq])) == Ascii("domain") && NamesUpstream(m, part[eq + 1..])
  }

  function MapPart(m: Mapping, part: Bytes): Bytes {
    if UpstreamDomain(m, part)
    then var eq := Find(part, EQUALS); part[..eq + 1] + PublicDomain(m, part[eq + 1..])
    else part
  }

  function MapParts(m: Mapping, parts: seq<Bytes>): (r: seq<Bytes>)
    ensures |r| == |parts| && forall i :: 0 <= i < |parts| ==> r[i] == MapPart(m, parts[i])
  {
    seq(|parts|, i requires 0 <= i < |parts| => MapPart(m, parts[i]))
  }

  /** A cookie: its first pair as it is, its attributes mapped. */
  function MapCookie(m: Mapping, s: Bytes): Bytes {
    var parts := Split(s, SEMICOLON);
    Join([parts[0]] + MapParts(m, parts[1..]), SEMICOLON)
  }

  /** `part.find('=')`, trimmed comparisons and pushes of the set-cookie loop. */
  method CookieLoop(m: Mapping, s: Bytes) returns (out: Bytes)
    ensures out == MapCookie(m, s)
  {
    hide MapPart;
    var parts := Split(s, SEMICOLON);
    out := parts[0];
    ghost var done := [parts[0]];
    var i := 1;
    while i < |parts|
      invariant 1 <= i <= |parts| && done == [parts[0]] + MapParts(m, parts[1..])[..i - 1]
      invariant out == Join(done, SEMICOLON)
    {
      var piece := PartLoop(m, parts[i]);
      JoinSnoc(done, piece, SEMICOLON);
      out := out + [SEMICOLON] + piece;
      done := done + [piece];
      i := i + 1;
    }
    assert MapParts(m, parts[1..])[..i - 1] == MapParts(m, parts[1..]);
  }

  method PartLoop(m: Mapping, part: Bytes) returns (out: Bytes)
    ensures out == MapPart(m, part)
  {
    hide Trim, TrimStart, TrimEnd, Lower, Lead, Find;
    var eq := Find(part, EQUALS);
    if eq < |part| && Lower(Trim(part[..eq])) == Ascii("domain") {
      var raw := part[eq + 1..];
      var v := Trim(raw);
      if EqualIgnoreCase(v[Lead(v, IsDot)..], m.upstreamHost) {
        out := raw[..|raw| - |TrimStart(raw)|];
        if v != [] && v[0] == DOT {
          out := out + [DOT];
        }
        out := out + m.publicHost;
        out := out + raw[|TrimEnd(raw)|..];
        assert out == PublicDomain(m, raw);
        out := part[..eq + 1] + out;
        return;
      }
    }
    out := part;
  }

  lemma {:induction false} JoinSnoc(pieces: seq<Bytes>, p: Bytes, c: Byte)
    requires pieces != []
    ensures Join(pieces + [p], c) == Join(pieces, c) + [c] + p
  {
    var all := pieces + [p];
    if |pieces| == 1 {
      assert all[1..] == [p];
    } else {
      JoinSnoc(pieces[1..], p, c);
      assert all[1..] == pieces[1..] + [p];
    }
  }

  // ----- Values -----

  predicate IsAuthorityField(lower: Bytes) {
    lower == Ascii("host") || lower == Ascii(":authority")
  }

  predicate Relevant(lower: Bytes, response: bool) {
    if response then lower == Ascii("set-cookie") || lower == Ascii("location")
    else IsAuthorityField(lower) || lower == Ascii("origin") || lower == Ascii("referer")
  }

  /** A relevant value between its blanks. */
  function MapTrimmed(url: Url, m: Mapping, lower: Bytes, s: Bytes, response: bool): Option<Bytes> {
    if IsAuthorityField(lower) then if IsPublic(url, m, s) then Some(m.upstream) else None
    else if lower == Ascii("set-cookie") then Some(MapCookie(m, s))
    else Some(MapUrl(url, m, s, response))
  }

  /** `Mapping::value`. */
  function Value(url: Url, m: Mapping, name: Bytes, value: Bytes, response: bool): Option<Bytes> {
    if !Relevant(Lower(name), response) then Some(value)
    else if !Utf8(value) then None
    else
      var leading := Lead(value, Blank);
      var end := |value| - Trail(value, Blank);
      if end < leading then None
      else
        match MapTrimmed(url, m, Lower(name), value[leading..end], response)
        case None => None
        case Some(x) => Some(value[..leading] + x + value[end..])
  }

  // ----- URLs: only the authority changes, and when the way back restores it -----

  /** `s` is a scheme prefix, an authority and what follows it. */
  ghost predicate UrlIs(s: Bytes, begin: nat, a: Bytes, tail: Bytes) {
    && SchemeLength(s) == Some(begin) && s == s[..begin] + a + tail
    && (forall c :: c in a ==> !Delimits(c)) && (tail != [] ==> Delimits(tail[0]))
  }

  lemma UrlParts(s: Bytes)
    requires SchemeLength(s).Some?
    ensures var begin := SchemeLength(s).value; var end := AuthorityEnd(s, begin);
            UrlIs(s, begin, s[begin..end], s[end..])
  {
    var begin := SchemeLength(s).value;
    var end := AuthorityEnd(s, begin);
    assert s == s[..begin] + s[begin..end] + s[end..];
    assert end < |s| ==> s[end] == s[begin..][end - begin];
  }

  lemma UrlUnique(s: Bytes, begin: nat, a: Bytes, tail: Bytes)
    requires UrlIs(s, begin, a, tail)
    ensures AuthorityEnd(s, begin) == begin + |a| && s[begin..begin + |a|] == a && s[begin + |a|..] == tail
  {
    assert s[begin..] == a + tail && s[begin..begin + |a|] == a;
    LeadIs(a + tail, Inside, |a|);
  }

  lemma MapUrlIs(url: Url, m: Mapping, s: Bytes, begin: nat, a: Bytes, tail: Bytes, response: bool)
    requires UrlIs(s, begin, a, tail)
    ensures MapUrl(url, m, s, response)
            == s[..begin] + (if Expected(url, m, a, response) then Target(m, response) else a) + tail
  {
    UrlUnique(s, begin, a, tail);
  }

  lemma AuthorityText(url: Url, s: Bytes)
    requires Authority(url, s).Some?
    ensures forall c :: c in s ==> AuthorityOctet(c)
  {
  }

  /** Another authority in place of the first. */
  lemma UrlReplaced(url: Url, s: Bytes, begin: nat, a: Bytes, tail: Bytes, b: Bytes)
    requires UrlIs(s, begin, a, tail) && Authority(url, b).Some?
    ensures UrlIs(s[..begin] + b + tail, begin, b, tail)
  {
    var t := s[..begin] + b + tail;
    AuthorityText(url, b);
    assert t[..begin] == s[..begin];
    var https, slashes := Ascii("https://"), Ascii("//");
    if begin == 8 {
      assert https <= s && t[..8] == s[..8] == https;
    } else {
      assert slashes <= s && t[..2] == s[..2] == slashes;
      assert s[0] == slashes[0] && t[0] == s[0] && https[0] != slashes[0];
    }
  }

  /**
   A URL the bridge maps on the way to the upstream comes back as it was exactly when its authority, if it
   is the public or the upstream one, is spelled as configured.
   */
  lemma UrlRoundTrip(url: Url, m: Mapping, s: Bytes, begin: nat, a: Bytes, tail: Bytes)
    requires Made(url, m) && UrlIs(s, begin, a, tail)
    ensures MapUrl(url, m, MapUrl(url, m, s, false), true) == s
            <==> (IsPublic(url, m, a) || IsUpstream(url, m, a) ==> a == m.public)
  {
    hide MapUrl, UrlIs, Authority;
    MapUrlIs(url, m, s, begin, a, tail, false);
    UrlText(s, begin, a, tail);
    var t := MapUrl(url, m, s, false);
    if IsPublic(url, m, a) {
      UrlReplaced(url, s, begin, a, tail, m.upstream);
      MapUrlIs(url, m, t, begin, m.upstream, tail, true);
      UrlText(t, begin, m.upstream, tail);
      assert t[..begin] == s[..begin];
      SameMiddle(s[..begin], a, m.public, tail);
    } else {
      MapUrlIs(url, m, s, begin, a, tail, true);
      SameMiddle(s[..begin], a, m.public, tail);
    }
  }

  lemma UrlText(s: Bytes, begin: nat, a: Bytes, tail: Bytes)
    requires UrlIs(s, begin, a, tail)
    ensures s == s[..begin] + a + tail && begin <= |s|
  {
  }

  lemma SameMiddle(p: Bytes, a: Bytes, b: Bytes, q: Bytes)
    ensures p + a + q == p + b + q <==> a == b
  {
    if p + a + q == p + b + q {
      assert (p + a + q)[|p|..|p| + |a|] == a && (p + b + q)[|p|..|p| + |b|] == b;
    }
  }

  /** A mapped URL names the target, and only a URL that named the expected authority is changed. */
  lemma MapUrlNames(url: Url, m: Mapping, s: Bytes, begin: nat, a: Bytes, tail: Bytes, response: bool)
    requires Made(url, m) && UrlIs(s, begin, a, tail)
    ensures var t := MapUrl(url, m, s, response);
            if Expected(url, m, a, response)
            then UrlIs(t, begin, Target(m, response), tail) && t[..begin] == s[..begin]
                 && Expected(url, m, Target(m, response), !response)
            else t == s
  {
    hide MapUrl, Authority;
    MapUrlIs(url, m, s, begin, a, tail, response);
    if Expected(url, m, a, response) {
      UrlReplaced(url, s, begin, a, tail, Target(m, response));
    }
  }

  /**
   A URL parser for https ends the authority at a backslash too, and reads what follows as path. When a URL
   is mapped, all that follows the authority in that reading stays exactly when the text the code takes for
   the authority has no backslash.
   */
  lemma MapUrlKeepsRest(url: Url, m: Mapping, s: Bytes, begin: nat, a: Bytes, tail: Bytes, response: bool)
    requires UrlIs(s, begin, a, tail) && Expected(url, m, a, response)
    ensures MapUrl(url, m, s, response) == s[..begin] + Target(m, response) + (a[Find(a, BACKSLASH)..] + tail)
            <==> BACKSLASH !in a
  {
    hide MapUrl, Expected;
    MapUrlIs(url, m, s, begin, a, tail, response);
    var head, rest := s[..begin] + Target(m, response), a[Find(a, BACKSLASH)..];
    if BACKSLASH in a {
      assert |head + tail| < |head + (rest + tail)|;
    } else {
      assert rest + tail == tail;
    }
  }

  /** One such URL: between the authority and the delimiter stands what is lost. */
  lemma BackslashLost(url: Url, m: Mapping)
    requires Made(url, m) && url(m.public + Ascii("\\x")) == url(m.public)
    ensures MapUrl(url, m, Ascii("https://") + m.public + Ascii("\\x/y"), false)
            == Ascii("https://") + m.upstream + Ascii("/y")
  {
    var begin, lost, tail := Ascii("https://"), Ascii("\\x"), Ascii("/y");
    var a := m.public + lost;
    var s := begin + a + tail;
    AuthorityText(url, m.public);
    assert Ascii("\\x/y") == lost + tail;
    assert s == begin + m.public + Ascii("\\x/y");
    assert s[..8] == begin;
    assert forall c :: c in a ==> AuthorityOctet(c);
    assert IsPublic(url, m, a);
    MapUrlIs(url, m, s, 8, a, tail, false);
  }
}
