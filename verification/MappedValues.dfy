/** Which values `Mapping::value` changes, field name by field name, and to what. */
module MappedValues {
  import opened Octets
  import opened Text
  import opened StaticTable
  import opened Characters
  import opened Mapping

  // ----- Authorities and URLs -----

  /** The text of an authority that names `host` at `port`: graphic ASCII without `/`, `?`, `#` and `@`. */
  ghost predicate Names(url: Url, s: Bytes, host: Bytes, port: nat) {
    && (forall c :: c in s ==> 33 <= c <= 126 && c !in [47, 63, 35, 64])
    && url(s).Some? && Lower(url(s).value.0) == host && url(s).value.1 == port
  }

  lemma NamesIff(url: Url, s: Bytes, host: Bytes, port: nat)
    ensures Authority(url, s) == Some((host, port)) <==> Names(url, s, host, port)
  {
  }

  /** A mapping is made of two texts exactly when each names an authority, and keeps what they name. */
  lemma MadeIff(url: Url, m: Mapping)
    ensures Made(url, m) <==>
              && Names(url, m.public, m.publicHost, m.publicPort)
              && Names(url, m.upstream, m.upstreamHost, m.upstreamPort)
  {
    hide Authority, Names;
    NamesIff(url, m.public, m.publicHost, m.publicPort);
    NamesIff(url, m.upstream, m.upstreamHost, m.upstreamPort);
    if Authority(url, m.public).Some? {
      NamesIff(url, m.public, Authority(url, m.public).value.0, Authority(url, m.public).value.1);
    }
  }

  /** A scheme prefix, an authority up to the first `/`, `?` or `#`, and what follows. */
  ghost predicate UrlText(s: Bytes, scheme: Bytes, a: Bytes, tail: Bytes) {
    && s == scheme + a + tail && (scheme == Ascii("https://") || scheme == Ascii("//"))
    && 47 !in a && 63 !in a && 35 !in a && (tail != [] ==> tail[0] == 47 || tail[0] == 63 || tail[0] == 35)
  }

  lemma UrlTextIs(s: Bytes, scheme: Bytes, a: Bytes, tail: Bytes)
    requires UrlText(s, scheme, a, tail)
    ensures UrlIs(s, |scheme|, a, tail) && s[..|scheme|] == scheme
  {
    var https, slashes := Ascii("https://"), Ascii("//");
    assert s[..|scheme|] == scheme && s[0] == scheme[0];
    assert https[0] != slashes[0];
    assert scheme <= s;
  }

  /** A URL whose authority names the expected one has it replaced; any other, and any other text, stays. */
  lemma UrlMapped(url: Url, m: Mapping, s: Bytes, scheme: Bytes, a: Bytes, tail: Bytes, response: bool)
    requires UrlText(s, scheme, a, tail)
    ensures MapUrl(url, m, s, response)
            == if response then
                 if Names(url, a, m.upstreamHost, m.upstreamPort) then scheme + m.public + tail else s
               else if Names(url, a, m.publicHost, m.publicPort) then scheme + m.upstream + tail else s
  {
    hide MapUrl, Authority, Names;
    UrlTextIs(s, scheme, a, tail);
    MapUrlIs(url, m, s, |scheme|, a, tail, response);
    NamesIff(url, a, m.upstreamHost, m.upstreamPort);
    NamesIff(url, a, m.publicHost, m.publicPort);
  }

  lemma OtherTextKept(url: Url, m: Mapping, s: Bytes, response: bool)
    requires !(Ascii("https://") <= s) && !(Ascii("//") <= s)
    ensures MapUrl(url, m, s, response) == s
  {
  }

  // ----- Cookie attributes -----

  /** `v` is the upstream host, after any dots. */
  ghost predicate DotsThenHost(m: Mapping, v: Bytes) {
    exists dots: Bytes, host: Bytes ::
      && v == dots + host && (forall c :: c in dots ==> c == 46) && (host != [] ==> host[0] != 46)
      && Lower(host) == Lower(m.upstreamHost)
  }

  lemma DotsThenHostIff(m: Mapping, raw: Bytes)
    ensures NamesUpstream(m, raw) <==> DotsThenHost(m, Trim(raw))
  {
    hide Trim, Lower;
    var v := Trim(raw);
    var n := Lead(v, IsDot);
    if NamesUpstream(m, raw) {
      assert v == v[..n] + v[n..];
      assert forall c :: c in v[..n] ==> c == 46;
    }
    forall dots: Bytes, host: Bytes | v == dots + host && (forall c :: c in dots ==> c == 46)
                                      && (host != [] ==> host[0] != 46) && Lower(host) == Lower(m.upstreamHost)
      ensures NamesUpstream(m, raw)
    {
      assert forall i :: 0 <= i < |dots| ==> v[i] == dots[i] && dots[i] in dots;
      LeadIs(v, IsDot, |dots|);
      assert v[|dots|..] == host;
    }
  }

  /**
   A Domain attribute that names the upstream host comes out with the public host, after one dot if there
   was any, between the same white space.
   */
  lemma DomainMapped(m: Mapping, name: Bytes, a: Bytes, v: Bytes, b: Bytes)
    requires 61 !in name && Lower(Trim(name)) == Ascii("domain")
    requires WhiteText(a) && WhiteText(b) && Trimmed(v) && v != [] && DotsThenHost(m, v)
    ensures MapPart(m, name + [61] + (a + v + b))
            == name + [61] + (a + (if v[0] == 46 then [46] else []) + m.publicHost + b)
  {
    hide Trim, TrimStart, TrimEnd, Trimmed, WhiteText, DotsThenHost, NamesUpstream, Find;
    var raw := a + v + b;
    var part := name + [61] + raw;
    TrimIs(a, v, b);
    assert part == name + ([61] + raw) && part[|name|] == 61;
    FindFirst(part, EQUALS, |name|);
    assert part[..|name|] == name && part[|name| + 1..] == raw && part[..|name| + 1] == name + [61];
    DotsThenHostIff(m, raw);
    assert StartSpace(raw) == a by {
      Assoc(a, v, b);
      assert raw[..|raw| - |v + b|] == a;
    }
    assert EndSpace(raw) == b;
  }

  /** Every other part of a cookie stays: with no `=`, another name, or another host. */
  lemma PartKept(m: Mapping, part: Bytes, name: Bytes, raw: Bytes)
    requires 61 in part ==>
               && part == name + [61] + raw && 61 !in name
               && !(Lower(Trim(name)) == Ascii("domain") && DotsThenHost(m, Trim(raw)))
    ensures MapPart(m, part) == part
  {
    hide Trim, DotsThenHost, NamesUpstream, Lower;
    if 61 in part {
      assert part[|name|] == 61;
      FindFirst(part, EQUALS, |name|);
      assert part[..|name|] == name && part[|name| + 1..] == raw;
      DotsThenHostIff(m, raw);
    }
  }

  // ----- Values -----

  /** `value` is text between blanks. */
  ghost predicate Between(value: Bytes, a: Bytes, s: Bytes, b: Bytes) {
    && value == a + s + b && (forall c :: c in a + b ==> c == 32 || c == 9)
    && (s == [] ==> b == []) && (s != [] ==> s[0] !in [32, 9] && s[|s| - 1] !in [32, 9])
  }

  /** What a value may be to be mapped at all: UTF-8, and either empty or more than blanks. */
  ghost predicate Mappable(value: Bytes, s: Bytes) {
    IsText(value) && (s != [] || value == [])
  }

  lemma Slices(a: Bytes, s: Bytes, b: Bytes)
    ensures var v := a + s + b; v[..|a|] == a && v[|a|..|a| + |s|] == s && v[|a| + |s|..] == b
  {
  }

  ghost predicate AreBlank(b: Bytes) {
    forall i :: 0 <= i < |b| ==> Blank(b[i])
  }

  lemma BlankEnds(value: Bytes, a: Bytes, s: Bytes, b: Bytes)
    requires Between(value, a, s, b)
    ensures AreBlank(a) && AreBlank(b)
  {
    forall i | 0 <= i < |a| ensures Blank(a[i]) {
      assert a[i] in a + b;
    }
    forall i | 0 <= i < |b| ensures Blank(b[i]) {
      assert b[i] in a + b;
    }
  }

  lemma LeadBetween(a: Bytes, rest: Bytes)
    requires AreBlank(a) && (rest != [] ==> !Blank(rest[0]))
    ensures Lead(a + rest, Blank) == |a|
  {
    LeadIs(a + rest, Blank, |a|);
  }

  lemma TrailBetween(rest: Bytes, b: Bytes)
    requires AreBlank(b) && (rest != [] ==> !Blank(rest[|rest| - 1]))
    ensures Trail(rest + b, Blank) == |b|
  {
    TrailIs(rest + b, Blank, |b|);
  }

  lemma TextBetween(a: Bytes, s: Bytes, b: Bytes)
    requires AreBlank(a) && AreBlank(b) && s != [] && !Blank(s[0]) && !Blank(s[|s| - 1])
    ensures Lead(a + s + b, Blank) == |a| && Trail(a + s + b, Blank) == |b|
  {
    hide AreBlank, Lead, Trail;
    Assoc(a, s, b);
    LeadBetween(a, s + b);
    TrailBetween(a + s, b);
  }

  lemma NothingBetween(a: Bytes)
    requires AreBlank(a)
    ensures Lead(a, Blank) == |a| && Trail(a, Blank) == |a|
  {
    hide AreBlank, Lead, Trail;
    assert a + [] == a == [] + a;
    LeadBetween(a, []);
    TrailBetween([], a);
  }

  lemma BetweenIs(value: Bytes, a: Bytes, s: Bytes, b: Bytes)
    requires Between(value, a, s, b)
    ensures var (i, j) := (Lead(value, Blank), |value| - Trail(value, Blank));
            && (s != [] || value == [] ==> i == |a| && j == |a| + |s|)
            && (s == [] && value != [] ==> j < i)
            && value[..|a|] == a && value[|a|..|a| + |s|] == s && value[|a| + |s|..] == b
  {
    hide AreBlank, Lead, Trail;
    BlankEnds(value, a, s, b);
    Slices(a, s, b);
    if s != [] {
      TextBetween(a, s, b);
    } else {
      assert value == a;
      NothingBetween(a);
    }
  }

  /** A value of a field that is mapped, for any mapping of the text between the blanks. */
  lemma RelevantValue(url: Url, m: Mapping, name: Bytes, value: Bytes, a: Bytes, s: Bytes, b: Bytes, response: bool)
    requires Between(value, a, s, b) && Relevant(Lower(name), response)
    ensures Value(url, m, name, value, response)
            == if !Mappable(value, s) then None
               else
                 match MapTrimmed(url, m, Lower(name), s, response)
                 case None => None
                 case Some(x) => Some(a + x + b)
  {
    hide Utf8, Lead, Trail, MapTrimmed, IsText, Relevant;
    Utf8Iff(value);
    BetweenIs(value, a, s, b);
    var i, j := Lead(value, Blank), |value| - Trail(value, Blank);
    if Mappable(value, s) {
      assert value[..i] == a && value[i..j] == s && value[j..] == b;
    } else if Utf8(value) {
      assert j < i;
    }
  }

  lemma NamesDiffer()
    ensures Ascii("set-cookie") != Ascii(":authority")
  {
    assert Ascii("set-cookie")[0] == 115 && Ascii(":authority")[0] == 58;
  }

  /** Over all field names: which values are mapped, how, and that all others pass as they are. */
  lemma ValueByName(url: Url, m: Mapping, name: Bytes, value: Bytes, a: Bytes, s: Bytes, b: Bytes, response: bool)
    requires Between(value, a, s, b)
    ensures var n := Lower(name);
            Value(url, m, name, value, response)
            == if !response && n in [Ascii("host"), Ascii(":authority")] then
                 if Mappable(value, s) && Names(url, s, m.publicHost, m.publicPort) then Some(a + m.upstream + b)
                 else None
               else if n in (if response then [Ascii("location")] else [Ascii("origin"), Ascii("referer")]) then
                 if Mappable(value, s) then Some(a + MapUrl(url, m, s, response) + b) else None
               else if response && n == Ascii("set-cookie") then
                 if Mappable(value, s) then Some(a + MapCookie(m, s) + b) else None
               else Some(value)
  {
    hide Mappable, MapUrl, MapCookie, Authority, Names, Lower;
    NamesDiffer();
    if Relevant(Lower(name), response) {
      NamesIff(url, s, m.publicHost, m.publicPort);
      RelevantValue(url, m, name, value, a, s, b, response);
      hide Value, Between;
    } else {
      hide Between;
    }
  }
}
