/** What the mapped values mean, and what the header rewriter does with this mapping over a connection. */
module MappingTheorems {
  import opened Octets
  import opened Text
  import opened StaticTable
  import opened Mapping
  import HpackReference
  import HpackTable
  import RewriteKept
  import RewriteMeaning
  import RewriteRuns
  import RewriteSpec
  import RewriteTheorems

  // ----- Cookies -----

  lemma SameFront(a: Bytes, b: Bytes)
    requires SpaceAtFront(a) > 0 && a[..SpaceAtFront(a)] <= b
    ensures SpaceAtFront(b) == SpaceAtFront(a)
  {
    var n := SpaceAtFront(a);
    assert forall i :: 0 <= i < n ==> b[i] == a[..n][i];
  }

  lemma SameBack(a: Bytes, b: Bytes)
    requires SpaceAtBack(a) > 0 && |b| >= SpaceAtBack(a) && a[|a| - SpaceAtBack(a)..] == b[|b| - SpaceAtBack(a)..]
    ensures SpaceAtBack(b) == SpaceAtBack(a)
  {
    var n := SpaceAtBack(a);
    var x, z := a[|a| - n..], b[|b| - n..];
    assert x[n - 1] == a[|a| - 1] && z[n - 1] == b[|b| - 1];
    assert n >= 2 ==> x[n - 2] == a[|a| - 2] && z[n - 2] == b[|b| - 2];
    assert n >= 3 ==> x[n - 3] == a[|a| - 3] && z[n - 3] == b[|b| - 3];
  }

  /** The white space taken from the front of `raw` is taken from the front of anything it precedes. */
  lemma {:induction false} StartTaken(raw: Bytes, y: Bytes)
    ensures TrimStart(StartSpace(raw) + y) == TrimStart(y)
    decreases |raw|
  {
    hide SpaceAtFront;
    var n := SpaceAtFront(raw);
    if n == 0 {
      assert StartSpace(raw) + y == y;
    } else {
      var rest := raw[n..];
      var b := StartSpace(raw) + y;
      assert StartSpace(raw) == raw[..n] + StartSpace(rest);
      Assoc(raw[..n], StartSpace(rest), y);
      assert raw[..n] <= b;
      SameFront(raw, b);
      assert b[n..] == StartSpace(rest) + y;
      StartTaken(rest, y);
    }
  }

  lemma {:induction false} EndTaken(raw: Bytes, y: Bytes)
    ensures TrimEnd(y + EndSpace(raw)) == TrimEnd(y)
    decreases |raw|
  {
    hide SpaceAtBack;
    var n := SpaceAtBack(raw);
    if n == 0 {
      assert y + EndSpace(raw) == y;
    } else {
      var k := |raw| - n;
      var rest := raw[..k];
      var b := y + EndSpace(raw);
      assert EndSpace(raw) == EndSpace(rest) + raw[k..];
      Assoc(y, EndSpace(rest), raw[k..]);
      assert b[|b| - n..] == raw[k..];
      SameBack(raw, b);
      assert b[..|b| - n] == y + EndSpace(rest);
      EndTaken(rest, y);
    }
  }

  ghost predicate Graphic(b: Bytes) {
    b != [] && forall c :: c in b ==> 32 < c < 127
  }

  lemma GraphicFront(b: Bytes, tail: Bytes)
    requires Graphic(b)
    ensures TrimStart(b + tail) == b + tail
  {
    assert (b + tail)[0] == b[0] && b[0] in b;
    assert SpaceAtFront(b + tail) == 0;
    hide SpaceAtFront;
  }

  lemma GraphicEnd(a: Bytes, b: Bytes)
    requires Graphic(b)
    ensures TrimEnd(a + b) == a + b
  {
    assert (a + b)[|a + b| - 1] == b[|b| - 1] && b[|b| - 1] in b;
    assert SpaceAtBack(a + b) == 0;
    hide SpaceAtBack;
  }

  function DotOf(m: Mapping, raw: Bytes): Bytes {
    if Trim(raw) != [] && Trim(raw)[0] == DOT then [DOT] else []
  }

  lemma NewDomain(m: Mapping, raw: Bytes) returns (x: Bytes)
    requires Graphic(m.publicHost)
    ensures x == DotOf(m, raw) + m.publicHost && Graphic(x)
    ensures PublicDomain(m, raw) == StartSpace(raw) + (x + EndSpace(raw)) == (StartSpace(raw) + x) + EndSpace(raw)
    ensures TrimStart(PublicDomain(m, raw)) == x + EndSpace(raw)
    ensures TrimEnd(PublicDomain(m, raw)) == StartSpace(raw) + x
    ensures TrimEnd(x + EndSpace(raw)) == x
  {
    hide TrimStart, TrimEnd, StartSpace, EndSpace, SpaceAtFront, SpaceAtBack;
    x := DotOf(m, raw) + m.publicHost;
    assert forall c :: c in x ==> c == DOT || c in m.publicHost;
    Assoc(StartSpace(raw), DotOf(m, raw), m.publicHost);
    Assoc(StartSpace(raw), x, EndSpace(raw));
    StartTaken(raw, x + EndSpace(raw));
    GraphicFront(x, EndSpace(raw));
    EndTaken(raw, StartSpace(raw) + x);
    GraphicEnd(StartSpace(raw), x);
    EndTaken(raw, x);
    GraphicEnd([], x);
    assert [] + x == x;
  }

  /** Without its white space, the new attribute value is the public host, after a dot if there was one. */
  lemma DomainMeaning(m: Mapping, raw: Bytes)
    requires Graphic(m.publicHost)
    ensures Trim(PublicDomain(m, raw)) == DotOf(m, raw) + m.publicHost
  {
    hide TrimStart, TrimEnd, PublicDomain, StartSpace, EndSpace;
    var x := NewDomain(m, raw);
  }

  /** An attribute once mapped is left alone from then on. */
  lemma PartSettled(m: Mapping, part: Bytes)
    requires Graphic(m.publicHost) && m.publicHost[0] != DOT && Lower(m.publicHost) == m.publicHost
    ensures MapPart(m, MapPart(m, part)) == MapPart(m, part)
  {
    hide Trim, TrimStart, TrimEnd, PublicDomain, Lower, Find;
    if UpstreamDomain(m, part) {
      var eq := Find(part, EQUALS);
      var raw := part[eq + 1..];
      var raw' := PublicDomain(m, raw);
      var part' := MapPart(m, part);
      assert part' == part[..eq + 1] + raw' && part'[..eq] == part[..eq] && part'[eq + 1..] == raw';
      assert forall k :: 0 <= k < eq ==> part'[k] == part[k];
      FindFirst(part', EQUALS, eq);
      DomainMeaning(m, raw);
      DotThenHost(m, DotOf(m, raw));
      if UpstreamDomain(m, part') {
        SameDomain(m, raw);
      }
    }
  }

  lemma DotThenHost(m: Mapping, dot: Bytes)
    requires m.publicHost != [] && m.publicHost[0] != DOT && (dot == [] || dot == [DOT])
    ensures (dot + m.publicHost)[Lead(dot + m.publicHost, IsDot)..] == m.publicHost
  {
    LeadIs(dot + m.publicHost, IsDot, |dot|);
  }

  /** Mapping a mapped value again writes the same host between the same white space. */
  lemma SameDomain(m: Mapping, raw: Bytes)
    requires Graphic(m.publicHost) && m.publicHost[0] != DOT
    ensures PublicDomain(m, PublicDomain(m, raw)) == PublicDomain(m, raw)
  {
    hide TrimStart, TrimEnd, SpaceAtFront, SpaceAtBack;
    var x := NewDomain(m, raw);
    var raw' := PublicDomain(m, raw);
    var y := NewDomain(m, raw');
    assert StartSpace(raw') == StartSpace(raw) && EndSpace(raw') == EndSpace(raw);
    assert DotOf(m, raw') == DotOf(m, raw);
  }

  /**
   Read back by its semicolons, a mapped cookie is its first pair, untouched, and each attribute mapped by
   itself, in order.
   */
  lemma CookieParts(m: Mapping, s: Bytes)
    requires SEMICOLON !in m.publicHost
    ensures var parts := Split(s, SEMICOLON);
            Split(MapCookie(m, s), SEMICOLON) == [parts[0]] + MapParts(m, parts[1..])
  {
    hide MapPart;
    var parts := Split(s, SEMICOLON);
    JoinOfSplit(s, SEMICOLON);
    var mapped := [parts[0]] + MapParts(m, parts[1..]);
    forall i | 0 <= i < |mapped| ensures SEMICOLON !in mapped[i] {
      if i > 0 {
        assert mapped[i] == MapPart(m, parts[i]);
        PartWithout(m, parts[i], SEMICOLON);
      }
    }
    SplitOfJoin(mapped, SEMICOLON);
  }

  lemma PartWithout(m: Mapping, part: Bytes, c: Byte)
    requires c !in part && c !in m.publicHost && c != DOT
    ensures c !in MapPart(m, part)
  {
    hide Trim, TrimStart, TrimEnd, Find;
  }

  /** Mapping a mapped cookie changes nothing. */
  lemma CookieSettled(m: Mapping, s: Bytes)
    requires Graphic(m.publicHost) && m.publicHost[0] != DOT && Lower(m.publicHost) == m.publicHost
    requires SEMICOLON !in m.publicHost
    ensures MapCookie(m, MapCookie(m, s)) == MapCookie(m, s)
  {
    hide MapPart;
    CookieParts(m, s);
    var parts := Split(s, SEMICOLON);
    var mapped := MapParts(m, parts[1..]);
    forall i | 0 <= i < |mapped| ensures MapPart(m, mapped[i]) == mapped[i] {
      PartSettled(m, parts[1..][i]);
    }
    assert MapParts(m, mapped) == mapped;
    assert ([parts[0]] + mapped)[1..] == mapped;
  }

  // ----- Values -----

  lemma {:induction false} JoinWithout(pieces: seq<Bytes>, c: Byte, x: Byte)
    requires Without(pieces, x) && x != c
    ensures x !in Join(pieces, c)
    decreases |pieces|
  {
    if |pieces| > 1 {
      JoinWithout(pieces[1..], c, x);
    }
  }

  lemma CookieWithout(m: Mapping, s: Bytes, c: Byte)
    requires c !in s && c !in m.publicHost && c != DOT && c != SEMICOLON
    ensures c !in MapCookie(m, s)
  {
    hide MapPart;
    var parts := Split(s, SEMICOLON);
    SplitWithout(s, SEMICOLON, c);
    var mapped := [parts[0]] + MapParts(m, parts[1..]);
    forall i | 0 <= i < |mapped| ensures c !in mapped[i] {
      if i > 0 {
        assert mapped[i] == MapPart(m, parts[i]);
        PartWithout(m, parts[i], c);
      }
    }
    JoinWithout(mapped, SEMICOLON, c);
  }

  lemma {:induction false} SplitWithout(b: Bytes, c: Byte, x: Byte)
    requires x !in b
    ensures Without(Split(b, c), x)
    decreases |b|
  {
    var i := Find(b, c);
    if i < |b| {
      SplitWithout(b[i + 1..], c, x);
    }
  }

  /** No line break comes with a mapped value that was not in the value. */
  lemma ValueWithout(url: Url, m: Mapping, name: Bytes, value: Bytes, response: bool, c: Byte)
    requires Standard(url) && Made(url, m) && c < 32 && c !in value && Value(url, m, name, value, response).Some?
    ensures c !in Value(url, m, name, value, response).value
  {
    hide MapCookie, MapUrl, Utf8;
    MadeIsGraphic(url, m);
    if Relevant(Lower(name), response) {
      var s := value[Lead(value, Blank)..|value| - Trail(value, Blank)];
      assert c !in s;
      CookieWithout(m, s, c);
      UrlWithout(url, m, s, response, c);
    }
  }

  lemma UrlWithout(url: Url, m: Mapping, s: Bytes, response: bool, c: Byte)
    requires c !in s && c !in m.public && c !in m.upstream
    ensures c !in MapUrl(url, m, s, response)
  {
  }

  lemma MadeIsGraphic(url: Url, m: Mapping)
    requires Standard(url) && Made(url, m)
    ensures Graphic(m.publicHost) && Graphic(m.upstreamHost) && Lower(m.publicHost) == m.publicHost
    ensures forall c :: c in m.public || c in m.upstream ==> 32 < c < 127
  {
    AuthorityText(url, m.public);
    AuthorityText(url, m.upstream);
    LowerGraphic(url(m.public).value.0);
    LowerGraphic(url(m.upstream).value.0);
  }

  lemma LowerGraphic(b: Bytes)
    requires Graphic(b)
    ensures Graphic(Lower(b)) && Lower(Lower(b)) == Lower(b)
  {
    assert forall i :: 0 <= i < |b| ==> b[i] in b;
  }

  ghost predicate AllBlank(b: Bytes) {
    forall i :: 0 <= i < |b| ==> Blank(b[i])
  }

  /** A relevant value is mapped between its blanks, which stay. */
  lemma ValueParts(url: Url, m: Mapping, name: Bytes, a: Bytes, s: Bytes, b: Bytes, response: bool)
    requires Relevant(Lower(name), response) && Utf8(a + s + b)
    requires AllBlank(a) && AllBlank(b) && s != [] && !Blank(s[0]) && !Blank(s[|s| - 1])
    ensures Value(url, m, name, a + s + b, response)
            == match MapTrimmed(url, m, Lower(name), s, response)
               case None => None
               case Some(x) => Some(a + x + b)
  {
    hide MapTrimmed, Utf8, Lead, Trail;
    var v := a + s + b;
    LeadIs(v, Blank, |a|);
    TrailIs(v, Blank, |b|);
    assert v[..|a|] == a && v[|a|..|v| - |b|] == s && v[|v| - |b|..] == b;
  }

  /** A request authority passes exactly when it names the public one, and becomes the upstream one. */
  lemma AuthorityMapped(url: Url, m: Mapping, name: Bytes, a: Bytes, s: Bytes, b: Bytes)
    requires IsAuthorityField(Lower(name)) && Utf8(a + s + b)
    requires AllBlank(a) && AllBlank(b) && s != [] && !Blank(s[0]) && !Blank(s[|s| - 1])
    ensures Value(url, m, name, a + s + b, false)
            == if IsPublic(url, m, s) then Some(a + m.upstream + b) else None
  {
    hide Utf8, Authority, MapCookie, MapUrl;
    ValueParts(url, m, name, a, s, b, false);
  }

  // ----- The mapping as the header rewriter uses it -----

  function Map(url: Url, m: Mapping, response: bool): RewriteSpec.ValueMap {
    (name: Bytes, value: Bytes) => Value(url, m, name, value, response)
  }

  lemma EmptyValue(url: Url, m: Mapping, name: Bytes, response: bool)
    requires url([]).None?
    ensures Value(url, m, name, [], response) in {None, Some([])}
  {
    hide MapPart, Join, Split, MapCookie, MapUrl;
    var none: Bytes := [];
    assert none[..0] == none && none[0..0] == none && none[0..] == none;
    EmptyCookie(m);
    EmptyUrl(url, m, response);
    assert MapTrimmed(url, m, Lower(name), none, response) in {None, Some(none)};
  }

  lemma EmptyCookie(m: Mapping)
    ensures MapCookie(m, []) == []
  {
    var none: Bytes := [];
    SplitWhole(none, SEMICOLON);
    assert [none][1..] == [] && MapParts(m, []) == [] && [none] + [] == [none];
  }

  lemma EmptyUrl(url: Url, m: Mapping, response: bool)
    ensures MapUrl(url, m, [], response) == []
  {
  }

  lemma IrrelevantStatic(index: nat, response: bool)
    requires 1 <= index <= STATIC_SIZE
    ensures Static(index).1 == [] || !Relevant(Lower(Static(index).0), response)
  {
    var name := Static(index).0;
    if StaticValue(index) != "" {
      assert |name| == 5 || |name| == 15 || (|name| == 7 && StaticName(index)[0] == ':');
      hide StaticName, StaticValue;
      assert |name| == 7 ==> Lower(name)[0] == 58;
      assert Ascii("referer")[0] == 114;
    }
  }

  /** The static entries keep their values, so every result about indices holds of this mapping. */
  lemma MapFixesStatic(url: Url, m: Mapping, response: bool)
    requires Standard(url)
    ensures RewriteTheorems.StaticFixed(Map(url, m, response))
  {
    hide Static, Value;
    forall i: nat | 1 <= i <= STATIC_SIZE
      ensures Map(url, m, response)(Static(i).0, Static(i).1).None?
              || Map(url, m, response)(Static(i).0, Static(i).1) == Some(Static(i).1)
    {
      IrrelevantStatic(i, response);
      EmptyValue(url, m, Static(i).0, response);
      Irrelevant(url, m, Static(i).0, Static(i).1, response);
    }
  }

  /** In every run with this mapping each indexed field stays exactly where the receiver still has its entry. */
  lemma IndexedFieldsOfValue(url: Url, m: Mapping, response: bool, calls: seq<RewriteTheorems.Call>, k: nat, n: nat,
                             p: RewriteRuns.Point, q: RewriteRuns.Point, l: HpackReference.Layout)
    requires Standard(url)
    requires RewriteTheorems.RewriteAll(RewriteSpec.INITIAL, calls, Map(url, m, response), response).Some?
    requires RewriteRuns.FieldAt(calls, Map(url, m, response), response, k, n, p, q, l)
    requires l.kind == HpackReference.Indexed
    ensures p.out <= q.out
    ensures q.out[|p.out|..] == p.rest[..l.len] <==> HpackTable.Get(p.st.outb.entries, l.index).Some?
  {
    hide RewriteTheorems.RewriteAll, RewriteRuns.FieldAt, RewriteTheorems.StaticFixed;
    MapFixesStatic(url, m, response);
    RewriteRuns.EveryIndexedField(calls, Map(url, m, response), response, k, n, p, q, l);
  }

  /** In every run in which this mapping makes no value longer, every field keeps its index and representation. */
  lemma NoReindexingOfValue(url: Url, m: Mapping, response: bool, calls: seq<RewriteTheorems.Call>, i: nat)
    requires Standard(url) && i < |calls|
    requires RewriteTheorems.RewriteAll(RewriteSpec.INITIAL, calls, Map(url, m, response), response).Some?
    requires var sent := RewriteTheorems.DecodeAll(RewriteSpec.INITIAL.inb, calls);
             sent.Some? ==> forall j :: 0 <= j < |sent.value.lists| ==>
               RewriteKept.NoGrowth(sent.value.lists[j], Map(url, m, response))
    ensures var outs := RewriteTheorems.RewriteAll(RewriteSpec.INITIAL, calls, Map(url, m, response), response).value.1;
            |outs| == |calls| && RewriteKept.HeadsKept(calls[i].block, outs[i].block)
  {
    hide RewriteTheorems.RewriteAll, RewriteTheorems.DecodeAll, RewriteTheorems.StaticFixed, RewriteKept.NoGrowth,
      RewriteKept.HeadsKept, RewriteTheorems.Simulated;
    MapFixesStatic(url, m, response);
    RewriteTheorems.ConnectionMeaning(calls, Map(url, m, response), response);
    RewriteKept.NoGrowthNoReindexing(RewriteSpec.INITIAL, calls, Map(url, m, response), response);
  }

  lemma Irrelevant(url: Url, m: Mapping, name: Bytes, value: Bytes, response: bool)
    ensures !Relevant(Lower(name), response) ==> Value(url, m, name, value, response) == Some(value)
  {
  }

  /** Between the same blanks, a spelling of the public authority and the upstream one. */
  ghost predicate PublicToUpstream(url: Url, m: Mapping, value: Bytes, mapped: Bytes) {
    exists a, s, b ::
      value == a + s + b && mapped == a + m.upstream + b && AllBlank(a) && AllBlank(b) && IsPublic(url, m, s)
  }

  lemma BlankFront(value: Bytes)
    ensures AllBlank(value[..Lead(value, Blank)])
  {
    var a := value[..Lead(value, Blank)];
    hide Lead;
    forall k | 0 <= k < |a| ensures Blank(a[k]) {
      assert a[k] == value[k];
    }
  }

  lemma BlankBack(value: Bytes)
    ensures AllBlank(value[|value| - Trail(value, Blank)..])
  {
    var j := |value| - Trail(value, Blank);
    var b := value[j..];
    hide Trail;
    forall k | 0 <= k < |b| ensures Blank(b[k]) {
      assert b[k] == value[j + k];
    }
  }

  lemma Three(value: Bytes, i: nat, j: nat)
    requires i <= j <= |value|
    ensures value == value[..i] + value[i..j] + value[j..]
  {
  }

  lemma AuthorityPasses(url: Url, m: Mapping, name: Bytes, value: Bytes)
    requires IsAuthorityField(Lower(name)) && Value(url, m, name, value, false).Some?
    ensures PublicToUpstream(url, m, value, Value(url, m, name, value, false).value)
  {
    hide Utf8, IsPublic, MapCookie, MapUrl, Lead, Trail, AllBlank;
    BlankFront(value);
    BlankBack(value);
    var leading, end := Lead(value, Blank), |value| - Trail(value, Blank);
    Three(value, leading, end);
    var a, s, b := value[..leading], value[leading..end], value[end..];
    assert IsPublic(url, m, s);
    assert Value(url, m, name, value, false) == Some(a + m.upstream + b);
  }

  /**
   Over any connection the bridge accepts, the receiver decodes the sender's header lists with values
   mapped: where it decodes an authority the sender had spelled the public one, and it is the upstream one.
   */
  lemma RequestsNameUpstream(url: Url, m: Mapping, calls: seq<RewriteTheorems.Call>,
                             sent: RewriteTheorems.Session, received: RewriteTheorems.Session, i: nat, j: nat)
    requires Standard(url)
    requires RewriteTheorems.RewriteAll(RewriteSpec.INITIAL, calls, Map(url, m, false), false).Some?
    requires var outs := RewriteTheorems.RewriteAll(RewriteSpec.INITIAL, calls, Map(url, m, false), false).value.1;
             && RewriteTheorems.DecodeAll(RewriteSpec.INITIAL.inb, calls) == Some(sent)
             && RewriteTheorems.DecodeAll(RewriteSpec.INITIAL.outb, outs) == Some(received)
    requires i < |received.lists| && j < |received.lists[i]| && IsAuthorityField(Lower(received.lists[i][j].0))
    ensures i < |sent.lists| && j < |sent.lists[i]| && received.lists[i][j].0 == sent.lists[i][j].0
    ensures PublicToUpstream(url, m, sent.lists[i][j].1, received.lists[i][j].1)
  {
    hide Value, RewriteTheorems.RewriteAll, RewriteTheorems.DecodeAll, RewriteTheorems.Simulated, RewriteMeaning.Valid;
    RewriteTheorems.ConnectionMeaning(calls, Map(url, m, false), false);
    assert RewriteMeaning.Mapped(sent.lists[i], received.lists[i], Map(url, m, false));
    AuthorityPasses(url, m, sent.lists[i][j].0, sent.lists[i][j].1);
  }
}
