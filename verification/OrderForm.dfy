/** `http_order_form` of scripts/order_policy.py and what equality of two order forms proves. */
module OrderForm {
  import opened Octets
  import opened StaticTable
  import opened HpackReference
  import opened OrderProof
  import opened StableSort
  import OrderChecker
  import Frames
  import Reframe

  /** The captured shape of one HEADERS or CONTINUATION frame. */
  datatype Shape = Shape(kind: Byte, flags: Byte, length: int, prefix: Bytes, padding: Bytes)

  /** `rest` is everything of the request that the form leaves as it is. */
  datatype Request = Request(rest: Bytes, headers: seq<Header>, block: Bytes, frames: seq<Shape>)

  datatype Form = Form(rest: Bytes, headers: seq<Header>, updates: seq<nat>, tokens: seq<Token>, frames: seq<Shape>)

  function HeaderKey(h: Header): Bytes {
    h.0
  }

  function TokenKey(t: Token): Bytes {
    t.name
  }

  // ----- The layout check -----

  function Fragment(s: Shape): int {
    s.length - |s.prefix| - |s.padding|
  }

  function Sum(frames: seq<Shape>): int {
    if frames == [] then 0 else Fragment(frames[0]) + Sum(frames[1..])
  }

  /** One header sequence whose fragments add up to the block. */
  predicate LayoutOk(frames: seq<Shape>, blockLength: nat) {
    && frames != [] && frames[0].kind == Frames.HEADERS
    && (forall i :: 1 <= i < |frames| ==> frames[i].kind == Frames.CONTINUATION)
    && (forall i :: 0 <= i < |frames| ==> (Frames.EndHeaders(frames[i].flags) <==> i == |frames| - 1))
    && (forall i :: 0 <= i < |frames| ==> Fragment(frames[i]) >= 0)
    && Sum(frames) == blockLength
  }

  /** The last length without the block's, so that only a change of the block's length is allowed for. */
  function Relative(frames: seq<Shape>, blockLength: nat): seq<Shape>
    requires frames != []
  {
    var last := frames[|frames| - 1];
    frames[..|frames| - 1] + [last.(length := last.length - blockLength)]
  }

  // ----- The form -----

  function RequestForm(p: Proof, r: Request): Option<(Proof, Form)> {
    match ProveBlock(p, r.block, r.headers)
    case None => None
    case Some(s) =>
      if !LayoutOk(r.frames, |r.block|) then None
      else Some((s.proof, Form(r.rest, Sort(HeaderKey, r.headers), s.updates, Sort(TokenKey, s.tokens),
                               Relative(r.frames, |r.block|))))
  }

  function FormsFrom(p: Proof, requests: seq<Request>): Option<seq<Form>>
    decreases |requests|
  {
    if requests == [] then Some([])
    else match RequestForm(p, requests[0])
      case None => None
      case Some((p', f)) =>
        match FormsFrom(p', requests[1..])
        case None => None
        case Some(fs) => Some([f] + fs)
  }

  /** Both requests of a capture, over one HPACK state. */
  function OrderFormOf(requests: seq<Request>): Option<seq<Form>> {
    if |requests| != 2 then None else FormsFrom(FRESH, requests)
  }

  method HttpOrderForm(requests: seq<Request>) returns (r: Option<seq<Form>>)
    ensures r == OrderFormOf(requests)
  {
    hide ProveBlock, LayoutOk, Relative, Identifies, DecodeBlock;
    if |requests| != 2 {
      return None;
    }
    var proof := new OrderChecker.HpackOrderProof();
    var out: seq<Form> := [];
    var i: nat := 0;
    assert requests[0..] == requests;
    NoForms(FormsFrom(FRESH, requests));
    while i < |requests|
      invariant i <= |requests| && proof.Valid() && fresh(proof)
      invariant FormsFrom(FRESH, requests) == AddForms(out, FormsFrom(proof.Value(), requests[i..]))
    {
      var request := requests[i];
      assert requests[i..][0] == request && requests[i..][1..] == requests[i + 1..];
      var block := proof.Block(request.block, request.headers);
      if block.None? {
        return None;
      }
      if !LayoutOk(request.frames, |request.block|) {
        return None;
      }
      LayoutNonempty(request.frames, |request.block|);
      var form := Form(request.rest, Sort(HeaderKey, request.headers), block.value.0, Sort(TokenKey, block.value.1),
                       Relative(request.frames, |request.block|));
      OneForm(out, form, FormsFrom(proof.Value(), requests[i + 1..]));
      out := out + [form];
      i := i + 1;
    }
    assert requests[i..] == [] && out + [] == out;
    return Some(out);
  }

  ghost function AddForms(out: seq<Form>, rest: Option<seq<Form>>): Option<seq<Form>> {
    match rest
    case None => None
    case Some(fs) => Some(out + fs)
  }

  lemma NoForms(rest: Option<seq<Form>>)
    ensures AddForms([], rest) == rest
  {
    if rest.Some? {
      assert [] + rest.value == rest.value;
    }
  }

  lemma OneForm(out: seq<Form>, f: Form, rest: Option<seq<Form>>)
    ensures AddForms(out, match rest case None => None case Some(fs) => Some([f] + fs)) == AddForms(out + [f], rest)
  {
    if rest.Some? {
      Assoc(out, [f], rest.value);
    }
  }

  lemma LayoutNonempty(frames: seq<Shape>, n: nat)
    requires LayoutOk(frames, n)
    ensures frames != []
  {
  }

  // ----- What equal forms prove -----

  /** The block proofs of a capture's requests. */
  function Scans(p: Proof, requests: seq<Request>): seq<Scanned>
    requires FormsFrom(p, requests).Some?
    ensures |Scans(p, requests)| == |requests|
    decreases |requests|
  {
    if requests == [] then []
    else
      var s := ProveBlock(p, requests[0].block, requests[0].headers).value;
      [s] + Scans(s.proof, requests[1..])
  }

  /** Only the last length may differ, by as much as the blocks do. */
  ghost predicate FramesAgree(a: Request, b: Request) {
    && |a.frames| == |b.frames| && a.frames != []
    && (forall i :: 0 <= i < |a.frames| - 1 ==> b.frames[i] == a.frames[i])
    && var last := |a.frames| - 1;
       b.frames[last] == a.frames[last].(length := a.frames[last].length + (|b.block| - |a.block|))
  }

  /** The headers with one name, in order. */
  function HeadersNamed(hs: seq<Header>, name: Bytes): seq<Header> {
    if hs == [] then []
    else if hs[0].0 == name then [hs[0]] + HeadersNamed(hs[1..], name)
    else HeadersNamed(hs[1..], name)
  }

  /** The representations of the headers with one name, in order. */
  function TokensNamed(ts: seq<Token>, name: Bytes): seq<Token> {
    if ts == [] then []
    else if ts[0].name == name then [ts[0]] + TokensNamed(ts[1..], name)
    else TokensNamed(ts[1..], name)
  }

  ghost predicate SameHeaders(a: seq<Header>, b: seq<Header>) {
    forall name :: HeadersNamed(a, name) == HeadersNamed(b, name)
  }

  ghost predicate SameTokens(a: seq<Token>, b: seq<Token>) {
    forall name :: TokensNamed(a, name) == TokensNamed(b, name)
  }

  lemma {:induction false} HeadersOnly(hs: seq<Header>, name: Bytes)
    ensures Only(HeaderKey, name, hs) == HeadersNamed(hs, name)
  {
    if hs != [] {
      HeadersOnly(hs[1..], name);
    }
  }

  lemma {:induction false} TokensOnly(ts: seq<Token>, name: Bytes)
    ensures Only(TokenKey, name, ts) == TokensNamed(ts, name)
  {
    if ts != [] {
      TokensOnly(ts[1..], name);
    }
  }

  lemma SameHeadersIff(a: seq<Header>, b: seq<Header>)
    ensures SamePerKey(HeaderKey, a, b) <==> SameHeaders(a, b)
  {
    hide HeadersNamed;
    forall name
      ensures Only(HeaderKey, name, a) == HeadersNamed(a, name) && Only(HeaderKey, name, b) == HeadersNamed(b, name)
    {
      HeadersOnly(a, name);
      HeadersOnly(b, name);
    }
  }

  lemma SameTokensIff(a: seq<Token>, b: seq<Token>)
    ensures SamePerKey(TokenKey, a, b) <==> SameTokens(a, b)
  {
    hide TokensNamed;
    forall name
      ensures Only(TokenKey, name, a) == TokensNamed(a, name) && Only(TokenKey, name, b) == TokensNamed(b, name)
    {
      TokensOnly(a, name);
      TokensOnly(b, name);
    }
  }

  /**
   The same request up to the order of differently named headers: same header lists per name, and per
   name the same representations with the same references, literal octets, names and values.
   */
  ghost predicate OrderVariant(a: Request, b: Request, s: Scanned, t: Scanned) {
    && a.rest == b.rest
    && SameHeaders(a.headers, b.headers)
    && SameTokens(s.tokens, t.tokens)
    && s.updates == t.updates
    && FramesAgree(a, b)
  }

  ghost predicate HeadersAscend(hs: seq<Header>) {
    forall i, j :: 0 <= i < j < |hs| ==> Leq(hs[i].0, hs[j].0)
  }

  ghost predicate TokensAscend(ts: seq<Token>) {
    forall i, j :: 0 <= i < j < |ts| ==> Leq(ts[i].name, ts[j].name)
  }

  /** `f` is the request with its headers and their representations in ascending order of names. */
  ghost predicate FormOf(f: Form, r: Request, s: Scanned) {
    && f.rest == r.rest && f.updates == s.updates
    && HeadersAscend(f.headers) && SameHeaders(f.headers, r.headers) && multiset(f.headers) == multiset(r.headers)
    && TokensAscend(f.tokens) && SameTokens(f.tokens, s.tokens) && multiset(f.tokens) == multiset(s.tokens)
    && |f.frames| == |r.frames| && r.frames != []
    && (forall i :: 0 <= i < |r.frames| ==> r.frames[i].length >= |r.frames[i].prefix| + |r.frames[i].padding|)
    && (forall i :: 0 <= i < |r.frames| - 1 ==> f.frames[i] == r.frames[i])
    && var last := r.frames[|r.frames| - 1]; f.frames[|r.frames| - 1] == last.(length := last.length - |r.block|)
  }

  lemma {:induction false} SortedHeaders(hs: seq<Header>)
    requires Sorted(HeaderKey, hs)
    ensures HeadersAscend(hs)
  {
    if hs != [] {
      SortedHeaders(hs[1..]);
      forall i, j | 0 <= i < j < |hs| ensures Leq(hs[i].0, hs[j].0) {
        assert hs[j] == hs[1..][j - 1] && hs[j] in hs[1..];
        assert Leq(HeaderKey(hs[0]), HeaderKey(hs[j]));
        if i > 0 {
          assert hs[i] == hs[1..][i - 1];
        }
      }
    }
  }

  lemma {:induction false} SortedTokens(ts: seq<Token>)
    requires Sorted(TokenKey, ts)
    ensures TokensAscend(ts)
  {
    if ts != [] {
      SortedTokens(ts[1..]);
      forall i, j | 0 <= i < j < |ts| ensures Leq(ts[i].name, ts[j].name) {
        assert ts[j] == ts[1..][j - 1] && ts[j] in ts[1..];
        assert Leq(TokenKey(ts[0]), TokenKey(ts[j]));
        if i > 0 {
          assert ts[i] == ts[1..][i - 1];
        }
      }
    }
  }

  lemma RequestFormIs(p: Proof, r: Request)
    requires RequestForm(p, r).Some?
    ensures FormOf(RequestForm(p, r).value.1, r, ProveBlock(p, r.block, r.headers).value)
  {
    hide ProveBlock, Sort, Sorted, SamePerKey, SameHeaders, SameTokens, HeadersAscend, TokensAscend;
    var s := ProveBlock(p, r.block, r.headers).value;
    LayoutNonempty(r.frames, |r.block|);
    SortSame(HeaderKey, r.headers);
    SortSame(TokenKey, s.tokens);
    SameHeadersIff(Sort(HeaderKey, r.headers), r.headers);
    SameTokensIff(Sort(TokenKey, s.tokens), s.tokens);
    SortedHeaders(Sort(HeaderKey, r.headers));
    SortedTokens(Sort(TokenKey, s.tokens));
  }

  /** Every form of a capture is its request, headers and representations put in order of their names. */
  lemma {:induction false} FormsAre(p: Proof, requests: seq<Request>)
    requires FormsFrom(p, requests).Some?
    ensures |FormsFrom(p, requests).value| == |requests|
    ensures forall i :: 0 <= i < |requests| ==>
              FormOf(FormsFrom(p, requests).value[i], requests[i], Scans(p, requests)[i])
    decreases |requests|
  {
    hide ProveBlock, FormOf, LayoutOk, Relative, Sort;
    if requests != [] {
      RequestFormIs(p, requests[0]);
      var s := ProveBlock(p, requests[0].block, requests[0].headers).value;
      FormsAre(s.proof, requests[1..]);
    }
  }

  lemma RelativeIff(a: Request, b: Request)
    requires a.frames != [] && b.frames != []
    ensures Relative(a.frames, |a.block|) == Relative(b.frames, |b.block|) <==> FramesAgree(a, b)
  {
    var f, g := Relative(a.frames, |a.block|), Relative(b.frames, |b.block|);
    var n := |a.frames| - 1;
    if f == g {
      assert |f| == n + 1 && f[n] == g[n];
      forall i | 0 <= i < n ensures b.frames[i] == a.frames[i] {
        assert f[i] == g[i];
      }
    }
    if FramesAgree(a, b) {
      assert a.frames[..n] == b.frames[..n];
    }
  }

  lemma FormIff(p: Proof, q: Proof, a: Request, b: Request)
    requires RequestForm(p, a).Some? && RequestForm(q, b).Some?
    ensures RequestForm(p, a).value.1 == RequestForm(q, b).value.1
            <==> OrderVariant(a, b, ProveBlock(p, a.block, a.headers).value, ProveBlock(q, b.block, b.headers).value)
  {
    hide ProveBlock, SamePerKey, Sort, Relative, FramesAgree, SameHeaders, SameTokens;
    var s, t := ProveBlock(p, a.block, a.headers).value, ProveBlock(q, b.block, b.headers).value;
    LayoutNonempty(a.frames, |a.block|);
    LayoutNonempty(b.frames, |b.block|);
    hide LayoutOk;
    SameSortIff(HeaderKey, a.headers, b.headers);
    SameSortIff(TokenKey, s.tokens, t.tokens);
    SameHeadersIff(a.headers, b.headers);
    SameTokensIff(s.tokens, t.tokens);
    RelativeIff(a, b);
  }

  lemma {:induction false} FormsIff(p: Proof, q: Proof, a: seq<Request>, b: seq<Request>)
    requires FormsFrom(p, a).Some? && FormsFrom(q, b).Some? && |a| == |b|
    ensures FormsFrom(p, a) == FormsFrom(q, b)
            <==> forall i :: 0 <= i < |a| ==> OrderVariant(a[i], b[i], Scans(p, a)[i], Scans(q, b)[i])
    decreases |a|
  {
    hide ProveBlock, OrderVariant, LayoutOk, Relative, Sort;
    if a != [] {
      FormIff(p, q, a[0], b[0]);
      var s, t := Scans(p, a)[0], Scans(q, b)[0];
      FormsIff(s.proof, t.proof, a[1..], b[1..]);
      var f, g := RequestForm(p, a[0]).value.1, RequestForm(q, b[0]).value.1;
      var fs, gs := FormsFrom(s.proof, a[1..]).value, FormsFrom(t.proof, b[1..]).value;
      assert ([f] + fs)[0] == f && ([f] + fs)[1..] == fs && ([g] + gs)[0] == g && ([g] + gs)[1..] == gs;
      forall i | 1 <= i < |a|
        ensures OrderVariant(a[i], b[i], Scans(p, a)[i], Scans(q, b)[i])
                <==> OrderVariant(a[1..][i - 1], b[1..][i - 1], Scans(s.proof, a[1..])[i - 1],
                                  Scans(t.proof, b[1..])[i - 1])
      {
      }
    }
  }

  /**
   Two captures have equal order forms exactly when they are the same requests in the same order up to
   the order of differently named headers. Then each pair of header lists is a permutation.
   */
  lemma OrderFormSound(a: seq<Request>, b: seq<Request>)
    requires OrderFormOf(a).Some? && OrderFormOf(b).Some?
    ensures OrderFormOf(a) == OrderFormOf(b)
            <==> forall i :: 0 <= i < 2 ==> OrderVariant(a[i], b[i], Scans(FRESH, a)[i], Scans(FRESH, b)[i])
    ensures OrderFormOf(a) == OrderFormOf(b) ==>
              forall i :: 0 <= i < 2 ==>
                && multiset(a[i].headers) == multiset(b[i].headers)
                && multiset(Scans(FRESH, a)[i].tokens) == multiset(Scans(FRESH, b)[i].tokens)
  {
    hide FormsFrom, Scans, SamePerKey, SameHeaders, SameTokens;
    FormsIff(FRESH, FRESH, a, b);
    if OrderFormOf(a) == OrderFormOf(b) {
      forall i | 0 <= i < 2
        ensures multiset(a[i].headers) == multiset(b[i].headers)
        ensures multiset(Scans(FRESH, a)[i].tokens) == multiset(Scans(FRESH, b)[i].tokens)
      {
        assert OrderVariant(a[i], b[i], Scans(FRESH, a)[i], Scans(FRESH, b)[i]);
        SameHeadersIff(a[i].headers, b[i].headers);
        SameTokensIff(Scans(FRESH, a)[i].tokens, Scans(FRESH, b)[i].tokens);
        SameSortIff(HeaderKey, a[i].headers, b[i].headers);
        SameSortIff(TokenKey, Scans(FRESH, a)[i].tokens, Scans(FRESH, b)[i].tokens);
      }
    }
  }

  // ----- Which captures have a form -----

  /** The blocks of a capture with the headers they must encode. */
  function Blocks(requests: seq<Request>): (r: seq<Captured>)
    ensures |r| == |requests|
  {
    if requests == [] then [] else [Captured(requests[0].block, requests[0].headers)] + Blocks(requests[1..])
  }

  /** Forms exist exactly where every block is proven, one after the other, and every frame list fits its block. */
  lemma {:induction false} FormsExistIff(p: Proof, requests: seq<Request>)
    ensures FormsFrom(p, requests).Some? <==>
              && ProveAll(p, Blocks(requests)).Some?
              && forall i :: 0 <= i < |requests| ==> LayoutOk(requests[i].frames, |requests[i].block|)
    decreases |requests|
  {
    hide ProveBlock, LayoutOk, Relative, Sort;
    if requests != [] {
      var r := requests[0];
      var s := ProveBlock(p, r.block, r.headers);
      assert Blocks(requests)[1..] == Blocks(requests[1..]);
      if s.Some? {
        FormsExistIff(s.value.proof, requests[1..]);
      }
      assert forall i :: 1 <= i < |requests| ==> requests[i] == requests[1..][i - 1];
    }
  }

  /** What is captured of the frames of a header sequence: prefix and padding of the first, all lengths. */
  function ShapesOf(frames: seq<Frames.Frame>): (r: seq<Shape>)
    requires frames != [] && Frames.HeaderParts(frames[0]).Some?
    ensures |r| == |frames|
  {
    var p := Frames.HeaderParts(frames[0]).value;
    [Shape(frames[0].kind, frames[0].flags, |frames[0].payload|, p.prefix, p.padding)] + LaterShapes(frames[1..])
  }

  function LaterShapes(frames: seq<Frames.Frame>): (r: seq<Shape>)
    ensures |r| == |frames|
    ensures forall i :: 0 <= i < |r| ==> r[i] == Shape(frames[i].kind, frames[i].flags, |frames[i].payload|, [], [])
  {
    if frames == [] then []
    else [Shape(frames[0].kind, frames[0].flags, |frames[0].payload|, [], [])] + LaterShapes(frames[1..])
  }

  lemma {:induction false} LaterSum(frames: seq<Frames.Frame>)
    ensures Sum(LaterShapes(frames)) == |Reframe.Payloads(frames)|
  {
    if frames != [] {
      LaterSum(frames[1..]);
      assert LaterShapes(frames)[1..] == LaterShapes(frames[1..]);
    }
  }

  /** The check of the frames accepts exactly a header sequence that carries as many octets as the block has. */
  lemma LayoutIff(frames: seq<Frames.Frame>, blockLength: nat)
    requires frames != [] && Frames.HeaderParts(frames[0]).Some?
    ensures LayoutOk(ShapesOf(frames), blockLength) <==>
              && (forall i :: 1 <= i < |frames| ==> frames[i].kind == 9)
              && (forall i :: 0 <= i < |frames| ==> (frames[i].flags / 4 % 2 == 1 <==> i == |frames| - 1))
              && |Reframe.Carried(frames)| == blockLength
  {
    var shapes, p := ShapesOf(frames), Frames.HeaderParts(frames[0]).value;
    LaterSum(frames[1..]);
    Frames.PartsIff(frames[0], p);
    hide Frames.HeaderParts, Frames.Splits;
    assert shapes[1..] == LaterShapes(frames[1..]);
    Frames.PartsMakePayload(frames[0]);
    assert forall i :: 0 <= i < |frames| ==> shapes[i].kind == frames[i].kind && shapes[i].flags == frames[i].flags;
    assert forall i :: 0 <= i < |frames| ==> Fragment(shapes[i]) >= 0;
  }
}
