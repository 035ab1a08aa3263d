/** Exactly which header blocks the rewriter accepts, in terms of the list they decode to. */
module RewriteAccepts {
  import opened Octets
  import opened StaticTable
  import opened HpackTable
  import opened HpackReference
  import opened RewriteSpec
  import RewriteMeaning

  // ----- Well-formed lists, section 8.3 of RFC 9113 with the bridge's own limits -----

  /** A field and its mapped value. */
  type Pair = (Header, Bytes)

  predicate Pseudo(p: Pair) {
    p.0.0 != [] && p.0.0[0] == 58
  }

  predicate IsMethod(p: Pair) {
    p.0.0 == Ascii(":method")
  }

  predicate IsAuthority(p: Pair) {
    p.0.0 == Ascii(":authority")
  }

  /** A field that may stand in a list: no CONNECT, and octets HTTP/2 allows. */
  predicate FieldOk(p: Pair) {
    && p.0.0 != [] && (forall c :: c in p.0.0 ==> 33 <= c && c != 127 && !(65 <= c <= 90))
    && 13 !in p.0.1 && 10 !in p.0.1 && 0 !in p.0.1
    && !(IsMethod(p) && p.0.1 == Ascii("CONNECT"))
  }

  /** A field counts with the longer of its two values. */
  function Weight(p: Pair): nat {
    |p.0.0| + (if |p.1| > |p.0.1| then |p.1| else |p.0.1|) + 32
  }

  function Total(ps: seq<Pair>): nat {
    if ps == [] then 0 else Total(ps[..|ps| - 1]) + Weight(ps[|ps| - 1])
  }

  function Authorities(ps: seq<Pair>): nat {
    if ps == [] then 0 else Authorities(ps[..|ps| - 1]) + (if IsAuthority(ps[|ps| - 1]) then 1 else 0)
  }

  ghost predicate ListOk(ps: seq<Pair>) {
    && (forall i :: 0 <= i < |ps| ==> FieldOk(ps[i]))
    && (forall i, j :: 0 <= i < j < |ps| && Pseudo(ps[j]) ==> Pseudo(ps[i]))
    && Total(ps) <= 1048576
  }

  ghost predicate HasRegular(ps: seq<Pair>) {
    exists i :: 0 <= i < |ps| && !Pseudo(ps[i])
  }

  ghost predicate HasMethod(ps: seq<Pair>) {
    exists i :: 0 <= i < |ps| && IsMethod(ps[i])
  }

  /** A request has exactly one authority. */
  ghost predicate RequestOk(ps: seq<Pair>, response: bool) {
    response || !HasMethod(ps) || Authorities(ps) == 1
  }

  // ----- The running checks decide just that -----

  function ScanAll(scan: Scan, ps: seq<Pair>): Option<Scan>
    decreases |ps|
  {
    if ps == [] then Some(scan)
    else
      match Admit(scan, ps[0].0, ps[0].1)
      case None => None
      case Some(s) => ScanAll(s, ps[1..])
  }

  ghost predicate ScanOf(ps: seq<Pair>, s: Scan) {
    && s.fields == (ps != []) && s.regular == HasRegular(ps) && s.hasMethod == HasMethod(ps)
    && s.authority == Authorities(ps) && s.total == Total(ps)
  }

  lemma {:induction false} ScanSnoc(scan: Scan, ps: seq<Pair>, p: Pair)
    ensures ScanAll(scan, ps + [p]) == match ScanAll(scan, ps) case None => None case Some(s) => Admit(s, p.0, p.1)
    decreases |ps|
  {
    hide Admit;
    var all := ps + [p];
    if ps == [] {
      assert all[1..] == [];
    } else {
      assert all[1..] == ps[1..] + [p];
      if Admit(scan, ps[0].0, ps[0].1).Some? {
        ScanSnoc(Admit(scan, ps[0].0, ps[0].1).value, ps[1..], p);
      }
    }
  }

  lemma GrownSums(ps: seq<Pair>, p: Pair)
    ensures Total(ps + [p]) == Total(ps) + Weight(p)
    ensures Authorities(ps + [p]) == Authorities(ps) + (if IsAuthority(p) then 1 else 0)
  {
    hide Weight, IsAuthority;
    assert (ps + [p])[..|ps|] == ps;
  }

  lemma GrownKinds(ps: seq<Pair>, p: Pair)
    ensures HasRegular(ps + [p]) <==> HasRegular(ps) || !Pseudo(p)
    ensures HasMethod(ps + [p]) <==> HasMethod(ps) || IsMethod(p)
  {
    hide Pseudo, IsMethod;
    var all := ps + [p];
    assert all[|ps|] == p;
    if HasRegular(ps) {
      var i :| 0 <= i < |ps| && !Pseudo(ps[i]);
      assert !Pseudo(all[i]);
    }
    if HasMethod(ps) {
      var i :| 0 <= i < |ps| && IsMethod(ps[i]);
      assert IsMethod(all[i]);
    }
  }

  lemma GrownOk(ps: seq<Pair>, p: Pair)
    ensures ListOk(ps + [p]) <==>
              && ListOk(ps) && FieldOk(p) && (Pseudo(p) ==> !HasRegular(ps))
              && Total(ps) + Weight(p) <= 1048576
  {
    GrownSums(ps, p);
    hide FieldOk, Weight, Pseudo, Total;
    var all := ps + [p];
    var n := |ps|;
    assert all[n] == p && forall i :: 0 <= i < n ==> all[i] == ps[i];
    if ListOk(all) {
      forall i | 0 <= i < n ensures FieldOk(ps[i]) {
        assert FieldOk(all[i]);
      }
      forall i, j | 0 <= i < j < n && Pseudo(ps[j]) ensures Pseudo(ps[i]) {
        assert Pseudo(all[j]) && Pseudo(all[i]);
      }
      forall i | 0 <= i < n && Pseudo(p) ensures Pseudo(ps[i]) {
        assert Pseudo(all[n]) && Pseudo(all[i]);
      }
    }
  }

  lemma OctetsOk(p: Pair)
    ensures FieldOk(p) <==> NameOk(p.0.0) && ValueOk(p.0.1) && !(IsMethod(p) && p.0.1 == Ascii("CONNECT"))
  {
    hide IsMethod, Ascii;
    var name, value := p.0.0, p.0.1;
    if NameOk(name) && ValueOk(value) {
      forall c | c in name ensures 33 <= c && c != 127 && !(65 <= c <= 90) {
        var i :| 0 <= i < |name| && name[i] == c;
      }
    }
    if FieldOk(p) {
      forall i | 0 <= i < |name| ensures !(65 <= name[i] <= 90) && name[i] > 32 && name[i] != 127 {
        assert name[i] in name;
      }
    }
  }

  lemma AdmitIs(ps: seq<Pair>, s: Scan, p: Pair)
    requires ScanOf(ps, s) && ListOk(ps)
    ensures Admit(s, p.0, p.1).Some? <==> ListOk(ps + [p])
    ensures ListOk(ps + [p]) ==> ScanOf(ps + [p], Admit(s, p.0, p.1).value)
  {
    GrownSums(ps, p);
    GrownKinds(ps, p);
    GrownOk(ps, p);
    OctetsOk(p);
    hide FieldOk;
    assert NameOk(p.0.0) ==> p.0.0 != [];
    assert ListOk(ps + [p]) ==> ps + [p] != [];
    hide ListOk, HasRegular, HasMethod, Total, Authorities, NameOk, ValueOk;
  }

  /** The checks made field by field accept exactly the well-formed lists. */
  lemma {:induction false} ScanAccepts(ps: seq<Pair>)
    ensures ScanAll(START, ps).Some? <==> ListOk(ps)
    ensures ListOk(ps) ==> ScanOf(ps, ScanAll(START, ps).value)
    decreases |ps|
  {
    hide Admit, ScanOf, ListOk;
    if ps == [] {
      NothingScanned();
    } else {
      var n := |ps| - 1;
      var front, p := ps[..n], ps[n];
      assert ps == front + [p];
      ScanAccepts(front);
      ScanSnoc(START, front, p);
      if ListOk(front) {
        AdmitIs(front, ScanAll(START, front).value, p);
      } else {
        GrownOk(front, p);
      }
    }
  }

  lemma NothingScanned()
    ensures ListOk([]) && ScanOf([], START)
  {
  }

  // ----- Blocks -----

  /** The fields of a decoded list with their mapped values. */
  function Pairs(hs: seq<Header>, mapping: ValueMap): (r: Option<seq<Pair>>)
    ensures r.Some? ==> |r.value| == |hs| && forall i :: 0 <= i < |hs| ==>
                          r.value[i].0 == hs[i] && mapping(hs[i].0, hs[i].1) == Some(r.value[i].1)
  {
    if hs == [] then Some([])
    else
      match mapping(hs[0].0, hs[0].1)
      case None => None
      case Some(v) =>
        match Pairs(hs[1..], mapping)
        case None => None
        case Some(ps) => Some([(hs[0], v)] + ps)
  }

  /** The block that would be written if its length did not matter. */
  function Emitted(st: State, b: Bytes, mapping: ValueMap): Bytes
    decreases |b|
  {
    if b == [] || LayoutOf(b).None? then []
    else
      var l := LayoutOf(b).value;
      if l.kind == Update then
        b[..l.len] + Emitted(State(Resize(st.inb, l.index), Resize(st.outb, l.index)), b[l.len..], mapping)
      else if FieldOf(st.inb.entries, b, l).None? then []
      else
        var h := FieldOf(st.inb.entries, b, l).value;
        match mapping(h.0, h.1)
        case None => []
        case Some(v) =>
          Emit(st.outb.entries, b, l, h, v)
          + Emitted(State(Learn(st.inb, l.kind, h), Learn(st.outb, l.kind, (h.0, v))), b[l.len..], mapping)
  }

  lemma PairsCons(h: Header, hs: seq<Header>, mapping: ValueMap, scan: Scan)
    ensures Pairs([h] + hs, mapping).Some? <==> mapping(h.0, h.1).Some? && Pairs(hs, mapping).Some?
    ensures Pairs([h] + hs, mapping).Some? ==>
              ScanAll(scan, Pairs([h] + hs, mapping).value)
              == match Admit(scan, h, mapping(h.0, h.1).value)
                 case None => None
                 case Some(s) => ScanAll(s, Pairs(hs, mapping).value)
  {
    hide Admit;
    assert ([h] + hs)[1..] == hs;
    if mapping(h.0, h.1).Some? && Pairs(hs, mapping).Some? {
      var ps := Pairs(hs, mapping).value;
      assert ([(h, mapping(h.0, h.1).value)] + ps)[1..] == ps;
    }
  }

  /** What the rewriter's outcome is, by the list the block decodes to and the block written for it. */
  ghost function Verdict(d: Option<Decoded>, scan: Scan, out: Bytes, emitted: Bytes, mapping: ValueMap)
    : Option<(Scan, Bytes)>
  {
    if d.None? || Pairs(d.value.headers, mapping).None? then None
    else
      var s := ScanAll(scan, Pairs(d.value.headers, mapping).value);
      if s.None? || (d.value.headers != [] && |out + emitted| > MAX_BLOCK) then None
      else Some((s.value, out + emitted))
  }

  ghost function Shown(o: Option<Outcome>): Option<(Scan, Bytes)> {
    if o.None? then None else Some((o.value.scan, o.value.out))
  }

  lemma NoHeadersNoOctets(t: Dyn, b: Bytes, cap: nat)
    requires DecodeBlock(t, b, cap, true).Some? && DecodeBlock(t, b, cap, true).value.headers == []
    ensures b == []
  {
    hide LayoutOf, FieldOf, Learn, Resize;
  }

  /** One field first. */
  lemma FieldVerdict(d: Option<Decoded>, h: Header, t: Option<Decoded>, scan: Scan, out: Bytes, e: Bytes, rest: Bytes,
                     mapping: ValueMap)
    requires d.Some? <==> t.Some?
    requires d.Some? ==> d.value.headers == [h] + t.value.headers
    requires t.Some? && t.value.headers == [] ==> rest == []
    ensures Verdict(d, scan, out, e + rest, mapping)
            == if mapping(h.0, h.1).None? || Admit(scan, h, mapping(h.0, h.1).value).None?
                  || |out + e| > MAX_BLOCK then None
               else Verdict(t, Admit(scan, h, mapping(h.0, h.1).value).value, out + e, rest, mapping)
  {
    hide Admit, Pairs, ScanAll;
    Assoc(out, e, rest);
    if t.Some? {
      PairsCons(h, t.value.headers, mapping, scan);
    }
  }

  lemma {:induction false} VerdictFrom(st: State, scan: Scan, out: Bytes, b: Bytes, mapping: ValueMap, cap: nat)
    ensures Shown(RewriteFrom(st, scan, out, b, mapping, cap))
            == Verdict(DecodeBlock(st.inb, b, cap, scan.fields), scan, out, Emitted(st, b, mapping), mapping)
    decreases |b|
  {
    hide LayoutOf, FieldOf, Emit, Learn, Admit, Resize, Pairs, ScanAll;
    if b == [] {
      NoOctets(scan, mapping);
      assert out + [] == out;
    } else if LayoutOf(b).Some? {
      var l := LayoutOf(b).value;
      var rest := b[l.len..];
      if l.kind == Update {
        if !scan.fields && l.index <= cap {
          var st' := State(Resize(st.inb, l.index), Resize(st.outb, l.index));
          VerdictFrom(st', scan, out + b[..l.len], rest, mapping, cap);
          Assoc(out, b[..l.len], Emitted(st', rest, mapping));
        }
      } else if FieldOf(st.inb.entries, b, l).Some? {
        FieldCase(st, scan, out, b, l, mapping, cap);
      }
    }
  }

  lemma NoOctets(scan: Scan, mapping: ValueMap)
    ensures Pairs([], mapping) == Some([]) && ScanAll(scan, []) == Some(scan)
  {
  }

  lemma FieldCase(st: State, scan: Scan, out: Bytes, b: Bytes, l: Layout, mapping: ValueMap, cap: nat)
    requires IsLayout(b, l) && l.kind != Update && FieldOf(st.inb.entries, b, l).Some?
    ensures Shown(RewriteFrom(st, scan, out, b, mapping, cap))
            == Verdict(DecodeBlock(st.inb, b, cap, scan.fields), scan, out, Emitted(st, b, mapping), mapping)
    decreases |b|, 0
  {
    hide LayoutOf, FieldOf, Emit, Learn, Admit, Resize, Pairs, ScanAll, Verdict;
    var h := FieldOf(st.inb.entries, b, l).value;
    var v := mapping(h.0, h.1);
    var rest := b[l.len..];
    var t := DecodeBlock(Learn(st.inb, l.kind, h), rest, cap, true);
    var d := DecodeBlock(st.inb, b, cap, scan.fields);
    if t.Some? && t.value.headers == [] {
      NoHeadersNoOctets(Learn(st.inb, l.kind, h), rest, cap);
    }
    if v.None? {
      FieldVerdict(d, h, t, scan, out, [], [], mapping);
      assert [] + [] == Emitted(st, b, mapping);
    } else {
      var st' := State(Learn(st.inb, l.kind, h), Learn(st.outb, l.kind, (h.0, v.value)));
      var e := Emit(st.outb.entries, b, l, h, v.value);
      FieldVerdict(d, h, t, scan, out, e, Emitted(st', rest, mapping), mapping);
      if Admit(scan, h, v.value).Some? {
        RewriteMeaning.AdmitFields(scan, h, v.value);
        VerdictFrom(st', Admit(scan, h, v.value).value, out + e, rest, mapping, cap);
      }
    }
  }

  /**
   The rewriter accepts a block exactly when it is within the limit, decodes, every value can be mapped,
   the list is well formed, a request names one authority, and what is written stays within the limit.
   */
  lemma RewriteAccepts(st: State, block: Bytes, mapping: ValueMap, response: bool, limit: nat)
    ensures var d := DecodeBlock(st.inb, block, if limit < 65536 then limit else 65536, false);
            Rewrite(st, block, mapping, response, limit).Some?
            <==> && |block| <= 1048576 && d.Some? && Pairs(d.value.headers, mapping).Some?
                 && ListOk(Pairs(d.value.headers, mapping).value)
                 && RequestOk(Pairs(d.value.headers, mapping).value, response)
                 && (d.value.headers != [] ==> |Emitted(st, block, mapping)| <= 1048576)
    ensures Rewrite(st, block, mapping, response, limit).Some? ==>
              Rewrite(st, block, mapping, response, limit).value.1 == Emitted(st, block, mapping)
  {
    hide RewriteFrom, DecodeBlock, Pairs, ScanAll, ListOk, Emitted;
    VerdictFrom(st, START, [], block, mapping, Cap(limit));
    assert [] + Emitted(st, block, mapping) == Emitted(st, block, mapping);
    var d := DecodeBlock(st.inb, block, Cap(limit), false);
    if d.Some? && Pairs(d.value.headers, mapping).Some? {
      ScanAccepts(Pairs(d.value.headers, mapping).value);
    }
  }
}
