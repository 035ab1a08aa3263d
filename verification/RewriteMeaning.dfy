/** The receiver decodes exactly the mapped header list, and its table is the one the bridge tracks. */
module RewriteMeaning {
  import opened Octets
  import opened HpackInteger
  import opened StaticTable
  import opened HpackTable
  import opened HpackReference
  import opened RewriteSpec
  import Huffman
  import HuffmanTable

  /** Same names, every value passed through the mapping. */
  ghost predicate Mapped(xs: seq<Header>, ys: seq<Header>, mapping: ValueMap) {
    |xs| == |ys| && forall i :: 0 <= i < |xs| ==> ys[i].0 == xs[i].0 && mapping(xs[i].0, xs[i].1) == Some(ys[i].1)
  }

  /** Both tables keep to one limit of at most 65536. */
  ghost predicate Valid(st: State) {
    && Size(st.inb.entries) <= st.inb.limit && Size(st.outb.entries) <= st.outb.limit
    && st.inb.limit == st.outb.limit <= MAX_TABLE
  }

  // ----- Strings and indices read back -----

  lemma ReadsBack(n: nat, prefix: Byte, bits: Width, rest: Bytes)
    requires PrefixFits(prefix, bits) && n <= 16 * MAX_BLOCK
    ensures ReadInt(IntBytes(n, prefix, bits) + rest, bits, ROOM) == Some((n, |IntBytes(n, prefix, bits)|))
  {
    hide Pow2, ReadInt, IntBytes;
    HuffmanTable.Pow2ThirtyOne();
    Pow2Mono(31, 7 * ROOM);
    RoundTrip(n, prefix, bits, ROOM, rest);
  }

  lemma LiteralReadsBack(body: Bytes, high: Byte)
    requires (high == 0 || high == 128) && PrefixFits(high, 7) && |body| <= 16 * MAX_BLOCK
    ensures var i := IntBytes(|body|, high, 7);
            var t := i + body;
            && StringLength(t) == Some(|t|) && (t[0] >= 128 <==> high == 128)
            && ReadInt(t, 7, ROOM) == Some((|body|, |i|)) && t[|i|..] == body
  {
    hide ReadInt, IntBytes, Low;
    ReadsBack(|body|, high, 7, body);
  }

  lemma StringReadsBack(s: Bytes, huffman: bool)
    requires |s| <= MAX_BLOCK
    ensures var t := StringBytes(s, huffman);
            t != [] && StringLength(t) == Some(|t|) && StringText(t) == Some(s) && (t[0] >= 128 <==> huffman)
  {
    hide ReadInt, IntBytes, StringLength, Huffman.Encode, Huffman.Decode;
    assert 0 % 128 == 0 && 128 % 128 == 0;
    if huffman {
      Huffman.EncodeBound(s);
      Huffman.RoundTrip(s);
      LiteralReadsBack(Huffman.Encode(s), 128);
    } else {
      LiteralReadsBack(s, 0);
    }
  }

  lemma IndexReadsBack(kind: Kind, index: nat, rest: Bytes)
    requires index <= MAX_BLOCK
    ensures var i := PutIndex(kind, index);
            i != [] && KindOf(i[0]) == kind && ReadInt(i + rest, PrefixBits(kind), ROOM) == Some((index, |i|))
  {
    PatternFits(kind);
    ReadsBack(index, Pattern(kind), PrefixBits(kind), rest);
  }

  lemma IndexInRange(entries: seq<Header>, index: nat)
    requires Size(entries) <= MAX_TABLE && (index == 0 || Get(entries, index).Some?)
    ensures index <= MAX_BLOCK
  {
    SizeCount(entries);
  }

  // ----- One field -----

  /** What the receiver reads where the bridge wrote `Emit`: the same name, the mapped value. */
  ghost predicate Carries(entries: seq<Header>, b: Bytes, l: Layout, incremental: bool, h: Header) {
    && IsLayout(b, l) && l.kind != Update
    && FieldOf(entries, b, l) == Some(h)
    && (l.kind == Incremental <==> incremental)
  }

  lemma PutNameReadsBack(entries: seq<Header>, kind: Kind, target: nat, name: Bytes, v: Bytes, rest: Bytes)
    returns (l: Layout)
    requires IsLiteral(kind) && Size(entries) <= MAX_TABLE && |name| <= MAX_BLOCK
    requires target != 0 ==> Get(entries, target).Some? && Get(entries, target).value.0 == name
    requires v != [] && StringLength(v) == Some(|v|) && StringText(v).Some?
    ensures var e := PutName(kind, target, name) + v;
            l.len == |e| && Carries(entries, e + rest, l, kind == Incremental, (name, StringText(v).value))
    ensures var e := PutName(kind, target, name) + v;
            && l.kind == kind && l.index == target && e[l.valueAt..] == v
            && (target == 0 ==> e[l.nameAt..l.valueAt] == StringBytes(name, false))
  {
    hide ReadInt, StringLength, StringText, LayoutOf, PutIndex, StringBytes;
    IndexInRange(entries, target);
    var i := PutIndex(kind, target);
    var n := if target == 0 then StringBytes(name, false) else [];
    IndexReadsBack(kind, target, n + (v + rest));
    StringReadsBack(name, false);
    ComposeLiteral(kind, target, i, n, v, rest);
    l := Layout(kind, target, |i|, |i| + |n|, |i| + |n| + |v|);
    assert PutName(kind, target, name) == i + n;
    assert (i + n) + v + rest == i + (n + (v + rest));
  }

  /** The kept front of a literal and a value. */
  lemma KeptHeadReadsBack(entries: seq<Header>, b: Bytes, l: Layout, name: Bytes, v: Bytes, rest: Bytes)
    returns (l': Layout)
    requires IsLayout(b, l) && IsLiteral(l.kind)
    requires if l.index == 0 then (PartLengths(b, l); StringText(b[l.nameAt..l.valueAt]) == Some(name))
             else Get(entries, l.index).Some? && Get(entries, l.index).value.0 == name
    requires v != [] && StringLength(v) == Some(|v|) && StringText(v).Some?
    ensures var e := b[..l.valueAt] + v;
            l' == l.(len := |e|) && Carries(entries, e + rest, l', l.kind == Incremental, (name, StringText(v).value))
  {
    hide ReadInt, StringLength, StringText, LayoutOf, FieldOf, PrefixBits, KindOf;
    var i, n := b[..l.nameAt], b[l.nameAt..l.valueAt];
    PartLengths(b, l);
    LayoutInteger(b, l);
    Stable(b, n + (v + rest), PrefixBits(l.kind), ROOM);
    ComposeLiteral(l.kind, l.index, i, n, v, rest);
    l' := l.(len := l.valueAt + |v|);
    var whole := i + (n + (v + rest));
    assert b[..l.valueAt] + v + rest == whole;
    TextsMakeField(entries, whole, l', name, StringText(v).value);
  }

  lemma TextsMakeField(entries: seq<Header>, b: Bytes, l: Layout, name: Bytes, value: Bytes)
    requires IsLayout(b, l) && IsLiteral(l.kind)
    requires if l.index == 0 then (PartLengths(b, l); StringText(b[l.nameAt..l.valueAt]) == Some(name))
             else Get(entries, l.index).Some? && Get(entries, l.index).value.0 == name
    requires (PartLengths(b, l); StringText(b[l.valueAt..l.len]) == Some(value))
    ensures FieldOf(entries, b, l) == Some((name, value))
  {
    hide StringText, LayoutOf;
  }

  lemma LayoutInteger(b: Bytes, l: Layout)
    requires IsLayout(b, l)
    ensures ReadInt(b, PrefixBits(l.kind), ROOM) == Some((l.index, l.nameAt))
  {
  }

  lemma AdmittedSizes(scan: Scan, h: Header, mapped: Bytes)
    requires Admit(scan, h, mapped).Some?
    ensures |h.0| <= MAX_BLOCK && |h.1| <= MAX_BLOCK && |mapped| <= MAX_BLOCK
  {
  }

  /** Whatever form the bridge chose for a field, the receiver reads the mapped field. */
  lemma EmitReadsBack(st: State, b: Bytes, l: Layout, h: Header, mapped: Bytes, rest: Bytes)
    returns (l': Layout)
    requires Valid(st) && IsLayout(b, l) && l.kind != Update
    requires FieldOf(st.inb.entries, b, l) == Some(h)
    requires |h.0| <= MAX_BLOCK && |mapped| <= MAX_BLOCK
    ensures var e := Emit(st.outb.entries, b, l, h, mapped);
            l'.len == |e| && Carries(st.outb.entries, e + rest, l', l.kind == Incremental, (h.0, mapped))
  {
    hide ReadInt, StringLength, StringText, LayoutOf, StringBytes, PutName, PutIndex;
    var entries := st.outb.entries;
    if l.kind == Indexed {
      var target := Find(entries, l.index, h.0, Some(mapped));
      if target == l.index {
        LayoutStable(b, l, rest);
        l' := l;
      } else if target != 0 {
        l' := NewIndexReadsBack(entries, target, rest);
      } else {
        StringReadsBack(mapped, false);
        l' := PutNameReadsBack(entries, Without, Find(entries, 0, h.0, None), h.0, StringBytes(mapped, false), rest);
      }
    } else {
      PartLengths(b, l);
      var v := EmitValue(l, h.1, mapped, b[..l.len]);
      assert b[..l.len][l.valueAt..] == b[l.valueAt..l.len];
      StringReadsBack(mapped, b[l.valueAt] >= 128);
      var target := if l.index == 0 then 0 else Find(entries, l.index, h.0, None);
      if target == l.index {
        assert b[..l.len][..l.valueAt] == b[..l.valueAt];
        l' := KeptHeadReadsBack(entries, b, l, h.0, v, rest);
      } else {
        l' := PutNameReadsBack(entries, l.kind, target, h.0, v, rest);
      }
    }
  }

  lemma NewIndexReadsBack(entries: seq<Header>, target: nat, rest: Bytes) returns (l: Layout)
    requires Size(entries) <= MAX_TABLE && Get(entries, target).Some?
    ensures l.len == |PutIndex(Indexed, target)| && l.kind == Indexed && l.index == target
    ensures Carries(entries, PutIndex(Indexed, target) + rest, l, false, Get(entries, target).value)
  {
    hide ReadInt, PutIndex;
    IndexInRange(entries, target);
    IndexReadsBack(Indexed, target, rest);
    var n := |PutIndex(Indexed, target)|;
    l := Layout(Indexed, target, n, n, n);
  }

  // ----- One block -----

  lemma LearnValid(st: State, kind: Kind, h: Header, h': Header)
    requires Valid(st)
    ensures Valid(State(Learn(st.inb, kind, h), Learn(st.outb, kind, h')))
  {
    InsertThenEvict(st.inb, h);
    InsertThenEvict(st.outb, h');
  }

  lemma ResizeValid(st: State, limit: nat)
    requires limit <= MAX_TABLE
    ensures Valid(State(Resize(st.inb, limit), Resize(st.outb, limit)))
  {
  }

  lemma DecodeField(t: Dyn, b: Bytes, l: Layout, cap: nat, fields: bool, h: Header)
    requires Carries(t.entries, b, l, l.kind == Incremental, h)
    ensures DecodeBlock(t, b, cap, fields)
            == match DecodeBlock(Learn(t, l.kind, h), b[l.len..], cap, true)
               case None => None
               case Some(d) => Some(Decoded([h] + d.headers, d.table,
                                            d.inserted + if l.kind == Incremental then [h] else []))
  {
    hide LayoutOf, FieldOf, Learn;
  }

  ghost predicate Agrees(a: Option<Decoded>, b: Option<Decoded>, st: State, mapping: ValueMap) {
    && a.Some? && b.Some? && a.value.table == st.inb && b.value.table == st.outb
    && Mapped(a.value.headers, b.value.headers, mapping)
    && Mapped(a.value.inserted, b.value.inserted, mapping)
  }

  lemma AgreesUpdate(st: State, end: State, b: Bytes, l: Layout, tail: Bytes, mapping: ValueMap, cap: nat)
    requires IsLayout(b, l) && l.kind == Update && l.index <= cap
    requires Agrees(DecodeBlock(Resize(st.inb, l.index), b[l.len..], cap, false),
                    DecodeBlock(Resize(st.outb, l.index), tail, cap, false), end, mapping)
    ensures Agrees(DecodeBlock(st.inb, b, cap, false),
                   DecodeBlock(st.outb, b[..l.len] + tail, cap, false), end, mapping)
  {
    hide LayoutOf, FieldOf, Fit;
    LayoutStable(b, l, tail);
    assert (b[..l.len] + tail)[l.len..] == tail;
  }

  lemma AgreesField(st: State, end: State, b: Bytes, l: Layout, h: Header, h': Header, c: Bytes, l': Layout,
                    mapping: ValueMap, cap: nat, fields: bool)
    requires Carries(st.inb.entries, b, l, l.kind == Incremental, h)
    requires Carries(st.outb.entries, c, l', l.kind == Incremental, h')
    requires h'.0 == h.0 && mapping(h.0, h.1) == Some(h'.1)
    requires Agrees(DecodeBlock(Learn(st.inb, l.kind, h), b[l.len..], cap, true),
                    DecodeBlock(Learn(st.outb, l.kind, h'), c[l'.len..], cap, true), end, mapping)
    ensures Agrees(DecodeBlock(st.inb, b, cap, fields), DecodeBlock(st.outb, c, cap, fields), end, mapping)
  {
    hide LayoutOf, FieldOf, DecodeBlock;
    DecodeField(st.inb, b, l, cap, fields, h);
    SameLearning(st.outb, l.kind, l'.kind, h');
    hide Learn;
    DecodeField(st.outb, c, l', cap, fields, h');
  }

  lemma AgreesEmit(st: State, end: State, b: Bytes, l: Layout, h: Header, mapped: Bytes, tail: Bytes,
                   mapping: ValueMap, cap: nat, fields: bool)
    requires Valid(st) && Carries(st.inb.entries, b, l, l.kind == Incremental, h)
    requires mapping(h.0, h.1) == Some(mapped) && |h.0| <= MAX_BLOCK && |mapped| <= MAX_BLOCK
    requires Agrees(DecodeBlock(Learn(st.inb, l.kind, h), b[l.len..], cap, true),
                    DecodeBlock(Learn(st.outb, l.kind, (h.0, mapped)), tail, cap, true), end, mapping)
    ensures Agrees(DecodeBlock(st.inb, b, cap, fields),
                   DecodeBlock(st.outb, Emit(st.outb.entries, b, l, h, mapped) + tail, cap, fields), end, mapping)
  {
    hide LayoutOf, FieldOf, Emit, Learn, DecodeBlock;
    var e := Emit(st.outb.entries, b, l, h, mapped);
    var l' := EmitReadsBack(st, b, l, h, mapped, tail);
    assert (e + tail)[l'.len..] == tail;
    AgreesField(st, end, b, l, h, (h.0, mapped), e + tail, l', mapping, cap, fields);
  }

  lemma NoTurn(st: State, scan: Scan, out: Bytes, mapping: ValueMap, cap: nat)
    ensures RewriteFrom(st, scan, out, [], mapping, cap) == Some(Outcome(st, scan, out))
    ensures Agrees(DecodeBlock(st.inb, [], cap, scan.fields), DecodeBlock(st.outb, [], cap, scan.fields), st, mapping)
  {
  }

  /** One turn of the loop that meets a field. */
  lemma FieldTurn(st: State, scan: Scan, out: Bytes, b: Bytes, mapping: ValueMap, cap: nat)
    returns (l: Layout, h: Header, mapped: Bytes, step: Step)
    requires b != [] && KindOf(b[0]) != Update && RewriteFrom(st, scan, out, b, mapping, cap).Some?
    ensures Carries(st.inb.entries, b, l, l.kind == Incremental, h) && mapping(h.0, h.1) == Some(mapped)
    ensures FieldStep(st, scan, b, l, mapping) == Some(step)
    ensures |h.0| <= MAX_BLOCK && |mapped| <= MAX_BLOCK && step.scan.fields
    ensures step.bytes == Emit(st.outb.entries, b, l, h, mapped)
    ensures step.st == State(Learn(st.inb, l.kind, h), Learn(st.outb, l.kind, (h.0, mapped)))
    ensures RewriteFrom(st, scan, out, b, mapping, cap)
            == RewriteFrom(step.st, step.scan, out + step.bytes, b[l.len..], mapping, cap)
    ensures Admit(scan, h, mapped) == Some(step.scan)
  {
    hide LayoutOf, FieldOf, Emit, Learn, Admit;
    l := LayoutOf(b).value;
    h := FieldOf(st.inb.entries, b, l).value;
    mapped := mapping(h.0, h.1).value;
    step := FieldStep(st, scan, b, l, mapping).value;
    AdmittedSizes(scan, h, mapped);
    AdmitFields(scan, h, mapped);
  }

  /** One turn of the loop that meets a table-size update. */
  lemma UpdateTurn(st: State, scan: Scan, out: Bytes, b: Bytes, mapping: ValueMap, cap: nat) returns (l: Layout)
    requires b != [] && KindOf(b[0]) == Update && RewriteFrom(st, scan, out, b, mapping, cap).Some?
    ensures IsLayout(b, l) && !scan.fields && l.index <= cap
    ensures RewriteFrom(st, scan, out, b, mapping, cap)
            == RewriteFrom(State(Resize(st.inb, l.index), Resize(st.outb, l.index)), scan,
                           out + b[..l.len], b[l.len..], mapping, cap)
  {
    hide LayoutOf, Fit;
    l := LayoutOf(b).value;
  }

  /** A call that succeeds emits a block the receiver decodes to the mapped headers. */
  lemma {:induction false} MeaningFrom(st: State, scan: Scan, out: Bytes, b: Bytes, mapping: ValueMap, cap: nat)
    requires Valid(st) && cap <= MAX_TABLE && RewriteFrom(st, scan, out, b, mapping, cap).Some?
    ensures var o := RewriteFrom(st, scan, out, b, mapping, cap).value;
            && Valid(o.st) && out <= o.out
            && Agrees(DecodeBlock(st.inb, b, cap, scan.fields),
                      DecodeBlock(st.outb, o.out[|out|..], cap, scan.fields), o.st, mapping)
    decreases |b|
  {
    hide RewriteFrom, LayoutOf, FieldOf, FieldStep, Emit, Learn, Resize, Admit, DecodeBlock, Agrees, Valid;
    var o := RewriteFrom(st, scan, out, b, mapping, cap).value;
    if b == [] {
      NoTurn(st, scan, out, mapping, cap);
      assert out[|out|..] == [];
    } else {
      if KindOf(b[0]) == Update {
        var l := UpdateTurn(st, scan, out, b, mapping, cap);
        var wire := b[..l.len];
        ResizeValid(st, l.index);
        MeaningFrom(State(Resize(st.inb, l.index), Resize(st.outb, l.index)), scan, out + wire, b[l.len..],
                    mapping, cap);
        var tail := o.out[|out + wire|..];
        assert o.out[|out|..] == wire + tail;
        AgreesUpdate(st, o.st, b, l, tail, mapping, cap);
      } else {
        var l, h, mapped, step := FieldTurn(st, scan, out, b, mapping, cap);
        LearnValid(st, l.kind, h, (h.0, mapped));
        MeaningFrom(step.st, step.scan, out + step.bytes, b[l.len..], mapping, cap);
        var tail := o.out[|out + step.bytes|..];
        assert o.out[|out|..] == step.bytes + tail;
        AgreesEmit(st, o.st, b, l, h, mapped, tail, mapping, cap, scan.fields);
      }
    }
  }

  lemma AdmitFields(scan: Scan, h: Header, mapped: Bytes)
    requires Admit(scan, h, mapped).Some?
    ensures Admit(scan, h, mapped).value.fields
  {
  }

  lemma SameLearning(t: Dyn, k: Kind, k': Kind, h: Header)
    requires k == Incremental <==> k' == Incremental
    ensures Learn(t, k, h) == Learn(t, k', h)
  {
  }
}
