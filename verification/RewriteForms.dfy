/** In which representation each field of every run leaves: what is kept, re-found, spelled out, and how. */
module RewriteForms {
  import opened Octets
  import opened HpackInteger
  import opened StaticTable
  import opened HpackTable
  import opened HpackReference
  import opened RewriteSpec
  import opened RewriteMeaning
  import opened RewriteTheorems
  import opened RewriteRuns

  // ----- Where the receiver has an entry -----

  /** The entry at `index` has the name and, if one is asked for, the value. */
  ghost predicate HasAt(entries: seq<Header>, index: nat, name: Bytes, value: Option<Bytes>) {
    && Get(entries, index).Some? && Get(entries, index).value.0 == name
    && (value.Some? ==> Get(entries, index).value.1 == value.value)
  }

  /** `index` is the first such entry of the static and then the dynamic table, 0 if there is none. */
  ghost predicate FirstAt(entries: seq<Header>, index: nat, name: Bytes, value: Option<Bytes>) {
    && (index != 0 ==> HasAt(entries, index, name, value))
    && forall i: nat :: HasAt(entries, i, name, value) ==> index != 0 && index <= i
  }

  lemma FoundFirst(entries: seq<Header>, preferred: nat, name: Bytes, value: Option<Bytes>)
    ensures var r := Find(entries, preferred, name, value);
            if HasAt(entries, preferred, name, value) then r == preferred else FirstAt(entries, r, name, value)
  {
    hide Get, Position;
    var r := Find(entries, preferred, name, value);
    forall i: nat | HasAt(entries, i, name, value) ensures r != 0 && (r == preferred || r <= i) {
      assert Matches(Get(entries, i).value, name, value);
    }
  }

  // ----- Forms -----

  /** `w` is a string literal that spells `text`, Huffman coded or plain. */
  ghost predicate Spells(w: Bytes, text: Bytes, huffman: bool) {
    w != [] && StringLength(w) == Some(|w|) && StringText(w) == Some(text) && (w[0] >= 128 <==> huffman)
  }

  /** `e` is the one representation `m`. */
  ghost predicate Whole(e: Bytes, m: Layout) {
    IsLayout(e, m) && m.len == |e|
  }

  /** A name by the first index that has it, or spelled out plainly where none has. */
  ghost predicate NamedAnew(entries: seq<Header>, name: Bytes, e: Bytes, m: Layout)
    requires Whole(e, m)
  {
    FirstAt(entries, m.index, name, None) && (m.index == 0 ==> Spells(e[m.nameAt..m.valueAt], name, false))
  }

  /**
   An indexed field is left as it is where the receiver has it; otherwise it is re-found where the
   receiver has it elsewhere; otherwise it becomes a literal without indexing, its value plain.
   */
  ghost predicate IndexedForm(entries: seq<Header>, b: Bytes, l: Layout, h: Header, v: Bytes, e: Bytes, m: Layout) {
    && Whole(e, m) && l.len <= |b|
    && if HasAt(entries, l.index, h.0, Some(v)) then e == b[..l.len]
       else if exists i: nat :: HasAt(entries, i, h.0, Some(v)) then
         m.kind == Indexed && FirstAt(entries, m.index, h.0, Some(v))
       else m.kind == Without && NamedAnew(entries, h.0, e, m) && Spells(e[m.valueAt..], v, false)
  }

  /**
   A literal stays of its kind. Its front is left as it is if it spells the name out or the receiver has the
   name there; a value that does not change is left as it is, and one that does is Huffman coded exactly if
   the old one was.
   */
  ghost predicate LiteralForm(entries: seq<Header>, b: Bytes, l: Layout, h: Header, v: Bytes, e: Bytes, m: Layout) {
    && Whole(e, m) && l.valueAt < l.len <= |b| && m.kind == l.kind
    && (if l.index == 0 || HasAt(entries, l.index, h.0, None)
        then m.valueAt == l.valueAt && e[..m.valueAt] == b[..l.valueAt]
        else NamedAnew(entries, h.0, e, m))
    && if v == h.1 then e[m.valueAt..] == b[l.valueAt..l.len] else Spells(e[m.valueAt..], v, b[l.valueAt] >= 128)
  }

  lemma LiteralIsForm(st: State, b: Bytes, l: Layout, h: Header, v: Bytes) returns (m: Layout)
    requires Valid(st) && IsLayout(b, l) && IsLiteral(l.kind)
    requires FieldOf(st.inb.entries, b, l) == Some(h) && |h.0| <= MAX_BLOCK && |v| <= MAX_BLOCK
    ensures LiteralForm(st.outb.entries, b, l, h, v, Emit(st.outb.entries, b, l, h, v), m)
  {
    hide ReadInt, StringLength, StringText, LayoutOf, StringBytes, PutName, PutIndex, FieldOf, Get, Find;
    var entries := st.outb.entries;
    var wire := b[..l.len];
    PartLengths(b, l);
    ValueAt(b, l);
    assert wire[l.valueAt..] == b[l.valueAt..l.len] && wire[..l.valueAt] == b[..l.valueAt];
    StringReadsBack(v, b[l.valueAt] >= 128);
    FieldTexts(st.inb.entries, b, l, h);
    var w := EmitValue(l, h.1, v, wire);
    var e := Emit(entries, b, l, h, v);
    assert e + [] == e;
    var target := if l.index == 0 then 0 else Find(entries, l.index, h.0, None);
    if l.index != 0 {
      FoundFirst(entries, l.index, h.0, None);
    }
    if target == l.index {
      m := KeptHeadReadsBack(entries, b, l, h.0, w, []);
      assert e == b[..l.valueAt] + w;
    } else {
      m := PutNameReadsBack(entries, l.kind, target, h.0, w, []);
      StringReadsBack(h.0, false);
      assert e == PutName(l.kind, target, h.0) + w;
    }
  }

  lemma FieldTexts(entries: seq<Header>, b: Bytes, l: Layout, h: Header)
    requires IsLayout(b, l) && IsLiteral(l.kind) && FieldOf(entries, b, l) == Some(h)
    ensures (PartLengths(b, l); StringText(b[l.valueAt..l.len]) == Some(h.1))
    ensures l.index == 0 ==> (PartLengths(b, l); StringText(b[l.nameAt..l.valueAt]) == Some(h.0))
  {
    hide LayoutOf, StringText, Get;
    PartLengths(b, l);
  }

  lemma IndexNotZero(entries: seq<Header>, b: Bytes, l: Layout)
    requires IsLayout(b, l) && l.kind == Indexed && FieldOf(entries, b, l).Some?
    ensures l.index != 0
  {
    hide LayoutOf;
  }

  lemma IndexedIsForm(st: State, b: Bytes, l: Layout, h: Header, v: Bytes) returns (m: Layout)
    requires Valid(st) && IsLayout(b, l) && l.kind == Indexed
    requires FieldOf(st.inb.entries, b, l) == Some(h) && |h.0| <= MAX_BLOCK && |v| <= MAX_BLOCK
    ensures IndexedForm(st.outb.entries, b, l, h, v, Emit(st.outb.entries, b, l, h, v), m)
  {
    hide ReadInt, StringLength, StringText, LayoutOf, StringBytes, PutName, PutIndex, FieldOf, Get, Find;
    var entries := st.outb.entries;
    var e := Emit(entries, b, l, h, v);
    assert e + [] == e;
    IndexNotZero(st.inb.entries, b, l);
    FoundFirst(entries, l.index, h.0, Some(v));
    var target := Find(entries, l.index, h.0, Some(v));
    if target == l.index {
      LayoutStable(b, l, []);
      m := l;
      assert b[..l.len] + [] == e;
    } else if target != 0 {
      m := NewIndexReadsBack(entries, target, []);
      assert e == PutIndex(Indexed, target);
    } else {
      FoundFirst(entries, 0, h.0, None);
      StringReadsBack(v, false);
      StringReadsBack(h.0, false);
      var name := Find(entries, 0, h.0, None);
      m := PutNameReadsBack(entries, Without, name, h.0, StringBytes(v, false), []);
      assert e == PutName(Without, name, h.0) + StringBytes(v, false);
    }
  }

  // ----- Over every run -----

  /** In every accepted run every field leaves in the form above, whole and in its place in the block. */
  lemma EveryFieldForm(calls: seq<Call>, mapping: ValueMap, response: bool, k: nat, n: nat, p: Point, q: Point,
                       l: Layout)
    returns (h: Header, v: Bytes, m: Layout)
    requires RewriteAll(INITIAL, calls, mapping, response).Some?
    requires FieldAt(calls, mapping, response, k, n, p, q, l)
    ensures k < |RewriteAll(INITIAL, calls, mapping, response).value.1|
    ensures p.out <= q.out <= RewriteAll(INITIAL, calls, mapping, response).value.1[k].block
    ensures FieldOf(p.st.inb.entries, p.rest, l) == Some(h) && mapping(h.0, h.1) == Some(v)
    ensures if l.kind == Indexed then IndexedForm(p.st.outb.entries, p.rest, l, h, v, q.out[|p.out|..], m)
            else LiteralForm(p.st.outb.entries, p.rest, l, h, v, q.out[|p.out|..], m)
  {
    hide RewriteAll, NextPoint, PointAt, Valid, Simulated, Emit, LayoutOf, FieldOf, IndexedForm, LiteralForm;
    FieldInStep(calls, mapping, response, k, n, p, q, l);
    h, v := FieldWritten(p, q, l, mapping, Cap(calls[k].limit));
    assert q.out[|p.out|..] == Emit(p.st.outb.entries, p.rest, l, h, v);
    if l.kind == Indexed {
      m := IndexedIsForm(p.st, p.rest, l, h, v);
    } else {
      m := LiteralIsForm(p.st, p.rest, l, h, v);
    }
  }
}
