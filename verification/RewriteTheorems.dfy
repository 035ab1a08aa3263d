/** Whole connections: meaning, the two tables as one history, and when bytes stay as they were. */
module RewriteTheorems {
  import opened Octets
  import opened HpackInteger
  import opened StaticTable
  import opened HpackTable
  import opened HpackReference
  import opened RewriteSpec
  import opened RewriteMeaning

  // ----- Runs -----

  /** One call of `rewrite`: a header block and the receiver's table limit at that moment. */
  datatype Call = Call(block: Bytes, limit: nat)

  function RewriteAll(st: State, calls: seq<Call>, mapping: ValueMap, response: bool): Option<(State, seq<Call>)>
    decreases |calls|
  {
    if calls == [] then Some((st, []))
    else match Rewrite(st, calls[0].block, mapping, response, calls[0].limit)
      case None => None
      case Some((st', out)) =>
        match RewriteAll(st', calls[1..], mapping, response)
        case None => None
        case Some((end, outs)) => Some((end, [calls[0].(block := out)] + outs))
  }

  /** What a decoder makes of a run of blocks: each header list, its table and all insertions, newest first. */
  datatype Session = Session(lists: seq<seq<Header>>, table: Dyn, history: seq<Header>)

  function DecodeAll(t: Dyn, calls: seq<Call>): Option<Session>
    decreases |calls|
  {
    if calls == [] then Some(Session([], t, []))
    else match DecodeBlock(t, calls[0].block, Cap(calls[0].limit), false)
      case None => None
      case Some(d) =>
        match DecodeAll(d.table, calls[1..])
        case None => None
        case Some(s) => Some(Session([d.headers] + s.lists, s.table, s.history + d.inserted))
  }

  ghost predicate MappedLists(xs: seq<seq<Header>>, ys: seq<seq<Header>>, mapping: ValueMap) {
    |xs| == |ys| && forall i :: 0 <= i < |xs| ==> Mapped(xs[i], ys[i], mapping)
  }

  lemma BlockMeaning(st: State, block: Bytes, mapping: ValueMap, response: bool, limit: nat)
    requires Valid(st) && Rewrite(st, block, mapping, response, limit).Some?
    ensures var (end, out) := Rewrite(st, block, mapping, response, limit).value;
            && Valid(end)
            && Agrees(DecodeBlock(st.inb, block, Cap(limit), false),
                      DecodeBlock(st.outb, out, Cap(limit), false), end, mapping)
  {
    hide RewriteFrom, DecodeBlock, Valid, Agrees;
    MeaningFrom(st, START, [], block, mapping, Cap(limit));
    var o := RewriteFrom(st, START, [], block, mapping, Cap(limit)).value;
    assert o.out[0..] == o.out;
  }

  lemma {:induction false} RunMeaning(st: State, calls: seq<Call>, mapping: ValueMap, response: bool)
    requires Valid(st) && RewriteAll(st, calls, mapping, response).Some?
    ensures var (end, outs) := RewriteAll(st, calls, mapping, response).value;
            && Valid(end) && |outs| == |calls|
            && (forall i :: 0 <= i < |calls| ==> outs[i].limit == calls[i].limit)
            && DecodeAll(st.inb, calls).Some? && DecodeAll(st.outb, outs).Some?
            && var (a, b) := (DecodeAll(st.inb, calls).value, DecodeAll(st.outb, outs).value);
               && a.table == end.inb && b.table == end.outb
               && MappedLists(a.lists, b.lists, mapping) && Mapped(a.history, b.history, mapping)
    decreases |calls|
  {
    hide Rewrite, DecodeBlock, Valid;
    if calls != [] {
      BlockMeaning(st, calls[0].block, mapping, response, calls[0].limit);
      var (st', out) := Rewrite(st, calls[0].block, mapping, response, calls[0].limit).value;
      RunMeaning(st', calls[1..], mapping, response);
      var (end, outs) := RewriteAll(st', calls[1..], mapping, response).value;
      assert ([calls[0].(block := out)] + outs)[1..] == outs;
    }
  }

  lemma {:induction false} SessionHistory(t: Dyn, calls: seq<Call>)
    requires DecodeAll(t, calls).Some?
    ensures var s := DecodeAll(t, calls).value; s.table.entries <= s.history + t.entries
    decreases |calls|
  {
    hide DecodeBlock;
    if calls != [] {
      TableIsRecentHistory(t, calls[0].block, Cap(calls[0].limit), false);
      var d := DecodeBlock(t, calls[0].block, Cap(calls[0].limit), false).value;
      SessionHistory(d.table, calls[1..]);
      var s := DecodeAll(d.table, calls[1..]).value;
      PrefixTrans(s.table.entries, s.history, d.table.entries, d.inserted + t.entries);
      assert s.history + (d.inserted + t.entries) == (s.history + d.inserted) + t.entries;
    }
  }

  /** The bridge's two tables are the front of one history, the receiver's with mapped values. */
  ghost predicate Simulated(st: State, history: seq<Header>, mapped: seq<Header>, mapping: ValueMap) {
    st.inb.entries <= history && st.outb.entries <= mapped && Mapped(history, mapped, mapping)
  }

  /**
   Over any connection the bridge accepts, a receiver that follows RFC 7541 decodes, block by block,
   the sender's headers with mapped values; both tables are the fronts of one insertion history.
   */
  lemma ConnectionMeaning(calls: seq<Call>, mapping: ValueMap, response: bool)
    requires RewriteAll(INITIAL, calls, mapping, response).Some?
    ensures var (end, outs) := RewriteAll(INITIAL, calls, mapping, response).value;
            && Valid(end) && |outs| == |calls|
            && DecodeAll(INITIAL.inb, calls).Some? && DecodeAll(INITIAL.outb, outs).Some?
            && var (sent, received) := (DecodeAll(INITIAL.inb, calls).value, DecodeAll(INITIAL.outb, outs).value);
               && MappedLists(sent.lists, received.lists, mapping)
               && sent.table == end.inb && received.table == end.outb
               && Simulated(end, sent.history, received.history, mapping)
  {
    hide RewriteAll, DecodeAll;
    RunMeaning(INITIAL, calls, mapping, response);
    var outs := RewriteAll(INITIAL, calls, mapping, response).value.1;
    SessionHistory(INITIAL.inb, calls);
    SessionHistory(INITIAL.outb, outs);
    var a, b := DecodeAll(INITIAL.inb, calls).value, DecodeAll(INITIAL.outb, outs).value;
    assert a.history + INITIAL.inb.entries == a.history;
    assert b.history + INITIAL.outb.entries == b.history;
  }

  // ----- When an index stays -----

  /** The mapping leaves the static entries alone where it is defined on them. */
  ghost predicate StaticFixed(mapping: ValueMap) {
    forall i: nat :: 1 <= i <= STATIC_SIZE ==>
      mapping(Static(i).0, Static(i).1).None? || mapping(Static(i).0, Static(i).1) == Some(Static(i).1)
  }

  lemma SharedEntry(st: State, history: seq<Header>, mapped: seq<Header>, mapping: ValueMap, index: nat)
    requires Simulated(st, history, mapped, mapping) && StaticFixed(mapping)
    requires Get(st.inb.entries, index).Some? && Get(st.outb.entries, index).Some?
    ensures var (h, h') := (Get(st.inb.entries, index).value, Get(st.outb.entries, index).value);
            h'.0 == h.0 && (mapping(h.0, h.1).Some? ==> mapping(h.0, h.1) == Some(h'.1))
  {
    hide Static;
    if index > STATIC_SIZE {
      var i := index - STATIC_SIZE - 1;
      assert st.inb.entries[i] == history[i] && st.outb.entries[i] == mapped[i];
    }
  }

  /** An indexed header keeps its octets exactly when the receiver still has the entry. */
  lemma IndexedKeptIffPresent(st: State, history: seq<Header>, mapped: seq<Header>, mapping: ValueMap,
                              b: Bytes, l: Layout, h: Header, v: Bytes)
    requires Valid(st) && Simulated(st, history, mapped, mapping) && StaticFixed(mapping)
    requires IsLayout(b, l) && l.kind == Indexed && FieldOf(st.inb.entries, b, l) == Some(h)
    requires mapping(h.0, h.1) == Some(v) && |h.0| <= MAX_BLOCK && |v| <= MAX_BLOCK
    ensures Emit(st.outb.entries, b, l, h, v) == b[..l.len] <==> Get(st.outb.entries, l.index).Some?
  {
    hide LayoutOf, Get;
    if Get(st.outb.entries, l.index).Some? {
      SharedEntry(st, history, mapped, mapping, l.index);
    } else {
      var l' := EmitReadsBack(st, b, l, h, v, []);
      LayoutStable(b, l, []);
    }
  }

  /** A literal starts with the octets of its index and name exactly when the receiver still has the entry. */
  lemma NameKeptIffPresent(st: State, history: seq<Header>, mapped: seq<Header>, mapping: ValueMap,
                           b: Bytes, l: Layout, h: Header, v: Bytes)
    requires Valid(st) && Simulated(st, history, mapped, mapping)
    requires IsLayout(b, l) && IsLiteral(l.kind) && FieldOf(st.inb.entries, b, l) == Some(h)
    requires mapping(h.0, h.1) == Some(v) && |h.0| <= MAX_BLOCK && |v| <= MAX_BLOCK
    ensures var kept := l.index == 0 || Get(st.outb.entries, l.index).Some?;
            && (b[..l.valueAt] <= Emit(st.outb.entries, b, l, h, v) <==> kept)
            && (kept ==> EmitHead(st.outb.entries, l, h.0, b[..l.len]) == b[..l.valueAt])
  {
    hide LayoutOf, Get, FieldOf;
    assert b[..l.len][..l.valueAt] == b[..l.valueAt];
    var e := Emit(st.outb.entries, b, l, h, v);
    if l.index == 0 {
    } else if Get(st.outb.entries, l.index).Some? {
      NameEntry(st.inb.entries, b, l, h);
      SharedName(st, history, mapped, mapping, l.index);
    } else if b[..l.valueAt] <= e {
      var l' := EmitReadsBack(st, b, l, h, v, []);
      LayoutInteger(b, l);
      LayoutInteger(e + [], l');
      assert e + [] == b[..l.nameAt] + (e + [])[l.nameAt..];
      Stable(b, (e + [])[l.nameAt..], PrefixBits(l.kind), ROOM);
      assert (e + [])[0] == b[0];
      NameEntry(st.outb.entries, e + [], l', (h.0, v));
      assert false;
    }
  }

  lemma NameEntry(entries: seq<Header>, b: Bytes, l: Layout, h: Header)
    requires IsLayout(b, l) && IsLiteral(l.kind) && l.index != 0 && FieldOf(entries, b, l) == Some(h)
    ensures Get(entries, l.index).Some? && Get(entries, l.index).value.0 == h.0
  {
    hide LayoutOf, Get, StringText;
  }

  lemma SharedName(st: State, history: seq<Header>, mapped: seq<Header>, mapping: ValueMap, index: nat)
    requires Simulated(st, history, mapped, mapping)
    requires Get(st.inb.entries, index).Some? && Get(st.outb.entries, index).Some?
    ensures Get(st.outb.entries, index).value.0 == Get(st.inb.entries, index).value.0
  {
    hide Static;
    if index > STATIC_SIZE {
      var i := index - STATIC_SIZE - 1;
      assert st.inb.entries[i] == history[i] && st.outb.entries[i] == mapped[i];
    }
  }
}
