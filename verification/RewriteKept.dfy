/** When no value grows every index stays; when no value changes every octet stays. */
module RewriteKept {
  import opened Octets
  import opened HpackInteger
  import opened StaticTable
  import opened HpackTable
  import opened HpackReference
  import opened RewriteSpec
  import opened RewriteMeaning
  import opened RewriteTheorems

  // ----- No growth -----

  ghost predicate NoGrowth(headers: seq<Header>, mapping: ValueMap) {
    forall i :: 0 <= i < |headers| ==>
      var v := mapping(headers[i].0, headers[i].1); v.Some? ==> |v.value| <= |headers[i].1|
  }

  /** The receiver holds at least the sender's entries, none of them larger. */
  ghost predicate Retains(st: State, mapping: ValueMap) {
    ShrunkFront(st.inb.entries, st.outb.entries, mapping)
  }

  ghost predicate ShrunkFront(xs: seq<Header>, ys: seq<Header>, mapping: ValueMap) {
    |xs| <= |ys| && forall i :: 0 <= i < |xs| ==> Shrunk(xs[i], ys[i], mapping)
  }

  ghost predicate Shrunk(h: Header, h': Header, mapping: ValueMap) {
    h'.0 == h.0 && mapping(h.0, h.1) == Some(h'.1) && |h'.1| <= |h.1|
  }

  /** Two blocks that differ at most in value literals: same kinds, indices, new names and updates. */
  ghost predicate HeadsKept(b: Bytes, c: Bytes)
    decreases |b|
  {
    if b == [] then c == []
    else
      && c != [] && LayoutOf(b).Some? && LayoutOf(c).Some?
      && var (l, k) := (LayoutOf(b).value, LayoutOf(c).value);
         && k.valueAt == l.valueAt && c[..k.valueAt] == b[..l.valueAt]
         && HeadsKept(b[l.len..], c[k.len..])
  }

  lemma {:induction false} ShrunkSize(xs: seq<Header>, ys: seq<Header>, mapping: ValueMap)
    requires ShrunkFront(xs, ys, mapping)
    ensures Size(ys[..|xs|]) <= Size(xs)
  {
    if xs != [] {
      assert Shrunk(xs[0], ys[0], mapping);
      ShrunkSize(xs[1..], ys[1..], mapping);
      assert ys[1..][..|xs| - 1] == ys[..|xs|][1..];
    }
  }

  lemma ShrunkTake(xs: seq<Header>, ys: seq<Header>, n: nat, m: nat, mapping: ValueMap)
    requires ShrunkFront(xs, ys, mapping) && n <= |xs| && n <= m <= |ys|
    ensures ShrunkFront(xs[..n], ys[..m], mapping)
  {
  }

  /** Smaller entries in front: at least as many of them fit. */
  lemma FitRetains(xs: seq<Header>, ys: seq<Header>, limit: nat, mapping: ValueMap)
    requires ShrunkFront(xs, ys, mapping)
    ensures ShrunkFront(Fit(xs, limit), Fit(ys, limit), mapping)
  {
    hide ShrunkFront;
    var n, m := |Fit(xs, limit)|, |Fit(ys, limit)|;
    FitIsFront(xs, limit);
    FitIsFront(ys, limit);
    hide Fit;
    Lengths(xs, ys, mapping);
    ShrunkTake(xs, ys, n, |ys|, mapping);
    assert ys[..|ys|] == ys;
    ShrunkSize(xs[..n], ys, mapping);
    FitReaches(ys, limit, n);
    ShrunkTake(xs, ys, n, m, mapping);
  }

  lemma Lengths(xs: seq<Header>, ys: seq<Header>, mapping: ValueMap)
    requires ShrunkFront(xs, ys, mapping)
    ensures |xs| <= |ys|
  {
  }

  lemma FitIsFront(xs: seq<Header>, limit: nat)
    ensures |Fit(xs, limit)| <= |xs| && Fit(xs, limit) == xs[..|Fit(xs, limit)|] && Size(Fit(xs, limit)) <= limit
  {
    hide Fit;
  }

  lemma FitReaches(ys: seq<Header>, limit: nat, n: nat)
    requires n <= |ys| && Size(ys[..n]) <= limit
    ensures n <= |Fit(ys, limit)|
  {
    var g := Fit(ys, limit);
    if |g| < n {
      SizeGrows(ys, |g| + 1, n);
    }
  }

  lemma LearnRetains(st: State, kind: Kind, h: Header, v: Bytes, mapping: ValueMap)
    requires Valid(st) && Retains(st, mapping) && Shrunk(h, (h.0, v), mapping)
    ensures Retains(State(Learn(st.inb, kind, h), Learn(st.outb, kind, (h.0, v))), mapping)
  {
    if kind == Incremental {
      InsertThenEvict(st.inb, h);
      InsertThenEvict(st.outb, (h.0, v));
      FitRetains([h] + st.inb.entries, [(h.0, v)] + st.outb.entries, st.inb.limit, mapping);
    }
  }

  lemma RetainedEntry(st: State, mapping: ValueMap, index: nat)
    requires Retains(st, mapping) && StaticFixed(mapping) && Get(st.inb.entries, index).Some?
    ensures Get(st.outb.entries, index).Some?
    ensures var (h, h') := (Get(st.inb.entries, index).value, Get(st.outb.entries, index).value);
            h'.0 == h.0 && (mapping(h.0, h.1).Some? ==> mapping(h.0, h.1) == Some(h'.1))
  {
    hide Static;
    if index > STATIC_SIZE {
      var i := index - STATIC_SIZE - 1;
      assert Shrunk(st.inb.entries[i], st.outb.entries[i], mapping);
    }
  }

  /** What is written for a field starts with the received front part; only the value may differ. */
  lemma EmitKeepsHead(st: State, b: Bytes, l: Layout, h: Header, v: Bytes, mapping: ValueMap, tail: Bytes)
    returns (k: Layout)
    requires Valid(st) && Retains(st, mapping) && StaticFixed(mapping)
    requires Carries(st.inb.entries, b, l, l.kind == Incremental, h) && mapping(h.0, h.1) == Some(v)
    requires |h.0| <= MAX_BLOCK && |v| <= MAX_BLOCK
    ensures var e := Emit(st.outb.entries, b, l, h, v);
            IsLayout(e + tail, k) && k.len == |e| && k.valueAt == l.valueAt && (e + tail)[..k.valueAt] == b[..l.valueAt]
  {
    hide ReadInt, StringLength, StringText, LayoutOf, StringBytes, PutName, PutIndex, Get, Retains, StaticFixed;
    var wire := b[..l.len];
    assert wire[..l.valueAt] == b[..l.valueAt];
    if l.kind == Indexed {
      RetainedEntry(st, mapping, l.index);
      LayoutStable(b, l, tail);
      k := l;
    } else {
      PartLengths(b, l);
      var w := EmitValue(l, h.1, v, wire);
      assert wire[l.valueAt..] == b[l.valueAt..l.len];
      StringReadsBack(v, b[l.valueAt] >= 128);
      if l.index != 0 {
        RetainedEntry(st, mapping, l.index);
      }
      k := KeptHeadReadsBack(st.outb.entries, b, l, h.0, w, tail);
    }
  }

  lemma DecodeUpdate(t: Dyn, b: Bytes, l: Layout, cap: nat)
    requires IsLayout(b, l) && l.kind == Update && l.index <= cap
    ensures DecodeBlock(t, b, cap, false) == DecodeBlock(Resize(t, l.index), b[l.len..], cap, false)
  {
    hide LayoutOf, Fit;
  }

  lemma NoGrowthTail(h: Header, rest: seq<Header>, mapping: ValueMap)
    requires NoGrowth([h] + rest, mapping)
    ensures NoGrowth(rest, mapping) && NoGrowth([h], mapping)
  {
    forall i | 0 <= i < |rest|
      ensures var v := mapping(rest[i].0, rest[i].1); v.Some? ==> |v.value| <= |rest[i].1|
    {
      assert ([h] + rest)[i + 1] == rest[i];
    }
    assert ([h] + rest)[0] == h;
  }

  lemma KeptTurn(b: Bytes, c: Bytes, l: Layout, k: Layout)
    requires IsLayout(b, l) && IsLayout(c, k) && k.valueAt == l.valueAt && c[..k.valueAt] == b[..l.valueAt]
    requires HeadsKept(b[l.len..], c[k.len..])
    ensures HeadsKept(b, c)
  {
    hide LayoutOf;
  }

  lemma {:induction false} KeptFrom(st: State, scan: Scan, out: Bytes, b: Bytes, mapping: ValueMap, cap: nat)
    requires Valid(st) && cap <= MAX_TABLE && RewriteFrom(st, scan, out, b, mapping, cap).Some?
    requires Retains(st, mapping) && StaticFixed(mapping)
    requires DecodeBlock(st.inb, b, cap, scan.fields).Some?
    requires NoGrowth(DecodeBlock(st.inb, b, cap, scan.fields).value.headers, mapping)
    ensures var o := RewriteFrom(st, scan, out, b, mapping, cap).value;
            out <= o.out && HeadsKept(b, o.out[|out|..]) && Retains(o.st, mapping)
    decreases |b|
  {
    hide RewriteFrom, LayoutOf, FieldOf, FieldStep, Emit, Learn, Admit, DecodeBlock, Agrees, Valid, Retains,
         HeadsKept, NoGrowth, StaticFixed, Fit;
    var o := RewriteFrom(st, scan, out, b, mapping, cap).value;
    if b == [] {
      NoTurn(st, scan, out, mapping, cap);
      KeptNothing(o.out[|out|..]);
    } else if KindOf(b[0]) == Update {
      var l := UpdateTurn(st, scan, out, b, mapping, cap);
      var wire := b[..l.len];
      ResizeValid(st, l.index);
      ResizeRetains(st, l.index, mapping);
      DecodeUpdate(st.inb, b, l, cap);
      KeptFrom(State(Resize(st.inb, l.index), Resize(st.outb, l.index)), scan, out + wire, b[l.len..], mapping, cap);
      var tail := o.out[|out + wire|..];
      assert o.out[|out|..] == wire + tail;
      LayoutStable(b, l, tail);
      assert (wire + tail)[l.len..] == tail && (wire + tail)[..l.valueAt] == b[..l.valueAt];
      KeptTurn(b, wire + tail, l, l);
    } else {
      var l, h, v, step := FieldTurn(st, scan, out, b, mapping, cap);
      LearnValid(st, l.kind, h, (h.0, v));
      DecodeField(st.inb, b, l, cap, scan.fields, h);
      NoGrowthTail(h, DecodeBlock(Learn(st.inb, l.kind, h), b[l.len..], cap, true).value.headers, mapping);
      NoGrowthHead(h, v, mapping);
      LearnRetains(st, l.kind, h, v, mapping);
      KeptFrom(step.st, step.scan, out + step.bytes, b[l.len..], mapping, cap);
      var tail := o.out[|out + step.bytes|..];
      assert o.out[|out|..] == step.bytes + tail;
      var k := EmitKeepsHead(st, b, l, h, v, mapping, tail);
      assert (step.bytes + tail)[k.len..] == tail;
      KeptTurn(b, step.bytes + tail, l, k);
    }
  }

  lemma KeptNothing(c: Bytes)
    requires c == []
    ensures HeadsKept([], c)
  {
  }

  lemma NoGrowthHead(h: Header, v: Bytes, mapping: ValueMap)
    requires NoGrowth([h], mapping) && mapping(h.0, h.1) == Some(v)
    ensures Shrunk(h, (h.0, v), mapping)
  {
    assert [h][0] == h;
  }

  lemma ResizeRetains(st: State, limit: nat, mapping: ValueMap)
    requires Retains(st, mapping)
    ensures Retains(State(Resize(st.inb, limit), Resize(st.outb, limit)), mapping)
  {
    FitRetains(st.inb.entries, st.outb.entries, limit, mapping);
  }

  /**
   Over any connection on which no mapped value is longer than the original, every index and every
   table update is emitted as received, and the receiver never holds fewer entries than the sender.
   */
  lemma {:induction false} NoGrowthNoReindexing(st: State, calls: seq<Call>, mapping: ValueMap, response: bool)
    requires Valid(st) && Retains(st, mapping) && StaticFixed(mapping)
    requires RewriteAll(st, calls, mapping, response).Some? && DecodeAll(st.inb, calls).Some?
    requires forall i :: 0 <= i < |DecodeAll(st.inb, calls).value.lists| ==>
               NoGrowth(DecodeAll(st.inb, calls).value.lists[i], mapping)
    ensures var (end, outs) := RewriteAll(st, calls, mapping, response).value;
            && Retains(end, mapping) && |outs| == |calls|
            && forall i :: 0 <= i < |calls| ==> HeadsKept(calls[i].block, outs[i].block)
    decreases |calls|
  {
    hide Rewrite, DecodeBlock, Valid, Retains, HeadsKept, NoGrowth, StaticFixed, Agrees;
    if calls != [] {
      var call := calls[0];
      var (st', out) := Rewrite(st, call.block, mapping, response, call.limit).value;
      var d := DecodeBlock(st.inb, call.block, Cap(call.limit), false).value;
      assert DecodeAll(st.inb, calls).value.lists[0] == d.headers;
      KeptBlock(st, call, mapping, response);
      var rest := DecodeAll(d.table, calls[1..]).value.lists;
      forall i | 0 <= i < |rest| ensures NoGrowth(rest[i], mapping) {
        assert DecodeAll(st.inb, calls).value.lists[i + 1] == rest[i];
      }
      NoGrowthNoReindexing(st', calls[1..], mapping, response);
    }
  }

  lemma KeptBlock(st: State, call: Call, mapping: ValueMap, response: bool)
    requires Valid(st) && Retains(st, mapping) && StaticFixed(mapping)
    requires Rewrite(st, call.block, mapping, response, call.limit).Some?
    requires DecodeBlock(st.inb, call.block, Cap(call.limit), false).Some?
    requires NoGrowth(DecodeBlock(st.inb, call.block, Cap(call.limit), false).value.headers, mapping)
    ensures var (end, out) := Rewrite(st, call.block, mapping, response, call.limit).value;
            && Valid(end) && Retains(end, mapping) && HeadsKept(call.block, out)
            && DecodeBlock(st.inb, call.block, Cap(call.limit), false).value.table == end.inb
  {
    hide RewriteFrom, DecodeBlock, Valid, Retains, HeadsKept, NoGrowth, StaticFixed;
    BlockMeaning(st, call.block, mapping, response, call.limit);
    hide Agrees;
    KeptFrom(st, START, [], call.block, mapping, Cap(call.limit));
    var o := RewriteFrom(st, START, [], call.block, mapping, Cap(call.limit)).value;
    assert o.out[0..] == o.out;
  }

  // ----- No change -----

  ghost predicate NoChange(headers: seq<Header>, mapping: ValueMap) {
    forall i :: 0 <= i < |headers| ==> mapping(headers[i].0, headers[i].1) == Some(headers[i].1)
  }

  lemma EmitKeepsAll(entries: seq<Header>, b: Bytes, l: Layout, h: Header)
    requires Carries(entries, b, l, l.kind == Incremental, h)
    ensures Emit(entries, b, l, h, h.1) == b[..l.len]
  {
    hide LayoutOf, Get, StringText;
    if l.kind != Indexed {
      if l.index != 0 {
        NameEntry(entries, b, l, h);
      }
      assert b[..l.len][..l.valueAt] + b[..l.len][l.valueAt..] == b[..l.len];
    }
  }

  lemma NoChangeTail(h: Header, rest: seq<Header>, mapping: ValueMap)
    requires NoChange([h] + rest, mapping)
    ensures NoChange(rest, mapping) && mapping(h.0, h.1) == Some(h.1)
  {
    forall i | 0 <= i < |rest| ensures mapping(rest[i].0, rest[i].1) == Some(rest[i].1) {
      assert ([h] + rest)[i + 1] == rest[i];
    }
    assert ([h] + rest)[0] == h;
  }

  lemma {:induction false} SameFrom(st: State, scan: Scan, out: Bytes, b: Bytes, mapping: ValueMap, cap: nat)
    requires st.inb == st.outb && RewriteFrom(st, scan, out, b, mapping, cap).Some?
    requires DecodeBlock(st.inb, b, cap, scan.fields).Some?
    requires NoChange(DecodeBlock(st.inb, b, cap, scan.fields).value.headers, mapping)
    ensures var o := RewriteFrom(st, scan, out, b, mapping, cap).value;
            o.out == out + b && o.st.inb == o.st.outb
    decreases |b|
  {
    hide RewriteFrom, LayoutOf, FieldOf, FieldStep, Emit, Learn, Admit, DecodeBlock, NoChange, Fit;
    var o := RewriteFrom(st, scan, out, b, mapping, cap).value;
    if b == [] {
      NoTurn(st, scan, out, mapping, cap);
    } else if KindOf(b[0]) == Update {
      var l := UpdateTurn(st, scan, out, b, mapping, cap);
      DecodeUpdate(st.inb, b, l, cap);
      SameFrom(State(Resize(st.inb, l.index), Resize(st.outb, l.index)), scan, out + b[..l.len], b[l.len..],
               mapping, cap);
      assert out + b[..l.len] + b[l.len..] == out + b;
    } else {
      var l, h, v, step := FieldTurn(st, scan, out, b, mapping, cap);
      DecodeField(st.inb, b, l, cap, scan.fields, h);
      NoChangeTail(h, DecodeBlock(Learn(st.inb, l.kind, h), b[l.len..], cap, true).value.headers, mapping);
      EmitKeepsAll(st.outb.entries, b, l, h);
      assert (h.0, v) == h;
      SameFrom(step.st, step.scan, out + step.bytes, b[l.len..], mapping, cap);
      assert out + b[..l.len] + b[l.len..] == out + b;
    }
  }

  /** A block whose values the mapping returns unchanged passes through octet for octet. */
  lemma NoChangeNoRewrite(st: State, block: Bytes, mapping: ValueMap, response: bool, limit: nat)
    requires st.inb == st.outb && Rewrite(st, block, mapping, response, limit).Some?
    requires DecodeBlock(st.inb, block, Cap(limit), false).Some?
    requires NoChange(DecodeBlock(st.inb, block, Cap(limit), false).value.headers, mapping)
    ensures var (end, out) := Rewrite(st, block, mapping, response, limit).value;
            out == block && end.inb == end.outb
  {
    hide RewriteFrom, DecodeBlock, NoChange;
    SameFrom(st, START, [], block, mapping, Cap(limit));
    assert [] + block == block;
  }
}
