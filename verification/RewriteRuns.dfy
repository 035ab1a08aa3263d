/** Every field of every block of every run: where its octets stay, and where its index must change. */
module RewriteRuns {
  import opened Octets
  import opened StaticTable
  import opened HpackTable
  import opened HpackReference
  import opened RewriteSpec
  import opened RewriteMeaning
  import opened RewriteTheorems

  // ----- Turns of the loop -----

  /** The loop variables of `rewrite` between two turns. */
  datatype Point = Point(st: State, scan: Scan, out: Bytes, rest: Bytes)

  /** One turn: one table-size update or one field. */
  function NextPoint(p: Point, mapping: ValueMap, cap: nat): Option<Point> {
    if p.rest == [] || LayoutOf(p.rest).None? then None
    else
      var l := LayoutOf(p.rest).value;
      if l.kind == Update then
        if p.scan.fields || l.index > cap then None
        else Some(Point(State(Resize(p.st.inb, l.index), Resize(p.st.outb, l.index)), p.scan,
                        p.out + p.rest[..l.len], p.rest[l.len..]))
      else
        match FieldStep(p.st, p.scan, p.rest, l, mapping)
        case None => None
        case Some(step) =>
          if |p.out + step.bytes| > MAX_BLOCK then None
          else Some(Point(step.st, step.scan, p.out + step.bytes, p.rest[l.len..]))
  }

  /** The loop variables after `n` turns over one block. */
  function PointAt(p: Point, mapping: ValueMap, cap: nat, n: nat): Option<Point>
    decreases n
  {
    if n == 0 then Some(p)
    else
      match NextPoint(p, mapping, cap)
      case None => None
      case Some(q) => PointAt(q, mapping, cap, n - 1)
  }

  function Finish(p: Point, mapping: ValueMap, cap: nat): Option<Outcome> {
    RewriteFrom(p.st, p.scan, p.out, p.rest, mapping, cap)
  }

  /** A turn is taken wherever the block is accepted, and leads to the same outcome. */
  lemma TurnKeepsOutcome(p: Point, mapping: ValueMap, cap: nat)
    requires p.rest != [] && Finish(p, mapping, cap).Some?
    ensures NextPoint(p, mapping, cap).Some?
    ensures Finish(NextPoint(p, mapping, cap).value, mapping, cap) == Finish(p, mapping, cap)
  {
    hide LayoutOf, FieldStep, Resize;
  }

  /** A run has come to a state: both tables are fronts of one history, the receiver's with mapped values. */
  ghost predicate InStep(st: State, mapping: ValueMap) {
    Valid(st) && exists history, mapped :: Simulated(st, history, mapped, mapping)
  }

  /** Learning a field carries the simulation on, with the field in front of both histories. */
  lemma SimulatedLearn(st: State, history: seq<Header>, mapped: seq<Header>, mapping: ValueMap,
                       kind: Kind, h: Header, v: Bytes)
    requires Simulated(st, history, mapped, mapping) && mapping(h.0, h.1) == Some(v)
    ensures var more := kind == Incremental;
            Simulated(State(Learn(st.inb, kind, h), Learn(st.outb, kind, (h.0, v))),
                      (if more then [h] else []) + history, (if more then [(h.0, v)] else []) + mapped, mapping)
  {
    hide Learn;
    LearnIsRecent(st.inb, kind, h);
    LearnIsRecent(st.outb, kind, (h.0, v));
    var a, b := if kind == Incremental then [h] else [], if kind == Incremental then [(h.0, v)] else [];
    PrefixTrans(Learn(st.inb, kind, h).entries, a, st.inb.entries, history);
    PrefixTrans(Learn(st.outb, kind, (h.0, v)).entries, b, st.outb.entries, mapped);
  }

  lemma SimulatedResize(st: State, history: seq<Header>, mapped: seq<Header>, mapping: ValueMap, limit: nat)
    requires Simulated(st, history, mapped, mapping)
    ensures Simulated(State(Resize(st.inb, limit), Resize(st.outb, limit)), history, mapped, mapping)
  {
    PrefixTrans(Resize(st.inb, limit).entries, [], st.inb.entries, history);
    PrefixTrans(Resize(st.outb, limit).entries, [], st.outb.entries, mapped);
    assert [] + history == history && [] + mapped == mapped;
    assert [] + st.inb.entries == st.inb.entries && [] + st.outb.entries == st.outb.entries;
  }

  lemma TurnInStep(p: Point, mapping: ValueMap, cap: nat)
    requires InStep(p.st, mapping) && cap <= MAX_TABLE && NextPoint(p, mapping, cap).Some?
    ensures InStep(NextPoint(p, mapping, cap).value.st, mapping)
  {
    hide LayoutOf, FieldOf, Emit, Admit, Learn, Resize, Valid, Simulated;
    var history, mapped :| Simulated(p.st, history, mapped, mapping);
    var l := LayoutOf(p.rest).value;
    if l.kind == Update {
      ResizeValid(p.st, l.index);
      SimulatedResize(p.st, history, mapped, mapping, l.index);
    } else {
      var h := FieldOf(p.st.inb.entries, p.rest, l).value;
      var v := mapping(h.0, h.1).value;
      LearnValid(p.st, l.kind, h, (h.0, v));
      SimulatedLearn(p.st, history, mapped, mapping, l.kind, h, v);
    }
  }

  lemma {:induction false} PointInStep(p: Point, mapping: ValueMap, cap: nat, n: nat)
    requires InStep(p.st, mapping) && cap <= MAX_TABLE
    requires PointAt(p, mapping, cap, n).Some? && Finish(p, mapping, cap).Some?
    ensures InStep(PointAt(p, mapping, cap, n).value.st, mapping)
    ensures Finish(PointAt(p, mapping, cap, n).value, mapping, cap) == Finish(p, mapping, cap)
    decreases n
  {
    hide NextPoint, Finish, InStep;
    if n > 0 {
      TurnTaken(p, mapping, cap);
      TurnKeepsOutcome(p, mapping, cap);
      TurnInStep(p, mapping, cap);
      PointInStep(NextPoint(p, mapping, cap).value, mapping, cap, n - 1);
    }
  }

  lemma TurnTaken(p: Point, mapping: ValueMap, cap: nat)
    requires NextPoint(p, mapping, cap).Some?
    ensures p.rest != []
  {
  }

  // ----- Runs -----

  /** The loop variables at the start of the `k`-th block of a run from the initial tables. */
  function BlockStart(calls: seq<Call>, mapping: ValueMap, response: bool, k: nat): Option<Point>
    requires k < |calls|
  {
    match RewriteAll(INITIAL, calls[..k], mapping, response)
    case None => None
    case Some(r) => Some(Point(r.0, START, [], calls[k].block))
  }

  lemma {:induction false} RunSplits(st: State, calls: seq<Call>, mapping: ValueMap, response: bool, k: nat)
    requires k < |calls| && RewriteAll(st, calls, mapping, response).Some?
    ensures RewriteAll(st, calls[..k], mapping, response).Some?
    ensures var st' := RewriteAll(st, calls[..k], mapping, response).value.0;
            var r := Rewrite(st', calls[k].block, mapping, response, calls[k].limit);
            var outs := RewriteAll(st, calls, mapping, response).value.1;
            r.Some? && k < |outs| && outs[k].block == r.value.1
    decreases k
  {
    hide Rewrite;
    if k > 0 {
      var st' := Rewrite(st, calls[0].block, mapping, response, calls[0].limit).value.0;
      RunSplits(st', calls[1..], mapping, response, k - 1);
      assert calls[..k][1..] == calls[1..][..k - 1];
    }
  }

  lemma BlockInStep(calls: seq<Call>, mapping: ValueMap, response: bool, k: nat)
    requires k < |calls| && RewriteAll(INITIAL, calls, mapping, response).Some?
    ensures BlockStart(calls, mapping, response, k).Some?
    ensures var p := BlockStart(calls, mapping, response, k).value;
            && InStep(p.st, mapping) && Finish(p, mapping, Cap(calls[k].limit)).Some?
            && k < |RewriteAll(INITIAL, calls, mapping, response).value.1|
            && RewriteAll(INITIAL, calls, mapping, response).value.1[k].block
               == Finish(p, mapping, Cap(calls[k].limit)).value.out
  {
    hide RewriteAll, RewriteFrom, DecodeAll, Valid, Simulated;
    RunSplits(INITIAL, calls, mapping, response, k);
    ConnectionMeaning(calls[..k], mapping, response);
  }

  /** The field read after `n` turns over the `k`-th block: before, after, and where it lies. */
  ghost predicate FieldAt(calls: seq<Call>, mapping: ValueMap, response: bool, k: nat, n: nat,
                          p: Point, q: Point, l: Layout) {
    && k < |calls| && BlockStart(calls, mapping, response, k).Some?
    && PointAt(BlockStart(calls, mapping, response, k).value, mapping, Cap(calls[k].limit), n) == Some(p)
    && NextPoint(p, mapping, Cap(calls[k].limit)) == Some(q)
    && IsLayout(p.rest, l) && l.kind != Update
  }

  /** What is written in one turn is where the turn says in the finished block. */
  lemma WrittenInPlace(p: Point, q: Point, mapping: ValueMap, cap: nat)
    requires Valid(p.st) && cap <= MAX_TABLE && NextPoint(p, mapping, cap) == Some(q) && Finish(p, mapping, cap).Some?
    requires Valid(q.st)
    ensures p.out <= q.out <= Finish(p, mapping, cap).value.out
  {
    hide LayoutOf, FieldStep, Resize, RewriteFrom, Valid, DecodeBlock, Agrees;
    TurnTaken(p, mapping, cap);
    TurnKeepsOutcome(p, mapping, cap);
    MeaningFrom(q.st, q.scan, q.out, q.rest, mapping, cap);
  }

  lemma FieldInStep(calls: seq<Call>, mapping: ValueMap, response: bool, k: nat, n: nat, p: Point, q: Point, l: Layout)
    requires RewriteAll(INITIAL, calls, mapping, response).Some?
    requires FieldAt(calls, mapping, response, k, n, p, q, l)
    ensures InStep(p.st, mapping) && Valid(q.st) && Finish(p, mapping, Cap(calls[k].limit)).Some?
    ensures k < |RewriteAll(INITIAL, calls, mapping, response).value.1|
    ensures p.out <= q.out <= RewriteAll(INITIAL, calls, mapping, response).value.1[k].block
  {
    hide RewriteAll, RewriteFrom, NextPoint, PointAt, Valid, Simulated, IsLayout;
    var cap := Cap(calls[k].limit);
    BlockInStep(calls, mapping, response, k);
    PointInStep(BlockStart(calls, mapping, response, k).value, mapping, cap, n);
    TurnInStep(p, mapping, cap);
    WrittenInPlace(p, q, mapping, cap);
  }

  /** What one turn over a field writes. */
  lemma FieldWritten(p: Point, q: Point, l: Layout, mapping: ValueMap, cap: nat) returns (h: Header, v: Bytes)
    requires IsLayout(p.rest, l) && l.kind != Update && NextPoint(p, mapping, cap) == Some(q)
    ensures FieldOf(p.st.inb.entries, p.rest, l) == Some(h) && mapping(h.0, h.1) == Some(v)
    ensures |h.0| <= MAX_BLOCK && |v| <= MAX_BLOCK
    ensures q.out == p.out + Emit(p.st.outb.entries, p.rest, l, h, v)
  {
    hide LayoutOf, FieldOf, Emit, Admit, Learn, Resize;
    h := FieldOf(p.st.inb.entries, p.rest, l).value;
    v := mapping(h.0, h.1).value;
    AdmittedSizes(p.scan, h, v);
  }

  /**
   In every accepted run, at every field: an indexed field stands in the output with the octets it came
   with exactly when the receiver's table still has its entry.
   */
  lemma EveryIndexedField(calls: seq<Call>, mapping: ValueMap, response: bool, k: nat, n: nat,
                          p: Point, q: Point, l: Layout)
    requires RewriteAll(INITIAL, calls, mapping, response).Some?
    requires FieldAt(calls, mapping, response, k, n, p, q, l)
    requires StaticFixed(mapping) && l.kind == Indexed
    ensures k < |RewriteAll(INITIAL, calls, mapping, response).value.1|
    ensures p.out <= q.out <= RewriteAll(INITIAL, calls, mapping, response).value.1[k].block
    ensures q.out[|p.out|..] == p.rest[..l.len] <==> Get(p.st.outb.entries, l.index).Some?
  {
    hide RewriteAll, NextPoint, PointAt, Valid, Simulated, Emit, LayoutOf, FieldOf, Get, StaticFixed;
    FieldInStep(calls, mapping, response, k, n, p, q, l);
    var h, v := FieldWritten(p, q, l, mapping, Cap(calls[k].limit));
    var history, mapped :| Simulated(p.st, history, mapped, mapping);
    IndexedKeptIffPresent(p.st, history, mapped, mapping, p.rest, l, h, v);
  }

  /**
   And a literal starts with the octets of its index and name exactly when it has no index or the
   receiver's table still has the entry; its value keeps its octets when the mapping leaves it alone.
   */
  lemma EveryLiteralField(calls: seq<Call>, mapping: ValueMap, response: bool, k: nat, n: nat,
                          p: Point, q: Point, l: Layout)
    requires RewriteAll(INITIAL, calls, mapping, response).Some?
    requires FieldAt(calls, mapping, response, k, n, p, q, l) && IsLiteral(l.kind)
    ensures k < |RewriteAll(INITIAL, calls, mapping, response).value.1|
    ensures p.out <= q.out <= RewriteAll(INITIAL, calls, mapping, response).value.1[k].block
    ensures FieldOf(p.st.inb.entries, p.rest, l).Some?
    ensures var h := FieldOf(p.st.inb.entries, p.rest, l).value;
            var kept := l.index == 0 || Get(p.st.outb.entries, l.index).Some?;
            && (p.rest[..l.valueAt] <= q.out[|p.out|..] <==> kept)
            && (kept && mapping(h.0, h.1) == Some(h.1) ==> q.out[|p.out|..] == p.rest[..l.len])
            && (mapping(h.0, h.1) == Some(h.1) ==> EndsWith(q.out[|p.out|..], p.rest[l.valueAt..l.len]))
  {
    hide RewriteAll, NextPoint, PointAt, Valid, Simulated, LayoutOf, FieldOf, Get, EmitHead, Emit, EndsWith;
    FieldInStep(calls, mapping, response, k, n, p, q, l);
    var h, v := FieldWritten(p, q, l, mapping, Cap(calls[k].limit));
    LiteralPresent(p.st, mapping, p.rest, l, h, v);
    LiteralWritten(p.st.outb.entries, p.rest, l, h, v);
    assert q.out[|p.out|..] == Emit(p.st.outb.entries, p.rest, l, h, v);
  }

  lemma LiteralPresent(st: State, mapping: ValueMap, b: Bytes, l: Layout, h: Header, v: Bytes)
    requires InStep(st, mapping)
    requires IsLayout(b, l) && IsLiteral(l.kind) && FieldOf(st.inb.entries, b, l) == Some(h)
    requires mapping(h.0, h.1) == Some(v) && |h.0| <= MAX_BLOCK && |v| <= MAX_BLOCK
    ensures var kept := l.index == 0 || Get(st.outb.entries, l.index).Some?;
            && (b[..l.valueAt] <= Emit(st.outb.entries, b, l, h, v) <==> kept)
            && (kept ==> EmitHead(st.outb.entries, l, h.0, b[..l.len]) == b[..l.valueAt])
  {
    hide Valid, Simulated, LayoutOf, FieldOf, Get, EmitHead, Emit;
    var history, mapped :| Simulated(st, history, mapped, mapping);
    NameKeptIffPresent(st, history, mapped, mapping, b, l, h, v);
  }

  lemma LiteralWritten(entries: seq<Header>, b: Bytes, l: Layout, h: Header, v: Bytes)
    requires IsLayout(b, l) && IsLiteral(l.kind)
    ensures v == h.1 ==> EndsWith(Emit(entries, b, l, h, v), b[l.valueAt..l.len])
    ensures v == h.1 && EmitHead(entries, l, h.0, b[..l.len]) == b[..l.valueAt] ==>
              Emit(entries, b, l, h, v) == b[..l.len]
  {
    hide LayoutOf, EmitHead;
    ValueAt(b, l);
    var wire := b[..l.len];
    assert wire[l.valueAt..] == b[l.valueAt..l.len];
    assert wire == b[..l.valueAt] + b[l.valueAt..l.len];
  }

  ghost predicate EndsWith(b: Bytes, tail: Bytes) {
    |tail| <= |b| && b[|b| - |tail|..] == tail
  }

  lemma ValueAt(b: Bytes, l: Layout)
    requires IsLayout(b, l) && IsLiteral(l.kind)
    ensures l.valueAt < l.len <= |b|
  {
    hide StringText, LayoutOf;
    PartLengths(b, l);
  }

  // ----- A run -----

  function Unmapped(name: Bytes, value: Bytes): Option<Bytes> {
    Some(value)
  }

  /** One block of one octet: the indexed field `:status: 200`. */
  const STATUS: Bytes := [136]

  lemma StatusLayout()
    ensures LayoutOf(STATUS) == Some(Layout(Indexed, 8, 1, 1, 1))
    ensures FieldOf([], STATUS, Layout(Indexed, 8, 1, 1, 1)) == Some((Ascii(":status"), Ascii("200")))
  {
  }

  /** The octet passes as it is, so the runs spoken of above are not empty of fields. */
  lemma StatusPasses()
    ensures RewriteAll(INITIAL, [Call(STATUS, 4096)], Unmapped, true).Some?
    ensures exists p: Point, q: Point, l: Layout ::
              FieldAt([Call(STATUS, 4096)], Unmapped, true, 0, 0, p, q, l) && l.kind == Indexed && q.out == STATUS
  {
    hide LayoutOf, FieldOf;
    StatusLayout();
    var l := Layout(Indexed, 8, 1, 1, 1);
    var h := (Ascii(":status"), Ascii("200"));
    StatusAdmitted();
    assert Get([], 8) == Some(h);
    assert STATUS[..1] == STATUS && STATUS[1..] == [];
    assert Emit([], STATUS, l, h, h.1) == STATUS;
    var p := Point(INITIAL, START, [], STATUS);
    var step := FieldStep(INITIAL, START, STATUS, l, Unmapped).value;
    assert [] + STATUS == STATUS;
    var q := Point(step.st, step.scan, STATUS, []);
    hide FieldStep, Emit, Static;
    assert NextPoint(p, Unmapped, Cap(4096)) == Some(q);
    assert RewriteFrom(step.st, step.scan, STATUS, [], Unmapped, Cap(4096)).Some?;
    assert RewriteFrom(INITIAL, START, [], STATUS, Unmapped, Cap(4096)).Some?;
    var calls := [Call(STATUS, 4096)];
    assert calls[..0] == [] && calls[1..] == [];
    assert FieldAt(calls, Unmapped, true, 0, 0, p, q, l);
  }

  lemma StatusAdmitted()
    ensures Admit(START, (Ascii(":status"), Ascii("200")), Ascii("200")).Some?
  {
  }
}
