/** The rewriter of src/hpack_wire.rs, statement by statement, proved against RewriteSpec. */
module HeaderRewriter {
  import opened Octets
  import opened HpackInteger
  import opened StaticTable
  import opened HpackTable
  import opened HpackReference
  import opened RewriteSpec
  import RewriteMeaning
  import Huffman

  method SkipString(b: Bytes, p: nat) returns (r: Option<nat>)
    requires p <= |b|
    ensures StringLength(b[p..]).None? ==> r.None?
    ensures StringLength(b[p..]).Some? ==> r == Some(p + StringLength(b[p..]).value)
  {
    var i := Integer(b, p, 7);
    match i {
      case None => return None;
      case Some((n, q)) =>
        if n > |b| - q {
          return None;
        }
        return Some(q + n);
    }
  }

  method PutString(out: Bytes, value: Bytes, huffman: bool) returns (r: Bytes)
    ensures r == out + StringBytes(value, huffman)
  {
    hide IntBytes, Huffman.Encode;
    assert 0 % 128 == 0 && 128 % 128 == 0;
    if !huffman {
      r := PutInt(out, |value|, 0, 7);
      r := r + value;
    } else {
      var encoded := Huffman.EncodeLoop(value);
      r := PutInt(out, |encoded|, 0x80, 7);
      r := r + encoded;
    }
  }

  /** The cursor moves over one representation: integer, name string, value string. */
  method Delimit(block: Bytes, start: nat) returns (r: Option<Layout>)
    requires start < |block|
    ensures r == LayoutOf(block[start..])
  {
    hide ReadInt, StringLength;
    ghost var b := block[start..];
    var kind := KindOf(block[start]);
    var i := Integer(block, start, PrefixBits(kind));
    if i.None? {
      return None;
    }
    var (index, p) := i.value;
    assert b[p - start..] == block[p..];
    if !IsLiteral(kind) {
      return Some(Layout(kind, index, p - start, p - start, p - start));
    }
    var valueAt := p;
    if index == 0 {
      var n := SkipString(block, p);
      if n.None? {
        return None;
      }
      valueAt := n.value;
    }
    assert b[valueAt - start..] == block[valueAt..];
    var v := SkipString(block, valueAt);
    if v.None? {
      return None;
    }
    return Some(Layout(kind, index, p - start, valueAt - start, v.value - start));
  }

  method WriteIndexed(out: Bytes, table: Table, l: Layout, h: Header, mapped: Bytes, wire: Bytes) returns (r: Bytes)
    ensures r == out + EmitIndexed(table.entries, l, h, mapped, wire)
  {
    hide Find, StringBytes, IntBytes, Low, Span;
    PatternFits(Indexed);
    PatternFits(Without);
    var target := Find(table.entries, l.index, h.0, Some(mapped));
    if target == l.index {
      r := out + wire;
    } else if target != 0 {
      r := PutInt(out, target, 0x80, 7);
    } else {
      var named := Find(table.entries, 0, h.0, None);
      r := PutInt(out, named, 0, 4);
      if named == 0 {
        r := PutString(r, h.0, false);
      }
      r := PutString(r, mapped, false);
    }
  }

  method WriteLiteral(out: Bytes, table: Table, l: Layout, h: Header, mapped: Bytes, wire: Bytes) returns (r: Bytes)
    requires IsLiteral(l.kind) && l.valueAt < |wire|
    ensures r == out + (EmitHead(table.entries, l, h.0, wire) + EmitValue(l, h.1, mapped, wire))
  {
    hide Find, StringBytes, IntBytes, Low, Span, Pattern, PrefixBits;
    PatternFits(l.kind);
    var target := 0;
    if l.index != 0 {
      target := Find(table.entries, l.index, h.0, None);
    }
    if target == l.index {
      r := out + wire[..l.valueAt];
    } else {
      r := PutInt(out, target, Pattern(l.kind), PrefixBits(l.kind));
      if target == 0 {
        if l.index == 0 {
          // The source copies the name string here. With a zero index the target is zero too, and kept above.
          assert false;
        } else {
          r := PutString(r, h.0, false);
        }
      }
    }
    assert r == out + EmitHead(table.entries, l, h.0, wire);
    if mapped == h.1 {
      r := r + wire[l.valueAt..];
    } else {
      r := PutString(r, mapped, wire[l.valueAt] >= 0x80);
    }
  }

  /** The checks on a decoded field, its mapped value and the counters after it. */
  method Check(h: Header, mapping: ValueMap, scan: Scan) returns (r: Option<(Scan, Bytes)>)
    ensures match mapping(h.0, h.1)
            case None => r.None?
            case Some(mapped) =>
              r == match Admit(scan, h, mapped) case None => None case Some(next) => Some((next, mapped))
  {
    hide Ascii;
    var total, authority := scan.total, scan.authority;
    var regular, hasMethod := scan.regular, scan.hasMethod;
    if !NameOk(h.0) || !ValueOk(h.1) {
      return None;
    }
    if h.0[0] == 58 {
      if regular {
        return None;
      }
    } else {
      regular := true;
    }
    if h.0 == Ascii(":method") {
      if h.1 == Ascii("CONNECT") {
        return None;
      }
      hasMethod := true;
    }
    if h.0 == Ascii(":authority") {
      authority := authority + 1;
    }
    var mapped := mapping(h.0, h.1);
    if mapped.None? {
      return None;
    }
    total := total + |h.0| + Max(|mapped.value|, |h.1|) + ENTRY_OVERHEAD;
    if total > MAX_BLOCK {
      return None;
    }
    return Some((Scan(true, regular, hasMethod, authority, total), mapped.value));
  }

  class Rewriter {
    /** The decoder library's table, which follows the sender. */
    var inbound: Dyn
    /** The table the receiver has. */
    const outbound: Table

    ghost predicate Valid()
      reads this, outbound
    {
      outbound.Valid() && RewriteMeaning.Valid(Value())
    }

    ghost function Value(): State
      reads this, outbound
    {
      State(inbound, outbound.Value())
    }

    constructor ()
      ensures Valid() && fresh(outbound) && Value() == INITIAL == State(Dyn([], 4096), Dyn([], 4096))
    {
      inbound := Dyn([], 4096);
      outbound := new Table();
    }

    /** On success the result and both tables are those of RewriteSpec; an error ends the connection. */
    method Rewrite(block: Bytes, mapping: ValueMap, response: bool, limit: nat) returns (r: Option<Bytes>)
      requires Valid()
      modifies this, outbound
      ensures match RewriteSpec.Rewrite(old(Value()), block, mapping, response, limit)
              case None => r.None?
              case Some((st, out)) => r == Some(out) && Value() == st && Valid()
    {
      hide RewriteFrom, LayoutOf, FieldOf, FieldStep, DecodeBlock, Emit, EmitIndexed, EmitHead, EmitValue, Insert,
        Resize, Admit, RewriteMeaning.Valid;
      if |block| > MAX_BLOCK {
        return None;
      }
      var out: Bytes := [];
      var p, scan := 0, START;
      ghost var goal := RewriteFrom(Value(), START, [], block, mapping, Cap(limit));
      assert block[0..] == block;
      while p < |block|
        invariant p <= |block| && Valid()
        invariant goal == RewriteFrom(Value(), scan, out, block[p..], mapping, Cap(limit))
      {
        ghost var st, b := Value(), block[p..];
        var delimited := Delimit(block, p);
        if delimited.None? {
          StuckTurn(st, scan, out, b, mapping, Cap(limit));
          return None;
        }
        var l := delimited.value;
        var wire := block[p..p + l.len];
        assert wire == b[..l.len] && block[p + l.len..] == b[l.len..];
        SliceDecodes(inbound, b, l, Cap(limit));
        p := p + l.len;
        if l.kind == Update {
          UpdateTurn(st, scan, out, b, l, mapping, Cap(limit));
          if scan.fields || l.index > Cap(limit) {
            return None;
          }
          var d := DecodeBlock(inbound, wire, Cap(limit), false);
          RewriteMeaning.ResizeValid(st, l.index);
          inbound := d.value.table;
          outbound.SetLimit(l.index);
          out := out + wire;
        } else {
          FieldTurn(st, scan, out, b, l, mapping, Cap(limit));
          var d := DecodeBlock(inbound, wire, Cap(limit), false);
          if d.None? || |d.value.headers| != 1 {
            return None;
          }
          inbound := d.value.table;
          var h := d.value.headers[0];
          var checked := Check(h, mapping, scan);
          if checked.None? {
            return None;
          }
          scan := checked.value.0;
          var mapped := checked.value.1;
          RewriteMeaning.LearnValid(st, l.kind, h, (h.0, mapped));
          if l.kind == Indexed {
            out := WriteIndexed(out, outbound, l, h, mapped, wire);
          } else {
            ValueInside(b, l);
            out := WriteLiteral(out, outbound, l, h, mapped, wire);
            if l.kind == Incremental {
              outbound.Add((h.0, mapped));
            }
          }
          EmitParts(st.outb.entries, b, l, h, mapped);
          if |out| > MAX_BLOCK {
            return None;
          }
        }
      }
      DoneTurn(Value(), scan, out, mapping, Cap(limit));
      assert block[p..] == [];
      if !response && scan.hasMethod && scan.authority != 1 {
        return None;
      }
      return Some(out);
    }
  }

  // ----- The turns of the loop, as RewriteSpec sees them -----

  lemma DoneTurn(st: State, scan: Scan, out: Bytes, mapping: ValueMap, cap: nat)
    ensures RewriteFrom(st, scan, out, [], mapping, cap) == Some(Outcome(st, scan, out))
  {
  }

  lemma StuckTurn(st: State, scan: Scan, out: Bytes, b: Bytes, mapping: ValueMap, cap: nat)
    requires b != [] && LayoutOf(b).None?
    ensures RewriteFrom(st, scan, out, b, mapping, cap).None?
  {
    hide LayoutOf;
  }

  lemma UpdateTurn(st: State, scan: Scan, out: Bytes, b: Bytes, l: Layout, mapping: ValueMap, cap: nat)
    requires IsLayout(b, l) && l.kind == Update
    ensures RewriteFrom(st, scan, out, b, mapping, cap)
            == if scan.fields || l.index > cap then None
               else RewriteFrom(State(Resize(st.inb, l.index), Resize(st.outb, l.index)), scan,
                                out + b[..l.len], b[l.len..], mapping, cap)
  {
    hide LayoutOf, Resize;
  }

  lemma FieldTurn(st: State, scan: Scan, out: Bytes, b: Bytes, l: Layout, mapping: ValueMap, cap: nat)
    requires IsLayout(b, l) && l.kind != Update
    ensures var goal := RewriteFrom(st, scan, out, b, mapping, cap);
            match FieldOf(st.inb.entries, b, l)
            case None => goal.None?
            case Some(h) =>
              match mapping(h.0, h.1)
              case None => goal.None?
              case Some(mapped) =>
                match Admit(scan, h, mapped)
                case None => goal.None?
                case Some(scan') =>
                  var out' := out + Emit(st.outb.entries, b, l, h, mapped);
                  goal == if |out'| > MAX_BLOCK then None
                          else RewriteFrom(State(Learn(st.inb, l.kind, h), Learn(st.outb, l.kind, (h.0, mapped))),
                                           scan', out', b[l.len..], mapping, cap)
  {
    hide LayoutOf, FieldOf, Emit, Learn, Admit;
  }

  /** The decoder library sees one representation at a time; it yields exactly that field or update. */
  lemma SliceDecodes(t: Dyn, b: Bytes, l: Layout, cap: nat)
    requires IsLayout(b, l)
    ensures DecodeBlock(t, b[..l.len], cap, false)
            == if l.kind == Update then
                 if l.index > cap then None else Some(Decoded([], Resize(t, l.index), []))
               else match FieldOf(t.entries, b, l)
                 case None => None
                 case Some(h) => Some(Decoded([h], Learn(t, l.kind, h), if l.kind == Incremental then [h] else []))
  {
    hide LayoutOf, FieldOf, Learn, Resize;
    LayoutStable(b, l, []);
    assert b[..l.len] + [] == b[..l.len];
    assert b[..l.len][l.len..] == [];
    if l.kind != Update {
      FieldStable(t.entries, b, l, []);
      match FieldOf(t.entries, b, l) {
        case None =>
        case Some(h) =>
          RewriteMeaning.DecodeField(t, b[..l.len], l, cap, false, h);
          var none: seq<Header> := [];
          assert [h] + none == [h] && none + [h] == [h] && none + none == none;
      }
    }
  }

  lemma ValueInside(b: Bytes, l: Layout)
    requires IsLayout(b, l) && IsLiteral(l.kind)
    ensures l.valueAt < l.len
  {
  }

  lemma EmitParts(entries: seq<Header>, b: Bytes, l: Layout, h: Header, mapped: Bytes)
    requires IsLayout(b, l) && l.kind != Update
    requires l.valueAt <= l.len && (IsLiteral(l.kind) ==> l.valueAt < l.len)
    ensures Emit(entries, b, l, h, mapped)
            == if l.kind == Indexed then EmitIndexed(entries, l, h, mapped, b[..l.len])
               else EmitHead(entries, l, h.0, b[..l.len]) + EmitValue(l, h.1, mapped, b[..l.len])
  {
    hide LayoutOf, EmitIndexed, EmitHead, EmitValue;
  }
}
