/** The checker of scripts/order_policy.py with its state, proved against OrderProof. */
module OrderChecker {
  import opened Octets
  import opened HpackInteger
  import opened StaticTable
  import opened HpackTable
  import opened HpackReference
  import opened OrderProof
  import HeaderRewriter

  /** Reads an integer and insists on its shortest form by encoding it again. */
  method CheckedInteger(data: Bytes, start: nat, bits: Width) returns (r: Option<(nat, nat)>)
    requires start <= |data|
    ensures CanonicalInt(data[start..], bits).None? ==> r.None?
    ensures CanonicalInt(data[start..], bits).Some? ==>
              r == Some((CanonicalInt(data[start..], bits).value.0, start + CanonicalInt(data[start..], bits).value.1))
  {
    hide IntBytes, CanonicalInt, ReadInt, Pending;
    CanonicalIs(data[start..], bits);
    if start >= |data| {
      return None;
    }
    var value: nat := Low(data[start], bits);
    var high := data[start] - value;
    HighBits(data[start], bits);
    var position := start + 1;
    ghost var b := data[start..];
    if value < Mask(bits) {
      ShortInteger(b, bits);
    } else {
      var shift := 0;
      ghost var k := 0;
      ghost var whole := Pending(data, position, value, 0, CHECKER_ROOM);
      PendingIsRead(data, start, bits);
      while true
        invariant shift == 7 * k && k < CHECKER_ROOM
        invariant start < position <= |data|
        invariant whole == Pending(data, position, value, shift, CHECKER_ROOM - k)
        decreases |data| - position
      {
        PendingEnds(data, position, value, shift, CHECKER_ROOM - k);
        if position >= |data| {
          return None;
        }
        var c := data[position];
        NextGroup(data, position, value, shift, CHECKER_ROOM - k);
        position := position + 1;
        value := value + ShiftLeft(c % 128, shift);
        if c < 128 {
          break;
        }
        shift, k := shift + 7, k + 1;
        if shift > 56 {
          PendingEnds(data, position, value, shift, 0);
          return None;
        }
      }
    }
    var encoded := PutInt([], value, high, bits);
    assert data[start..position] == b[..position - start];
    if data[start..position] != encoded {
      return None;
    }
    return Some((value, position));
  }

  lemma CanonicalIs(b: Bytes, bits: Width)
    ensures CanonicalInt(b, bits)
            == match ReadInt(b, bits, CHECKER_ROOM)
               case None => None
               case Some((n, len)) =>
                 if b != [] && (HighBits(b[0], bits); b[..len] == IntBytes(n, b[0] - Low(b[0], bits), bits))
                 then Some((n, len)) else None
    ensures b == [] ==> CanonicalInt(b, bits).None?
  {
    hide IntBytes, Low;
  }

  lemma ShortInteger(b: Bytes, bits: Width)
    requires b != [] && Low(b[0], bits) < Mask(bits)
    ensures ReadInt(b, bits, CHECKER_ROOM) == Some((Low(b[0], bits), 1))
  {
  }

  lemma PendingEnds(data: Bytes, position: nat, value: nat, shift: nat, room: nat)
    requires position <= |data|
    ensures position == |data| || room == 0 ==> Pending(data, position, value, shift, room).None?
  {
  }

  lemma PendingIsRead(data: Bytes, start: nat, bits: Width)
    requires start < |data| && Low(data[start], bits) >= Mask(bits)
    ensures ReadInt(data[start..], bits, CHECKER_ROOM)
            == match Pending(data, start + 1, Mask(bits), 0, CHECKER_ROOM)
               case None => None
               case Some((v, end)) => Some((v, end - start))
  {
    assert data[start..][1..] == data[start + 1..];
  }

  /** The end of a string literal with a canonical length. */
  method CheckedString(data: Bytes, start: nat) returns (r: Option<nat>)
    requires start <= |data| <= MAX_BLOCK
    ensures if CanonicalInt(data[start..], 7).Some? && StringLength(data[start..]).Some?
            then r == Some(start + StringLength(data[start..]).value) else r.None?
  {
    hide CanonicalInt, ReadInt;
    var i := CheckedInteger(data, start, 7);
    if i.None? {
      return None;
    }
    WideIsLarge(data[start..], 7);
    var (size, position) := i.value;
    var end := position + size;
    if end > |data| {
      return None;
    }
    return Some(end);
  }

  /**
   Delimits one representation. An index or size too wide for the decoder is refused at once: it
   names no entry, and the decoder refuses it.
   */
  method CheckedLayout(block: Bytes, start: nat) returns (r: Option<Layout>)
    requires start < |block| <= MAX_BLOCK
    ensures if LayoutOf(block[start..]).Some? && CanonicalLayout(block[start..], LayoutOf(block[start..]).value)
            then r == LayoutOf(block[start..]) else r.None?
  {
    hide CanonicalInt, ReadInt, StringLength;
    ghost var b := block[start..];
    var kind := KindOf(block[start]);
    var i := CheckedInteger(block, start, PrefixBits(kind));
    if i.None? {
      return None;
    }
    WideIsLarge(b, PrefixBits(kind));
    var (index, p) := i.value;
    if index > MAX_BLOCK {
      if ReadInt(block[start..], PrefixBits(kind), ROOM).None? {
        return None;
      }
    }
    assert b[p - start..] == block[p..];
    if !IsLiteral(kind) {
      return Some(Layout(kind, index, p - start, p - start, p - start));
    }
    var valueAt := p;
    if index == 0 {
      var n := CheckedString(block, p);
      if n.None? {
        return None;
      }
      valueAt := n.value;
    }
    assert b[valueAt - start..] == block[valueAt..];
    var v := CheckedString(block, valueAt);
    if v.None? {
      return None;
    }
    return Some(Layout(kind, index, p - start, valueAt - start, v.value - start));
  }

  class HpackOrderProof {
    var decoder: Dyn
    var validator: Dyn
    var tags: seq<Tag>
    var generations: map<Header, nat>
    /** Every insertion so far, newest first. */
    ghost var history: seq<Header>

    ghost predicate Valid()
      reads this
    {
      validator == decoder && Identifies(Value(), history)
    }

    ghost function Value(): Proof
      reads this
    {
      Proof(decoder, tags, generations)
    }

    constructor ()
      ensures Valid() && Value() == FRESH
    {
      decoder, validator := Dyn([], TABLE_CAP), Dyn([], TABLE_CAP);
      tags, generations, history := [], map[], [];
    }

    /** The unsorted fields of a block. The two decoders end alike, so the last assertion never fails. */
    method Block(block: Bytes, headers: seq<Header>) returns (r: Option<(seq<nat>, seq<Token>)>)
      requires Valid()
      modifies this
      ensures match ProveBlock(old(Value()), block, headers)
              case None => r.None?
              case Some(s) =>
                && r == Some((s.updates, s.tokens)) && Value() == s.proof && Valid()
                && history == DecodeBlock(old(decoder), block, TABLE_CAP, false).value.inserted + old(history)
                && TellAll(s.tokens, 0, old(decoder), block, old(history))
    {
      hide LayoutOf, FieldOf, CanonicalLayout, Scan, DecodeBlock, Insert, Resize, Identifies, TokenOf, TellAll;
      if block == [] || |block| > MAX_BLOCK {
        return None;
      }
      var decoded := DecodeBlock(validator, block, TABLE_CAP, false);
      if decoded.None? || decoded.value.headers != headers {
        return None;
      }
      ghost var start := Value();
      TagsPerEntry(start, history);
      validator := decoded.value.table;
      var fields: seq<Token> := [];
      var updates: seq<nat> := [];
      var position: nat := 0;
      ghost var goal := Scan(start, [], [], block);
      assert block[0..] == block;
      while position < |block|
        invariant position <= |block| && |tags| == |decoder.entries|
        invariant goal == Scan(Value(), updates, fields, block[position..])
        invariant validator == decoded.value.table && history == old(history)
      {
        ghost var p, b := Value(), block[position..];
        var delimited := CheckedLayout(block, position);
        Turn(p, updates, fields, b);
        if delimited.None? {
          return None;
        }
        var l := delimited.value;
        var end := position + l.len;
        assert block[position..end] == b[..l.len] && block[end..] == b[l.len..];
        HeaderRewriter.SliceDecodes(decoder, b, l, TABLE_CAP);
        var part := DecodeBlock(decoder, block[position..end], TABLE_CAP, false);
        if l.kind == Update {
          if part.None? || fields != [] {
            return None;
          }
          decoder := part.value.table;
          updates := updates + [l.index];
          ResizeShorter(p.table, l.index);
        } else {
          var reference := ReferenceOf(tags, l.index);
          if reference.None? || part.None? || |part.value.headers| != 1 {
            return None;
          }
          decoder := part.value.table;
          var h := part.value.headers[0];
          fields := fields + [TokenOf(block[position..], l, reference.value, h)];
          if l.kind == Incremental {
            var generation := Generation(generations, h) + 1;
            generations := generations[h := generation];
            tags := [Tag(h.0, h.1, generation)] + tags;
          }
          LearnShorter(p.table, l.kind, h);
        }
        tags := Truncate(tags, |decoder.entries|);
        position := end;
      }
      Done(Value(), updates, fields);
      assert block[position..] == [];
      ScanFaithful(start, [], [], block, history);
      ScanTells(start, [], [], block, history);
      history := decoded.value.inserted + history;
      if validator != decoder {
        return None;
      }
      return Some((updates, fields));
    }
  }

  lemma TagsPerEntry(p: Proof, history: seq<Header>)
    requires Identifies(p, history)
    ensures |p.tags| == |p.table.entries|
  {
  }

  lemma ResizeShorter(t: Dyn, limit: nat)
    ensures |Resize(t, limit).entries| <= |t.entries|
  {
  }

  lemma LearnShorter(t: Dyn, kind: Kind, h: Header)
    ensures |Learn(t, kind, h).entries| <= |t.entries| + if kind == Incremental then 1 else 0
  {
    LearnIsRecent(t, kind, h);
  }

  lemma Done(p: Proof, updates: seq<nat>, tokens: seq<Token>)
    ensures Scan(p, updates, tokens, []) == Some(Scanned(p, updates, tokens))
  {
  }

  /** One turn of the loop, as OrderProof sees it. */
  lemma Turn(p: Proof, updates: seq<nat>, tokens: seq<Token>, b: Bytes)
    requires b != []
    ensures var goal := Scan(p, updates, tokens, b);
            match LayoutOf(b)
            case None => goal.None?
            case Some(l) =>
              if !CanonicalLayout(b, l) then goal.None?
              else if l.kind == Update then
                goal == if tokens != [] || l.index > TABLE_CAP then None
                        else Scan(Resized(p, l.index), updates + [l.index], tokens, b[l.len..])
              else match FieldOf(p.table.entries, b, l)
                case None => goal.None?
                case Some(h) =>
                  match ReferenceOf(p.tags, l.index)
                  case None => goal.None?
                  case Some(reference) =>
                    goal == Scan(Learned(p, l.kind, h), updates, tokens + [TokenOf(b, l, reference, h)], b[l.len..])
  {
    hide LayoutOf, FieldOf, CanonicalLayout, TokenOf, ReferenceOf, Learned, Resized;
  }
}
