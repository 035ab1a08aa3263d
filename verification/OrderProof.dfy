/** `HpackOrderProof` of scripts/order_policy.py: HPACK references by the identity of the insertion. */
module OrderProof {
  import opened Octets
  import opened HpackInteger
  import opened StaticTable
  import opened HpackTable
  import opened HpackReference

  /** The decoder library takes table sizes up to the default of RFC 7541. */
  const TABLE_CAP: nat := 4096
  const MAX_BLOCK: nat := 0x10_0000
  /** Continuation octets the checker reads: its shift runs up to 56. */
  const CHECKER_ROOM: nat := 9

  // ----- Canonical integers and strings -----

  /** An integer in its shortest form: the value and the octets it takes. */
  function CanonicalInt(b: Bytes, bits: Width): (r: Option<(nat, nat)>)
    ensures r.Some? ==> 1 <= r.value.1 <= |b|
  {
    match ReadInt(b, bits, CHECKER_ROOM)
    case None => None
    case Some((n, len)) =>
      HighBits(b[0], bits);
      if b[..len] == IntBytes(n, b[0] - Low(b[0], bits), bits) then Some((n, len)) else None
  }

  lemma {:induction false} TailRoom(b: Bytes, room: nat, more: nat)
    requires room <= more && ReadTail(b, room).Some?
    ensures ReadTail(b, more) == ReadTail(b, room)
  {
    if b[0] >= 128 {
      TailRoom(b[1..], room - 1, more - 1);
    }
  }

  /** `b` starts with the shortest encoding of `n`. */
  ghost predicate ShortestAt(b: Bytes, n: nat, high: Byte, bits: Width) {
    PrefixFits(high, bits) && IntBytes(n, high, bits) <= b
  }

  /** The checker's integer accepts exactly the shortest encodings of the values below its bound. */
  lemma CanonicalIff(b: Bytes, bits: Width)
    ensures CanonicalInt(b, bits).Some? <==>
              exists n: nat, high: Byte :: ShortestAt(b, n, high, bits) && n < Pow2(bits) - 1 + 0x8000_0000_0000_0000
    ensures forall n: nat, high: Byte :: ShortestAt(b, n, high, bits) && CanonicalInt(b, bits).Some? ==>
              CanonicalInt(b, bits).value == (n, |IntBytes(n, high, bits)|)
  {
    MaskIs(bits);
    hide Pow2, ReadInt, Span;
    Pow2Large();
    if CanonicalInt(b, bits).Some? {
      var (n, len) := CanonicalInt(b, bits).value;
      var high := b[0] - Low(b[0], bits);
      HighBits(b[0], bits);
      assert b == b[..len] + b[len..];
      RoundTrip(n, high, bits, CHECKER_ROOM, b[len..]);
      assert ShortestAt(b, n, high, bits);
    }
    forall n: nat, high: Byte | ShortestAt(b, n, high, bits)
      ensures CanonicalInt(b, bits) == if n < Mask(bits) + Pow2(7 * CHECKER_ROOM)
                                       then Some((n, |IntBytes(n, high, bits)|)) else None
    {
      Accepted(b, n, high, bits);
    }
  }

  lemma Accepted(b: Bytes, n: nat, high: Byte, bits: Width)
    requires ShortestAt(b, n, high, bits)
    ensures CanonicalInt(b, bits) == if n < Mask(bits) + Pow2(7 * CHECKER_ROOM)
                                     then Some((n, |IntBytes(n, high, bits)|)) else None
  {
    hide Pow2, ReadInt;
    var e := IntBytes(n, high, bits);
    assert b == e + b[|e|..];
    RoundTrip(n, high, bits, CHECKER_ROOM, b[|e|..]);
    FirstOctet(n, high, bits);
  }

  lemma FirstOctet(n: nat, high: Byte, bits: Width)
    requires PrefixFits(high, bits)
    ensures IntBytes(n, high, bits)[0] - Low(IntBytes(n, high, bits)[0], bits) == high
  {
    PrefixMod(if n < Mask(bits) then n else Mask(bits), high, bits);
  }

  // ----- Tags -----

  /** An insertion: the entry, and which insertion of that entry it was, counted from 1. */
  datatype Tag = Tag(name: Bytes, value: Bytes, generation: nat)

  function Occurrences(history: seq<Header>, h: Header): nat {
    if history == [] then 0 else (if history[0] == h then 1 else 0) + Occurrences(history[1..], h)
  }

  /** The insertions of a history, newest first, each with its number. */
  function Insertions(history: seq<Header>): (r: seq<Tag>)
    ensures |r| == |history|
  {
    if history == [] then []
    else [Tag(history[0].0, history[0].1, Occurrences(history, history[0]))] + Insertions(history[1..])
  }

  lemma {:induction false} InsertionAt(history: seq<Header>, i: nat)
    requires i < |history|
    ensures Insertions(history)[i] == Tag(history[i].0, history[i].1, Occurrences(history[i..], history[i]))
  {
    if i == 0 {
      assert history[0..] == history;
    } else {
      InsertionAt(history[1..], i - 1);
      assert history[1..][i - 1..] == history[i..];
    }
  }

  lemma {:induction false} OccurrencesLater(history: seq<Header>, h: Header, i: nat)
    requires i < |history|
    ensures Occurrences(history[i..], h) <= Occurrences(history, h)
    ensures i > 0 && history[0] == h ==> Occurrences(history[i..], h) < Occurrences(history, h)
  {
    if i > 0 {
      OccurrencesLater(history[1..], h, i - 1);
      assert history[1..][i - 1..] == history[i..];
    } else {
      assert history[0..] == history;
    }
  }

  /** Every insertion has a tag of its own, even when equal entries are inserted again. */
  lemma InsertionsDistinct(history: seq<Header>, i: nat, j: nat)
    requires i < j < |history|
    ensures Insertions(history)[i] != Insertions(history)[j]
  {
    hide Insertions, Occurrences;
    InsertionAt(history, i);
    InsertionAt(history, j);
    if history[i] == history[j] {
      OccurrencesLater(history[i..], history[i], j - i);
      assert history[i..][j - i..] == history[j..];
    }
  }

  // ----- One block -----

  /** What identifies the entry a field refers to: a static index, or the tag of the insertion. */
  datatype Reference = Index(index: nat) | Inserted(tag: Tag)

  datatype Token = Token(kind: Kind, reference: Reference, nameWire: Option<Bytes>, valueWire: Option<Bytes>,
                         name: Bytes, value: Bytes)

  datatype Proof = Proof(table: Dyn, tags: seq<Tag>, generations: map<Header, nat>)

  datatype Scanned = Scanned(proof: Proof, updates: seq<nat>, tokens: seq<Token>)

  const FRESH: Proof := Proof(Dyn([], TABLE_CAP), [], map[])

  function Generation(generations: map<Header, nat>, h: Header): nat {
    if h in generations then generations[h] else 0
  }

  /** Every integer of the representation is in its shortest form. */
  predicate CanonicalLayout(b: Bytes, l: Layout)
    requires IsLayout(b, l)
  {
    && CanonicalInt(b, PrefixBits(l.kind)).Some?
    && (IsLiteral(l.kind) ==>
          && (l.index == 0 ==> CanonicalInt(b[l.nameAt..], 7).Some?)
          && CanonicalInt(b[l.valueAt..], 7).Some?)
  }

  function ReferenceOf(tags: seq<Tag>, index: nat): Option<Reference> {
    if index <= STATIC_SIZE then Some(Index(index))
    else if index - STATIC_SIZE - 1 < |tags| then Some(Inserted(tags[index - STATIC_SIZE - 1]))
    else None
  }

  function TokenOf(b: Bytes, l: Layout, reference: Reference, h: Header): Token
    requires IsLayout(b, l)
  {
    Token(l.kind, reference,
          if IsLiteral(l.kind) && l.index == 0 then Some(b[l.nameAt..l.valueAt]) else None,
          if IsLiteral(l.kind) then Some(b[l.valueAt..l.len]) else None,
          h.0, h.1)
  }

  function Truncate(tags: seq<Tag>, n: nat): seq<Tag> {
    if n <= |tags| then tags[..n] else tags
  }

  /** The state after a field: an incremental one gets the next tag; evicted tags leave. */
  function Learned(p: Proof, kind: Kind, h: Header): Proof {
    var table := Learn(p.table, kind, h);
    var generation := Generation(p.generations, h) + 1;
    var tags := if kind == Incremental then [Tag(h.0, h.1, generation)] + p.tags else p.tags;
    Proof(table, Truncate(tags, |table.entries|),
          if kind == Incremental then p.generations[h := generation] else p.generations)
  }

  function Resized(p: Proof, limit: nat): Proof {
    var table := Resize(p.table, limit);
    p.(table := table, tags := Truncate(p.tags, |table.entries|))
  }

  function Scan(p: Proof, updates: seq<nat>, tokens: seq<Token>, b: Bytes): Option<Scanned>
    decreases |b|
  {
    if b == [] then Some(Scanned(p, updates, tokens))
    else match LayoutOf(b)
      case None => None
      case Some(l) =>
        if !CanonicalLayout(b, l) then None
        else if l.kind == Update then
          if tokens != [] || l.index > TABLE_CAP then None
          else Scan(Resized(p, l.index), updates + [l.index], tokens, b[l.len..])
        else
          var reference := ReferenceOf(p.tags, l.index);
          match FieldOf(p.table.entries, b, l)
          case None => None
          case Some(h) =>
            if reference.None? then None
            else Scan(Learned(p, l.kind, h), updates, tokens + [TokenOf(b, l, reference.value, h)], b[l.len..])
  }

  // ----- Identity -----

  /** The live tags name, position by position, the insertions that produced the live entries. */
  ghost predicate Identifies(p: Proof, history: seq<Header>) {
    && p.table.entries <= history
    && p.tags == Insertions(history)[..|p.table.entries|]
    && forall h :: Generation(p.generations, h) == Occurrences(history, h)
  }

  lemma PrefixInsertions(history: seq<Header>, n: nat, m: nat)
    requires n <= m <= |history|
    ensures Truncate(Insertions(history)[..m], n) == Insertions(history)[..n]
  {
  }

  lemma LearnedIdentifies(p: Proof, history: seq<Header>, kind: Kind, h: Header)
    requires Identifies(p, history)
    ensures Identifies(Learned(p, kind, h), (if kind == Incremental then [h] else []) + history)
  {
    LearnIsRecent(p.table, kind, h);
    var table := Learn(p.table, kind, h);
    if kind == Incremental {
      hide Learn;
      var history' := [h] + history;
      assert history'[1..] == history;
      var live := |p.table.entries|;
      assert [Insertions(history')[0]] + p.tags == Insertions(history')[..live + 1];
      PrefixInsertions(history', |table.entries|, live + 1);
      forall x ensures Generation(Learned(p, kind, h).generations, x) == Occurrences(history', x) {
      }
    } else {
      assert [] + history == history;
      PrefixInsertions(history, |table.entries|, |p.table.entries|);
    }
  }

  lemma ResizedIdentifies(p: Proof, history: seq<Header>, limit: nat)
    requires Identifies(p, history)
    ensures Identifies(Resized(p, limit), history)
  {
    PrefixInsertions(history, |Resize(p.table, limit).entries|, |p.table.entries|);
  }

  /** A dynamic reference in a token is an insertion with the name, or the name and value, decoded. */
  ghost predicate Faithful(t: Token, history: seq<Header>) {
    t.reference.Inserted? ==>
      && t.reference.tag in Insertions(history)
      && t.reference.tag.name == t.name
      && (t.kind == Indexed ==> t.reference.tag.value == t.value)
  }

  lemma {:induction false} OlderInsertions(newer: seq<Header>, history: seq<Header>)
    ensures Insertions(newer + history)[|newer|..] == Insertions(history)
  {
    if newer == [] {
      assert newer + history == history;
    } else {
      OlderInsertions(newer[1..], history);
      assert (newer + history)[1..] == newer[1..] + history;
    }
  }

  lemma FaithfulLater(t: Token, newer: seq<Header>, history: seq<Header>)
    requires Faithful(t, history)
    ensures Faithful(t, newer + history)
  {
    OlderInsertions(newer, history);
    if t.reference.Inserted? {
      var all := Insertions(newer + history);
      var i :| 0 <= i < |Insertions(history)| && Insertions(history)[i] == t.reference.tag;
      assert all[|newer| + i] == t.reference.tag;
    }
  }

  lemma NewTokenFaithful(p: Proof, history: seq<Header>, b: Bytes, l: Layout, h: Header)
    requires Identifies(p, history) && IsLayout(b, l) && l.kind != Update
    requires FieldOf(p.table.entries, b, l) == Some(h) && ReferenceOf(p.tags, l.index).Some?
    ensures Faithful(TokenOf(b, l, ReferenceOf(p.tags, l.index).value, h), history)
  {
    hide LayoutOf, StringText;
    if l.index > STATIC_SIZE {
      var i := l.index - STATIC_SIZE - 1;
      InsertionAt(history, i);
      assert p.tags[i] == Insertions(history)[i] && p.table.entries[i] == history[i];
    }
  }

  /** The tokens from the `n`-th on spell out `headers`, faithfully. */
  ghost predicate Spell(tokens: seq<Token>, n: nat, headers: seq<Header>, history: seq<Header>) {
    && n <= |tokens| && |tokens| - n == |headers|
    && (forall i :: n <= i < |tokens| ==> (tokens[i].name, tokens[i].value) == headers[i - n])
    && forall i :: n <= i < |tokens| ==> Faithful(tokens[i], history)
  }

  lemma SpellOneMore(tokens: seq<Token>, n: nat, h: Header, rest: seq<Header>, newer: seq<Header>, history: seq<Header>)
    requires n < |tokens| && Spell(tokens, n + 1, rest, newer + history)
    requires (tokens[n].name, tokens[n].value) == h && Faithful(tokens[n], history)
    ensures Spell(tokens, n, [h] + rest, newer + history)
  {
    FaithfulLater(tokens[n], newer, history);
    forall i | n <= i < |tokens|
      ensures (tokens[i].name, tokens[i].value) == ([h] + rest)[i - n] && Faithful(tokens[i], newer + history)
    {
      if i > n {
        assert ([h] + rest)[i - n] == rest[i - (n + 1)];
      }
    }
  }

  /**
   The checker decodes by parts what the validator decodes at once, follows every entry by its
   insertion, and its tokens spell out the decoded headers with faithful references.
   */
  lemma {:induction false} ScanFaithful(p: Proof, updates: seq<nat>, tokens: seq<Token>, b: Bytes, history: seq<Header>)
    requires Identifies(p, history) && Scan(p, updates, tokens, b).Some?
    ensures DecodeBlock(p.table, b, TABLE_CAP, tokens != []).Some?
    ensures var s := Scan(p, updates, tokens, b).value;
            var d := DecodeBlock(p.table, b, TABLE_CAP, tokens != []).value;
            && s.proof.table == d.table && Identifies(s.proof, d.inserted + history)
            && tokens <= s.tokens && Spell(s.tokens, |tokens|, d.headers, d.inserted + history)
    decreases |b|
  {
    hide LayoutOf, FieldOf, CanonicalLayout, Resized, Learned, Identifies, TokenOf, Spell, Insertions, ReferenceOf, Fit;
    if b == [] {
      assert [] + history == history;
      ScanNothing(p, updates, tokens, history);
    } else {
      var l := LayoutOf(b).value;
      if l.kind == Update {
        ResizedTable(p, l.index);
        ResizedIdentifies(p, history, l.index);
        ScanFaithful(Resized(p, l.index), updates + [l.index], tokens, b[l.len..], history);
      } else {
        var h := FieldOf(p.table.entries, b, l).value;
        var reference := ReferenceOf(p.tags, l.index).value;
        var t := TokenOf(b, l, reference, h);
        var mine := if l.kind == Incremental then [h] else [];
        LearnedTable(p, l.kind, h);
        LearnedIdentifies(p, history, l.kind, h);
        NewTokenFaithful(p, history, b, l, h);
        ScanFaithful(Learned(p, l.kind, h), updates, tokens + [t], b[l.len..], mine + history);
        var s := Scan(Learned(p, l.kind, h), updates, tokens + [t], b[l.len..]).value;
        var d := DecodeBlock(Learn(p.table, l.kind, h), b[l.len..], TABLE_CAP, true).value;
        Assoc(d.inserted, mine, history);
        assert s.tokens[|tokens|] == t;
        TokenTells(b, l, reference, h);
        FaithfulLater(t, mine, history);
        SpellOneMore(s.tokens, |tokens|, h, d.headers, d.inserted, mine + history);
      }
    }
  }

  // ----- Every reference names the insertion behind it -----

  /** Section 2.3.3 of RFC 7541: the insertion a dynamic index stands for, of all up to now, newest first. */
  ghost predicate Names(reference: Reference, index: nat, history: seq<Header>) {
    if index <= STATIC_SIZE then reference == Index(index)
    else
      && index - STATIC_SIZE - 1 < |history|
      && reference == Inserted(Insertions(history)[index - STATIC_SIZE - 1])
  }

  /** A token tells the representation at the front of `b`, read when `history` had been inserted. */
  ghost predicate Tells(t: Token, b: Bytes, l: Layout, h: Header, history: seq<Header>) {
    && IsLayout(b, l) && t.kind == l.kind && (t.name, t.value) == h
    && Names(t.reference, l.index, history)
    && t.nameWire == (if IsLiteral(l.kind) && l.index == 0 then Some(b[l.nameAt..l.valueAt]) else None)
    && t.valueWire == (if IsLiteral(l.kind) then Some(b[l.valueAt..l.len]) else None)
  }

  /** The tokens from the `n`-th on tell `b` field by field, each against the history at its turn. */
  ghost predicate TellAll(tokens: seq<Token>, n: nat, table: Dyn, b: Bytes, history: seq<Header>)
    decreases |b|
  {
    if b == [] then n == |tokens|
    else
      && LayoutOf(b).Some?
      && var l := LayoutOf(b).value;
         if l.kind == Update then TellAll(tokens, n, Resize(table, l.index), b[l.len..], history)
         else
           && FieldOf(table.entries, b, l).Some? && n < |tokens|
           && var h := FieldOf(table.entries, b, l).value;
              && Tells(tokens[n], b, l, h, history)
              && TellAll(tokens, n + 1, Learn(table, l.kind, h), b[l.len..],
                         (if l.kind == Incremental then [h] else []) + history)
  }

  lemma TokenNames(p: Proof, history: seq<Header>, b: Bytes, l: Layout, h: Header)
    requires Identifies(p, history) && IsLayout(b, l) && ReferenceOf(p.tags, l.index).Some?
    ensures Tells(TokenOf(b, l, ReferenceOf(p.tags, l.index).value, h), b, l, h, history)
  {
    hide LayoutOf;
    if l.index > STATIC_SIZE {
      assert p.tags[l.index - STATIC_SIZE - 1] == Insertions(history)[l.index - STATIC_SIZE - 1];
    }
  }

  lemma TellNothing(tokens: seq<Token>, table: Dyn, history: seq<Header>)
    ensures TellAll(tokens, |tokens|, table, [], history)
  {
  }

  /** Within a block every token names the insertion behind the entry its field was read from. */
  lemma {:induction false} ScanTells(p: Proof, updates: seq<nat>, tokens: seq<Token>, b: Bytes, history: seq<Header>)
    requires Identifies(p, history) && Scan(p, updates, tokens, b).Some?
    ensures var s := Scan(p, updates, tokens, b).value;
            tokens <= s.tokens && TellAll(s.tokens, |tokens|, p.table, b, history)
    decreases |b|
  {
    hide LayoutOf, FieldOf, CanonicalLayout, Resized, Learned, Identifies, TokenOf, Tells, ReferenceOf, Fit;
    if b == [] {
      TellNothing(tokens, p.table, history);
    } else {
      var l := LayoutOf(b).value;
      if l.kind == Update {
        ResizedTable(p, l.index);
        ResizedIdentifies(p, history, l.index);
        ScanTells(Resized(p, l.index), updates + [l.index], tokens, b[l.len..], history);
      } else {
        var h := FieldOf(p.table.entries, b, l).value;
        var t := TokenOf(b, l, ReferenceOf(p.tags, l.index).value, h);
        var mine := if l.kind == Incremental then [h] else [];
        LearnedTable(p, l.kind, h);
        LearnedIdentifies(p, history, l.kind, h);
        TokenNames(p, history, b, l, h);
        ScanTells(Learned(p, l.kind, h), updates, tokens + [t], b[l.len..], mine + history);
        assert Scan(p, updates, tokens, b).value.tokens[|tokens|] == t;
      }
    }
  }

  lemma ScanNothing(p: Proof, updates: seq<nat>, tokens: seq<Token>, history: seq<Header>)
    ensures Spell(tokens, |tokens|, [], history)
  {
  }

  lemma ResizedTable(p: Proof, limit: nat)
    ensures Resized(p, limit).table == Resize(p.table, limit)
  {
  }

  lemma LearnedTable(p: Proof, kind: Kind, h: Header)
    ensures Learned(p, kind, h).table == Learn(p.table, kind, h)
  {
  }

  lemma TokenTells(b: Bytes, l: Layout, reference: Reference, h: Header)
    requires IsLayout(b, l)
    ensures var t := TokenOf(b, l, reference, h); (t.name, t.value) == h
  {
    hide LayoutOf;
  }

  // ----- The proof of one block, and of a connection -----

  /** `block`: the validator's header list must be the captured one; the scan names every reference. */
  function ProveBlock(p: Proof, block: Bytes, headers: seq<Header>): Option<Scanned> {
    if block == [] || |block| > MAX_BLOCK then None
    else match DecodeBlock(p.table, block, TABLE_CAP, false)
      case None => None
      case Some(d) => if d.headers != headers then None else Scan(p, [], [], block)
  }

  datatype Captured = Captured(block: Bytes, headers: seq<Header>)

  function ProveAll(p: Proof, blocks: seq<Captured>): Option<(Proof, seq<Scanned>)>
    decreases |blocks|
  {
    if blocks == [] then Some((p, []))
    else match ProveBlock(p, blocks[0].block, blocks[0].headers)
      case None => None
      case Some(s) =>
        match ProveAll(s.proof, blocks[1..])
        case None => None
        case Some((end, rest)) => Some((end, [s] + rest))
  }

  /** Block by block the tokens tell what was read, against the history up to each field. */
  ghost predicate TellBlocks(scans: seq<Scanned>, table: Dyn, blocks: seq<Captured>, history: seq<Header>)
    decreases |blocks|
  {
    if blocks == [] then scans == []
    else
      && scans != [] && TellAll(scans[0].tokens, 0, table, blocks[0].block, history)
      && var d := DecodeBlock(table, blocks[0].block, TABLE_CAP, false);
         && d.Some? && d.value.headers == blocks[0].headers
         && TellBlocks(scans[1..], d.value.table, blocks[1..], d.value.inserted + history)
  }

  /**
   Across all blocks of a connection the live tags name the live entries by insertion, and every token
   names the insertion behind the entry its field was read from.
   */
  lemma {:induction false} InsertionIdentity(p: Proof, blocks: seq<Captured>, history: seq<Header>)
    returns (history': seq<Header>)
    requires Identifies(p, history) && ProveAll(p, blocks).Some?
    ensures var (end, scans) := ProveAll(p, blocks).value;
            && Identifies(end, history')
            && |scans| == |blocks|
            && TellBlocks(scans, p.table, blocks, history)
            && forall k :: 0 <= k < |blocks| ==> Spell(scans[k].tokens, 0, blocks[k].headers, history')
    ensures exists newer :: history' == newer + history
    decreases |blocks|
  {
    hide Identifies, Scan, Spell, DecodeBlock, TellAll;
    if blocks == [] {
      history' := history;
      assert history' == [] + history;
    } else {
      var (block, headers) := (blocks[0].block, blocks[0].headers);
      ScanFaithful(p, [], [], block, history);
      ScanTells(p, [], [], block, history);
      var s := ProveBlock(p, block, headers).value;
      var d := DecodeBlock(p.table, block, TABLE_CAP, false).value;
      history' := InsertionIdentity(s.proof, blocks[1..], d.inserted + history);
      var newer :| history' == newer + (d.inserted + history);
      Assoc(newer, d.inserted, history);
      assert history' == (newer + d.inserted) + history;
      SpellLater(s.tokens, headers, newer, d.inserted + history);
      var scans := ProveAll(p, blocks).value.1;
      assert scans[1..] == ProveAll(s.proof, blocks[1..]).value.1;
      forall k | 0 <= k < |blocks| ensures Spell(scans[k].tokens, 0, blocks[k].headers, history') {
        if k > 0 {
          assert scans[k] == scans[1..][k - 1] && blocks[k] == blocks[1..][k - 1];
        }
      }
    }
  }

  /** A capture, from a fresh checker: every reference of every block names its insertion, and live tags differ. */
  lemma CaptureIdentity(blocks: seq<Captured>)
    requires ProveAll(FRESH, blocks).Some?
    ensures var (end, scans) := ProveAll(FRESH, blocks).value;
            && TellBlocks(scans, FRESH.table, blocks, [])
            && |end.tags| == |end.table.entries|
            && (forall i :: 0 <= i < |end.tags| ==> (end.tags[i].name, end.tags[i].value) == end.table.entries[i])
            && forall i, j :: 0 <= i < j < |end.tags| ==> end.tags[i] != end.tags[j]
  {
    hide Identifies, ProveAll, TellBlocks;
    FreshIdentifies();
    var history := InsertionIdentity(FRESH, blocks, []);
    var end := ProveAll(FRESH, blocks).value.0;
    forall i, j | 0 <= i < j < |end.tags| ensures end.tags[i] != end.tags[j] {
      LiveTagsDistinct(end, history, i, j);
    }
    LiveTagsName(end, history);
  }

  lemma LiveTagsName(p: Proof, history: seq<Header>)
    requires Identifies(p, history)
    ensures |p.tags| == |p.table.entries|
    ensures forall i :: 0 <= i < |p.tags| ==> (p.tags[i].name, p.tags[i].value) == p.table.entries[i]
  {
    forall i | 0 <= i < |p.tags| ensures (p.tags[i].name, p.tags[i].value) == p.table.entries[i] {
      InsertionAt(history, i);
    }
  }

  lemma SpellLater(tokens: seq<Token>, headers: seq<Header>, newer: seq<Header>, history: seq<Header>)
    requires Spell(tokens, 0, headers, history)
    ensures Spell(tokens, 0, headers, newer + history)
  {
    forall i | 0 <= i < |tokens| ensures Faithful(tokens[i], newer + history) {
      FaithfulLater(tokens[i], newer, history);
    }
  }

  lemma LiveTagsDistinct(p: Proof, history: seq<Header>, i: nat, j: nat)
    requires Identifies(p, history) && i < j < |p.tags|
    ensures p.tags[i] != p.tags[j]
    ensures |p.tags| == |p.table.entries| && (p.tags[i].name, p.tags[i].value) == p.table.entries[i]
  {
    InsertionsDistinct(history, i, j);
    InsertionAt(history, i);
  }

  lemma FreshIdentifies()
    ensures Identifies(FRESH, [])
  {
  }

  // ----- Which blocks are proven -----

  /** The integer at the front of `b` is in its shortest form. */
  ghost predicate IsShortest(b: Bytes, bits: Width) {
    exists n: nat, high: Byte :: ShortestAt(b, n, high, bits)
  }

  /** So is every integer of a representation: its index, and the lengths of its literals. */
  ghost predicate ShortestIn(b: Bytes, l: Layout)
    requires IsLayout(b, l)
  {
    && IsShortest(b, PrefixBits(l.kind))
    && (IsLiteral(l.kind) ==>
          && (l.index == 0 ==> IsShortest(b[l.nameAt..], 7))
          && IsShortest(b[l.valueAt..], 7))
  }

  ghost predicate AllShortest(b: Bytes)
    decreases |b|
  {
    b == [] || (LayoutOf(b).Some? && var l := LayoutOf(b).value; ShortestIn(b, l) && AllShortest(b[l.len..]))
  }

  lemma ReadableShortest(b: Bytes, bits: Width)
    requires ReadInt(b, bits, ROOM).Some?
    ensures CanonicalInt(b, bits).Some? <==> IsShortest(b, bits)
  {
    hide Pow2, ReadInt, IntBytes, Span;
    CanonicalIff(b, bits);
    Pow2Large();
    forall n: nat, high: Byte | ShortestAt(b, n, high, bits) ensures CanonicalInt(b, bits).Some? {
      var e := IntBytes(n, high, bits);
      assert b == e + b[|e|..];
      RoundTrip(n, high, bits, ROOM, b[|e|..]);
      Accepted(b, n, high, bits);
    }
  }

  lemma StringsReadable(b: Bytes, l: Layout)
    requires IsLayout(b, l)
    ensures ReadInt(b, PrefixBits(l.kind), ROOM).Some?
    ensures IsLiteral(l.kind) ==> ReadInt(b[l.valueAt..], 7, ROOM).Some?
    ensures IsLiteral(l.kind) && l.index == 0 ==> ReadInt(b[l.nameAt..], 7, ROOM).Some?
  {
    hide ReadInt;
  }

  lemma CanonicalLayoutIff(b: Bytes, l: Layout)
    requires IsLayout(b, l)
    ensures CanonicalLayout(b, l) <==> ShortestIn(b, l)
  {
    hide ReadInt, LayoutOf, CanonicalInt, IsShortest;
    StringsReadable(b, l);
    ReadableShortest(b, PrefixBits(l.kind));
    if IsLiteral(l.kind) {
      ReadableShortest(b[l.valueAt..], 7);
      if l.index == 0 {
        ReadableShortest(b[l.nameAt..], 7);
      }
    }
  }

  lemma ReferenceThere(p: Proof, history: seq<Header>, b: Bytes, l: Layout)
    requires Identifies(p, history) && IsLayout(b, l) && l.kind != Update && FieldOf(p.table.entries, b, l).Some?
    ensures ReferenceOf(p.tags, l.index).Some?
  {
    hide LayoutOf, StringText;
  }

  /** Where the validator decodes a block, the scan goes through exactly if every integer is in its shortest form. */
  lemma {:induction false} ScanExistsIff(p: Proof, updates: seq<nat>, tokens: seq<Token>, b: Bytes,
                                         history: seq<Header>)
    requires Identifies(p, history) && DecodeBlock(p.table, b, TABLE_CAP, tokens != []).Some?
    ensures Scan(p, updates, tokens, b).Some? <==> AllShortest(b)
    decreases |b|
  {
    hide LayoutOf, FieldOf, CanonicalLayout, ShortestIn, Resized, Learned, Identifies, TokenOf, ReferenceOf, Fit;
    if b != [] {
      var l := LayoutOf(b).value;
      CanonicalLayoutIff(b, l);
      if l.kind == Update {
        ResizedTable(p, l.index);
        ResizedIdentifies(p, history, l.index);
        ScanExistsIff(Resized(p, l.index), updates + [l.index], tokens, b[l.len..], history);
      } else {
        var h := FieldOf(p.table.entries, b, l).value;
        ReferenceThere(p, history, b, l);
        var t := TokenOf(b, l, ReferenceOf(p.tags, l.index).value, h);
        LearnedTable(p, l.kind, h);
        LearnedIdentifies(p, history, l.kind, h);
        ScanExistsIff(Learned(p, l.kind, h), updates, tokens + [t], b[l.len..],
                      (if l.kind == Incremental then [h] else []) + history);
      }
    }
  }

  /**
   A block is proven exactly when it is not empty and at most 1 MiB, decodes to the captured headers with
   table sizes of at most 4096, updates first, and has every integer in its shortest form.
   */
  lemma ProvenIff(p: Proof, history: seq<Header>, block: Bytes, headers: seq<Header>)
    requires Identifies(p, history)
    ensures ProveBlock(p, block, headers).Some? <==>
              && block != [] && |block| <= 1048576
              && DecodeBlock(p.table, block, 4096, false).Some?
              && DecodeBlock(p.table, block, 4096, false).value.headers == headers
              && AllShortest(block)
  {
    hide DecodeBlock, Scan, AllShortest, Identifies;
    if DecodeBlock(p.table, block, 4096, false).Some? {
      ScanExistsIff(p, [], [], block, history);
    }
  }

  // ----- Wide integers -----

  /** An integer the decoder finds too wide is too large to be a length, an index or a table size. */
  lemma WideIsLarge(b: Bytes, bits: Width)
    requires CanonicalInt(b, bits).Some?
    ensures ReadInt(b, bits, ROOM).None? ==> CanonicalInt(b, bits).value.0 > MAX_BLOCK
    ensures ReadInt(b, bits, ROOM).Some? ==> ReadInt(b, bits, ROOM) == CanonicalInt(b, bits)
  {
    hide Pow2;
    var (n, len) := CanonicalInt(b, bits).value;
    var high := b[0] - Low(b[0], bits);
    HighBits(b[0], bits);
    assert b == b[..len] + b[len..];
    RoundTrip(n, high, bits, ROOM, b[len..]);
    LargePower();
  }

  lemma LargePower()
    ensures Pow2(7 * ROOM) > MAX_BLOCK
  {
    Pow2Eight();
    Pow2Add(8, 8);
    Pow2Add(16, 8);
    Pow2Mono(24, 35);
  }
}
