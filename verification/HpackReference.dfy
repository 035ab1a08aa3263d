/**
 A decoder in the words of RFC 7541: representations of section 6 over the tables of section 2.3.
 It stands for the decoder library inside the bridge and for the remote receiver.
 */
module HpackReference {
  import opened Octets
  import opened HpackInteger
  import opened StaticTable
  import opened HpackTable
  import Huffman

  datatype Kind = Indexed | Incremental | Update | Never | Without

  /** Section 6: the leading bits of the first octet select the representation. */
  function KindOf(c: Byte): Kind {
    if c >= 128 then Indexed
    else if c >= 64 then Incremental
    else if c >= 32 then Update
    else if c >= 16 then Never
    else Without
  }

  function PrefixBits(kind: Kind): Width {
    match kind
    case Indexed => 7
    case Incremental => 6
    case Update => 5
    case _ => 4
  }

  /** The bits above the integer prefix. */
  function Pattern(kind: Kind): Byte {
    match kind
    case Indexed => 128
    case Incremental => 64
    case Update => 32
    case Never => 16
    case Without => 0
  }

  predicate IsLiteral(kind: Kind) {
    kind == Incremental || kind == Never || kind == Without
  }

  /** Sections 6.1 to 6.3: 1, 01, 001, 0001 and 0000 lead the five representations. */
  lemma KindBits(c: Byte)
    ensures match KindOf(c)
            case Indexed => c / 128 == 1
            case Incremental => c / 64 == 1
            case Update => c / 32 == 1
            case Never => c / 16 == 1
            case Without => c / 16 == 0
  {
  }

  // ----- String literals, section 5.2 -----

  /** Octets a string literal occupies at the front of `b`. */
  function StringLength(b: Bytes): (r: Option<nat>)
    ensures r.Some? ==> 1 <= r.value <= |b|
  {
    match ReadInt(b, 7, ROOM)
    case None => None
    case Some((n, len)) => if n <= |b| - len then Some(len + n) else None
  }

  /** The text of a literal that fills `b` exactly. */
  function StringText(b: Bytes): Option<Bytes>
    requires StringLength(b) == Some(|b|)
  {
    var len := ReadInt(b, 7, ROOM).value.1;
    if b[0] >= 128 then Huffman.Decode(b[len..]) else Some(b[len..])
  }

  // ----- Representations -----

  /** Where the parts of one representation lie: integer, new name, value. */
  datatype Layout = Layout(kind: Kind, index: nat, nameAt: nat, valueAt: nat, len: nat)

  function LayoutOf(b: Bytes): (r: Option<Layout>)
    requires b != []
    ensures r.Some? ==> 1 <= r.value.nameAt <= r.value.valueAt <= r.value.len <= |b|
    ensures r.Some? ==> r.value.kind == KindOf(b[0])
  {
    var kind := KindOf(b[0]);
    match ReadInt(b, PrefixBits(kind), ROOM)
    case None => None
    case Some((index, nameAt)) =>
      if !IsLiteral(kind) then Some(Layout(kind, index, nameAt, nameAt, nameAt))
      else
        var nameLen := if index == 0 then StringLength(b[nameAt..]) else Some(0);
        if nameLen.None? then None
        else
          var valueAt := nameAt + nameLen.value;
          match StringLength(b[valueAt..])
          case None => None
          case Some(valueLen) => Some(Layout(kind, index, nameAt, valueAt, valueAt + valueLen))
  }

  ghost predicate IsLayout(b: Bytes, l: Layout) {
    b != [] && LayoutOf(b) == Some(l)
  }

  /** The header a field representation stands for. */
  function FieldOf(entries: seq<Header>, b: Bytes, l: Layout): Option<Header>
    requires IsLayout(b, l) && l.kind != Update
  {
    if l.kind == Indexed then Get(entries, l.index)
    else
      PartLengths(b, l);
      var name := if l.index == 0 then StringText(b[l.nameAt..l.valueAt])
                  else (match Get(entries, l.index) case None => None case Some(h) => Some(h.0));
      var value := StringText(b[l.valueAt..l.len]);
      if name.Some? && value.Some? then Some((name.value, value.value)) else None
  }

  /** Only incremental indexing adds the field to the table. */
  function Learn(t: Dyn, kind: Kind, h: Header): Dyn {
    if kind == Incremental then Insert(t, h) else t
  }

  /** A decoded block: its headers, the table after it, and the inserted entries, newest first. */
  datatype Decoded = Decoded(headers: seq<Header>, table: Dyn, inserted: seq<Header>)

  /** Table-size updates come first (section 4.2) and stay within `cap` (section 6.3). */
  function DecodeBlock(t: Dyn, b: Bytes, cap: nat, fields: bool): Option<Decoded>
    decreases |b|
  {
    if b == [] then Some(Decoded([], t, []))
    else match LayoutOf(b)
      case None => None
      case Some(l) =>
        if l.kind == Update then
          if fields || l.index > cap then None else DecodeBlock(Resize(t, l.index), b[l.len..], cap, false)
        else match FieldOf(t.entries, b, l)
          case None => None
          case Some(h) =>
            match DecodeBlock(Learn(t, l.kind, h), b[l.len..], cap, true)
            case None => None
            case Some(d) =>
              Some(Decoded([h] + d.headers, d.table,
                           d.inserted + if l.kind == Incremental then [h] else []))
  }

  // ----- Results depend only on the octets consumed -----

  lemma StringStable(b: Bytes, n: nat, rest: Bytes)
    requires StringLength(b) == Some(n)
    ensures StringLength(b[..n] + rest) == Some(n)
    ensures b[..n][0] == b[0]
  {
    var (v, len) := ReadInt(b, 7, ROOM).value;
    Stable(b, b[len..n] + rest, 7, ROOM);
    assert b[..len] + (b[len..n] + rest) == b[..n] + rest;
  }

  lemma StringExact(b: Bytes, n: nat)
    requires StringLength(b) == Some(n)
    ensures StringLength(b[..n]) == Some(n) == Some(|b[..n]|)
  {
    StringStable(b, n, []);
    assert b[..n] + [] == b[..n];
  }

  lemma PartLengths(b: Bytes, l: Layout)
    requires IsLayout(b, l) && IsLiteral(l.kind)
    ensures l.index == 0 ==> StringLength(b[l.nameAt..l.valueAt]) == Some(|b[l.nameAt..l.valueAt]|)
    ensures l.index != 0 ==> l.nameAt == l.valueAt
    ensures StringLength(b[l.valueAt..l.len]) == Some(|b[l.valueAt..l.len]|)
  {
    hide ReadInt, StringLength;
    if l.index == 0 {
      StringExact(b[l.nameAt..], l.valueAt - l.nameAt);
      assert b[l.nameAt..][..l.valueAt - l.nameAt] == b[l.nameAt..l.valueAt];
    }
    StringExact(b[l.valueAt..], l.len - l.valueAt);
    assert b[l.valueAt..][..l.len - l.valueAt] == b[l.valueAt..l.len];
  }

  /** An integer, a name where there is no index, and a value make a literal. */
  lemma ComposeLiteral(kind: Kind, index: nat, i: Bytes, n: Bytes, v: Bytes, rest: Bytes)
    requires IsLiteral(kind)
    requires i != [] && KindOf(i[0]) == kind
    requires ReadInt(i + (n + (v + rest)), PrefixBits(kind), ROOM) == Some((index, |i|))
    requires if index == 0 then StringLength(n) == Some(|n|) else n == []
    requires StringLength(v) == Some(|v|)
    ensures IsLayout(i + (n + (v + rest)), Layout(kind, index, |i|, |i| + |n|, |i| + |n| + |v|))
    ensures var b := i + (n + (v + rest));
            b[|i|..|i| + |n|] == n && b[|i| + |n|..|i| + |n| + |v|] == v && b[|i| + |n| + |v|..] == rest
  {
    hide ReadInt;
    Parts(i, n, v, rest);
    assert n[..|n|] == n && v[..|v|] == v;
    if index == 0 {
      StringStable(n, |n|, v + rest);
    }
    StringStable(v, |v|, rest);
  }

  lemma Parts(i: Bytes, n: Bytes, v: Bytes, rest: Bytes)
    ensures var b := i + (n + (v + rest));
            && b[..|i|] == i && b[|i|..] == n + (v + rest) && b[|i| + |n|..] == v + rest
            && b[|i|..|i| + |n|] == n && b[|i| + |n|..|i| + |n| + |v|] == v && b[|i| + |n| + |v|..] == rest
  {
  }

  /** A representation keeps its layout, and its parts, whatever follows it. */
  lemma LayoutStable(b: Bytes, l: Layout, rest: Bytes)
    requires IsLayout(b, l)
    ensures IsLayout(b[..l.len] + rest, l)
  {
    hide ReadInt, StringLength, Low;
    var kind := l.kind;
    var i, n, v := b[..l.nameAt], b[l.nameAt..l.valueAt], b[l.valueAt..l.len];
    Stable(b, n + (v + rest), PrefixBits(kind), ROOM);
    var whole := b[..l.len] + rest;
    assert i + (n + (v + rest)) == whole;
    if IsLiteral(kind) {
      PartLengths(b, l);
      ComposeLiteral(kind, l.index, i, n, v, rest);
    }
  }

  lemma FieldStable(entries: seq<Header>, b: Bytes, l: Layout, rest: Bytes)
    requires IsLayout(b, l) && l.kind != Update
    ensures IsLayout(b[..l.len] + rest, l)
    ensures FieldOf(entries, b[..l.len] + rest, l) == FieldOf(entries, b, l)
  {
    LayoutStable(b, l, rest);
    var whole := b[..l.len] + rest;
    assert whole[l.nameAt..l.valueAt] == b[l.nameAt..l.valueAt];
    assert whole[l.valueAt..l.len] == b[l.valueAt..l.len];
  }

  /** Section 2.3.2: the table is always the front of everything ever inserted, newest first. */
  lemma {:induction false} TableIsRecentHistory(t: Dyn, b: Bytes, cap: nat, fields: bool)
    requires DecodeBlock(t, b, cap, fields).Some?
    ensures var d := DecodeBlock(t, b, cap, fields).value; d.table.entries <= d.inserted + t.entries
    decreases |b|
  {
    hide LayoutOf, FieldOf, Fit, Learn;
    if b != [] {
      var l := LayoutOf(b).value;
      if l.kind == Update {
        TableIsRecentHistory(Resize(t, l.index), b[l.len..], cap, false);
        PrefixTrans(DecodeBlock(t, b, cap, fields).value.table.entries,
                    DecodeBlock(t, b, cap, fields).value.inserted, Fit(t.entries, l.index), t.entries);
      } else {
        var h := FieldOf(t.entries, b, l).value;
        var t' := Learn(t, l.kind, h);
        TableIsRecentHistory(t', b[l.len..], cap, true);
        var d := DecodeBlock(t', b[l.len..], cap, true).value;
        var mine := if l.kind == Incremental then [h] else [];
        LearnIsRecent(t, l.kind, h);
        PrefixTrans(d.table.entries, d.inserted, t'.entries, mine + t.entries);
        assert d.inserted + (mine + t.entries) == (d.inserted + mine) + t.entries;
      }
    }
  }

  lemma LearnIsRecent(t: Dyn, kind: Kind, h: Header)
    ensures Learn(t, kind, h).entries <= (if kind == Incremental then [h] else []) + t.entries
    ensures Learn(t, kind, h).limit == t.limit
  {
    InsertThenEvict(t, h);
    assert [] + t.entries == t.entries;
  }

  lemma PrefixTrans<T>(a: seq<T>, x: seq<T>, b: seq<T>, c: seq<T>)
    requires a <= x + b && b <= c
    ensures a <= x + c
  {
  }
}
