/** What `HeaderRewriter::rewrite` does to one header block (src/hpack_wire.rs), as functions. */
module RewriteSpec {
  import opened Octets
  import opened HpackInteger
  import opened StaticTable
  import opened HpackTable
  import opened HpackReference
  import Huffman

  const MAX_BLOCK: nat := 1024 * 1024
  const MAX_TABLE: nat := 65536

  /** `Mapping::value` for one direction: the new value of a field, or an error. */
  type ValueMap = (Bytes, Bytes) -> Option<Bytes>

  /** The sender's table as the bridge tracks it, and the receiver's. */
  datatype State = State(inb: Dyn, outb: Dyn)

  /** The flags and counters of one block. */
  datatype Scan = Scan(fields: bool, regular: bool, hasMethod: bool, authority: nat, total: nat)

  datatype Outcome = Outcome(st: State, scan: Scan, out: Bytes)

  const START: Scan := Scan(false, false, false, 0, 0)

  const INITIAL: State := State(Dyn([], 4096), Dyn([], 4096))

  function Cap(limit: nat): nat {
    if limit < MAX_TABLE then limit else MAX_TABLE
  }

  // ----- Checks on a decoded field -----

  predicate NameOk(name: Bytes) {
    name != [] && forall i :: 0 <= i < |name| ==> !(65 <= name[i] <= 90) && name[i] > 32 && name[i] != 127
  }

  predicate ValueOk(value: Bytes) {
    forall i :: 0 <= i < |value| ==> value[i] != 13 && value[i] != 10 && value[i] != 0
  }

  function Max(a: nat, b: nat): nat {
    if a < b then b else a
  }

  /** The field `h` with its mapped value, accepted after the fields counted in `scan`. */
  function Admit(scan: Scan, h: Header, mapped: Bytes): Option<Scan> {
    if !NameOk(h.0) || !ValueOk(h.1) then None
    else
      var pseudo := h.0[0] == 58;
      if pseudo && scan.regular then None
      else if h.0 == Ascii(":method") && h.1 == Ascii("CONNECT") then None
      else
        var total := scan.total + |h.0| + Max(|mapped|, |h.1|) + ENTRY_OVERHEAD;
        if total > MAX_BLOCK then None
        else Some(Scan(true, scan.regular || !pseudo, scan.hasMethod || h.0 == Ascii(":method"),
                       scan.authority + (if h.0 == Ascii(":authority") then 1 else 0), total))
  }

  // ----- What is written for a field -----

  lemma PatternFits(kind: Kind)
    ensures PrefixFits(Pattern(kind), PrefixBits(kind))
  {
    match kind {
      case Indexed => assert 128 % 128 == 0;
      case Incremental => assert 64 % 64 == 0;
      case Update => assert 32 % 32 == 0;
      case Never => assert 16 % 16 == 0;
      case Without => assert 0 % 16 == 0;
    }
  }

  function PutIndex(kind: Kind, index: nat): Bytes {
    PatternFits(kind);
    IntBytes(index, Pattern(kind), PrefixBits(kind))
  }

  function StringBytes(s: Bytes, huffman: bool): Bytes {
    assert 0 % 128 == 0 && 128 % 128 == 0;
    if huffman then IntBytes(|Huffman.Encode(s)|, 128, 7) + Huffman.Encode(s)
    else IntBytes(|s|, 0, 7) + s
  }

  /** A name by reference, or spelled out when no entry of the receiver has it. */
  function PutName(kind: Kind, target: nat, name: Bytes): Bytes {
    PutIndex(kind, target) + if target == 0 then StringBytes(name, false) else []
  }

  /** A header the receiver may no longer have: its index, a new index, or an unindexed literal. */
  function EmitIndexed(entries: seq<Header>, l: Layout, h: Header, mapped: Bytes, wire: Bytes): Bytes {
    var target := Find(entries, l.index, h.0, Some(mapped));
    if target == l.index then wire
    else if target != 0 then PutIndex(Indexed, target)
    else PutName(Without, Find(entries, 0, h.0, None), h.0) + StringBytes(mapped, false)
  }

  /** The part of a literal before its value. */
  function EmitHead(entries: seq<Header>, l: Layout, name: Bytes, wire: Bytes): Bytes
    requires l.valueAt <= |wire|
  {
    var target := if l.index == 0 then 0 else Find(entries, l.index, name, None);
    if target == l.index then wire[..l.valueAt] else PutName(l.kind, target, name)
  }

  function EmitValue(l: Layout, value: Bytes, mapped: Bytes, wire: Bytes): Bytes
    requires l.valueAt < |wire|
  {
    if mapped == value then wire[l.valueAt..] else StringBytes(mapped, wire[l.valueAt] >= 128)
  }

  function Emit(entries: seq<Header>, b: Bytes, l: Layout, h: Header, mapped: Bytes): Bytes
    requires IsLayout(b, l) && l.kind != Update
  {
    var wire := b[..l.len];
    if l.kind == Indexed then EmitIndexed(entries, l, h, mapped, wire)
    else EmitHead(entries, l, h.0, wire) + EmitValue(l, h.1, mapped, wire)
  }

  // ----- The block -----

  datatype Step = Step(st: State, scan: Scan, bytes: Bytes)

  function FieldStep(st: State, scan: Scan, b: Bytes, l: Layout, mapping: ValueMap): Option<Step>
    requires IsLayout(b, l) && l.kind != Update
  {
    match FieldOf(st.inb.entries, b, l)
    case None => None
    case Some(h) =>
      match mapping(h.0, h.1)
      case None => None
      case Some(mapped) =>
        match Admit(scan, h, mapped)
        case None => None
        case Some(scan') =>
          Some(Step(State(Learn(st.inb, l.kind, h), Learn(st.outb, l.kind, (h.0, mapped))), scan',
                    Emit(st.outb.entries, b, l, h, mapped)))
  }

  function RewriteFrom(st: State, scan: Scan, out: Bytes, b: Bytes, mapping: ValueMap, cap: nat): Option<Outcome>
    decreases |b|
  {
    if b == [] then Some(Outcome(st, scan, out))
    else match LayoutOf(b)
      case None => None
      case Some(l) =>
        if l.kind == Update then
          if scan.fields || l.index > cap then None
          else RewriteFrom(State(Resize(st.inb, l.index), Resize(st.outb, l.index)), scan,
                           out + b[..l.len], b[l.len..], mapping, cap)
        else match FieldStep(st, scan, b, l, mapping)
          case None => None
          case Some(step) =>
            if |out + step.bytes| > MAX_BLOCK then None
            else RewriteFrom(step.st, step.scan, out + step.bytes, b[l.len..], mapping, cap)
  }

  /** One call: the tables after it and the new block, or an error. */
  function Rewrite(st: State, block: Bytes, mapping: ValueMap, response: bool, limit: nat): Option<(State, Bytes)> {
    if |block| > MAX_BLOCK then None
    else match RewriteFrom(st, START, [], block, mapping, Cap(limit))
      case None => None
      case Some(o) =>
        if !response && o.scan.hasMethod && o.scan.authority != 1 then None else Some((o.st, o.out))
  }
}
