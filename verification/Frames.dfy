/** HTTP/2 frames on the wire (src/h2.rs; sections 4.1 and 6.2 of RFC 9113). */
module Frames {
  import opened Octets

  const MAX_STREAM: nat := 0x1_0000_0000
  const HEADERS: Byte := 1
  const SETTINGS: Byte := 4
  const PUSH_PROMISE: Byte := 5
  const CONTINUATION: Byte := 9

  type Word = x: int | 0 <= x < MAX_STREAM

  datatype Frame = Frame(kind: Byte, flags: Byte, stream: Word, payload: Bytes)

  // ----- Flags -----

  predicate EndHeaders(flags: Byte) {
    flags / 4 % 2 == 1
  }

  predicate Padded(flags: Byte) {
    flags / 8 % 2 == 1
  }

  predicate Priority(flags: Byte) {
    flags / 32 % 2 == 1
  }

  /** `flags & !4` */
  function ClearEnd(flags: Byte): Byte {
    if EndHeaders(flags) then flags - 4 else flags
  }

  /** `flags | 4` */
  function SetEnd(flags: Byte): Byte {
    if EndHeaders(flags) then flags else flags + 4
  }

  /** Every bit but END_HEADERS is the same. */
  ghost predicate SameButEnd(f: Byte, g: Byte) {
    f % 4 == g % 4 && f / 8 == g / 8
  }

  lemma EndFlagOnly(flags: Byte)
    ensures !EndHeaders(ClearEnd(flags)) && EndHeaders(SetEnd(flags))
    ensures Padded(ClearEnd(flags)) == Padded(flags) == Padded(SetEnd(flags))
    ensures Priority(ClearEnd(flags)) == Priority(flags) == Priority(SetEnd(flags))
    ensures SetEnd(ClearEnd(flags)) == SetEnd(flags) && ClearEnd(SetEnd(flags)) == ClearEnd(flags)
    ensures SameButEnd(ClearEnd(flags), flags) && SameButEnd(SetEnd(flags), flags)
  {
    FlagQuotients(flags);
    FlagQuotients(ClearEnd(flags));
    FlagQuotients(SetEnd(flags));
    var q := flags / 4;
    if EndHeaders(flags) {
      assert ClearEnd(flags) / 4 == q - 1;
    } else {
      assert SetEnd(flags) / 4 == q + 1;
    }
  }

  /** The flags are bits 4, 8 and 32 of the octet. */
  lemma FlagBits(end: bool, padded: bool, priority: bool, low: nat, middle: bool, high: nat)
    requires low < 4 && high < 4
    ensures var flags := low + (if end then 4 else 0) + (if padded then 8 else 0) + (if middle then 16 else 0)
                         + (if priority then 32 else 0) + 64 * high;
            flags < 256 && EndHeaders(flags) == end && Padded(flags) == padded && Priority(flags) == priority
  {
    var e, d, p := if end then 1 else 0, if padded then 1 else 0, if priority then 1 else 0;
    var m := if middle then 1 else 0;
    var flags := low + 4 * e + 8 * d + 16 * m + 32 * p + 64 * high;
    Bit(flags, 4, e, d + 2 * (m + 2 * (p + 2 * high)), low);
    Bit(flags, 8, d, m + 2 * (p + 2 * high), 4 * e + low);
    Bit(flags, 32, p, high, 16 * m + 8 * d + 4 * e + low);
  }

  lemma Bit(n: nat, m: nat, bit: nat, q: nat, r: nat)
    requires bit < 2 && r < m && n == m * (bit + 2 * q) + r
    ensures n / m % 2 == bit
  {
    DivMod(n, m, bit + 2 * q, r);
    DivMod(bit + 2 * q, 2, q, bit);
  }

  lemma FlagQuotients(flags: Byte)
    ensures flags / 8 == flags / 4 / 2 && flags / 32 == flags / 4 / 8
  {
  }

  // ----- Bytes -----

  function Be16(x: int, y: int): int {
    x * 0x100 + y
  }

  function Be24(x: int, y: int, z: int): int {
    x * 0x1_0000 + y * 0x100 + z
  }

  function Be32(w: int, x: int, y: int, z: int): int {
    w * 0x100_0000 + x * 0x1_0000 + y * 0x100 + z
  }

  const MAX_LENGTH: nat := 0xffffff

  function HeadBytes(n: nat, kind: Byte, flags: Byte, stream: Word): (r: Bytes)
    ensures |r| == 9
  {
    [n / 0x1_0000 % 0x100, n / 0x100 % 0x100, n % 0x100, kind, flags,
     stream / 0x100_0000, stream / 0x1_0000 % 0x100, stream / 0x100 % 0x100, stream % 0x100]
  }

  function FrameBytes(f: Frame): (r: Bytes)
    ensures |r| == 9 + |f.payload|
  {
    HeadBytes(|f.payload|, f.kind, f.flags, f.stream) + f.payload
  }

  datatype Read = Eof | Bad | Got(frame: Frame, rest: Bytes)

  function PayloadLength(b: Bytes): nat
    requires |b| >= 9
  {
    Be24(b[0], b[1], b[2])
  }

  function StreamOf(b: Bytes): Word
    requires |b| >= 9
  {
    Be32(b[5], b[6], b[7], b[8])
  }

  /** What a reader that takes payloads of at most `limit` octets makes of the octets still to come. */
  function ReadFrame(b: Bytes, limit: nat): (r: Read)
    ensures r.Got? ==> |r.rest| < |b| && |r.frame.payload| <= limit
  {
    if b == [] then Eof
    else if |b| < 9 then Bad
    else
      var n := PayloadLength(b);
      if n > limit || |b| - 9 < n then Bad
      else Got(Frame(b[3], b[4], StreamOf(b), b[9..9 + n]), b[9 + n..])
  }

  lemma WriteThenRead(f: Frame, rest: Bytes, limit: nat)
    requires |f.payload| <= limit <= MAX_LENGTH
    ensures ReadFrame(FrameBytes(f) + rest, limit) == Got(f, rest)
  {
    var n := |f.payload|;
    var h := HeadBytes(n, f.kind, f.flags, f.stream);
    var b := FrameBytes(f) + rest;
    assert b[..9] == h;
    Base256(n);
    Base256Word(f.stream);
    assert b[9..9 + n] == f.payload;
    assert b[9 + n..] == rest;
  }

  lemma Base256(n: nat)
    requires n <= MAX_LENGTH
    ensures Be24(n / 0x1_0000 % 0x100, n / 0x100 % 0x100, n % 0x100) == n
  {
  }

  lemma Base256Word(n: Word)
    ensures Be32(n / 0x100_0000, n / 0x1_0000 % 0x100, n / 0x100 % 0x100, n % 0x100) == n
  {
    var a := n / 0x100;
    var b := a / 0x100;
    var c, x, y, z := b / 0x100, b % 0x100, a % 0x100, n % 0x100;
    DivMod(n, 0x1_0000, b, 0x100 * y + z);
    DivMod(n, 0x100_0000, c, 0x1_0000 * x + 0x100 * y + z);
  }

  /** Nine octets are the head they say. */
  lemma HeadOf(h: Bytes)
    requires |h| == 9
    ensures HeadBytes(PayloadLength(h), h[3], h[4], StreamOf(h)) == h
  {
    Digits3(h[0], h[1], h[2]);
    Digits4(h[5], h[6], h[7], h[8]);
    hide Be24, Be32;
    assert PayloadLength(h) / 0x1_0000 % 0x100 == h[0];
    assert h == [h[0], h[1], h[2], h[3], h[4], h[5], h[6], h[7], h[8]];
  }

  lemma ReadThenWrite(b: Bytes, limit: nat)
    requires ReadFrame(b, limit).Got?
    ensures var r := ReadFrame(b, limit); b == FrameBytes(r.frame) + r.rest
  {
    hide HeadBytes, Be24, Be32;
    var n := PayloadLength(b);
    var h := b[..9];
    HeadOf(h);
    assert PayloadLength(h) == n && StreamOf(h) == StreamOf(b) && h[3] == b[3] && h[4] == b[4];
    assert b == h + b[9..9 + n] + b[9 + n..];
  }

  lemma Digits3(x: Byte, y: Byte, z: Byte)
    ensures var n := Be24(x, y, z);
            n / 0x1_0000 == x && n / 0x100 % 0x100 == y && n % 0x100 == z
  {
    var n := Be24(x, y, z);
    DivMod(n, 0x1_0000, x, 0x100 * y + z);
    DivMod(n, 0x100, 0x100 * x + y, z);
    DivMod(0x100 * x + y, 0x100, x, y);
  }

  lemma Digits4(w: Byte, x: Byte, y: Byte, z: Byte)
    ensures var n := Be32(w, x, y, z);
            n / 0x100_0000 == w && n / 0x1_0000 % 0x100 == x && n / 0x100 % 0x100 == y && n % 0x100 == z
  {
    var n := Be32(w, x, y, z);
    var h := 0x100 * w + x;
    DivMod(n, 0x100_0000, w, 0x1_0000 * x + 0x100 * y + z);
    DivMod(n, 0x1_0000, h, 0x100 * y + z);
    DivMod(h, 0x100, w, x);
    DivMod(n, 0x100, 0x100 * h + y, z);
    DivMod(0x100 * h + y, 0x100, h, y);
  }

  // ----- HEADERS payloads -----

  /** Pad length and priority in front, padding behind, the fragment between. */
  datatype Parts = Parts(prefix: Bytes, padding: Bytes, block: Bytes)

  function HeaderParts(f: Frame): (r: Option<Parts>)
    ensures r.Some? ==> |r.value.prefix| + |r.value.block| + |r.value.padding| == |f.payload|
  {
    var b := f.payload;
    if f.kind != HEADERS || f.stream % 0x8000_0000 == 0 then None
    else if Padded(f.flags) && b == [] then None
    else
      var pad := if Padded(f.flags) then b[0] else 0;
      var start := (if Padded(f.flags) then 1 else 0) + if Priority(f.flags) then 5 else 0;
      if start + pad > |b| then None
      else Some(Parts(b[..start], b[|b| - pad..], b[start..|b| - pad]))
  }

  lemma PartsMakePayload(f: Frame)
    requires HeaderParts(f).Some?
    ensures var p := HeaderParts(f).value; p.prefix + p.block + p.padding == f.payload
  {
  }

  /** A HEADERS frame with another fragment, its prefix and padding kept, splits the same way. */
  lemma PartsOfRefilled(f: Frame, flags: Byte, block: Bytes)
    requires HeaderParts(f).Some?
    requires Padded(flags) == Padded(f.flags) && Priority(flags) == Priority(f.flags)
    ensures var p := HeaderParts(f).value;
            HeaderParts(Frame(f.kind, flags, f.stream, p.prefix + block + p.padding)) == Some(p.(block := block))
  {
    var p := HeaderParts(f).value;
    var b := p.prefix + block + p.padding;
    if Padded(f.flags) {
      assert b[0] == p.prefix[0] == f.payload[0];
    }
    assert b[..|p.prefix|] == p.prefix;
    assert b[|b| - |p.padding|..] == p.padding;
    assert b[|p.prefix|..|b| - |p.padding|] == block;
  }

  /**
   The payload of a HEADERS frame: with the padded flag one octet counts the padding, with the priority
   flag five octets follow it, then the fragment, then the padding (section 6.2 of RFC 9113).
   */
  ghost predicate Splits(b: Bytes, padded: bool, priority: bool, p: Parts) {
    && b == p.prefix + p.block + p.padding
    && |p.prefix| == (if padded then 1 else 0) + (if priority then 5 else 0)
    && if padded then p.prefix[0] == |p.padding| else p.padding == []
  }

  lemma SplitsIff(f: Frame, p: Parts)
    ensures HeaderParts(f) == Some(p) <==>
              && f.kind == HEADERS && f.stream % 0x8000_0000 != 0
              && Splits(f.payload, Padded(f.flags), Priority(f.flags), p)
  {
    hide Padded, Priority;
    if HeaderParts(f) == Some(p) {
      PartsMakePayload(f);
    } else if Splits(f.payload, Padded(f.flags), Priority(f.flags), p) {
      var b := f.payload;
      assert |p.prefix| > 0 ==> b[0] == p.prefix[0];
      assert b[..|p.prefix|] == p.prefix && b[|b| - |p.padding|..] == p.padding;
      assert b[|p.prefix|..|b| - |p.padding|] == p.block;
    }
  }

  lemma PartsIff(f: Frame, p: Parts)
    ensures HeaderParts(f) == Some(p) <==>
              && f.kind == 1 && f.stream % 0x8000_0000 != 0
              && Splits(f.payload, f.flags / 8 % 2 == 1, f.flags / 32 % 2 == 1, p)
  {
    hide HeaderParts, Splits;
    SplitsIff(f, p);
  }

  // ----- SETTINGS -----

  const TABLE_SIZE: nat := 1
  const FRAME_SIZE: nat := 5

  function Entries(b: Bytes): seq<(nat, nat)>
    requires |b| % 6 == 0
    decreases |b|
  {
    if b == [] then []
    else [(Be16(b[0], b[1]), Be32(b[2], b[3], b[4], b[5]))] + Entries(b[6..])
  }

  /** The (identifier, value) pairs of a SETTINGS frame, none for an acknowledgement. */
  function Settings(f: Frame): Option<seq<(nat, nat)>> {
    if f.kind != SETTINGS || f.stream != 0 then None
    else if f.flags % 2 == 1 then if f.payload == [] then Some([]) else None
    else if |f.payload| % 6 != 0 then None
    else Some(Entries(f.payload))
  }

  predicate FrameSizeOk(value: nat) {
    16384 <= value <= MAX_LENGTH
  }

  predicate SettingsOk(f: Frame) {
    Settings(f).Some? && forall i :: 0 <= i < |Settings(f).value| ==>
      Settings(f).value[i].0 == FRAME_SIZE ==> FrameSizeOk(Settings(f).value[i].1)
  }

  // ----- SETTINGS as they are written -----

  ghost predicate InWords(e: (nat, nat)) {
    e.0 < 0x1_0000 && e.1 < 0x1_0000_0000
  }

  /** Section 6.5.1 of RFC 9113: a 16-bit identifier and a 32-bit value, most significant octet first. */
  function EntryBytes(e: (nat, nat)): (r: Bytes)
    requires InWords(e)
    ensures |r| == 6
  {
    [e.0 / 0x100, e.0 % 0x100, e.1 / 0x100_0000, e.1 / 0x1_0000 % 0x100, e.1 / 0x100 % 0x100, e.1 % 0x100]
  }

  function SettingsBytes(es: seq<(nat, nat)>): (r: Bytes)
    requires forall i :: 0 <= i < |es| ==> InWords(es[i])
    ensures |r| == 6 * |es|
  {
    if es == [] then [] else EntryBytes(es[0]) + SettingsBytes(es[1..])
  }

  lemma EntryValue(e: (nat, nat))
    requires InWords(e)
    ensures var b := EntryBytes(e); Be16(b[0], b[1]) == e.0 && Be32(b[2], b[3], b[4], b[5]) == e.1
  {
    Base256Word(e.1);
    hide Be32;
  }

  lemma EntryRead(e: (nat, nat), rest: Bytes)
    requires InWords(e) && |rest| % 6 == 0
    ensures Entries(EntryBytes(e) + rest) == [e] + Entries(rest)
  {
    hide EntryBytes, InWords, Be16, Be32;
    EntryValue(e);
    var b := EntryBytes(e) + rest;
    assert b[6..] == rest && b[..6] == EntryBytes(e);
  }

  lemma {:induction false} EntriesRead(es: seq<(nat, nat)>)
    requires forall i :: 0 <= i < |es| ==> InWords(es[i])
    ensures Entries(SettingsBytes(es)) == es
  {
    hide EntryBytes, InWords;
    if es == [] {
    } else {
      EntriesRead(es[1..]);
      EntryRead(es[0], SettingsBytes(es[1..]));
    }
  }

  lemma EntryWritten(b: Bytes)
    requires |b| >= 6
    ensures var e := (Be16(b[0], b[1]), Be32(b[2], b[3], b[4], b[5])); InWords(e) && EntryBytes(e) == b[..6]
  {
    Digits4(b[2], b[3], b[4], b[5]);
    DivMod(Be16(b[0], b[1]), 0x100, b[0], b[1]);
  }

  lemma {:induction false} EntriesWritten(b: Bytes)
    requires |b| % 6 == 0
    ensures forall i :: 0 <= i < |Entries(b)| ==> InWords(Entries(b)[i])
    ensures SettingsBytes(Entries(b)) == b
    decreases |b|
  {
    hide EntryBytes, InWords, Be16, Be32;
    if b == [] {
    } else {
      EntryWritten(b);
      EntriesWritten(b[6..]);
      assert b == b[..6] + b[6..];
    }
  }

  /** A frame on stream 0 that acknowledges, with nothing in it, or consists of `es` written out. */
  ghost predicate Says(f: Frame, es: seq<(nat, nat)>) {
    && f.kind == 4 && f.stream == 0
    && if f.flags % 2 == 1 then f.payload == [] && es == []
       else (forall i :: 0 <= i < |es| ==> InWords(es[i])) && f.payload == SettingsBytes(es)
  }

  lemma SettingsIff(f: Frame, es: seq<(nat, nat)>)
    ensures Settings(f) == Some(es) <==> Says(f, es)
  {
    hide InWords, Entries, SettingsBytes;
    if f.flags % 2 == 0 && |f.payload| % 6 == 0 {
      EntriesWritten(f.payload);
    }
    if forall i :: 0 <= i < |es| ==> InWords(es[i]) {
      EntriesRead(es);
      DivMod(6 * |es|, 6, |es|, 0);
    }
  }
}
