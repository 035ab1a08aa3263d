/** Huffman string literals, section 5.2 of RFC 7541, and the packing loop of src/hpack_wire.rs. */
module Huffman {
  import opened Octets
  import opened Bits
  import opened HuffmanTable

  function CodeOf(c: nat): (r: BitString)
    requires c <= EOS
    ensures 5 <= |r| <= 30
  {
    CodeIsCanonical(c);
    NonNegative(Code(c).1);
    BitsOf(Code(c).0, Code(c).1)
  }

  function CodeBits(s: Bytes): BitString {
    if s == [] then [] else CodeOf(s[0]) + CodeBits(s[1..])
  }

  /** Octets of a bit string, the last one filled with 1-bits. */
  function Pack(b: BitString): (r: Bytes)
    decreases |b|
  {
    if b == [] then []
    else if |b| < 8 then
      var c := b + Ones(8 - |b|);
      OctetBound(c);
      [Val(c)]
    else
      OctetBound(b[..8]);
      [Val(b[..8])] + Pack(b[8..])
  }

  function OctetBits(s: Bytes): (r: BitString)
    ensures |r| == 8 * |s|
  {
    if s == [] then [] else BitsOf(s[0], 8) + OctetBits(s[1..])
  }

  lemma OctetBound(c: BitString)
    requires |c| == 8
    ensures Val(c) < 256
  {
    ValBound(c);
    Pow2Eight();
  }

  function Encode(s: Bytes): Bytes {
    Pack(CodeBits(s))
  }

  // ----- Reference decoder -----

  predicate Starts(c: nat, b: BitString)
    requires c <= EOS
  {
    |CodeOf(c)| <= |b| && b[..|CodeOf(c)|] == CodeOf(c)
  }

  /** The first symbol from `from` on whose code starts `b`; the end-of-string symbol is no octet. */
  function SymbolAt(b: BitString, from: nat): (r: Option<Byte>)
    requires from <= 256
    ensures r.Some? ==> from <= r.value && Starts(r.value, b)
    ensures r.None? ==> forall c: Byte :: from <= c ==> !Starts(c, b)
    decreases 256 - from
  {
    if from == 256 then None
    else if Starts(from, b) then Some(from)
    else SymbolAt(b, from + 1)
  }

  /** Section 5.2: codes one after the other, then at most seven 1-bits of padding. */
  function DecodeBits(b: BitString): Option<Bytes>
    decreases |b|
  {
    match SymbolAt(b, 0)
    case Some(c) =>
      CodeIsCanonical(c);
      (match DecodeBits(b[|CodeOf(c)|..])
       case None => None
       case Some(s) => Some([c] + s))
    case None =>
      if |b| < 8 && b == Ones(|b|) then Some([]) else None
  }

  function Decode(s: Bytes): Option<Bytes> {
    DecodeBits(OctetBits(s))
  }

  // ----- The packing loop -----

  const WORD_SPAN: nat := 0x1_0000_0000_0000_0000

  /** Truncation to the 64-bit word that holds `buffer`. */
  function Word(x: nat): nat {
    x % WORD_SPAN
  }

  lemma WordSpan()
    ensures Pow2(64) == WORD_SPAN
  {
    Pow2ThirtyOne();
    Pow2Add(31, 31);
    assert Pow2(64) == 4 * Pow2(62);
  }

  method EncodeLoop(value: Bytes) returns (encoded: Bytes)
    ensures encoded == Encode(value)
  {
    hide Code, CodeOf, BitsOf, ShiftLeft, ShiftRight, Pack, Word;
    encoded := [];
    var buffer: nat, bits: nat := 0, 0;
    var i := 0;
    assert BitsOf(buffer, bits) + CodeBits(value[i..]) == CodeBits(value);
    while i < |value|
      invariant i <= |value|
      invariant bits < 8
      invariant encoded + Pack(BitsOf(buffer, bits) + CodeBits(value[i..])) == Encode(value)
    {
      CodeIsCanonical(value[i]);
      NonNegative(Code(value[i]).1);
      var (code, width) := Code(value[i]);
      ghost var rest := CodeBits(value[i + 1..]);
      AppendCode(buffer, bits, value[i], rest);
      assert value[i..][1..] == value[i + 1..];
      buffer := Word(ShiftLeft(buffer, width)) + code;
      bits := bits + width;
      while bits >= 8
        invariant bits <= 37
        invariant encoded + Pack(BitsOf(buffer, bits) + rest) == Encode(value)
      {
        bits := bits - 8;
        TakeOctet(buffer, bits, rest);
        encoded := encoded + [ShiftRight(buffer, bits) % 256];
      }
      i := i + 1;
    }
    assert BitsOf(buffer, bits) + CodeBits(value[i..]) == BitsOf(buffer, bits);
    PackEmpty();
    if bits != 0 {
      PadOctet(buffer, bits);
      encoded := encoded + [Word(ShiftLeft(buffer, 8 - bits)) % 256 + ShiftRight(255, bits)];
    }
  }

  /** Stale bits above `bits` never matter: the shifted word still ends in the pending bits and the code. */
  lemma AppendCode(buffer: nat, bits: nat, c: Byte, rest: BitString)
    requires bits < 8
    ensures var (code, width) := Code(c);
            && 5 <= width <= 30 && 0 <= code
            && BitsOf(Word(ShiftLeft(buffer, width)) + code, bits + width) + rest
               == BitsOf(buffer, bits) + (CodeOf(c) + rest)
  {
    hide Code;
    FitsWidth(c);
    var (code, width) := Code(c);
    WordSpan();
    AppendBits(buffer, bits, code, width, 64);
  }

  lemma AppendBits(buffer: nat, bits: nat, code: nat, width: nat, word: nat)
    requires bits + width <= word && code < Pow2(width)
    ensures ShiftLeft(buffer, width) % Pow2(word) >= 0
    ensures BitsOf(ShiftLeft(buffer, width) % Pow2(word) + code, bits + width)
            == BitsOf(buffer, bits) + BitsOf(code, width)
  {
    ShiftLeftMod(buffer, word - width, width);
    var kept: nat := buffer % Pow2(word - width);
    assert word - width + width == word;
    BitsOfShift(kept, code, bits, width);
    BitsOfMod(buffer, word - width, bits);
  }

  lemma TakeOctet(buffer: nat, bits: nat, rest: BitString)
    ensures Pack(BitsOf(buffer, bits + 8) + rest)
            == [ShiftRight(buffer, bits) % 256] + Pack(BitsOf(buffer, bits) + rest)
  {
    hide ShiftRight, BitsOf, Pack, Val;
    var hi := ShiftRight(buffer, bits);
    BitsOfSplit(buffer, 8, bits);
    Pow2Eight();
    BitsOfMod(hi, 8, 8);
    ValBitsOf(hi % 256, 8);
    PackStep(BitsOf(hi, 8), BitsOf(buffer, bits) + rest);
    assert BitsOf(hi, 8) + (BitsOf(buffer, bits) + rest) == BitsOf(buffer, bits + 8) + rest;
  }

  lemma PackStep(head: BitString, rest: BitString)
    requires |head| == 8
    ensures Val(head) < 256 && Pack(head + rest) == [Val(head)] + Pack(rest)
  {
    OctetBound(head);
    assert (head + rest)[..8] == head && (head + rest)[8..] == rest;
  }

  lemma PackEmpty()
    ensures Pack([]) == []
  {
  }

  lemma PackShort(b: BitString)
    requires 1 <= |b| < 8
    ensures var c := b + Ones(8 - |b|);
            Val(c) < 256 && Pack(b) == [Val(c)]
  {
    OctetBound(b + Ones(8 - |b|));
  }

  /** `0xff >> bits` fills the low bits that the shift has cleared. */
  lemma PadOctet(buffer: nat, bits: nat)
    requires 1 <= bits < 8
    ensures var last := Word(ShiftLeft(buffer, 8 - bits)) % 256 + ShiftRight(255, bits);
            0 <= last < 256 && Pack(BitsOf(buffer, bits)) == [last]
  {
    hide ShiftRight, ShiftLeft, Word, Pack, Val, BitsOf;
    var n := 8 - bits;
    var fill := ShiftRight(255, bits);
    Fill(bits);
    LowOctet(ShiftLeft(buffer, n));
    Pow2Eight();
    AppendBits(buffer, bits, fill, n, 8);
    OnesVal(n);
    PadBound(buffer, bits, n);
    ValBitsOf(ShiftLeft(buffer, n) % 256 + fill, 8);
    PackShort(BitsOf(buffer, bits));
  }

  lemma PadBound(buffer: nat, bits: nat, n: nat)
    ensures ShiftLeft(buffer, n) % Pow2(bits + n) + Pow2(n) <= Pow2(bits + n)
  {
    ShiftLeftMod(buffer, bits, n);
    var kept: nat := buffer % Pow2(bits);
    DivModBounds(buffer, Pow2(bits));
    ShiftLeftMono(kept, Pow2(bits), n);
    ShiftPow2(bits, n);
  }

  lemma Fill(bits: nat)
    requires 1 <= bits < 8
    ensures ShiftRight(255, bits) == Pow2(8 - bits) - 1
  {
    Pow2Seven();
    assert ShiftRight(255, 1) == 127;
    assert ShiftRight(255, 2) == 63;
    assert ShiftRight(255, 3) == 31;
    assert ShiftRight(255, 4) == 15;
    assert ShiftRight(255, 5) == 7;
    assert ShiftRight(255, 6) == 3;
    assert ShiftRight(255, 7) == 1;
    assert Pow2(1) == 2 && Pow2(2) == 4 && Pow2(3) == 8 && Pow2(4) == 16 && Pow2(5) == 32 && Pow2(6) == 64;
  }

  lemma LowOctet(x: nat)
    ensures Word(x) % 256 == x % 256
  {
    DivModBounds(x, WORD_SPAN);
    AddOctets(x % WORD_SPAN, 0x100_0000_0000_0000 * (x / WORD_SPAN));
  }

  lemma AddOctets(a: nat, k: nat)
    ensures (a + 256 * k) % 256 == a % 256
  {
    DivModBounds(a, 256);
    DivMod(a + 256 * k, 256, a / 256 + k, a % 256);
  }

  // ----- What the pair promises -----

  lemma {:induction false} PackBits(b: BitString)
    ensures var pad := 8 * |Pack(b)| - |b|;
            0 <= pad < 8 && OctetBits(Pack(b)) == b + Ones(pad)
    decreases |b|
  {
    hide Pack, OctetBits, BitsOf, Val;
    if b == [] {
      PackEmpty();
      OctetBitsEmpty();
    } else if |b| < 8 {
      var c := b + Ones(8 - |b|);
      PackShort(b);
      BitsOfVal(c);
      OctetBitsStep(Val(c), []);
      OctetBitsEmpty();
      assert [Val(c)] + [] == [Val(c)] && c + [] == c;
    } else {
      PackStep(b[..8], b[8..]);
      assert b[..8] + b[8..] == b;
      BitsOfVal(b[..8]);
      PackBits(b[8..]);
      OctetBitsStep(Val(b[..8]), Pack(b[8..]));
      var pad := 8 * |Pack(b)| - |b|;
      assert b[..8] + (b[8..] + Ones(pad)) == b + Ones(pad);
    }
  }

  lemma OctetBitsEmpty()
    ensures OctetBits([]) == []
  {
  }

  lemma OctetBitsStep(c: Byte, s: Bytes)
    ensures OctetBits([c] + s) == BitsOf(c, 8) + OctetBits(s)
  {
  }

  /** Two codes that start the same bits are one code. */
  lemma OneSymbol(a: nat, c: nat, b: BitString)
    requires a <= EOS && c <= EOS && Starts(a, b) && Starts(c, b)
    ensures a == c
  {
    hide Code, SymbolOf, SymbolAt;
    FitsWidth(a);
    FitsWidth(c);
    if |CodeOf(a)| <= |CodeOf(c)| {
      NestedSymbols(a, c, b);
    } else {
      NestedSymbols(c, a, b);
    }
  }

  lemma NestedSymbols(a: nat, c: nat, b: BitString)
    requires a <= EOS && c <= EOS && Starts(a, b) && Starts(c, b) && |CodeOf(a)| <= |CodeOf(c)|
    ensures a == c
  {
    hide Code, SymbolOf, SymbolAt;
    FitsWidth(a);
    FitsWidth(c);
    var tail := b[|CodeOf(a)|..|CodeOf(c)|];
    assert CodeOf(c) == CodeOf(a) + tail;
    ValConcat(CodeOf(a), tail);
    ValBitsOf(Code(a).0, Code(a).1);
    ValBitsOf(Code(c).0, Code(c).1);
    ValBound(tail);
    PrefixFree(a, c, Val(tail));
  }

  /** No octet's code starts a padding of 1-bits: short codes stop below all ones. */
  lemma NoSymbolInPadding(n: nat)
    requires n < 8
    ensures SymbolAt(Ones(n), 0).None?
  {
    hide Code, SymbolOf, SymbolAt;
    match SymbolAt(Ones(n), 0) {
      case None =>
      case Some(c) =>
        CodeIsCanonical(c);
        FitsWidth(c);
        var w := Code(c).1;
        assert CodeOf(c) == Ones(w);
        OnesVal(w);
        ValBitsOf(Code(c).0, w);
        assert Pow2(5) == 32;
        assert Pow2(6) == 64;
        Pow2Seven();
        assert false;
    }
  }

  lemma DecodeStep(c: Byte, rest: BitString)
    ensures DecodeBits(CodeOf(c) + rest)
            == match DecodeBits(rest) case None => None case Some(s) => Some([c] + s)
  {
    hide Code, SymbolOf, SymbolAt, CodeOf;
    var b := CodeOf(c) + rest;
    assert b[..|CodeOf(c)|] == CodeOf(c) && b[|CodeOf(c)|..] == rest;
    assert Starts(c, b);
    OneSymbol(c, SymbolAt(b, 0).value, b);
  }

  /** The reference decoder recovers every octet string from its codes and any legal padding. */
  lemma {:induction false} DecodeCodes(s: Bytes, pad: nat)
    requires pad < 8
    ensures DecodeBits(CodeBits(s) + Ones(pad)) == Some(s)
  {
    hide CodeOf, SymbolAt;
    if s == [] {
      assert CodeBits(s) + Ones(pad) == Ones(pad);
      NoSymbolInPadding(pad);
    } else {
      hide DecodeBits;
      assert CodeBits(s) + Ones(pad) == CodeOf(s[0]) + (CodeBits(s[1..]) + Ones(pad));
      DecodeStep(s[0], CodeBits(s[1..]) + Ones(pad));
      DecodeCodes(s[1..], pad);
      assert [s[0]] + s[1..] == s;
    }
  }

  lemma RoundTrip(s: Bytes)
    ensures Decode(Encode(s)) == Some(s)
  {
    PackBits(CodeBits(s));
    DecodeCodes(s, 8 * |Encode(s)| - |CodeBits(s)|);
  }

  /** Whatever the decoder accepts is the codes of its result and legal padding. */
  lemma {:induction false} DecodedBits(b: BitString)
    requires DecodeBits(b).Some?
    ensures var s := DecodeBits(b).value;
            var pad := |b| - |CodeBits(s)|;
            0 <= pad < 8 && b == CodeBits(s) + Ones(pad)
    decreases |b|
  {
    hide Code, SymbolOf, SymbolAt, CodeOf;
    match SymbolAt(b, 0) {
      case None =>
      case Some(c) =>
        CodeIsCanonical(c);
        var n := |CodeOf(c)|;
        DecodedBits(b[n..]);
        var s := DecodeBits(b[n..]).value;
        var pad := |b[n..]| - |CodeBits(s)|;
        CodeBitsStep(c, s);
        assert b == b[..n] + b[n..];
        assert CodeOf(c) + (CodeBits(s) + Ones(pad)) == (CodeOf(c) + CodeBits(s)) + Ones(pad);
    }
  }

  lemma CodeBitsStep(c: Byte, s: Bytes)
    ensures CodeBits([c] + s) == CodeOf(c) + CodeBits(s)
  {
    hide Code;
  }

  lemma {:induction false} OctetBitsInjective(s: Bytes, t: Bytes)
    requires OctetBits(s) == OctetBits(t)
    ensures s == t
  {
    if s != [] {
      Pow2Eight();
      assert OctetBits(s)[..8] == BitsOf(s[0], 8) && OctetBits(t)[..8] == BitsOf(t[0], 8);
      ValBitsOf(s[0], 8);
      ValBitsOf(t[0], 8);
      assert OctetBits(s)[8..] == OctetBits(s[1..]) && OctetBits(t)[8..] == OctetBits(t[1..]);
      OctetBitsInjective(s[1..], t[1..]);
    }
  }

  /** A string has one Huffman form, so encoding undoes decoding too. */
  lemma Unique(t: Bytes)
    requires Decode(t).Some?
    ensures Encode(Decode(t).value) == t
  {
    hide Code, SymbolOf, SymbolAt;
    var s := Decode(t).value;
    DecodedBits(OctetBits(t));
    PackBits(CodeBits(s));
    var pad, pad' := |OctetBits(t)| - |CodeBits(s)|, 8 * |Encode(s)| - |CodeBits(s)|;
    assert pad == pad';
    OctetBitsInjective(Encode(s), t);
  }

  lemma {:induction false} CodeBitsBound(s: Bytes)
    ensures |CodeBits(s)| <= 30 * |s|
  {
    hide Code, SymbolOf, SymbolAt;
    if s != [] {
      CodeIsCanonical(s[0]);
      CodeBitsBound(s[1..]);
    }
  }

  lemma EncodeBound(s: Bytes)
    ensures |Encode(s)| <= 4 * |s|
  {
    CodeBitsBound(s);
    PackBits(CodeBits(s));
  }
}
