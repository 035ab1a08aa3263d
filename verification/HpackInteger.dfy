/** Prefixed integers, section 5.1 of RFC 7541 (src/hpack_wire.rs and scripts/order_policy.py). */
module HpackInteger {
  import opened Octets

  /** Prefix widths. */
  type Width = w: int | 1 <= w <= 8 witness 8

  function Span(bits: Width): (m: nat)
    ensures 2 <= m <= 256
  {
    match bits
    case 1 => 2
    case 2 => 4
    case 3 => 8
    case 4 => 16
    case 5 => 32
    case 6 => 64
    case 7 => 128
    case _ => 256
  }

  /** Largest value a prefix of `bits` bits holds, all ones: the mark of a continued integer. */
  function Mask(bits: Width): nat {
    Span(bits) - 1
  }

  /** `c & mask`, the low `bits` bits. */
  function Low(c: Byte, bits: Width): (n: nat)
    ensures n <= Mask(bits) && n <= c
  {
    DivModBounds(c, Span(bits));
    c % Span(bits)
  }

  // ----- Reference: the section 5.1 reading, little-endian groups of seven bits -----

  /** The continuation octets: their value and how many there are, at most `room` of them. */
  function ReadTail(b: Bytes, room: nat): (r: Option<(nat, nat)>)
    ensures r.Some? ==> 1 <= r.value.1 <= |b| && r.value.1 <= room
  {
    if room == 0 || b == [] then None
    else if b[0] < 128 then Some((b[0], 1))
    else match ReadTail(b[1..], room - 1)
      case None => None
      case Some((v, n)) => Some((b[0] - 128 + 128 * v, n + 1))
  }

  /** A whole integer at the front of `b`: its value and its length in octets. */
  function ReadInt(b: Bytes, bits: Width, room: nat): (r: Option<(nat, nat)>)
    ensures r.Some? ==> 1 <= r.value.1 <= |b|
  {
    if b == [] then None
    else
      var n := Low(b[0], bits);
      if n < Mask(bits) then Some((n, 1))
      else match ReadTail(b[1..], room)
        case None => None
        case Some((v, len)) => Some((n + v, len + 1))
  }

  // ----- Reference: the section 5.1 writing -----

  function TailBytes(n: nat): Bytes {
    if n < 128 then [n] else [n % 128 + 128] + TailBytes(n / 128)
  }

  /** `prefix` holds the bits above the integer's prefix and nothing below. */
  ghost predicate PrefixFits(prefix: Byte, bits: Width) {
    Low(prefix, bits) == 0 && prefix + Mask(bits) < 256
  }

  function IntBytes(n: nat, prefix: Byte, bits: Width): (r: Bytes)
    requires PrefixFits(prefix, bits)
    ensures r != [] && prefix <= r[0] <= prefix + Mask(bits)
  {
    if n < Mask(bits) then [prefix + n] else [prefix + Mask(bits)] + TailBytes(n - Mask(bits))
  }

  // ----- The code -----

  /** Continuation octets the bridge accepts: the shift runs over 0, 7, 14, 21 and 28. */
  const ROOM: nat := 5

  method Integer(b: Bytes, p: nat, bits: Width) returns (r: Option<(nat, nat)>)
    requires p <= |b|
    ensures r == IntegerAt(b, p, bits)
  {
    if p >= |b| {
      return None;
    }
    var mask := Mask(bits);
    var n: nat := Low(b[p], bits);
    var q := p + 1;
    assert b[p..][1..] == b[q..];
    if n < mask {
      return Some((n, q));
    }
    var shift := 0;
    ghost var k := 0;
    ghost var whole := IntegerAt(b, p, bits);
    assert whole == Pending(b, q, n, 0, ROOM);
    while true
      invariant shift == 7 * k && k <= ROOM
      invariant p < q <= |b|
      invariant whole == Pending(b, q, n, shift, ROOM - k)
      decreases |b| - q
    {
      if q >= |b| || shift > 28 {
        return None;
      }
      var c := b[q];
      NextGroup(b, q, n, shift, ROOM - k);
      n := n + ShiftLeft(c % 128, shift);
      q := q + 1;
      if c < 128 {
        return Some((n, q));
      }
      shift, k := shift + 7, k + 1;
    }
  }

  /** What `integer` finds at position `p`: the value and the position after it. */
  function IntegerAt(b: Bytes, p: nat, bits: Width): (r: Option<(nat, nat)>)
    requires p <= |b|
    ensures r.Some? ==> p < r.value.1 <= |b|
  {
    match ReadInt(b[p..], bits, ROOM)
    case None => None
    case Some((n, len)) => Some((n, p + len))
  }

  /** The integer once `n` has been read and the groups from `q` on remain, shifted by `shift`. */
  ghost function Pending(b: Bytes, q: nat, n: nat, shift: nat, room: nat): Option<(nat, nat)>
    requires q <= |b|
  {
    match ReadTail(b[q..], room)
    case None => None
    case Some((v, len)) => Some((n + ShiftLeft(v, shift), q + len))
  }

  lemma NextGroup(b: Bytes, q: nat, n: nat, shift: nat, room: nat)
    requires q < |b| && room > 0
    ensures var m := n + ShiftLeft(b[q] % 128, shift);
            Pending(b, q, n, shift, room)
            == if b[q] < 128 then Some((m, q + 1)) else Pending(b, q + 1, m, shift + 7, room - 1)
  {
    assert b[q..][1..] == b[q + 1..];
    var c := b[q];
    if c >= 128 {
      match ReadTail(b[q + 1..], room - 1) {
        case None =>
        case Some((v, len)) =>
          ShiftGroups(c - 128, v, shift);
      }
    }
  }

  lemma {:induction false} ShiftGroups(low: nat, high: nat, shift: nat)
    ensures ShiftLeft(low + 128 * high, shift) == ShiftLeft(low, shift) + ShiftLeft(high, shift + 7)
  {
    if shift > 0 {
      ShiftGroups(low, high, shift - 1);
    } else {
      ShiftLeftIsProduct(high, 7);
      Pow2Seven();
    }
  }

  method PutInt(out: Bytes, value: nat, prefix: Byte, bits: Width) returns (r: Bytes)
    requires PrefixFits(prefix, bits)
    ensures r == out + IntBytes(value, prefix, bits)
  {
    var n := value;
    var max := Mask(bits);
    if n < max {
      return out + [prefix + n];
    }
    ghost var head := [prefix + max];
    r := out + [prefix + max];
    n := n - max;
    ghost var tail := TailBytes(n);
    while n >= 128
      invariant r + TailBytes(n) == out + head + tail
    {
      hide Span, Low;
      ghost var before := r;
      r := r + [n % 128 + 128];
      assert r + TailBytes(n / 128) == before + ([n % 128 + 128] + TailBytes(n / 128));
      n := n / 128;
    }
    r := r + [n];
    assert out + head + tail == out + (head + tail);
  }

  // ----- What the pair promises -----

  lemma {:induction false} TailRoundTrip(n: nat, rest: Bytes, room: nat)
    requires room >= 1
    ensures ReadTail(TailBytes(n) + rest, room) == if n < Pow2(7 * room) then Some((n, |TailBytes(n)|)) else None
    decreases room
  {
    var b := TailBytes(n) + rest;
    Pow2Add(7, 7 * (room - 1));
    Pow2Seven();
    assert Pow2(7 * room) == 128 * Pow2(7 * (room - 1));
    if n < 128 {
    } else {
      assert b[1..] == TailBytes(n / 128) + rest;
      if room == 1 {
        assert Pow2(0) == 1;
      } else {
        TailRoundTrip(n / 128, rest, room - 1);
      }
    }
  }

  /** Reading undoes writing for exactly the values below mask + 2^(7 * room), whatever follows. */
  lemma RoundTrip(n: nat, prefix: Byte, bits: Width, room: nat, rest: Bytes)
    requires PrefixFits(prefix, bits) && room >= 1
    ensures ReadInt(IntBytes(n, prefix, bits) + rest, bits, room)
            == if n < Mask(bits) + Pow2(7 * room) then Some((n, |IntBytes(n, prefix, bits)|)) else None
  {
    hide Low, Span, TailBytes, ReadTail, Pow2;
    var b := IntBytes(n, prefix, bits) + rest;
    PrefixMod(if n < Mask(bits) then n else Mask(bits), prefix, bits);
    if n >= Mask(bits) {
      assert b[1..] == TailBytes(n - Mask(bits)) + rest;
      TailRoundTrip(n - Mask(bits), rest, room);
    }
  }

  /** The bridge reads back exactly the values below the prefix mask and 2^35. */
  lemma BridgeReads(n: nat, prefix: Byte, bits: Width, rest: Bytes)
    requires PrefixFits(prefix, bits)
    ensures ReadInt(IntBytes(n, prefix, bits) + rest, bits, ROOM)
            == if n < Pow2(bits) - 1 + 0x8_0000_0000 then Some((n, |IntBytes(n, prefix, bits)|)) else None
  {
    hide ReadInt, IntBytes;
    MaskIs(bits);
    hide Pow2, Span;
    Pow2Large();
    RoundTrip(n, prefix, bits, ROOM, rest);
  }

  lemma MaskIs(bits: Width)
    ensures Mask(bits) == Pow2(bits) - 1
  {
    assert Pow2(3) == 8 && Pow2(5) == 4 * Pow2(3) && Pow2(7) == 4 * Pow2(5) && Pow2(8) == 2 * Pow2(7);
  }

  lemma PrefixMod(n: nat, prefix: Byte, bits: Width)
    requires PrefixFits(prefix, bits) && n <= Mask(bits)
    ensures Low(prefix + n, bits) == n
  {
    DivModBounds(prefix, Span(bits));
    DivMod(prefix + n, Span(bits), prefix / Span(bits), n);
  }

  /** No encoding of the value is shorter, and the shortest one is unique. */
  lemma {:induction false} TailMinimal(b: Bytes, room: nat)
    requires ReadTail(b, room).Some?
    ensures var (v, len) := ReadTail(b, room).value;
            |TailBytes(v)| <= len && (|TailBytes(v)| == len ==> b[..len] == TailBytes(v))
  {
    if b[0] >= 128 {
      TailMinimal(b[1..], room - 1);
      var (v', len') := ReadTail(b[1..], room - 1).value;
      var v := b[0] - 128 + 128 * v';
      if v >= 128 {
        assert v / 128 == v' && v % 128 == b[0] - 128;
        assert b[..len' + 1] == [b[0]] + b[1..][..len'];
      }
    }
  }

  lemma Minimal(b: Bytes, bits: Width, room: nat)
    requires ReadInt(b, bits, room).Some?
    ensures PrefixFits(b[0] - Low(b[0], bits), bits)
    ensures var (n, len) := ReadInt(b, bits, room).value;
            var shortest := IntBytes(n, b[0] - Low(b[0], bits), bits);
            |shortest| <= len && (|shortest| == len ==> b[..len] == shortest)
  {
    HighBits(b[0], bits);
    var (n, len) := ReadInt(b, bits, room).value;
    if Low(b[0], bits) == Mask(bits) {
      TailMinimal(b[1..], room);
      assert b[..len] == [b[0]] + b[1..][..len - 1];
    } else {
      assert b[..len] == [b[0]];
    }
  }

  lemma HighBits(c: Byte, bits: Width)
    ensures PrefixFits(c - Low(c, bits), bits)
  {
    var m := Span(bits);
    var k := match bits
             case 1 => 128 case 2 => 64 case 3 => 32 case 4 => 16 case 5 => 8 case 6 => 4 case 7 => 2 case _ => 1;
    assert m * k == 256;
    DivModBounds(c, m);
    var q := c / m;
    DivMod(c - Low(c, bits), m, q, 0);
    Below(m, q, k);
  }

  lemma Below(m: nat, q: nat, k: nat)
    requires m > 0 && m * q < m * k
    ensures m * q + m <= m * k
  {
    var d := k - q;
    assert m * d == m * k - m * q;
    if d <= 0 {
      MulNonNegative(m, -d);
      assert false;
    }
    MulGrows(m, d);
  }

  /** The result depends only on the octets it consumed. */
  lemma {:induction false} TailStable(b: Bytes, rest: Bytes, room: nat)
    requires ReadTail(b, room).Some?
    ensures ReadTail(b[..ReadTail(b, room).value.1] + rest, room) == ReadTail(b, room)
  {
    var len := ReadTail(b, room).value.1;
    if b[0] >= 128 {
      TailStable(b[1..], rest, room - 1);
      assert (b[..len] + rest)[1..] == b[1..][..len - 1] + rest;
    }
  }

  lemma Stable(b: Bytes, rest: Bytes, bits: Width, room: nat)
    requires ReadInt(b, bits, room).Some?
    ensures ReadInt(b[..ReadInt(b, bits, room).value.1] + rest, bits, room) == ReadInt(b, bits, room)
  {
    var len := ReadInt(b, bits, room).value.1;
    if Low(b[0], bits) >= Mask(bits) {
      TailStable(b[1..], rest, room);
      assert (b[..len] + rest)[1..] == b[1..][..len - 1] + rest;
    }
  }
}
