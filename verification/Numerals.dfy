/** Decimal and hexadecimal numerals as they are written, for those the code reads. */
module Numerals {
  import opened Octets
  import opened Text

  /** The digits `0` to `9` and `a` to `f`. */
  function Digit(d: nat): Byte
    requires d < 16
  {
    if d < 10 then 48 + d else 87 + d
  }

  /** The shortest numeral of `n`, most significant digit first. */
  function Numeral(n: nat, base: nat): (b: Bytes)
    requires base == 10 || base == 16
    ensures b != []
  {
    if n < base then [Digit(n)] else Numeral(n / base, base) + [Digit(n % base)]
  }

  function Zeros(n: nat): (b: Bytes)
    ensures |b| == n
  {
    if n == 0 then [] else [48] + Zeros(n - 1)
  }

  /** `b` is a numeral of `n`, leading zeros and capital letters allowed. */
  ghost predicate Writes(b: Bytes, n: nat, base: nat)
    requires base == 10 || base == 16
  {
    exists z: nat :: Lower(b) == Zeros(z) + Numeral(n, base)
  }

  lemma WritesOne(c: Byte, d: nat, base: nat)
    requires base == 10 || base == 16
    requires d < base && LowerOctet(c) == Digit(d)
    ensures Writes([c], d, base)
  {
    assert Lower([c]) == Zeros(0) + Numeral(d, base);
  }

  lemma {:induction false} ZerosSnoc(n: nat)
    ensures Zeros(n) + [48] == Zeros(n + 1)
  {
    if n > 0 {
      ZerosSnoc(n - 1);
      Assoc([48], Zeros(n - 1), [48]);
    }
  }

  /** One more digit. */
  lemma WritesMore(b: Bytes, n: nat, c: Byte, d: nat, base: nat)
    requires base == 10 || base == 16
    requires Writes(b, n, base) && d < base && LowerOctet(c) == Digit(d)
    ensures Writes(b + [c], base * n + d, base)
  {
    var z: nat :| Lower(b) == Zeros(z) + Numeral(n, base);
    assert Lower(b + [c]) == Lower(b) + [Digit(d)];
    if n == 0 {
      ZerosSnoc(z);
      assert Digit(0) == 48;
      assert Lower(b + [c]) == Zeros(z + 1) + Numeral(d, base);
    } else {
      DivMod(base * n + d, base, n, d);
      hide Digit;
      Assoc(Zeros(z), Numeral(n, base), [Digit(d)]);
      assert Numeral(base * n + d, base) == Numeral(n, base) + [Digit(d)];
      assert Lower(b + [c]) == Zeros(z) + Numeral(base * n + d, base);
    }
  }

  /** All but the last digit, after `z` zeros. */
  function Front(z: nat, n: nat, base: nat): Bytes
    requires base == 10 || base == 16
  {
    if n < base then Zeros(z) else Zeros(z) + Numeral(n / base, base)
  }

  lemma LastDigit(z: nat, n: nat, base: nat)
    requires base == 10 || base == 16
    ensures n == base * (n / base) + n % base && n % base < base
    ensures if n < base then n / base == 0 else 0 < n / base < n
    ensures Zeros(z) + Numeral(n, base) == Front(z, n, base) + [Digit(n % base)]
  {
    hide Digit;
    if n >= base {
      Assoc(Zeros(z), Numeral(n / base, base), [Digit(n % base)]);
    }
  }

  lemma SameLast(a: Bytes, x: Byte, b: Bytes, y: Byte)
    requires a + [x] == b + [y]
    ensures a == b && x == y
  {
    assert (a + [x])[|a|] == (b + [y])[|b|] && (a + [x])[..|a|] == (b + [y])[..|b|];
  }

  /** Zeros and a numeral determine the value. */
  lemma {:induction false} NumeralsUnique(y: nat, m: nat, z: nat, n: nat, base: nat)
    requires base == 10 || base == 16
    requires Zeros(y) + Numeral(m, base) == Zeros(z) + Numeral(n, base)
    ensures m == n
    decreases m + n
  {
    LastDigit(y, m, base);
    LastDigit(z, n, base);
    SameLast(Front(y, m, base), Digit(m % base), Front(z, n, base), Digit(n % base));
    hide Numeral, Zeros;
    if m >= base && n >= base {
      NumeralsUnique(y, m / base, z, n / base, base);
    } else if m < base && n >= base {
      ZerosAre(y);
      NumeralsUnique(y - 1, 0, z, n / base, base);
    } else if n < base && m >= base {
      ZerosAre(z);
      NumeralsUnique(y, m / base, z - 1, 0, base);
    }
  }

  lemma ZerosAre(z: nat)
    ensures z == 0 ==> Zeros(z) == []
    ensures z > 0 ==> Zeros(z) == Zeros(z - 1) + Numeral(0, 10) == Zeros(z - 1) + Numeral(0, 16)
  {
    if z > 0 {
      ZerosSnoc(z - 1);
    }
  }

  /** A numeral has one value. */
  lemma WritesUnique(b: Bytes, m: nat, n: nat, base: nat)
    requires base == 10 || base == 16
    requires Writes(b, m, base) && Writes(b, n, base)
    ensures m == n
  {
    var y: nat :| Lower(b) == Zeros(y) + Numeral(m, base);
    var z: nat :| Lower(b) == Zeros(z) + Numeral(n, base);
    NumeralsUnique(y, m, z, n, base);
  }

  lemma WritesSomething(b: Bytes, n: nat, base: nat)
    requires base == 10 || base == 16
    requires Writes(b, n, base)
    ensures b != [] && forall i :: 0 <= i < |b| ==> IsDigit(LowerOctet(b[i]), base)
  {
    var z: nat :| Lower(b) == Zeros(z) + Numeral(n, base);
    ZerosDigits(z, base);
    NumeralDigits(n, base);
    forall i | 0 <= i < |b| ensures IsDigit(LowerOctet(b[i]), base) {
      assert Lower(b)[i] == LowerOctet(b[i]);
    }
  }

  predicate IsDigit(c: Byte, base: nat) {
    48 <= c <= 57 || (base == 16 && 97 <= c <= 102)
  }

  lemma {:induction false} ZerosDigits(z: nat, base: nat)
    ensures forall i :: 0 <= i < z ==> IsDigit(Zeros(z)[i], base)
  {
    if z > 0 {
      ZerosDigits(z - 1, base);
    }
  }

  lemma {:induction false} NumeralDigits(n: nat, base: nat)
    requires base == 10 || base == 16
    ensures forall i :: 0 <= i < |Numeral(n, base)| ==> IsDigit(Numeral(n, base)[i], base)
    decreases n
  {
    if n >= base {
      NumeralDigits(n / base, base);
    }
  }
}
