/** Octets, options and the few facts about powers of two that the codecs share. */
module Octets {
  type Byte = x: int | 0 <= x < 256
  type Bytes = seq<Byte>

  datatype Option<+T> = None | Some(value: T)

  function Pow2(n: nat): (r: nat)
    ensures r > 0
  {
    if n == 0 then 1 else 2 * Pow2(n - 1)
  }

  /** `x << n`, without a product. */
  function ShiftLeft(x: nat, n: nat): nat {
    if n == 0 then x else 2 * ShiftLeft(x, n - 1)
  }

  lemma {:induction false} ShiftLeftIsProduct(x: nat, n: nat)
    ensures ShiftLeft(x, n) == x * Pow2(n)
  {
    if n > 0 {
      ShiftLeftIsProduct(x, n - 1);
      assert x * Pow2(n) == 2 * (x * Pow2(n - 1));
    }
  }

  lemma {:induction false} Pow2Add(a: nat, b: nat)
    ensures Pow2(a + b) == Pow2(a) * Pow2(b)
  {
    if a > 0 {
      Pow2Add(a - 1, b);
      assert Pow2(a + b) == 2 * Pow2(a - 1 + b);
    }
  }

  lemma {:induction false} Pow2Mono(a: nat, b: nat)
    requires a <= b
    ensures Pow2(a) <= Pow2(b)
  {
    if a < b {
      Pow2Mono(a, b - 1);
    }
  }

  lemma Pow2Seven()
    ensures Pow2(7) == 128
  {
    assert Pow2(3) == 8;
  }

  lemma Pow2Eight()
    ensures Pow2(8) == 256
  {
    Pow2Seven();
  }

  lemma Pow2Large()
    ensures Pow2(35) == 0x8_0000_0000 && Pow2(63) == 0x8000_0000_0000_0000
  {
    Pow2Seven();
    Pow2Add(7, 7);
    Pow2Add(14, 14);
    Pow2Add(28, 7);
    Pow2Add(35, 28);
  }

  /** Quotient and remainder are the only ones there are. */
  lemma DivMod(x: int, m: int, q: int, r: int)
    requires 0 <= r < m && x == m * q + r
    ensures x / m == q && x % m == r
  {
    var k := q - x / m;
    assert m * k == x % m - r by {
      assert m * k == m * q - m * (x / m);
    }
    if k > 0 {
      MulGrows(m, k);
    } else if k < 0 {
      MulGrows(m, -k);
    }
  }

  lemma MulGrows(m: int, k: int)
    requires m > 0 && k > 0
    ensures m * k >= m
    ensures m * -k <= -m
  {
    MulNonNegative(m, k - 1);
    assert m * (k - 1) == m * k - m;
    assert m * -k == -(m * k);
  }

  lemma MulNonNegative(m: int, k: int)
    requires m >= 0 && k >= 0
    ensures m * k >= 0
  {
  }

  lemma DivModBounds(c: nat, m: nat)
    requires m > 0
    ensures c == m * (c / m) + c % m && 0 <= c % m < m && c % m <= c && c / m >= 0
  {
    if c / m < 0 {
      MulGrows(m, -(c / m));
    }
    MulNonNegative(m, c / m);
  }

  lemma DropDrop<T>(s: seq<T>, i: nat, j: nat)
    requires i + j <= |s|
    ensures s[i..][j..] == s[i + j..]
  {
  }

  lemma DropTake<T>(s: seq<T>, i: nat, j: nat)
    requires i + j <= |s|
    ensures s[i..][..j] == s[i..i + j]
  {
  }

  lemma Assoc<T>(a: seq<T>, b: seq<T>, c: seq<T>)
    ensures (a + b) + c == a + (b + c)
  {
  }
}
