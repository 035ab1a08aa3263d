/** Bit strings, most significant bit first, and how machine words hold them. */
module Bits {
  import opened Octets

  type BitString = seq<bool>

  /** The low `w` bits of `v`. */
  function BitsOf(v: nat, w: nat): (r: BitString)
    ensures |r| == w
  {
    if w == 0 then [] else BitsOf(v / 2, w - 1) + [v % 2 == 1]
  }

  function Val(b: BitString): nat {
    if b == [] then 0 else 2 * Val(b[..|b| - 1]) + if b[|b| - 1] then 1 else 0
  }

  function Ones(n: nat): (r: BitString)
    ensures |r| == n && forall i :: 0 <= i < n ==> r[i]
  {
    seq(n, i => true)
  }

  function ShiftRight(x: nat, n: nat): nat {
    if n == 0 then x else ShiftRight(x / 2, n - 1)
  }

  lemma {:induction false} ValBound(b: BitString)
    ensures Val(b) < Pow2(|b|)
  {
    if b != [] {
      ValBound(b[..|b| - 1]);
    }
  }

  lemma {:induction false} BitsOfVal(b: BitString)
    ensures BitsOf(Val(b), |b|) == b
  {
    if b != [] {
      BitsOfVal(b[..|b| - 1]);
    }
  }

  lemma {:induction false} ValBitsOf(v: nat, w: nat)
    requires v < Pow2(w)
    ensures Val(BitsOf(v, w)) == v
  {
    if w > 0 {
      ValBitsOf(v / 2, w - 1);
      assert BitsOf(v, w)[..w - 1] == BitsOf(v / 2, w - 1);
    }
  }

  lemma {:induction false} ValConcat(a: BitString, b: BitString)
    ensures Val(a + b) == ShiftLeft(Val(a), |b|) + Val(b)
  {
    if b == [] {
      assert a + b == a;
    } else {
      var c := b[..|b| - 1];
      ValConcat(a, c);
      assert (a + b)[..|a + b| - 1] == a + c;
    }
  }

  /** Appending `n` bits to a word: shift left and or. */
  lemma {:induction false} BitsOfShift(x: nat, c: nat, m: nat, n: nat)
    requires c < Pow2(n)
    ensures BitsOf(ShiftLeft(x, n) + c, m + n) == BitsOf(x, m) + BitsOf(c, n)
  {
    if n == 0 {
      assert BitsOf(x, m) + [] == BitsOf(x, m);
    } else {
      BitsOfShift(x, c / 2, m, n - 1);
      var y := ShiftLeft(x, n) + c;
      assert y / 2 == ShiftLeft(x, n - 1) + c / 2 && y % 2 == c % 2;
      assert BitsOf(x, m) + (BitsOf(c / 2, n - 1) + [c % 2 == 1])
          == (BitsOf(x, m) + BitsOf(c / 2, n - 1)) + [c % 2 == 1];
    }
  }

  /** Splitting off the high bits of a field: shift right. */
  lemma {:induction false} BitsOfSplit(x: nat, m: nat, n: nat)
    ensures BitsOf(x, m + n) == BitsOf(ShiftRight(x, n), m) + BitsOf(x, n)
  {
    if n == 0 {
      assert BitsOf(x, m) + [] == BitsOf(x, m);
    } else {
      BitsOfSplit(x / 2, m, n - 1);
      var hi, lo := BitsOf(ShiftRight(x, n), m), BitsOf(x / 2, n - 1);
      assert hi + (lo + [x % 2 == 1]) == (hi + lo) + [x % 2 == 1];
    }
  }

  /** A word of `j` bits keeps its low `k` bits. */
  lemma {:induction false} BitsOfMod(x: nat, j: nat, k: nat)
    requires k <= j
    ensures x % Pow2(j) >= 0 && BitsOf(x % Pow2(j), k) == BitsOf(x, k)
  {
    DivModBounds(x, Pow2(j));
    if k > 0 {
      HalfMod(x, Pow2(j - 1));
      BitsOfMod(x / 2, j - 1, k - 1);
    }
  }

  lemma HalfMod(x: nat, p: nat)
    requires p > 0
    ensures x % (2 * p) / 2 == (x / 2) % p && x % (2 * p) % 2 == x % 2
  {
    var h := x / 2;
    DivModBounds(h, p);
    var q, r := h / p, h % p;
    assert 2 * p * q == 2 * (p * q);
    DivMod(x, 2 * p, q, 2 * r + x % 2);
  }

  lemma DoubleMod(y: nat, p: nat)
    requires p > 0
    ensures (2 * y) % (2 * p) == 2 * (y % p)
  {
    DivModBounds(y, p);
    assert 2 * p * (y / p) == 2 * (p * (y / p));
    DivMod(2 * y, 2 * p, y / p, 2 * (y % p));
  }

  /** Truncating a shifted word: what overflows is the top of the operand. */
  lemma {:induction false} ShiftLeftMod(x: nat, j: nat, n: nat)
    ensures x % Pow2(j) >= 0 && ShiftLeft(x, n) % Pow2(j + n) == ShiftLeft(x % Pow2(j), n)
  {
    DivModBounds(x, Pow2(j));
    if n > 0 {
      ShiftLeftMod(x, j, n - 1);
      DoubleMod(ShiftLeft(x, n - 1), Pow2(j + n - 1));
    }
  }

  lemma {:induction false} OnesVal(n: nat)
    ensures BitsOf(Pow2(n) - 1, n) == Ones(n)
    ensures Val(Ones(n)) == Pow2(n) - 1
  {
    if n > 0 {
      OnesVal(n - 1);
      assert Ones(n)[..n - 1] == Ones(n - 1);
      assert (Pow2(n) - 1) / 2 == Pow2(n - 1) - 1;
    }
  }
}
