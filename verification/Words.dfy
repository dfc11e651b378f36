/** Fixed-width words: moduli, byte views, two's complement and bitwise operations. */
module Words {

  const TWO32: int := 0x1_0000_0000
  const TWO64: int := 0x1_0000_0000_0000_0000

  type u8 = x: int | 0 <= x < 256
  type u32 = x: int | 0 <= x < TWO32
  type u64 = x: int | 0 <= x < TWO64

  /** Cut to 32 bits. */
  function Wrap32(x: int): (r: u32) { x % TWO32 }

  lemma WrapExact(x: int)
    ensures 0 <= x < TWO32 ==> Wrap32(x) == x
  {
  }

  function Min(a: int, b: int): (m: int) { if a < b then a else b }

  function Max(a: int, b: int): (m: int) { if a < b then b else a }

  datatype Option<+T> = None | Some(value: T)

  /** A computation either yields a value or gives up, as the source's Bail exception does. */
  datatype Result<+T> = Ok(value: T) | Bail {
    predicate IsFailure() { Bail? }
    function PropagateFailure<U>(): Result<U>
      requires Bail?
    { Bail }
    function Extract(): T
      requires Ok?
    { value }
  }

  function Pow2(n: nat): (r: nat)
    ensures r > 0
  {
    if n == 0 then 1 else 2 * Pow2(n - 1)
  }

  lemma Pow2Step(k: nat)
    ensures Pow2(k) == if k == 0 then 1 else 2 * Pow2(k - 1)
  {
  }

  lemma {:induction false} Pow2Sum(j: nat, k: nat)
    ensures Pow2(j + k) == Pow2(j) * Pow2(k)
  {
    if j != 0 { Pow2Sum(j - 1, k); }
  }

  lemma {:induction false} Pow2Grows(j: nat, k: nat)
    requires j <= k
    ensures Pow2(j) <= Pow2(k)
  {
    if j < k { Pow2Grows(j, k - 1); }
  }

  lemma Pow2Width()
    ensures Pow2(64) == TWO64 && Pow2(0) == 1 && Pow2(1) == 2
  {
    hide Pow2;
    Pow2Step(0);
    Pow2Step(1);
    Pow2Sum(1, 1);
    Pow2Sum(2, 2);
    Pow2Sum(4, 4);
    Pow2Sum(8, 8);
    Pow2Sum(16, 16);
    Pow2Sum(32, 32);
  }

  /** The word sizes of the machine's arithmetic. */
  datatype Width = W32 | W64 {
    function Bits(): (n: nat) {
      if W32? then 32 else 64
    }
    function Modulus(): (m: int)
      ensures m == TWO32 || m == TWO64
    {
      if W32? then TWO32 else TWO64
    }
  }

  /** Two's complement reading of a word of the given modulus. */
  function ToSigned(modulus: int, v: int): (r: int)
    requires modulus > 0 && modulus % 2 == 0 && 0 <= v < modulus
    ensures -modulus / 2 <= r < modulus / 2
  {
    if v < modulus / 2 then v else v - modulus
  }

  /** Quotient rounded toward zero. */
  function TruncDiv(a: int, b: int): (q: int)
    requires b != 0
  {
    if a >= 0 then a / b else -((-a) / b)
  }

  /** Remainder whose sign is the dividend's. */
  function TruncRem(a: int, b: int): (r: int)
    requires b != 0
  {
    a - b * TruncDiv(a, b)
  }

  /** Division rounds toward zero: the remainder is smaller than the divisor and has the dividend's sign. */
  lemma TruncMeans(a: int, b: int)
    requires b != 0
    ensures a == b * TruncDiv(a, b) + TruncRem(a, b)
    ensures TruncRem(a, b) < b || TruncRem(a, b) < -b
    ensures -b < TruncRem(a, b) || b < TruncRem(a, b)
    ensures (a >= 0 ==> TruncRem(a, b) >= 0) && (a <= 0 ==> TruncRem(a, b) <= 0)
  {
    TruncRemIs(a, b);
    Euclid(a, b);
    Euclid(-a, b);
    hide TruncDiv, TruncRem;
  }

  lemma TruncRemIs(a: int, b: int)
    requires b != 0
    ensures a == b * TruncDiv(a, b) + TruncRem(a, b)
    ensures TruncRem(a, b) == if a >= 0 then a % b else -((-a) % b)
  {
    var q := if a >= 0 then a / b else (-a) / b;
    var r := if a >= 0 then a % b else (-a) % b;
    Euclid(a, b);
    Euclid(-a, b);
    MulNegated(b, q);
    assert TruncRem(a, b) == a - b * TruncDiv(a, b);
  }

  lemma Euclid(a: int, b: int)
    requires b != 0
    ensures a == b * (a / b) + a % b && 0 <= a % b && (a % b < b || a % b < -b)
  {
  }

  lemma MulNegated(b: int, q: int)
    ensures b * -q == -(b * q)
  {
  }

  /** Quotient of naturals. */
  function Quotient(v: nat, p: nat): (q: nat)
    requires p > 0
    ensures q * p <= v < (q + 1) * p && q <= v
  {
    DivBounds(v, p);
    v / p
  }

  lemma DivBounds(v: nat, p: nat)
    requires p > 0
    ensures v / p >= 0 && v / p * p <= v < (v / p + 1) * p && v / p <= v
  {
    var q := v / p;
    assert v == q * p + v % p;
    assert (q + 1) * p == q * p + p;
    NegativeProduct(q, p);
    MulLeq(1, p, q);
  }

  lemma NegativeProduct(q: int, p: nat)
    ensures q < 0 ==> q * p + p <= 0
  {
    if q < 0 {
      MulLeq(q + 1, 0, p);
      assert (q + 1) * p == q * p + p;
    }
  }

  lemma MulLeq(x: int, y: int, c: nat)
    requires x <= y
    ensures x * c <= y * c && c * x <= c * y
  {
  }

  lemma ModOfSmall(x: nat, m: nat)
    requires x < m
    ensures x % m == x
  {
  }

  // ----- bitwise operations, bit by bit -----

  function BitAnd(x: nat, y: nat): (r: nat)
    ensures r <= x && r <= y
  {
    if x == 0 || y == 0 then 0
    else (if x % 2 == 1 && y % 2 == 1 then 1 else 0) + 2 * BitAnd(x / 2, y / 2)
  }

  function BitOr(x: nat, y: nat): (r: nat)
    decreases x + y
  {
    if x == 0 then y else if y == 0 then x
    else (if x % 2 + y % 2 > 0 then 1 else 0) + 2 * BitOr(x / 2, y / 2)
  }

  function BitXor(x: nat, y: nat): (r: nat)
    decreases x + y
  {
    if x == 0 then y else if y == 0 then x
    else (if x % 2 != y % 2 then 1 else 0) + 2 * BitXor(x / 2, y / 2)
  }

  /** Bit k of a number. */
  function BitAt(x: nat, k: nat): (b: nat)
    ensures b < 2
  {
    if k == 0 then x % 2 else BitAt(x / 2, k - 1)
  }

  lemma {:induction false} NoBitSet(k: nat)
    ensures BitAt(0, k) == 0
  {
    if k > 0 { NoBitSet(k - 1); }
  }

  lemma {:induction false} AndBit(x: nat, y: nat, k: nat)
    ensures BitAt(BitAnd(x, y), k) == 1 <==> BitAt(x, k) == 1 && BitAt(y, k) == 1
  {
    if x == 0 || y == 0 {
      NoBitSet(k);
    } else if k > 0 {
      AndBit(x / 2, y / 2, k - 1);
      assert BitAnd(x, y) / 2 == BitAnd(x / 2, y / 2);
    }
  }

  lemma {:induction false} OrBit(x: nat, y: nat, k: nat)
    ensures BitAt(BitOr(x, y), k) == 1 <==> BitAt(x, k) == 1 || BitAt(y, k) == 1
    decreases k
  {
    if x == 0 || y == 0 {
      NoBitSet(k);
    } else if k > 0 {
      OrBit(x / 2, y / 2, k - 1);
      assert BitOr(x, y) / 2 == BitOr(x / 2, y / 2);
    }
  }

  lemma {:induction false} XorBit(x: nat, y: nat, k: nat)
    ensures BitAt(BitXor(x, y), k) == 1 <==> BitAt(x, k) != BitAt(y, k)
    decreases k
  {
    if x == 0 || y == 0 {
      NoBitSet(k);
    } else if k > 0 {
      XorBit(x / 2, y / 2, k - 1);
      assert BitXor(x, y) / 2 == BitXor(x / 2, y / 2);
    }
  }

  /** Bit by bit: and is set where both are, or where either is, exclusive or where they differ. */
  lemma BitwiseMeans(x: nat, y: nat, k: nat)
    ensures BitAt(BitAnd(x, y), k) == 1 <==> BitAt(x, k) == 1 && BitAt(y, k) == 1
    ensures BitAt(BitOr(x, y), k) == 1 <==> BitAt(x, k) == 1 || BitAt(y, k) == 1
    ensures BitAt(BitXor(x, y), k) == 1 <==> BitAt(x, k) != BitAt(y, k)
  {
    AndBit(x, y, k);
    OrBit(x, y, k);
    XorBit(x, y, k);
  }

  /** Masking a shift count with 63 or 31 reduces it modulo the word size. */
  lemma MaskIsMod(x: nat)
    ensures BitAnd(x, 63) == x % 64
    ensures BitAnd(x, 31) == x % 32
  {
    AllOnesIsMod(x, 6);
    AllOnesIsMod(x, 5);
    assert Pow2(5) == 32 && Pow2(6) == 64;
  }

  lemma {:induction false} AllOnesIsMod(x: nat, k: nat)
    ensures BitAnd(x, Pow2(k) - 1) == x % Pow2(k)
  {
    hide BitAnd, Pow2;
    Pow2Step(k);
    if k == 0 {
      AndZero(x);
    } else {
      var m := Pow2(k - 1);
      AllOnesIsMod(x / 2, k - 1);
      AndStep(x, m - 1);
      HalfMod(x, m);
    }
  }

  lemma HalfMod(x: nat, m: nat)
    requires m > 0
    ensures x % (2 * m) == x % 2 + 2 * ((x / 2) % m)
  {
    var q, r := (x / 2) / m, (x / 2) % m;
    assert x / 2 == q * m + r;
    assert x == q * (2 * m) + (2 * r + x % 2) by {
      assert 2 * (q * m) == q * (2 * m);
    }
    ModUnique(x, 2 * m, q, 2 * r + x % 2);
  }

  /** Quotient and remainder are determined by their defining equation. */
  lemma ModUnique(x: int, m: int, q: int, r: int)
    requires m > 0 && 0 <= r < m && x == q * m + r
    ensures x % m == r && x / m == q
  {
    var d := x / m - q;
    assert d * m == r - x % m by {
      assert (x / m) * m == q * m + d * m;
    }
    assert d >= 1 ==> d * m >= m;
    assert d <= -1 ==> d * m <= -m;
  }

  lemma AndZero(x: nat)
    ensures BitAnd(x, 0) == 0 && x % 1 == 0
  {
  }

  lemma AndStep(x: nat, m: nat)
    ensures BitAnd(x, 2 * m + 1) == x % 2 + 2 * BitAnd(x / 2, m)
  {
  }

  // ----- little-endian bytes -----

  function Pow256(k: nat): (r: nat)
    ensures r > 0
  {
    if k == 0 then 1 else 256 * Pow256(k - 1)
  }

  lemma Pow256Values()
    ensures Pow256(1) == 256 && Pow256(2) == 0x1_0000 && Pow256(4) == TWO32 && Pow256(8) == TWO64
  {
    assert Pow256(3) == 256 * Pow256(2);
    assert Pow256(5) == 256 * Pow256(4);
    assert Pow256(6) == 256 * Pow256(5);
    assert Pow256(7) == 256 * Pow256(6);
  }

  /** Byte k of a word, counted from the least significant. */
  function ByteOf(v: nat, k: nat): (b: u8) {
    if k == 0 then v % 256 else ByteOf(v / 256, k - 1)
  }

  /** The n low bytes of a word, least significant first. */
  function LeBytes(v: nat, n: nat): (bs: seq<u8>)
    ensures |bs| == n
    ensures forall k :: 0 <= k < n ==> bs[k] == ByteOf(v, k)
  {
    if n == 0 then [] else [v % 256] + LeBytes(v / 256, n - 1)
  }

  /** The n low bytes of a word, most significant first. */
  function SwapBytes(v: nat, n: nat): (bs: seq<u8>)
    ensures |bs| == n
    ensures forall k :: 0 <= k < n ==> bs[k] == ByteOf(v, n - 1 - k)
  {
    if n == 0 then [] else [ByteOf(v, n - 1)] + SwapBytes(v, n - 1)
  }

  /** The number a little-endian byte string spells. */
  function LeValue(bs: seq<u8>): (v: nat)
    ensures v < Pow256(|bs|)
  {
    if |bs| == 0 then 0 else bs[0] + 256 * LeValue(bs[1..])
  }

  lemma LeStep(bs: seq<u8>)
    requires bs != []
    ensures LeValue(bs) == bs[0] + 256 * LeValue(bs[1..])
  {
  }

  /** Spelling out the bytes of a word and reading them back gives the word. */
  lemma {:induction false} LeRoundTrip(v: nat, n: nat)
    requires v < Pow256(n)
    ensures LeValue(LeBytes(v, n)) == v
  {
    if n != 0 {
      LeRoundTrip(v / 256, n - 1);
      assert LeBytes(v, n)[1..] == LeBytes(v / 256, n - 1);
    }
  }
}
