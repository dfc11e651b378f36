/** The integer cube root of the CUBIC congestion control: a bit length, a table guess and one Newton
    step, and how close the result is to the real root for every 64-bit argument. */
module CubicRoot {
  import opened Words

  /** Scaled roots of 0 to 63, as the program tabulates them. */
  function V(i: nat): (v: nat)
    requires i < 64
  {
    match i
    case 0 => 0 case 1 => 54 case 2 => 54 case 3 => 54 case 4 => 118 case 5 => 118
    case 6 => 118 case 7 => 118 case 8 => 123 case 9 => 129 case 10 => 134 case 11 => 138
    case 12 => 143 case 13 => 147 case 14 => 151 case 15 => 156 case 16 => 157 case 17 => 161
    case 18 => 164 case 19 => 168 case 20 => 170 case 21 => 173 case 22 => 176 case 23 => 179
    case 24 => 181 case 25 => 185 case 26 => 187 case 27 => 190 case 28 => 192 case 29 => 194
    case 30 => 197 case 31 => 199 case 32 => 200 case 33 => 202 case 34 => 204 case 35 => 206
    case 36 => 209 case 37 => 211 case 38 => 213 case 39 => 215 case 40 => 217 case 41 => 219
    case 42 => 221 case 43 => 222 case 44 => 224 case 45 => 225 case 46 => 227 case 47 => 229
    case 48 => 231 case 49 => 232 case 50 => 234 case 51 => 236 case 52 => 237 case 53 => 239
    case 54 => 240 case 55 => 242 case 56 => 244 case 57 => 245 case 58 => 246 case 59 => 248
    case 60 => 250 case 61 => 251 case 62 => 252 case 63 => 254
  }

  // ----- bit length -----

  /** All bits from k up, as shifting the complement of zero gives them. */
  function HighMask(k: nat): (m: nat)
    requires k <= 64
  {
    Pow2Width();
    Pow2Grows(k, 64);
    TWO64 - Pow2(k)
  }

  /** Left shift of a 64-bit word. */
  function Shl(x: nat, w: nat): (r: nat)
    ensures r < TWO64
  {
    x * Pow2(w) % TWO64
  }

  /** No bit at or above k is set exactly when the word is below 2^k. */
  lemma {:induction false} HighBitsClear(x: nat, k: nat, n: nat)
    requires k <= n && x < Pow2(n)
    ensures Pow2(k) <= Pow2(n) && (BitAnd(x, Pow2(n) - Pow2(k)) == 0 <==> x < Pow2(k))
    decreases k
  {
    hide BitAnd, Pow2;
    Pow2Grows(k, n);
    if k == 0 {
      Pow2Step(0);
      assert BitAnd(x, Pow2(n) - 1) == x by {
        AllOnesIsMod(x, n);
        ModOfSmall(x, Pow2(n));
      }
    } else {
      var p, q := Pow2(k - 1), Pow2(n - 1);
      Pow2Step(k);
      Pow2Step(n);
      HalfBelow(x, p);
      HalfBelow(x, q);
      HighBitsClear(x / 2, k - 1, n - 1);
      EvenMask(x, q - p);
    }
  }

  lemma HalfBelow(x: nat, p: nat)
    ensures x / 2 < p <==> x < 2 * p
  {
  }

  lemma EvenMask(x: nat, m: nat)
    ensures BitAnd(x, 2 * m) == 2 * BitAnd(x / 2, m)
  {
    assert 2 * m % 2 == 0 && 2 * m / 2 == m;
  }

  lemma MulBetween(lo: nat, x: nat, hi: nat, p: nat)
    requires lo <= x < hi && p > 0
    ensures lo * p <= x * p < hi * p
  {
  }

  lemma ShiftStep(x0: nat, num: nat, x: nat, w: nat)
    requires w <= 32 && w <= num <= 63 && x == x0 * Pow2(63 - num)
    requires Pow2(64 - 2 * w) <= x < Pow2(64 - w)
    ensures x * Pow2(w) == x0 * Pow2(63 - (num - w)) && Pow2(64 - w) <= x * Pow2(w) < Pow2(64)
  {
    hide Pow2;
    Pow2Sum(63 - num, w);
    Pow2Sum(64 - 2 * w, w);
    Pow2Sum(64 - w, w);
    MulBetween(Pow2(64 - 2 * w), x, Pow2(64 - w), Pow2(w));
  }

  lemma TopBit(x0: nat, num: nat, x: nat)
    requires num <= 63 && x == x0 * Pow2(63 - num) && Pow2(63) <= x < Pow2(64)
    ensures Pow2(num) <= x0 < Pow2(num + 1)
  {
    hide Pow2;
    var p := Pow2(63 - num);
    Pow2Sum(num, 63 - num);
    Pow2Sum(num + 1, 63 - num);
    Cancel(Pow2(num), x0, p);
    Cancel(x0 + 1, Pow2(num + 1), p);
  }

  lemma Cancel(x: nat, y: nat, p: nat)
    requires p > 0 && x * p < (y + 1) * p
    ensures x <= y
  {
  }

  /** The argument, shifted left by 63 - num, has a bit set among its top 2w. */
  ghost predicate Placed(a: nat, num: int, x: nat, w: nat) {
    2 * w - 1 <= num <= 63 && w <= 32 && x == a * Pow2(63 - num) && Pow2(64 - 2 * w) <= x < TWO64
  }

  lemma HalfStep(a: nat, num: int, x: nat, w: nat)
    requires Placed(a, num, x, w) && w % 2 == 0
    ensures num >= w
    ensures if BitAnd(x, HighMask(64 - w)) == 0 then Placed(a, num - w, Shl(x, w), w / 2)
            else Placed(a, num, x, w / 2)
  {
    hide BitAnd, Pow2;
    Pow2Width();
    HighBitsClear(x, 64 - w, 64);
    if x < Pow2(64 - w) {
      ShiftStep(a, num, x, w);
      assert Shl(x, w) == x * Pow2(w);
    }
  }

  lemma LastStep(a: nat, num: int, x: nat)
    requires Placed(a, num, x, 1)
    ensures var top := if BitAnd(x, HighMask(63)) == 0 then num - 1 else num;
            0 <= top <= 63 && Pow2(top) <= a < Pow2(top + 1)
  {
    hide BitAnd, Pow2;
    Pow2Width();
    HighBitsClear(x, 63, 64);
    if x < Pow2(63) {
      ShiftStep(a, num, x, 1);
      TopBit(a, num - 1, x * Pow2(1));
    } else {
      TopBit(a, num, x);
    }
  }

  lemma FirstPlace(a: u64)
    requires a > 0
    ensures Placed(a, 63, a, 32)
  {
    hide Pow2;
    Pow2Width();
  }

  /** Number of significant bits, by halving steps. */
  method Fls64(a: u64) returns (n: u32)
    ensures n <= 64 && (n == 0 <==> a == 0)
    ensures a != 0 ==> Pow2(n - 1) <= a < Pow2(n)
  {
    hide Pow2, BitAnd, HighMask, Placed, Shl;
    if a == 0 { return 0; }
    var num, x: nat := 63, a;
    FirstPlace(a);
    HalfStep(a, num, x, 32);
    if BitAnd(x, HighMask(32)) == 0 {
      num := num - 32;
      x := Shl(x, 32);
    }
    HalfStep(a, num, x, 16);
    if BitAnd(x, HighMask(48)) == 0 {
      num := num - 16;
      x := Shl(x, 16);
    }
    HalfStep(a, num, x, 8);
    if BitAnd(x, HighMask(56)) == 0 {
      num := num - 8;
      x := Shl(x, 8);
    }
    HalfStep(a, num, x, 4);
    if BitAnd(x, HighMask(60)) == 0 {
      num := num - 4;
      x := Shl(x, 4);
    }
    HalfStep(a, num, x, 2);
    if BitAnd(x, HighMask(62)) == 0 {
      num := num - 2;
      x := Shl(x, 2);
    }
    LastStep(a, num, x);
    if BitAnd(x, HighMask(63)) == 0 {
      num := num - 1;
    }
    n := num + 1;
  }

  // ----- the guess -----

  function Square(n: nat): (s: nat) {
    if n == 0 then 0 else Square(n - 1) + 2 * n - 1
  }

  /** The cube, by its differences. */
  function Cube(y: int): (c: int)
    decreases if y < 0 then 1 - 2 * y else 2 * y
  {
    if y < 0 then -Cube(-y) else if y == 0 then 0 else Cube(y - 1) + 3 * Square(y) - 3 * y + 1
  }

  lemma {:induction false} SquareIs(n: nat)
    ensures Square(n) == n * n
  {
    if n > 0 { SquareIs(n - 1); }
  }

  lemma {:induction false} CubeIs(y: int)
    ensures Cube(y) == y * y * y
    decreases if y < 0 then 1 - 2 * y else 2 * y
  {
    hide Square;
    if y < 0 {
      CubeIs(-y);
      assert -y * -y * -y == -(y * y * y);
    } else if y > 0 {
      CubeIs(y - 1);
      SquareIs(y);
      assert (y - 1) * (y - 1) * (y - 1) == y * y * y - 3 * (y * y) + 3 * y - 1;
    }
  }

  /** The cubes of 341, 1023, 1024 and 1026. */
  const C341: int := 39651821
  const C1023: int := 1070599167
  const C1024: int := 0x4000_0000
  const C1026: int := 1080045576

  lemma CubeScaled(m: int, c: int, d: int)
    requires c == m * m * m
    ensures Cube(m * d) == c * Cube(d)
  {
    hide Cube;
    CubeProduct(m, d);
    CubeIs(m);
  }

  /** The tabulated root of s, scaled by 64 and rounded up a little, is close to the real one:
      55/64 of its cube is at most s, and 65/64 of its cube is at least s + 1. */
  predicate RowOk(s: nat)
    requires s < 64
  {
    var t := V(s) + 10;
    133 <= t <= 264 && (s < 16 ==> t <= 166) && 55 * (t * t * t) <= 0x100_0000 * s
      && 0x100_0000 * (s + 1) <= 65 * (t * t * t)
  }

  lemma RowsOk(s: nat)
    requires 8 <= s < 64
    ensures RowOk(s)
  {
    if s < 36 { LowRowsOk(s); } else { HighRowsOk(s); }
  }

  lemma LowRowsOk(s: nat)
    requires 8 <= s < 36
    ensures RowOk(s)
  {
  }

  lemma HighRowsOk(s: nat)
    requires 36 <= s < 64
    ensures RowOk(s)
  {
  }

  lemma CubeProduct(x: int, y: int)
    ensures Cube(x * y) == Cube(x) * Cube(y)
  {
    hide Cube;
    CubeIs(x);
    CubeIs(y);
    CubeIs(x * y);
    assert x * y * (x * y) == x * x * (y * y);
    assert x * x * (y * y) * (x * y) == x * x * x * (y * y * y);
  }

  lemma CubeGrows(x: int, y: int)
    requires 0 <= x <= y
    ensures Cube(x) <= Cube(y)
  {
    hide Cube;
    CubeIs(x);
    CubeIs(y);
    assert x * x <= y * y;
    assert x * x * x <= y * y * x;
    assert y * y * x <= y * y * y;
  }

  /** The guess x brackets the argument: 55/64 x^3 <= a < 65/64 (x + 1)^3. */
  ghost predicate Bracketed(a: nat, x: nat) {
    x >= 4 && 55 * Cube(x) <= 64 * a && 64 * a <= 65 * Cube(x + 1)
  }

  /** d is 2^b; the guess is the scaled table entry, rounded down. */
  lemma GuessBrackets(a: nat, s: nat, d: nat, x: nat)
    requires 8 <= s < 64 && d >= 2 && s * Cube(d) <= a < (s + 1) * Cube(d)
    requires x == (V(s) + 10) * d / 64
    ensures Bracketed(a, x)
  {
    hide V, Cube, Bracketed;
    RowsOk(s);
    ScaledBrackets(a, s, V(s) + 10, d, x);
  }

  lemma ScaledBrackets(a: nat, s: nat, t: nat, d: nat, x: nat)
    requires d >= 2 && s * Cube(d) <= a < (s + 1) * Cube(d) && x == t * d / 64
    requires t >= 133 && 55 * (t * t * t) <= 0x100_0000 * s && 0x100_0000 * (s + 1) <= 65 * (t * t * t)
    ensures Bracketed(a, x)
  {
    hide Cube;
    var td := t * d;
    assert td >= 266 by { MulLeq(2, d, t); }
    CubeGrows(64 * x, td);
    CubeGrows(td, 64 * (x + 1));
    CubeScaled(64, 0x40000, x);
    CubeScaled(64, 0x40000, x + 1);
    CubeScaled(t, t * t * t, d);
    CubePositive(d);
    LowScaled(s, t * t * t, Cube(d), a, Cube(x));
    HighScaled(s, t * t * t, Cube(d), a, Cube(x + 1));
  }

  /** Constant factors move through a scaling. */
  lemma Scaled(k: nat, p: int, l: nat, q: int, c: nat)
    requires k * p <= l * q
    ensures k * (p * c) <= l * (q * c)
  {
    assert k * p * c <= l * q * c;
    assert k * (p * c) == k * p * c && l * (q * c) == l * q * c;
  }

  lemma LowScaled(s: nat, t3: int, c: nat, a: nat, x3: int)
    requires 55 * t3 <= 0x100_0000 * s && s * c <= a && 0x40000 * x3 <= t3 * c
    ensures 55 * x3 <= 64 * a
  {
    Scaled(55, t3, 0x100_0000, s, c);
  }

  lemma HighScaled(s: nat, t3: int, c: nat, a: nat, x3: int)
    requires 0x100_0000 * (s + 1) <= 65 * t3 && a <= (s + 1) * c && t3 * c <= 0x40000 * x3
    ensures 64 * a <= 65 * x3
  {
    Scaled(0x100_0000, s + 1, 65, t3, c);
  }

  // ----- the Newton step -----

  /** A cube lies below its chord. */
  lemma Chord(u0: nat, u: nat, u1: nat)
    requires u0 <= u <= u1
    ensures Cube(u) <= Cube(u0) + (u - u0) * (u0 * u0 + u0 * u1 + u1 * u1)
    ensures Cube(u1) == Cube(u0) + (u1 - u0) * (u0 * u0 + u0 * u1 + u1 * u1)
  {
    hide Cube;
    CubeIs(u0);
    CubeIs(u);
    CubeIs(u1);
    ChordGap(u0, u, u1);
    ChordGap(u0, u1, u1);
  }

  lemma ChordGap(u0: nat, u: nat, u1: nat)
    requires u0 <= u <= u1
    ensures u0 * u0 * u0 + (u - u0) * (u0 * u0 + u0 * u1 + u1 * u1) - u * u * u == (u - u0) * (u1 - u) * (u + u0 + u1)
    ensures (u - u0) * (u1 - u) * (u + u0 + u1) >= 0
  {
    ChordIdentity(u0, u, u1);
    MulLeq(0, u - u0, u1 - u);
    MulLeq(0, (u - u0) * (u1 - u), u + u0 + u1);
  }

  lemma ChordIdentity(u0: int, u: int, u1: int)
    ensures u0 * u0 * u0 + (u - u0) * (u0 * u0 + u0 * u1 + u1 * u1) - u * u * u == (u - u0) * (u1 - u) * (u + u0 + u1)
  {
  }

  /** A line above a cube at both ends is above it in between. */
  lemma LineAbove(k: nat, n: nat, g: nat, z0: nat, z: nat, z1: nat)
    requires z0 <= z <= z1
    requires Cube(n * z0 + k) <= g * z0 && Cube(n * z1 + k) <= g * z1
    ensures Cube(n * z + k) <= g * z
  {
    hide Cube;
    var u0, u, u1 := n * z0 + k, n * z + k, n * z1 + k;
    MulLeq(z0, z, n);
    MulLeq(z, z1, n);
    Chord(u0, u, u1);
    var m := u0 * u0 + u0 * u1 + u1 * u1;
    SlopeOf(n, z0, z, k, m);
    SlopeOf(n, z0, z1, k, m);
    LineBetween(Cube(u0), n * m, g, z0, z, z1);
  }

  lemma SlopeOf(n: int, z0: int, z: int, k: int, m: int)
    ensures ((n * z + k) - (n * z0 + k)) * m == n * m * (z - z0)
  {
    assert (n * z + k) - (n * z0 + k) == n * (z - z0);
  }

  lemma LineBetween(c: int, e: int, g: int, z0: int, z: int, z1: int)
    requires z0 <= z <= z1 && c <= g * z0 && c + e * (z1 - z0) <= g * z1
    ensures c + e * (z - z0) <= g * z
  {
    assert e <= g ==> (g - e) * (z - z0) >= 0;
    assert e > g ==> (e - g) * (z1 - z) >= 0;
  }

  function Denominator(x: nat): (d: int) { x * (x - 1) }

  lemma OffsetNonneg(x: nat)
    requires x >= 4
    ensures 64 * Denominator(x) * (682 * x - 1365) >= 0
  {
    DenominatorPositive(x);
    hide Denominator;
    MulLeq(0, 64 * Denominator(x), 682 * x - 1365);
  }

  function Offset(x: nat): (k: nat)
    requires x >= 4
  {
    OffsetNonneg(x);
    64 * Denominator(x) * (682 * x - 1365)
  }

  /** The step's numerator 341 (2 x d + a) - 1365 d, scaled by 64; z is 64 a and d the denominator. */
  function Numerator(x: nat, z: int): (u: int)
    requires x >= 4
  {
    341 * z + Offset(x)
  }

  /** Everything in terms of x, its square and its cube. */
  lemma Monomials(x: nat)
    requires x >= 4
    ensures var y, p := x * x, x * x * x;
            && Cube(x) == p && Cube(x + 1) == p + 3 * y + 3 * x + 1
            && Denominator(x) == y - x && x * Denominator(x) == p - y && (x + 1) * Denominator(x) == p - x
            && p >= 4 * y && y >= 4 * x
  {
    hide Cube;
    CubeIs(x);
    CubeIs(x + 1);
    MulLeq(4, x, x);
    MulLeq(4, x, x * x);
    NextCube(x);
  }

  lemma NextCube(x: int)
    ensures (x + 1) * (x + 1) * (x + 1) == x * x * x + 3 * (x * x) + 3 * x + 1
    ensures x * (x * (x - 1)) == x * x * x - x * x && (x + 1) * (x * (x - 1)) == x * x * x - x
  {
  }

  lemma LowEnd(x: nat)
    requires x >= 4
    ensures Numerator(x, 55 * Cube(x)) <= 62429 * (x * Denominator(x))
  {
    hide Cube, Denominator, Offset;
    Monomials(x);
    OffsetIs(x);
    Reassociate(x, Denominator(x));
  }

  lemma HighEnd(x: nat)
    requires x >= 4
    ensures Numerator(x, 65 * Cube(x + 1)) <= 66004 * ((x + 1) * Denominator(x))
  {
    hide Cube, Denominator, Offset;
    Monomials(x);
    OffsetIs(x);
    Reassociate(x, Denominator(x));
  }

  lemma Reassociate(x: int, d: int)
    ensures 2 * x * d == 2 * (x * d)
  {
  }

  /** At an end z = k v^3: a numerator below c v d stays below m d times the root of g z. */
  lemma EndBelow(u: nat, c: nat, c3: nat, v: nat, d: nat, k: nat, m: nat, m3: nat, g: nat)
    requires u <= c * (v * d) && c3 == c * c * c && m3 == m * m * m && c3 <= g * k * m3
    ensures Cube(u) <= g * Cube(m * d) * (k * Cube(v))
  {
    hide Cube;
    CubeGrows(u, c * (v * d));
    CubeScaled(c, c3, v * d);
    CubeProduct(v, d);
    CubeScaled(m, m3, d);
    CubePositive(v * d);
    MulLeq(c3, g * k * m3, Cube(v * d));
    Regroup(k, m3, Cube(v), Cube(d), g);
  }

  lemma Regroup(k: int, m: int, v: int, d: int, g: int)
    ensures g * k * m * (v * d) == g * (m * d) * (k * v)
  {
    assert g * k * m * (v * d) == g * (k * m * (v * d));
    assert k * m * (v * d) == m * d * (k * v);
  }

  lemma CubePositive(v: nat)
    ensures Cube(v) >= 0 && (v > 0 ==> Cube(v) > 0)
  {
    hide Cube;
    CubeIs(v);
    assert v > 0 ==> v * v > 0;
  }

  /** The step's numerator stays below 1026 d times the real root of a. */
  lemma NumeratorBelow(a: nat, x: nat)
    requires Bracketed(a, x)
    ensures Cube(Numerator(x, 64 * a)) <= 4096 * Cube(1026 * Denominator(x)) * (64 * a)
  {
    hide Cube, Offset, Denominator;
    var d := Denominator(x);
    assert d > 0 by { DenominatorPositive(x); }
    CubePositive(x);
    CubePositive(x + 1);
    CubePositive(1026 * d);
    var g: nat := 4096 * Cube(1026 * d);
    LowEnd(x);
    HighEnd(x);
    EndBelow(Numerator(x, 55 * Cube(x)), 62429, 243309538579589, x, d, 55, 1026, C1026, 4096);
    EndBelow(Numerator(x, 65 * Cube(x + 1)), 66004, 287548275168064, x + 1, d, 65, 1026, C1026, 4096);
    LineAbove(Offset(x), 341, g, 55 * Cube(x), 64 * a, 65 * Cube(x + 1));
  }

  lemma DenominatorPositive(x: nat)
    requires x >= 2
    ensures Denominator(x) > 0
  {
  }

  /** The numerator before scaling. */
  function Lifted(a: nat, x: nat): (y: int) {
    341 * (2 * x * Denominator(x) + a) - 1365 * Denominator(x)
  }

  lemma NumeratorIs(a: nat, x: nat)
    requires x >= 4
    ensures Numerator(x, 64 * a) == 64 * Lifted(a, x)
  {
    OffsetIs(x);
    hide Denominator, Offset;
  }

  lemma LiftedBelow(a: nat, x: nat)
    requires Bracketed(a, x)
    ensures Cube(Lifted(a, x)) <= C1026 * a * Cube(Denominator(x))
  {
    hide Cube, Lifted, Numerator, Denominator;
    var d, y := Denominator(x), Lifted(a, x);
    NumeratorBelow(a, x);
    NumeratorIs(a, x);
    CubeScaled(64, 0x40000, y);
    CubeScaled(1026, C1026, d);
    Unscale(Cube(y), C1026, Cube(d), a);
  }

  lemma Unscale(y3: int, m3: int, d3: int, a: nat)
    requires 0x40000 * y3 <= 4096 * (m3 * d3) * (64 * a)
    ensures y3 <= m3 * a * d3
  {
    assert 4096 * (m3 * d3) * (64 * a) == 0x40000 * (m3 * d3 * a);
    assert m3 * d3 * a == m3 * a * d3;
  }

  lemma NewtonUpper(a: nat, x: nat, r: nat)
    requires Bracketed(a, x) && 1024 * r * Denominator(x) <= 341 * (2 * x * Denominator(x) + a)
    ensures Cube(1024 * r - 1365) <= C1026 * a
  {
    hide Cube;
    var d, w := Denominator(x), 1024 * r - 1365;
    DenominatorPositive(x);
    LiftedBelow(a, x);
    hide Denominator;
    if w > 0 {
      assert w * d <= Lifted(a, x) by { Distribute(r, d); }
      hide Lifted;
      CubeGrows(w * d, Lifted(a, x)) by { MulLeq(0, w, d); }
      CubeProduct(w, d);
      CubePositive(d);
      CancelFactor(Cube(w), C1026 * a, Cube(d));
    } else {
      CubeNegative(w);
      MulLeq(0, C1026, a);
    }
  }

  lemma Distribute(r: int, d: int)
    ensures (1024 * r - 1365) * d == 1024 * r * d - 1365 * d
  {
  }

  lemma OffsetIs(x: nat)
    requires x >= 4
    ensures Offset(x) == 64 * (341 * (2 * x * Denominator(x)) - 1365 * Denominator(x))
  {
    hide Denominator;
    var d := Denominator(x);
    assert d * (682 * x - 1365) == 341 * (2 * x * d) - 1365 * d;
  }

  lemma CubeNegative(w: int)
    requires w <= 0
    ensures Cube(w) <= 0
  {
    hide Cube;
    CubeIs(w);
    assert w * w >= 0;
  }

  lemma CancelFactor(x: int, y: int, p: int)
    requires p > 0 && x * p <= y * p
    ensures x <= y
  {
  }

  // The same chord argument without the additive allowance, for the coarse bound r^3 <= 2 a.

  function PlainOffset(x: nat): (k: int) { 43648 * (x * Denominator(x)) }

  lemma CoarseLowEnd(x: nat)
    requires x >= 4
    ensures 341 * (55 * Cube(x)) + PlainOffset(x) <= 78502 * (x * Denominator(x))
  {
    hide Cube, Denominator;
    Monomials(x);
  }

  lemma CoarseHighEnd(x: nat)
    requires x >= 4
    ensures 341 * (65 * Cube(x + 1)) + PlainOffset(x) <= 82997 * ((x + 1) * Denominator(x))
  {
    hide Cube, Denominator;
    Monomials(x);
  }

  lemma CoarseBelow(a: nat, x: nat)
    requires Bracketed(a, x)
    ensures PlainOffset(x) >= 0
            && Cube(341 * (64 * a) + PlainOffset(x)) <= 8192 * Cube(1024 * Denominator(x)) * (64 * a)
  {
    hide Cube, Denominator;
    var d := Denominator(x);
    assert d > 0 by { DenominatorPositive(x); }
    var k: nat := PlainOffset(x);
    hide PlainOffset;
    CubePositive(x);
    CubePositive(x + 1);
    CubePositive(1024 * d);
    CoarseLowEnd(x);
    CoarseHighEnd(x);
    EndBelow(341 * (55 * Cube(x)) + k, 78502, 483773599442008, x, d, 55, 1024, C1024, 8192);
    EndBelow(341 * (65 * Cube(x + 1)) + k, 82997, 571725001240973, x + 1, d, 65, 1024, C1024, 8192);
    LineAbove(k, 341, 8192 * Cube(1024 * d), 55 * Cube(x), 64 * a, 65 * Cube(x + 1));
  }

  lemma CoarseUpper(a: nat, x: nat, r: nat)
    requires Bracketed(a, x) && 1024 * r * Denominator(x) <= 341 * (2 * x * Denominator(x) + a)
    ensures Cube(r) <= 2 * a
  {
    hide Cube;
    var d := Denominator(x);
    DenominatorPositive(x);
    CoarseBelow(a, x);
    var y := 341 * (2 * x * d + a);
    assert 341 * (64 * a) + PlainOffset(x) == 64 * y by { PlainOffsetIs(x); }
    hide Denominator, PlainOffset;
    CubeScaled(64, 0x40000, y);
    CubeScaled(1024, C1024, d);
    CubeGrows(1024 * r * d, y);
    CubeProduct(1024 * r, d);
    CubeScaled(1024, C1024, r);
    CubePositive(d);
    CoarseFinish(Cube(r), C1024, Cube(d), Cube(y), a);
  }

  lemma PlainOffsetIs(x: nat)
    ensures PlainOffset(x) == 64 * (341 * (2 * x * Denominator(x)))
  {
    hide Denominator;
    assert 2 * x * Denominator(x) == 2 * (x * Denominator(x));
  }

  lemma CoarseFinish(r3: int, m3: int, d3: int, y3: int, a: nat)
    requires m3 > 0 && d3 > 0 && m3 * r3 * d3 <= y3 && 0x40000 * y3 <= 8192 * (m3 * d3) * (64 * a)
    ensures r3 <= 2 * a
  {
    var p := m3 * d3;
    assert p > 0;
    assert 8192 * p * (64 * a) == 0x40000 * (2 * a * p);
    assert m3 * r3 * d3 == r3 * p;
    CancelFactor(r3, 2 * a, p);
  }

  lemma CoarseLower(a: nat, r: nat)
    requires Close(a, r) && r > 0
    ensures a <= 2 * Cube(r + 1)
  {
    hide Cube;
    CubeGrows(1024 * r + 1365, 1288 * (r + 1));
    CubeScaled(1288, 2136719872, r + 1);
    CubePositive(r + 1);
  }

  /** Arithmetic and geometric mean of n, n and a. */
  lemma MeansApart(n: nat, a: nat)
    ensures 27 * (n * n * a) <= Cube(2 * n + a)
  {
    hide Cube;
    MeanCubed(n, a);
    GapBound(n, a);
  }

  lemma MeanCubed(n: int, a: int)
    ensures Cube(2 * n + a) == 8 * (n * n * n) + 12 * (n * n * a) + 6 * (n * a * a) + a * a * a
  {
    hide Cube;
    CubeIs(2 * n + a);
    SumCubed(n, a);
  }

  lemma GapBound(n: nat, a: nat)
    ensures 15 * (n * n * a) <= 8 * (n * n * n) + 6 * (n * a * a) + a * a * a
  {
    GapExpanded(n, a);
    GapNonneg(a - n, a + 8 * n);
  }

  lemma SumCubed(n: int, a: int)
    ensures (2 * n + a) * (2 * n + a) * (2 * n + a) == 8 * (n * n * n) + 12 * (n * n * a) + 6 * (n * a * a) + a * a * a
  {
    assert (2 * n + a) * (2 * n + a) == 4 * (n * n) + 4 * (n * a) + a * a;
    var s := 4 * (n * n) + 4 * (n * a) + a * a;
    assert s * (2 * n) == 8 * (n * n * n) + 8 * (n * n * a) + 2 * (n * a * a);
    assert s * a == 4 * (n * n * a) + 4 * (n * a * a) + a * a * a;
    assert s * (2 * n + a) == s * (2 * n) + s * a;
  }

  lemma GapExpanded(n: int, a: int)
    ensures (a - n) * (a - n) * (a + 8 * n) == 8 * (n * n * n) - 15 * (n * n * a) + 6 * (n * a * a) + a * a * a
  {
    assert (a - n) * (a - n) == a * a - 2 * (n * a) + n * n;
    var s := a * a - 2 * (n * a) + n * n;
    assert s * a == a * a * a - 2 * (n * a * a) + n * n * a;
    assert s * (8 * n) == 8 * (n * a * a) - 16 * (n * n * a) + 8 * (n * n * n);
    assert s * (a + 8 * n) == s * a + s * (8 * n);
  }

  lemma GapNonneg(d: int, s: nat)
    ensures d * d * s >= 0
  {
    assert d * d >= 0;
  }

  lemma NewtonLower(a: nat, x: nat, q: nat, r: nat)
    requires x >= 2 && a < (q + 1) * Denominator(x) && 341 * (2 * x + q) < 1024 * (r + 1)
    ensures C1023 * a < Cube(1024 * r + 1365)
  {
    hide Cube;
    var w, n, xx := 1024 * r + 1365, Cube(x), x * x;
    CubePositive(x);
    LowerScaled(a, x, q, w);
    MeansApart(n, a);
    CubeStrict(341 * (2 * n + a), w * xx);
    CubeScaled(341, C341, 2 * n + a);
    CubeProduct(w, xx);
    SquareCubed(x);
    CubePositive(xx);
    Finish(Cube(w), Cube(xx), a, Cube(2 * n + a));
  }

  lemma LowerScaled(a: nat, x: nat, q: nat, w: nat)
    requires x >= 2 && a < (q + 1) * Denominator(x) && 341 * (2 * x + q + 1) <= w - 1
    ensures w * (x * x) > 341 * (2 * Cube(x) + a)
  {
    var xx, h := x * x, 2 * x + q + 1;
    HeadScaled(x, q);
    DenominatorBelow(x);
    hide Cube, Denominator;
    MulLeq(Denominator(x), xx, q + 1);
    MulLeq(341 * h, w - 1, xx);
    HeadWeighed(h, w, xx);
  }

  lemma HeadWeighed(h: int, w: int, xx: int)
    ensures 341 * h * xx == 341 * (h * xx) && (w - 1) * xx == w * xx - xx
  {
  }

  lemma HeadScaled(x: nat, q: nat)
    ensures (2 * x + q + 1) * (x * x) == 2 * Cube(x) + (q + 1) * (x * x)
  {
    hide Cube;
    CubeIs(x);
    var xx := x * x;
    assert (2 * x + (q + 1)) * xx == 2 * x * xx + (q + 1) * xx;
  }

  lemma DenominatorBelow(x: nat)
    requires x > 0
    ensures Denominator(x) < x * x
  {
  }

  lemma CubeStrict(x: nat, y: nat)
    requires x < y
    ensures Cube(x) < Cube(y)
  {
    hide Cube;
    CubeIs(x);
    CubeIs(y);
    assert x * x <= y * y;
    assert x * x * x <= y * y * x;
    assert y * y * x < y * y * y;
  }

  lemma SquareCubed(x: nat)
    ensures Cube(x * x) == Cube(x) * Cube(x)
  {
    hide Cube;
    CubeProduct(x, x);
  }

  lemma Finish(w3: int, n2: int, a: nat, m: int)
    requires n2 > 0 && C341 * m < w3 * n2 && 27 * (n2 * a) <= m
    ensures C1023 * a < w3
  {
    assert C341 * (27 * (n2 * a)) == C1023 * (n2 * a);
    assert C1023 * (n2 * a) == C1023 * a * n2;
    if C1023 * a >= w3 { MulLeq(w3, C1023 * a, n2); }
  }

  // ----- the whole computation -----

  function Shr64(a: u64, k: nat): (r: u64) {
    Quotient(a, Pow2(k))
  }

  function Shl32(x: nat, k: nat): (r: u32) { Wrap32(x * Pow2(k)) }

  function Mul64(x: int, y: int): (r: u64) { x * y % TWO64 }

  function SafeDivU64(a: u64, b: u64): (q: u64) {
    if b != 0 then a / b else 0
  }

  /** Within a factor of 1 +- 1/512 and 4/3 of the real cube root. */
  ghost predicate Close(a: nat, r: int) {
    Cube(1024 * r - 1365) <= C1026 * a && C1023 * a < Cube(1024 * r + 1365)
  }

  /** Within a factor of two: r^3 <= 2 a and a <= 2 (r + 1)^3. */
  ghost predicate Coarse(a: nat, r: int) {
    Cube(r) <= 2 * a <= 4 * Cube(r + 1)
  }

  /** The real cube root rounds to r. */
  predicate Nearest(a: nat, r: int) {
    Cube(2 * r - 1) <= 8 * a < Cube(2 * r + 1)
  }

  lemma SmallValue(a: nat)
    requires a < 64
    ensures (V(a) + 35) / 64 == if a == 0 then 0 else if a < 4 then 1 else if a < 16 then 2 else if a < 42 then 3 else 4
  {
  }

  lemma SmallRoots(a: nat)
    requires a < 64
    ensures var r := (V(a) + 35) / 64;
            r <= 4 && Close(a, r) && Coarse(a, r) && (Nearest(a, r) <==> a != 42)
  {
    hide V, Cube;
    SmallValue(a);
    SmallConstants();
    if a == 0 { CloseWithin(a, 0, 0, 0); }
    else if a < 4 { CloseWithin(a, 1, 1, 3); }
    else if a < 16 { CloseWithin(a, 2, 4, 15); }
    else if a < 42 { CloseWithin(a, 3, 16, 41); }
    else { CloseWithin(a, 4, 42, 63); }
  }

  ghost predicate CloseAt(r: int, lo: nat, hi: nat) {
    Cube(1024 * r - 1365) <= C1026 * lo && C1023 * hi < Cube(1024 * r + 1365)
  }

  lemma CloseWithin(a: nat, r: int, lo: nat, hi: nat)
    requires lo <= a <= hi && CloseAt(r, lo, hi)
    ensures Close(a, r)
  {
    hide Cube;
  }

  lemma SmallConstants()
    ensures CloseAt(0, 0, 0) && CloseAt(1, 1, 3) && CloseAt(2, 4, 15) && CloseAt(3, 16, 41) && CloseAt(4, 42, 63)
    ensures Cube(0) == 0 && Cube(2) == 8 && Cube(4) == 64
    ensures Cube(-1) == -1 && Cube(1) == 1 && Cube(3) == 27 && Cube(5) == 125 && Cube(7) == 343 && Cube(9) == 729
  {
    hide Cube;
    forall y: int
      ensures Cube(y) == y * y * y
    {
      CubeIs(y);
    }
  }

  lemma {:induction false} CubeOfPow2(b: nat)
    ensures Cube(Pow2(b)) == Pow2(3 * b)
  {
    hide Cube;
    if b == 0 {
      assert Cube(1) == 1 by { CubeOfOne(); }
    } else {
      CubeOfPow2(b - 1);
      CubeProduct(2, Pow2(b - 1));
      Pow2Sum(3, 3 * (b - 1));
      SmallPowers();
      CubeOfOne();
    }
  }

  lemma CubeOfOne()
    ensures Cube(1) == 1 && Cube(2) == 8
  {
    hide Cube;
    CubeIs(1);
    CubeIs(2);
  }

  /** The shift leaves a table index of six bits, eight at least. */
  lemma IndexInTable(a: nat, n: nat)
    requires 64 <= a && n <= 64 && n > 0 && Pow2(n - 1) <= a < Pow2(n)
    ensures var b := n * 84 / 256 - 1;
            var s := a / Pow2(3 * b);
            && 1 <= b <= 20 && 8 <= s < 64 && (b == 20 ==> s < 16)
            && s * Pow2(3 * b) <= a < (s + 1) * Pow2(3 * b)
  {
    hide Pow2;
    SmallPowers();
    if n < 7 { Pow2Grows(n, 6); }
    ShiftFits(n);
    var b := n * 84 / 256 - 1;
    var p := Pow2(3 * b);
    ShiftedBounds(a, n, b);
    QuotientIs(a, p, 8, 64);
    if b == 20 { QuotientIs(a, p, 8, 16); }
  }

  lemma ShiftedBounds(a: nat, n: nat, b: nat)
    requires n <= 64 && 3 * b + 4 <= n <= 3 * b + 6 && Pow2(n - 1) <= a < Pow2(n)
    ensures 8 * Pow2(3 * b) <= a < 64 * Pow2(3 * b) && (b == 20 ==> a < 16 * Pow2(3 * b))
  {
    hide Pow2;
    SmallPowers();
    Pow2Grows(3 * b + 3, n - 1);
    Pow2Grows(n, 3 * b + 6);
    Pow2Sum(3 * b, 3);
    Pow2Sum(3 * b, 6);
    if b == 20 { Pow2Sum(3 * b, 4); }
  }

  lemma QuotientIs(a: nat, p: nat, lo: nat, hi: nat)
    requires p > 0 && lo * p <= a < hi * p
    ensures lo <= a / p < hi && a / p * p <= a < (a / p + 1) * p
  {
    DivBounds(a, p);
    var q := a / p;
    if lo > q { MulLeq(q + 1, lo, p); }
    if hi <= q { MulLeq(hi, q, p); }
  }

  lemma ShiftFits(n: nat)
    requires 7 <= n <= 64
    ensures var b := n * 84 / 256 - 1;
            3 * b + 4 <= n <= 3 * b + 6 && 1 <= b <= 20
  {
  }

  lemma SmallPowers()
    ensures Pow2(3) == 8 && Pow2(4) == 16 && Pow2(6) == 64
  {
  }

  lemma GuessFits(b: nat, s: nat)
    requires 1 <= b <= 20 && 8 <= s < 64 && (b == 20 ==> s < 16)
    ensures (V(s) + 10) * Pow2(b) <= 64 * 2719744
  {
    RowsOk(s);
    hide V, Pow2, Cube;
    var t := V(s) + 10;
    TwentyBits();
    if b == 20 {
      MulLeq(t, 166, Pow2(20));
    } else {
      Pow2Grows(b, 19);
      MulLeq(Pow2(b), Pow2(19), t);
      MulLeq(t, 264, Pow2(19));
    }
  }

  lemma TwentyBits()
    ensures Pow2(19) == 0x80000 && Pow2(20) == 0x100000
  {
    hide Pow2;
    SmallPowers();
    Pow2Sum(4, 6);
    Pow2Sum(10, 10);
    Pow2Step(20);
  }

  lemma StepFits(a: nat, x: nat)
    requires Bracketed(a, x)
    ensures Denominator(x) > 0 && a / Denominator(x) <= 2 * x + 4
  {
    hide Cube, Denominator;
    DenominatorPositive(x);
    StepBelow(a, x);
    QuotientIs(a, Denominator(x), 0, 2 * x + 5);
  }

  lemma StepBelow(a: nat, x: nat)
    requires Bracketed(a, x)
    ensures a < (2 * x + 5) * Denominator(x)
  {
    hide Cube, Denominator;
    var y := x * x;
    Expanded(x);
    MulLeq(4, x, y);
    MulLeq(4, x, x);
  }

  lemma Expanded(x: nat)
    ensures Cube(x + 1) == x * x * x + 3 * (x * x) + 3 * x + 1
    ensures (2 * x + 5) * Denominator(x) == 2 * (x * x * x) + 3 * (x * x) - 5 * x
  {
    hide Cube;
    CubeIs(x + 1);
  }

  /** Both bounds for the truncated step. */
  lemma StepIsClose(a: nat, x: nat, r: nat)
    requires Bracketed(a, x) && Denominator(x) > 0 && r == (2 * x + a / Denominator(x)) * 341 / 1024
    ensures Close(a, r) && Coarse(a, r)
  {
    hide Cube, Denominator;
    var d := Denominator(x);
    DivBounds(a, d);
    StepTruncated(a, x, d, a / d, r);
    NewtonUpper(a, x, r);
    NewtonLower(a, x, a / d, r);
    CoarseUpper(a, x, r);
    CoarseLower(a, r);
  }

  lemma StepTruncated(a: nat, x: nat, d: nat, q: nat, r: nat)
    requires q * d <= a && r == (2 * x + q) * 341 / 1024
    ensures 1024 * r * d <= 341 * (2 * x * d + a) && 341 * (2 * x + q) < 1024 * (r + 1)
  {
    MulLeq(1024 * r, 341 * (2 * x + q), d);
    assert (2 * x + q) * d == 2 * x * d + q * d;
    assert 341 * (2 * x + q) * d == 341 * ((2 * x + q) * d);
  }

  /** The guess the program makes for an argument of n bits. */
  lemma TableGuess(a: nat, n: nat)
    requires 64 <= a < TWO64 && 0 < n <= 64 && Pow2(n - 1) <= a < Pow2(n)
    ensures var b := n * 84 / 256 - 1;
            var s := Shr64(a, 3 * b);
            && 1 <= b <= 20 && s < 64
            && var x := Shl32(V(s) + 10, b) / 64; Bracketed(a, x) && x <= 2719744
  {
    hide V, Cube, Pow2, Bracketed;
    IndexInTable(a, n);
    var b := n * 84 / 256 - 1;
    var s := Shr64(a, 3 * b);
    CubeOfPow2(b);
    Pow2Grows(1, b);
    Pow2Width();
    GuessBrackets(a, s, Pow2(b), (V(s) + 10) * Pow2(b) / 64);
    GuessFits(b, s);
    WrapExact((V(s) + 10) * Pow2(b));
  }

  /** The shift the program takes for n bits. */
  function ShiftOf(n: nat): (b: int) { n * 84 / 256 - 1 }

  /** The guess before any word is truncated. */
  function Guess(a: u64, b: nat): (x: nat)
    requires Shr64(a, 3 * b) < 64
  {
    (V(Shr64(a, 3 * b)) + 10) * Pow2(b) / 64
  }

  /** For every argument of n bits that gets as far as the table: the shift counts are below the word
      width, the index is in the table, the divisor is not zero, and no product, sum or difference
      leaves its word. */
  lemma NothingWraps(a: nat, n: nat)
    requires 64 <= a < TWO64 && 0 < n <= 64 && Pow2(n - 1) <= a < Pow2(n)
    ensures n * 84 < TWO32 && 0 < ShiftOf(n) < 32 && 3 * ShiftOf(n) < 64 && Shr64(a, 3 * ShiftOf(n)) < 64
    ensures (V(Shr64(a, 3 * ShiftOf(n))) + 10) * Pow2(ShiftOf(n)) < TWO32
    ensures var x := Guess(a, ShiftOf(n));
            && 1 < x && 0 < Denominator(x) < TWO64
            && 2 * x + a / Denominator(x) < TWO32 && 341 * (2 * x + a / Denominator(x)) < TWO32
  {
    hide V, Cube, Pow2, Denominator;
    IndexInTable(a, n);
    var b := ShiftOf(n);
    var s := Shr64(a, 3 * b);
    GuessFits(b, s);
    TableGuess(a, n);
    WrapExact((V(s) + 10) * Pow2(b));
    var x := Guess(a, b);
    StepFits(a, x);
    DenominatorIs(x);
  }

  /** The program's cube root: close to the real one for every argument, and below 64 the nearest
      integer except at 42. */
  method CubicRoot(a: u64) returns (r: u32)
    ensures Close(a, r) && Coarse(a, r)
    ensures a < 64 ==> (Nearest(a, r) <==> a != 42)
  {
    hide V, Cube, Pow2, Close, Coarse, Nearest, Denominator, Wrap32, Shr64, Shl32, Mul64;
    if a < 64 {
      SmallRoots(a);
      return (V(a) + 35) / 64;
    }
    r := 0;
    var b0 := Fls64(a);
    TableGuess(a, b0);
    WrapExact(b0 * 84);
    WrapExact(b0 * 84 / 256 - 1);
    var b := Wrap32(Wrap32(b0 * 84) / 256 - 1);
    WrapExact(Shr64(a, 3 * b));
    var shift := Wrap32(Shr64(a, 3 * b));
    if shift < 64 {
      var x := Shl32(V(shift) + 10, b) / 64;
      StepFits(a, x);
      WrapExact(x - 1);
      DenominatorIs(x);
      var denom := Mul64(x, Wrap32(x - 1));
      var q := SafeDivU64(a, denom);
      StepIsClose(a, x, (2 * x + q) * 341 / 1024);
      WrapExact(2 * x);
      WrapExact(q);
      WrapExact(2 * x + q);
      WrapExact((2 * x + q) * 341);
      x := Wrap32(Wrap32(2 * x) + Wrap32(q));
      x := Wrap32(x * 341) / 1024;
      r := x;
    }
  }

  lemma DenominatorIs(x: nat)
    requires 1 <= x <= 2719744
    ensures Mul64(x, x - 1) == Denominator(x)
  {
    var y := x * (x - 1);
    assert y >= 0;
    assert y <= 2719744 * 2719744 by {
      MulLeq(x - 1, 2719744, x);
      MulLeq(x, 2719744, 2719744);
    }
    Exact64(y);
  }

  lemma Exact64(x: int)
    ensures 0 <= x < TWO64 ==> x % TWO64 == x
  {
  }

  const CUBE_FACTOR: u64 := 0x100_0000_0000 / 410

  /** The time to grow back from cwnd to the last maximum: the factor times the gap fits in 64 bits, so
      the root is taken of the true product. */
  method BicK(lastMaxCwnd: u32, cwnd: u32) returns (k: u32)
    ensures lastMaxCwnd <= cwnd ==> k == 0
    ensures lastMaxCwnd > cwnd ==> Close(CUBE_FACTOR * (lastMaxCwnd - cwnd), k)
  {
    hide Close, Coarse, Mul64, Wrap32;
    if lastMaxCwnd <= cwnd { return 0; }
    WrapExact(lastMaxCwnd - cwnd);
    var diff := Wrap32(lastMaxCwnd - cwnd);
    FactorFits(diff);
    k := CubicRoot(Mul64(CUBE_FACTOR, diff));
  }

  lemma FactorFits(diff: u32)
    ensures Mul64(CUBE_FACTOR, diff) == CUBE_FACTOR * diff
  {
    Exact64(CUBE_FACTOR * diff);
  }
}
