/** Bitfield relocations: the aligned load window the widening loop picks, and what loading it and
    shifting left and right yields. */
module Bitfield {
  import opened Words

  // ----- bits of memory -----

  /** A byte shifted right by k. */
  function Shifted(v: nat, k: nat): (r: nat) {
    if k == 0 then v else Shifted(v, k - 1) / 2
  }

  /** Bit i of little-endian memory. */
  function Bit(mem: seq<u8>, i: nat): (b: nat)
    requires i / 8 < |mem|
    ensures b < 2
  {
    Shifted(mem[i / 8], i % 8) % 2
  }

  /** The n bits from off on, lowest first. */
  function BitsOf(mem: seq<u8>, off: nat, n: nat): (v: nat)
    requires off + n <= 8 * |mem|
    ensures v < Pow2(n)
    decreases n
  {
    if n == 0 then 0 else Bit(mem, off) + 2 * BitsOf(mem, off + 1, n - 1)
  }

  lemma {:induction false} BitsSplit(mem: seq<u8>, off: nat, n: nat, m: nat)
    requires off + n + m <= 8 * |mem|
    ensures BitsOf(mem, off, n + m) == BitsOf(mem, off, n) + Pow2(n) * BitsOf(mem, off + n, m)
    decreases n
  {
    hide Bit, Pow2;
    Pow2Step(n);
    if n != 0 {
      BitsSplit(mem, off + 1, n - 1, m);
      Doubled(Pow2(n - 1), BitsOf(mem, off + n, m));
    }
  }

  lemma Doubled(p: int, x: int)
    ensures 2 * p * x == 2 * (p * x)
  {
  }

  /** The bits from position j of a byte on spell the byte shifted by j. */
  lemma {:induction false} ByteFrom(mem: seq<u8>, a: nat, j: nat)
    requires a < |mem| && j <= 8
    ensures BitsOf(mem, 8 * a + j, 8 - j) == Shifted(mem[a], j)
    decreases 8 - j
  {
    if j == 8 {
      assert Shifted(mem[a], 8) == 0 by { ShiftedOut(mem[a]); }
    } else {
      ByteFrom(mem, a, j + 1);
      assert (8 * a + j) / 8 == a && (8 * a + j) % 8 == j;
    }
  }

  lemma ShiftedOut(v: u8)
    ensures Shifted(v, 8) == 0
  {
    assert Shifted(v, 1) < 128;
    assert Shifted(v, 2) < 64;
    assert Shifted(v, 3) < 32;
    assert Shifted(v, 4) < 16;
    assert Shifted(v, 5) < 8;
    assert Shifted(v, 6) < 4;
    assert Shifted(v, 7) < 2;
  }

  lemma ByteIsBits(mem: seq<u8>, a: nat)
    requires a < |mem|
    ensures BitsOf(mem, 8 * a, 8) == mem[a]
  {
    ByteFrom(mem, a, 0);
  }

  /** A little-endian load is the bits it covers. */
  lemma {:induction false} LoadIsBits(mem: seq<u8>, a: nat, k: nat)
    requires a + k <= |mem|
    ensures LeValue(mem[a..a + k]) == BitsOf(mem, 8 * a, 8 * k)
    decreases k
  {
    hide BitsOf, Pow2;
    if k == 0 {
      NoBits(mem, 8 * a);
    } else {
      LoadIsBits(mem, a + 1, k - 1);
      assert mem[a..a + k][1..] == mem[a + 1..a + 1 + (k - 1)];
      ByteIsBits(mem, a);
      BitsSplit(mem, 8 * a, 8, 8 * k - 8);
      EightBits();
    }
  }

  lemma NoBits(mem: seq<u8>, off: nat)
    requires off <= 8 * |mem|
    ensures BitsOf(mem, off, 0) == 0
  {
  }

  lemma EightBits()
    ensures Pow2(8) == 256
  {
  }

  // ----- the window -----

  predicate LoadSize(w: nat) { w == 1 || w == 2 || w == 4 || w == 8 }

  /** Start of the w-byte aligned word that holds a bit. */
  function WindowAt(bitOff: nat, w: nat): (a: nat)
    requires w > 0
  {
    bitOff / 8 / w * w
  }

  /** That word holds the whole field. */
  predicate Covers(bitOff: nat, bitSz: nat, w: nat)
    requires w > 0
  {
    bitOff + bitSz - WindowAt(bitOff, w) * 8 <= w * 8
  }

  /** Start and size of the load. */
  datatype Window = Window(byteOff: nat, byteSz: nat)

  /** The sizes tried: the declared one, doubled as long as it is below eight. */
  predicate Tried(size: nat, w: nat)
    decreases 8 - size
  {
    size > 0 && (w == size || (size < 8 && Tried(2 * size, w)))
  }

  /** From a size that loads have, every larger size that loads have is tried, and no other. */
  lemma TriedLoads(size: nat, w: nat)
    requires LoadSize(size)
    ensures Tried(size, w) <==> LoadSize(w) && size <= w
  {
    assert Tried(8, w) <==> w == 8;
    assert Tried(4, w) <==> w == 4 || Tried(8, w);
    assert Tried(2, w) <==> w == 2 || Tried(4, w);
    assert Tried(1, w) <==> w == 1 || Tried(2, w);
  }

  /** The first aligned window tried that holds the field; an error exactly when none does, which
      includes the declared size 0, by which the program cannot divide. */
  method FieldWindow(bitOff: nat, bitSz: nat, size: nat) returns (r: Option<Window>)
    ensures r.None? <==> forall w: nat :: Tried(size, w) && w > 0 ==> !Covers(bitOff, bitSz, w)
    ensures r.Some? ==>
              && r.value.byteSz > 0 && Tried(size, r.value.byteSz)
              && r.value.byteOff == WindowAt(bitOff, r.value.byteSz) && Covers(bitOff, bitSz, r.value.byteSz)
    ensures r.Some? ==> forall w: nat :: Tried(size, w) && 0 < w < r.value.byteSz ==> !Covers(bitOff, bitSz, w)
  {
    hide WindowAt;
    if size == 0 { return None; }
    var byteSz := size;
    var byteOff := WindowAt(bitOff, byteSz);
    while bitOff + bitSz - byteOff * 8 > byteSz * 8
      invariant size <= byteSz && byteOff == WindowAt(bitOff, byteSz)
      invariant forall w: nat :: Tried(byteSz, w) ==> Tried(size, w)
      invariant forall w: nat :: Tried(size, w) && w > 0 && Covers(bitOff, bitSz, w) ==> Tried(byteSz, w)
      decreases if byteSz < 8 then 8 - byteSz else 0
    {
      if byteSz >= 8 { return None; }
      byteSz := byteSz * 2;
      byteOff := WindowAt(bitOff, byteSz);
    }
    forall w: nat | Tried(size, w) && 0 < w < byteSz
      ensures !Covers(bitOff, bitSz, w)
    {
      TriedGrows(byteSz, w);
    }
    assert Tried(byteSz, byteSz) && Covers(bitOff, bitSz, byteSz);
    return Some(Window(byteOff, byteSz));
  }

  lemma {:induction false} TriedGrows(size: nat, w: nat)
    ensures Tried(size, w) ==> size <= w
    decreases 8 - size
  {
    if 0 < size < 8 { TriedGrows(2 * size, w); }
  }

  /** Windows nest, so the error means: the field crosses an eight-byte boundary. */
  lemma WiderCoversToo(bitOff: nat, bitSz: nat, w: nat)
    requires LoadSize(w) && Covers(bitOff, bitSz, w)
    ensures Covers(bitOff, bitSz, 8)
  {
    WindowsNest(bitOff);
    hide WindowAt;
  }

  lemma WindowsNest(bitOff: nat)
    ensures var e := WindowAt(bitOff, 8);
            && e * 8 <= bitOff < e * 8 + 64
            && e <= WindowAt(bitOff, 4) <= e + 4 && e <= WindowAt(bitOff, 2) <= e + 6
               && e <= WindowAt(bitOff, 1) <= e + 7
  {
    var a := bitOff / 8;
    Multiples(a);
    assert WindowAt(bitOff, 8) == a / 8 * 8 && WindowAt(bitOff, 4) == a / 4 * 4 && WindowAt(bitOff, 2) == a / 2 * 2;
    assert WindowAt(bitOff, 1) == a;
    assert 8 * a <= bitOff < 8 * a + 8;
    hide WindowAt;
  }

  lemma Multiples(a: nat)
    ensures a / 8 * 8 <= a <= a / 8 * 8 + 7
    ensures a / 8 * 8 <= a / 4 * 4 <= a / 8 * 8 + 4
    ensures a / 8 * 8 <= a / 2 * 2 <= a / 8 * 8 + 6
  {
    var q, r := a / 8, a % 8;
    assert a == 8 * q + r;
    assert a / 4 == 2 * q + r / 4;
    assert a / 2 == 4 * q + r / 2;
  }

  lemma WindowBelow(bitOff: nat, w: nat)
    requires LoadSize(w)
    ensures WindowAt(bitOff, w) * 8 <= bitOff
  {
    var a := bitOff / 8;
    if w == 1 { assert WindowAt(bitOff, 1) == a; }
    else if w == 2 { assert WindowAt(bitOff, 2) == a / 2 * 2; }
    else if w == 4 { assert WindowAt(bitOff, 4) == a / 4 * 4; }
    else { assert WindowAt(bitOff, 8) == a / 8 * 8; }
  }

  // ----- reading through the window -----

  function Lshift(bitOff: nat, bitSz: nat, byteOff: nat): (k: int) {
    64 - bitSz - (bitOff - byteOff * 8)
  }

  function Rshift(bitSz: nat): (k: int) { 64 - bitSz }

  function ShiftLeft64(v: nat, k: nat): (r: nat) { v * Pow2(k) % TWO64 }

  function ShiftRight64(v: nat, k: nat): (r: nat) { Quotient(v, Pow2(k)) }

  /** Shift that copies the sign bit: floor division of the signed reading. */
  function ShiftRightSigned64(v: u64, k: nat): (r: int) { ToSigned(TWO64, v) / Pow2(k) }

  /** The field as a signed number. */
  function SignedField(v: nat, bits: nat): (r: int)
    requires bits > 0
  {
    if v < Pow2(bits - 1) then v else v - Pow2(bits)
  }

  /** The word's bits below the field, the field, and the bits above. */
  lemma WindowParts(mem: seq<u8>, bitOff: nat, bitSz: nat, win: Window)
    requires win.byteOff + win.byteSz <= |mem| && win.byteOff * 8 <= bitOff
             && bitOff + bitSz <= (win.byteOff + win.byteSz) * 8
    ensures var o := bitOff - win.byteOff * 8;
            var rest := win.byteSz * 8 - o - bitSz;
            LeValue(mem[win.byteOff..win.byteOff + win.byteSz])
            == Joined(BitsOf(mem, win.byteOff * 8, o), BitsOf(mem, bitOff, bitSz), BitsOf(mem, bitOff + bitSz, rest),
                      o, bitSz)
  {
    hide BitsOf, Pow2, LeValue;
    var o := bitOff - win.byteOff * 8;
    var rest := win.byteSz * 8 - o - bitSz;
    LoadIsBits(mem, win.byteOff, win.byteSz);
    BitsSplit(mem, win.byteOff * 8, o, bitSz + rest);
    BitsSplit(mem, bitOff, bitSz, rest);
  }

  function Joined(low: nat, field: nat, high: nat, o: nat, s: nat): (v: nat) {
    MulLeq(0, high, Pow2(s));
    MulLeq(0, field + Pow2(s) * high, Pow2(o));
    low + Pow2(o) * (field + Pow2(s) * high)
  }

  /** Shifting the field to the top of the word drops what lies above it. */
  lemma ShiftedToTop(low: nat, field: nat, high: nat, o: nat, s: nat)
    requires o + s <= 64 && low < Pow2(o) && field < Pow2(s)
    ensures ShiftLeft64(Joined(low, field, high, o, s), 64 - s - o) == field * Pow2(64 - s) + low * Pow2(64 - s - o)
    ensures low * Pow2(64 - s - o) < Pow2(64 - s) && field * Pow2(64 - s) + low * Pow2(64 - s - o) < TWO64
  {
    hide Pow2;
    var l := 64 - s - o;
    var pl, po, ps := Pow2(l), Pow2(o), Pow2(s);
    Pow2Width();
    Pow2Sum(o, l);
    Pow2Sum(s, o + l);
    var top := po * pl;
    assert top == Pow2(64 - s) && ps * top == TWO64;
    Regroup(low, po, field, ps, high, pl);
    assert low * pl < top by { Below(low, po, pl); }
    assert field * top + low * pl < TWO64 by { Fill(field, ps, top, low * pl); }
    ModUnique((low + po * (field + ps * high)) * pl, TWO64, high, field * top + low * pl);
  }

  lemma Regroup(low: int, po: int, field: int, ps: int, high: int, pl: int)
    ensures (low + po * (field + ps * high)) * pl == high * (ps * (po * pl)) + (field * (po * pl) + low * pl)
  {
    assert po * (field + ps * high) * pl == (field + ps * high) * (po * pl);
    assert ps * high * (po * pl) == high * (ps * (po * pl));
  }

  lemma Below(x: nat, p: nat, q: nat)
    requires x < p && q > 0
    ensures x * q < p * q
  {
  }

  lemma Fill(field: nat, ps: nat, top: nat, rest: nat)
    requires field < ps && rest < top
    ensures field * top + rest < ps * top
  {
    assert (field + 1) * top <= ps * top;
  }

  /** Loading the window, shifting left and then right yields exactly the field, and its sign-extended
      reading if the second shift copies the sign; neither count is negative. */
  lemma ReadThroughWindow(mem: seq<u8>, bitOff: nat, bitSz: nat, win: Window)
    requires LoadSize(win.byteSz) && win.byteOff == WindowAt(bitOff, win.byteSz) && Covers(bitOff, bitSz, win.byteSz)
    requires bitSz > 0 && win.byteOff + win.byteSz <= |mem|
    ensures var l, r := Lshift(bitOff, bitSz, win.byteOff), Rshift(bitSz);
            && 0 <= l && 0 <= r && bitOff + bitSz <= 8 * |mem|
            && var x := ShiftLeft64(LeValue(mem[win.byteOff..win.byteOff + win.byteSz]), l);
               && x < TWO64
               && ShiftRight64(x, r) == BitsOf(mem, bitOff, bitSz)
               && ShiftRightSigned64(x, r) == SignedField(BitsOf(mem, bitOff, bitSz), bitSz)
  {
    hide WindowAt, BitsOf, Pow2, LeValue, ShiftLeft64, ShiftRight64, ShiftRightSigned64, SignedField;
    WindowBelow(bitOff, win.byteSz);
    var o := bitOff - win.byteOff * 8;
    var rest := win.byteSz * 8 - o - bitSz;
    var low, field, high := BitsOf(mem, win.byteOff * 8, o), BitsOf(mem, bitOff, bitSz),
      BitsOf(mem, bitOff + bitSz, rest);
    WindowParts(mem, bitOff, bitSz, win);
    ShiftedToTop(low, field, high, o, bitSz);
    TakeTop(field, low * Pow2(64 - bitSz - o), bitSz);
  }

  lemma TakeTop(field: nat, low: nat, s: nat)
    requires 0 < s <= 64 && field < Pow2(s) && low < Pow2(64 - s) && field * Pow2(64 - s) + low < TWO64
    ensures var x := field * Pow2(64 - s) + low;
            ShiftRight64(x, 64 - s) == field && ShiftRightSigned64(x, 64 - s) == SignedField(field, s)
  {
    hide Pow2;
    var p := Pow2(64 - s);
    var x := field * p + low;
    ModUnique(x, p, field, low);
    Pow2Width();
    Pow2Step(s);
    Pow2Sum(s - 1, 64 - s);
    Pow2Sum(s, 64 - s);
    Pow2Step(64);
    var half := Pow2(s - 1);
    if field < half {
      Fill(field, half, p, low);
    } else {
      assert field * p >= half * p;
      ModUnique(x - TWO64, p, field - Pow2(s), low) by {
        assert (field - Pow2(s)) * p == field * p - Pow2(s) * p;
      }
    }
  }
}
