/** The 32-bit number under which the server collects the encoded packets of one block. */
module DecoderId {
  import opened Bytes
  import opened Fragmenter

  /** Bitwise or of two unsigned numbers. */
  function Or(a: nat, b: nat): nat
    decreases a + b
  {
    if a == 0 && b == 0 then 0
    else (if a % 2 == 1 || b % 2 == 1 then 1 else 0) + 2 * Or(a / 2, b / 2)
  }

  /** Shift left by `k` bits. */
  function Shl(a: nat, k: nat): (r: nat)
    ensures r >= a
  {
    if k == 0 then a else 2 * Shl(a, k - 1)
  }

  lemma {:induction false} OrBound(a: nat, b: nat, k: nat)
    requires a < Shl(1, k) && b < Shl(1, k)
    ensures Or(a, b) < Shl(1, k)
    decreases k
  {
    if a + b > 0 {
      OrBound(a / 2, b / 2, k - 1);
    }
  }

  /** Above bits that are or-ed with nothing, or works on its own. */
  lemma {:induction false} OrShifted(a: nat, h: nat, l: nat, k: nat)
    requires l < Shl(1, k)
    ensures Or(Shl(a, k), Shl(h, k) + l) == Shl(Or(a, h), k) + l
    decreases k
  {
    if k > 0 {
      OrShifted(a, h, l / 2, k - 1);
      OrDoubled(Shl(a, k - 1), Shl(h, k - 1) + l / 2, l % 2);
    }
  }

  lemma OrDoubled(a: nat, b: nat, bit: nat)
    requires bit < 2
    ensures Or(2 * a, 2 * b + bit) == 2 * Or(a, b) + bit
  {
    assert (2 * a) / 2 == a && (2 * b + bit) / 2 == b;
  }

  lemma {:induction false} ShlTwice(a: nat, j: nat, k: nat)
    ensures Shl(Shl(a, j), k) == Shl(a, j + k)
    decreases k
  {
    if k > 0 { ShlTwice(a, j, k - 1); }
  }

  lemma ShlBy4(a: nat)
    ensures Shl(a, 4) == 0x10 * a
  {
    assert Shl(a, 1) == 2 * a && Shl(a, 2) == 4 * a && Shl(a, 3) == 8 * a;
  }

  lemma ShlBy8(a: nat)
    ensures Shl(a, 8) == 0x100 * a
  {
    ShlBy4(a);
    ShlBy4(Shl(a, 4));
    ShlTwice(a, 4, 4);
  }

  lemma ShlBy16(a: nat)
    ensures Shl(a, 16) == 0x1_0000 * a
  {
    ShlBy8(a);
    ShlBy8(Shl(a, 8));
    ShlTwice(a, 8, 8);
  }

  lemma {:induction false} OrZero(a: nat)
    ensures Or(a, 0) == a
    decreases a
  {
    if a > 0 { OrZero(a / 2); }
  }

  /** Shifting left by 16 in 32 bits keeps the 16 low bits. */
  lemma {:induction false} ShiftKeepsLow(n: nat)
    ensures ToU32(n * 0x1_0000) == n % 0x1_0000 * 0x1_0000
  {
    if n >= 0x1_0000 {
      ShiftKeepsLow(n - 0x1_0000);
      assert n * 0x1_0000 - 0x1_0000_0000 == (n - 0x1_0000) * 0x1_0000;
      assert n % 0x1_0000 == (n - 0x1_0000) % 0x1_0000;
    }
  }

  /** The unit number shifted left by 16 in 32 bits, or-ed with the block number. */
  function Id(naluIndex: U32, blockIndex: U32): U32 {
    var shifted := ToU32(naluIndex * 0x1_0000);
    ShlBy16(1);
    ShlBy16(Shl(1, 16));
    ShlTwice(1, 16, 16);
    OrBound(shifted, blockIndex, 32);
    Or(shifted, blockIndex)
  }

  /** What the upper half of an identifier holds: the low bits of the unit number, or-ed with those of
      the block number that do not fit the lower half. */
  function Upper(n: nat, i: nat): nat {
    Or(n % 0x1_0000, i / 0x1_0000)
  }

  lemma UpperParts(n: nat, i: nat, low: nat, high: nat)
    requires n % 0x1_0000 == low && i / 0x1_0000 == high
    ensures Upper(n, i) == Or(low, high)
  {
  }

  lemma UpperOfShort(n: nat, i: nat)
    requires i < 0x1_0000
    ensures Upper(n, i) == n % 0x1_0000
  {
    UpperParts(n, i, n % 0x1_0000, 0);
    OrZero(n % 0x1_0000);
  }

  lemma OrShifted16(a: nat, h: nat, l: nat)
    requires l < 0x1_0000
    ensures Or(a * 0x1_0000, h * 0x1_0000 + l) == Or(a, h) * 0x1_0000 + l
  {
    ShlBy16(1);
    ShlBy16(a);
    ShlBy16(h);
    ShlBy16(Or(a, h));
    OrShifted(a, h, l, 16);
  }

  lemma IdValue(n: U32, i: U32)
    ensures Id(n, i) == Upper(n, i) * 0x1_0000 + i % 0x1_0000
  {
    ShiftKeepsLow(n);
    OrShifted16(n % 0x1_0000, i / 0x1_0000, i % 0x1_0000);
  }

  lemma DigitsEqual(a: nat, i: nat, b: nat, j: nat)
    requires i < 0x1_0000 && j < 0x1_0000
    ensures a * 0x1_0000 + i == b * 0x1_0000 + j <==> a == b && i == j
  {
  }

  /** Two identifiers agree exactly when the block numbers agree in the lower half and the bits that
      share the upper half have the same or. For block numbers below 2^16 those are the low bits of the
      unit numbers. */
  lemma IdsAgreeIff(n: U32, i: U32, m: U32, j: U32)
    ensures Id(n, i) == Id(m, j) <==> i % 0x1_0000 == j % 0x1_0000 && Upper(n, i) == Upper(m, j)
    ensures i < 0x1_0000 ==> Upper(n, i) == n % 0x1_0000
  {
    IdValue(n, i);
    IdValue(m, j);
    DigitsEqual(Upper(n, i), i % 0x1_0000, Upper(m, j), j % 0x1_0000);
    if i < 0x1_0000 { UpperOfShort(n, i); }
  }

  // ----- Which transmissions get distinct identifiers

  /** The lowest bit set in a number. */
  function LowestBit(n: nat): (r: nat)
    requires n > 0
    ensures r >= 1
  {
    if n % 2 == 1 then 1 else 2 * LowestBit(n / 2)
  }

  /** Below the lowest bit or is addition; the lowest bit itself adds nothing. */
  lemma {:induction false} OrLowestBit(n: nat, h: nat)
    requires n > 0
    ensures h < LowestBit(n) ==> Or(n, h) == n + h
    ensures Or(n, LowestBit(n)) == n
    decreases n
  {
    if n % 2 == 1 {
      OrZero(n);
      OrZero(n / 2);
    } else {
      OrLowestBit(n / 2, h / 2);
      OrDoubled(n / 2, h / 2, h % 2);
      OrDoubled(n / 2, LowestBit(n / 2), 0);
    }
  }

  /** At most 2^16 units, of at most 2^16 blocks each; only the last may have more, up to 2^16 times
      the lowest bit of its number, or any number of blocks if it is the only unit. */
  predicate Separable(nalus: seq<seq<Byte>>) {
    && |nalus| <= 0x1_0000
    && (forall n :: 0 <= n < |nalus| - 1 ==> BlockCount(nalus[n]) <= 0x1_0000)
    && (|nalus| >= 2 ==> BlockCount(nalus[|nalus| - 1]) <= 0x1_0000 * LowestBit(|nalus| - 1))
  }

  ghost predicate Clash(a: Block, b: Block) {
    a != b && Id(a.naluIndex, a.blockIndex) == Id(b.naluIndex, b.blockIndex)
  }

  lemma UpperWithin(n: U16, i: nat, count: nat)
    requires i < count && (count <= 0x1_0000 || n == 0 || count <= 0x1_0000 * LowestBit(n))
    ensures Upper(n, i) == n + i / 0x1_0000
    ensures count <= 0x1_0000 ==> i / 0x1_0000 == 0
  {
    var h := i / 0x1_0000;
    UpperParts(n, i, n, h);
    if h == 0 {
      OrZero(n);
    } else if n == 0 {
      ZeroOr(h);
    } else {
      OrLowestBit(n, h);
    }
  }

  lemma {:induction false} ZeroOr(a: nat)
    ensures Or(0, a) == a
  {
    if a > 0 { ZeroOr(a / 2); }
  }

  /** With separable units, the upper half holds the unit number, but for the last unit, which has the
      upper halves from its number on. */
  lemma SeparableUpper(nalus: seq<seq<Byte>>, b: Block)
    requires Sendable(nalus) && Separable(nalus) && Authentic(nalus, b)
    ensures Upper(b.naluIndex, b.blockIndex) == b.naluIndex + b.blockIndex / 0x1_0000
    ensures b.naluIndex < |nalus| - 1 ==> b.blockIndex / 0x1_0000 == 0
  {
    UpperWithin(b.naluIndex, b.blockIndex, BlockCount(nalus[b.naluIndex]));
  }

  lemma SeparableDoNotClash(nalus: seq<seq<Byte>>, a: Block, b: Block)
    requires Sendable(nalus) && Separable(nalus)
    requires Authentic(nalus, a) && Authentic(nalus, b)
    ensures !Clash(a, b)
  {
    SeparableUpper(nalus, a);
    SeparableUpper(nalus, b);
    IdsAgreeIff(a.naluIndex, a.blockIndex, b.naluIndex, b.blockIndex);
  }

  /** Where upper halves agree, so do the identifiers of blocks with no low bits. */
  lemma UppersAgree(n: U32, i: U32, m: U32)
    requires i % 0x1_0000 == 0 && Upper(n, i) == Upper(m, 0)
    ensures Id(n, i) == Id(m, 0)
  {
    IdsAgreeIff(n, i, m, 0);
  }

  /** Units 2^16 apart have the same upper halves. */
  lemma DistantUnitsAgree(n: U32, m: U32)
    requires m == n + 0x1_0000
    ensures Upper(n, 0) == Upper(m, 0)
  {
    UpperParts(n, 0, n % 0x1_0000, 0);
    UpperParts(m, 0, n % 0x1_0000, 0);
  }

  function WithBit(n: nat): nat {
    if n % 2 == 0 then n + 1 else n
  }

  lemma OrOne(n: nat)
    ensures Or(n, 1) == WithBit(n)
  {
    if n == 0 {
      ZeroOr(1);
    } else {
      OrLowestBit(n, 1);
    }
  }

  /** Bit 16 of a block number is lost in an odd unit number and turns an even one into the next. */
  lemma OverflowIntoUnit(n: nat, m: nat)
    requires n < 0xFFFF && m == WithBit(n)
    ensures Upper(n, 0x1_0000) == Upper(m, 0)
  {
    UpperParts(n, 0x1_0000, n, 1);
    UpperParts(m, 0, m, 0);
    OrZero(m);
    OrOne(n);
  }

  /** A block number with only the lowest bit of the unit number above its 16 low bits loses it. */
  lemma OverflowLost(n: U16, i: nat)
    requires n > 0 && i / 0x1_0000 == LowestBit(n)
    ensures Upper(n, i) == Upper(n, 0)
  {
    UpperParts(n, i, n, LowestBit(n));
    UpperParts(n, 0, n, 0);
    OrZero(n);
    OrLowestBit(n, 0);
  }

  lemma InseparableClash(nalus: seq<seq<Byte>>) returns (a: Block, b: Block)
    requires Sendable(nalus) && !Separable(nalus)
    ensures Authentic(nalus, a) && Authentic(nalus, b) && Clash(a, b)
  {
    var n, i, m := 0, 0, 0x1_0000;
    if |nalus| > 0x1_0000 {
      DistantUnitsAgree(n, m);
    } else if k :| 0 <= k < |nalus| - 1 && BlockCount(nalus[k]) > 0x1_0000 {
      n, i, m := k, 0x1_0000, WithBit(k);
      OverflowIntoUnit(n, m);
    } else {
      n, m := |nalus| - 1, |nalus| - 1;
      i := 0x1_0000 * LowestBit(n);
      OverflowLost(n, i);
    }
    a, b := TrueBlock(nalus, n, i), TrueBlock(nalus, m, 0);
    UppersAgree(n, i, m);
  }

  /** No two blocks the client sends share an identifier if and only if the units are separable. */
  lemma IdsDistinctIff(nalus: seq<seq<Byte>>)
    requires Sendable(nalus)
    ensures (forall a, b :: a in Emission(nalus, 0) && b in Emission(nalus, 0) ==> !Clash(a, b))
       <==> Separable(nalus)
  {
    EmissionExact(nalus);
    if Separable(nalus) {
      forall a, b | a in Emission(nalus, 0) && b in Emission(nalus, 0) ensures !Clash(a, b) {
        SeparableDoNotClash(nalus, a, b);
      }
    } else {
      var a, b := InseparableClash(nalus);
      assert a in Emission(nalus, 0) && b in Emission(nalus, 0);
    }
  }

  /** Two units are enough for a clash: blocks 0 and 2^16 of unit 1 get the same identifier. */
  lemma TwoUnitsClash(nalus: seq<seq<Byte>>)
    requires Sendable(nalus) && |nalus| == 2 && BlockCount(nalus[1]) > 0x1_0000
    ensures Clash(TrueBlock(nalus, 1, 0x1_0000), TrueBlock(nalus, 1, 0))
  {
    OverflowIntoUnit(1, 1);
    UppersAgree(1, 0x1_0000, 1);
  }
}
