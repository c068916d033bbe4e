/** Unsigned machine words as bounded integers, with the bit operations the
    sources apply to them. Wrap-around is written out where it can happen. */
module Words {
  const TWO_24: int := 0x100_0000
  const TWO_32: int := 0x1_0000_0000
  const TWO_64: int := 0x1_0000_0000_0000_0000

  type Byte = x: int | 0 <= x < 256
  type Word32 = x: int | 0 <= x < 0x1_0000_0000
  type Word64 = x: int | 0 <= x < 0x1_0000_0000_0000_0000

  function Pow2(n: nat): (p: nat)
    ensures p >= 1
  {
    if n == 0 then 1 else 2 * Pow2(n - 1)
  }

  /** The conjunction of the binary digits of x and y. */
  function BitAnd(x: nat, y: nat): (r: nat)
    ensures r <= x && r <= y
  {
    if x == 0 || y == 0 then 0
    else 2 * BitAnd(x / 2, y / 2) + (x % 2) * (y % 2)
  }

  /** The disjunction of the binary digits of x and y. */
  function BitOr(x: nat, y: nat): (r: nat)
    ensures x <= r <= x + y
    decreases x + y
  {
    if x == 0 then y
    else if y == 0 then x
    else 2 * BitOr(x / 2, y / 2) + (if x % 2 + y % 2 == 0 then 0 else 1)
  }

  function Not32(x: Word32): Word32 {
    0xFFFF_FFFF - x
  }

  function And32(x: Word32, y: Word32): Word32 {
    BitAnd(x, y)
  }

  function Or32(x: Word32, y: Word32): Word32 {
    Pow2Values();
    BitOrBound(x, y, 32);
    BitOr(x, y)
  }

  function Increment32(x: Word32): Word32 {
    (x + 1) % TWO_32
  }

  lemma Pow2Values()
    ensures Pow2(2) == 4 && Pow2(8) == 0x100 && Pow2(16) == 0x1_0000 && Pow2(24) == TWO_24
    ensures Pow2(32) == TWO_32 && Pow2(64) == TWO_64
  {
    assert Pow2(4) == 16;
    assert Pow2(8) == 0x100;
    assert Pow2(12) == 0x1000;
    assert Pow2(16) == 0x1_0000;
    assert Pow2(20) == 0x10_0000;
    assert Pow2(24) == 0x100_0000;
    assert Pow2(28) == 0x1000_0000;
    assert Pow2(32) == TWO_32;
    assert Pow2(40) == 0x100 * TWO_32;
    assert Pow2(48) == 0x1_0000 * TWO_32;
    assert Pow2(56) == 0x100_0000 * TWO_32;
  }

  lemma Pow2Monotonic(m: nat, n: nat)
    requires m <= n
    ensures Pow2(m) <= Pow2(n)
    decreases n
  {
    if m < n {
      Pow2Monotonic(m, n - 1);
    }
  }

  lemma BitOrBound(x: nat, y: nat, width: nat)
    requires x < Pow2(width) && y < Pow2(width)
    ensures BitOr(x, y) < Pow2(width)
  {
    if x != 0 && y != 0 {
      BitOrBound(x / 2, y / 2, width - 1);
    }
  }

  // ----- the low and the high bits of a number -----

  /** The number formed by the low n bits of x. */
  ghost function Low(x: nat, n: nat): (r: nat)
    ensures r <= x && r < Pow2(n)
  {
    if n == 0 then 0 else 2 * Low(x / 2, n - 1) + x % 2
  }

  /** x with its low n bits cleared. */
  ghost function High(x: nat, n: nat): nat {
    x - Low(x, n)
  }

  /** x shifted right by n bits. */
  ghost function Shift(x: nat, n: nat): nat {
    if n == 0 then x else Shift(x / 2, n - 1)
  }

  lemma {:induction false} LowOfSmall(x: nat, n: nat)
    requires x < Pow2(n)
    ensures Low(x, n) == x
  {
    if n > 0 {
      LowOfSmall(x / 2, n - 1);
    }
  }

  lemma AndOdd(x: nat, mask: nat, half: nat)
    requires mask == 2 * half + 1
    ensures BitAnd(x, mask) == 2 * BitAnd(x / 2, half) + x % 2
  {
    assert mask / 2 == half && mask % 2 == 1;
  }

  lemma AndEven(x: nat, mask: nat, half: nat)
    requires mask == 2 * half
    ensures BitAnd(x, mask) == 2 * BitAnd(x / 2, half)
  {
    assert mask / 2 == half && mask % 2 == 0;
  }

  /** Masking with n low ones keeps the low n bits. */
  lemma {:induction false} AndLowMask(x: nat, n: nat, mask: nat)
    requires mask == Pow2(n) - 1
    ensures BitAnd(x, mask) == Low(x, n)
  {
    if n > 0 {
      var half := Pow2(n - 1) - 1;
      AndLowMask(x / 2, n - 1, half);
      AndOdd(x, mask, half);
    }
  }

  /** Masking with ones above the low n bits clears exactly those bits. */
  lemma {:induction false} AndHighMask(x: nat, width: nat, n: nat, mask: nat)
    requires n <= width && x < Pow2(width) && mask == Pow2(width) - Pow2(n)
    ensures BitAnd(x, mask) == High(x, n)
    decreases n
  {
    if n == 0 {
      AndLowMask(x, width, mask);
      LowOfSmall(x, width);
    } else {
      var half := Pow2(width - 1) - Pow2(n - 1);
      Pow2Monotonic(n - 1, width - 1);
      AndHighMask(x / 2, width - 1, n - 1, half);
      HighStep(x, mask, half, n);
    }
  }

  lemma HighStep(x: nat, mask: nat, half: nat, n: nat)
    requires n > 0 && mask == 2 * half && BitAnd(x / 2, half) == High(x / 2, n - 1)
    ensures BitAnd(x, mask) == High(x, n)
  {
    AndEven(x, mask, half);
  }

  /** Putting y into cleared low bits is addition. */
  lemma {:induction false} OrBelow(high: nat, y: nat, n: nat)
    requires Low(high, n) == 0 && y < Pow2(n)
    ensures BitOr(high, y) == high + y
  {
    if high != 0 && y != 0 {
      OrBelow(high / 2, y / 2, n - 1);
    }
  }

  /** Clearing the low bits and adding y < 2^n: both parts can be read back. */
  lemma {:induction false} LowOfSum(x: nat, y: nat, n: nat)
    requires y < Pow2(n)
    ensures Low(High(x, n) + y, n) == y
    ensures High(High(x, n) + y, n) == High(x, n)
    ensures Low(High(x, n), n) == 0
  {
    if n > 0 {
      LowOfSum(x / 2, y / 2, n - 1);
      LowOfSum(x / 2, 0, n - 1);
      var h := High(x / 2, n - 1);
      assert High(x, n) == 2 * h;
      assert (2 * h + y) / 2 == h + y / 2 && (2 * h + y) % 2 == y % 2;
      assert (2 * h) / 2 == h && (2 * h) % 2 == 0;
    }
  }

  lemma {:induction false} LowOfAllOnes(n: nat, width: nat)
    requires n <= width
    ensures Low(Pow2(width) - 1, n) == Pow2(n) - 1
  {
    if n > 0 {
      LowOfAllOnes(n - 1, width - 1);
      var h := Pow2(width - 1) - 1;
      assert (2 * h + 1) / 2 == h && (2 * h + 1) % 2 == 1;
    }
  }

  /** Numbers with the same bits above n agree on everything shifted further. */
  lemma {:induction false} ShiftIgnoresLow(x: nat, y: nat, n: nat, m: nat)
    requires n <= m && High(x, n) == High(y, n)
    ensures Shift(x, m) == Shift(y, m)
  {
    if n > 0 {
      assert High(x, n) == 2 * High(x / 2, n - 1) && High(y, n) == 2 * High(y / 2, n - 1);
      ShiftIgnoresLow(x / 2, y / 2, n - 1, m - 1);
    }
  }

  lemma {:induction false} ShiftIsDivision(x: nat, n: nat)
    ensures Shift(x, n) == x / Pow2(n)
  {
    if n == 0 {
      DivisionUnique(x, 1, x, 0);
    } else {
      ShiftIsDivision(x / 2, n - 1);
      var p := Pow2(n - 1);
      var q, r := (x / 2) / p, (x / 2) % p;
      assert x == (2 * p) * q + (2 * r + x % 2);
      DivisionUnique(x, 2 * p, q, 2 * r + x % 2);
    }
  }

  // ----- byte order -----

  /** x modulo 256^n as n bytes, least significant first. */
  function LittleEndian(x: nat, n: nat): (b: seq<Byte>)
    ensures |b| == n
  {
    if n == 0 then [] else [x % 256] + LittleEndian(x / 256, n - 1)
  }

  function ReadLittleEndian(b: seq<Byte>): nat {
    if b == [] then 0 else b[0] + 256 * ReadLittleEndian(b[1..])
  }

  /** x modulo 256^n as n bytes, most significant first. */
  function BigEndian(x: nat, n: nat): (b: seq<Byte>)
    ensures |b| == n
  {
    if n == 0 then [] else BigEndian(x / 256, n - 1) + [x % 256]
  }

  function ReadBigEndian(b: seq<Byte>): nat {
    if b == [] then 0 else 256 * ReadBigEndian(b[..|b| - 1]) + b[|b| - 1]
  }

  /** The numbers written with these bytes, most significant first. */
  function Two(a: int, b: int): int {
    0x100 * a + b
  }

  function Four(a: int, b: int, c: int, d: int): int {
    0x100_0000 * a + 0x1_0000 * b + 0x100 * c + d
  }

  lemma BigEndianTwo(b: seq<Byte>)
    requires |b| == 2
    ensures ReadBigEndian(b) == Two(b[0], b[1])
  {
    assert ReadBigEndian(b[..1]) == b[0];
  }

  lemma BigEndianFour(b: seq<Byte>)
    requires |b| == 4
    ensures ReadBigEndian(b) == Four(b[0], b[1], b[2], b[3])
  {
    BigEndianTwo(b[..2]);
    assert b[..3][..2] == b[..2];
  }

  lemma LittleEndianTwo(b: seq<Byte>)
    requires |b| >= 2
    ensures ReadLittleEndian(b) == Two(b[1], b[0]) + 0x1_0000 * ReadLittleEndian(b[2..])
  {
    assert b[1..][1..] == b[2..];
  }

  lemma LittleEndianEight(b: seq<Byte>)
    requires |b| == 8
    ensures ReadLittleEndian(b) == Four(b[7], b[6], b[5], b[4]) * 0x1_0000_0000 + Four(b[3], b[2], b[1], b[0])
  {
    LittleEndianTwo(b);
    LittleEndianTwo(b[2..]);
    LittleEndianTwo(b[4..]);
    LittleEndianTwo(b[6..]);
    assert b[2..][2..] == b[4..] && b[4..][2..] == b[6..] && b[6..][2..] == [];
  }

  lemma {:induction false} LittleEndianRoundTrip(x: nat, n: nat)
    requires x < Pow2(8 * n)
    ensures ReadLittleEndian(LittleEndian(x, n)) == x
  {
    if n > 0 {
      Pow2Times256(n - 1);
      LittleEndianRoundTrip(x / 256, n - 1);
    }
  }

  lemma {:induction false} BigEndianRoundTrip(x: nat, n: nat)
    requires x < Pow2(8 * n)
    ensures ReadBigEndian(BigEndian(x, n)) == x
  {
    if n > 0 {
      Pow2Times256(n - 1);
      BigEndianRoundTrip(x / 256, n - 1);
      assert BigEndian(x, n)[..n - 1] == BigEndian(x / 256, n - 1);
    }
  }

  /** Every byte string is the encoding of the number it reads as. */
  lemma {:induction false} LittleEndianOfRead(b: seq<Byte>)
    ensures LittleEndian(ReadLittleEndian(b), |b|) == b
  {
    if b != [] {
      LittleEndianOfRead(b[1..]);
      DivisionUnique(ReadLittleEndian(b), 256, ReadLittleEndian(b[1..]), b[0]);
    }
  }

  lemma {:induction false} ReadsFit(b: seq<Byte>)
    ensures ReadLittleEndian(b) < Pow2(8 * |b|)
    ensures ReadBigEndian(b) < Pow2(8 * |b|)
  {
    if b != [] {
      Pow2Times256(|b| - 1);
      ReadsFit(b[1..]);
      ReadsFit(b[..|b| - 1]);
    }
  }

  lemma Pow2Times256(n: nat)
    ensures Pow2(8 * (n + 1)) == 256 * Pow2(8 * n)
  {
    var k := 8 * n;
    assert Pow2(k + 2) == 4 * Pow2(k);
    assert Pow2(k + 4) == 4 * Pow2(k + 2);
    assert Pow2(k + 6) == 4 * Pow2(k + 4);
    assert Pow2(k + 8) == 4 * Pow2(k + 6);
  }

  // ----- division -----

  lemma DivisionUnique(x: int, d: int, q: int, r: int)
    requires d > 0 && 0 <= r < d && x == d * q + r
    ensures x / d == q && x % d == r
  {
    var k := x / d - q;
    assert d * k == r - x % d;
    assert k > 0 ==> d * k >= d;
    assert k < 0 ==> d * k <= -d;
  }

  lemma ModuloSuccessor(x: nat, d: nat)
    requires d > 0
    ensures (x + 1) % d == if x % d == d - 1 then 0 else x % d + 1
  {
    if x % d == d - 1 {
      DivisionUnique(x + 1, d, x / d + 1, 0);
    } else {
      DivisionUnique(x + 1, d, x / d, x % d + 1);
    }
  }
}
