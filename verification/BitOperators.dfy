/** The bit operators of the source on numbers, digit by digit, and what they come to where the codec uses them. */
module BitOperators {
  import opened Config
  import opened Tokens

  /** a & b */
  function And(a: nat, b: nat): nat {
    if a == 0 || b == 0 then 0 else (if a % 2 == 1 && b % 2 == 1 then 1 else 0) + 2 * And(a / 2, b / 2)
  }

  /** a | b */
  function Or(a: nat, b: nat): nat {
    if a == 0 then b
    else if b == 0 then a
    else (if a % 2 == 1 || b % 2 == 1 then 1 else 0) + 2 * Or(a / 2, b / 2)
  }

  /** Without a common bit, "or" is a sum. */
  lemma {:induction false} OrAdds(a: nat, b: nat)
    requires And(a, b) == 0
    ensures Or(a, b) == a + b
  {
    if a != 0 && b != 0 {
      OrAdds(a / 2, b / 2);
    }
  }

  lemma AndEven(a: nat, b: nat, c: nat)
    requires c == 2 * b
    ensures And(a, c) == 2 * And(a / 2, b)
  {
  }

  lemma AndFour(a: nat, b: nat, c: nat)
    requires c == 4 * b
    ensures And(a, c) == 4 * And(a / 4, b)
  {
    AndEven(a, 2 * b, c);
    AndEven(a / 2, b, 2 * b);
    assert a / 2 / 2 == a / 4;
  }

  lemma AndSixteen(a: nat, b: nat, c: nat)
    requires c == 16 * b
    ensures And(a, c) == 16 * And(a / 16, b)
  {
    AndFour(a, 4 * b, c);
    AndFour(a / 4, b, 4 * b);
    assert a / 4 / 4 == a / 16;
  }

  lemma And256(a: nat, b: nat, c: nat)
    requires c == 256 * b
    ensures And(a, c) == 256 * And(a / 256, b)
  {
    AndSixteen(a, 16 * b, c);
    AndSixteen(a / 16, b, 16 * b);
    assert a / 16 / 16 == a / 256;
  }

  lemma AtLeast(d: int, e: int)
    requires d >= 0
    ensures e >= 1 ==> d * e >= d
    ensures e <= -1 ==> d * e <= -d
  {
    if e >= 1 {
      assert d * (e - 1) >= 0;
    } else if e <= -1 {
      assert d * (-1 - e) >= 0;
    }
  }

  lemma RemainderIs(x: nat, d: nat, k: nat, m: nat)
    requires m < d && x == d * k + m
    ensures x % d == m
  {
    var q, r := x / d, x % d;
    assert x == d * q + r;
    AtLeast(d, q - k);
    assert d * (q - k) == d * q - d * k;
  }

  lemma HalfRemainder(a: nat, p: nat)
    requires p > 0
    ensures a % (2 * p) == a % 2 + 2 * (a / 2 % p)
  {
    var q := a / 2;
    assert a == (2 * p) * (q / p) + (a % 2 + 2 * (q % p)) by {
      assert q == p * (q / p) + q % p;
    }
    RemainderIs(a, 2 * p, q / p, a % 2 + 2 * (q % p));
  }

  /** A mask of n ones takes the remainder. */
  lemma {:induction false} AndOnes(a: nat, n: nat)
    ensures And(a, Pow2(n) - 1) == a % Pow2(n)
    decreases n
  {
    if n > 0 {
      AndOnes(a / 2, n - 1);
      HalfRemainder(a, Pow2(n - 1));
    }
  }

  /** A bit above all bits of v is clear in v. */
  lemma {:induction false} AndAbove(v: nat, n: nat)
    requires v < Pow2(n)
    ensures And(v, Pow2(n)) == 0
    decreases n
  {
    if n > 0 && v > 0 {
      AndAbove(v / 2, n - 1);
    }
  }

  // ----- the uses

  lemma Pow2s()
    ensures Pow2(1) == 2 && Pow2(4) == 16 && Pow2(12) == N
  {
    assert Pow2(2) == 4 && Pow2(3) == 8 && Pow2(5) == 32 && Pow2(6) == 64 && Pow2(7) == 128;
    assert Pow2(8) == 256 && Pow2(9) == 512 && Pow2(10) == 1024 && Pow2(11) == 2048;
  }

  /** a & (N - 1): going around the ring. */
  function Wrap(a: nat): (c: nat)
    ensures c == Cell(a) < N
  {
    Pow2s();
    AndOnes(a, 12);
    And(a, N - 1)
  }

  /** Setting the flag of unit n, which is clear, as are those above it. */
  function SetFlag(v: nat, ghost n: nat, mask: nat): (w: nat)
    requires v < Pow2(n) && mask == Pow2(n)
    ensures w == v + mask
  {
    AndAbove(v, n);
    OrAdds(v, mask);
    Or(v, mask)
  }

  /** (x & 0xf0) */
  function HighNibble(x: nat): (y: nat)
    ensures y == x / 16 % 16 * 16
  {
    Pow2s();
    AndSixteen(x, 15, 0xf0);
    AndOnes(x / 16, 4);
    And(x, 0xf0)
  }

  /** (x & 0x0f) */
  function LowNibble(x: nat): (y: nat)
    ensures y == x % 16
  {
    Pow2s();
    AndOnes(x, 4);
    And(x, 0x0f)
  }

  /** The second byte of a pair: ((position >> 4) & 0xf0) | length. */
  function PairByte(pos: nat, len: nat): (j: nat)
    requires pos < N && len < 16
    ensures j == pos / 256 * 16 + len
  {
    var high := HighNibble(pos / 16);
    AndSixteen(len, pos / 256, high);
    AndSwap(len, high);
    OrAdds(high, len);
    Or(high, len)
  }

  lemma {:induction false} AndSwap(a: nat, b: nat)
    ensures And(a, b) == And(b, a)
  {
    if a != 0 && b != 0 {
      AndSwap(a / 2, b / 2);
    }
  }

  /** A byte and a multiple of 256 have no common bit. */
  lemma ApartFrom(i: nat, b: nat, high: nat)
    requires i < 256 && high == 256 * b
    ensures And(i, high) == 0
  {
    And256(i, b, high);
  }

  lemma NibblesApart(i: nat, j: nat, high: nat)
    requires i < 256 && j < 256 && high == j / 16 % 16 * 16 * 16
    ensures Or(i, high) == i + j / 16 * 256
  {
    ApartFrom(i, j / 16, high);
    OrAdds(i, high);
  }

  /** The position of a pair: i | ((j & 0xf0) << 4). */
  function PairPosition(i: nat, j: nat): (pos: nat)
    requires i < 256 && j < 256
    ensures pos == i + j / 16 * 256
  {
    var high := HighNibble(j) * 16;
    NibblesApart(i, j, high);
    Or(i, high)
  }

  /** c | 0xff00: a flag byte with ones above it. */
  function Loaded(c: nat): (flags: nat)
    requires c < 256
    ensures flags == c + 0xff00
  {
    ApartFrom(c, 255, 0xff00);
    OrAdds(c, 0xff00);
    Or(c, 0xff00)
  }

  /** flags & 256 */
  function BitEight(flags: nat): (b: nat)
    ensures b == 0 <==> flags / 256 % 2 == 0
  {
    Pow2s();
    And256(flags, 1, 256);
    AndOnes(flags / 256, 1);
    And(flags, 256)
  }

  /** flags & 1 */
  function BitZero(flags: nat): (b: nat)
    ensures b == flags % 2
  {
    Pow2s();
    AndOnes(flags, 1);
    And(flags, 1)
  }
}
