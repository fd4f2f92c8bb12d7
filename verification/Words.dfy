// Unsigned 32-bit words: the bitwise operations the protocol code builds integers with.
module Words {

  const WORD := 0x1_0000_0000

  type Word = n: int | 0 <= n < 0x1_0000_0000

  function Pow2(k: nat): nat
    ensures Pow2(k) > 0
  {
    if k == 0 then 1 else 2 * Pow2(k - 1)
  }

  function Or(a: nat, b: nat): nat {
    if a == 0 then b else if b == 0 then a
    else (if a % 2 == 1 || b % 2 == 1 then 1 else 0) + 2 * Or(a / 2, b / 2)
  }

  lemma OrStep(a: nat, b: nat)
    ensures Or(a, b) == (if a % 2 == 1 || b % 2 == 1 then 1 else 0) + 2 * Or(a / 2, b / 2)
  {
  }

  lemma OrHalves(a: nat, x: nat, b: nat, y: nat)
    ensures Or(a + 2 * x, b + 2 * y)
         == (if a % 2 == 1 || b % 2 == 1 then 1 else 0) + 2 * Or(a / 2 + x, b / 2 + y)
  {
    OrStep(a + 2 * x, b + 2 * y);
    assert (a + 2 * x) / 2 == a / 2 + x && (b + 2 * y) / 2 == b / 2 + y;
    assert (a + 2 * x) % 2 == a % 2 && (b + 2 * y) % 2 == b % 2;
  }

  lemma Doubles(p: nat, x: nat)
    ensures (2 * p) * x == 2 * (p * x) && p * x >= 0
  {
  }

  // Or works on low and high bits separately.
  lemma {:induction false} OrSplits(k: nat, a0: nat, a1: nat, b0: nat, b1: nat)
    requires a0 < Pow2(k) && b0 < Pow2(k)
    ensures Or(a0 + Pow2(k) * a1, b0 + Pow2(k) * b1) == Or(a0, b0) + Pow2(k) * Or(a1, b1)
    ensures Or(a0, b0) < Pow2(k)
  {
    if k > 0 {
      var p, o := Pow2(k - 1), Or(a1, b1);
      OrSplits(k - 1, a0 / 2, a1, b0 / 2, b1);
      Doubles(p, a1);
      Doubles(p, b1);
      Doubles(p, o);
      OrStep(a0, b0);
      OrHalves(a0, p * a1, b0, p * b1);
    }
  }

  lemma {:induction false} OrOnes(k: nat, a: nat)
    requires a < Pow2(k)
    ensures Or(Pow2(k) - 1, a) == Or(a, Pow2(k) - 1) == Pow2(k) - 1
  {
    if k > 0 {
      OrOnes(k - 1, a / 2);
      OrStep(Pow2(k) - 1, a);
      OrStep(a, Pow2(k) - 1);
    }
  }

  // A word from its octets, least significant first.
  function FromOctets(b0: nat, b1: nat, b2: nat, b3: nat): nat {
    b0 + 0x100 * (b1 + 0x100 * (b2 + 0x100 * b3))
  }

  lemma OrOctets(a0: nat, a1: nat, a2: nat, a3: nat, b0: nat, b1: nat, b2: nat, b3: nat)
    requires a0 < 0x100 && a1 < 0x100 && a2 < 0x100
    requires b0 < 0x100 && b1 < 0x100 && b2 < 0x100
    ensures Or(FromOctets(a0, a1, a2, a3), FromOctets(b0, b1, b2, b3))
         == FromOctets(Or(a0, b0), Or(a1, b1), Or(a2, b2), Or(a3, b3))
  {
    OrLowOctet(a2, a3, b2, b3);
    OrLowOctet(a1, a2 + 0x100 * a3, b1, b2 + 0x100 * b3);
    OrLowOctet(a0, a1 + 0x100 * (a2 + 0x100 * a3), b0, b1 + 0x100 * (b2 + 0x100 * b3));
  }

  lemma OrLowOctet(a0: nat, a1: nat, b0: nat, b1: nat)
    requires a0 < 0x100 && b0 < 0x100
    ensures Or(a0 + 0x100 * a1, b0 + 0x100 * b1) == Or(a0, b0) + 0x100 * Or(a1, b1)
  {
    assert Pow2(8) == 0x100;
    OrSplits(8, a0, a1, b0, b1);
  }

  lemma Digits(b0: nat, b1: nat, b2: nat, b3: nat)
    requires b0 < 0x100 && b1 < 0x100 && b2 < 0x100
    ensures var n := FromOctets(b0, b1, b2, b3);
            && n % 0x100 == b0 && n / 0x100 % 0x100 == b1 && n / 0x1_0000 % 0x100 == b2 && n / 0x100_0000 == b3
            && n % 0x1_0000 == b0 + 0x100 * b1 && n % 0x100_0000 == b0 + 0x100 * b1 + 0x1_0000 * b2
  {
    var n := FromOctets(b0, b1, b2, b3);
    DivMod(n, 0x100, b1 + 0x100 * (b2 + 0x100 * b3), b0);
    DivMod(b1 + 0x100 * (b2 + 0x100 * b3), 0x100, b2 + 0x100 * b3, b1);
    DivMod(n, 0x1_0000, b2 + 0x100 * b3, b0 + 0x100 * b1);
    DivMod(b2 + 0x100 * b3, 0x100, b3, b2);
    DivMod(n, 0x100_0000, b3, b0 + 0x100 * b1 + 0x1_0000 * b2);
  }

  lemma DivMod(n: nat, d: nat, q: nat, r: nat)
    requires d == 0x100 || d == 0x1_0000 || d == 0x100_0000
    requires r < d && n == d * q + r
    ensures n / d == q && n % d == r
  {
    if d == 0x100 {
      assert n / 0x100 == q;
    } else if d == 0x1_0000 {
      assert n / 0x1_0000 == q;
    } else {
      assert n / 0x100_0000 == q;
    }
  }

  // Any word is made of its octets.
  lemma OctetsOf(n: Word)
    ensures n == FromOctets(n % 0x100, n / 0x100 % 0x100, n / 0x1_0000 % 0x100, n / 0x100_0000)
    ensures n / 0x100_0000 < 0x100
  {
    assert n / 0x1_0000 == n / 0x100 / 0x100;
    assert n / 0x100_0000 == n / 0x1_0000 / 0x100;
  }

  // The word whose first i octets are the given ones.
  function FirstOctets(o: seq<nat>, i: nat): nat
    requires |o| == 4 && i <= 4
  {
    FromOctets(if i > 0 then o[0] else 0, if i > 1 then o[1] else 0,
               if i > 2 then o[2] else 0, if i > 3 then o[3] else 0)
  }

  lemma OctetPowers(b: nat)
    ensures Pow2(0) == 1 && Pow2(8) == 0x100 && Pow2(16) == 0x1_0000 && Pow2(24) == 0x100_0000
    ensures b * Pow2(8) == FromOctets(0, b, 0, 0)
    ensures b * Pow2(16) == FromOctets(0, 0, b, 0)
    ensures b * Pow2(24) == FromOctets(0, 0, 0, b)
  {
    assert Pow2(8) == 0x100;
    assert Pow2(16) == 0x1_0000;
    assert Pow2(24) == 0x100_0000;
  }

  lemma OrNextOctet(o: seq<nat>, i: nat)
    requires |o| == 4 && i < 4 && forall b | b in o :: b < 0x100
    ensures Pow2(i * 8) == [1, 0x100, 0x1_0000, 0x100_0000][i]
    ensures Or(FirstOctets(o, i), o[i] * Pow2(i * 8)) == FirstOctets(o, i + 1)
  {
    assert o[0] in o && o[1] in o && o[2] in o && o[3] in o;
    OctetPowers(o[i]);
    match i
    case 0 =>
    case 1 => OrOctets(o[0], 0, 0, 0, 0, o[1], 0, 0);
    case 2 => OrOctets(o[0], o[1], 0, 0, 0, 0, o[2], 0);
    case _ => OrOctets(o[0], o[1], o[2], 0, 0, 0, 0, o[3]);
  }
}
