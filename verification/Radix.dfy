/** Positional numbers, most significant digit first. */
module Radix {

  function Pow(b: nat, n: nat): nat {
    if n == 0 then 1 else b * Pow(b, n - 1)
  }

  predicate Digits(b: nat, s: seq<nat>) {
    forall i :: 0 <= i < |s| ==> s[i] < b
  }

  function Value(b: nat, s: seq<nat>): nat {
    if s == [] then 0 else b * Value(b, s[..|s| - 1]) + s[|s| - 1]
  }

  /** The digits of `n` without a leading zero. */
  function Minimal(b: nat, n: nat): (r: seq<nat>)
    requires b >= 2
    ensures Digits(b, r)
    ensures r != [] ==> r[0] != 0
    ensures r == [] <==> n == 0
    decreases n
  {
    if n == 0 then [] else
      DivSmaller(n, b);
      Minimal(b, n / b) + [n % b]
  }

  lemma DivSmaller(n: nat, b: nat)
    requires n > 0 && b >= 2
    ensures n / b < n
  {}

  lemma DivModParts(n: nat, b: nat)
    requires b >= 1
    ensures n == b * (n / b) + n % b && n % b < b
  {}

  lemma DivModUnique(b: nat, q: nat, r: nat)
    requires r < b
    ensures (b * q + r) / b == q && (b * q + r) % b == r
  {
    var n := b * q + r;
    DivModParts(n, b);
    MulOrder(b, q, n / b);
    MulOrder(b, n / b, q);
  }

  lemma MulSum(b: nat, x: nat, y: nat)
    ensures b * (x + y) == b * x + b * y
    ensures b * y >= 0
  {}

  /** Dividing in two steps. */
  lemma DivDiv(n: nat, a: nat, b: nat)
    requires a >= 1 && b >= 1
    ensures a * b >= 1 && n / a / b == n / (a * b)
  {
    var q, x, y := n / a / b, n % a, n / a % b;
    DivModParts(n, a);
    DivModParts(n / a, b);
    MulMonotone(1, a, 1, b);
    MulSum(a, b * q, y);
    MulAssociate(a, b, q);
    MulSum(a, y, b - y);
    MulMonotone(a, a, 1, b - y);
    DivModUnique(a * b, q, a * y + x);
  }

  /** Whole multiples of the modulus do not count. */
  lemma ModMultiple(m: nat, k: nat, x: nat)
    requires m >= 1
    ensures (m * k + x) % m == x % m
  {
    DivModParts(x, m);
    MulSum(m, k, x / m);
    DivModUnique(m, k + x / m, x % m);
  }

  /** A factor may be reduced before it is multiplied. */
  lemma ModFactor(m: nat, a: nat, b: nat, c: nat)
    requires m >= 1
    ensures (a % m * b + c) % m == (a * b + c) % m
  {
    var q, r := a / m, a % m;
    DivModParts(a, m);
    assert a * b == m * (q * b) + r * b by {
      MulAssociate(m, q, b);
      MulSum(b, m * q, r);
    }
    ModMultiple(m, q * b, r * b + c);
  }

  lemma NextMultiple(a: nat, b: nat)
    requires b >= 1 && a % b == 0
    ensures (a + b) % b == 0
  {
    var q := a / b;
    MulSum(b, q, 1);
    DivModUnique(b, q + 1, 0);
  }

  lemma MulMonotone(x: nat, y: nat, m: nat, n: nat)
    requires x <= y && m <= n
    ensures x * m <= y * n
  {
    MulSum(m, x, y - x);
    MulSum(y, m, n - m);
  }

  /** Quotients that differ are at least one divisor apart. */
  lemma MulOrder(b: nat, x: nat, y: nat)
    ensures x < y ==> b * x + b <= b * y
  {
    if x < y {
      MulSum(b, x, y - x);
      MulSum(b, 1, y - x - 1);
    }
  }

  lemma {:induction false} ValuePositive(b: nat, s: seq<nat>)
    requires b >= 1 && s != [] && s[0] != 0
    ensures Value(b, s) > 0
  {
    if |s| > 1 {
      ValuePositive(b, s[..|s| - 1]);
    }
  }

  /** Digits without a leading zero are the minimal digits of their value. */
  lemma {:induction false} MinimalOfValue(b: nat, s: seq<nat>)
    requires b >= 2 && Digits(b, s) && (s == [] || s[0] != 0)
    ensures Minimal(b, Value(b, s)) == s
  {
    if s != [] {
      var init, last := s[..|s| - 1], s[|s| - 1];
      DivModUnique(b, Value(b, init), last);
      ValuePositive(b, s);
      MinimalOfValue(b, init);
    }
  }

  lemma PowNext(b: nat, n: nat)
    ensures Pow(b, n + 1) == b * Pow(b, n) && Pow(b, 0) == 1
  {}

  lemma MulAssociate(a: nat, b: nat, c: nat)
    ensures a * (b * c) == a * b * c
    ensures a * (b * c) == b * (a * c)
  {}

  lemma {:induction false} PowAdd(b: nat, m: nat, n: nat)
    ensures Pow(b, m + n) == Pow(b, m) * Pow(b, n)
  {
    hide Pow;
    if m == 0 {
      PowNext(b, 0);
    } else {
      PowAdd(b, m - 1, n);
      PowNext(b, m - 1);
      PowNext(b, m - 1 + n);
      MulAssociate(b, Pow(b, m - 1), Pow(b, n));
    }
  }

  lemma ValueAppend(b: nat, s: seq<nat>, d: nat)
    ensures Value(b, s + [d]) == b * Value(b, s) + d
  {
    assert (s + [d])[..|s|] == s;
  }

  lemma {:induction false} ValueConcat(b: nat, x: seq<nat>, y: seq<nat>)
    ensures Value(b, x + y) == Value(b, x) * Pow(b, |y|) + Value(b, y)
  {
    hide Value, Pow;
    if y == [] {
      ValueOfNothing(b);
      PowNext(b, 0);
      assert x + y == x;
    } else {
      var init, last := y[..|y| - 1], y[|y| - 1];
      assert y == init + [last] && x + y == x + init + [last];
      ValueAppend(b, init, last);
      ValueAppend(b, x + init, last);
      ValueConcat(b, x, init);
      PowNext(b, |init|);
      var v, p, w := Value(b, x), Pow(b, |init|), Value(b, init);
      MulSum(b, v * p, w);
      MulAssociate(b, v, p);
    }
  }

  lemma MinimalNext(b: nat, n: nat)
    requires b >= 2 && n > 0
    ensures Minimal(b, n) == Minimal(b, n / b) + [n % b]
  {}

  lemma {:induction false} ValueOfMinimal(b: nat, n: nat)
    requires b >= 2
    ensures Value(b, Minimal(b, n)) == n
    decreases n
  {
    hide Value, Minimal;
    if n == 0 {
      ValueOfNothing(b);
    } else {
      DivSmaller(n, b);
      ValueOfMinimal(b, n / b);
      MinimalNext(b, n);
      ValueAppend(b, Minimal(b, n / b), n % b);
    }
  }

  lemma ValueOfNothing(b: nat)
    ensures Value(b, []) == 0
  {}

  lemma ValuePrepend(b: nat, d: nat, s: seq<nat>)
    ensures Value(b, [d] + s) == d * Pow(b, |s|) + Value(b, s)
  {
    ValueAppend(b, [], d);
    assert [] + [d] == [d];
    ValueConcat(b, [d], s);
  }

  lemma {:induction false} ValueBound(b: nat, s: seq<nat>)
    requires b >= 1 && Digits(b, s)
    ensures Value(b, s) < Pow(b, |s|)
  {
    if s != [] {
      var init := s[..|s| - 1];
      ValueBound(b, init);
      MulOrder(b, Value(b, init), Pow(b, |init|));
    }
  }

  lemma {:induction false} PowMonotone(b: nat, m: nat, n: nat)
    requires b >= 1 && m <= n
    ensures 1 <= Pow(b, m) <= Pow(b, n)
    decreases n
  {
    if m < n {
      PowMonotone(b, m, n - 1);
      MulMonotone(1, b, Pow(b, n - 1), Pow(b, n - 1));
    } else if n > 0 {
      PowMonotone(b, n - 1, n - 1);
      MulMonotone(1, b, 1, Pow(b, n - 1));
    }
  }

  lemma {:induction false} ValueOfZeros(b: nat, s: seq<nat>)
    requires forall i :: 0 <= i < |s| ==> s[i] == 0
    ensures Value(b, s) == 0
  {
    if s != [] {
      ValueOfZeros(b, s[..|s| - 1]);
    }
  }

  lemma ValueSkipsZeros(b: nat, zeros: seq<nat>, s: seq<nat>)
    requires forall i :: 0 <= i < |zeros| ==> zeros[i] == 0
    ensures Value(b, zeros + s) == Value(b, s)
  {
    ValueConcat(b, zeros, s);
    ValueOfZeros(b, zeros);
  }

  /** A larger number never has fewer digits. */
  lemma {:induction false} MinimalLengthMonotone(b: nat, m: nat, n: nat)
    requires b >= 2 && m <= n
    ensures |Minimal(b, m)| <= |Minimal(b, n)|
    decreases m
  {
    if m > 0 {
      DivSmaller(m, b);
      assert m / b <= n / b by {
        MulOrder(b, n / b, m / b);
        DivModParts(m, b);
        DivModParts(n, b);
      }
      MinimalLengthMonotone(b, m / b, n / b);
    }
  }

  // ----- 58 against 256

  lemma {:induction false} PowOrder(x: nat, y: nat, m: nat)
    requires x <= y
    ensures Pow(x, m) <= Pow(y, m)
  {
    if m > 0 {
      PowOrder(x, y, m - 1);
      MulMonotone(x, y, Pow(x, m - 1), Pow(y, m - 1));
    }
  }

  lemma {:induction false} PowPow(b: nat, m: nat, n: nat)
    ensures Pow(Pow(b, m), n) == Pow(b, m * n)
    decreases n
  {
    if n > 0 {
      PowPow(b, m, n - 1);
      PowAdd(b, m, m * (n - 1));
      assert m + m * (n - 1) == m * n;
    } else {
      assert m * n == 0;
    }
  }

  lemma Pow58By4()
    ensures Pow(58, 4) <= Pow(256, 3)
  {
    assert Pow(58, 2) == 3364;
    PowAdd(58, 2, 2);
    assert Pow(256, 2) == 65536;
  }

  lemma Pow58Fifteen()
    ensures Pow(58, 15) == 0xe9e506734501d8f23a8000 && Pow(58, 11) == 0x15ac264554f032800
  {
    assert Pow(58, 3) == 195112;
    PowAdd(58, 3, 3);
    assert Pow(58, 6) == 0x8dd122640;
    PowAdd(58, 6, 3);
    assert Pow(58, 9) == 0x1a636a90b07a00;
    assert Pow(58, 2) == 3364;
    PowAdd(58, 9, 2);
    assert Pow(58, 11) == 0x15ac264554f032800;
    PowAdd(58, 9, 6);
    assert Pow(58, 15) == 0xe9e506734501d8f23a8000;
  }

  lemma Pow256Eleven()
    ensures Pow(256, 11) == 0x10000000000000000000000 && Pow(256, 13) == 0x100000000000000000000000000
  {
    assert Pow(256, 2) == 65536;
    PowAdd(256, 2, 2);
    assert Pow(256, 4) == 0x100000000;
    PowAdd(256, 4, 4);
    assert Pow(256, 8) == 0x10000000000000000;
    PowAdd(256, 8, 2);
    assert Pow(256, 10) == 0x100000000000000000000;
    assert Pow(256, 1) == 256;
    PowAdd(256, 10, 1);
    assert Pow(256, 11) == 0x10000000000000000000000;
    PowAdd(256, 11, 2);
    assert Pow(256, 13) == 0x100000000000000000000000000;
  }

  lemma Pow58By15()
    ensures Pow(58, 15) <= Pow(256, 11)
  {
    Pow58Fifteen();
    Pow256Eleven();
  }

  lemma Pow58By71()
    ensures Pow(58, 71) <= Pow(256, 52)
  {
    Pow58Fifteen();
    PowAdd(58, 15, 15);
    assert Pow(58, 30) == 0xd5b2b2a25e006d5a3847ec548c471ceaa75e40000000;
    PowAdd(58, 30, 30);
    assert Pow(58, 60) == 0xb262d9ff16dda043e63e200b06b8dc5e14406f095643492c1d008c3cd05617fa83b91a331000000000000000;
    PowAdd(58, 60, 11);
    assert Pow(58, 71) == 0xf1a10f76073f997e1af0b37f5c795ecf145633452837a5de3fa17ac74b86f60a0ebe5446f358940a4ca12a800000000000000000;
    Pow256Eleven();
    PowAdd(256, 13, 13);
    assert Pow(256, 26) == 0x10000000000000000000000000000000000000000000000000000;
    PowAdd(256, 26, 26);
    assert Pow(256, 52) == 0x100000000000000000000000000000000000000000000000000000000000000000000000000000000000000000000000000000000;
  }

  /** If `k` base-58 digits fit in `n` base-256 digits, so do their `q`-fold multiples. */
  lemma PowBlocks(k: nat, n: nat, q: nat, rest: nat, restSize: nat)
    requires Pow(58, k) <= Pow(256, n) && Pow(58, rest) <= Pow(256, restSize)
    ensures Pow(58, k * q + rest) <= Pow(256, n * q + restSize)
  {
    PowOrder(Pow(58, k), Pow(256, n), q);
    PowPow(58, k, q);
    PowPow(256, n, q);
    PowAdd(58, k * q, rest);
    PowAdd(256, n * q, restSize);
    MulMonotone(Pow(58, k * q), Pow(256, n * q), Pow(58, rest), Pow(256, restSize));
  }

  /** The buffer of `733 * m / 1000 + 1` bytes holds every number of `m` base-58 digits. */
  lemma BufferFits(m: nat)
    ensures Pow(58, m) <= Pow(256, 733 * m / 1000 + 1)
  {
    hide Pow;
    var q, r := m / 71, m % 71;
    var a, c := r / 15, r % 15;
    var x, y := c / 4, c % 4;
    PowOrder(58, 256, y);
    Pow58By4();
    PowBlocks(4, 3, x, y, y);
    Pow58By15();
    PowBlocks(15, 11, a, c, 3 * x + y);
    Pow58By71();
    PowBlocks(71, 52, q, r, 11 * a + (3 * x + y));
    BlockSizes(q, a, x, y);
    PowMonotone(256, 52 * q + (11 * a + (3 * x + y)), 733 * m / 1000 + 1);
  }

  lemma BlockSizes(q: nat, a: nat, x: nat, y: nat)
    requires a <= 4 && x <= 3 && y <= 3 && 4 * x + y < 15
    ensures 52 * q + (11 * a + (3 * x + y)) <= 733 * (71 * q + 15 * a + 4 * x + y) / 1000 + 1
  {}
}
