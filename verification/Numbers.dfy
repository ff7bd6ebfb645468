/**
  Arithmetic shared by the number codecs: powers, positional notation, and the
  bitwise operators on natural numbers.
 */
module Numbers {

  function Pow(b: nat, e: nat): (p: nat)
    ensures b >= 1 ==> p >= 1
  {
    if e == 0 then 1 else MulPositive(b, Pow(b, e - 1)); b * Pow(b, e - 1)
  }

  lemma MulPositive(x: nat, y: nat)
    ensures x * y >= 0
    ensures x >= 1 && y >= 1 ==> x * y >= 1
  {
  }

  lemma MulMono(x: nat, y: nat, z: nat)
    requires x <= y
    ensures x * z <= y * z && z * x <= z * y
  {
  }

  lemma {:induction false} PowAdd(b: nat, x: nat, y: nat)
    ensures Pow(b, x + y) == Pow(b, x) * Pow(b, y)
    decreases x
  {
    if x > 0 {
      PowAdd(b, x - 1, y);
      calc {
        Pow(b, x + y);
        b * Pow(b, x - 1 + y);
        b * (Pow(b, x - 1) * Pow(b, y));
        { MulAssoc(b, Pow(b, x - 1), Pow(b, y)); }
        Pow(b, x) * Pow(b, y);
      }
    }
  }

  lemma MulAssoc(x: int, y: int, z: int)
    ensures x * (y * z) == (x * y) * z
  {
  }

  lemma MulDist(x: int, y: int, z: int)
    ensures x * (y + z) == x * y + x * z
    ensures (y + z) * x == y * x + z * x
  {
  }

  lemma {:induction false} PowMono(b: nat, x: nat, y: nat)
    requires b >= 1 && x <= y
    ensures Pow(b, x) <= Pow(b, y)
    decreases y - x
  {
    if x < y {
      PowMono(b, x, y - 1);
      MulMono(1, b, Pow(b, y - 1));
    }
  }

  lemma {:induction false} PowStrict(b: nat, x: nat, y: nat)
    requires b >= 2 && x < y
    ensures Pow(b, x) < Pow(b, y)
  {
    PowMono(b, x, y - 1);
    MulMono(2, b, Pow(b, y - 1));
  }

  lemma {:induction false} PowMul(b: nat, x: nat, y: nat)
    ensures Pow(b, x * y) == Pow(Pow(b, x), y)
    decreases y
  {
    if y > 0 {
      PowMul(b, x, y - 1);
      assert x * y == x + x * (y - 1);
      PowAdd(b, x, x * (y - 1));
    }
  }

  // ----- Division with remainder -----

  /** Quotient and remainder are determined by their defining equation. */
  lemma DivModUnique(x: nat, d: nat, q: nat, r: nat)
    requires d > 0 && x == q * d + r && r < d
    ensures x / d == q && x % d == r
  {
    var q', r' := x / d, x % d;
    assert x == q' * d + r';
    if q' < q {
      MulMono(q' + 1, q, d);
      MulDist(d, q', 1);
    } else if q < q' {
      MulMono(q + 1, q', d);
      MulDist(d, q, 1);
    }
  }

  /** Adding a multiple of the divisor. */
  lemma AddMultiple(x: nat, d: nat, k: nat)
    requires d > 0
    ensures (x + k * d) % d == x % d
    ensures (x + k * d) / d == x / d + k
  {
    MulDist(d, x / d, k);
    DivModUnique(x + k * d, d, x / d + k, x % d);
  }

  lemma ModAdd(a: nat, b: nat, m: nat)
    requires m > 0
    ensures (a % m + b) % m == (a + b) % m
  {
    AddMultiple(a % m + b, m, a / m);
  }

  lemma Divide(x: nat, d: nat) returns (q: nat, r: nat)
    requires d > 0
    ensures q == x / d && r < d && x == q * d + r
  {
    q, r := x / d, x % d;
  }

  lemma Nest(a: nat, b: nat, p: nat, r1: nat, r2: nat)
    requires r1 < a && r2 < b
    ensures (p * b + r2) * a + r1 == p * (a * b) + (r2 * a + r1)
    ensures r2 * a + r1 < a * b
  {
    MulDist(a, p * b, r2);
    MulAssoc(p, b, a);
    MulMono(r2 + 1, b, a);
    MulDist(a, r2, 1);
  }

  // ----- Positional notation, least significant digit first -----

  ghost function Val(s: seq<nat>, base: nat): nat {
    if s == [] then 0 else MulPositive(base, Val(s[1..], base)); s[0] + base * Val(s[1..], base)
  }

  ghost predicate Digits(s: seq<nat>, base: nat) {
    forall i :: 0 <= i < |s| ==> s[i] < base
  }

  /** Appending a most significant digit. */
  lemma {:induction false} ValSnoc(s: seq<nat>, x: nat, base: nat)
    ensures Val(s + [x], base) == Val(s, base) + x * Pow(base, |s|)
    decreases |s|
  {
    if s == [] {
      assert s + [x] == [x];
      assert [x][1..] == [];
    } else {
      ValSnoc(s[1..], x, base);
      assert (s + [x])[1..] == s[1..] + [x];
      var p := Pow(base, |s| - 1);
      MulDist(base, Val(s[1..], base), x * p);
      MulAssoc(base, x, p);
      MulAssoc(x, base, p);
    }
  }

  /** Splitting a number at a digit. */
  lemma {:induction false} ValSplit(s: seq<nat>, t: seq<nat>, base: nat)
    ensures Val(s + t, base) == Val(s, base) + Pow(base, |s|) * Val(t, base)
    decreases |s|
  {
    if s == [] {
      assert s + t == t;
    } else {
      ValSplit(s[1..], t, base);
      assert (s + t)[1..] == s[1..] + t;
      var p, v := Pow(base, |s| - 1), Val(t, base);
      MulDist(base, Val(s[1..], base), p * v);
      MulAssoc(base, p, v);
    }
  }

  lemma {:induction false} ValBound(s: seq<nat>, base: nat)
    requires base >= 1 && Digits(s, base)
    ensures Val(s, base) < Pow(base, |s|)
    decreases |s|
  {
    if s != [] {
      ValBound(s[1..], base);
      var v, p := Val(s[1..], base), Pow(base, |s| - 1);
      MulMono(v + 1, p, base);
      MulDist(base, v, 1);
    }
  }

  lemma {:induction false} ValZeros(s: seq<nat>, base: nat)
    requires forall i :: 0 <= i < |s| ==> s[i] == 0
    ensures Val(s, base) == 0
    decreases |s|
  {
    if s != [] {
      ValZeros(s[1..], base);
    }
  }

  // ----- Positional notation, most significant digit first -----

  ghost function Big(s: seq<nat>, base: nat): nat {
    if s == [] then 0 else MulPositive(Big(s[..|s| - 1], base), base); Big(s[..|s| - 1], base) * base + s[|s| - 1]
  }

  lemma BigSnoc(s: seq<nat>, x: nat, base: nat)
    ensures Big(s + [x], base) == Big(s, base) * base + x
  {
    assert (s + [x])[..|s|] == s;
  }

  lemma {:induction false} BigCons(x: nat, t: seq<nat>, base: nat)
    ensures Big([x] + t, base) == x * Pow(base, |t|) + Big(t, base)
    decreases |t|
  {
    if t == [] {
      assert [x] + t == [] + [x];
      BigSnoc([], x, base);
    } else {
      var u, y := t[..|t| - 1], t[|t| - 1];
      BigCons(x, u, base);
      assert [x] + t == ([x] + u) + [y];
      BigSnoc([x] + u, y, base);
      BigConsStep(x, Pow(base, |u|), Big(u, base), base);
    }
  }

  lemma BigConsStep(x: int, p: int, v: int, base: int)
    ensures (x * p + v) * base == x * (base * p) + v * base
  {
  }

  /** Leading zeros do not count. */
  lemma {:induction false} BigZeros(z: seq<nat>, t: seq<nat>, base: nat)
    requires forall i :: 0 <= i < |z| ==> z[i] == 0
    ensures Big(z + t, base) == Big(t, base)
    decreases |z|
  {
    if z == [] {
      assert z + t == t;
    } else {
      BigZeros(z[1..], t, base);
      assert z + t == [0] + (z[1..] + t);
      BigCons(0, z[1..] + t, base);
    }
  }

  lemma {:induction false} BigBound(s: seq<nat>, base: nat)
    requires base >= 1 && Digits(s, base)
    ensures Big(s, base) < Pow(base, |s|)
    decreases |s|
  {
    if s != [] {
      BigBound(s[..|s| - 1], base);
      var v, p := Big(s[..|s| - 1], base), Pow(base, |s| - 1);
      MulMono(v + 1, p, base);
      MulDist(base, v, 1);
    }
  }

  lemma LastDigit(s: seq<nat>, base: nat)
    requires base >= 1 && s != [] && Digits(s, base)
    ensures Big(s, base) / base == Big(s[..|s| - 1], base) && Big(s, base) % base == s[|s| - 1]
  {
    DivModUnique(Big(s, base), base, Big(s[..|s| - 1], base), s[|s| - 1]);
  }

  /** Numbers without leading zeros that agree in value agree in every digit. */
  lemma {:induction false} BigUnique(s: seq<nat>, t: seq<nat>, base: nat)
    requires base >= 1 && Digits(s, base) && Digits(t, base)
    requires (s != [] ==> s[0] != 0) && (t != [] ==> t[0] != 0)
    requires Big(s, base) == Big(t, base)
    ensures s == t
    decreases |s|
  {
    if s == [] || t == [] {
      if s != [] {
        BigPositive(s, base);
      } else if t != [] {
        BigPositive(t, base);
      }
    } else {
      var u, v := s[..|s| - 1], t[..|t| - 1];
      LastDigit(s, base);
      LastDigit(t, base);
      BigUnique(u, v, base);
      assert s == u + [s[|s| - 1]] && t == v + [t[|t| - 1]];
    }
  }

  lemma BigPositive(s: seq<nat>, base: nat)
    requires base >= 1 && s != [] && s[0] != 0
    ensures Big(s, base) > 0
  {
    assert s == [s[0]] + s[1..];
    BigCons(s[0], s[1..], base);
    MulPositive(s[0], Pow(base, |s| - 1));
  }

  /** A hash of 32 bytes; nothing else about it matters to the codecs. */
  ghost predicate IsHash(hash: seq<nat> -> seq<nat>) {
    forall v :: |hash(v)| == 32 && Digits(hash(v), 256)
  }

  // ----- Bits -----

  /** The right shift. */
  function Shr(x: nat, s: nat): nat
    decreases s
  {
    if s == 0 then x else Shr(x / 2, s - 1)
  }

  /** The low `s` bits, those a right shift drops. */
  function Low(x: nat, s: nat): nat
    decreases s
  {
    if s == 0 then 0 else x % 2 + 2 * Low(x / 2, s - 1)
  }

  /** A right shift is division by a power of two, and the low bits are the remainder. */
  lemma {:induction false} ShrLow(x: nat, s: nat)
    ensures x == Shr(x, s) * Pow(2, s) + Low(x, s) && Low(x, s) < Pow(2, s) && Shr(x, s) <= x
    decreases s
  {
    if s > 0 {
      ShrLow(x / 2, s - 1);
      ShrStep(x, x / 2, x % 2, Shr(x, s), Pow(2, s - 1), Low(x / 2, s - 1));
    }
  }

  lemma ShrStep(x: int, half: int, bit: int, q: int, p: int, low: int)
    requires x == 2 * half + bit && half == q * p + low
    ensures x == q * (2 * p) + (bit + 2 * low)
  {
  }

  /** Bit `i` of `x`. */
  predicate Bit(x: nat, i: nat) {
    Shr(x, i) % 2 == 1
  }

  /** The bitwise or. */
  function Or(x: nat, y: nat): nat
    decreases x + y
  {
    if x == 0 && y == 0 then 0
    else 2 * Or(x / 2, y / 2) + (if x % 2 == 1 || y % 2 == 1 then 1 else 0)
  }

  lemma {:induction false} OrZero(y: nat)
    ensures Or(0, y) == y
    decreases y
  {
    if y > 0 {
      OrZero(y / 2);
    }
  }

  lemma {:induction false} OrCommutes(x: nat, y: nat)
    ensures Or(x, y) == Or(y, x)
    decreases x + y
  {
    if x != 0 || y != 0 {
      OrCommutes(x / 2, y / 2);
    }
  }

  /** Where no bit is set in both, the bitwise or is the sum. */
  lemma {:induction false} OrIsSum(x: nat, h: nat, s: nat)
    requires x < Pow(2, s) && Low(h, s) == 0
    ensures Or(x, h) == x + h
    decreases s
  {
    if s == 0 {
      OrZero(h);
    } else {
      OrIsSum(x / 2, h / 2, s - 1);
    }
  }

  /** Bits above both operands pass through the bitwise or. */
  lemma {:induction false} OrAbove(x: nat, y: nat, h: nat, s: nat)
    requires x < Pow(2, s) && y < Pow(2, s) && Low(h, s) == 0
    ensures Or(x + h, y) == Or(x, y) + h
    decreases s
  {
    if s == 0 {
      OrZero(h);
      OrCommutes(h, 0);
    } else {
      OrAbove(x / 2, y / 2, h / 2, s - 1);
      assert (x + h) / 2 == x / 2 + h / 2 && (x + h) % 2 == x % 2;
    }
  }

  lemma Doubled(k: nat, p: nat)
    ensures 0 <= k * p && k * (2 * p) == 2 * (k * p)
  {
  }

  /** A multiple of a power of two has no low bits. */
  lemma {:induction false} LowMultiple(k: nat, s: nat)
    ensures 0 <= k * Pow(2, s) && Low(k * Pow(2, s), s) == 0
    decreases s
  {
    if s > 0 {
      LowMultiple(k, s - 1);
      Doubled(k, Pow(2, s - 1));
    } else {
      assert Pow(2, 0) == 1;
    }
  }
}
