/**
  Amount compression (`CTxOutCompressor::CompressAmount` and `DecompressAmount` in
  src/compressor.cpp).  The machine arithmetic is modulo 2^64; `Packed` and `Unpacked`
  are the same formulas on natural numbers.
 */
module Compressor {

  const WORD: nat := 0x1_0000_0000_0000_0000

  /** m * 10^e. */
  function Scaled(m: nat, e: nat): nat {
    if e == 0 then m else 10 * Scaled(m, e - 1)
  }

  /** Divide out powers of ten, at most nine altogether. */
  function Factor(n: nat, e: nat): (r: (nat, nat))
    requires n > 0 && e <= 9
    ensures r.0 > 0 && e <= r.1 <= 9 && (r.1 < 9 ==> r.0 % 10 != 0)
    ensures Scaled(r.0, r.1 - e) == n
    decreases 9 - e
  {
    if n % 10 == 0 && e < 9 then Factor(n / 10, e + 1) else (n, e)
  }

  /** The code of m * 10^e. */
  function Code(m: nat, e: nat): nat
    requires m > 0 && e <= 9 && (e < 9 ==> m % 10 != 0)
  {
    if e < 9 then 1 + (m / 10 * 9 + m % 10 - 1) * 10 + e else 1 + (m - 1) * 10 + 9
  }

  ghost function Packed(n: nat): nat {
    if n == 0 then 0 else Code(Factor(n, 0).0, Factor(n, 0).1)
  }

  /** The mantissa and exponent a code stands for. */
  ghost function Decode(x: nat): (r: (nat, nat))
    requires x > 0
    ensures r.0 > 0 && r.1 <= 9 && (r.1 < 9 ==> r.0 % 10 != 0)
  {
    var y, e := (x - 1) / 10, (x - 1) % 10;
    (if e < 9 then y / 9 * 10 + (y % 9 + 1) else y + 1, e)
  }

  ghost function Unpacked(x: nat): nat {
    if x == 0 then 0 else Scaled(Decode(x).0, Decode(x).1)
  }

  // ----- The two formulas undo each other -----

  lemma DecodeCode(m: nat, e: nat)
    requires m > 0 && e <= 9 && (e < 9 ==> m % 10 != 0)
    ensures Code(m, e) > 0 && Decode(Code(m, e)) == (m, e)
  {
  }

  lemma CodeDecode(x: nat)
    requires x > 0
    ensures Code(Decode(x).0, Decode(x).1) == x
  {
  }

  lemma UnpackPacked(n: nat)
    ensures Unpacked(Packed(n)) == n
  {
    if n > 0 {
      var f := Factor(n, 0);
      DecodeCode(f.0, f.1);
    }
  }

  /** A mantissa without trailing zeros is what dividing out gives back. */
  lemma {:induction false} FactorScaled(m: nat, e: nat, f: nat)
    requires m > 0 && e + f <= 9 && (e + f < 9 ==> m % 10 != 0)
    ensures Scaled(m, e) > 0 && Factor(Scaled(m, e), f) == (m, e + f)
    decreases e
  {
    if e > 0 {
      FactorScaled(m, e - 1, f + 1);
      FactorTen(Scaled(m, e - 1), f);
    }
  }

  lemma FactorTen(n: nat, f: nat)
    requires n > 0 && f < 9
    ensures Factor(10 * n, f) == Factor(n, f + 1)
  {
    assert 10 * n % 10 == 0 && 10 * n / 10 == n;
  }

  lemma PackUnpacked(x: nat)
    ensures Packed(Unpacked(x)) == x
  {
    if x > 0 {
      var d := Decode(x);
      FactorScaled(d.0, d.1, 0);
      CodeDecode(x);
    }
  }

  // ----- The machine code -----

  method CompressAmount(amount: nat) returns (x: nat)
    requires amount < WORD
    ensures x == Packed(amount) % WORD
  {
    if amount == 0 {
      return 0;
    }
    var n, e := amount, 0;
    while n % 10 == 0 && e < 9
      invariant n > 0 && 0 <= e <= 9 && Factor(n, e) == Factor(amount, 0)
    {
      n := n / 10;
      e := e + 1;
    }
    if e < 9 {
      var d := n % 10;
      n := n / 10;
      x := (1 + (n * 9 + d - 1) * 10 + e) % WORD;
    } else {
      x := (1 + (n - 1) * 10 + 9) % WORD;
    }
  }

  method DecompressAmount(packed: nat) returns (n: nat)
    requires packed < WORD
    ensures n == Unpacked(packed) % WORD
  {
    if packed == 0 {
      return 0;
    }
    var x := packed - 1;
    var e := x % 10;
    x := x / 10;
    if e < 9 {
      var d := x % 9 + 1;
      x := x / 9;
      n := (x * 10 + d) % WORD;
    } else {
      n := (x + 1) % WORD;
    }
    n := ScaleUp(n, e, Decode(packed).0);
  }

  /** The loop of `DecompressAmount`, which multiplies by ten modulo 2^64. */
  method ScaleUp(start: nat, exponent: nat, ghost m: nat) returns (n: nat)
    requires start == m % WORD
    ensures n == Scaled(m, exponent) % WORD
  {
    n := start;
    ghost var i := 0;
    var e := exponent;
    while e > 0
      invariant 0 <= i && 0 <= e && i + e == exponent
      invariant n == Scaled(m, i) % WORD
    {
      TimesTenMod(Scaled(m, i), n);
      n := n * 10 % WORD;
      e := e - 1;
      i := i + 1;
    }
  }

  lemma TimesTenMod(v: nat, n: nat)
    requires n == v % WORD
    ensures n * 10 % WORD == 10 * v % WORD
  {
    var q := v / WORD;
    assert 10 * v == n * 10 + WORD * (10 * q);
  }

  lemma SmallMod(x: nat)
    requires x < WORD
    ensures x % WORD == x
  {
  }

  // ----- Where nothing wraps -----

  lemma {:induction false} ScaledGrows(m: nat, e: nat)
    ensures Scaled(m, e) >= m
  {
    if e > 0 {
      ScaledGrows(m, e - 1);
    }
  }

  /** The largest amount whose code fits whatever its last digit. */
  const LIMIT: nat := 2049638230412172402

  lemma {:induction false} ScaledTimes(m: nat, e: nat)
    ensures Scaled(m, e) == m * Scaled(1, e)
  {
    if e > 0 {
      ScaledTimes(m, e - 1);
    }
  }

  /** The code of an amount that ends in zero is smaller than the amount, give or take a digit. */
  lemma RoundFits(n: nat)
    requires 0 < n < WORD && n % 10 == 0
    ensures Packed(n) < WORD
  {
    var f := Factor(n / 10, 1);
    assert f == Factor(n, 0);
    ScaledGrows(f.0, f.1 - 1);
    assert Scaled(f.0, f.1) == n;
    assert 10 * f.0 <= n;
  }

  /** The code of an amount that does not end in zero. */
  lemma PlainCode(n: nat)
    requires n % 10 != 0
    ensures Packed(n) == 1 + Digits(n) * 10
  {
    assert Factor(n, 0) == (n, 0);
  }

  /** The number with a last digit of one to nine, counted in nines. */
  ghost function Digits(n: nat): (r: nat)
    requires n % 10 != 0
    ensures r / 9 == n / 10 && r % 9 == n % 10 - 1
  {
    n / 10 * 9 + n % 10 - 1
  }

  /** Taking 9a + b from the digits takes 10a + b, or one more, from the number. */
  lemma Gap(n: nat, a: nat, b: nat)
    requires n % 10 != 0 && b < 9 && Digits(n) >= 9 * a + b
    ensures var y := Digits(n) - (9 * a + b);
            var m := y / 9 * 10 + (y % 9 + 1);
            m + 10 * a + b == n || m + 10 * a + b + 1 == n
  {
    var y, r := Digits(n) - (9 * a + b), n % 10 - 1;
    if r >= b {
      Quotient(y, n / 10 - a, r - b);
    } else {
      Quotient(y, n / 10 - a - 1, r - b + 9);
    }
  }

  lemma Quotient(y: nat, q: int, r: int)
    requires y == 9 * q + r && 0 <= r < 9
    ensures y / 9 == q && y % 9 == r
  {
  }

  /** If u is the inverse of t - 1 modulo 2^64, t * (n - gap) is n modulo 2^64 for one n only. */
  lemma Forced(n: nat, gap: nat, t: nat, m: int, u: nat, v: nat, c: nat, z: nat)
    requires t > 0 && t * (n - gap) == n + m * WORD
    requires u * (t - 1) == 1 + v * WORD && u * (gap * t) == c + z * WORD && n < WORD && c < WORD
    ensures n == c
  {
    assert n * (t - 1) == gap * t + m * WORD;
    Inverse(n, t - 1, gap * t, m, u, v, c, z);
    var d := z + u * m - n * v;
    assert n - c == d * WORD;
  }

  lemma Inverse(n: nat, s: nat, g: nat, m: int, u: nat, v: nat, c: nat, z: nat)
    requires n * s == g + m * WORD && u * s == 1 + v * WORD && u * g == c + z * WORD
    ensures n - c == (z + u * m - n * v) * WORD
  {
    calc {
      n + n * v * WORD;
      n * (1 + v * WORD);
      n * (u * s);
      u * (n * s);
      u * (g + m * WORD);
      u * g + u * m * WORD;
      c + z * WORD + u * m * WORD;
    }
  }

  /** The code of `n` has wrapped `k` times. */
  ghost predicate WrapsTimes(n: nat, k: nat)
    requires n % 10 != 0
  {
    k * WORD <= 1 + Digits(n) * 10 < (k + 1) * WORD
  }

  lemma DecodeAt(x: int, y: nat, e: nat)
    requires x == 10 * y + e + 1 && e < 9
    ensures Decode(x) == (y / 9 * 10 + (y % 9 + 1), e)
  {
    assert (x - 1) / 10 == y;
  }

  /** A code that has wrapped `k` times stands for another amount, scaled by 10^e. */
  lemma DecodeWrapped(n: nat, k: nat, e: nat, a: nat, b: nat) returns (m: nat)
    requires n % 10 != 0 && WrapsTimes(n, k) && b < 9 && e < 9 && k * WORD + e == 10 * (9 * a + b)
    ensures m + 10 * a + b == n || m + 10 * a + b + 1 == n
    ensures Packed(n) > k * WORD && Decode(Packed(n) - k * WORD) == (m, e)
  {
    PlainCode(n);
    var y := Digits(n) - (9 * a + b);
    Gap(n, a, b);
    m := y / 9 * 10 + (y % 9 + 1);
    DecodeAt(Packed(n) - k * WORD, y, e);
  }

  /** The scaled amount can be the one it came from, modulo 2^64, only if that is `c`. */
  lemma NotScaled(n: nat, m: nat, gap: nat, t: nat, u: nat, v: nat, c: nat, z: nat)
    requires m + gap == n < WORD && t > 0 && c < WORD && n != c
    requires u * (t - 1) == 1 + v * WORD && u * (gap * t) == c + z * WORD
    ensures m * t % WORD != n
  {
    if m * t % WORD == n {
      Forced(n, gap, t, m * t / WORD, u, v, c, z);
    }
  }

  /** So it is lost if neither of the two candidates has a code that wraps `k` times. */
  lemma NotBack(n: nat, k: nat, e: nat, t: nat, a: nat, b: nat, u: nat, v: nat, c0: nat, z0: nat, c1: nat, z1: nat)
    requires n < WORD && n % 10 != 0 && WrapsTimes(n, k)
    requires b < 9 && e < 9 && k * WORD + e == 10 * (9 * a + b) && t == Scaled(1, e)
    requires t > 0 && u * (t - 1) == 1 + v * WORD && c0 < WORD && c1 < WORD
    requires u * ((10 * a + b) * t) == c0 + z0 * WORD && u * ((10 * a + b + 1) * t) == c1 + z1 * WORD
    requires c0 % 10 == 0 || !WrapsTimes(c0, k)
    requires c1 % 10 == 0 || !WrapsTimes(c1, k)
    ensures Unpacked(Packed(n) - k * WORD) % WORD != n
  {
    var m := DecodeWrapped(n, k, e, a, b);
    ScaledTimes(m, e);
    if m + 10 * a + b == n {
      NotScaled(n, m, 10 * a + b, t, u, v, c0, z0);
    } else {
      NotScaled(n, m, 10 * a + b + 1, t, u, v, c1, z1);
    }
  }

  lemma WrappedOnce(n: nat)
    requires n < WORD && n % 10 != 0 && WrapsTimes(n, 1)
    ensures Unpacked(Packed(n) - 1 * WORD) % WORD != n
  {
    Tens();
    NotBack(n, 1, 4, 10000, 204963823041217240, 2,
            13458245626333751279, 7295,
            15288550632769423584, 14953606251481945867176,
            10300052185393623248, 14953606251481945874472);
  }

  lemma WrappedTwice(n: nat)
    requires n < WORD && n % 10 != 0 && WrapsTimes(n, 2)
    ensures Unpacked(Packed(n) - 2 * WORD) % WORD != n
  {
    Tens();
    NotBack(n, 2, 8, 100000000, 409927646082434480, 4,
            300153063250403071, 1627133,
            14480868974329830400, 6670068072231179356278725,
            14781022037580233472, 6670068072231179357905858);
  }

  lemma WrappedThreeTimes(n: nat)
    requires n < WORD && n % 10 != 0 && WrapsTimes(n, 3)
    ensures Unpacked(Packed(n) - 3 * WORD) % WORD != n
  {
    Tens();
    NotBack(n, 3, 2, 100, 614891469123651720, 5,
            12670490878911611211, 68,
            1925417731599313468, 422349695963720373677,
            14595908610510924680, 422349695963720373745);
  }

  lemma WrappedFourTimes(n: nat)
    requires n < WORD && n % 10 != 0 && WrapsTimes(n, 4)
    ensures Unpacked(Packed(n) - 4 * WORD) % WORD != n
  {
    Tens();
    NotBack(n, 4, 6, 1000000, 819855292164868960, 7,
            1672254362768354751, 90653,
            14161661572577611840, 743224161230379889323260,
            15833915935345966592, 743224161230379889413913);
  }

  lemma WrappedSixTimes(n: nat)
    requires n < WORD && n % 10 != 0 && WrapsTimes(n, 6)
    ensures Unpacked(Packed(n) - 6 * WORD) % WORD != n
  {
    Tens();
    NotBack(n, 6, 4, 10000, 1229782938247303441, 1,
            13458245626333751279, 7295,
            4486081875444583760, 89721637508891675195765,
            17944327501778335040, 89721637508891675203060);
  }

  lemma WrappedSevenTimes(n: nat)
    requires n < WORD && n % 10 != 0 && WrapsTimes(n, 7)
    ensures Unpacked(Packed(n) - 7 * WORD) % WORD != n
  {
    Tens();
    NotBack(n, 7, 8, 100000000, 1434746761288520681, 3,
            300153063250403071, 1627133,
            4266028162630124288, 23345238252809127745348407,
            4566181225880527360, 23345238252809127746975540);
  }

  lemma WrappedEightTimes(n: nat)
    requires n < WORD && n % 10 != 0 && WrapsTimes(n, 8)
    ensures Unpacked(Packed(n) - 8 * WORD) % WORD != n
  {
    Tens();
    NotBack(n, 8, 2, 100, 1639710584329737921, 4,
            12670490878911611211, 68,
            7432526512302726184, 1126265855903254329851,
            1656273317504785780, 1126265855903254329920);
  }

  lemma Tens()
    ensures Scaled(1, 2) == 100 && Scaled(1, 4) == 10000 && Scaled(1, 6) == 1000000 && Scaled(1, 8) == 100000000
  {
    assert Scaled(1, 2) == 100;
    assert Scaled(1, 4) == 10000;
    assert Scaled(1, 6) == 1000000;
  }

  /** After five rounds the exponent is zero and the amount is simply smaller. */
  lemma WrappedFiveTimes(n: nat)
    requires n < WORD && n % 10 != 0 && WrapsTimes(n, 5)
    ensures Unpacked(Packed(n) - 5 * WORD) % WORD != n
  {
    PlainCode(n);
    var x := Packed(n) - 5 * WORD;
    assert x < Packed(n);
    assert (x - 1) % 10 == 0;
    assert Decode(x).1 == 0 && Unpacked(x) == Decode(x).0;
    PackUnpacked(x);
    UnpackPacked(n);
    assert Decode(x).0 <= x;
    SmallMod(Decode(x).0);
  }

  /** An amount above the limit that does not end in zero is lost. */
  lemma LostAbove(n: nat)
    requires LIMIT < n < WORD && n % 10 != 0
    ensures Unpacked(Packed(n) % WORD) % WORD != n
  {
    PlainCode(n);
    var p := Packed(n);
    var k := p / WORD;
    assert p % WORD == p - k * WORD;
    assert 1 <= k <= 8 && WrapsTimes(n, k);
    match k
    case 1 => WrappedOnce(n);
    case 2 => WrappedTwice(n);
    case 3 => WrappedThreeTimes(n);
    case 4 => WrappedFourTimes(n);
    case 5 => WrappedFiveTimes(n);
    case 6 => WrappedSixTimes(n);
    case 7 => WrappedSevenTimes(n);
    case 8 => WrappedEightTimes(n);
  }

  /** The code of an amount does not wrap exactly if it ends in zero or is at most the limit. */
  lemma FitsIff(n: nat)
    requires n < WORD
    ensures Packed(n) < WORD <==> n % 10 == 0 || n <= LIMIT
  {
    if n == 0 {
    } else if n % 10 == 0 {
      RoundFits(n);
    } else {
      PlainCode(n);
    }
  }

  /** Of all 64-bit amounts exactly those that end in zero and those up to the limit come back. */
  method AmountRoundTrip(amount: nat) returns (x: nat, back: nat)
    requires amount < WORD
    ensures back == amount <==> amount % 10 == 0 || amount <= LIMIT
    ensures amount % 10 == 0 || amount <= LIMIT ==> x == Packed(amount)
  {
    FitsIff(amount);
    x := CompressAmount(amount);
    back := DecompressAmount(x);
    if Packed(amount) < WORD {
      SmallMod(Packed(amount));
      SmallMod(amount);
      UnpackPacked(amount);
    } else {
      LostAbove(amount);
    }
  }

  /** Of all 64-bit codes exactly those whose amount fits come back. */
  method CodeRoundTrip(packed: nat) returns (amount: nat, back: nat)
    requires packed < WORD
    ensures back == packed <==> Unpacked(packed) < WORD
    ensures Unpacked(packed) < WORD ==> amount == Unpacked(packed)
  {
    amount := DecompressAmount(packed);
    back := CompressAmount(amount);
    SmallMod(packed);
    PackUnpacked(packed);
    if Unpacked(packed) < WORD {
      SmallMod(Unpacked(packed));
    } else {
      CodeLost(packed, amount);
    }
  }

  /** A code that came back would be that of a smaller amount. */
  lemma CodeLost(packed: nat, amount: nat)
    requires packed < WORD <= Unpacked(packed) && amount == Unpacked(packed) % WORD
    ensures Packed(amount) % WORD != packed
  {
    FitsIff(amount);
    UnpackPacked(amount);
    if Packed(amount) < WORD {
      SmallMod(Packed(amount));
    } else {
      LostAbove(amount);
    }
  }

  /** The largest amount the node admits is beyond that range: its code wraps and decodes to another amount. */
  lemma LargestAmountIsLost()
    ensures var amount := 0x7FFF_FFFF_FFFF_FFFF;
            var x := Packed(amount) % WORD;
            Packed(amount) >= WORD && Unpacked(x) % WORD != amount
  {
    var amount := 0x7FFF_FFFF_FFFF_FFFF;
    assert Factor(amount, 0) == (amount, 0);
    var x := Packed(amount) % WORD;
    assert x == 9223372036854775797;
    assert Decode(x) == (1024819115206086199, 6);
    assert Scaled(1024819115206086199, 3) == 1024819115206086199000;
    assert Unpacked(x) == 1024819115206086199000000;
  }
}
