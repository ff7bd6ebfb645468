/**
  Big unsigned integers as arrays of 32-bit limbs (src/arith_uint256.h,
  src/arith_uint256.cpp), for any number of limbs.  Every operation works on the
  limbs in place, as in the source, and is proved to compute with the number they
  stand for, modulo a power of two.
 */
module Arith {
  import opened Numbers

  const BASE: nat := 0x1_0000_0000

  // ----- Lemmas on limbs -----

  lemma ValTake(s: seq<nat>, i: nat)
    requires i < |s|
    ensures Val(s[..i + 1], BASE) == Val(s[..i], BASE) + s[i] * Pow(BASE, i)
  {
    assert s[..i + 1] == s[..i] + [s[i]];
    ValSnoc(s[..i], s[i], BASE);
  }

  /** Writing a word as a low limb and a carry. */
  lemma CarryStep(v: int, p: int, n: int, low: int, high: int)
    requires n == low + BASE * high
    ensures v + low * p + high * (BASE * p) == v + n * p
  {
    MulDist(p, low, BASE * high);
    MulAssoc(high, BASE, p);
  }

  /** A number that differs from a limb array by a carry out of the top. */
  lemma DropCarry(s: seq<nat>, carry: nat, x: nat)
    requires Digits(s, BASE)
    requires Val(s, BASE) + carry * Pow(BASE, |s|) == x
    ensures Val(s, BASE) == x % Pow(BASE, |s|)
  {
    ValBound(s, BASE);
    DivModUnique(x, Pow(BASE, |s|), carry, Val(s, BASE));
  }

  lemma LimbWidth()
    ensures Pow(2, 32) == BASE
  {
    assert Pow(2, 8) == 256;
    PowAdd(2, 8, 8);
    PowAdd(2, 16, 16);
  }

  /** A limb of the base is 32 bits. */
  lemma LimbBits(k: nat, s: nat)
    ensures Pow(2, 32 * k + s) == Pow(BASE, k) * Pow(2, s)
  {
    LimbWidth();
    PowMul(2, 32, k);
    PowAdd(2, 32 * k, s);
  }

  lemma LimbBounds(x: nat, s: nat, u: nat)
    requires x < BASE && s + u == 32
    ensures Pow(2, s) * Pow(2, u) == BASE
    ensures Shr(x, u) < Pow(2, s) && Low(x, u) < Pow(2, u)
  {
    LimbSplit(x, s, u);
  }

  /** A limb shifted left splits into the part that stays and the part that moves on. */
  lemma LimbSplit(x: nat, s: nat, u: nat)
    requires x < BASE && s + u == 32
    ensures Pow(2, s) * Pow(2, u) == BASE
    ensures Shr(x, u) < Pow(2, s) && Low(x, u) < Pow(2, u)
    ensures (x * Pow(2, s)) % BASE == Low(x, u) * Pow(2, s)
    ensures x * Pow(2, s) == Low(x, u) * Pow(2, s) + BASE * Shr(x, u)
  {
    LimbWidth();
    PowAdd(2, s, u);
    ShrLow(x, u);
    SplitAt(x, Pow(2, s), Pow(2, u), Shr(x, u), Low(x, u));
  }

  /** Joining the low bits of one limb, shifted up, with the high bits of its neighbour. */
  lemma LimbJoin(c: nat, x: nat, s: nat, u: nat)
    requires x < BASE && s + u == 32 && c < Pow(2, s)
    ensures Or(c, (x * Pow(2, s)) % BASE) == c + Low(x, u) * Pow(2, s) < BASE
  {
    LimbSplit(x, s, u);
    LowMultiple(Low(x, u), s);
    OrIsSum(c, Low(x, u) * Pow(2, s), s);
    JoinFits(c, Low(x, u), Pow(2, s), Pow(2, u));
  }

  lemma JoinFits(c: nat, lo: nat, h: nat, l: nat)
    requires c < h && lo < l && h * l == BASE
    ensures c + lo * h < BASE
  {
    MulMono(lo + 1, l, h);
    MulDist(h, lo, 1);
  }

  lemma SplitAt(x: nat, h: nat, l: nat, q: nat, r: nat)
    requires h >= 1 && l >= 1 && h * l == BASE && x < BASE && x == q * l + r && r < l
    ensures q < h
    ensures (x * h) % BASE == r * h
    ensures x * h == r * h + BASE * q
  {
    if q >= h {
      MulMono(h, q, l);
    }
    MulDist(h, q * l, r);
    MulAssoc(q, l, h);
    MulMono(r + 1, l, h);
    MulDist(h, r, 1);
    DivModUnique(x * h, BASE, q, r * h);
  }

  class BaseUint {
    const pn: array<nat>

    ghost predicate Valid()
      reads pn
    {
      pn.Length >= 1 && Digits(pn[..], BASE)
    }

    ghost function Value(): (v: nat)
      reads pn
    {
      Val(pn[..], BASE)
    }

    /** 2 to the power of the width in bits. */
    ghost function Modulus(): (m: nat) {
      Pow(BASE, pn.Length)
    }

    constructor (width: nat)
      requires width >= 1
      ensures Valid() && fresh(pn) && pn.Length == width && Value() == 0
    {
      pn := new nat[width](_ => 0);
      new;
      ValZeros(pn[..], BASE);
    }

    constructor Copy(b: BaseUint)
      requires b.Valid()
      ensures Valid() && fresh(pn) && pn[..] == b.pn[..] && Value() == b.Value()
    {
      pn := new nat[b.pn.Length];
      new;
      for i := 0 to b.pn.Length
        invariant forall k :: 0 <= k < i ==> pn[k] == b.pn[k]
        invariant b.pn[..] == old(b.pn[..])
      {
        pn[i] := b.pn[i];
      }
      assert pn[..] == b.pn[..];
    }

    /** `operator=(uint64_t)`. */
    method SetWord(b: nat)
      requires Valid() && pn.Length >= 2 && b < BASE * BASE
      modifies pn
      ensures Valid() && Value() == b
    {
      pn[0] := b % BASE;
      pn[1] := b / BASE;
      for i := 2 to pn.Length
        invariant pn[0] == b % BASE && pn[1] == b / BASE
        invariant forall k :: 2 <= k < i ==> pn[k] == 0
      {
        pn[i] := 0;
      }
      LowLimbs(pn[..]);
      ValZeros(pn[2..], BASE);
    }

    /** `GetLow64`. */
    method GetLow64() returns (w: nat)
      requires Valid() && pn.Length >= 2
      ensures w == Value() % (BASE * BASE)
    {
      LimbWidth();
      LowLimbs(pn[..]);
      LowMultiple(pn[1], 32);
      OrIsSum(pn[0], pn[1] * Pow(2, 32), 32);
      w := Or(pn[0], pn[1] * Pow(2, 32));
      LowWord(Value(), pn[0], pn[1], Val(pn[2..], BASE));
    }

    static lemma LowWord(v: nat, x: nat, y: nat, high: nat)
      requires v == x + BASE * y + BASE * BASE * high && x < BASE && y < BASE
      ensures v % (BASE * BASE) == x + y * BASE
    {
      DivModUnique(v, BASE * BASE, high, x + y * BASE);
    }

    /** The two lowest limbs. */
    static lemma LowLimbs(s: seq<nat>)
      requires |s| >= 2
      ensures Val(s, BASE) == s[0] + BASE * s[1] + BASE * BASE * Val(s[2..], BASE)
    {
      assert s[1..][1..] == s[2..];
    }

    /** `operator+=`; `b` may be this number itself. */
    method Add(b: BaseUint)
      requires Valid() && b.Valid() && b.pn.Length == pn.Length
      modifies pn
      ensures Valid() && Value() == (old(Value()) + old(b.Value())) % Modulus()
    {
      ghost var x, y := pn[..], b.pn[..];
      var carry: nat := 0;
      for i := 0 to pn.Length
        invariant Digits(pn[..], BASE) && carry <= 1
        invariant forall k :: i <= k < pn.Length ==> pn[k] == x[k] && b.pn[k] == y[k]
        invariant Val(pn[..i], BASE) + carry * Pow(BASE, i) == Val(x[..i], BASE) + Val(y[..i], BASE)
      {
        ghost var done, c := pn[..i], carry;
        var n := carry + pn[i] + b.pn[i];
        pn[i] := n % BASE;
        carry := n / BASE;
        assert pn[..i] == done;
        AddStep(pn[..], x, y, i, c, carry, n);
      }
      assert pn[..pn.Length] == pn[..] && x[..pn.Length] == x && y[..pn.Length] == y;
      DropCarry(pn[..], carry, Val(x, BASE) + Val(y, BASE));
    }

    static lemma AddStep(s: seq<nat>, x: seq<nat>, y: seq<nat>, i: nat, c: nat, carry: nat, n: nat)
      requires i < |s| == |x| == |y|
      requires n == c + x[i] + y[i] && n == s[i] + BASE * carry
      requires Val(s[..i], BASE) + c * Pow(BASE, i) == Val(x[..i], BASE) + Val(y[..i], BASE)
      ensures Val(s[..i + 1], BASE) + carry * Pow(BASE, i + 1) == Val(x[..i + 1], BASE) + Val(y[..i + 1], BASE)
    {
      ValTake(s, i);
      ValTake(x, i);
      ValTake(y, i);
      var p := Pow(BASE, i);
      CarryStep(Val(s[..i], BASE), p, n, s[i], carry);
      MulDist(p, c, x[i]);
      MulDist(p, c + x[i], y[i]);
    }

    /** `operator~`. */
    method Complement() returns (r: BaseUint)
      requires Valid()
      ensures r.Valid() && fresh(r) && fresh(r.pn) && r.pn.Length == pn.Length
      ensures r.Value() == Modulus() - 1 - Value()
    {
      r := new BaseUint(pn.Length);
      ghost var x := pn[..];
      for i := 0 to pn.Length
        invariant pn[..] == x && Digits(r.pn[..], BASE)
        invariant Val(r.pn[..i], BASE) + Val(x[..i], BASE) == Pow(BASE, i) - 1
      {
        ghost var done := r.pn[..i];
        r.pn[i] := BASE - 1 - pn[i];
        assert r.pn[..i] == done;
        ComplementStep(r.pn[..], x, i);
      }
      assert r.pn[..pn.Length] == r.pn[..] && x[..pn.Length] == x;
    }

    static lemma ComplementStep(s: seq<nat>, x: seq<nat>, i: nat)
      requires i < |s| == |x| && s[i] + x[i] == BASE - 1
      requires Val(s[..i], BASE) + Val(x[..i], BASE) == Pow(BASE, i) - 1
      ensures Val(s[..i + 1], BASE) + Val(x[..i + 1], BASE) == Pow(BASE, i + 1) - 1
    {
      ValTake(s, i);
      ValTake(x, i);
      MulDist(Pow(BASE, i), s[i], x[i]);
      MulDist(Pow(BASE, i), BASE - 1, 1);
    }

    /** `operator++`: carry on while a limb wraps to zero. */
    method Increment()
      requires Valid()
      modifies pn
      ensures Valid() && Value() == (old(Value()) + 1) % Modulus()
    {
      ghost var x := pn[..];
      var i := 0;
      pn[0] := (pn[0] + 1) % BASE;
      IncrementFirst(x, pn[..]);
      while pn[i] == 0 && i < pn.Length - 1
        invariant i < pn.Length && Digits(pn[..], BASE)
        invariant forall k :: i < k < pn.Length ==> pn[k] == x[k]
        invariant Val(pn[..i + 1], BASE) + (if pn[i] == 0 then Pow(BASE, i + 1) else 0) == Val(x[..i + 1], BASE) + 1
      {
        ghost var done := pn[..i + 1];
        i := i + 1;
        pn[i] := (pn[i] + 1) % BASE;
        assert pn[..i] == done;
        IncrementNext(x, pn[..], i);
      }
      IncrementDone(x, pn[..], i);
      DropCarry(pn[..], if pn[i] == 0 then 1 else 0, Val(x, BASE) + 1);
    }

    static lemma IncrementDone(x: seq<nat>, s: seq<nat>, i: nat)
      requires i < |s| == |x|
      requires s[i + 1..] == x[i + 1..]
      requires s[i] == 0 ==> i == |s| - 1
      requires Val(s[..i + 1], BASE) + (if s[i] == 0 then Pow(BASE, i + 1) else 0) == Val(x[..i + 1], BASE) + 1
      ensures Val(s, BASE) + (if s[i] == 0 then Pow(BASE, |s|) else 0) == Val(x, BASE) + 1
    {
      SameTop(x, s, i + 1);
    }

    static lemma SameTop(x: seq<nat>, s: seq<nat>, i: nat)
      requires i <= |s| == |x| && s[i..] == x[i..]
      ensures Val(s, BASE) - Val(s[..i], BASE) == Val(x, BASE) - Val(x[..i], BASE)
    {
      assert s == s[..i] + s[i..] && x == x[..i] + x[i..];
      ValSplit(s[..i], s[i..], BASE);
      ValSplit(x[..i], x[i..], BASE);
    }

    static lemma IncrementFirst(x: seq<nat>, s: seq<nat>)
      requires |s| == |x| >= 1 && x[0] < BASE && s[0] == (x[0] + 1) % BASE
      ensures Val(s[..1], BASE) + (if s[0] == 0 then Pow(BASE, 1) else 0) == Val(x[..1], BASE) + 1
    {
      ValTake(s, 0);
      ValTake(x, 0);
      assert s[..0] == [] && x[..0] == [];
    }

    static lemma IncrementNext(x: seq<nat>, s: seq<nat>, i: nat)
      requires 1 <= i < |s| == |x| && x[i] < BASE && s[i] == (if x[i] == BASE - 1 then 0 else x[i] + 1)
      requires Val(s[..i], BASE) + Pow(BASE, i) == Val(x[..i], BASE) + 1
      ensures Val(s[..i + 1], BASE) + (if s[i] == 0 then Pow(BASE, i + 1) else 0) == Val(x[..i + 1], BASE) + 1
    {
      ValTake(s, i);
      ValTake(x, i);
      var p := Pow(BASE, i);
      if x[i] == BASE - 1 {
        MulDist(p, BASE - 1, 1);
      } else {
        MulDist(p, x[i], 1);
      }
    }

    /** Unary `operator-`: the two's complement. */
    method Negate() returns (r: BaseUint)
      requires Valid()
      ensures r.Valid() && fresh(r) && fresh(r.pn) && r.pn.Length == pn.Length
      ensures r.Value() == (Modulus() - Value()) % Modulus()
    {
      r := Complement();
      r.Increment();
    }

    /** `operator-=`: adding the two's complement is subtraction modulo the width. */
    method Subtract(b: BaseUint)
      requires Valid() && b.Valid() && b.pn.Length == pn.Length
      modifies pn
      ensures Valid()
      ensures Value() == (old(Value()) - old(b.Value())) % Modulus()
      ensures old(b.Value()) <= old(Value()) ==> Value() == old(Value()) - old(b.Value())
    {
      ghost var x, y, m := Value(), b.Value(), Modulus();
      ValBound(pn[..], BASE);
      ValBound(b.pn[..], BASE);
      var neg := b.Negate();
      assert Value() == x;
      ghost var z := neg.Value();
      Add(neg);
      SubtractLemma(x, y, m, z, Value());
    }

    static lemma SubtractLemma(x: nat, y: nat, m: nat, z: nat, r: nat)
      requires m > 0 && x < m && y < m && z == (m - y) % m && r == (x + z) % m
      ensures r == (x - y) % m
      ensures y <= x ==> r == x - y
    {
      if y == 0 {
        DivModUnique(m, m, 1, 0);
        DivModUnique(x, m, 0, x);
      } else {
        DivModUnique(m - y, m, 0, m - y);
        if y <= x {
          DivModUnique(x + (m - y), m, 1, x - y);
          DivModUnique(x - y, m, 0, x - y);
        } else {
          DivModUnique(x + (m - y), m, 0, x + (m - y));
          NegativeMod(x - y, m);
        }
      }
    }

    static lemma NegativeMod(d: int, m: int)
      requires m > 0 && -m < d < 0
      ensures d % m == d + m
    {
      var q := d / m;
      assert d == q * m + d % m;
      if q <= -2 {
        MulMono(2, -q, m);
      }
    }

    /** `CompareTo`: the order of the numbers. */
    method CompareTo(b: BaseUint) returns (c: int)
      requires Valid() && b.Valid() && b.pn.Length == pn.Length
      ensures -1 <= c <= 1
      ensures c < 0 <==> Value() < b.Value()
      ensures c > 0 <==> Value() > b.Value()
    {
      var i := pn.Length;
      while i > 0
        invariant 0 <= i <= pn.Length
        invariant pn[i..] == b.pn[i..]
      {
        i := i - 1;
        if pn[i] < b.pn[i] {
          TopDecides(pn[..], b.pn[..], i);
          return -1;
        }
        if pn[i] > b.pn[i] {
          TopDecides(b.pn[..], pn[..], i);
          return 1;
        }
        assert pn[i..] == [pn[i]] + pn[i + 1..] && b.pn[i..] == [b.pn[i]] + b.pn[i + 1..];
      }
      assert pn[0..] == pn[..] && b.pn[0..] == b.pn[..];
      return 0;
    }

    /** `EqualTo`: comparison with a 64-bit number. */
    method EqualTo(b: nat) returns (equal: bool)
      requires Valid() && pn.Length >= 2 && b < BASE * BASE
      ensures equal <==> Value() == b
    {
      LowLimbs(pn[..]);
      assert pn[..][2..] == pn[2..];
      var i := pn.Length;
      while i > 2
        invariant 2 <= i <= pn.Length
        invariant forall k :: i <= k < pn.Length ==> pn[k] == 0
      {
        i := i - 1;
        if pn[i] != 0 {
          HighLimb(pn[2..], i - 2);
          return false;
        }
      }
      ValZeros(pn[2..], BASE);
      equal := pn[1] == b / BASE && pn[0] == b % BASE;
    }

    static lemma HighLimb(s: seq<nat>, i: nat)
      requires i < |s| && s[i] != 0
      ensures Val(s, BASE) >= 1
    {
      if Val(s, BASE) == 0 {
        ZeroDigits(s);
      }
    }

    /** The highest limb in which two numbers differ decides their order. */
    static lemma TopDecides(s: seq<nat>, t: seq<nat>, i: nat)
      requires i < |s| == |t| && Digits(s, BASE) && Digits(t, BASE)
      requires s[i + 1..] == t[i + 1..] && s[i] < t[i]
      ensures Val(s, BASE) < Val(t, BASE)
    {
      SameTop(s, t, i + 1);
      ValTake(s, i);
      ValTake(t, i);
      ValBound(s[..i], BASE);
      LimbDecides(Val(s[..i], BASE), Val(t[..i], BASE), s[i], t[i], Pow(BASE, i));
    }

    static lemma LimbDecides(v: nat, w: nat, x: nat, y: nat, p: nat)
      requires v < p && x < y
      ensures v + x * p < w + y * p
    {
      MulMono(x + 1, y, p);
      MulDist(p, x, 1);
    }

    /** `operator*=(uint32_t)`. */
    method MultiplyWord(b32: nat)
      requires Valid() && b32 < BASE
      modifies pn
      ensures Valid() && Value() == (old(Value()) * b32) % Modulus()
    {
      ghost var x := pn[..];
      var carry: nat := 0;
      assert x[..0] == [];
      for i := 0 to pn.Length
        invariant Digits(pn[..], BASE) && carry < BASE
        invariant forall k :: i <= k < pn.Length ==> pn[k] == x[k]
        invariant ScaledBy(pn[..i], x[..i], b32, carry)
      {
        ghost var done, c := pn[..i], carry;
        ProductFits(b32, pn[i], carry, 0);
        var n := carry + b32 * pn[i];
        pn[i] := n % BASE;
        carry := n / BASE;
        assert pn[..i] == done;
        MultiplyWordStep(pn[..], x, i, b32, c, carry, n);
      }
      assert pn[..pn.Length] == pn[..] && x[..pn.Length] == x;
      DropCarry(pn[..], carry, Val(x, BASE) * b32);
    }

    /** `s` and a carry out of it are `x` times `b`. */
    static ghost predicate ScaledBy(s: seq<nat>, x: seq<nat>, b: nat, carry: nat) {
      Val(s, BASE) + carry * Pow(BASE, |s|) == Val(x, BASE) * b
    }

    /** No 64-bit word overflows: two limbs, their product and a carry fit below 2^64. */
    static lemma ProductFits(x: nat, y: nat, carry: nat, z: nat)
      requires x < BASE && y < BASE && carry < BASE && z < BASE
      ensures 0 <= x * y && carry + z + x * y < BASE * BASE
      ensures (carry + z + x * y) / BASE < BASE
    {
      MulMono(x, BASE - 1, y);
      MulMono(y, BASE - 1, BASE - 1);
    }

    static lemma MultiplyWordStep(s: seq<nat>, x: seq<nat>, i: nat, b: nat, c: nat, carry: nat, n: nat)
      requires i < |s| == |x|
      requires n == c + b * x[i] && n == s[i] + BASE * carry
      requires ScaledBy(s[..i], x[..i], b, c)
      ensures ScaledBy(s[..i + 1], x[..i + 1], b, carry)
    {
      ValTake(s, i);
      ValTake(x, i);
      var p := Pow(BASE, i);
      CarryStep(Val(s[..i], BASE), p, n, s[i], carry);
      MulDist(p, c, b * x[i]);
      MulDist(b, Val(x[..i], BASE), x[i] * p);
      MulAssoc(b, x[i], p);
    }

    /**
      `operator*=`: the schoolbook product, truncated to the width.  The source clears
      this number before it reads `b`, so multiplying a number by itself through an
      alias gives zero.
     */
    method Multiply(b: BaseUint)
      requires Valid() && b.Valid() && b.pn.Length == pn.Length
      modifies pn
      ensures Valid()
      ensures b.pn != pn ==> Value() == (old(Value()) * b.Value()) % Modulus()
      ensures b.pn == pn ==> Value() == 0
    {
      var a := new BaseUint.Copy(this);
      Clear();
      ghost var x, y, m := a.pn[..], b.pn[..], Modulus();
      for j := 0 to pn.Length
        invariant Valid() && a.pn[..] == x && b.pn[..] == y
        invariant b.pn != pn ==> Value() == (Val(x[..j], BASE) * Val(y, BASE)) % m
        invariant b.pn == pn ==> Value() == 0
      {
        ghost var before := Value();
        MultiplyRow(b, a.pn[j], j);
        if b.pn != pn {
          ValTake(x, j);
          RowLemma(Val(x[..j], BASE), x[j], Pow(BASE, j), Val(y, BASE), m, before);
        } else {
          assert b.pn[..] == y;
        }
      }
      assert x[..pn.Length] == x;
    }

    /** The inner loop of `operator*=`: add one limb times `b`, shifted by `j` limbs. */
    method MultiplyRow(b: BaseUint, aj: nat, j: nat)
      requires Valid() && b.Valid() && b.pn.Length == pn.Length
      requires aj < BASE && j < pn.Length
      requires b.pn == pn ==> Value() == 0
      modifies pn
      ensures Valid()
      ensures b.pn != pn ==> Value() == (old(Value()) + aj * Pow(BASE, j) * old(b.Value())) % Modulus()
      ensures b.pn == pn ==> pn[..] == old(pn[..])
    {
      ghost var x, y, alias := pn[..], b.pn[..], b.pn == pn;
      if b.pn == pn {
        ZeroDigits(x);
      }
      var carry: nat := 0;
      var i := 0;
      RowStart(alias, x, y, j, aj);
      while i + j < pn.Length
        invariant 0 <= i <= pn.Length - j
        invariant RowInv(alias, pn[..], b.pn[..], x, y, i, j, aj, carry)
      {
        ghost var s: seq<nat>, t, c := pn[..], b.pn[..], carry;
        ProductFits(aj, b.pn[i], carry, pn[i + j]);
        var n := carry + pn[i + j] + aj * b.pn[i];
        pn[i + j] := n % BASE;
        carry := n / BASE;
        assert pn[..] == s[i + j := n % BASE] && b.pn[..] == if alias then pn[..] else t;
        RowNext(alias, s, t, x, y, i, j, aj, c, n);
        i := i + 1;
      }
      RowDone(alias, pn[..], b.pn[..], x, y, j, aj, carry);
    }

    /** The state of the inner loop after `i` limbs; an aliased operand is zero throughout. */
    static ghost predicate RowInv(alias: bool, s: seq<nat>, t: seq<nat>, x: seq<nat>, y: seq<nat>, i: nat, j: nat,
                                  aj: nat, carry: nat) {
      && j + i <= |s| == |t| == |x| == |y|
      && Digits(s, BASE) && Digits(t, BASE) && carry < BASE
      && s[..j] == x[..j] && s[i + j..] == x[i + j..]
      && if alias then t == s == x && carry == 0 && (forall k :: 0 <= k < |x| ==> x[k] == 0)
         else t == y && Val(s[j..][..i], BASE) + carry * Pow(BASE, i) == Val(x[j..][..i], BASE) + aj * Val(y[..i], BASE)
    }

    static lemma RowStart(alias: bool, x: seq<nat>, y: seq<nat>, j: nat, aj: nat)
      requires j < |x| == |y| && Digits(x, BASE) && Digits(y, BASE)
      requires alias ==> y == x && forall k :: 0 <= k < |x| ==> x[k] == 0
      ensures RowInv(alias, x, y, x, y, 0, j, aj, 0)
    {
      assert y[..0] == [] && x[j..][..0] == [];
    }

    static lemma RowNext(alias: bool, s: seq<nat>, t: seq<nat>, x: seq<nat>, y: seq<nat>, i: nat, j: nat, aj: nat,
                         c: nat, n: nat)
      requires i + j < |s| && aj < BASE && RowInv(alias, s, t, x, y, i, j, aj, c)
      requires n == c + s[i + j] + aj * t[i] && n / BASE < BASE
      ensures var s' := s[i + j := n % BASE]; RowInv(alias, s', if alias then s' else t, x, y, i + 1, j, aj, n / BASE)
    {
      var s' := s[i + j := n % BASE];
      assert s'[i + 1 + j..] == s[i + j..][1..] && s'[..j] == s[..j];
      if alias {
        assert s' == s;
      } else {
        assert s[i + j] == s[i + j..][0] == x[i + j..][0] == x[j..][i];
        assert s'[j..][..i] == s[j..][..i];
        RowStep(s'[j..], x[j..], y, i, aj, c, n / BASE, n);
      }
    }

    static lemma ZeroDigits(s: seq<nat>)
      requires Val(s, BASE) == 0
      ensures forall i :: 0 <= i < |s| ==> s[i] == 0
      decreases |s|
    {
      if s != [] {
        ZeroDigits(s[1..]);
        assert s == [s[0]] + s[1..];
      }
    }

    static lemma RowStep(s: seq<nat>, x: seq<nat>, y: seq<nat>, i: nat, aj: nat, c: nat, carry: nat, n: nat)
      requires i < |s| == |x| <= |y|
      requires n == c + x[i] + aj * y[i] && n == s[i] + BASE * carry
      requires Val(s[..i], BASE) + c * Pow(BASE, i) == Val(x[..i], BASE) + aj * Val(y[..i], BASE)
      ensures Val(s[..i + 1], BASE) + carry * Pow(BASE, i + 1) == Val(x[..i + 1], BASE) + aj * Val(y[..i + 1], BASE)
    {
      ValTake(s, i);
      ValTake(x, i);
      ValTake(y, i);
      var p := Pow(BASE, i);
      CarryStep(Val(s[..i], BASE), p, n, s[i], carry);
      MulDist(p, c + x[i], aj * y[i]);
      MulDist(p, c, x[i]);
      MulDist(aj, Val(y[..i], BASE), y[i] * p);
      MulAssoc(aj, y[i], p);
    }

    static lemma RowDone(alias: bool, s: seq<nat>, t: seq<nat>, x: seq<nat>, y: seq<nat>, j: nat, aj: nat, carry: nat)
      requires j < |s| && RowInv(alias, s, t, x, y, |s| - j, j, aj, carry)
      ensures alias ==> s == x
      ensures !alias ==> Val(s, BASE) == (Val(x, BASE) + aj * Pow(BASE, j) * Val(y, BASE)) % Pow(BASE, |s|)
    {
      if !alias {
        assert s[j..][..|s| - j] == s[j..] && x[j..][..|s| - j] == x[j..];
        RowTotal(s, x, y, j, aj, carry);
      }
    }

    static lemma RowTotal(s: seq<nat>, x: seq<nat>, y: seq<nat>, j: nat, aj: nat, carry: nat)
      requires j < |s| == |x| == |y| && Digits(s, BASE) && s[..j] == x[..j]
      requires Val(s[j..], BASE) + carry * Pow(BASE, |s| - j) == Val(x[j..], BASE) + aj * Val(y[..|s| - j], BASE)
      ensures Val(s, BASE) == (Val(x, BASE) + aj * Pow(BASE, j) * Val(y, BASE)) % Pow(BASE, |s|)
    {
      var n := |s| - j;
      assert s == s[..j] + s[j..] && x == x[..j] + x[j..] && y == y[..n] + y[n..];
      ValSplit(s[..j], s[j..], BASE);
      ValSplit(x[..j], x[j..], BASE);
      ValSplit(y[..n], y[n..], BASE);
      PowAdd(BASE, j, n);
      ValBound(s, BASE);
      RowReduced(Val(s[..j], BASE), Val(s[j..], BASE), Val(x[j..], BASE), carry, aj, Pow(BASE, j), Pow(BASE, n),
                 Val(y[..n], BASE), Val(y[n..], BASE));
    }

    static lemma RowReduced(l: nat, s: nat, x: nat, carry: nat, a: nat, p: nat, q: nat, low: nat, high: nat)
      requires s + carry * q == x + a * low
      requires l + p * s < p * q
      ensures l + p * s == (l + p * x + a * p * (low + q * high)) % (p * q)
    {
      var m, k, total := p * q, carry + a * high, l + p * x + a * p * (low + q * high);
      assert total == k * m + (l + p * s) by {
        RowAlgebra(s, x, carry, a, p, q, low, high);
      }
      assert 0 <= a * high;
      DivModUnique(total, m, k, l + p * s);
    }

    static lemma RowAlgebra(s: int, x: int, carry: int, a: int, p: int, q: int, low: int, high: int)
      requires s + carry * q == x + a * low
      ensures p * x + a * p * (low + q * high) == (carry + a * high) * (p * q) + p * s
    {
      calc {
        (carry + a * high) * (p * q) + p * s;
        p * (s + carry * q) + a * high * (p * q);
        p * (x + a * low) + a * high * (p * q);
        p * x + a * p * (low + q * high);
      }
    }

    static lemma RowLemma(v: nat, xj: nat, p: nat, y: nat, m: nat, before: nat)
      requires m > 0 && before == (v * y) % m
      ensures (before + xj * p * y) % m == ((v + xj * p) * y) % m
    {
      ModAdd(v * y, xj * p * y, m);
      MulDist(y, v, xj * p);
    }

    method Clear()
      requires Valid()
      modifies pn
      ensures Valid() && Value() == 0 && forall k :: 0 <= k < pn.Length ==> pn[k] == 0
    {
      for i := 0 to pn.Length
        invariant forall k :: 0 <= k < i ==> pn[k] == 0
      {
        pn[i] := 0;
      }
      ValZeros(pn[..], BASE);
    }

    /** `operator<<=`. */
    method ShiftLeft(shift: nat)
      requires Valid()
      modifies pn
      ensures Valid() && Value() == (old(Value()) * Pow(2, shift)) % Modulus()
    {
      var a := new BaseUint.Copy(this);
      ghost var x: seq<nat> := a.pn[..];
      Clear();
      var k, s := shift / 32, shift % 32;
      LeftStart(pn[..], x, k, s);
      for i := 0 to pn.Length
        invariant a.pn[..] == x
        invariant LeftInv(pn[..], x, k, Moved(i, k, |x|), s)
      {
        LeftLimb(a.pn[i], i, k, s, x);
      }
      LeftDone(pn[..], x, k, s, shift);
    }

    /** One round of the left shift. */
    method LeftLimb(w: nat, i: nat, k: nat, s: nat, ghost x: seq<nat>)
      requires i < pn.Length == |x| && w == x[i] && LeftInv(pn[..], x, k, Moved(i, k, |x|), s)
      modifies pn
      ensures LeftInv(pn[..], x, k, Moved(i + 1, k, |x|), s)
    {
      ghost var before: seq<nat> := pn[..];
      MoveLeft(w, i, k, s);
      if i + k < pn.Length {
        LeftNext(before, x, k, i, s, pn[..]);
      } else {
        assert pn[..] == before;
      }
    }

    /** One turn of that loop: the two parts of a limb. */
    method MoveLeft(w: nat, i: nat, k: nat, s: nat)
      requires i < pn.Length && s < 32
      modifies pn
      ensures forall j :: 0 <= j < pn.Length && j != i + k && j != i + k + 1 ==> pn[j] == old(pn[j])
      ensures i + k < pn.Length ==> pn[i + k] == Or(old(pn[i + k]), (w * Pow(2, s)) % BASE)
      ensures i + k + 1 < pn.Length ==>
                pn[i + k + 1] == if s != 0 then Or(old(pn[i + k + 1]), Shr(w, 32 - s)) else old(pn[i + k + 1])
    {
      MulPositive(w, Pow(2, s));
      if i + k + 1 < pn.Length && s != 0 {
        pn[i + k + 1] := Or(pn[i + k + 1], Shr(w, 32 - s));
      }
      if i + k < pn.Length {
        pn[i + k] := Or(pn[i + k], (w * Pow(2, s)) % BASE);
      }
    }

    /** How many limbs have been moved after `i` steps. */
    static ghost function Moved(i: nat, k: nat, n: nat): nat {
      if i + k <= n then i else if k <= n then n - k else 0
    }

    /** The part of limb `e - 1` that belongs to the next limb up. */
    static ghost function Spill(x: seq<nat>, e: nat, s: nat): nat
      requires e <= |x| && s < 32
    {
      if e == 0 then 0 else Shr(x[e - 1], 32 - s)
    }

    static ghost predicate LeftInv(t: seq<nat>, x: seq<nat>, k: nat, e: nat, s: nat) {
      && s < 32 && Digits(x, BASE) && e <= |x|
      && Spill(x, e, s) < Pow(2, s)
      && LeftShape(t, |x|, k, e, Spill(x, e, s))
      && LeftSum(t, x, k, e, Pow(2, s), Spill(x, e, s))
    }

    /** Only the limbs moved so far and what has spilled above them are set. */
    static ghost predicate LeftShape(t: seq<nat>, n: nat, k: nat, e: nat, c: nat) {
      && |t| == n && Digits(t, BASE) && (k + e <= n || e == 0)
      && (forall j :: 0 <= j < n && (j < k || j > k + e) ==> t[j] == 0)
      && (k + e < n ==> t[k + e] == c)
    }

    /** Together they are the limbs moved so far, times the shift within a limb. */
    static ghost predicate LeftSum(t: seq<nat>, x: seq<nat>, k: nat, e: nat, h: nat, c: nat) {
      k + e <= |t| == |x| ==> Val(t[k..][..e], BASE) + c * Pow(BASE, e) == Val(x[..e], BASE) * h
    }

    static lemma LeftStart(t: seq<nat>, x: seq<nat>, k: nat, s: nat)
      requires |t| == |x| && s < 32 && Digits(x, BASE) && forall j :: 0 <= j < |t| ==> t[j] == 0
      ensures LeftInv(t, x, k, 0, s)
    {
      if k <= |x| {
        assert t[k..][..0] == [] && x[..0] == [];
      }
    }

    static lemma LeftNext(t: seq<nat>, x: seq<nat>, k: nat, i: nat, s: nat, t': seq<nat>)
      requires i + k < |x| && LeftInv(t, x, k, i, s)
      requires |t'| == |t| && forall j :: 0 <= j < |t| && j != i + k && j != i + k + 1 ==> t'[j] == t[j]
      requires t'[i + k] == Or(t[i + k], (x[i] * Pow(2, s)) % BASE)
      requires i + k + 1 < |t| ==> t'[i + k + 1] == if s != 0 then Or(t[i + k + 1], Shr(x[i], 32 - s)) else t[i + k + 1]
      ensures LeftInv(t', x, k, i + 1, s)
    {
      var c, lo, hi := Spill(x, i, s), Low(x[i], 32 - s), Shr(x[i], 32 - s);
      LimbSplit(x[i], s, 32 - s);
      ShrLow(x[i], 32 - s);
      LimbJoin(c, x[i], s, 32 - s);
      OrZero(hi);
      LeftShapeNext(t, t', k, i, c, t'[i + k], hi);
      assert t'[k..][..i] == t[k..][..i];
      LeftStep(t'[k..], x, i, Pow(2, s), c, lo, hi);
    }

    static lemma LeftShapeNext(t: seq<nat>, t': seq<nat>, k: nat, i: nat, c: nat, w: nat, hi: nat)
      requires i + k < |t| == |t'| && LeftShape(t, |t|, k, i, c) && w < BASE && hi < BASE
      requires forall j :: 0 <= j < |t| && j != i + k && j != i + k + 1 ==> t'[j] == t[j]
      requires t'[i + k] == w && (i + k + 1 < |t| ==> t'[i + k + 1] == hi)
      ensures LeftShape(t', |t|, k, i + 1, hi)
    {
      forall j | 0 <= j < |t'| ensures t'[j] < BASE {
        if j != i + k && j != i + k + 1 {
          assert t'[j] == t[j];
        }
      }
    }

    static lemma LeftStep(t: seq<nat>, x: seq<nat>, i: nat, h: nat, c: nat, lo: nat, hi: nat)
      requires i < |t| <= |x| && t[i] == c + lo * h && x[i] * h == lo * h + BASE * hi
      requires Val(t[..i], BASE) + c * Pow(BASE, i) == Val(x[..i], BASE) * h
      ensures Val(t[..i + 1], BASE) + hi * Pow(BASE, i + 1) == Val(x[..i + 1], BASE) * h
    {
      ValTake(t, i);
      ValTake(x, i);
      var p := Pow(BASE, i);
      CarryStep(Val(t[..i], BASE), p, c + x[i] * h, t[i], hi);
      MulDist(p, c, x[i] * h);
      MulDist(h, Val(x[..i], BASE), x[i] * p);
      assert (x[i] * p) * h == (x[i] * h) * p;
    }

    static lemma LeftDone(t: seq<nat>, x: seq<nat>, k: nat, s: nat, shift: nat)
      requires shift == 32 * k + s && LeftInv(t, x, k, Moved(|x|, k, |x|), s)
      ensures Val(t, BASE) == (Val(x, BASE) * Pow(2, shift)) % Pow(BASE, |t|)
    {
      var q := LeftQuotient(t, x, k, s, shift);
      DivModUnique(Val(x, BASE) * Pow(2, shift), Pow(BASE, |t|), q, Val(t, BASE));
    }

    /** What the left shift drops. */
    static lemma LeftQuotient(t: seq<nat>, x: seq<nat>, k: nat, s: nat, shift: nat) returns (q: nat)
      requires shift == 32 * k + s && LeftInv(t, x, k, Moved(|x|, k, |x|), s)
      ensures 0 <= Val(x, BASE) * Pow(2, shift) == q * Pow(BASE, |t|) + Val(t, BASE) && Val(t, BASE) < Pow(BASE, |t|)
    {
      ValBound(t, BASE);
      LimbBits(k, s);
      MulPositive(Val(x, BASE), Pow(2, shift));
      q := LeftRest(t, x, k, s);
    }

    static lemma LeftRest(t: seq<nat>, x: seq<nat>, k: nat, s: nat) returns (q: nat)
      requires LeftInv(t, x, k, Moved(|x|, k, |x|), s)
      ensures Val(x, BASE) * (Pow(BASE, k) * Pow(2, s)) == q * Pow(BASE, |t|) + Val(t, BASE)
    {
      var n, h := |t|, Pow(2, s);
      if k >= n {
        ValZeros(t, BASE);
        PowAdd(BASE, n, k - n);
        q := AllOut(Val(x, BASE), Pow(BASE, n), Pow(BASE, k - n), h);
      } else {
        assert t[k..][..n - k] == t[k..];
        q := LeftTotal(t, x, k, h, Spill(x, n - k, s));
      }
    }

    static lemma LeftTotal(t: seq<nat>, x: seq<nat>, k: nat, h: nat, c: nat) returns (q: nat)
      requires k < |t| == |x| && forall j :: 0 <= j < k ==> t[j] == 0
      requires Val(t[k..], BASE) + c * Pow(BASE, |t| - k) == Val(x[..|t| - k], BASE) * h
      ensures Val(x, BASE) * (Pow(BASE, k) * h) == q * Pow(BASE, |t|) + Val(t, BASE)
    {
      var e := |t| - k;
      assert t == t[..k] + t[k..] && x == x[..e] + x[e..];
      ValSplit(t[..k], t[k..], BASE);
      ValSplit(x[..e], x[e..], BASE);
      ValZeros(t[..k], BASE);
      PowAdd(BASE, k, e);
      q := LeftCarried(Val(t[k..], BASE), c, Pow(BASE, k), Pow(BASE, e), h, Val(x[..e], BASE), Val(x[e..], BASE));
    }

    static lemma AllOut(x: nat, m: nat, p: nat, h: nat) returns (q: nat)
      ensures x * (m * p * h) == q * m
    {
      MulPositive(p, h);
      MulPositive(x, p * h);
      assert x * (m * p * h) == (x * (p * h)) * m;
      q := x * (p * h);
    }

    static lemma LeftCarried(t: nat, c: nat, p: nat, q: nat, h: nat, low: nat, high: nat) returns (k: nat)
      requires t + c * q == low * h
      ensures (low + q * high) * (p * h) == k * (p * q) + p * t
    {
      calc {
        (low + q * high) * (p * h);
        p * (low * h) + (high * h) * (p * q);
        p * (t + c * q) + (high * h) * (p * q);
        (c + high * h) * (p * q) + p * t;
      }
      MulPositive(high, h);
      k := c + high * h;
    }

    /** `operator>>=`. */
    method ShiftRight(shift: nat)
      requires Valid()
      modifies pn
      ensures Valid() && Value() == old(Value()) / Pow(2, shift)
    {
      var a := new BaseUint.Copy(this);
      ghost var x: seq<nat> := a.pn[..];
      Clear();
      var k, s := shift / 32, shift % 32;
      for i := 0 to pn.Length
        invariant a.pn[..] == x
        invariant RightInv(pn[..], x, k, if i <= k then 0 else i - k, s)
      {
        RightLimb(a.pn[i], i, k, s, x);
      }
      RightDone(pn[..], x, k, s, shift);
    }

    /** One round of the right shift. */
    method RightLimb(w: nat, i: nat, k: nat, s: nat, ghost x: seq<nat>)
      requires i < pn.Length == |x| && w == x[i] && RightInv(pn[..], x, k, if i <= k then 0 else i - k, s)
      modifies pn
      ensures RightInv(pn[..], x, k, if i + 1 <= k then 0 else i + 1 - k, s)
    {
      ghost var before: seq<nat> := pn[..];
      MoveRight(w, i, k, s);
      if i >= k {
        RightNext(before, x, k, i - k, s, pn[..]);
      } else {
        assert pn[..] == before;
      }
    }

    /** One turn of that loop: the two parts of a limb. */
    method MoveRight(w: nat, i: nat, k: nat, s: nat)
      requires i < pn.Length && s < 32
      modifies pn
      ensures forall j :: 0 <= j < pn.Length && j != i - k - 1 && j != i - k ==> pn[j] == old(pn[j])
      ensures i > k ==>
                pn[i - k - 1] == if s != 0 then Or(old(pn[i - k - 1]), (w * Pow(2, 32 - s)) % BASE)
                  else old(pn[i - k - 1])
      ensures i >= k ==> pn[i - k] == Or(old(pn[i - k]), Shr(w, s))
    {
      MulPositive(w, Pow(2, 32 - s));
      if i - k - 1 >= 0 && s != 0 {
        pn[i - k - 1] := Or(pn[i - k - 1], (w * Pow(2, 32 - s)) % BASE);
      }
      if i - k >= 0 {
        pn[i - k] := Or(pn[i - k], Shr(w, s));
      }
    }

    /** The state after `d` limbs of the result: they hold what is above the bits shifted out. */
    static ghost predicate RightInv(t: seq<nat>, x: seq<nat>, k: nat, d: nat, s: nat) {
      && |t| == |x| && s < 32 && Digits(t, BASE) && Digits(x, BASE)
      && (k + d <= |x| || d == 0)
      && (forall j :: d <= j < |t| ==> t[j] == 0)
      && (d > 0 ==> t[d - 1] == Shr(x[k + d - 1], s))
      && (d > 0 ==> Val(x[k..][..d], BASE) == Val(t[..d], BASE) * Pow(2, s) + Low(x[k], s))
    }

    static lemma RightNext(t: seq<nat>, x: seq<nat>, k: nat, d: nat, s: nat, t': seq<nat>)
      requires k + d < |x| && RightInv(t, x, k, d, s)
      requires |t'| == |t| && forall j :: 0 <= j < |t| && j != d - 1 && j != d ==> t'[j] == t[j]
      requires d > 0 ==> t'[d - 1] == if s != 0 then Or(t[d - 1], (x[k + d] * Pow(2, 32 - s)) % BASE) else t[d - 1]
      requires t'[d] == Or(t[d], Shr(x[k + d], s))
      ensures RightInv(t', x, k, d + 1, s)
    {
      var h, l, xi := Pow(2, s), Pow(2, 32 - s), x[k + d];
      OrZero(Shr(xi, s));
      ShrLow(xi, s);
      if d == 0 {
        RightFirst(t', x[k..], h, Low(xi, s));
      } else {
        RightJoin(x[k + d - 1], t[d - 1], xi, s, 32 - s, t'[d - 1]);
        LimbBounds(xi, s, 32 - s);
        assert t'[..d - 1] == t[..d - 1];
        RightStep(t, t', x[k..], d, h, l, Low(xi, s), Low(x[k], s));
      }
    }

    /** The low bits of a limb move to the top of the limb below. */
    static lemma RightJoin(w: nat, prev: nat, xi: nat, s: nat, u: nat, r: nat)
      requires w < BASE && xi < BASE && s + u == 32 && prev == Shr(w, s)
      requires r == if s != 0 then Or(prev, (xi * Pow(2, u)) % BASE) else prev
      ensures r == prev + Low(xi, s) * Pow(2, u) < BASE
    {
      if s == 0 {
        ShrLow(w, s);
      } else {
        HighBits(w, u, s);
        LimbJoin(prev, xi, u, s);
      }
    }

    static lemma HighBits(w: nat, u: nat, s: nat)
      requires w < BASE && s + u == 32
      ensures Shr(w, s) < Pow(2, u)
    {
      LimbBounds(w, u, s);
    }

    static lemma RightFirst(t: seq<nat>, x: seq<nat>, h: nat, r: nat)
      requires |t| >= 1 && |x| >= 1 && x[0] == t[0] * h + r
      ensures Val(x[..1], BASE) == Val(t[..1], BASE) * h + r
    {
      ValTake(t, 0);
      ValTake(x, 0);
      assert t[..0] == [] && x[..0] == [];
    }

    static lemma RightStep(t: seq<nat>, t': seq<nat>, x: seq<nat>, d: nat, h: nat, l: nat, r: nat, r0: nat)
      requires 1 <= d < |t| == |t'| && d < |x| <= |t| && h * l == BASE
      requires t'[..d - 1] == t[..d - 1] && t'[d - 1] == t[d - 1] + r * l && x[d] == t'[d] * h + r
      requires Val(x[..d], BASE) == Val(t[..d], BASE) * h + r0
      ensures Val(x[..d + 1], BASE) == Val(t'[..d + 1], BASE) * h + r0
    {
      ValTake(t, d - 1);
      ValTake(t', d - 1);
      ValTake(t', d);
      ValTake(x, d);
      RightAlgebra(Val(t[..d - 1], BASE), t[d - 1], Pow(BASE, d - 1), t'[d], r, h, l, x[d]);
    }

    static lemma RightAlgebra(v: int, t: int, p: int, q: int, r: int, h: int, l: int, x: int)
      requires h * l == BASE && x == q * h + r
      ensures (v + (t + r * l) * p + q * (BASE * p)) * h == (v + t * p) * h + x * (BASE * p)
    {
      calc {
        (v + (t + r * l) * p + q * (BASE * p)) * h;
        (v + t * p) * h + r * (h * l) * p + q * h * (BASE * p);
        (v + t * p) * h + (q * h + r) * (BASE * p);
      }
    }

    static lemma RightDone(t: seq<nat>, x: seq<nat>, k: nat, s: nat, shift: nat)
      requires shift == 32 * k + s && RightInv(t, x, k, if |x| <= k then 0 else |x| - k, s)
      ensures Val(t, BASE) == Val(x, BASE) / Pow(2, shift)
    {
      var r := RightRest(t, x, k, s, shift);
      DivModUnique(Val(x, BASE), Pow(2, shift), Val(t, BASE), r);
    }

    /** What the right shift drops. */
    static lemma RightRest(t: seq<nat>, x: seq<nat>, k: nat, s: nat, shift: nat) returns (r: nat)
      requires shift == 32 * k + s && RightInv(t, x, k, if |x| <= k then 0 else |x| - k, s)
      ensures Val(x, BASE) == Val(t, BASE) * Pow(2, shift) + r && r < Pow(2, shift)
    {
      LimbBits(k, s);
      if k >= |t| {
        ValZeros(t, BASE);
        RightEmpty(x, k, Pow(2, s));
        r := Val(x, BASE);
      } else {
        assert x[k..][..|x| - k] == x[k..];
        ShrLow(x[k], s);
        r := RightTotal(t, x, k, Pow(2, s), Low(x[k], s));
      }
    }

    static lemma RightEmpty(x: seq<nat>, k: nat, h: nat)
      requires |x| <= k && h >= 1 && Digits(x, BASE)
      ensures Val(x, BASE) < Pow(BASE, k) * h
    {
      ValBound(x, BASE);
      PowMono(BASE, |x|, k);
      MulMono(1, h, Pow(BASE, k));
    }

    static lemma RightTotal(t: seq<nat>, x: seq<nat>, k: nat, h: nat, r0: nat) returns (r: nat)
      requires k < |t| == |x| && r0 < h && Digits(x, BASE) && forall j :: |x| - k <= j < |t| ==> t[j] == 0
      requires Val(x[k..], BASE) == Val(t[..|x| - k], BASE) * h + r0
      ensures Val(x, BASE) == Val(t, BASE) * (Pow(BASE, k) * h) + r && r < Pow(BASE, k) * h
    {
      var d := |x| - k;
      assert x == x[..k] + x[k..] && t == t[..d] + t[d..];
      ValSplit(x[..k], x[k..], BASE);
      ValSplit(t[..d], t[d..], BASE);
      ValZeros(t[d..], BASE);
      ValBound(x[..k], BASE);
      r := RightNest(Val(x[..k], BASE), Pow(BASE, k), Val(x[k..], BASE), Val(t, BASE), h, r0);
    }

    static lemma RightNest(low: nat, p: nat, high: nat, t: nat, h: nat, r0: nat) returns (r: nat)
      requires high == t * h + r0 && low < p && r0 < h
      ensures low + p * high == t * (p * h) + r && r < p * h
    {
      Nest(p, h, t, low, r0);
      MulPositive(r0, p);
      r := r0 * p + low;
    }

    /** `bits`: the position of the highest set bit, counted from one. */
    method Bits() returns (r: nat)
      requires Valid()
      ensures r == 0 <==> Value() == 0
      ensures r > 0 ==> Pow(2, r - 1) <= Value() < Pow(2, r)
      ensures r <= 32 * pn.Length
    {
      var pos := pn.Length;
      while pos > 0
        invariant 0 <= pos <= pn.Length
        invariant forall j :: pos <= j < pn.Length ==> pn[j] == 0
      {
        pos := pos - 1;
        if pn[pos] != 0 {
          var bits := HighestBit(pn[pos]);
          TopBit(pn[..], pos, bits);
          return 32 * pos + bits + 1;
        }
      }
      ValZeros(pn[..], BASE);
      return 0;
    }

    /** The top bit of a number below 2^(b+1) says whether it reaches 2^b. */
    /** The inner loop of `bits`: the highest bit set in a limb; the lowest one is not looked at. */
    static method HighestBit(w: nat) returns (bits: nat)
      requires 0 < w < BASE
      ensures bits <= 31 && Pow(2, bits) <= w < Pow(2, bits + 1)
    {
      bits := 31;
      LimbWidth();
      while bits > 0
        invariant 0 <= bits <= 31 && w < Pow(2, bits + 1)
      {
        BitTest(w, bits);
        if Bit(w, bits) {
          return;
        }
        bits := bits - 1;
      }
    }

    static lemma BitTest(x: nat, b: nat)
      requires x < Pow(2, b + 1)
      ensures Bit(x, b) <==> x >= Pow(2, b)
    {
      ShrLow(x, b);
      var q, p := Shr(x, b), Pow(2, b);
      if q >= 2 {
        MulMono(2, q, p);
      }
    }

    static lemma TopBit(s: seq<nat>, pos: nat, b: nat)
      requires pos < |s| && Digits(s, BASE) && b < 32
      requires forall j :: pos < j < |s| ==> s[j] == 0
      requires Pow(2, b) <= s[pos] < Pow(2, b + 1)
      ensures Pow(2, 32 * pos + b) <= Val(s, BASE) < Pow(2, 32 * pos + b + 1)
    {
      TopValue(s, pos);
      LimbBits(pos, b);
      LimbBits(pos, b + 1);
      TopBounds(Val(s[..pos], BASE), s[pos], Pow(BASE, pos), Pow(2, b), Pow(2, b + 1));
    }

    static lemma TopValue(s: seq<nat>, pos: nat)
      requires pos < |s| && Digits(s, BASE) && forall j :: pos < j < |s| ==> s[j] == 0
      ensures Val(s, BASE) == Val(s[..pos], BASE) + s[pos] * Pow(BASE, pos) && Val(s[..pos], BASE) < Pow(BASE, pos)
    {
      DropZeros(s, pos + 1);
      ValTake(s, pos);
      ValBound(s[..pos], BASE);
    }

    static lemma DropZeros(s: seq<nat>, n: nat)
      requires n <= |s| && forall j :: n <= j < |s| ==> s[j] == 0
      ensures Val(s, BASE) == Val(s[..n], BASE)
    {
      assert s == s[..n] + s[n..];
      ValSplit(s[..n], s[n..], BASE);
      ValZeros(s[n..], BASE);
    }

    static lemma TopBounds(low: nat, x: nat, p: nat, f: nat, g: nat)
      requires low < p && f <= x < g
      ensures p * f <= low + x * p < p * g
    {
      MulMono(f, x, p);
      MulMono(x + 1, g, p);
      MulDist(p, x, 1);
    }

    /**
      `operator/=`: long division in binary.  Division by zero is refused, after this
      number has been cleared.  `b` may be this number itself.
     */
    method DivideBy(b: BaseUint) returns (ok: bool)
      requires Valid() && b.Valid() && b.pn.Length == pn.Length
      modifies pn
      ensures Valid() && (ok <==> old(b.Value()) != 0)
      ensures ok ==> Value() == old(Value()) / old(b.Value())
      ensures !ok ==> Value() == 0
    {
      ghost var x, d := Value(), b.Value();
      var div := new BaseUint.Copy(b);
      var num := new BaseUint.Copy(this);
      Clear();
      var numBits := num.Bits();
      var divBits := div.Bits();
      if divBits == 0 {
        return false;
      }
      if divBits > numBits {
        NothingToDivide(x, d, numBits, divBits);
        return true;
      }
      var shift := numBits - divBits;
      AlignedFits(d, numBits, divBits, pn.Length);
      AlignedInv(x, d, numBits, divBits);
      div.ShiftLeft(shift);
      DivModUnique(d * Pow(2, shift), Modulus(), 0, d * Pow(2, shift));
      LongDivision(num, div, shift, x, d);
      return true;
    }

    /** The loop of `operator/=`: subtract the divisor wherever it fits, from the top bit down. */
    method LongDivision(num: BaseUint, div: BaseUint, from: nat, ghost x: nat, ghost d: nat)
      requires Valid() && num.Valid() && div.Valid() && d > 0 && from < 32 * pn.Length
      requires pn.Length == num.pn.Length == div.pn.Length && pn != num.pn && pn != div.pn && num.pn != div.pn
      requires div.Value() == d * Pow(2, from) && DivInv(x, d, Value(), num.Value(), 0, from + 1)
      modifies pn, num.pn, div.pn
      ensures Valid() && Value() == x / d
    {
      var shift: int := from;
      ghost var m := 0;
      while shift >= 0
        invariant -1 <= shift < 32 * pn.Length
        invariant Valid() && num.Valid() && div.Valid()
        invariant shift >= 0 ==> div.Value() == d * Pow(2, shift)
        invariant DivInv(x, d, Value(), num.Value(), m, shift + 1)
      {
        m := QuotientBit(num, div, shift, x, d, m);
        ghost var q, r := Value(), num.Value();
        HalveDivisor(d, shift);
        div.ShiftRight(1);
        assert num.Value() == r && Value() == q;
        shift := shift - 1;
      }
      Remainder(x, d, Value(), num.Value(), m);
    }

    static lemma Remainder(x: nat, d: nat, q: nat, r: nat, m: nat)
      requires d > 0 && DivInv(x, d, q, r, m, 0)
      ensures x / d == q
    {
      DivModUnique(x, d, q, r);
    }

    /** One turn of that loop. */
    method QuotientBit(num: BaseUint, div: BaseUint, shift: nat, ghost x: nat, ghost d: nat, ghost m: nat)
      returns (ghost m': nat)
      requires Valid() && num.Valid() && div.Valid() && shift < 32 * pn.Length
      requires pn.Length == num.pn.Length == div.pn.Length && pn != num.pn && pn != div.pn && num.pn != div.pn
      requires div.Value() == d * Pow(2, shift) && DivInv(x, d, Value(), num.Value(), m, shift + 1)
      modifies pn, num.pn
      ensures Valid() && num.Valid() && DivInv(x, d, Value(), num.Value(), m', shift)
    {
      ghost var q, r, e := Value(), num.Value(), div.Value();
      m' := DivStep(x, d, q, r, m, shift);
      var c := num.CompareTo(div);
      if c >= 0 {
        num.Subtract(div);
        assert Value() == q;
        ghost var rest := num.Value();
        SetBit(shift, m);
        assert num.Value() == rest;
      }
    }

    /** After the quotient bits from `s` upwards are decided, `q` is a multiple of 2^s. */
    static ghost predicate DivInv(x: nat, d: nat, q: nat, r: nat, m: nat, s: nat) {
      x == q * d + r && r < d * Pow(2, s) && q == m * Pow(2, s)
    }

    static lemma NothingToDivide(x: nat, d: nat, numBits: nat, divBits: nat)
      requires numBits < divBits && (numBits == 0 ==> x == 0) && x < Pow(2, numBits) && Pow(2, divBits - 1) <= d
      ensures d > 0 && x / d == 0
    {
      PowMono(2, numBits, divBits - 1);
      DivModUnique(x, d, 0, x);
    }

    static lemma AlignedFits(d: nat, numBits: nat, divBits: nat, n: nat)
      requires 1 <= divBits <= numBits <= 32 * n && d < Pow(2, divBits)
      ensures 0 <= d * Pow(2, numBits - divBits) < Pow(BASE, n)
    {
      PowAdd(2, divBits, numBits - divBits);
      BitsFit(numBits, n);
      ProductBelow(d, Pow(2, divBits), Pow(2, numBits - divBits), Pow(BASE, n));
    }

    static lemma BitsFit(bits: nat, n: nat)
      requires bits <= 32 * n
      ensures Pow(2, bits) <= Pow(BASE, n)
    {
      PowMono(2, bits, 32 * n);
      LimbBits(n, 0);
    }

    static lemma ProductBelow(d: nat, g: nat, h: nat, m: nat)
      requires d < g && h >= 1 && g * h <= m
      ensures 0 <= d * h < m
    {
      MulMono(d + 1, g, h);
      MulDist(h, d, 1);
    }

    static lemma AlignedInv(x: nat, d: nat, numBits: nat, divBits: nat)
      requires 1 <= divBits <= numBits && x < Pow(2, numBits) && Pow(2, divBits - 1) <= d
      ensures DivInv(x, d, 0, x, 0, numBits - divBits + 1)
    {
      var s := numBits - divBits;
      PowAdd(2, divBits - 1, s + 1);
      MulMono(Pow(2, divBits - 1), d, Pow(2, s + 1));
    }

    /** One bit of the quotient. */
    static lemma DivStep(x: nat, d: nat, q: nat, r: nat, m: nat, s: nat) returns (m': nat)
      requires DivInv(x, d, q, r, m, s + 1)
      ensures d * Pow(2, s) <= r ==> DivInv(x, d, q + Pow(2, s), r - d * Pow(2, s), m', s)
      ensures r < d * Pow(2, s) ==> DivInv(x, d, q, r, m', s)
    {
      var p := Pow(2, s);
      assert m * (2 * p) == (2 * m) * p && d * (2 * p) == d * p + d * p;
      if d * p <= r {
        m' := 2 * m + 1;
        MulDist(d, q, p);
        MulDist(p, 2 * m, 1);
      } else {
        m' := 2 * m;
      }
    }

    static lemma HalveDivisor(d: nat, s: nat)
      ensures Pow(2, 1) == 2
      ensures s > 0 ==> 0 <= d * Pow(2, s - 1) && (d * Pow(2, s)) / 2 == d * Pow(2, s - 1)
    {
      if s > 0 {
        var p := Pow(2, s - 1);
        assert d * (2 * p) == 2 * (d * p);
      }
    }

    /** Set bit `j` of a number that has no bit set at or below it. */
    method SetBit(j: nat, ghost m: nat)
      requires Valid() && j < 32 * pn.Length && Value() == m * Pow(2, j + 1)
      modifies pn
      ensures Valid() && Value() == old(Value()) + Pow(2, j)
    {
      ghost var s: seq<nat> := pn[..];
      var i, b := j / 32, j % 32;
      pn[i] := Or(pn[i], Pow(2, b));
      SetLimbBit(s, i, b, m);
      assert pn[..] == s[i := s[i] + Pow(2, b)];
      ValUpdate(s, i, s[i] + Pow(2, b));
      LimbBits(i, b);
      MulDist(Pow(BASE, i), s[i], Pow(2, b));
    }

    static lemma {:induction false} ValUpdate(s: seq<nat>, i: nat, x: nat)
      requires i < |s|
      ensures Val(s[i := x], BASE) + s[i] * Pow(BASE, i) == Val(s, BASE) + x * Pow(BASE, i)
    {
      var t := s[i := x];
      ValTake(s, i);
      ValTake(t, i);
      assert t[..i] == s[..i] && t[i + 1..] == s[i + 1..];
      SameTop(s, t, i + 1);
    }

    static lemma SetLimbBit(s: seq<nat>, i: nat, b: nat, m: nat)
      requires i < |s| && b < 32 && Digits(s, BASE) && Val(s, BASE) == m * Pow(2, 32 * i + b + 1)
      ensures Or(s[i], Pow(2, b)) == s[i] + Pow(2, b) < BASE
    {
      var h := LimbMultiple(s, i, b, m);
      OrCommutes(s[i], Pow(2, b));
      LowMultiple(h, b + 1);
      OrIsSum(Pow(2, b), s[i], b + 1);
      LimbWidth();
      PowAdd(2, b + 1, 31 - b);
      RoomForBit(s[i], h, Pow(2, b + 1), Pow(2, 31 - b));
    }

    static lemma RoomForBit(x: nat, h: nat, g: nat, l: nat)
      requires g * l == BASE && x == h * g && x < BASE
      ensures x + g <= BASE
    {
      if h >= l {
        MulMono(l, h, g);
      } else {
        MulMono(h + 1, l, g);
        MulDist(g, h, 1);
      }
    }

    /** A limb of a multiple of a power of two. */
    static lemma LimbMultiple(s: seq<nat>, i: nat, b: nat, m: nat) returns (h: nat)
      requires i < |s| && b < 32 && Digits(s, BASE) && Val(s, BASE) == m * Pow(2, 32 * i + b + 1)
      ensures s[i] == h * Pow(2, b + 1)
    {
      var p, g, l := Pow(BASE, i), Pow(2, b + 1), Pow(2, 31 - b);
      LimbWidth();
      PowAdd(2, b + 1, 31 - b);
      LimbBits(i, b + 1);
      assert s == s[..i] + s[i..] && s[i..][1..] == s[i + 1..];
      ValSplit(s[..i], s[i..], BASE);
      ValBound(s[..i], BASE);
      h := MultipleDigit(Val(s[..i], BASE), p, s[i], Val(s[i + 1..], BASE), m, g, l);
    }

    static lemma MultipleDigit(low: nat, p: nat, x: nat, high: nat, m: nat, g: nat, l: nat) returns (h: nat)
      requires low < p && g >= 1 && g * l == BASE && low + p * (x + BASE * high) == m * (p * g)
      ensures x == h * g
    {
      SameMultiple(low, p, x + BASE * high, m * g) by {
        MulPositive(m, g);
        MulPositive(BASE, high);
        assert m * (p * g) == (m * g) * p;
      }
      h := DigitQuotient(x, high, m, g, l);
    }

    static lemma SameMultiple(low: nat, p: nat, u: nat, v: nat)
      requires low < p && low + p * u == v * p
      ensures u == v
    {
      DivModUnique(v * p, p, v, 0);
      DivModUnique(v * p, p, u, low);
    }

    static lemma DigitQuotient(x: nat, high: nat, m: nat, g: nat, l: nat) returns (h: nat)
      requires g >= 1 && g * l == BASE && x + BASE * high == m * g
      ensures x == h * g
    {
      assert BASE * high == (l * high) * g;
      MulDist(g, m - l * high, l * high);
      if m < l * high {
        MulMono(m + 1, l * high, g);
        MulDist(g, m, 1);
      }
      h := m - l * high;
    }
  }
}
