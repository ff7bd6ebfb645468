/**
  The compact encoding of targets (`SetCompact` and `GetCompact` in
  src/arith_uint256.cpp) and the work of a block (`GetBlockProof` in src/chain.cpp).

  A compact number has an exponent byte, a sign bit and a 23-bit mantissa and stands
  for mantissa * 256^(exponent - 3).
 */
module Compact {
  import opened Numbers
  import opened Arith

  function Exponent(c: nat): nat {
    c / 0x100_0000
  }

  function Mantissa(c: nat): nat {
    c % 0x80_0000
  }

  predicate Sign(c: nat) {
    (c / 0x80_0000) % 2 == 1
  }

  /** The magnitude a compact number stands for. */
  ghost function Meaning(c: nat): nat {
    MulPositive(Mantissa(c), Pow(256, Exponent(c)));
    (Mantissa(c) * Pow(256, Exponent(c))) / 0x100_0000
  }

  /** `c` is the encoding of `v`: the mantissa is the normalised leading part of `v`. */
  ghost predicate Encodes(c: nat, v: nat, negative: bool) {
    && c < 0x1_0000_0000
    && Mantissa(c) * Pow(256, Exponent(c)) <= v * 0x100_0000 < (Mantissa(c) + 1) * Pow(256, Exponent(c))
    && (if v == 0 then Exponent(c) == 0 else Mantissa(c) >= 0x8000)
    && Sign(c) == (negative && v != 0)
  }

  // ----- Decoding -----

  /** `SetCompact`. */
  method SetCompact(t: BaseUint, nCompact: nat) returns (negative: bool, overflow: bool)
    requires t.Valid() && t.pn.Length == 8 && nCompact < 0x1_0000_0000
    modifies t.pn
    ensures t.Valid() && t.Value() == Meaning(nCompact) % t.Modulus()
    ensures overflow <==> Meaning(nCompact) >= t.Modulus()
    ensures negative <==> Meaning(nCompact) != 0 && Sign(nCompact)
  {
    var size := nCompact / 0x100_0000;
    var word := nCompact % 0x80_0000;
    Width(t.pn.Length);
    if size <= 3 {
      word := Shr(word, 8 * (3 - size));
      SmallMeaning(nCompact);
      t.SetWord(word);
      DivModUnique(word, t.Modulus(), 0, word);
    } else {
      t.SetWord(word);
      t.ShiftLeft(8 * (size - 3));
      LargeMeaning(nCompact);
      PowBytes(size - 3);
      OverflowIff(word, size - 3, 4 * t.pn.Length);
    }
    negative := word != 0 && Sign(nCompact);
    overflow := word != 0 && (size > 34 || (word > 0xff && size > 33) || (word > 0xffff && size > 32));
  }

  lemma Width(n: nat)
    requires n >= 1
    ensures Pow(BASE, n) == Pow(256, 4 * n) > 0x100_0000
  {
    assert Pow(256, 4) == BASE;
    PowMul(256, 4, n);
    PowMono(256, 4, 4 * n);
  }

  lemma PowBytes(k: nat)
    ensures Pow(2, 8 * k) == Pow(256, k)
  {
    assert Pow(2, 8) == 256;
    PowMul(2, 8, k);
  }

  lemma SmallMeaning(c: nat)
    requires Exponent(c) <= 3
    ensures Meaning(c) == Shr(Mantissa(c), 8 * (3 - Exponent(c))) < 0x80_0000
  {
    var e, m := Exponent(c), Mantissa(c);
    var k := 8 * (3 - e);
    ShrLow(m, k);
    PowBytes(3 - e);
    PowAdd(256, 3 - e, e);
    assert Pow(256, 3) == 0x100_0000;
    SmallQuotient(m, Shr(m, k), Low(m, k), Pow(256, 3 - e), Pow(256, e));
  }

  lemma SmallQuotient(m: nat, q: nat, r: nat, g: nat, h: nat)
    requires m == q * g + r && r < g && g * h == 0x100_0000
    ensures 0 <= m * h && (m * h) / 0x100_0000 == q
  {
    MulDist(h, q * g, r);
    MulAssoc(q, g, h);
    MulMono(r + 1, g, h);
    MulDist(h, r, 1);
    MulPositive(m, h);
    MulPositive(r, h);
    DivModUnique(m * h, 0x100_0000, q, r * h);
  }

  lemma LargeMeaning(c: nat)
    requires Exponent(c) >= 3
    ensures Meaning(c) == Mantissa(c) * Pow(256, Exponent(c) - 3)
    ensures Meaning(c) == 0 <==> Mantissa(c) == 0
  {
    var e, m := Exponent(c), Mantissa(c);
    PowAdd(256, e - 3, 3);
    assert Pow(256, 3) == 0x100_0000;
    MulAssoc(m, Pow(256, e - 3), 0x100_0000);
    MulPositive(m, Pow(256, e - 3));
    DivModUnique(m * Pow(256, e), 0x100_0000, m * Pow(256, e - 3), 0);
  }

  /** The three tests of the source say exactly that 256 bits are not enough. */
  lemma OverflowIff(word: nat, k: nat, bytes: nat)
    requires word < 0x80_0000 && bytes >= 2
    ensures word * Pow(256, k) >= Pow(256, bytes) <==>
            word != 0 && (k >= bytes || (word > 0xff && k + 1 >= bytes) || (word > 0xffff && k + 2 >= bytes))
  {
    SmallPowers();
    if word == 0 {
    } else if word <= 0xff {
      BytesOverflow(word, 1, k, bytes);
    } else if word <= 0xffff {
      BytesOverflow(word, 2, k, bytes);
    } else {
      BytesOverflow(word, 3, k, bytes);
    }
  }

  lemma SmallPowers()
    ensures Pow(256, 0) == 1 && Pow(256, 1) == 256 && Pow(256, 2) == 0x1_0000 && Pow(256, 3) == 0x100_0000
  {
  }

  lemma BytesOverflow(word: nat, n: nat, k: nat, bytes: nat)
    requires n >= 1 && Pow(256, n - 1) <= word < Pow(256, n)
    ensures word * Pow(256, k) >= Pow(256, bytes) <==> n + k > bytes
  {
    var p := Pow(256, k);
    if n + k > bytes {
      PowMono(256, bytes, n - 1 + k);
      PowAdd(256, n - 1, k);
      MulMono(Pow(256, n - 1), word, p);
    } else {
      PowMono(256, n + k, bytes);
      PowAdd(256, n, k);
      MulMono(word + 1, Pow(256, n), p);
      MulDist(p, word, 1);
    }
  }

  // ----- Encoding -----

  /** `GetCompact`. */
  method GetCompact(t: BaseUint, fNegative: bool) returns (c: nat)
    requires t.Valid() && t.pn.Length == 8
    ensures Encodes(c, t.Value(), fNegative)
  {
    var m, size := LeadingBytes(t);
    ghost var v := t.Value();
    if (m / 0x80_0000) % 2 == 1 {
      LeadingShorter(m, size, v);
      m := m / 256;
      size := size + 1;
    }
    Assemble(m, size, v);
    c := Or(m, size * 0x100_0000);
    if fNegative && c % 0x80_0000 != 0 {
      c := Or(c, 0x80_0000);
    }
  }

  /** The first half of `GetCompact`: the size in bytes and the three leading bytes. */
  method LeadingBytes(t: BaseUint) returns (m: nat, size: nat)
    requires t.Valid() && t.pn.Length == 8
    ensures size <= 32 && m < 0x100_0000 && Leading(m, size, t.Value())
    ensures if t.Value() == 0 then m == 0 && size == 0 else m >= 0x1_0000
  {
    ghost var v := t.Value();
    var bits := t.Bits();
    size := (bits + 7) / 8;
    ghost var lead := LeadingPart(v, bits, size);
    if size <= 3 {
      var low := t.GetLow64();
      m := (low * Pow(2, 8 * (3 - size))) % BASE;
      ShiftedWord(v, low, Pow(2, 8 * (3 - size)), lead);
    } else {
      var bn := new BaseUint.Copy(t);
      bn.ShiftRight(8 * (size - 3));
      var low := bn.GetLow64();
      m := low % BASE;
      ShiftedWord(lead, low, 1, lead);
    }
  }

  lemma ShiftedWord(v: nat, low: nat, p: nat, lead: nat)
    requires low == v % (BASE * BASE) && v < 0x100_0000 && lead == v * p < 0x100_0000
    ensures 0 <= low * p && (low * p) % BASE == lead && (p == 1 ==> low % BASE == lead)
  {
    DivModUnique(v, BASE * BASE, 0, v);
    DivModUnique(lead, BASE, 0, lead);
  }

  lemma LeadingPart(v: nat, bits: nat, size: nat) returns (m: nat)
    requires size == (bits + 7) / 8
    requires if bits == 0 then v == 0 else Pow(2, bits - 1) <= v < Pow(2, bits)
    ensures if size <= 3 then v < 0x100_0000 && m == v * Pow(2, 8 * (3 - size)) else m == v / Pow(2, 8 * (size - 3))
    ensures m < 0x100_0000 && Leading(m, size, v)
    ensures if v == 0 then m == 0 else m >= 0x1_0000
  {
    if size <= 3 {
      FirstBytes(v, bits, size);
      m := v * Pow(2, 8 * (3 - size));
    } else {
      m := TopBytes(v, bits, size);
    }
    LeadingRange(m, size, v, bits);
  }

  /** `m` is the leading part of `v` when its last `e - 3` bytes are left out. */
  ghost predicate Leading(m: nat, e: nat, v: nat) {
    m * Pow(256, e) <= v * 0x100_0000 < (m + 1) * Pow(256, e)
  }

  lemma ByteRange(v: nat, bits: nat, size: nat)
    requires size == (bits + 7) / 8
    requires if bits == 0 then v == 0 else Pow(2, bits - 1) <= v < Pow(2, bits)
    ensures v < Pow(256, size) && (v > 0 ==> size >= 1 && Pow(256, size - 1) <= v)
  {
    if bits > 0 {
      PowMono(2, bits, 8 * size);
      PowMono(2, 8 * (size - 1), bits - 1);
      PowBytes(size);
      PowBytes(size - 1);
    }
  }

  lemma FirstBytes(v: nat, bits: nat, size: nat)
    requires size == (bits + 7) / 8 <= 3
    requires if bits == 0 then v == 0 else Pow(2, bits - 1) <= v < Pow(2, bits)
    ensures v < 0x100_0000
    ensures 0 <= v * Pow(2, 8 * (3 - size)) < 0x100_0000
    ensures Leading(v * Pow(2, 8 * (3 - size)), size, v)
  {
    var p, q := Pow(256, size), Pow(256, 3 - size);
    ByteRange(v, bits, size);
    PowBytes(3 - size);
    PowAdd(256, size, 3 - size);
    SmallPowers();
    MulMono(v + 1, p, q);
    MulDist(q, v, 1);
    MulMono(1, q, p);
    MulPositive(v, q);
    MulAssoc(v, q, p);
    MulDist(p, v * q, 1);
  }

  lemma TopBytes(v: nat, bits: nat, size: nat) returns (m: nat)
    requires size == (bits + 7) / 8 > 3
    requires if bits == 0 then v == 0 else Pow(2, bits - 1) <= v < Pow(2, bits)
    ensures m == v / Pow(2, 8 * (size - 3)) < 0x100_0000 && Leading(m, size, v)
  {
    ByteRange(v, bits, size);
    PowBytes(size - 3);
    PowAdd(256, size - 3, 3);
    SmallPowers();
    var r;
    m, r := Divide(v, Pow(2, 8 * (size - 3)));
    TopQuotient(v, Pow(2, 8 * (size - 3)), m, r);
  }

  lemma TopQuotient(v: nat, g: nat, q: nat, r: nat)
    requires v == q * g + r && r < g && v < g * 0x100_0000
    ensures q < 0x100_0000
    ensures q * (g * 0x100_0000) <= v * 0x100_0000 < (q + 1) * (g * 0x100_0000)
  {
    if q >= 0x100_0000 {
      MulMono(0x100_0000, q, g);
    }
    MulAssoc(q, g, 0x100_0000);
    MulAssoc(q + 1, g, 0x100_0000);
    MulDist(g, q, 1);
  }

  lemma LeadingRange(m: nat, size: nat, v: nat, bits: nat)
    requires size == (bits + 7) / 8 && Leading(m, size, v)
    requires if bits == 0 then v == 0 else Pow(2, bits - 1) <= v < Pow(2, bits)
    ensures v == 0 ==> m == 0
    ensures v > 0 ==> 0x1_0000 <= m
  {
    ByteRange(v, bits, size);
    SmallPowers();
    if v == 0 {
      assert Pow(256, size) == 1;
    } else {
      LeadingFloor(m, Pow(256, size - 1), v);
    }
  }

  lemma LeadingFloor(m: nat, p: nat, v: nat)
    requires p <= v && v * 0x100_0000 < (m + 1) * (256 * p)
    ensures m >= 0x1_0000
  {
    if m + 1 <= 0x1_0000 {
      MulMono(m + 1, 0x1_0000, 256 * p);
    }
  }

  /** Leaving out one more byte. */
  lemma LeadingShorter(m: nat, e: nat, v: nat)
    requires Leading(m, e, v)
    ensures Leading(m / 256, e + 1, v)
  {
    var p, q := Pow(256, e), m / 256;
    MulMono(256 * q, m, p);
    MulMono(m + 1, 256 * (q + 1), p);
    assert q * (256 * p) == (256 * q) * p && (q + 1) * (256 * p) == (256 * (q + 1)) * p;
  }

  /** Putting the three fields together. */
  lemma Assemble(m: nat, e: nat, v: nat)
    requires m < 0x80_0000 && e < 256 && Leading(m, e, v)
    requires if v == 0 then e == 0 && m == 0 else m >= 0x8000
    ensures var c := Or(m, e * 0x100_0000);
            c % 0x80_0000 == m && Encodes(c, v, false) && (m != 0 ==> Encodes(Or(c, 0x80_0000), v, true))
              && (m == 0 ==> Encodes(c, v, true))
  {
    AssembleBits(m, e);
    Fields(m, e);
    EncodesFields(m + e * 0x100_0000, v);
    EncodesFields(m + 0x80_0000 + e * 0x100_0000, v);
  }

  lemma Fields(m: nat, e: nat)
    requires m < 0x80_0000
    ensures var c := m + e * 0x100_0000; Mantissa(c) == m && Exponent(c) == e && !Sign(c)
    ensures var c := m + 0x80_0000 + e * 0x100_0000; Mantissa(c) == m && Exponent(c) == e && Sign(c)
  {
    var c := m + e * 0x100_0000;
    DivModUnique(c, 0x100_0000, e, m);
    DivModUnique(c, 0x80_0000, 2 * e, m);
    DivModUnique(c + 0x80_0000, 0x100_0000, e, m + 0x80_0000);
    DivModUnique(c + 0x80_0000, 0x80_0000, 2 * e + 1, m);
  }

  lemma EncodesFields(c: nat, v: nat)
    requires c < 0x1_0000_0000 && Leading(Mantissa(c), Exponent(c), v)
    requires if v == 0 then Exponent(c) == 0 else Mantissa(c) >= 0x8000
    ensures !Sign(c) ==> Encodes(c, v, false) && (v == 0 ==> Encodes(c, v, true))
    ensures Sign(c) && v != 0 ==> Encodes(c, v, true)
  {
  }

  lemma AssembleBits(m: nat, e: nat)
    requires m < 0x80_0000
    ensures Or(m, e * 0x100_0000) == m + e * 0x100_0000
    ensures Or(m + e * 0x100_0000, 0x80_0000) == m + 0x80_0000 + e * 0x100_0000
  {
    PowAdd(2, 8, 8);
    PowAdd(2, 16, 7);
    assert Pow(2, 7) == 128 && Pow(2, 8) == 256;
    AssembleAt(m, e, 23);
  }

  lemma AssembleAt(m: nat, e: nat, s: nat)
    requires m < Pow(2, s) == 0x80_0000
    ensures Or(m, e * 0x100_0000) == m + e * 0x100_0000
    ensures Or(m + e * 0x100_0000, 0x80_0000) == m + 0x80_0000 + e * 0x100_0000
  {
    LowMultiple(e, s + 1);
    LowMultiple(1, s);
    OrIsSum(m, e * 0x100_0000, s + 1);
    OrAbove(m, 0x80_0000, e * 0x100_0000, s + 1);
    OrIsSum(m, 0x80_0000, s);
  }

  // ----- Round trips -----

  /** A number has one encoding. */
  lemma EncodesUnique(c: nat, d: nat, v: nat, negative: bool)
    requires Encodes(c, v, negative) && Encodes(d, v, negative)
    ensures c == d
  {
    SmallPowers();
    if v > 0 {
      ExponentOrder(c, d, v);
      ExponentOrder(d, c, v);
    }
    SameQuotient(Mantissa(c), Mantissa(d), Pow(256, Exponent(c)), v * 0x100_0000);
    FieldsDetermine(c, d);
  }

  lemma FieldsDetermine(c: nat, d: nat)
    requires Exponent(c) == Exponent(d) && Mantissa(c) == Mantissa(d) && Sign(c) == Sign(d)
    ensures c == d
  {
    assert c / 0x100_0000 == c / 0x80_0000 / 2 && d / 0x100_0000 == d / 0x80_0000 / 2;
  }

  lemma SameQuotient(m: nat, n: nat, p: nat, x: nat)
    requires m * p <= x < (m + 1) * p && n * p <= x < (n + 1) * p
    ensures m == n
  {
    if m < n {
      MulMono(m + 1, n, p);
    } else if n < m {
      MulMono(n + 1, m, p);
    }
  }

  lemma ExponentOrder(c: nat, d: nat, v: nat)
    requires Leading(Mantissa(c), Exponent(c), v) && Leading(Mantissa(d), Exponent(d), v)
    requires Mantissa(d) >= 0x8000
    ensures Exponent(d) <= Exponent(c)
  {
    var e, f := Exponent(c), Exponent(d);
    if e < f {
      var p := Pow(256, e);
      PowMono(256, e + 1, f);
      MulMono(Mantissa(c) + 1, 0x80_0000, p);
      MulMono(0x8000, Mantissa(d), Pow(256, f));
    }
  }

  /**
    Decoding an encoding loses at most what is below the last mantissa byte, never
    overflows and never changes the sign, and what is left encodes to the same bits.
   */
  lemma RoundTrip(c: nat, v: nat, negative: bool)
    requires Encodes(c, v, negative)
    ensures Meaning(c) <= v
    ensures if Exponent(c) <= 3 then Meaning(c) == v else v - Meaning(c) < Pow(256, Exponent(c) - 3)
    ensures Meaning(c) == 0 <==> v == 0
    ensures Encodes(c, Meaning(c), negative)
  {
    var m, e := Mantissa(c), Exponent(c);
    SmallPowers();
    if e <= 3 {
      PowAdd(256, e, 3 - e);
      ExactWhenShort(m, Pow(256, e), Pow(256, 3 - e), v);
    } else {
      LargeMeaning(c);
      PowAdd(256, e - 3, 3);
      TruncatedWhenLong(m, Pow(256, e - 3), v);
      MulPositive(m, Pow(256, e - 3));
      MulDist(Pow(256, e), m, 1);
    }
  }

  lemma ExactWhenShort(m: nat, p: nat, q: nat, v: nat)
    requires p * q == 0x100_0000 && m * p <= v * 0x100_0000 < (m + 1) * p
    ensures m * p == v * 0x100_0000 && (m * p) / 0x100_0000 == v
  {
    MulPositive(v, q);
    MulAssoc(v, q, p);
    MulDist(p, v * q, 1);
    SameQuotient(m, v * q, p, v * 0x100_0000);
  }

  lemma TruncatedWhenLong(m: nat, g: nat, v: nat)
    requires m * (g * 0x100_0000) <= v * 0x100_0000 < (m + 1) * (g * 0x100_0000)
    ensures m * g <= v < m * g + g
  {
    MulAssoc(m, g, 0x100_0000);
    MulAssoc(m + 1, g, 0x100_0000);
    MulDist(g, m, 1);
  }

  /** The words that some number encodes to. */
  ghost predicate Canonical(c: nat) {
    c == 0 || (Mantissa(c) >= 0x8000 && (Exponent(c) <= 3 ==> Low(Mantissa(c), 8 * (3 - Exponent(c))) == 0))
  }

  /** What a word stands for encodes to the same word exactly for the canonical ones, whatever its size. */
  lemma ReencodesIff(c: nat)
    requires c < 0x1_0000_0000
    ensures Encodes(c, Meaning(c), Sign(c)) <==> Canonical(c)
  {
    if Exponent(c) <= 3 {
      ShortReencodes(c);
    } else {
      LargeMeaning(c);
      var m, e := Mantissa(c), Exponent(c);
      SmallPowers();
      PowAdd(256, e - 3, 3);
      MulAssoc(m, Pow(256, e - 3), 0x100_0000);
      MulDist(Pow(256, e), m, 1);
    }
  }

  lemma ShortReencodes(c: nat)
    requires c < 0x1_0000_0000 && Exponent(c) <= 3
    ensures Encodes(c, Meaning(c), Sign(c)) <==> Canonical(c)
  {
    var m, e := Mantissa(c), Exponent(c);
    var k := 8 * (3 - e);
    SmallPowers();
    SmallMeaning(c);
    ShrLow(m, k);
    PowBytes(3 - e);
    PowAdd(256, 3 - e, e);
    ShortLeads(m, Shr(m, k), Low(m, k), Pow(256, 3 - e), Pow(256, e));
    assert Low(m, k) == 0 ==> (m == 0 <==> Meaning(c) == 0);
    ReencodesFields(c, Meaning(c), Low(m, k) == 0);
  }

  lemma ReencodesFields(c: nat, v: nat, exact: bool)
    requires c < 0x1_0000_0000 && Exponent(c) <= 3 && (exact <==> Leading(Mantissa(c), Exponent(c), v))
    requires (c == 0 ==> v == 0) && (exact ==> (Mantissa(c) == 0 <==> v == 0))
    ensures Encodes(c, v, Sign(c)) <==> c == 0 || (Mantissa(c) >= 0x8000 && exact)
  {
    if Mantissa(c) == 0 && Exponent(c) == 0 && !Sign(c) {
      FieldsDetermine(c, 0);
    }
  }

  lemma ShortLeads(m: nat, q: nat, r: nat, g: nat, h: nat)
    requires m == q * g + r && r < g && g * h == 0x100_0000
    ensures m * h <= q * 0x100_0000 < (m + 1) * h <==> r == 0
  {
    MulDist(h, q * g, r);
    MulAssoc(q, g, h);
    MulDist(h, m, 1);
    if r > 0 {
      MulMono(1, r, h);
    }
  }

  /** For every number of 256 bits: encode, decode and encode again. */
  method CompactRoundTrip(x: BaseUint) returns (c: nat, y: BaseUint, negative: bool, overflow: bool, again: nat)
    requires x.Valid() && x.pn.Length == 8
    ensures y.Valid() && !negative && !overflow && y.Value() <= x.Value()
    ensures if Exponent(c) <= 3 then y.Value() == x.Value() else x.Value() - y.Value() < Pow(256, Exponent(c) - 3)
    ensures again == c
  {
    c := GetCompact(x, false);
    ghost var v := x.Value();
    RoundTrip(c, v, false);
    ValBound(x.pn[..], BASE);
    y := new BaseUint(8);
    DivModUnique(Meaning(c), y.Modulus(), 0, Meaning(c));
    negative, overflow := SetCompact(y, c);
    again := GetCompact(y, false);
    EncodesUnique(again, c, Meaning(c), false);
    assert x.Value() == v;
  }

  /**
    For every word of 32 bits: decode and encode.  It comes back if and only if it is
    canonical and does not overflow.
   */
  method WordRoundTrip(c: nat) returns (again: nat)
    requires c < 0x1_0000_0000
    ensures again == c <==> Canonical(c) && Meaning(c) < Pow(BASE, 8)
  {
    var t := new BaseUint(8);
    var negative, overflow := SetCompact(t, c);
    again := GetCompact(t, negative);
    ghost var v := t.Value();
    assert v == Meaning(c) % Pow(BASE, 8);
    ModBelow(Meaning(c), Pow(BASE, 8));
    if !overflow {
      assert Encodes(c, v, Sign(c)) <==> Encodes(c, v, negative);
      ReencodesIff(c);
    } else if Encodes(c, v, negative) {
      RoundTrip(c, v, negative);
    }
    if Encodes(c, v, negative) {
      EncodesUnique(again, c, v, negative);
    }
  }

  lemma ModBelow(x: nat, m: nat)
    requires m > 0
    ensures x % m < m && (x < m ==> x % m == x)
  {
    if x < m {
      DivModUnique(x, m, 0, x);
    }
  }

  /** A canonical word is not enough: this one stands for 2^271 and comes back as another. */
  lemma CanonicalMayOverflow()
    ensures Canonical(0x2300_8000) && Meaning(0x2300_8000) >= Pow(BASE, 8)
  {
    var c := 0x2300_8000;
    assert Exponent(c) == 35 && Mantissa(c) == 0x8000;
    LargeMeaning(c);
    OverflowIff(0x8000, 32, 32);
    Width(8);
  }

  // ----- Work -----

  /** A target the node takes: positive, not zero and within the width. */
  ghost predicate TargetInRange(nBits: nat, modulus: nat) {
    !Sign(nBits) && 0 < Meaning(nBits) < modulus
  }

  /** `GetBlockProof`: the expected number of hashes, and its division is never by zero. */
  method GetBlockProof(nBits: nat) returns (r: BaseUint)
    requires nBits < 0x1_0000_0000
    ensures r.Valid() && r.pn.Length == 8
    ensures TargetInRange(nBits, r.Modulus()) ==> r.Value() == r.Modulus() / (Meaning(nBits) + 1)
    ensures !TargetInRange(nBits, r.Modulus()) ==> r.Value() == 0
  {
    var target := new BaseUint(8);
    var negative, overflow := SetCompact(target, nBits);
    ghost var modulus := target.Modulus();
    var isZero := target.EqualTo(0);
    if negative || overflow || isZero {
      r := new BaseUint(8);
      return;
    }
    DivModUnique(Meaning(nBits), modulus, 0, Meaning(nBits));
    NotAllOnes(nBits, 8);
    r := Expected(target);
  }

  /** The arithmetic of `GetBlockProof` on a target that is not all ones. */
  method Expected(target: BaseUint) returns (r: BaseUint)
    requires target.Valid() && target.pn.Length == 8 && 0 < target.Value() < target.Modulus() - 1
    ensures r.Valid() && r.pn.Length == 8 && r.Value() == r.Modulus() / (target.Value() + 1)
  {
    ghost var t, modulus := target.Value(), target.Modulus();
    var one := new BaseUint(8);
    one.SetWord(1);
    var next := new BaseUint.Copy(target);
    next.Add(one);
    DivModUnique(t + 1, modulus, 0, t + 1);
    assert target.Value() == t;
    r := target.Complement();
    assert next.Value() == t + 1 && one.Value() == 1;
    var ok := r.DivideBy(next);
    assert ok && one.Value() == 1;
    ghost var q := r.Value();
    r.Add(one);
    ExpectedLemma(t, modulus, q, r.Value());
  }

  lemma ExpectedLemma(t: nat, m: nat, q: nat, w: nat)
    requires 0 < t < m - 1 && q == (m - 1 - t) / (t + 1) && w == (q + 1) % m
    ensures w == m / (t + 1)
  {
    var q', r := Divide(m - 1 - t, t + 1);
    MulDist(t + 1, q, 1);
    DivModUnique(m, t + 1, q + 1, r);
    MulMono(2, t + 1, q + 1);
    DivModUnique(q + 1, m, 0, q + 1);
  }

  /** No compact number stands for the largest number of the width. */
  lemma NotAllOnes(c: nat, n: nat)
    requires n >= 1
    ensures Meaning(c) != Pow(BASE, n) - 1
  {
    Width(n);
    if Exponent(c) <= 3 {
      SmallMeaning(c);
    } else {
      LargeMeaning(c);
      var x, y := Mantissa(c) * Pow(256, Exponent(c) - 4), Pow(256, 4 * n - 1);
      assert Meaning(c) == 256 * x;
      assert Pow(256, 4 * n) == 256 * y;
    }
  }
}
