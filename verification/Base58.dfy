/**
  Base58 and Base58Check (src/base58.cpp).  The carry loops work in place on a
  buffer, as in the source; what they compute is stated by the number the digits
  stand for.
 */
module Base58 {
  import opened Numbers

  // ----- The alphabet -----

  /** All alphanumeric characters except "0", "I", "O" and "l", in ascending order. */
  function CharAt(d: nat): char
    requires d < 58
  {
    if d < 9 then '1' + d as char
    else if d < 17 then 'A' + (d - 9) as char
    else if d < 22 then 'J' + (d - 17) as char
    else if d < 33 then 'P' + (d - 22) as char
    else if d < 44 then 'a' + (d - 33) as char
    else 'm' + (d - 44) as char
  }

  lemma AlphabetText()
    ensures seq(58, i requires 0 <= i < 58 => CharAt(i))
            == "123456789" + "ABCDEFGH" + "JKLMN" + "PQRSTUVWXYZ" + "abcdefghijk" + "mnopqrstuvwxyz"
  {
    var u := seq(58, i requires 0 <= i < 58 => CharAt(i));
    assert u[0..9] == "123456789";
    assert u[9..17] == "ABCDEFGH";
    assert u[17..22] == "JKLMN";
    assert u[22..33] == "PQRSTUVWXYZ";
    assert u[33..44] == "abcdefghijk";
    assert u[44..58] == "mnopqrstuvwxyz";
    assert u == u[0..9] + u[9..17] + u[17..22] + u[22..33] + u[33..44] + u[44..58];
  }

  /** `strchr`: the first position of a character, if there is one. */
  function Find(c: char, i: nat): (r: int)
    requires i <= 58
    ensures r == -1 || (i <= r < 58 && CharAt(r) == c)
    ensures r == -1 ==> forall k :: i <= k < 58 ==> CharAt(k) != c
    decreases 58 - i
  {
    if i == 58 then -1 else if CharAt(i) == c then i else Find(c, i + 1)
  }

  predicate IsDigit(c: char) {
    Find(c, 0) >= 0
  }

  function DigitOf(c: char): (d: nat)
    requires IsDigit(c)
    ensures d < 58 && CharAt(d) == c
  {
    Find(c, 0)
  }

  lemma DigitOfChar(d: nat)
    requires d < 58
    ensures IsDigit(CharAt(d)) && DigitOf(CharAt(d)) == d
  {
    var r := Find(CharAt(d), 0);
  }

  // ----- What an encoding preserves -----

  /** The number of leading zeros. */
  ghost function Zeros(s: seq<nat>): (n: nat)
    ensures n <= |s| && (forall k :: 0 <= k < n ==> s[k] == 0) && (n < |s| ==> s[n] != 0)
  {
    if s == [] || s[0] != 0 then 0 else 1 + Zeros(s[1..])
  }

  /** Two digit strings stand for the same bytes: equal leading zeros and equal value. */
  ghost predicate Same(x: seq<nat>, b: nat, y: seq<nat>, c: nat) {
    Zeros(x) == Zeros(y) && Big(x, b) == Big(y, c)
  }

  /** Leading zeros and value determine the digits. */
  lemma SameUnique(x: seq<nat>, y: seq<nat>, base: nat)
    requires base >= 1 && Digits(x, base) && Digits(y, base) && Same(x, base, y, base)
    ensures x == y
  {
    var z := Zeros(x);
    StripTop(x, z, base);
    StripTop(y, z, base);
    BigUnique(x[z..], y[z..], base);
    assert x == x[..z] + x[z..] && y == y[..z] + y[z..] && x[..z] == y[..z];
  }

  lemma {:induction false} ZerosThen(z: seq<nat>, t: seq<nat>)
    requires (forall k :: 0 <= k < |z| ==> z[k] == 0) && (t != [] ==> t[0] != 0)
    ensures Zeros(z + t) == |z|
    decreases |z|
  {
    if z == [] {
      assert z + t == t;
    } else {
      ZerosThen(z[1..], t);
      assert (z + t)[1..] == z[1..] + t;
    }
  }

  // ----- The carry loop -----

  /** `buf = buf * mul + ch`, on the digits in use. */
  method AppendDigit(buf: array<nat>, base: nat, mul: nat, ch: nat, length: nat) returns (used: nat)
    requires base >= 2 && Digits(buf[..], base) && length <= buf.Length
    requires forall k :: 0 <= k < buf.Length - length ==> buf[k] == 0
    requires Big(buf[..], base) * mul + ch < Pow(base, buf.Length)
    modifies buf
    ensures Digits(buf[..], base) && used <= buf.Length
    ensures forall k :: 0 <= k < buf.Length - used ==> buf[k] == 0
    ensures Big(buf[..], base) == old(Big(buf[..], base)) * mul + ch
  {
    ghost var x := buf[..];
    var carry;
    used, carry := PropagateCarry(buf, base, mul, ch, length);
    CarryGone(buf[..], x, base, mul, ch, carry, used);
  }

  /** The loop of `AppendDigit`, which stops when nothing is left to carry or the buffer ends. */
  method PropagateCarry(buf: array<nat>, base: nat, mul: nat, ch: nat, length: nat) returns (i: nat, carry: nat)
    requires base >= 2 && Digits(buf[..], base) && length <= buf.Length
    modifies buf
    ensures Digits(buf[..], base) && i <= buf.Length && (i == buf.Length || (carry == 0 && i >= length))
    ensures buf[..buf.Length - i] == old(buf[..])[..buf.Length - i]
    ensures Carried(buf[..][buf.Length - i..], old(buf[..])[buf.Length - i..], base, mul, ch, carry)
  {
    ghost var x := buf[..];
    var n := buf.Length;
    carry, i := ch, 0;
    assert x[n..] == buf[..][n..] == [];
    while (carry != 0 || i < length) && i < n
      invariant i <= n && Digits(buf[..], base)
      invariant forall k :: 0 <= k < n - i ==> buf[k] == x[k]
      invariant Carried(buf[..][n - i..], x[n - i..], base, mul, ch, carry)
    {
      ghost var s := buf[..];
      var j := n - 1 - i;
      MulPositive(mul, buf[j]);
      var q, r := QuotientAndRest(carry + mul * buf[j], base);
      CarriedNext(s[n - i..], x[n - i..], base, mul, ch, carry, x[j], r, q);
      buf[j] := r;
      carry := q;
      OneMore(s, buf[..], j, r);
      OneMore(x, x, j, x[j]);
      i := i + 1;
    }
  }

  method QuotientAndRest(w: nat, base: nat) returns (q: nat, r: nat)
    requires base >= 1
    ensures w == q * base + r && r < base
  {
    q, r := w / base, w % base;
  }

  /** The low digits and the carry out of them hold the low digits of the product. */
  ghost predicate Carried(s: seq<nat>, x: seq<nat>, base: nat, mul: nat, ch: nat, carry: nat) {
    |s| == |x| && Big(s, base) + carry * Pow(base, |s|) == Big(x, base) * mul + ch
  }

  lemma OneMore(s: seq<nat>, t: seq<nat>, j: nat, r: nat)
    requires j < |s| == |t| && t[j] == r && t[j + 1..] == s[j + 1..]
    ensures t[j..] == [r] + s[j + 1..]
  {
  }

  lemma CarriedNext(s: seq<nat>, x: seq<nat>, base: nat, mul: nat, ch: nat, carry: nat, xi: nat, r: nat, q: nat)
    requires Carried(s, x, base, mul, ch, carry) && carry + mul * xi == q * base + r
    ensures Carried([r] + s, [xi] + x, base, mul, ch, q)
  {
    BigCons(r, s, base);
    BigCons(xi, x, base);
    CarriedStep(Big(s, base), Big(x, base), Pow(base, |s|), base, mul, ch, carry, xi, r, q);
  }

  lemma CarriedStep(s: int, x: int, p: int, base: int, mul: int, ch: int, carry: int, xi: int, r: int, q: int)
    requires s + carry * p == x * mul + ch && carry + mul * xi == q * base + r
    ensures (r * p + s) + q * (base * p) == (xi * p + x) * mul + ch
  {
    calc {
      (r * p + s) + q * (base * p);
      (q * base + r) * p + s;
      (carry + mul * xi) * p + s;
      (s + carry * p) + mul * xi * p;
      (xi * p + x) * mul + ch;
    }
  }

  /** The buffer is large enough, so no carry is left over. */
  lemma CarryGone(s: seq<nat>, x: seq<nat>, base: nat, mul: nat, ch: nat, carry: nat, i: nat)
    requires base >= 2 && i <= |s| == |x| && s[..|s| - i] == x[..|s| - i]
    requires Carried(s[|s| - i..], x[|s| - i..], base, mul, ch, carry)
    requires carry == 0 || i == |s|
    requires Big(x, base) * mul + ch < Pow(base, |s|)
    requires carry == 0 ==> forall k :: 0 <= k < |s| - i ==> x[k] == 0
    ensures carry == 0 && Big(s, base) == Big(x, base) * mul + ch
  {
    var j := |s| - i;
    if i == |s| {
      assert s[j..] == s && x[j..] == x;
      NoCarry(Big(s, base), carry, Pow(base, |s|), Big(x, base) * mul + ch);
    } else {
      StripBoth(s, x, j, base);
    }
  }

  lemma StripBoth(s: seq<nat>, x: seq<nat>, j: nat, base: nat)
    requires j <= |s| == |x| && s[..j] == x[..j] && forall k :: 0 <= k < j ==> x[k] == 0
    ensures Big(s, base) == Big(s[j..], base) && Big(x, base) == Big(x[j..], base)
  {
    forall k | 0 <= k < j ensures s[k] == 0 {
      assert s[k] == s[..j][k] == x[..j][k] == x[k];
    }
    StripTop(s, j, base);
    StripTop(x, j, base);
  }

  lemma StripTop(s: seq<nat>, j: nat, base: nat)
    requires j <= |s| && forall k :: 0 <= k < j ==> s[k] == 0
    ensures Big(s, base) == Big(s[j..], base)
  {
    assert s == s[..j] + s[j..];
    BigZeros(s[..j], s[j..], base);
  }

  lemma NoCarry(s: nat, carry: nat, p: nat, v: int)
    requires s + carry * p == v < p
    ensures carry == 0
  {
    if carry > 0 {
      MulMono(1, carry, p);
    }
  }

  // ----- The buffers are large enough -----

  /** n bytes fit into n * 138 / 100 + 1 base-58 digits. */
  lemma EncodeFits(n: nat)
    ensures Pow(256, n) <= Pow(58, n * 138 / 100 + 1)
  {
    var q, r := n / 8, n % 8;
    EightTimes(q);
    EncodeFitsSmall(r);
    FitsSum(256, 58, 8 * q, 11 * q, r, r * 138 / 100 + 1);
    PowMono(58, 11 * q + r * 138 / 100 + 1, n * 138 / 100 + 1);
  }

  lemma EightTimes(q: nat)
    ensures Pow(256, 8 * q) <= Pow(58, 11 * q)
  {
    EightBytes();
    FitsTimes(256, 58, q, 8, 11);
  }

  lemma EightBytes()
    ensures Pow(256, 8) <= Pow(58, 11)
  {
    assert Pow(256, 4) == 4294967296 && Pow(58, 5) == 656356768 && Pow(58, 6) == 38068692544;
    PowValue(256, 4, 4, 4294967296, 4294967296);
    PowValue(58, 5, 6, 656356768, 38068692544);
  }

  lemma EncodeFitsSmall(n: nat)
    requires n < 8
    ensures Pow(256, n) <= Pow(58, n * 138 / 100 + 1)
  {
    assert Pow(256, 0) == 1 && Pow(256, 1) == 256 && Pow(256, 2) == 65536 && Pow(256, 3) == 16777216;
    assert Pow(256, 4) == 4294967296 && Pow(256, 5) == 1099511627776;
    assert Pow(256, 6) == 281474976710656 && Pow(256, 7) == 72057594037927936;
    assert Pow(58, 1) == 58 && Pow(58, 2) == 3364 && Pow(58, 3) == 195112;
    assert Pow(58, 5) == 656356768 && Pow(58, 6) == 38068692544 && Pow(58, 7) == 2207984167552;
    assert Pow(58, 9) == 7427658739644928 && Pow(58, 10) == 430804206899405824;
  }

  lemma ProductMono(a: nat, b: nat, c: nat, d: nat)
    requires a <= b && c <= d
    ensures a * c <= b * d
  {
    MulMono(a, b, c);
    MulMono(c, d, b);
  }

  /** n base-58 digits fit into n * 733 / 1000 + 1 bytes. */
  lemma DecodeFits(n: nat)
    ensures Pow(58, n) <= Pow(256, n * 733 / 1000 + 1)
  {
    var q, r := n / 71, n % 71;
    SeventyOneTimes(q);
    DecodeFitsSmall(r);
    FitsSum(58, 256, 71 * q, 52 * q, r, r * 733 / 1000 + 1);
    BytesForMore(n, q, r);
    PowMono(256, 52 * q + r * 733 / 1000 + 1, n * 733 / 1000 + 1);
  }

  lemma DecodeFitsSmall(n: nat)
    requires n < 71
    ensures Pow(58, n) <= Pow(256, n * 733 / 1000 + 1)
  {
    var q, r := n / 15, n % 15;
    FifteenTimes(q);
    DecodeFitsRest(r);
    FitsSum(58, 256, 15 * q, 11 * q, r, r - r / 4);
    BytesNeeded(n, q, r);
    PowMono(256, 11 * q + r - r / 4, n * 733 / 1000 + 1);
  }

  lemma BytesForMore(n: nat, q: nat, r: nat)
    requires n == 71 * q + r
    ensures 52 * q + r * 733 / 1000 + 1 <= n * 733 / 1000 + 1
  {
    assert n * 733 == 1000 * (52 * q) + (43 * q + 733 * r);
  }

  lemma BytesNeeded(n: nat, q: nat, r: nat)
    requires n == 15 * q + r < 71 && r < 15
    ensures 11 * q + r - r / 4 <= n * 733 / 1000 + 1
  {
  }

  lemma SeventyOneTimes(q: nat)
    ensures Pow(58, 71 * q) <= Pow(256, 52 * q)
  {
    SeventyOneDigits();
    FitsTimes(58, 256, q, 71, 52);
  }

  lemma FifteenTimes(q: nat)
    ensures Pow(58, 15 * q) <= Pow(256, 11 * q)
  {
    FifteenDigits();
    FitsTimes(58, 256, q, 15, 11);
  }

  lemma {:induction false} FitsTimes(b: nat, c: nat, q: nat, x: nat, e: nat)
    requires Pow(b, x) <= Pow(c, e)
    ensures Pow(b, x * q) <= Pow(c, e * q)
    decreases q
  {
    if q > 0 {
      FitsTimes(b, c, q - 1, x, e);
      FitsSum(b, c, x * (q - 1), e * (q - 1), x, e);
      assert x * q == x * (q - 1) + x && e * q == e * (q - 1) + e;
    }
  }

  lemma FitsSum(b: nat, c: nat, x: nat, e: nat, y: nat, f: nat)
    requires Pow(b, x) <= Pow(c, e) && Pow(b, y) <= Pow(c, f)
    ensures Pow(b, x + y) <= Pow(c, e + f)
  {
    PowAdd(b, x, y);
    PowAdd(c, e, f);
    ProductMono(Pow(b, x), Pow(c, e), Pow(b, y), Pow(c, f));
  }

  lemma Powers58()
    ensures Pow(58, 0) == 1 && Pow(58, 1) == 58 && Pow(58, 2) == 3364 && Pow(58, 3) == 195112 && Pow(58, 4) == 11316496
    ensures Pow(58, 5) == 656356768 && Pow(58, 6) == 38068692544 && Pow(58, 7) == 2207984167552
  {
  }

  lemma FifteenDigits()
    ensures Pow(58, 15) <= Pow(256, 11)
  {
    Powers58();
    assert Pow(256, 4) == 4294967296 && Pow(256, 3) == 16777216;
    PowValue(58, 7, 7, 2207984167552, 2207984167552);
    PowValue(58, 14, 1, 4875194084160298409672704, 58);
    PowValue(256, 4, 4, 4294967296, 4294967296);
    PowValue(256, 8, 3, 18446744073709551616, 16777216);
  }

  lemma {:induction false} DecodeFitsRest(r: nat)
    ensures Pow(58, r) <= Pow(256, r - r / 4)
    decreases r
  {
    Powers58();
    assert Pow(256, 0) == 1 && Pow(256, 1) == 256 && Pow(256, 2) == 65536 && Pow(256, 3) == 16777216;
    if r >= 4 {
      var e := r - 4 - (r - 4) / 4;
      DecodeFitsRest(r - 4);
      FitsSum(58, 256, r - 4, e, 4, 3);
    }
  }

  lemma PowValue(b: nat, x: nat, y: nat, p: nat, q: nat)
    requires Pow(b, x) == p && Pow(b, y) == q
    ensures Pow(b, x + y) == p * q
  {
    PowAdd(b, x, y);
  }

  lemma SeventyOneDigits()
    ensures Pow(58, 71) <= Pow(256, 52)
  {
    Powers58();
    assert Pow(256, 4) == 4294967296;
    PowValue(58, 7, 7, 2207984167552, 2207984167552);
    PowValue(58, 14, 14, 4875194084160298409672704, 4875194084160298409672704);
    PowValue(58, 28, 7, 23767517358231570773047645414309870043308402671616, 2207984167552);
    PowValue(58, 35, 35, 52478302028992644968172978478148648556151605660894866578604032,
             52478302028992644968172978478148648556151605660894866578604032);
    PowValue(58, 70, 1,
             0x42A80443DEB070F6A6540E34CA0FD38892D9FC7D024451112C093C5A49CCF46CB49E6F8654C8FCB364966400000000000000000,
             58);
    PowValue(256, 4, 4, 4294967296, 4294967296);
    PowValue(256, 8, 8, 18446744073709551616, 18446744073709551616);
    PowValue(256, 16, 16, 340282366920938463463374607431768211456, 340282366920938463463374607431768211456);
    PowValue(256, 32, 16, 115792089237316195423570985008687907853269984665640564039457584007913129639936,
             340282366920938463463374607431768211456);
    PowValue(256, 48, 4,
             0x1000000000000000000000000000000000000000000000000000000000000000000000000000000000000000000000000,
             4294967296);
  }

  // ----- Encoding -----

  ghost predicate AllDigits(s: string) {
    forall i :: 0 <= i < |s| ==> IsDigit(s[i])
  }

  ghost function DigitsOf(s: string): (r: seq<nat>)
    requires AllDigits(s)
    ensures |r| == |s| && Digits(r, 58) && forall i :: 0 <= i < |s| ==> r[i] == DigitOf(s[i])
  {
    seq(|s|, i requires 0 <= i < |s| => DigitOf(s[i]))
  }

  /** `EncodeBase58`: the text has the leading zeros and the value of the bytes. */
  method EncodeBase58(v: seq<nat>) returns (str: string)
    requires Digits(v, 256)
    ensures AllDigits(str) && Same(v, 256, DigitsOf(str), 58)
  {
    var zeroes := 0;
    while zeroes < |v| && v[zeroes] == 0
      invariant 0 <= zeroes <= |v| && forall k :: 0 <= k < zeroes ==> v[k] == 0
    {
      zeroes := zeroes + 1;
    }
    var rest := v[zeroes..];
    var b58 := new nat[|rest| * 138 / 100 + 1](_ => 0);
    var length := EncodeBytes(rest, b58);
    var it := SkipZeros(b58, b58.Length - length, 58);
    str := seq(zeroes, _ => '1') + Translate(b58[it..]);
    EncodedText(v, zeroes, b58[it..]);
  }

  lemma TextDigits(ones: string, d: seq<nat>, zs: seq<nat>)
    requires Digits(d, 58) && |zs| == |ones| && forall i :: 0 <= i < |ones| ==> ones[i] == '1' && zs[i] == 0
    ensures AllDigits(ones + Translate(d)) && DigitsOf(ones + Translate(d)) == zs + d
  {
    DigitOfChar(0);
    var str := ones + Translate(d);
    forall i | 0 <= i < |str| ensures IsDigit(str[i]) && DigitOf(str[i]) == (zs + d)[i] {
      if i >= |ones| {
        assert str[i] == Translate(d)[i - |ones|];
      }
    }
  }

  lemma EncodedText(v: seq<nat>, z: nat, d: seq<nat>)
    requires z <= |v| && (forall k :: 0 <= k < z ==> v[k] == 0) && (z < |v| ==> v[z] != 0)
    requires Digits(d, 58) && (d != [] ==> d[0] != 0) && Big(d, 58) == Big(v[z..], 256)
    ensures var str := seq(z, _ => '1') + Translate(d); AllDigits(str) && Same(v, 256, DigitsOf(str), 58)
  {
    var zs := seq(z, _ => 0);
    TextDigits(seq(z, _ => '1'), d, zs);
    Rejoin(v, 256, zs, d, 58);
  }

  /** The bytes, one after another, into the base-58 buffer. */
  method EncodeBytes(rest: seq<nat>, b58: array<nat>) returns (length: nat)
    requires Digits(rest, 256) && b58.Length == |rest| * 138 / 100 + 1
    requires forall k :: 0 <= k < b58.Length ==> b58[k] == 0
    modifies b58
    ensures Digits(b58[..], 58) && length <= b58.Length
    ensures forall k :: 0 <= k < b58.Length - length ==> b58[k] == 0
    ensures Big(b58[..], 58) == Big(rest, 256)
  {
    length := 0;
    BigZeros(b58[..], [], 58);
    assert b58[..] + [] == b58[..];
    for j := 0 to |rest|
      invariant Digits(b58[..], 58) && length <= b58.Length
      invariant forall k :: 0 <= k < b58.Length - length ==> b58[k] == 0
      invariant Big(b58[..], 58) == Big(rest[..j], 256)
    {
      EncodeFits(|rest|);
      NextFits(rest, j, 256, Pow(58, b58.Length));
      length := AppendDigit(b58, 58, 256, rest[j], length);
    }
    assert rest[..|rest|] == rest;
  }

  /** Every prefix of the input fits into a buffer that the whole input fits into. */
  lemma NextFits(s: seq<nat>, j: nat, base: nat, room: nat)
    requires j < |s| && base >= 1 && Digits(s, base) && Pow(base, |s|) <= room
    ensures Big(s[..j + 1], base) == Big(s[..j], base) * base + s[j] < room
  {
    assert s[..j + 1] == s[..j] + [s[j]];
    BigSnoc(s[..j], s[j], base);
    BigBound(s[..j + 1], base);
    PowMono(base, j + 1, |s|);
  }

  method SkipZeros(buf: array<nat>, start: nat, ghost base: nat) returns (it: nat)
    requires start <= buf.Length && forall k :: 0 <= k < start ==> buf[k] == 0
    ensures it <= buf.Length && (it < buf.Length ==> buf[it] != 0)
    ensures Big(buf[it..], base) == Big(buf[..], base)
  {
    it := start;
    while it < buf.Length && buf[it] == 0
      invariant start <= it <= buf.Length && forall k :: 0 <= k < it ==> buf[k] == 0
    {
      it := it + 1;
    }
    StripTop(buf[..], it, base);
    assert buf[..][it..] == buf[it..];
  }

  function Translate(d: seq<nat>): (s: string)
    requires Digits(d, 58)
    ensures |s| == |d| && AllDigits(s) && forall i :: 0 <= i < |d| ==> DigitOf(s[i]) == d[i]
  {
    if d == [] then "" else DigitOfChar(d[0]); [CharAt(d[0])] + Translate(d[1..])
  }

  /** Putting the leading zeros back in front of the converted rest. */
  lemma Rejoin(v: seq<nat>, base: nat, zs: seq<nat>, d: seq<nat>, other: nat)
    requires |zs| <= |v| && (forall k :: 0 <= k < |zs| ==> v[k] == 0 && zs[k] == 0) && (|zs| < |v| ==> v[|zs|] != 0)
    requires (d != [] ==> d[0] != 0) && Big(d, other) == Big(v[|zs|..], base)
    ensures Same(v, base, zs + d, other)
  {
    var z := |zs|;
    assert v == v[..z] + v[z..];
    ZerosThen(v[..z], v[z..]);
    ZerosThen(zs, d);
    BigZeros(v[..z], v[z..], base);
    BigZeros(zs, d, other);
  }

  // ----- Decoding -----

  /** `isspace` in the C locale. */
  predicate IsSpace(c: char): (r: bool)
    ensures r <==> c in [' ', '\t', '\n', 11 as char, 12 as char, '\r']
  {
    c == ' ' || '\t' <= c <= '\r'
  }

  predicate NotSpace(c: char) {
    !IsSpace(c)
  }

  predicate NotNul(c: char) {
    c != '\0'
  }

  /** The length of the longest prefix of which `p` holds. */
  function Run(p: char -> bool, s: string): (n: nat)
    ensures n <= |s| && (forall k :: 0 <= k < n ==> p(s[k])) && (n < |s| ==> !p(s[n]))
  {
    if s == "" || !p(s[0]) then 0 else 1 + Run(p, s[1..])
  }

  /** A C string ends at the first NUL. */
  function CStr(s: string): string {
    s[..Run(NotNul, s)]
  }

  function AfterSpaces(s: string): string {
    s[Run(IsSpace, s)..]
  }

  /** The text between leading and trailing white space. */
  function Body(s: string): string {
    var u := AfterSpaces(CStr(s));
    u[..Run(NotSpace, u)]
  }

  function Trailing(s: string): string {
    var u := AfterSpaces(CStr(s));
    u[Run(NotSpace, u)..]
  }

  /** What decodes: base-58 digits, with white space allowed around but not between them. */
  ghost predicate Decodable(s: string) {
    AllDigits(Body(s)) && AfterSpaces(Trailing(s)) == ""
  }

  /** `DecodeBase58`. */
  method DecodeBase58(str: string) returns (ok: bool, vch: seq<nat>)
    ensures ok <==> Decodable(str)
    ensures ok ==> Digits(vch, 256) && Same(DigitsOf(Body(str)), 58, vch, 256)
  {
    var psz := AfterSpaces(CStr(str));
    var zeroes := CountOnes(psz);
    var b256 := new nat[(|psz| - zeroes) * 733 / 1000 + 1](_ => 0);
    var length;
    ok, length := DecodeDigits(Body(str), zeroes, b256);
    if !ok || AfterSpaces(Trailing(str)) != "" {
      return false, [];
    }
    var it := SkipZeros(b256, b256.Length - length, 256);
    vch := seq(zeroes, _ => 0) + b256[it..];
    DecodedBytes(Body(str), zeroes, b256[it..]);
  }

  lemma DecodedBytes(body: string, z: nat, d: seq<nat>)
    requires z <= |body| && AllDigits(body) && (forall k :: 0 <= k < z ==> body[k] == '1')
             && (z < |body| ==> body[z] != '1')
    requires Digits(d, 256) && (d != [] ==> d[0] != 0) && Big(d, 256) == Big(DigitsOf(body)[z..], 58)
    ensures var vch := seq(z, _ => 0) + d; Digits(vch, 256) && Same(DigitsOf(body), 58, vch, 256)
  {
    LeadingOnes(body, z);
    Rejoin(DigitsOf(body), 58, seq(z, _ => 0), d, 256);
  }

  /** The leading ones, which are digits and so belong to the body. */
  method CountOnes(psz: string) returns (z: nat)
    ensures z <= Run(NotSpace, psz)
    ensures forall k :: 0 <= k < z ==> psz[k] == '1' && IsDigit(psz[k])
    ensures z < |psz| ==> psz[z] != '1'
  {
    z := 0;
    while z < |psz| && psz[z] == '1'
      invariant z <= |psz| && forall k :: 0 <= k < z ==> psz[k] == '1'
    {
      z := z + 1;
    }
    DigitOfChar(0);
  }

  /** The characters after the leading ones, one after another, into the base-256 buffer. */
  method DecodeDigits(body: string, start: nat, b256: array<nat>) returns (ok: bool, length: nat)
    requires start <= |body| && b256.Length >= (|body| - start) * 733 / 1000 + 1
    requires forall k :: 0 <= k < start ==> IsDigit(body[k])
    requires forall k :: 0 <= k < b256.Length ==> b256[k] == 0
    modifies b256
    ensures ok <==> AllDigits(body)
    ensures ok ==> Digits(b256[..], 256) && length <= b256.Length
    ensures ok ==> forall k :: 0 <= k < b256.Length - length ==> b256[k] == 0
    ensures ok ==> Big(b256[..], 256) == Big(DigitsOf(body)[start..], 58)
  {
    length := 0;
    BigZeros(b256[..], [], 256);
    assert b256[..] + [] == b256[..];
    var rest := body[start..];
    var done: seq<nat> := [];
    for j := 0 to |rest|
      invariant |done| == j && Digits(done, 58)
      invariant forall k :: 0 <= k < j ==> IsDigit(rest[k]) && done[k] == DigitOf(rest[k])
      invariant Digits(b256[..], 256) && length <= b256.Length
      invariant forall k :: 0 <= k < b256.Length - length ==> b256[k] == 0
      invariant Big(b256[..], 256) == Big(done, 58)
    {
      var d := Find(rest[j], 0);
      if d < 0 {
        assert body[start + j] == rest[j];
        return false, 0;
      }
      DigitFits(done, d, |rest|, b256.Length);
      length := AppendDigit(b256, 256, 58, d, length);
      done := done + [d];
    }
    ok := true;
    WholeBody(body, start, done);
  }

  lemma DigitFits(done: seq<nat>, d: nat, n: nat, size: nat)
    requires |done| < n && Digits(done, 58) && d < 58 && size >= n * 733 / 1000 + 1
    ensures Big(done + [d], 58) == Big(done, 58) * 58 + d < Pow(256, size)
  {
    DigitRoom(|done| + 1, n, size);
    BigSnoc(done, d, 58);
    BigBound(done + [d], 58);
  }

  lemma DigitRoom(j: nat, n: nat, size: nat)
    requires j <= n && size >= n * 733 / 1000 + 1
    ensures Pow(58, j) <= Pow(256, size)
  {
    PowMono(58, j, n);
    DecodeFits(n);
    PowMono(256, n * 733 / 1000 + 1, size);
  }

  lemma WholeBody(body: string, start: nat, done: seq<nat>)
    requires start <= |body| && |done| == |body| - start
    requires forall k :: 0 <= k < start ==> IsDigit(body[k])
    requires forall k :: 0 <= k < |done| ==> IsDigit(body[start..][k]) && done[k] == DigitOf(body[start..][k])
    ensures AllDigits(body) && DigitsOf(body)[start..] == done
  {
    forall k | 0 <= k < |body| ensures IsDigit(body[k]) {
      if k >= start {
        assert body[k] == body[start..][k - start];
      }
    }
  }

  /** The leading ones are the leading zeros. */
  lemma LeadingOnes(body: string, z: nat)
    requires z <= |body| && AllDigits(body) && (forall k :: 0 <= k < z ==> body[k] == '1')
             && (z < |body| ==> body[z] != '1')
    ensures var d := DigitsOf(body); (forall k :: 0 <= k < z ==> d[k] == 0) && (z < |d| ==> d[z] != 0)
  {
    DigitOfChar(0);
  }

  // ----- Round trips -----

  lemma PlainText(s: string)
    requires AllDigits(s)
    ensures Body(s) == s && Trailing(s) == ""
  {
    forall k | 0 <= k < |s| ensures NotNul(s[k]) && NotSpace(s[k]) {
      assert CharAt(DigitOf(s[k])) == s[k];
    }
    assert CStr(s) == s && AfterSpaces(s) == s;
  }

  /** Every byte string survives encoding and decoding. */
  method EncodeThenDecode(v: seq<nat>) returns (str: string, ok: bool, w: seq<nat>)
    requires Digits(v, 256)
    ensures ok && w == v
  {
    str := EncodeBase58(v);
    PlainText(str);
    ok, w := DecodeBase58(str);
    SameUnique(v, w, 256);
  }

  /** Every text that decodes comes back, without the white space around it. */
  method DecodeThenEncode(str: string) returns (ok: bool, r: string)
    ensures ok <==> Decodable(str)
    ensures ok ==> r == Body(str)
  {
    var v;
    ok, v := DecodeBase58(str);
    r := "";
    if ok {
      r := EncodeBase58(v);
      SameUnique(DigitsOf(r), DigitsOf(Body(str)), 58);
      DigitsDetermine(r, Body(str));
    }
  }

  lemma DigitsDetermine(s: string, t: string)
    requires AllDigits(s) && AllDigits(t) && DigitsOf(s) == DigitsOf(t)
    ensures s == t
  {
    assert |s| == |DigitsOf(s)| == |DigitsOf(t)| == |t|;
    forall i | 0 <= i < |s| ensures s[i] == t[i] {
      assert s[i] == CharAt(DigitsOf(s)[i]) == CharAt(DigitsOf(t)[i]);
    }
  }

  // ----- Base58Check -----

  /** `EncodeBase58Check`: the data followed by the first four bytes of its hash. */
  method EncodeBase58Check(hash: seq<nat> -> seq<nat>, v: seq<nat>) returns (str: string)
    requires IsHash(hash) && Digits(v, 256)
    ensures AllDigits(str) && Same(Sealed(hash, v), 256, DigitsOf(str), 58)
  {
    assert |hash(v)| == 32;
    str := EncodeBase58(v + hash(v)[..4]);
  }

  /** Bytes that end in the checksum of what comes before it. */
  predicate Checksummed(hash: seq<nat> -> seq<nat>, raw: seq<nat>)
    requires forall v :: |hash(v)| == 32
  {
    |raw| >= 4 && hash(raw[..|raw| - 4])[..4] == raw[|raw| - 4..]
  }

  /** `DecodeBase58Check`: accepted is what decodes to checksummed bytes, `raw`. */
  method DecodeBase58Check(hash: seq<nat> -> seq<nat>, str: string) returns (ok: bool, v: seq<nat>, ghost raw: seq<nat>)
    requires IsHash(hash)
    ensures Decodable(str) ==> Digits(raw, 256) && Same(DigitsOf(Body(str)), 58, raw, 256)
    ensures ok <==> Decodable(str) && Checksummed(hash, raw)
    ensures v == if ok then raw[..|raw| - 4] else []
  {
    var vch;
    ok, vch := DecodeBase58(str);
    raw := vch;
    v := [];
    if ok {
      ok := Checksummed(hash, vch);
      if ok {
        v := vch[..|vch| - 4];
      }
    }
  }

  /** Data survives Base58Check whatever the hash. */
  method CheckRoundTrip(hash: seq<nat> -> seq<nat>, v: seq<nat>) returns (str: string, ok: bool, w: seq<nat>)
    requires IsHash(hash) && Digits(v, 256)
    ensures ok && w == v
  {
    str := EncodeBase58Check(hash, v);
    PlainText(str);
    ghost var raw;
    ok, w, raw := DecodeBase58Check(hash, str);
    SealedData(hash, v);
    SameUnique(raw, Sealed(hash, v), 256);
  }

  /** The data with its checksum. */
  ghost function Sealed(hash: seq<nat> -> seq<nat>, v: seq<nat>): seq<nat>
    requires IsHash(hash)
  {
    assert |hash(v)| == 32;
    v + hash(v)[..4]
  }

  lemma SealedData(hash: seq<nat> -> seq<nat>, v: seq<nat>)
    requires IsHash(hash) && Digits(v, 256)
    ensures var raw := Sealed(hash, v); Digits(raw, 256) && Checksummed(hash, raw) && raw[..|raw| - 4] == v
  {
    var raw := Sealed(hash, v);
    assert |hash(v)| == 32 && raw[..|raw| - 4] == v && raw[|raw| - 4..] == hash(v)[..4];
  }
}
