/**
  Mnemonics (`CMnemonic::FromData` and `CMnemonic::Check` in src/bip39.cpp; BIP39).
  Both work bit by bit on byte buffers; the word list, the hash and the width of a
  word in characters are parameters.
 */
module Bip39 {
  import opened Numbers

  type Bytes = seq<nat>

  // ----- Bits of numbers -----

  lemma BitStep(x: nat, i: nat)
    requires i > 0
    ensures Bit(x, i) == Bit(x / 2, i - 1)
  {
  }

  lemma {:induction false} OrBits(x: nat, y: nat, i: nat)
    ensures Bit(Or(x, y), i) == (Bit(x, i) || Bit(y, i))
    decreases i
  {
    if i > 0 {
      OrBits(x / 2, y / 2, i - 1);
      if x != 0 || y != 0 {
        assert Or(x, y) / 2 == Or(x / 2, y / 2);
      } else {
        assert Or(0, 0) == 0;
      }
    }
  }

  lemma {:induction false} PowBits(k: nat, i: nat)
    ensures Bit(Pow(2, k), i) == (i == k)
    decreases i
  {
    if i > 0 {
      if k > 0 {
        PowBits(k - 1, i - 1);
        assert Pow(2, k) / 2 == Pow(2, k - 1);
      } else {
        assert Pow(2, 0) == 1;
        ZeroBits(i - 1);
      }
    } else if k > 0 {
      assert Pow(2, k) == 2 * Pow(2, k - 1);
    }
  }

  lemma {:induction false} ZeroBits(i: nat)
    ensures !Bit(0, i)
    decreases i
  {
    if i > 0 {
      ZeroBits(i - 1);
    }
  }

  /** Numbers below 2^n with the same bits are the same. */
  lemma {:induction false} SameBits(x: nat, y: nat, n: nat)
    requires x < Pow(2, n) && y < Pow(2, n) && forall i :: 0 <= i < n ==> Bit(x, i) == Bit(y, i)
    ensures x == y
    decreases n
  {
    if n > 0 {
      assert Bit(x, 0) == Bit(y, 0);
      forall i | 0 <= i < n - 1 ensures Bit(x / 2, i) == Bit(y / 2, i) {
        BitStep(x, i + 1);
        BitStep(y, i + 1);
        assert Bit(x, i + 1) == Bit(y, i + 1);
      }
      SameBits(x / 2, y / 2, n - 1);
    }
  }

  /** Setting a bit with a bitwise or. */
  lemma SetBit(x: nat, k: nat, n: nat, i: nat)
    requires x < Pow(2, n) && k < n
    ensures Or(x, Pow(2, k)) < Pow(2, n)
    ensures Bit(Or(x, Pow(2, k)), i) == (Bit(x, i) || i == k)
  {
    OrBits(x, Pow(2, k), i);
    PowBits(k, i);
    PowStrict(2, k, n);
    OrBound(x, Pow(2, k), n);
  }

  lemma {:induction false} OrBound(x: nat, y: nat, n: nat)
    requires x < Pow(2, n) && y < Pow(2, n)
    ensures Or(x, y) < Pow(2, n)
    decreases n
  {
    if n > 0 {
      OrBound(x / 2, y / 2, n - 1);
    }
  }

  /** Bit `n` of a buffer, counted from the most significant bit of its first byte. */
  ghost predicate DataBit(b: Bytes, n: nat)
    requires n / 8 < |b|
  {
    Bit(b[n / 8], 7 - n % 8)
  }

  /** Bytes with the same bits are the same. */
  lemma SameBytes(b: Bytes, c: Bytes, n: nat)
    requires n <= |b| && n <= |c| && Digits(b, 256) && Digits(c, 256)
    requires forall k :: 0 <= k < 8 * n ==> DataBit(b, k) == DataBit(c, k)
    ensures b[..n] == c[..n]
  {
    assert Pow(2, 8) == 256;
    forall j | 0 <= j < n ensures b[j] == c[j] {
      forall i | 0 <= i < 8 ensures Bit(b[j], i) == Bit(c[j], i) {
        var k := 8 * j + (7 - i);
        assert k / 8 == j && 7 - k % 8 == i;
        assert DataBit(b, k) == DataBit(c, k);
      }
      SameBits(b[j], c[j], 8);
    }
  }

  // ----- Words -----

  /** The bits of a list of word indexes, eleven for each. */
  ghost predicate IdBit(ids: seq<nat>, n: nat)
    requires n / 11 < |ids|
  {
    Bit(ids[n / 11], 10 - n % 11)
  }

  /** A buffer starts with the bits of the indexes. */
  ghost predicate Coded(ids: seq<nat>, b: Bytes) {
    11 * |ids| <= 8 * |b| && forall n :: 0 <= n < 11 * |ids| ==> DataBit(b, n) == IdBit(ids, n)
  }

  predicate NoSpace(w: string) {
    forall i :: 0 <= i < |w| ==> w[i] != ' '
  }

  /** The words of a language: 2048 distinct, non-empty words without spaces, each narrow enough. */
  ghost predicate IsWordList(words: seq<string>, width: string -> int) {
    && |words| == 2048
    && (forall i :: 0 <= i < |words| ==> words[i] != "" && NoSpace(words[i]) && width(words[i]) < 25)
    && (forall i, j :: 0 <= i < j < |words| ==> words[i] != words[j])
  }

  ghost predicate InRange(ids: seq<nat>, words: seq<string>) {
    forall i :: 0 <= i < |ids| ==> ids[i] < |words|
  }

  /** The words, each followed by a space. */
  ghost function Spaced(words: seq<string>, ids: seq<nat>): string
    requires InRange(ids, words)
  {
    if ids == [] then "" else words[ids[0]] + " " + Spaced(words, ids[1..])
  }

  /** The words with a space between. */
  ghost function Sentence(words: seq<string>, ids: seq<nat>): string
    requires InRange(ids, words)
  {
    if ids == [] then "" else if |ids| == 1 then words[ids[0]] else words[ids[0]] + " " + Sentence(words, ids[1..])
  }

  lemma {:induction false} SpacedSnoc(words: seq<string>, ids: seq<nat>, x: nat)
    requires InRange(ids, words) && x < |words|
    ensures Spaced(words, ids + [x]) == Spaced(words, ids) + words[x] + " "
    ensures Sentence(words, ids + [x]) == Spaced(words, ids) + words[x]
    decreases |ids|
  {
    if ids == [] {
      assert ids + [x] == [x] && [x][1..] == [];
    } else {
      SpacedSnoc(words, ids[1..], x);
      assert (ids + [x])[1..] == ids[1..] + [x];
    }
  }

  // ----- From data to words -----

  /** Eleven bits, most significant first. */
  method WordIndex(bits: Bytes, i: nat) returns (idx: nat)
    requires 11 * i + 11 <= 8 * |bits|
    ensures idx < 2048 && forall n :: 11 * i <= n < 11 * i + 11 ==> DataBit(bits, n) == Bit(idx, 10 - (n - 11 * i))
  {
    idx := 0;
    for j := 0 to 11
      invariant idx < Pow(2, j)
      invariant forall n :: 11 * i <= n < 11 * i + j ==> DataBit(bits, n) == Bit(idx, j - 1 - (n - 11 * i))
    {
      ghost var before := idx;
      var n := i * 11 + j;
      idx := 2 * idx + if Bit(bits[n / 8], 7 - n % 8) then 1 else 0;
      forall m | 11 * i <= m < 11 * i + j + 1 ensures DataBit(bits, m) == Bit(idx, j - (m - 11 * i)) {
        if m < n {
          BitStep(idx, j - (m - 11 * i));
          assert idx / 2 == before;
        }
      }
    }
    PowAdd(2, 8, 3);
    assert Pow(2, 8) == 256 && Pow(2, 3) == 8;
  }

  predicate GoodLength(data: Bytes) {
    |data| % 4 == 0 && 16 <= |data| <= 32
  }

  /** The sentence for some data: its bits and the first bits of its hash, eleven to a word. */
  ghost predicate Mnemonic(words: seq<string>, hash: Bytes -> Bytes, data: Bytes, m: string, ids: seq<nat>)
    requires IsHash(hash)
  {
    assert |hash(data)| == 32;
    if GoodLength(data) then
      |ids| == |data| * 3 / 4 && InRange(ids, words) && Coded(ids, data + [hash(data)[0]]) && m == Sentence(words, ids)
    else
      m == ""
  }

  /** `FromData`. */
  method FromData(words: seq<string>, hash: Bytes -> Bytes, data: Bytes) returns (mnemonic: string, ghost ids: seq<nat>)
    requires |words| == 2048 && IsHash(hash)
    ensures Mnemonic(words, hash, data, mnemonic, ids)
  {
    mnemonic, ids := "", [];
    if |data| % 4 != 0 || |data| < 16 || |data| > 32 {
      return;
    }
    assert |hash(data)| == 32;
    var bits := data + [hash(data)[0]];
    var mlen := |data| * 3 / 4;
    for i := 0 to mlen
      invariant |ids| == i && InRange(ids, words) && Coded(ids, bits)
      invariant mnemonic == if i < mlen then Spaced(words, ids) else Sentence(words, ids)
    {
      var idx := WordIndex(bits, i);
      SpacedSnoc(words, ids, idx);
      CodedSnoc(ids, idx, bits);
      mnemonic := mnemonic + words[idx];
      if i < mlen - 1 {
        mnemonic := mnemonic + " ";
      }
      ids := ids + [idx];
    }
  }

  lemma CodedSnoc(ids: seq<nat>, idx: nat, b: Bytes)
    requires Coded(ids, b) && 11 * |ids| + 11 <= 8 * |b|
    requires forall n :: 11 * |ids| <= n < 11 * |ids| + 11 ==> DataBit(b, n) == Bit(idx, 10 - (n - 11 * |ids|))
    ensures Coded(ids + [idx], b)
  {
    var ids' := ids + [idx];
    forall n | 0 <= n < 11 * |ids'| ensures DataBit(b, n) == IdBit(ids', n) {
      if n < 11 * |ids| {
        assert ids'[n / 11] == ids[n / 11];
        assert DataBit(b, n) == IdBit(ids, n);
      } else {
        assert n / 11 == |ids| && n % 11 == n - 11 * |ids|;
      }
    }
  }

  // ----- From words back to bits -----

  /** The first space from `i` on, or the end. */
  ghost function WordEnd(m: string, i: nat): (n: nat)
    requires i <= |m|
    ensures i <= n <= |m| && (n < |m| ==> m[n] == ' ') && forall k :: i <= k < n ==> m[k] != ' '
    decreases |m| - i
  {
    if i == |m| || m[i] == ' ' then i else WordEnd(m, i + 1)
  }

  /** The words of a text from `i` on; a space at the very end is not followed by another word. */
  ghost function Words(m: string, i: nat): seq<string>
    decreases if i <= |m| then |m| - i else 0
  {
    if i >= |m| then [] else [m[i..WordEnd(m, i)]] + Words(m, WordEnd(m, i) + 1)
  }

  ghost function Split(m: string): seq<string> {
    Words(m, 0)
  }

  /** The spaces from `i` on. */
  ghost function SpacesFrom(m: string, i: nat): nat
    requires i <= |m|
    decreases |m| - i
  {
    if i == |m| then 0 else (if m[i] == ' ' then 1 else 0) + SpacesFrom(m, i + 1)
  }

  ghost function Spaces(m: string): nat {
    SpacesFrom(m, 0)
  }

  lemma {:induction false} NoSpacesBetween(m: string, i: nat, j: nat)
    requires i <= j <= |m| && forall k :: i <= k < j ==> m[k] != ' '
    ensures SpacesFrom(m, i) == SpacesFrom(m, j)
    decreases j - i
  {
    if i < j {
      NoSpacesBetween(m, i + 1, j);
    }
  }

  /** There are at most as many words as spaces and one. */
  lemma {:induction false} WordCount(m: string, i: nat)
    requires i <= |m|
    ensures |Words(m, i)| <= SpacesFrom(m, i) + 1
    decreases |m| - i
  {
    if i < |m| {
      var n := WordEnd(m, i);
      NoSpacesBetween(m, i, n);
      if n < |m| {
        WordCount(m, n + 1);
      }
    }
  }

  /** A prefix moves the words of a text but does not change them. */
  lemma {:induction false} EndShifted(p: string, m: string, i: nat)
    requires i <= |m|
    ensures WordEnd(p + m, |p| + i) == |p| + WordEnd(m, i)
    decreases |m| - i
  {
    if i < |m| && m[i] != ' ' {
      EndShifted(p, m, i + 1);
    }
  }

  lemma WordShifted(p: string, m: string, i: nat, n: nat)
    requires i <= n <= |m|
    ensures (p + m)[|p| + i..|p| + n] == m[i..n]
  {
  }

  lemma {:induction false} WordsShifted(p: string, m: string, i: nat)
    ensures Words(p + m, |p| + i) == Words(m, i)
    decreases if i <= |m| then |m| - i else 0
  {
    if i < |m| {
      var n := WordEnd(m, i);
      EndShifted(p, m, i);
      WordsShifted(p, m, n + 1);
      WordShifted(p, m, i, n);
    }
  }

  lemma {:induction false} SpacesShifted(p: string, m: string, i: nat)
    requires i <= |m|
    ensures SpacesFrom(p + m, |p| + i) == SpacesFrom(m, i)
    decreases |m| - i
  {
    if i < |m| {
      SpacesShifted(p, m, i + 1);
    }
  }

  lemma {:induction false} EndIs(m: string, i: nat, n: nat)
    requires i <= n <= |m| && (n < |m| ==> m[n] == ' ') && forall k :: i <= k < n ==> m[k] != ' '
    ensures WordEnd(m, i) == n
    decreases n - i
  {
    if i < n {
      EndIs(m, i + 1, n);
    }
  }

  /** A word and what follows it. */
  lemma FirstWord(w: string, m: string)
    requires w != "" && NoSpace(w)
    ensures Split(w) == [w] && Spaces(w) == 0
    ensures Split(w + " " + m) == [w] + Split(m) && Spaces(w + " " + m) == 1 + Spaces(m)
  {
    EndIs(w, 0, |w|);
    NoSpacesBetween(w, 0, |w|);
    assert w[0..|w|] == w && Words(w, |w| + 1) == [];
    var p := w + " ";
    var t := p + m;
    assert forall k :: 0 <= k < |w| ==> t[k] == w[k];
    EndIs(t, 0, |w|);
    NoSpacesBetween(t, 0, |w|);
    assert t[0..|w|] == w;
    WordsShifted(p, m, 0);
    SpacesShifted(p, m, 0);
  }

  /** The words of a sentence are those it was made of. */
  lemma {:induction false} SplitSentence(words: seq<string>, width: string -> int, ids: seq<nat>)
    requires IsWordList(words, width) && InRange(ids, words) && ids != []
    ensures |Split(Sentence(words, ids))| == |ids|
    ensures forall i :: 0 <= i < |ids| ==> Split(Sentence(words, ids))[i] == words[ids[i]]
    ensures Spaces(Sentence(words, ids)) == |ids| - 1
    decreases |ids|
  {
    var w := words[ids[0]];
    if |ids| == 1 {
      FirstWord(w, "");
    } else {
      SplitSentence(words, width, ids[1..]);
      FirstWord(w, Sentence(words, ids[1..]));
    }
  }

  /** The position of a word in the list, or the length of the list. */
  ghost function IndexOf(words: seq<string>, w: string): (i: nat)
    ensures i <= |words| && (i < |words| ==> words[i] == w) && forall k :: 0 <= k < i ==> words[k] != w
  {
    if words == [] || words[0] == w then 0 else 1 + IndexOf(words[1..], w)
  }

  /** `Check` accepts a word: it is narrow enough and in the list. */
  ghost predicate Known(words: seq<string>, width: string -> int, w: string) {
    width(w) < 25 && IndexOf(words, w) < |words|
  }

  method FindWord(words: seq<string>, w: string) returns (i: nat)
    ensures i == IndexOf(words, w)
  {
    i := 0;
    while i < |words| && words[i] != w
      invariant i <= |words| && forall k :: 0 <= k < i ==> words[k] != w
    {
      i := i + 1;
    }
  }

  /** The bits of the indexes, and nothing after them. */
  ghost predicate Packed(ids: seq<nat>, b: Bytes) {
    && 11 * |ids| <= 8 * |b| && Digits(b, 256)
    && forall n :: 0 <= n < 8 * |b| ==> DataBit(b, n) == (n < 11 * |ids| && IdBit(ids, n))
  }

  /** Set bit `n` of a buffer. */
  method SetDataBit(bits: array<nat>, n: nat)
    requires n < 8 * bits.Length && Digits(bits[..], 256)
    modifies bits
    ensures Digits(bits[..], 256)
    ensures forall m :: 0 <= m < 8 * bits.Length ==> DataBit(bits[..], m) == (old(DataBit(bits[..], m)) || m == n)
  {
    ghost var b := bits[..];
    assert Pow(2, 8) == 256;
    bits[n / 8] := Or(bits[n / 8], Pow(2, 7 - n % 8));
    SetBit(b[n / 8], 7 - n % 8, 8, 0);
    forall m | 0 <= m < 8 * bits.Length ensures DataBit(bits[..], m) == (DataBit(b, m) || m == n) {
      if m / 8 == n / 8 {
        SetBit(b[n / 8], 7 - n % 8, 8, 7 - m % 8);
      }
    }
  }

  /** Append the eleven bits of an index. */
  method AppendIndex(bits: array<nat>, index: nat, ghost ids: seq<nat>, start: nat) returns (bitCount: nat)
    requires Packed(ids, bits[..]) && start == 11 * |ids| && 11 * |ids| + 11 <= 8 * bits.Length
    modifies bits
    ensures Packed(ids + [index], bits[..]) && bitCount == start + 11
  {
    bitCount := start;
    ghost var b := bits[..];
    for ki := 0 to 11
      invariant bitCount == start + ki && Digits(bits[..], 256)
      invariant forall m :: 0 <= m < 8 * bits.Length ==>
                  DataBit(bits[..], m) == if start <= m < start + ki then Bit(index, 10 - (m - start))
                    else DataBit(b, m)
    {
      if Bit(index, 10 - ki) {
        SetDataBit(bits, bitCount);
      }
      bitCount := bitCount + 1;
    }
    PackedSnoc(ids, index, b, bits[..]);
  }

  lemma PackedSnoc(ids: seq<nat>, index: nat, b: Bytes, c: Bytes)
    requires Packed(ids, b) && |c| == |b| && Digits(c, 256) && 11 * |ids| + 11 <= 8 * |b|
    requires forall m :: 0 <= m < 8 * |c| ==>
               DataBit(c, m) == if 11 * |ids| <= m < 11 * |ids| + 11 then Bit(index, 10 - (m - 11 * |ids|))
                 else DataBit(b, m)
    ensures Packed(ids + [index], c)
  {
    var ids' := ids + [index];
    forall n | 0 <= n < 8 * |c| ensures DataBit(c, n) == (n < 11 * |ids'| && IdBit(ids', n)) {
      if n < 11 * |ids| {
        assert ids'[n / 11] == ids[n / 11];
        assert DataBit(b, n) == IdBit(ids, n);
      } else if n < 11 * |ids'| {
        assert n / 11 == |ids| && n % 11 == n - 11 * |ids|;
      } else {
        assert !DataBit(b, n);
      }
    }
  }

  method NextWord(m: string, i: nat) returns (w: string)
    requires i < |m|
    ensures w == m[i..WordEnd(m, i)]
  {
    w := "";
    while i + |w| < |m| && m[i + |w|] != ' '
      invariant i + |w| <= |m| && w == m[i..i + |w|] && forall k :: i <= k < i + |w| ==> m[k] != ' '
    {
      w := w + [m[i + |w|]];
    }
    EndIs(m, i, i + |w|);
  }

  /** The indexes of the words read so far. */
  ghost predicate Read(words: seq<string>, width: string -> int, ws: seq<string>, ids: seq<nat>) {
    |ids| == |ws| && forall k :: 0 <= k < |ws| ==> Known(words, width, ws[k]) && ids[k] == IndexOf(words, ws[k])
  }

  ghost predicate AllKnown(words: seq<string>, width: string -> int, ws: seq<string>) {
    forall k :: 0 <= k < |ws| ==> Known(words, width, ws[k])
  }

  /** The loop of `Check` over the words of the text. */
  method ReadWords(words: seq<string>, width: string -> int, m: string, bits: array<nat>)
    returns (ok: bool, bitCount: nat, ghost ids: seq<nat>)
    requires 11 * |Split(m)| <= 8 * bits.Length && forall k :: 0 <= k < bits.Length ==> bits[k] == 0
    modifies bits
    ensures ok <==> AllKnown(words, width, Split(m))
    ensures ok ==> Read(words, width, Split(m), ids) && Packed(ids, bits[..]) && bitCount == 11 * |ids|
  {
    ids, bitCount := [], 0;
    NothingPacked(bits[..]);
    ghost var all, done: seq<string> := Split(m), [];
    ghost var left := all;
    var i := 0;
    while i < |m|
      invariant 0 <= i && left == Words(m, i) && all == done + left
      invariant Read(words, width, done, ids) && Packed(ids, bits[..]) && bitCount == 11 * |ids|
    {
      var w := NextWord(m, i);
      ghost var next := Words(m, i + |w| + 1);
      Advance(all, done, w, next);
      var index;
      ok, index := LookUp(words, width, w);
      if !ok {
        return false, bitCount, ids;
      }
      bitCount := AppendIndex(bits, index, ids, bitCount);
      ReadSnoc(words, width, done, ids, w, index);
      done, ids, left := done + [w], ids + [index], next;
      i := i + |w| + 1;
    }
    assert all == done;
    ok := true;
  }

  lemma Advance(all: seq<string>, done: seq<string>, w: string, next: seq<string>)
    requires all == done + ([w] + next)
    ensures |done| < |all| && all[|done|] == w && all == (done + [w]) + next
  {
  }

  method LookUp(words: seq<string>, width: string -> int, w: string) returns (ok: bool, index: nat)
    ensures ok <==> Known(words, width, w)
    ensures ok ==> index == IndexOf(words, w)
  {
    if width(w) >= 25 {
      return false, 0;
    }
    index := FindWord(words, w);
    ok := index < |words|;
  }

  lemma ReadSnoc(words: seq<string>, width: string -> int, ws: seq<string>, ids: seq<nat>, w: string, index: nat)
    requires Read(words, width, ws, ids) && Known(words, width, w) && index == IndexOf(words, w)
    ensures Read(words, width, ws + [w], ids + [index])
  {
  }

  lemma NothingPacked(b: Bytes)
    requires forall k :: 0 <= k < |b| ==> b[k] == 0
    ensures Packed([], b)
  {
    forall n | 0 <= n < 8 * |b| ensures !DataBit(b, n) {
      ZeroBits(7 - n % 8);
    }
  }

  /** How many low bits of the checksum byte are not compared. */
  function Ignored(wordCount: nat): nat {
    if wordCount == 12 then 4 else if wordCount == 18 then 2 else 0
  }

  /** The first byte of the hash of the entropy agrees with the checksum bits after it. */
  ghost predicate ChecksumHolds(hash: Bytes -> Bytes, packed: Bytes, wordCount: nat)
    requires IsHash(hash) && |packed| == 33 && wordCount <= 24
  {
    assert |hash(packed[..wordCount * 4 / 3])| == 32;
    Shr(hash(packed[..wordCount * 4 / 3])[0], Ignored(wordCount)) == Shr(packed[wordCount * 4 / 3], Ignored(wordCount))
  }

  /** The verdict on a text of known words: their number is right and the checksum holds. */
  ghost predicate Verified(words: seq<string>, width: string -> int, hash: Bytes -> Bytes, m: string, ok: bool,
                           ids: seq<nat>, packed: Bytes)
    requires IsHash(hash)
  {
    && |packed| == 33 && |ids| <= 24 && Read(words, width, Split(m), ids) && Packed(ids, packed)
    && (ok <==> |ids| == Spaces(m) + 1 && ChecksumHolds(hash, packed, |ids|))
  }

  /**
    `Check`.  The comparison masks of the source keep the leading bits of a byte, which
    a right shift does as well.  The indexes and the repacked bits are returned for the
    specification.
   */
  method Check(words: seq<string>, width: string -> int, hash: Bytes -> Bytes, m: string)
    returns (ok: bool, ghost ids: seq<nat>, ghost packed: Bytes)
    requires IsHash(hash)
    ensures ok ==> Spaces(m) + 1 in {12, 18, 24} && AllKnown(words, width, Split(m))
    ensures Spaces(m) + 1 in {12, 18, 24} && AllKnown(words, width, Split(m)) ==>
              Verified(words, width, hash, m, ok, ids, packed)
  {
    ids, packed := [], [];
    if m == "" {
      return false, ids, packed;
    }
    var spaces := CountSpaces(m);
    var wordCount := spaces + 1;
    if wordCount != 12 && wordCount != 18 && wordCount != 24 {
      return false, ids, packed;
    }
    var bits := new nat[33](_ => 0);
    WordCount(m, 0);
    var bitCount;
    ok, bitCount, ids := ReadWords(words, width, m, bits);
    packed := bits[..];
    if !ok {
      return false, ids, packed;
    }
    if bitCount != wordCount * 11 {
      return false, ids, packed;
    }
    var entropy := bits[..wordCount * 4 / 3];
    bits[32] := bits[wordCount * 4 / 3];
    var digest := hash(entropy);
    assert |digest| == 32;
    ok := Shr(digest[0], Ignored(wordCount)) == Shr(bits[32], Ignored(wordCount));
  }

  method CountSpaces(m: string) returns (n: nat)
    ensures n == Spaces(m)
  {
    n := 0;
    for i := 0 to |m|
      invariant n + SpacesFrom(m, i) == Spaces(m)
    {
      if m[i] == ' ' {
        n := n + 1;
      }
    }
  }

  // ----- Round trip -----

  /** A mnemonic made from data is accepted, for the lengths that `Check` knows, and its bits are the data. */
  method RoundTrip(words: seq<string>, width: string -> int, hash: Bytes -> Bytes, data: Bytes)
    returns (m: string, ok: bool, ghost packed: Bytes)
    requires IsWordList(words, width) && IsHash(hash) && Digits(data, 256)
    ensures ok <==> |data| in {16, 24, 32}
    ensures ok ==> |packed| == 33 && packed[..|data|] == data
  {
    ghost var ids, ids2;
    m, ids := FromData(words, hash, data);
    ok, ids2, packed := Check(words, width, hash, m);
    if GoodLength(data) {
      Readable(words, width, ids);
      if |data| in {16, 24, 32} {
        ReadsSame(words, width, Split(m), ids, ids2);
        Accepted(hash, data, ids, packed);
      }
    }
  }

  lemma Readable(words: seq<string>, width: string -> int, ids: seq<nat>)
    requires IsWordList(words, width) && InRange(ids, words) && ids != []
    ensures var m := Sentence(words, ids); Spaces(m) + 1 == |ids| && Read(words, width, Split(m), ids)
  {
    SplitSentence(words, width, ids);
    forall i | 0 <= i < |ids| ensures IndexOf(words, words[ids[i]]) == ids[i] {
      var k := IndexOf(words, words[ids[i]]);
    }
  }

  lemma Accepted(hash: Bytes -> Bytes, data: Bytes, ids: seq<nat>, packed: Bytes)
    requires IsHash(hash) && Digits(data, 256) && |data| in {16, 24, 32} && |ids| == |data| * 3 / 4
    requires |hash(data)| == 32 && Coded(ids, data + [hash(data)[0]]) && Packed(ids, packed) && |packed| == 33
    ensures packed[..|data|] == data && ChecksumHolds(hash, packed, |ids|)
  {
    assert |ids| * 4 / 3 == |data|;
    Repacked(ids, data, hash(data)[0], packed);
    ChecksumMatches(ids, data, hash(data)[0], packed);
  }

  lemma ReadsSame(words: seq<string>, width: string -> int, ws: seq<string>, ids: seq<nat>, ids2: seq<nat>)
    requires Read(words, width, ws, ids) && Read(words, width, ws, ids2)
    ensures ids == ids2
  {
  }

  /** The repacked bits start with the data. */
  lemma Repacked(ids: seq<nat>, data: Bytes, sum: nat, packed: Bytes)
    requires Coded(ids, data + [sum]) && Packed(ids, packed) && Digits(data, 256)
    requires |packed| == 33 && |data| <= 32 && 8 * |data| <= 11 * |ids|
    ensures packed[..|data|] == data
  {
    forall k | 0 <= k < 8 * |data| ensures DataBit(packed, k) == DataBit(data, k) {
      assert DataBit(data + [sum], k) == IdBit(ids, k);
      assert (data + [sum])[k / 8] == data[k / 8];
    }
    SameBytes(packed, data, |data|);
    assert data[..|data|] == data;
  }

  /** The bits after the data are the leading bits of the checksum. */
  lemma ChecksumMatches(ids: seq<nat>, data: Bytes, sum: nat, packed: Bytes)
    requires |data| in {16, 24, 32} && |ids| == |data| * 3 / 4 && sum < 256
    requires Coded(ids, data + [sum]) && Packed(ids, packed) && |packed| == 33
    ensures Shr(sum, Ignored(|ids|)) == Shr(packed[|data|], Ignored(|ids|))
  {
    var s := Ignored(|ids|);
    var b := data + [sum];
    forall i | s <= i < 8 ensures Bit(sum, i) == Bit(packed[|data|], i) {
      var k := 8 * |data| + (7 - i);
      assert k / 8 == |data| && 7 - k % 8 == i && b[k / 8] == sum;
      assert DataBit(b, k) == IdBit(ids, k);
      assert DataBit(packed, k) == IdBit(ids, k);
    }
    SameTopBits(sum, packed[|data|], s, 8);
  }

  lemma {:induction false} SameTopBits(x: nat, y: nat, s: nat, n: nat)
    requires x < Pow(2, n) && y < Pow(2, n) && s <= n && forall i :: s <= i < n ==> Bit(x, i) == Bit(y, i)
    ensures Shr(x, s) == Shr(y, s)
    decreases s
  {
    if s == 0 {
      SameBits(x, y, n);
    } else {
      forall i | s - 1 <= i < n - 1 ensures Bit(x / 2, i) == Bit(y / 2, i) {
        BitStep(x, i + 1);
        BitStep(y, i + 1);
        assert Bit(x, i + 1) == Bit(y, i + 1);
      }
      SameTopBits(x / 2, y / 2, s - 1, n - 1);
    }
  }

  // ----- What is accepted -----

  /** The text is what `FromData` makes of this data, of a length that `Check` knows. */
  ghost predicate IsMnemonicOf(words: seq<string>, hash: Bytes -> Bytes, data: Bytes, m: string)
    requires IsHash(hash)
  {
    |data| in {16, 24, 32} && Digits(data, 256) && exists ids :: Mnemonic(words, hash, data, m, ids)
  }

  /** `Check` accepts exactly the mnemonics that `FromData` makes of 16, 24 or 32 bytes. */
  method CheckExactly(words: seq<string>, width: string -> int, hash: Bytes -> Bytes, m: string)
    returns (ok: bool, ghost data: Bytes)
    requires IsWordList(words, width) && IsHash(hash)
    ensures ok ==> IsMnemonicOf(words, hash, data, m)
    ensures !ok ==> forall d :: !IsMnemonicOf(words, hash, d, m)
  {
    ghost var ids, packed;
    ok, ids, packed := Check(words, width, hash, m);
    data := [];
    if ok {
      data := packed[..|ids| * 4 / 3];
      Rejoined(words, width, m, 0, ids);
      assert m[0..] == m;
      ChecksumCoded(hash, ids, packed);
      assert Mnemonic(words, hash, data, m, ids);
    } else {
      forall d ensures !IsMnemonicOf(words, hash, d, m) {
        if IsMnemonicOf(words, hash, d, m) {
          var ids2 :| Mnemonic(words, hash, d, m, ids2);
          NotRefused(words, width, hash, m, d, ids2, ids, packed);
        }
      }
    }
  }

  lemma NotRefused(words: seq<string>, width: string -> int, hash: Bytes -> Bytes, m: string,
                   d: Bytes, ids: seq<nat>, ids2: seq<nat>, packed: Bytes)
    requires IsWordList(words, width) && IsHash(hash) && |d| in {16, 24, 32} && Digits(d, 256)
    requires Mnemonic(words, hash, d, m, ids)
    ensures Spaces(m) + 1 in {12, 18, 24} && AllKnown(words, width, Split(m))
    ensures !Verified(words, width, hash, m, false, ids2, packed)
  {
    Readable(words, width, ids);
    if Verified(words, width, hash, m, false, ids2, packed) {
      ReadsSame(words, width, Split(m), ids, ids2);
      Accepted(hash, d, ids, packed);
    }
  }

  /** Known words, one more than there are spaces, make up the text. */
  lemma {:induction false} Rejoined(words: seq<string>, width: string -> int, m: string, i: nat, ids: seq<nat>)
    requires i <= |m| && |ids| == SpacesFrom(m, i) + 1 && Read(words, width, Words(m, i), ids)
    ensures InRange(ids, words) && m[i..] == Sentence(words, ids)
    decreases |m| - i
  {
    assert i < |m| by {
      assert |Words(m, i)| > 0;
    }
    var n := WordEnd(m, i);
    var w, rest := m[i..n], Words(m, n + 1);
    assert Words(m, i) == [w] + rest && words[ids[0]] == w;
    NoSpacesBetween(m, i, n);
    ReadTail(words, width, w, rest, ids);
    if n < |m| {
      Rejoined(words, width, m, n + 1, ids[1..]);
      assert m[i..] == w + " " + m[n + 1..];
    } else {
      assert m[i..] == w;
    }
  }

  lemma ReadTail(words: seq<string>, width: string -> int, w: string, rest: seq<string>, ids: seq<nat>)
    requires Read(words, width, [w] + rest, ids)
    ensures Read(words, width, rest, ids[1..])
  {
    forall k | 0 <= k < |rest| ensures Known(words, width, rest[k]) && ids[1..][k] == IndexOf(words, rest[k]) {
      assert ([w] + rest)[k + 1] == rest[k];
    }
  }

  /** The checksum that was compared is the one that encoding appends. */
  lemma ChecksumCoded(hash: Bytes -> Bytes, ids: seq<nat>, packed: Bytes)
    requires IsHash(hash) && |ids| in {12, 18, 24} && |packed| == 33 && Packed(ids, packed)
    requires ChecksumHolds(hash, packed, |ids|)
    ensures var data := packed[..|ids| * 4 / 3];
            |hash(data)| == 32 && Coded(ids, data + [hash(data)[0]])
  {
    var n := |ids| * 4 / 3;
    var data := packed[..n];
    assert |hash(data)| == 32;
    var b := data + [hash(data)[0]];
    forall k | 0 <= k < 11 * |ids| ensures DataBit(b, k) == IdBit(ids, k) {
      assert DataBit(packed, k) == IdBit(ids, k);
      if k < 8 * n {
        assert b[k / 8] == packed[k / 8];
      } else {
        assert k / 8 == n;
        TopBit(b[n], packed[n], Ignored(|ids|), 7 - k % 8);
      }
    }
  }

  lemma {:induction false} TopBit(x: nat, y: nat, s: nat, i: nat)
    requires s <= i && Shr(x, s) == Shr(y, s)
    ensures Bit(x, i) == Bit(y, i)
    decreases s
  {
    if s > 0 {
      TopBit(x / 2, y / 2, s - 1, i - 1);
      BitStep(x, i);
      BitStep(y, i);
    }
  }
}
