/**
  The block index and the active chain (src/chain.h, src/chain.cpp): the skip list,
  `SetTip`, `FindFork` and `GetLocator`, each against walking from block to parent.
 */
module Chain {
  import opened Numbers
  import opened Basics

  // ----- Which ancestor to skip to -----

  /** The bitwise and. */
  function And(x: nat, y: nat): nat
    decreases x
  {
    if x == 0 then 0
    else 2 * And(x / 2, y / 2) + (if x % 2 == 1 && y % 2 == 1 then 1 else 0)
  }

  function InvertLowestOne(n: nat): nat {
    if n == 0 then 0 else And(n, n - 1)
  }

  /** The lowest set bit, as a number. */
  ghost function LowestOne(n: nat): (one: nat)
    requires n > 0
    ensures 1 <= one <= n
  {
    if n % 2 == 1 then 1 else 2 * LowestOne(n / 2)
  }

  lemma {:induction false} AndSelf(n: nat)
    ensures And(n, n) == n
  {
    if n > 0 {
      AndSelf(n / 2);
    }
  }

  lemma {:induction false} InvertClearsLowest(n: nat)
    requires n > 0
    ensures InvertLowestOne(n) == n - LowestOne(n)
  {
    if n % 2 == 1 {
      AndSelf(n / 2);
      assert (n - 1) / 2 == n / 2;
    } else {
      InvertClearsLowest(n / 2);
      assert (n - 1) / 2 == n / 2 - 1 && (n - 1) % 2 == 1;
    }
  }

  /** Which height the skip pointer of a block goes to: always a lower one. */
  function GetSkipHeight(height: nat): (h: nat)
    ensures height > 0 ==> h < height
  {
    if height < 2 then 0
    else if height % 2 == 1 then
      var a := InvertLowestOne(height - 1);
      InvertClearsLowest(height - 1);
      if a > 0 then InvertClearsLowest(a); InvertLowestOne(a) + 1 else InvertLowestOne(a) + 1
    else InvertClearsLowest(height); InvertLowestOne(height)
  }

  /** In binary: the lowest one of an even height goes, the lowest two above the last bit of an odd one. */
  lemma SkipHeightInBinary(height: nat)
    requires height >= 2
    ensures height % 2 == 0 ==> GetSkipHeight(height) == height - LowestOne(height)
    ensures height % 2 == 1 ==>
              var rest := height - 1 - LowestOne(height - 1);
              GetSkipHeight(height) == if rest == 0 then 1 else 1 + rest - LowestOne(rest)
  {
    if height % 2 == 0 {
      InvertClearsLowest(height);
    } else {
      InvertClearsLowest(height - 1);
      var rest := height - 1 - LowestOne(height - 1);
      if rest > 0 {
        InvertClearsLowest(rest);
      }
    }
  }

  class BlockIndex {
    const pprev: BlockIndex?
    const nHeight: nat
    var pskip: BlockIndex?

    constructor (prev: BlockIndex?)
      ensures pprev == prev && pskip == null
      ensures nHeight == if prev == null then 0 else prev.nHeight + 1
    {
      pprev := prev;
      nHeight := if prev == null then 0 else prev.nHeight + 1;
      pskip := null;
    }

    /** Heights count the blocks below. */
    ghost predicate Linked()
      decreases nHeight
    {
      if pprev == null then nHeight == 0 else pprev.nHeight + 1 == nHeight && pprev.Linked()
    }

    /** The naive parent walk. */
    ghost function Ancestor(h: nat): (a: BlockIndex)
      requires Linked() && h <= nHeight
      ensures a.nHeight == h && a.Linked()
      decreases nHeight
    {
      if h == nHeight then this else pprev.Ancestor(h)
    }

    ghost function Ancestors(): (s: set<BlockIndex>)
      requires Linked()
      ensures this in s && forall b <- s :: b.nHeight <= nHeight
      decreases nHeight
    {
      {this} + if pprev == null then {} else pprev.Ancestors()
    }

    /** Every skip pointer on the way to the genesis block is unset or goes where it should. */
    ghost predicate Built()
      requires Linked()
      reads Ancestors()
      decreases nHeight
    {
      && (pskip == null || (nHeight > 0 && pskip == Ancestor(GetSkipHeight(nHeight))))
      && (pprev != null ==> pprev.Built())
    }

    lemma {:induction false} AncestorOfAncestor(h: nat, k: nat)
      requires Linked() && k <= h <= nHeight
      ensures Ancestor(h).Ancestor(k) == Ancestor(k)
      decreases nHeight
    {
      if h < nHeight {
        pprev.AncestorOfAncestor(h, k);
      }
    }

    lemma {:induction false} AncestorBuilt(h: nat)
      requires Linked() && h <= nHeight && Built()
      ensures Ancestor(h).Built()
      decreases nHeight
    {
      if h < nHeight {
        pprev.AncestorBuilt(h);
      }
    }

    lemma {:induction false} AncestorsAllocated()
      requires Linked()
      ensures forall b <- Ancestors() :: allocated(b)
      decreases nHeight
    {
      if pprev != null {
        pprev.AncestorsAllocated();
      }
    }

    lemma {:induction false} AncestorIsOne(h: nat)
      requires Linked() && h <= nHeight
      ensures Ancestor(h) in Ancestors()
      decreases nHeight
    {
      if h < nHeight {
        pprev.AncestorIsOne(h);
      }
    }

    lemma {:induction false} ParentOfAncestor(h: nat)
      requires Linked() && h <= nHeight
      ensures Ancestor(h).pprev == if h == 0 then null else Ancestor(h - 1)
      decreases nHeight
    {
      if h < nHeight {
        pprev.ParentOfAncestor(h);
      } else if h > 0 {
        assert Ancestor(h - 1) == pprev.Ancestor(h - 1);
      }
    }

    /** `GetAncestor`: the skip list finds what the parent walk finds. */
    method GetAncestor(height: int) returns (r: BlockIndex?)
      requires Linked() && Built()
      ensures if 0 <= height <= nHeight then r == Ancestor(height) else r == null
    {
      if height > nHeight || height < 0 {
        return null;
      }
      var walk: BlockIndex := this;
      var heightWalk := nHeight;
      while heightWalk > height
        invariant walk.Linked() && walk.Built() && walk.nHeight == heightWalk >= height
        invariant walk.Ancestor(height) == Ancestor(height)
      {
        var heightSkip := GetSkipHeight(heightWalk);
        var heightSkipPrev := GetSkipHeight(heightWalk - 1);
        if walk.pskip != null
           && (heightSkip == height
               || (heightSkip > height && !(heightSkipPrev < heightSkip - 2 && heightSkipPrev >= height))) {
          walk.AncestorOfAncestor(heightSkip, height);
          walk.AncestorBuilt(heightSkip);
          walk := walk.pskip;
          heightWalk := heightSkip;
        } else {
          assert walk.pprev != null;
          walk := walk.pprev;
          heightWalk := heightWalk - 1;
        }
      }
      r := walk;
    }

    /** `BuildSkip`. */
    method BuildSkip()
      requires Linked() && (if pprev == null then pskip == null else pprev.Built())
      modifies this`pskip
      ensures Built()
      ensures pskip == if pprev == null then null else Ancestor(GetSkipHeight(nHeight))
    {
      if pprev != null {
        pprev.AncestorsAllocated();
        var skip := pprev.GetAncestor(GetSkipHeight(nHeight));
        pskip := skip;
        assert this !in pprev.Ancestors();
        assert pprev.Built();
      }
    }
  }

  // ----- The tree of known blocks -----

  class BlockTree {
    var blocks: set<BlockIndex>

    ghost predicate Valid()
      reads this, blocks
    {
      forall b <- blocks :: b.Linked() && b.Ancestors() <= blocks && b.Built()
    }

    constructor ()
      ensures Valid() && blocks == {}
    {
      blocks := {};
    }

    /** A new block on top of a known one, or a first block, as `AddToBlockIndex` links it. */
    method AddBlock(prev: BlockIndex?) returns (b: BlockIndex)
      requires Valid() && (prev != null ==> prev in blocks)
      modifies this
      ensures Valid() && fresh(b) && b.pprev == prev && blocks == old(blocks) + {b}
    {
      b := new BlockIndex(prev);
      b.BuildSkip();
      blocks := blocks + {b};
      forall x | x in blocks ensures x.Linked() && x.Ancestors() <= blocks && x.Built() {
        assert x == b || x in old(blocks);
      }
    }

    /** In a tree grown this way the skip list agrees with the parent walk everywhere. */
    method Lookup(b: BlockIndex, height: int) returns (r: BlockIndex?)
      requires Valid() && b in blocks
      ensures if 0 <= height <= b.nHeight then r == b.Ancestor(height) && r in blocks else r == null
    {
      r := b.GetAncestor(height);
      if 0 <= height <= b.nHeight {
        b.AncestorIsOne(height);
      }
    }
  }

  // ----- The active chain -----

  class ActiveChain {
    var vChain: seq<BlockIndex?>

    /** The chain is the path to its tip. */
    ghost predicate Valid()
      reads this
    {
      (forall i :: 0 <= i < |vChain| ==> vChain[i] != null) &&
      (vChain != [] ==> IsPathTo(vChain[|vChain| - 1]))
    }

    ghost predicate IsPathTo(tip: BlockIndex)
      reads this
    {
      && tip.Linked() && |vChain| == tip.nHeight + 1
      && forall i :: 0 <= i < |vChain| ==> vChain[i] == tip.Ancestor(i)
    }

    constructor ()
      ensures Valid() && vChain == []
    {
      vChain := [];
    }

    /** `operator[]`. */
    function At(height: int): BlockIndex?
      reads this
    {
      if height < 0 || height >= |vChain| then null else vChain[height]
    }

    predicate Contains(b: BlockIndex)
      reads this
    {
      At(b.nHeight) == b
    }

    /** One look at the height of a block decides whether the chain has it. */
    lemma ContainsIff(b: BlockIndex)
      requires Valid()
      ensures Contains(b) <==> b in vChain
    {
      if b in vChain {
        var i :| 0 <= i < |vChain| && vChain[i] == b;
        assert vChain[i].nHeight == i;
      }
    }

    function Height(): int
      reads this
    {
      |vChain| - 1
    }

    function Tip(): BlockIndex?
      reads this
    {
      if |vChain| > 0 then vChain[|vChain| - 1] else null
    }

    /** `SetTip`: rewriting downwards stops at the first block that is already in place. */
    method SetTip(tip: BlockIndex?)
      requires Valid() && (tip != null ==> tip.Linked())
      modifies this
      ensures Valid() && LeadsTo(tip)
      ensures Tip() == tip && Height() == if tip == null then -1 else tip.nHeight
    {
      if tip == null {
        vChain := [];
        return;
      }
      ghost var before := vChain;
      vChain := Resize(vChain, tip.nHeight + 1);
      var b: BlockIndex? := tip;
      while b != null && vChain[b.nHeight] != b
        invariant |vChain| == tip.nHeight + 1
        invariant b != null ==> b.nHeight <= tip.nHeight && b == tip.Ancestor(b.nHeight)
        invariant forall i :: (if b == null then 0 else b.nHeight + 1) <= i <= tip.nHeight ==>
                    vChain[i] == tip.Ancestor(i)
        invariant b != null ==>
                    forall i :: 0 <= i <= b.nHeight ==> vChain[i] == if i < |before| then before[i] else null
        decreases if b == null then 0 else b.nHeight + 1
      {
        vChain := vChain[b.nHeight := b];
        tip.ParentOfAncestor(b.nHeight);
        b := b.pprev;
      }
      if b != null {
        SharedBelow(before, tip, b.nHeight);
      }
      assert tip.Ancestor(tip.nHeight) == tip;
    }

    /** Two paths that meet agree from there down. */
    static lemma SharedBelow(path: seq<BlockIndex?>, tip: BlockIndex, h: nat)
      requires tip.Linked() && h <= tip.nHeight && h < |path| && path[h] == tip.Ancestor(h)
      requires (forall i :: 0 <= i < |path| ==> path[i] != null)
      requires var last := path[|path| - 1];
               && last.Linked() && |path| == last.nHeight + 1
               && forall i :: 0 <= i < |path| ==> path[i] == last.Ancestor(i)
      ensures forall i :: 0 <= i <= h ==> path[i] == tip.Ancestor(i)
    {
      var last := path[|path| - 1];
      forall i | 0 <= i <= h ensures path[i] == tip.Ancestor(i) {
        tip.AncestorOfAncestor(h, i);
        last.AncestorOfAncestor(h, i);
      }
    }

    /** The chain is the path to this tip, or empty without one. */
    ghost predicate LeadsTo(tip: BlockIndex?)
      requires tip != null ==> tip.Linked()
      reads this
    {
      if tip == null then vChain == [] else IsPathTo(tip)
    }

    /** After any sequence of tips, null among them, the chain is the path to the last. */
    method SetTips(tips: seq<BlockIndex?>)
      requires Valid() && forall t <- tips :: t != null ==> t.Linked()
      modifies this
      ensures Valid() && (if tips == [] then vChain == old(vChain) else LeadsTo(tips[|tips| - 1]))
    {
      for k := 0 to |tips|
        invariant Valid() && (if k == 0 then vChain == old(vChain) else LeadsTo(tips[k - 1]))
      {
        SetTip(tips[k]);
      }
    }

    /** `FindFork`: the highest block of the chain that is an ancestor of `b`. */
    method FindFork(b: BlockIndex?) returns (fork: BlockIndex?)
      requires Valid() && (b != null ==> b.Linked() && b.Built())
      ensures b == null ==> fork == null
      ensures b != null && fork != null ==>
                fork.nHeight <= b.nHeight && fork == b.Ancestor(fork.nHeight) && fork in vChain
      ensures b != null ==>
                forall h :: (if fork == null then 0 else fork.nHeight + 1) <= h <= b.nHeight ==>
                  b.Ancestor(h) !in vChain
      ensures b != null && b in vChain ==> fork == b
    {
      if b == null {
        return null;
      }
      fork := b;
      assert b.Ancestor(b.nHeight) == b;
      if b.nHeight > Height() {
        fork := b.GetAncestor(Height());
      }
      while fork != null && !Contains(fork)
        invariant fork != null ==> fork.nHeight <= b.nHeight && fork == b.Ancestor(fork.nHeight)
        invariant forall h :: (if fork == null then 0 else fork.nHeight + 1) <= h <= b.nHeight ==>
                    !Contains(b.Ancestor(h))
        decreases if fork == null then 0 else fork.nHeight + 1
      {
        b.ParentOfAncestor(fork.nHeight);
        fork := fork.pprev;
      }
      forall h | (if fork == null then 0 else fork.nHeight + 1) <= h <= b.nHeight
        ensures b.Ancestor(h) !in vChain
      {
        ContainsIff(b.Ancestor(h));
      }
    }

    /** `GetLocator`, for a given block or else for the tip; nothing if the stride overflows an int. */
    method GetLocator(b: BlockIndex?) returns (r: Option<seq<BlockIndex>>)
      requires Valid()
      requires b != null ==> b.Linked() && b.Built()
      requires Tip() != null ==> Tip().Linked() && Tip().Built()
      ensures b == null && Tip() == null ==> r == Some([])
      ensures b != null ==> LocatorOrOverflow(r, b)
      ensures b == null && Tip() != null ==> LocatorOrOverflow(r, Tip())
    {
      var start := if b == null then Tip() else b;
      if start == null {
        return Some([]);
      }
      r := Locate(start);
    }

    /** The loop of `GetLocator`. */
    method Locate(start: BlockIndex) returns (r: Option<seq<BlockIndex>>)
      requires Valid() && start.Linked() && start.Built()
      ensures LocatorOrOverflow(r, start)
    {
      var have := [];
      var nStep := 1;
      var p: BlockIndex := start;
      start.AncestorsAllocated();
      while true
        invariant Valid() && start.Built() && nStep == Stride(|have|) && |have| <= 40
        invariant Listed(have, start, p)
        decreases p.nHeight
      {
        BackNext(|have|);
        StrideFits(|have|);
        if p.nHeight == 0 {
          ListedAll(have, start, p);
        } else {
          ListedNext(have, start, p);
        }
        have := have + [p];
        if p.nHeight == 0 {
          return Some(have);
        }
        var nHeight := if p.nHeight - nStep > 0 then p.nHeight - nStep else 0;
        p := Below(start, p, nHeight);
        if |have| > 10 {
          if nStep * 2 > 0x7FFF_FFFF {
            return None;
          }
          nStep := nStep * 2;
        }
      }
    }

    /** The block at a lower height: from the chain if it is in there, else by the skip list. */
    method Below(ghost start: BlockIndex, p: BlockIndex, height: nat) returns (r: BlockIndex)
      requires Valid() && start.Linked() && start.Built() && height <= p.nHeight <= start.nHeight
      requires p == start.Ancestor(p.nHeight)
      ensures r == start.Ancestor(height)
    {
      start.AncestorOfAncestor(p.nHeight, height);
      start.AncestorBuilt(p.nHeight);
      if Contains(p) {
        vChain[|vChain| - 1].AncestorOfAncestor(p.nHeight, height);
        r := At(height);
      } else {
        r := p.GetAncestor(height);
      }
    }
  }

  // ----- Locators -----

  /** The greatest height whose locator needs no stride beyond 31 bits: 2^30 + 9. */
  const LOCATOR_LIMIT: nat := 0x4000_0009

  /** How far below its start the i-th entry of a locator lies. */
  ghost function Back(i: nat): nat {
    if i <= 11 then i else 9 + Pow(2, i - 10)
  }

  ghost function Lowered(h: nat, back: nat): nat {
    if back <= h then h - back else 0
  }

  /** The stride when `k` entries have been listed. */
  ghost function Stride(k: nat): nat {
    if k <= 10 then 1 else Pow(2, k - 10)
  }

  ghost function Log2(n: nat): nat {
    if n < 2 then 0 else 1 + Log2(n / 2)
  }

  lemma {:induction false} Log2Bound(j: nat, n: nat)
    requires Pow(2, j) <= n
    ensures j <= Log2(n)
    decreases j
  {
    if j > 0 {
      Log2Bound(j - 1, n / 2);
    }
  }

  lemma BackNext(k: nat)
    ensures Back(k + 1) == Back(k) + Stride(k)
    ensures Stride(k + 1) == if k >= 10 then 2 * Stride(k) else Stride(k)
  {
    assert Pow(2, 1) == 2 && Pow(2, 2) == 4;
  }

  /** The stride doubles beyond 31 bits at the forty-first entry, which lies 2^30 + 9 below the start. */
  lemma StrideFits(k: nat)
    requires k <= 40
    ensures if k == 40 then Stride(k) == 0x4000_0000 else Stride(k) <= 0x2000_0000
    ensures if k == 40 then Back(k) == LOCATOR_LIMIT else Back(k) < LOCATOR_LIMIT
  {
    PowTo30();
    if 11 <= k < 40 {
      PowMono(2, k - 10, 29);
      assert Pow(2, 30) == 2 * Pow(2, 29);
    }
  }

  lemma PowTo30()
    ensures Pow(2, 30) == 0x4000_0000
  {
    assert Pow(2, 5) == 32;
    PowAdd(2, 5, 5);
    PowAdd(2, 10, 10);
    PowAdd(2, 20, 10);
  }

  /** A locator of `n` entries whose last but one is above the genesis block. */
  lemma LocatorLength(n: nat, h: nat)
    requires n >= 1 && (n >= 2 ==> Back(n - 2) < h)
    ensures n <= 12 + Log2(if h == 0 then 1 else h)
  {
    if n > 12 {
      Log2Bound(n - 12, h);
    }
  }

  /**
    What `GetLocator` promises of its list: it starts at `start`, goes down strictly
    through ancestors to the genesis block, one by one for ten blocks and then in
    doubling strides, and is logarithmically short.
   */
  ghost predicate IsLocator(have: seq<BlockIndex>, start: BlockIndex)
    requires start.Linked()
  {
    && have != [] && have[0] == start && have[|have| - 1].nHeight == 0
    && (forall i :: 0 <= i < |have| ==> have[i] == start.Ancestor(Lowered(start.nHeight, Back(i))))
    && (forall i, j :: 0 <= i < j < |have| ==> have[i].nHeight > have[j].nHeight)
    && |have| <= 12 + Log2(if start.nHeight == 0 then 1 else start.nHeight)
  }

  /** There is a locator exactly up to the limit; above it the stride overflows. */
  ghost predicate LocatorOrOverflow(r: Option<seq<BlockIndex>>, start: BlockIndex)
    requires start.Linked()
  {
    && (r.Some? <==> start.nHeight <= LOCATOR_LIMIT)
    && (r.Some? ==> IsLocator(r.value, start))
  }

  /** The entries listed before `p`, which is the next one. */
  ghost predicate Listed(have: seq<BlockIndex>, start: BlockIndex, p: BlockIndex)
    requires start.Linked()
  {
    && p == start.Ancestor(Lowered(start.nHeight, Back(|have|)))
    && (|have| > 0 ==> Back(|have| - 1) < start.nHeight)
    && (forall i :: 0 <= i < |have| ==> have[i] == start.Ancestor(Lowered(start.nHeight, Back(i))))
  }

  lemma LoweredTwice(h: nat, k: nat)
    ensures Lowered(Lowered(h, Back(k)), Stride(k)) == Lowered(h, Back(k + 1))
  {
    BackNext(k);
  }

  lemma ListedNext(have: seq<BlockIndex>, start: BlockIndex, p: BlockIndex)
    requires start.Linked() && Listed(have, start, p) && p.nHeight > 0
    ensures p.nHeight <= start.nHeight && p == start.Ancestor(p.nHeight)
    ensures Listed(have + [p], start, start.Ancestor(Lowered(p.nHeight, Stride(|have|))))
  {
    LoweredTwice(start.nHeight, |have|);
  }

  lemma ListedAll(have: seq<BlockIndex>, start: BlockIndex, p: BlockIndex)
    requires start.Linked() && Listed(have, start, p) && p.nHeight == 0
    ensures IsLocator(have + [p], start)
  {
    assert forall i :: 0 <= i < |have| ==> (have + [p])[i] == have[i];
    LocatorLength(|have| + 1, start.nHeight);
    Descending(have + [p], start);
  }

  lemma {:induction false} BackGrows(i: nat, j: nat)
    requires i < j
    ensures Back(i) < Back(j)
    decreases j
  {
    BackNext(j - 1);
    if i < j - 1 {
      BackGrows(i, j - 1);
    }
  }

  lemma Descending(have: seq<BlockIndex>, start: BlockIndex)
    requires start.Linked() && (|have| > 1 ==> Back(|have| - 2) < start.nHeight)
    requires forall i :: 0 <= i < |have| ==> have[i] == start.Ancestor(Lowered(start.nHeight, Back(i)))
    ensures forall i, j :: 0 <= i < j < |have| ==> have[i].nHeight > have[j].nHeight
  {
    forall i, j | 0 <= i < j < |have| ensures have[i].nHeight > have[j].nHeight {
      BackGrows(i, j);
      if i < |have| - 2 {
        BackGrows(i, |have| - 2);
      }
    }
  }

  /** `vector::resize`. */
  function Resize(s: seq<BlockIndex?>, n: nat): seq<BlockIndex?> {
    if n <= |s| then s[..n] else s + seq(n - |s|, _ => null)
  }
}
