/** The in-memory chain of blocks: `CChain` in `src/chain.h` and `src/chain.cpp`.

    Block index entries are values; the links `pprev` and the heights never change.  `GetAncestor` is
    given by its contract, without the skip list behind it. */
module Chain {
  import opened Arithmetic
  import opened Options

  datatype BlockIndex = BlockIndex(
    hash: nat,
    pprev: Option<BlockIndex>,
    nHeight: int,
    nTime: nat,
    proofOfStake: bool,
    generatedModifier: bool,
    nStakeModifier: nat)

  predicate Linked(b: BlockIndex) {
    match b.pprev
    case None => b.nHeight == 0
    case Some(p) => Linked(p) && b.nHeight == p.nHeight + 1
  }

  predicate LinkedOrNull(b: Option<BlockIndex>) {
    b.Some? ==> Linked(b.value)
  }

  lemma {:induction false} HeightsAreNatural(b: BlockIndex)
    requires Linked(b)
    ensures b.nHeight >= 0
  {
    if b.pprev.Some? { HeightsAreNatural(b.pprev.value); }
  }

  /** The ancestor of a block at a height; a block is its own ancestor. */
  function Ancestor(b: BlockIndex, height: int): (a: BlockIndex)
    requires Linked(b) && 0 <= height <= b.nHeight
    ensures Linked(a) && a.nHeight == height
  {
    if height == b.nHeight then b else Ancestor(b.pprev.value, height)
  }

  function GetAncestor(b: BlockIndex, height: int): Option<BlockIndex>
    requires Linked(b)
  {
    if 0 <= height <= b.nHeight then Some(Ancestor(b, height)) else None
  }

  predicate IsAncestor(a: BlockIndex, b: BlockIndex)
    requires Linked(b)
  {
    GetAncestor(b, a.nHeight) == Some(a)
  }

  lemma {:induction false} AncestorOfAncestor(b: BlockIndex, h: int, k: int)
    requires Linked(b) && 0 <= k <= h <= b.nHeight
    ensures Ancestor(Ancestor(b, h), k) == Ancestor(b, k)
  {
    if h < b.nHeight { AncestorOfAncestor(b.pprev.value, h, k); }
  }

  /** The path from the first block to a block. */
  function Path(b: BlockIndex): (p: seq<BlockIndex>)
    requires Linked(b)
  {
    (if b.pprev.Some? then Path(b.pprev.value) else []) + [b]
  }

  lemma {:induction false} PathIsAncestors(b: BlockIndex)
    requires Linked(b)
    ensures |Path(b)| == b.nHeight + 1
    ensures forall i :: 0 <= i < |Path(b)| ==> Path(b)[i] == Ancestor(b, i)
  {
    if b.pprev.Some? { PathIsAncestors(b.pprev.value); }
  }

  /** Two paths that share a block share everything below it. */
  lemma SharedBelow(a: BlockIndex, b: BlockIndex, h: int, k: int)
    requires Linked(a) && Linked(b) && 0 <= k <= h <= a.nHeight && h <= b.nHeight && Ancestor(a, h) == Ancestor(b, h)
    ensures Ancestor(a, k) == Ancestor(b, k)
  {
    AncestorOfAncestor(a, h, k);
    AncestorOfAncestor(b, h, k);
  }

  // ---------------------------------------------------------------- locators

  /** The step back after `k` blocks have been listed before the present one. */
  function Step(k: nat): nat {
    if k <= 10 then 1 else Pow(2, k - 10)
  }

  /** Entry `i + 1` is a step back from entry `i`, which is not the first block yet. */
  predicate StepsBack(heights: seq<nat>, i: int) {
    0 <= i < |heights| - 1 && heights[i] > 0 && heights[i + 1] == Max(heights[i] - Step(i), 0)
  }

  /** The first entries of a locator from height `h` on. */
  ghost predicate StepsFrom(heights: seq<nat>, h: nat) {
    (|heights| > 0 ==> heights[0] == h) && forall i {:trigger StepsBack(heights, i)} :: 0 <= i < |heights| - 1 ==>
      StepsBack(heights, i)
  }

  /** The heights listed by a locator: one block at a time, then in doubled steps, down to the first
      block. */
  ghost predicate LocatorHeights(heights: seq<nat>, h: nat) {
    |heights| > 0 && StepsFrom(heights, h) && heights[|heights| - 1] == 0
  }

  lemma StepDoubles(k: nat)
    ensures Step(k + 1) == if k + 1 > 10 then Step(k) * 2 else Step(k)
  {
    if k == 10 {
      assert Pow(2, 0) == 1 && Pow(2, 1) == 2 * Pow(2, 0);
    } else if k > 10 {
      assert Pow(2, k - 9) == 2 * Pow(2, k - 10);
    }
  }

  lemma StepPositive(k: nat)
    ensures Step(k) > 0
  {
    PowPositive(2, if k <= 10 then 0 else k - 10);
  }

  /** The heights descend strictly from the given one to that of the first block. */
  lemma {:induction false} LocatorDescends(heights: seq<nat>, h: nat, i: nat, j: nat)
    requires LocatorHeights(heights, h) && i < j < |heights|
    ensures heights[j] < heights[i] <= h
    decreases j
  {
    StepPositive(j - 1);
    assert StepsBack(heights, j - 1);
    if i < j - 1 {
      LocatorDescends(heights, h, i, j - 1);
    } else if i > 0 {
      LocatorDescends(heights, h, i - 1, i);
    }
  }

  /** The height of entry `k` of a locator that starts at `h`, unless the first block is reached. */
  function HeightAt(h: int, k: nat): int {
    if k <= 10 then h - k else h - 9 - Pow(2, k - 10)
  }

  lemma HeightStep(h: int, k: nat)
    ensures HeightAt(h, k + 1) == HeightAt(h, k) - Step(k)
  {
    if k == 10 {
      assert Pow(2, 0) == 1 && Pow(2, 1) == 2 * Pow(2, 0);
    } else if k > 10 {
      assert Pow(2, k - 9) == 2 * Pow(2, k - 10);
    }
  }

  /** All entries but the last are exactly as high as `HeightAt` says. */
  lemma {:induction false} HeightsExact(heights: seq<nat>, h: nat, k: nat)
    requires LocatorHeights(heights, h) && k < |heights| - 1
    ensures heights[k] == HeightAt(h, k) > 0
    ensures heights[k] == if k <= 10 then h - k else h - 9 - Pow(2, k - 10)
  {
    assert StepsBack(heights, k);
    if k > 0 {
      HeightsExact(heights, h, k - 1);
      assert StepsBack(heights, k - 1);
      HeightStep(h, k - 1);
    }
  }

  lemma ExponentReflect(a: nat, b: nat)
    requires Pow(2, a) < Pow(2, b)
    ensures a < b
  {
    if b <= a { PowMonotone(2, b, a); }
  }

  /** A locator has at most eleven entries and one for each doubling of the height. */
  lemma {:induction false} LocatorLength(heights: seq<nat>, h: nat, m: nat)
    requires LocatorHeights(heights, h) && Pow(2, m) >= h + 1
    ensures |heights| <= 11 + m
  {
    var n := |heights|;
    if n >= 13 {
      HeightsExact(heights, h, n - 2);
      assert Pow(2, n - 12) < h - 9;
      ExponentReflect(n - 12, m);
    } else if n == 12 {
      HeightsExact(heights, h, 10);
      assert Pow(2, 0) == 1;
    }
  }

  // ---------------------------------------------------------------- the chain

  class CChain {
    var vChain: seq<Option<BlockIndex>>

    /** The vector is exactly the path to its last block. */
    ghost predicate Valid()
      reads this
    {
      |vChain| > 0 ==>
        && vChain[|vChain| - 1].Some?
        && var tip := vChain[|vChain| - 1].value;
           Linked(tip) && IsPath(vChain, tip)
    }

    function Height(): int
      reads this
    {
      |vChain| - 1
    }

    function Tip(): Option<BlockIndex>
      reads this
    {
      if |vChain| < 1 then None else vChain[|vChain| - 1]
    }

    function At(nHeight: int): Option<BlockIndex>
      reads this
    {
      if nHeight < 0 || nHeight >= |vChain| then None else vChain[nHeight]
    }

    predicate Contains(b: BlockIndex)
      reads this
    {
      At(b.nHeight) == Some(b)
    }

    function Next(b: BlockIndex): Option<BlockIndex>
      reads this
    {
      if Contains(b) then At(b.nHeight + 1) else None
    }

    constructor ()
      ensures Valid() && Tip() == None
    {
      vChain := [];
    }

    /** The chain becomes exactly the path to the new tip, although the loop stops at the first block
        that is there already. */
    method SetTip(pindex: Option<BlockIndex>)
      requires Valid() && LinkedOrNull(pindex)
      modifies this
      ensures Valid() && Tip() == pindex
      ensures pindex.Some? ==> |vChain| == |Path(pindex.value)| &&
                               forall i :: 0 <= i < |vChain| ==> vChain[i] == Some(Path(pindex.value)[i])
    {
      if pindex == None {
        vChain := [];
        return;
      }
      var tip := pindex.value;
      HeightsAreNatural(tip);
      ghost var was := vChain;
      vChain := Resized(vChain, tip.nHeight + 1);
      ghost var start := vChain;
      var cur := pindex;
      while cur.Some? && vChain[cur.value.nHeight] != cur
        invariant |vChain| == |start| == tip.nHeight + 1
        invariant cur.Some? ==>
                  Linked(cur.value) && 0 <= cur.value.nHeight <= tip.nHeight
                    && cur.value == Ancestor(tip, cur.value.nHeight)
        invariant forall i :: Top(cur) < i <= tip.nHeight ==> vChain[i] == Some(Ancestor(tip, i))
        invariant forall i :: 0 <= i <= Top(cur) ==> vChain[i] == start[i]
        decreases Top(cur)
      {
        var b := cur.value;
        vChain := vChain[b.nHeight := cur];
        ParentOf(tip, b);
        cur := b.pprev;
      }
      if cur.Some? {
        assert start[cur.value.nHeight] == cur;
        ResizedShares(was, start, cur.value, tip);
      }
      PathIsAncestors(tip);
    }

    /** The highest block that is both in the chain and an ancestor of the given one. */
    method FindFork(pindex: Option<BlockIndex>) returns (fork: Option<BlockIndex>)
      requires Valid() && LinkedOrNull(pindex)
      ensures pindex == None ==> fork == None
      ensures pindex.Some? && fork.Some? ==> Contains(fork.value) && IsAncestor(fork.value, pindex.value)
      ensures pindex.Some? ==> forall b: BlockIndex :: Contains(b) && IsAncestor(b, pindex.value) ==>
                                 fork.Some? && b.nHeight <= fork.value.nHeight
    {
      if pindex == None { return None; }
      var b := pindex.value;
      HeightsAreNatural(b);
      fork := pindex;
      if b.nHeight > Height() {
        fork := GetAncestor(b, Height());
      }
      assert fork.Some? ==> fork == GetAncestor(b, fork.value.nHeight);
      while fork.Some? && !Contains(fork.value)
        invariant fork.Some? ==>
                  Linked(fork.value) && 0 <= fork.value.nHeight <= b.nHeight
                    && fork.value == Ancestor(b, fork.value.nHeight)
        invariant forall i :: Top(fork) < i <= b.nHeight ==> !Contains(Ancestor(b, i))
        decreases Top(fork)
      {
        ParentOf(b, fork.value);
        fork := fork.value.pprev;
      }
    }

    /** The shortcut through the vector finds the ancestor. */
    method StepBack(b: BlockIndex, nHeight: int) returns (a: Option<BlockIndex>)
      requires Valid() && Linked(b) && 0 <= nHeight <= b.nHeight
      ensures a == GetAncestor(b, nHeight)
    {
      if Contains(b) {
        AncestorOfAncestor(Tip().value, b.nHeight, nHeight);
        a := At(nHeight);
      } else {
        a := GetAncestor(b, nHeight);
      }
    }

    /** The hashes of ancestors of the given block or of the tip. */
    method GetLocator(pindex: Option<BlockIndex>) returns (vHave: seq<int>)
      requires Valid() && LinkedOrNull(pindex)
      ensures var from := if pindex == None then Tip() else pindex;
              if from == None then vHave == []
              else from.value.nHeight >= 0 && Locates(vHave, from.value)
    {
      var nStep := 1;
      vHave := [];
      ghost var heights: seq<nat> := [];
      var cur := pindex;
      if cur == None {
        cur := Tip();
      }
      if cur == None { return; }
      ghost var from := cur.value;
      HeightsAreNatural(from);
      while cur.Some?
        invariant nStep == Step(|heights|)
        invariant cur.Some? && 0 <= cur.value.nHeight <= from.nHeight && cur.value == Ancestor(from, cur.value.nHeight)
        invariant IsLocator(vHave, from, heights) && StepsFrom(heights + [cur.value.nHeight], from.nHeight)
        decreases cur.value.nHeight
      {
        var b := cur.value;
        StepPositive(|heights|);
        StepDoubles(|heights|);
        LocatorGrows(vHave, from, heights, b);
        vHave := vHave + [b.hash];
        heights := heights + [b.nHeight];
        if b.nHeight == 0 { break; }
        var nHeight := Max(b.nHeight - nStep, 0);
        StepsGrow(heights, from.nHeight);
        AncestorOfAncestor(from, b.nHeight, nHeight);
        cur := StepBack(b, nHeight);
        if |vHave| > 10 {
          nStep := nStep * 2;
        }
      }
    }
  }

  lemma StepsGrow(heights: seq<nat>, h: nat)
    requires |heights| > 0 && StepsFrom(heights, h) && heights[|heights| - 1] > 0
    ensures StepsFrom(heights + [Max(heights[|heights| - 1] - Step(|heights| - 1), 0)], h)
  {
    var more := heights + [Max(heights[|heights| - 1] - Step(|heights| - 1), 0)];
    forall i | 0 <= i < |more| - 1 ensures StepsBack(more, i) {
      if i < |heights| - 1 { assert StepsBack(heights, i); }
    }
  }

  /** The hashes of the ancestors at the heights of a locator. */
  ghost predicate Locates(vHave: seq<int>, from: BlockIndex)
    requires Linked(from) && from.nHeight >= 0
  {
    exists heights: seq<nat> :: LocatorHeights(heights, from.nHeight) && IsLocator(vHave, from, heights)
  }

  /** A locator ends with the first block and has at most eleven entries and one for each doubling of the
      height. */
  lemma LocatorEnds(vHave: seq<int>, from: BlockIndex, m: nat)
    requires Linked(from) && from.nHeight >= 0 && Locates(vHave, from)
    ensures |vHave| > 0 && vHave[0] == from.hash && vHave[|vHave| - 1] == Ancestor(from, 0).hash
    ensures Pow(2, m) >= from.nHeight + 1 ==> |vHave| <= 11 + m
  {
    var heights: seq<nat> :| LocatorHeights(heights, from.nHeight) && IsLocator(vHave, from, heights);
    assert Lists(vHave, from, heights, 0) && Lists(vHave, from, heights, |heights| - 1);
    if Pow(2, m) >= from.nHeight + 1 { LocatorLength(heights, from.nHeight, m); }
  }

  ghost predicate IsPath(v: seq<Option<BlockIndex>>, tip: BlockIndex)
    requires Linked(tip)
  {
    |v| == tip.nHeight + 1 && forall i :: 0 <= i < |v| ==> v[i] == Some(Ancestor(tip, i))
  }

  ghost predicate IsLocator(vHave: seq<int>, from: BlockIndex, heights: seq<nat>)
    requires Linked(from)
  {
    |vHave| == |heights| && forall i {:trigger Lists(vHave, from, heights, i)} :: 0 <= i < |heights| ==>
      Lists(vHave, from, heights, i)
  }

  /** Entry `i` is the hash of the ancestor at its height. */
  predicate Lists(vHave: seq<int>, from: BlockIndex, heights: seq<nat>, i: int)
    requires Linked(from)
  {
    0 <= i < |heights| <= |vHave| && heights[i] <= from.nHeight && vHave[i] == Ancestor(from, heights[i]).hash
  }

  lemma LocatorGrows(vHave: seq<int>, from: BlockIndex, heights: seq<nat>, b: BlockIndex)
    requires Linked(from) && IsLocator(vHave, from, heights) && 0 <= b.nHeight <= from.nHeight
             && b == Ancestor(from, b.nHeight)
    ensures IsLocator(vHave + [b.hash], from, heights + [b.nHeight])
  {
    forall i | 0 <= i <= |heights| ensures Lists(vHave + [b.hash], from, heights + [b.nHeight], i) {
      if i < |heights| { assert Lists(vHave, from, heights, i); }
    }
  }

  /** The height below which nothing has been looked at; -1 at the end of the path. */
  function Top(b: Option<BlockIndex>): int {
    if b.Some? then b.value.nHeight else -1
  }

  function Resized(v: seq<Option<BlockIndex>>, n: nat): (r: seq<Option<BlockIndex>>)
    ensures |r| == n
    ensures forall i :: 0 <= i < n ==> r[i] == if i < |v| then v[i] else None
  {
    if n <= |v| then v[..n] else v + seq(n - |v|, i => None)
  }

  lemma {:induction false} ParentOf(tip: BlockIndex, b: BlockIndex)
    requires Linked(tip) && 0 <= b.nHeight <= tip.nHeight && b == Ancestor(tip, b.nHeight)
    ensures b.pprev.Some? <==> b.nHeight > 0
    ensures b.pprev.Some? ==> b.pprev.value.nHeight == b.nHeight - 1 && b.pprev.value == Ancestor(tip, b.nHeight - 1)
  {
    if b.pprev.Some? {
      HeightsAreNatural(b.pprev.value);
      AncestorOfAncestor(tip, b.nHeight, b.nHeight - 1);
      assert Ancestor(b, b.nHeight - 1) == b.pprev.value;
    }
  }

  /** What was in the vector below a block of the new path is on the new path too. */
  lemma ResizedShares(was: seq<Option<BlockIndex>>, start: seq<Option<BlockIndex>>, b: BlockIndex, tip: BlockIndex)
    requires |was| > 0 ==> was[|was| - 1].Some? && Linked(was[|was| - 1].value) && IsPath(was, was[|was| - 1].value)
    requires Linked(tip) && 0 <= b.nHeight <= tip.nHeight && b == Ancestor(tip, b.nHeight)
    requires start == Resized(was, tip.nHeight + 1) && start[b.nHeight] == Some(b)
    ensures forall i :: 0 <= i <= b.nHeight ==> start[i] == Some(Ancestor(tip, i))
  {
    var t := was[|was| - 1].value;
    forall i | 0 <= i <= b.nHeight ensures start[i] == Some(Ancestor(tip, i)) {
      SharedBelow(t, tip, b.nHeight, i);
    }
  }

  /** In a chain that is a path, containing a block means being above it. */
  lemma ContainsIsAncestor(c: CChain, b: BlockIndex)
    requires c.Valid() && c.Tip().Some?
    ensures c.Contains(b) <==> IsAncestor(b, c.Tip().value)
  {
  }

  /** The successor of a block in the chain is the block whose parent it is. */
  lemma NextIsSuccessor(c: CChain, b: BlockIndex)
    requires c.Valid()
    ensures c.Next(b).Some? <==> c.Contains(b) && b.nHeight < c.Height()
    ensures c.Next(b).Some? ==> c.Contains(c.Next(b).value) && c.Next(b).value.pprev == Some(b)
  {
    if c.Next(b).Some? {
      var tip := c.Tip().value;
      assert c.Next(b) == Some(Ancestor(tip, b.nHeight + 1));
      ParentOf(tip, c.Next(b).value);
    }
  }

  /** If the chain starts with the same first block, there is always a common block. */
  lemma ForkExists(c: CChain, b: BlockIndex)
    requires c.Valid() && c.Tip().Some? && Linked(b) && b.nHeight >= 0 && c.At(0) == Some(Ancestor(b, 0))
    ensures exists f: BlockIndex :: c.Contains(f) && IsAncestor(f, b)
  {
    assert c.Contains(Ancestor(b, 0)) && IsAncestor(Ancestor(b, 0), b);
  }
}
