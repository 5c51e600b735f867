/**
 * The size accounting of the content-addressed block store: the recursive
 * size of a DAG and the change in contained size between two roots.
 */
module Storage {
  import opened Wrappers
  import opened MerkleBtree

  /**
   * The block store as the size accounting sees it: getSize, getLinks, and a
   * rank that is not part of the store but witnesses that its DAG is acyclic.
   */
  datatype BlockStore = BlockStore(
    size: Multihash -> Option<nat>,
    links: Multihash -> seq<Multihash>,
    rank: Multihash -> nat)

  /** Every child ranks strictly lower than its parent. */
  ghost predicate Acyclic(s: BlockStore) {
    forall h, c :: c in s.links(h) ==> s.rank(c) < s.rank(h)
  }

  /** No link list names a block twice. */
  ghost predicate NoDuplicateLinks(s: BlockStore) {
    forall h :: Distinct(s.links(h))
  }

  predicate Distinct(xs: seq<Multihash>) {
    forall i, j :: 0 <= i < j < |xs| ==> xs[i] != xs[j]
  }

  function Sum(xs: seq<int>): int {
    if xs == [] then 0 else xs[0] + Sum(xs[1..])
  }

  /** getLinksAndSize: the own size of a block (0 when unknown) and its links. */
  function GetLinksAndSize(s: BlockStore, block: Multihash): (r: (nat, seq<Multihash>))
    ensures r.1 == s.links(block)
    ensures s.size(block).None? ==> r.0 == 0
    ensures s.size(block).Some? ==> r.0 == s.size(block).value
  {
    (s.size(block).GetOr(0), s.links(block))
  }

  /** getRecursiveBlockSize: own size plus the recursive sizes of all links, duplicates included. */
  function RecursiveBlockSize(s: BlockStore, block: Multihash): int
    requires Acyclic(s)
    decreases s.rank(block)
  {
    var links := s.links(block);
    Sum(seq(|links|, i requires 0 <= i < |links| => RecursiveBlockSize(s, links[i]))) + s.size(block).GetOr(0)
  }

  /** The recursive sizes of a list of blocks, in order. */
  function Sizes(s: BlockStore, hs: seq<Multihash>): (r: seq<int>)
    requires Acyclic(s)
    ensures |r| == |hs|
    ensures forall i :: 0 <= i < |hs| ==> r[i] == RecursiveBlockSize(s, hs[i])
  {
    seq(|hs|, i requires 0 <= i < |hs| => RecursiveBlockSize(s, hs[i]))
  }

  /**
   * List.removeAll: the elements of xs, in order, with every occurrence of
   * any element of ys removed.
   */
  function RemoveAll(xs: seq<Multihash>, ys: seq<Multihash>): (r: seq<Multihash>)
    ensures forall x :: x in r <==> x in xs && x !in ys
  {
    if xs == [] then []
    else
      (if xs[0] in ys then [] else [xs[0]]) + RemoveAll(xs[1..], ys)
  }

  /** The index-aligned pairs of two leftover lists and the unpaired tails. */
  datatype Pairing = Pairing(
    pairs: seq<(Multihash, Multihash)>,
    extraBefore: seq<Multihash>,
    extraAfter: seq<Multihash>)

  function Min(a: int, b: int): int {
    if a < b then a else b
  }

  function PairUp(onlyBefore: seq<Multihash>, onlyAfter: seq<Multihash>): (p: Pairing)
    ensures |p.pairs| == Min(|onlyBefore|, |onlyAfter|)
    ensures forall i :: 0 <= i < |p.pairs| ==> p.pairs[i] == (onlyBefore[i], onlyAfter[i])
    ensures p.extraBefore == onlyBefore[|p.pairs|..] && p.extraAfter == onlyAfter[|p.pairs|..]
    ensures p.extraBefore == [] || p.extraAfter == []
  {
    var nPairs := Min(|onlyBefore|, |onlyAfter|);
    var pairs := seq(nPairs, i requires 0 <= i < nPairs => (onlyBefore[i], onlyAfter[i]));
    Pairing(pairs, onlyBefore[nPairs..], onlyAfter[nPairs..])
  }

  /** getChangeInContainedSize(MaybeMultihash, Multihash): an absent original counts as nothing. */
  function ChangeInContainedSize(s: BlockStore, original: MaybeMultihash, updated: Multihash): int
    requires Acyclic(s)
  {
    if !original.IsPresent() then RecursiveBlockSize(s, updated)
    else ChangeBetween(s, original.hash.value, updated)
  }

  /**
   * getChangeInContainedSize(Multihash, Multihash): the change in own size, plus
   * the recursive sizes of unpaired added links, minus those of unpaired removed
   * links, plus the changes between index-aligned pairs of leftover links.
   */
  function ChangeBetween(s: BlockStore, original: Multihash, updated: Multihash): int
    requires Acyclic(s)
    decreases s.rank(original) + s.rank(updated), 1
  {
    var before := GetLinksAndSize(s, original);
    var after := GetLinksAndSize(s, updated);
    var objectDelta := after.0 - before.0;
    var onlyBefore := RemoveAll(before.1, after.1);
    var onlyAfter := RemoveAll(after.1, before.1);
    var p := PairUp(onlyBefore, onlyAfter);
    PairsRankBelow(s, original, updated);
    var pairDiffs := PairChanges(s, p.pairs, original, updated);
    Sum(pairDiffs) + (Sum(Sizes(s, p.extraAfter)) - Sum(Sizes(s, p.extraBefore)) + objectDelta)
  }

  /** The changes between the index-aligned pairs, in order. */
  function PairChanges(s: BlockStore, pairs: seq<(Multihash, Multihash)>, ghost original: Multihash, ghost updated: Multihash): (r: seq<int>)
    requires Acyclic(s)
    requires forall i :: 0 <= i < |pairs| ==> s.rank(pairs[i].0) < s.rank(original) && s.rank(pairs[i].1) < s.rank(updated)
    ensures |r| == |pairs|
    ensures forall i :: 0 <= i < |pairs| ==> r[i] == ChangeBetween(s, pairs[i].0, pairs[i].1)
    decreases s.rank(original) + s.rank(updated), 0
  {
    seq(|pairs|, i requires 0 <= i < |pairs| => ChangeBetween(s, pairs[i].0, pairs[i].1))
  }

  /** Both halves of every pair are links of the respective root, hence rank lower. */
  lemma PairsRankBelow(s: BlockStore, original: Multihash, updated: Multihash)
    requires Acyclic(s)
    ensures var p := PairUp(RemoveAll(s.links(original), s.links(updated)), RemoveAll(s.links(updated), s.links(original)));
            forall i :: 0 <= i < |p.pairs| ==> s.rank(p.pairs[i].0) < s.rank(original) && s.rank(p.pairs[i].1) < s.rank(updated)
  {
    var onlyBefore := RemoveAll(s.links(original), s.links(updated));
    var onlyAfter := RemoveAll(s.links(updated), s.links(original));
    var p := PairUp(onlyBefore, onlyAfter);
    forall i | 0 <= i < |p.pairs|
      ensures s.rank(p.pairs[i].0) < s.rank(original) && s.rank(p.pairs[i].1) < s.rank(updated)
    {
      assert p.pairs[i] == (onlyBefore[i], onlyAfter[i]);
      assert onlyBefore[i] in onlyBefore && onlyAfter[i] in onlyAfter;
    }
  }

  /** removeAll keeps an element's every occurrence unless ys holds it, and then keeps none. */
  lemma {:induction false} RemoveAllCount(xs: seq<Multihash>, ys: seq<Multihash>)
    ensures forall x :: multiset(RemoveAll(xs, ys))[x] == if x in ys then 0 else multiset(xs)[x]
  {
    if xs != [] {
      assert xs == [xs[0]] + xs[1..];
      RemoveAllCount(xs[1..], ys);
    }
  }

  lemma {:induction false} KeepCount(xs: seq<Multihash>, ys: seq<Multihash>)
    ensures forall x :: multiset(Keep(xs, ys))[x] == if x in ys then multiset(xs)[x] else 0
  {
    if xs != [] {
      assert xs == [xs[0]] + xs[1..];
      KeepCount(xs[1..], ys);
    }
  }

  /** The elements of xs, in order, that also occur in ys. */
  function Keep(xs: seq<Multihash>, ys: seq<Multihash>): seq<Multihash> {
    if xs == [] then []
    else
      (if xs[0] in ys then [xs[0]] else []) + Keep(xs[1..], ys)
  }

  // ----- Sums -----

  lemma {:induction false} SumConcat(a: seq<int>, b: seq<int>)
    ensures Sum(a + b) == Sum(a) + Sum(b)
  {
    if a == [] {
      assert a + b == b;
    } else {
      assert (a + b)[1..] == a[1..] + b;
      SumConcat(a[1..], b);
    }
  }

  lemma SizesConcat(s: BlockStore, a: seq<Multihash>, b: seq<Multihash>)
    requires Acyclic(s)
    ensures Sizes(s, a + b) == Sizes(s, a) + Sizes(s, b)
  {
  }

  lemma SumSizesConcat(s: BlockStore, a: seq<Multihash>, b: seq<Multihash>)
    requires Acyclic(s)
    ensures Sum(Sizes(s, a + b)) == Sum(Sizes(s, a)) + Sum(Sizes(s, b))
  {
    SizesConcat(s, a, b);
    SumConcat(Sizes(s, a), Sizes(s, b));
  }

  /** Sums of index-wise differences. */
  lemma {:induction false} SumOfDifferences(xs: seq<int>, ys: seq<int>, zs: seq<int>)
    requires |xs| == |ys| == |zs|
    requires forall i :: 0 <= i < |zs| ==> zs[i] == ys[i] - xs[i]
    ensures Sum(zs) == Sum(ys) - Sum(xs)
  {
    if zs != [] {
      SumOfDifferences(xs[1..], ys[1..], zs[1..]);
    }
  }

  lemma {:induction false} SumNonNegative(xs: seq<int>)
    requires forall i :: 0 <= i < |xs| ==> xs[i] >= 0
    ensures Sum(xs) >= 0
  {
    if xs != [] {
      SumNonNegative(xs[1..]);
    }
  }

  /** The recursive size of a list depends only on which blocks it holds, and how often. */
  lemma {:induction false} SumSizesPermutation(s: BlockStore, xs: seq<Multihash>, ys: seq<Multihash>)
    requires Acyclic(s)
    requires multiset(xs) == multiset(ys)
    ensures Sum(Sizes(s, xs)) == Sum(Sizes(s, ys))
    decreases |xs|
  {
    if xs == [] {
      assert |ys| == |multiset(ys)| == 0;
    } else {
      assert xs[0] in multiset(ys);
      var k :| 0 <= k < |ys| && ys[k] == xs[0];
      var rest := ys[..k] + ys[k + 1..];
      assert ys == ys[..k] + [ys[k]] + ys[k + 1..];
      assert xs == [xs[0]] + xs[1..];
      assert multiset(ys) == multiset(ys[..k]) + multiset([ys[k]]) + multiset(ys[k + 1..]);
      assert multiset(rest) == multiset(ys[..k]) + multiset(ys[k + 1..]);
      assert multiset(xs) == multiset([xs[0]]) + multiset(xs[1..]);
      assert multiset(xs[1..]) == multiset(xs) - multiset{xs[0]};
      assert multiset(rest) == multiset(ys) - multiset{ys[k]};
      SumSizesPermutation(s, xs[1..], rest);
      SumSizesConcat(s, ys[..k] + [ys[k]], ys[k + 1..]);
      SumSizesConcat(s, ys[..k], [ys[k]]);
      SumSizesConcat(s, ys[..k], ys[k + 1..]);
      SumSizesConcat(s, [xs[0]], xs[1..]);
    }
  }

  /** Splitting a list into the blocks that occur in ys and the rest keeps its recursive size. */
  lemma {:induction false} SumSizesSplit(s: BlockStore, xs: seq<Multihash>, ys: seq<Multihash>)
    requires Acyclic(s)
    ensures Sum(Sizes(s, xs)) == Sum(Sizes(s, Keep(xs, ys))) + Sum(Sizes(s, RemoveAll(xs, ys)))
  {
    if xs != [] {
      var x, tail := xs[0], xs[1..];
      assert xs == [x] + tail;
      SumSizesSplit(s, tail, ys);
      SumSizesConcat(s, [x], tail);
      if x in ys {
        assert Keep(xs, ys) == [x] + Keep(tail, ys);
        assert RemoveAll(xs, ys) == RemoveAll(tail, ys);
        SumSizesConcat(s, [x], Keep(tail, ys));
      } else {
        assert Keep(xs, ys) == Keep(tail, ys);
        assert RemoveAll(xs, ys) == [x] + RemoveAll(tail, ys);
        SumSizesConcat(s, [x], RemoveAll(tail, ys));
      }
    }
  }

  lemma {:induction false} DistinctMultiset(xs: seq<Multihash>)
    requires Distinct(xs)
    ensures forall x :: multiset(xs)[x] == if x in xs then 1 else 0
  {
    if xs != [] {
      assert xs == [xs[0]] + xs[1..];
      assert Distinct(xs[1..]);
      DistinctMultiset(xs[1..]);
      assert xs[0] !in xs[1..];
    }
  }

  // ----- Recursive size -----

  /** Recursive size is own size (0 when unknown) plus the recursive size of every link occurrence. */
  lemma RecursiveBlockSizeUnfold(s: BlockStore, block: Multihash)
    requires Acyclic(s)
    ensures RecursiveBlockSize(s, block) == s.size(block).GetOr(0) + Sum(Sizes(s, s.links(block)))
  {
    var links := s.links(block);
    assert seq(|links|, i requires 0 <= i < |links| => RecursiveBlockSize(s, links[i])) == Sizes(s, links);
  }

  lemma {:induction false} RecursiveBlockSizeNonNegative(s: BlockStore, block: Multihash)
    requires Acyclic(s)
    ensures RecursiveBlockSize(s, block) >= s.size(block).GetOr(0) >= 0
    decreases s.rank(block)
  {
    var links := s.links(block);
    forall i | 0 <= i < |links| ensures Sizes(s, links)[i] >= 0 {
      RecursiveBlockSizeNonNegative(s, links[i]);
    }
    SumNonNegative(Sizes(s, links));
    RecursiveBlockSizeUnfold(s, block);
  }

  // ----- Change in contained size -----

  /** With an absent original the change is the updated root's whole recursive size. */
  /**
   * Without duplicate links, getChangeInContainedSize(MaybeMultihash, Multihash)
   * is the updated root's recursive size minus the original's, an absent
   * original counting as nothing.
   */
  lemma ChangeInContainedSizeIsExact(s: BlockStore, original: MaybeMultihash, updated: Multihash)
    requires Acyclic(s) && NoDuplicateLinks(s)
    ensures ChangeInContainedSize(s, original, updated) ==
      RecursiveBlockSize(s, updated) - (if original.IsPresent() then RecursiveBlockSize(s, original.hash.value) else 0)
  {
    if original.IsPresent() {
      ChangeIsExactWithoutDuplicates(s, original.hash.value, updated);
    }
  }

  lemma ChangeFromAbsent(s: BlockStore, updated: Multihash)
    requires Acyclic(s)
    ensures ChangeInContainedSize(s, Empty(), updated) == RecursiveBlockSize(s, updated)
  {
  }

  /** The result of the diff, stated over its named parts. */
  lemma ChangeBetweenUnfold(s: BlockStore, original: Multihash, updated: Multihash)
    requires Acyclic(s)
    ensures var onlyBefore := RemoveAll(s.links(original), s.links(updated));
            var onlyAfter := RemoveAll(s.links(updated), s.links(original));
            var p := PairUp(onlyBefore, onlyAfter);
            ChangeBetween(s, original, updated)
            == (s.size(updated).GetOr(0) - s.size(original).GetOr(0))
               + Sum(Sizes(s, p.extraAfter)) - Sum(Sizes(s, p.extraBefore))
               + Sum(PairChanges(s, p.pairs, original, updated))
  {
  }

  lemma {:induction false} SumNegated(xs: seq<int>, zs: seq<int>)
    requires |xs| == |zs|
    requires forall i :: 0 <= i < |zs| ==> zs[i] == -xs[i]
    ensures Sum(zs) == -Sum(xs)
  {
    if zs != [] {
      SumNegated(xs[1..], zs[1..]);
    }
  }

  /** removeAll keeps the order of what it keeps. */
  lemma {:induction false} RemoveAllConcat(a: seq<Multihash>, b: seq<Multihash>, ys: seq<Multihash>)
    ensures RemoveAll(a + b, ys) == RemoveAll(a, ys) + RemoveAll(b, ys)
  {
    if a == [] {
      assert a + b == b;
    } else {
      assert (a + b)[0] == a[0] && (a + b)[1..] == a[1..] + b;
      RemoveAllConcat(a[1..], b, ys);
    }
  }

  /** Nothing is left when every element is removed. */
  lemma {:induction false} RemoveAllCovered(xs: seq<Multihash>, ys: seq<Multihash>)
    requires forall x :: x in xs ==> x in ys
    ensures RemoveAll(xs, ys) == []
  {
    if xs != [] {
      assert xs[0] in xs;
      RemoveAllCovered(xs[1..], ys);
    }
  }

  /** Diffing a root against itself gives 0. */
  lemma ChangeToSelfIsZero(s: BlockStore, root: Multihash)
    requires Acyclic(s)
    ensures ChangeBetween(s, root, root) == 0
    ensures ChangeInContainedSize(s, Of(root), root) == 0
  {
    RemoveAllCovered(s.links(root), s.links(root));
    ChangeBetweenUnfold(s, root, root);
  }

  /** Swapping the roots negates the change. */
  lemma {:induction false} ChangeIsAntisymmetric(s: BlockStore, a: Multihash, b: Multihash)
    requires Acyclic(s)
    ensures ChangeBetween(s, a, b) == -ChangeBetween(s, b, a)
    decreases s.rank(a) + s.rank(b)
  {
    var onlyA := RemoveAll(s.links(a), s.links(b));
    var onlyB := RemoveAll(s.links(b), s.links(a));
    var p := PairUp(onlyA, onlyB);
    var q := PairUp(onlyB, onlyA);
    ChangeBetweenUnfold(s, a, b);
    ChangeBetweenUnfold(s, b, a);
    PairsRankBelow(s, a, b);
    PairsRankBelow(s, b, a);
    var forward := PairChanges(s, p.pairs, a, b);
    var backward := PairChanges(s, q.pairs, b, a);
    forall i | 0 <= i < |backward|
      ensures backward[i] == -forward[i]
    {
      ChangeIsAntisymmetric(s, onlyA[i], onlyB[i]);
    }
    SumNegated(forward, backward);
  }

  /**
   * When no link list repeats a block, the diff is exact: it equals the
   * difference of the two roots' recursive sizes, whatever the pairing.
   */
  lemma {:induction false} ChangeIsExactWithoutDuplicates(s: BlockStore, a: Multihash, b: Multihash)
    requires Acyclic(s) && NoDuplicateLinks(s)
    ensures ChangeBetween(s, a, b) == RecursiveBlockSize(s, b) - RecursiveBlockSize(s, a)
    decreases s.rank(a) + s.rank(b)
  {
    var la, lb := s.links(a), s.links(b);
    var onlyA := RemoveAll(la, lb);
    var onlyB := RemoveAll(lb, la);
    var p := PairUp(onlyA, onlyB);
    PairsRankBelow(s, a, b);
    forall i | 0 <= i < |p.pairs|
      ensures ChangeBetween(s, onlyA[i], onlyB[i]) == RecursiveBlockSize(s, onlyB[i]) - RecursiveBlockSize(s, onlyA[i])
    {
      assert p.pairs[i] == (onlyA[i], onlyB[i]);
      assert s.rank(onlyA[i]) + s.rank(onlyB[i]) < s.rank(a) + s.rank(b);
      ChangeIsExactWithoutDuplicates(s, onlyA[i], onlyB[i]);
    }
    ExactFromPairs(s, a, b);
  }

  /** The exactness step once every pair's change is known to be exact. */
  lemma ExactFromPairs(s: BlockStore, a: Multihash, b: Multihash)
    requires Acyclic(s) && Distinct(s.links(a)) && Distinct(s.links(b))
    requires var onlyA := RemoveAll(s.links(a), s.links(b));
             var onlyB := RemoveAll(s.links(b), s.links(a));
             var p := PairUp(onlyA, onlyB);
             forall i :: 0 <= i < |p.pairs| ==>
               ChangeBetween(s, onlyA[i], onlyB[i]) == RecursiveBlockSize(s, onlyB[i]) - RecursiveBlockSize(s, onlyA[i])
    ensures ChangeBetween(s, a, b) == RecursiveBlockSize(s, b) - RecursiveBlockSize(s, a)
  {
    var la, lb := s.links(a), s.links(b);
    var onlyA := RemoveAll(la, lb);
    var onlyB := RemoveAll(lb, la);
    var p := PairUp(onlyA, onlyB);
    PairsRankBelow(s, a, b);
    var changes := PairChanges(s, p.pairs, a, b);
    var ownDelta := s.size(b).GetOr(0) - s.size(a).GetOr(0);
    ChangeBetweenUnfold(s, a, b);
    assert ChangeBetween(s, a, b) == ownDelta + Sum(Sizes(s, p.extraAfter)) - Sum(Sizes(s, p.extraBefore)) + Sum(changes);
    forall i | 0 <= i < |changes|
      ensures changes[i] == RecursiveBlockSize(s, onlyB[i]) - RecursiveBlockSize(s, onlyA[i])
    {
      assert p.pairs[i] == (onlyA[i], onlyB[i]);
    }
    PairedAndExtraSizes(s, onlyA, onlyB, changes);
    assert ChangeBetween(s, a, b) == ownDelta + Sum(Sizes(s, onlyB)) - Sum(Sizes(s, onlyA));
    RecursiveBlockSizeUnfold(s, a);
    RecursiveBlockSizeUnfold(s, b);
    SharedLinksCancel(s, la, lb);
  }

  /** Exact pair changes plus the unpaired tails add up to the change over the whole leftover lists. */
  lemma PairedAndExtraSizes(s: BlockStore, xs: seq<Multihash>, ys: seq<Multihash>, changes: seq<int>)
    requires Acyclic(s)
    requires |changes| <= |xs| && |changes| <= |ys|
    requires forall i :: 0 <= i < |changes| ==> changes[i] == RecursiveBlockSize(s, ys[i]) - RecursiveBlockSize(s, xs[i])
    ensures Sum(changes) + Sum(Sizes(s, ys[|changes|..])) - Sum(Sizes(s, xs[|changes|..]))
            == Sum(Sizes(s, ys)) - Sum(Sizes(s, xs))
  {
    var n := |changes|;
    PairedSum(s, xs, ys, changes);
    assert xs == xs[..n] + xs[n..];
    assert ys == ys[..n] + ys[n..];
    SumSizesConcat(s, xs[..n], xs[n..]);
    SumSizesConcat(s, ys[..n], ys[n..]);
  }

  /** The exact pair changes add up to the difference of the paired prefixes' sizes. */
  lemma PairedSum(s: BlockStore, xs: seq<Multihash>, ys: seq<Multihash>, changes: seq<int>)
    requires Acyclic(s)
    requires |changes| <= |xs| && |changes| <= |ys|
    requires forall i :: 0 <= i < |changes| ==> changes[i] == RecursiveBlockSize(s, ys[i]) - RecursiveBlockSize(s, xs[i])
    ensures Sum(changes) == Sum(Sizes(s, ys[..|changes|])) - Sum(Sizes(s, xs[..|changes|]))
  {
    var n := |changes|;
    var xSizes, ySizes := Sizes(s, xs[..n]), Sizes(s, ys[..n]);
    forall i | 0 <= i < n
      ensures changes[i] == ySizes[i] - xSizes[i]
    {
      assert xs[..n][i] == xs[i] && ys[..n][i] == ys[i];
    }
    SumOfDifferences(xSizes, ySizes, changes);
  }

  lemma SharedLinksSameMultiset(la: seq<Multihash>, lb: seq<Multihash>)
    requires Distinct(la) && Distinct(lb)
    ensures multiset(Keep(la, lb)) == multiset(Keep(lb, la))
  {
    KeepCount(la, lb);
    KeepCount(lb, la);
    DistinctMultiset(la);
    DistinctMultiset(lb);
    forall x
      ensures multiset(Keep(la, lb))[x] == multiset(Keep(lb, la))[x]
    {
    }
  }

  /** Links two duplicate-free lists share contribute alike to both sums. */
  lemma SharedLinksCancel(s: BlockStore, la: seq<Multihash>, lb: seq<Multihash>)
    requires Acyclic(s) && Distinct(la) && Distinct(lb)
    ensures Sum(Sizes(s, la)) - Sum(Sizes(s, RemoveAll(la, lb)))
            == Sum(Sizes(s, lb)) - Sum(Sizes(s, RemoveAll(lb, la)))
  {
    SumSizesSplit(s, la, lb);
    SumSizesSplit(s, lb, la);
    SharedLinksSameMultiset(la, lb);
    SumSizesPermutation(s, Keep(la, lb), Keep(lb, la));
  }

  // ----- A store whose link list repeats a block -----

  function DuplicateLinkStore(): BlockStore {
    BlockStore(
      h => if h == Multihash([2]) then Some(1) else None,
      h => if h == Multihash([0]) then [Multihash([2]), Multihash([2])]
           else if h == Multihash([1]) then [Multihash([2])]
           else [],
      h => if h == Multihash([2]) then 0 else 1)
  }

  /**
   * Root [0] links block [2] twice and root [1] once: the recursive sizes
   * count the repeated link twice, while the diff removes every occurrence of
   * a shared link and so reports no change.
   */
  lemma DuplicateLinksBreakExactness()
    ensures Acyclic(DuplicateLinkStore())
    ensures RecursiveBlockSize(DuplicateLinkStore(), Multihash([0])) == 2
    ensures RecursiveBlockSize(DuplicateLinkStore(), Multihash([1])) == 1
    ensures ChangeBetween(DuplicateLinkStore(), Multihash([0]), Multihash([1])) == 0
  {
    var s := DuplicateLinkStore();
    var a, b, c := Multihash([0]), Multihash([1]), Multihash([2]);
    assert c != a && c != b && a != b;
    assert s.links(c) == [];
    RecursiveBlockSizeUnfold(s, c);
    assert RecursiveBlockSize(s, c) == 1;
    RecursiveBlockSizeUnfold(s, a);
    assert Sizes(s, [c, c]) == [1, 1];
    RecursiveBlockSizeUnfold(s, b);
    assert Sizes(s, [c]) == [1];
    RemoveAllCovered([c, c], [c]);
    RemoveAllCovered([c], [c, c]);
    ChangeBetweenUnfold(s, a, b);
  }
}
