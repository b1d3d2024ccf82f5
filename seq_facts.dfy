/** Facts about sequences used throughout the model. */
module SeqFacts {
  lemma SeqAssoc<T>(a: seq<T>, b: seq<T>, c: seq<T>)
    ensures (a + b) + c == a + (b + c)
  {
  }

  /** A non-empty sequence is its front followed by its last element. */
  lemma SplitLast<T>(xs: seq<T>)
    requires |xs| > 0
    ensures xs == xs[..|xs| - 1] + [xs[|xs| - 1]]
  {
  }

  lemma InSnoc<T>(xs: seq<T>, x: T, y: T)
    ensures y in xs + [x] <==> y in xs || y == x
  {
  }

  /** Taking one more element appends it. */
  lemma TakeAll<T>(xs: seq<T>)
    ensures xs[..|xs|] == xs
  {
  }

  lemma TakeSnoc<T>(xs: seq<T>, k: nat)
    requires k < |xs|
    ensures xs[..k + 1] == xs[..k] + [xs[k]]
  {
  }

  /** The blocks joined end to end, in order. */
  function Concat<T>(bs: seq<seq<T>>): seq<T>
  {
    if bs == [] then [] else Concat(bs[..|bs| - 1]) + bs[|bs| - 1]
  }

  lemma ConcatSnoc<T>(bs: seq<seq<T>>, b: seq<T>)
    ensures Concat(bs + [b]) == Concat(bs) + b
  {
    assert (bs + [b])[..|bs|] == bs;
  }

  /** Joining three blocks. */
  lemma ConcatThree<T>(bs: seq<seq<T>>)
    requires |bs| == 3
    ensures Concat(bs) == bs[0] + bs[1] + bs[2]
  {
    assert bs[..2][..1][..0] == [];
    assert Concat(bs[..2][..1]) == bs[0];
    assert Concat(bs[..2]) == bs[0] + bs[1];
  }

  /** Every entry of a join is an entry of one block, at the returned place. */
  lemma {:induction false} ConcatSound<T>(bs: seq<seq<T>>, k: nat) returns (i: nat, p: nat)
    requires k < |Concat(bs)|
    ensures i < |bs| && p < |bs[i]| && Concat(bs)[k] == bs[i][p]
    decreases |bs|
  {
    var front, last := bs[..|bs| - 1], bs[|bs| - 1];
    var xs := Concat(front);
    assert Concat(bs) == xs + last;
    if k < |xs| {
      i, p := ConcatSound(front, k);
      assert front[i] == bs[i];
    } else {
      i, p := |bs| - 1, k - |xs|;
    }
  }

  /** Every entry of every block is an entry of the join, at the returned place. */
  lemma {:induction false} ConcatComplete<T>(bs: seq<seq<T>>, i: nat, p: nat) returns (k: nat)
    requires i < |bs| && p < |bs[i]|
    ensures k < |Concat(bs)| && Concat(bs)[k] == bs[i][p]
    decreases |bs|
  {
    var front, last := bs[..|bs| - 1], bs[|bs| - 1];
    var xs := Concat(front);
    assert Concat(bs) == xs + last;
    if i < |bs| - 1 {
      assert front[i] == bs[i];
      k := ConcatComplete(front, i, p);
    } else {
      k := |xs| + p;
    }
  }

  /** A join of blocks of one element each lists those elements. */
  lemma {:induction false} ConcatSingletons<T>(bs: seq<seq<T>>)
    requires forall i :: 0 <= i < |bs| ==> |bs[i]| == 1
    ensures |Concat(bs)| == |bs|
    ensures forall k :: 0 <= k < |bs| ==> Concat(bs)[k] == bs[k][0]
    decreases |bs|
  {
    if bs != [] {
      var front := bs[..|bs| - 1];
      ConcatSingletons(front);
      assert Concat(bs) == Concat(front) + bs[|bs| - 1];
    }
  }

  /** No element occurs twice. */
  predicate NoDup<T(==)>(xs: seq<T>)
  {
    forall p, q :: 0 <= p < q < |xs| ==> xs[p] != xs[q]
  }

  /** Two duplicate-free lists whose elements a key tells apart join without duplicates. */
  lemma NoDupConcatKey<T>(xs: seq<T>, ys: seq<T>, key: T -> int, c: int)
    requires NoDup(xs) && NoDup(ys)
    requires forall p :: 0 <= p < |xs| ==> key(xs[p]) < c
    requires forall q :: 0 <= q < |ys| ==> key(ys[q]) == c
    ensures NoDup(xs + ys)
  {
    var zs := xs + ys;
    forall p, q | 0 <= p < q < |zs|
      ensures zs[p] != zs[q]
    {
      if p < |xs| && q >= |xs| {
        assert zs[p] == xs[p] && zs[q] == ys[q - |xs|];
        assert key(zs[p]) < c == key(zs[q]);
      } else if p < |xs| {
        assert zs[p] == xs[p] && zs[q] == xs[q];
      } else {
        assert zs[p] == ys[p - |xs|] && zs[q] == ys[q - |xs|];
      }
    }
  }

  /**
   * A join of duplicate-free blocks is duplicate-free when a key gives
   * every entry of block i the value i.
   */
  lemma {:induction false} ConcatNoDup<T>(bs: seq<seq<T>>, key: T -> int)
    requires forall i :: 0 <= i < |bs| ==> NoDup(bs[i])
    requires forall i, p :: 0 <= i < |bs| && 0 <= p < |bs[i]| ==> key(bs[i][p]) == i
    ensures NoDup(Concat(bs))
    decreases |bs|
  {
    if bs != [] {
      var front, last := bs[..|bs| - 1], bs[|bs| - 1];
      var xs := Concat(front);
      assert Concat(bs) == xs + last;
      assert NoDup(xs) by {
        ConcatNoDup(front, key);
      }
      forall k | 0 <= k < |xs|
        ensures key(xs[k]) < |bs| - 1
      {
        var i, p := ConcatSound(front, k);
        assert front[i] == bs[i];
      }
      NoDupConcatKey(xs, last, key, |bs| - 1);
    }
  }

  /** Joining blocks that are entrywise images of other blocks gives the image of their join. */
  lemma {:induction false} ConcatMapped<A, B>(bs: seq<seq<A>>, cs: seq<seq<B>>, f: A -> B)
    requires |bs| == |cs|
    requires forall i :: 0 <= i < |bs| ==> |cs[i]| == |bs[i]|
    requires forall i, p :: 0 <= i < |bs| && 0 <= p < |bs[i]| ==> cs[i][p] == f(bs[i][p])
    ensures |Concat(cs)| == |Concat(bs)|
    ensures forall k :: 0 <= k < |Concat(bs)| ==> Concat(cs)[k] == f(Concat(bs)[k])
    decreases |bs|
  {
    if bs != [] {
      var n := |bs| - 1;
      var xs, ys := Concat(bs[..n]), Concat(cs[..n]);
      ConcatMapped(bs[..n], cs[..n], f);
      assert Concat(bs) == xs + bs[n];
      assert Concat(cs) == ys + cs[n];
    }
  }

  /**
   * The entries cover the interval from a to b end to end: each starts
   * where the one before it ends, without gap or overlap.
   */
  predicate Tiles<T>(xs: seq<T>, start: T -> int, len: T -> int, a: int, b: int)
  {
    if xs == [] then a == b
    else
      && start(xs[0]) == a
      && start(xs[|xs| - 1]) + len(xs[|xs| - 1]) == b
      && forall k :: 0 <= k < |xs| - 1 ==> start(xs[k]) + len(xs[k]) == start(xs[k + 1])
  }

  lemma TilesConcat<T>(xs: seq<T>, ys: seq<T>, start: T -> int, len: T -> int, a: int, b: int, c: int)
    requires Tiles(xs, start, len, a, b) && Tiles(ys, start, len, b, c)
    ensures Tiles(xs + ys, start, len, a, c)
  {
    var zs := xs + ys;
    if xs == [] {
      assert zs == ys;
    } else if ys == [] {
      assert zs == xs;
    } else {
      forall k | 0 <= k < |zs| - 1
        ensures start(zs[k]) + len(zs[k]) == start(zs[k + 1])
      {
        if k < |xs| - 1 {
          assert zs[k] == xs[k] && zs[k + 1] == xs[k + 1];
        } else if k == |xs| - 1 {
          assert zs[k] == xs[k] && zs[k + 1] == ys[0];
        } else {
          assert zs[k] == ys[k - |xs|] && zs[k + 1] == ys[k + 1 - |xs|];
        }
      }
      assert zs[0] == xs[0] && zs[|zs| - 1] == ys[|ys| - 1];
    }
  }

  /** Blocks that tile consecutive intervals join into a tiling of their union. */
  lemma {:induction false} ConcatTiles<T>(bs: seq<seq<T>>, start: T -> int, len: T -> int, bound: int -> int)
    requires forall i :: 0 <= i < |bs| ==> Tiles(bs[i], start, len, bound(i), bound(i + 1))
    ensures Tiles(Concat(bs), start, len, bound(0), bound(|bs|))
    decreases |bs|
  {
    if bs != [] {
      var n := |bs| - 1;
      ConcatTiles(bs[..n], start, len, bound);
      assert Concat(bs) == Concat(bs[..n]) + bs[n];
      TilesConcat(Concat(bs[..n]), bs[n], start, len, bound(0), bound(n), bound(n + 1));
    }
  }
}
