/**
 * The selection: a JavaScript `Set` of slot ids, kept as a sequence in
 * insertion order without duplicates, and the range selection over the
 * linearisation that click, shift-click and drag are built from.
 */
module Selection {
  import opened SeqFacts

  /** `set.add(id)`: a new id goes to the end, a present one stays where it is. */
  function Add(sel: seq<string>, id: string): seq<string>
  {
    if id in sel then sel else sel + [id]
  }

  /** Adding each id of `ids` in turn. */
  function AddAll(sel: seq<string>, ids: seq<string>): seq<string>
  {
    if ids == [] then sel else Add(AddAll(sel, ids[..|ids| - 1]), ids[|ids| - 1])
  }

  /** Adding keeps a set a set, keeps every old id in its place and adds just the one id. */
  lemma AddSpec(sel: seq<string>, id: string)
    requires NoDup(sel)
    ensures NoDup(Add(sel, id))
    ensures forall x :: x in Add(sel, id) <==> x in sel || x == id
    ensures |sel| <= |Add(sel, id)| && Add(sel, id)[..|sel|] == sel
  {
    if id !in sel {
      var r := sel + [id];
      forall p, q | 0 <= p < q < |r|
        ensures r[p] != r[q]
      {
        if q == |sel| {
          assert r[p] == sel[p];
        }
      }
    }
  }

  /** Adding many ids: the union, with the old selection kept as a prefix. */
  lemma {:induction false} AddAllSpec(sel: seq<string>, ids: seq<string>)
    requires NoDup(sel)
    ensures NoDup(AddAll(sel, ids))
    ensures forall x :: x in AddAll(sel, ids) <==> x in sel || x in ids
    ensures |sel| <= |AddAll(sel, ids)| && AddAll(sel, ids)[..|sel|] == sel
    decreases |ids|
  {
    if ids != [] {
      var front, last := ids[..|ids| - 1], ids[|ids| - 1];
      AddAllSpec(sel, front);
      var mid := AddAll(sel, front);
      AddSpec(mid, last);
      assert ids == front + [last];
      assert AddAll(sel, ids)[..|mid|][..|sel|] == sel;
    }
  }

  /** One more id of a run, added after the ones before it. */
  lemma AddAllStep(sel: seq<string>, xs: seq<string>, lo: nat, i: nat)
    requires lo <= i < |xs|
    ensures AddAll(sel, xs[lo..i + 1]) == Add(AddAll(sel, xs[lo..i]), xs[i])
  {
    var run := xs[lo..i + 1];
    assert run[..|run| - 1] == xs[lo..i];
  }

  /** `allIds.indexOf(id)`: the first position of id, or -1 when it is absent. */
  function IndexOf(xs: seq<string>, x: string): (k: int)
    ensures -1 <= k < |xs|
    ensures k == -1 <==> x !in xs
    ensures 0 <= k ==> xs[k] == x && forall p :: 0 <= p < k ==> xs[p] != x
  {
    if xs == [] then -1
    else if xs[0] == x then 0
    else
      var k := IndexOf(xs[1..], x);
      if k == -1 then -1 else k + 1
  }

  /** In a list without duplicates the position of an entry is its index. */
  lemma IndexOfNoDup(xs: seq<string>, k: nat)
    requires NoDup(xs) && k < |xs|
    ensures IndexOf(xs, xs[k]) == k
  {
  }

  function Min(a: int, b: int): int { if a <= b then a else b }

  function Max(a: int, b: int): int { if a <= b then b else a }

  /**
   * `selectRange(startId, endId)` with the linearisation `all`: when both
   * ids are listed, add every id from the lower to the higher position,
   * both included; otherwise leave the selection alone.
   */
  function SelectRange(sel: seq<string>, all: seq<string>, startId: string, endId: string): seq<string>
  {
    SelectBetween(sel, all, IndexOf(all, startId), IndexOf(all, endId))
  }

  /** The range between two positions of `all`, -1 standing for an id that is not listed. */
  function SelectBetween(sel: seq<string>, all: seq<string>, s: int, e: int): seq<string>
    requires -1 <= s < |all| && -1 <= e < |all|
  {
    if s == -1 || e == -1 then sel else AddAll(sel, all[Min(s, e)..Max(s, e) + 1])
  }

  /** The id `x` is listed between `a` and `b`, both ends included. */
  predicate Between(all: seq<string>, a: string, b: string, x: string)
  {
    && a in all && b in all && x in all
    && Min(IndexOf(all, a), IndexOf(all, b)) <= IndexOf(all, x) <= Max(IndexOf(all, a), IndexOf(all, b))
  }

  /** The order of the two ends does not matter. */
  lemma SelectRangeSymmetric(sel: seq<string>, all: seq<string>, a: string, b: string)
    ensures SelectRange(sel, all, a, b) == SelectRange(sel, all, b, a)
  {
    RunSymmetric(sel, all, IndexOf(all, a), IndexOf(all, b));
  }

  lemma RunSymmetric(sel: seq<string>, all: seq<string>, s: int, e: int)
    requires -1 <= s < |all| && -1 <= e < |all|
    ensures SelectBetween(sel, all, s, e) == SelectBetween(sel, all, e, s)
  {
    assert Min(s, e) == Min(e, s) && Max(s, e) == Max(e, s);
  }

  /** Nothing happens unless both ends are listed. */
  lemma SelectRangeAbsent(sel: seq<string>, all: seq<string>, a: string, b: string)
    requires a !in all || b !in all
    ensures SelectRange(sel, all, a, b) == sel
  {
  }

  /** In a list without duplicates, an id is in a run exactly when its position lies in the run. */
  lemma RunMember(all: seq<string>, lo: nat, hi: nat, x: string)
    requires NoDup(all) && lo <= hi < |all|
    ensures x in all[lo..hi + 1] <==> x in all && lo <= IndexOf(all, x) <= hi
  {
    var run := all[lo..hi + 1];
    if x in run {
      var p :| 0 <= p < |run| && run[p] == x;
      assert all[lo + p] == x;
      IndexOfNoDup(all, lo + p);
    }
    if x in all && lo <= IndexOf(all, x) <= hi {
      var k := IndexOf(all, x);
      assert run[k - lo] == x;
    }
  }

  /**
   * Adding the run `all[lo..i]` appends only ids listed in that run, and
   * appends them in listing order.
   */
  lemma {:induction false} AddRunOrdered(sel: seq<string>, all: seq<string>, lo: nat, i: nat)
    requires NoDup(sel) && NoDup(all) && lo <= i <= |all|
    ensures var r := AddAll(sel, all[lo..i]);
      && |sel| <= |r|
      && (forall p :: |sel| <= p < |r| ==> r[p] in all && lo <= IndexOf(all, r[p]) < i)
      && (forall p, q :: |sel| <= p < q < |r| ==> IndexOf(all, r[p]) < IndexOf(all, r[q]))
    decreases i - lo
  {
    if i == lo {
      assert all[lo..i] == [];
    } else {
      AddRunOrdered(sel, all, lo, i - 1);
      AddAllStep(sel, all, lo, i - 1);
      var mid := AddAll(sel, all[lo..i - 1]);
      if all[i - 1] !in mid {
        IndexOfNoDup(all, i - 1);
      }
    }
  }

  /**
   * The range adds exactly the ids listed between the two ends, removes
   * nothing, keeps the old selection in its order and appends the new
   * ids in listing order.
   */
  lemma SelectRangeSpec(sel: seq<string>, all: seq<string>, a: string, b: string)
    requires NoDup(sel) && NoDup(all)
    ensures var r := SelectRange(sel, all, a, b);
      && NoDup(r)
      && (forall x :: x in r <==> x in sel || Between(all, a, b, x))
      && |sel| <= |r| && r[..|sel|] == sel
      && (forall p, q :: |sel| <= p < q < |r| ==> IndexOf(all, r[p]) < IndexOf(all, r[q]))
  {
    var r := SelectRange(sel, all, a, b);
    var s, e := IndexOf(all, a), IndexOf(all, b);
    if s == -1 || e == -1 {
      assert r == sel;
      assert forall x :: !Between(all, a, b, x);
    } else {
      var lo, hi := Min(s, e), Max(s, e);
      var run := all[lo..hi + 1];
      assert r == AddAll(sel, run);
      AddAllSpec(sel, run);
      AddRunOrdered(sel, all, lo, hi + 1);
      forall x
        ensures x in run <==> Between(all, a, b, x)
      {
        RunMember(all, lo, hi, x);
      }
    }
  }
}
