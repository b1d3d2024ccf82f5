/**
 * The linearisation of the tree: the addresses of the currently visible
 * leaves in day order, and their ids as `getAllSlotIds` lists them.
 */
module Linearize {
  import opened Wrappers
  import opened TimeSlots
  import opened SlotIds
  import opened SeqFacts


  /** Visible micro-slots 0..n-1 of sub-slot j of root i. */
  function MicroLeaves(i: nat, j: nat, n: nat): seq<Addr>
  {
    seq(n, k requires 0 <= k < n => Slot1(i, j, k))
  }

  /** The visible leaves of sub-slot j of root i. */
  function SubLeaves(i: nat, j: nat, s: Sub): seq<Addr>
  {
    if s.subdivided then MicroLeaves(i, j, |s.micros|) else [Slot10(i, j)]
  }

  /** The leaves of each sub-slot of root i, one block per sub-slot. */
  function SubBlocks(i: nat, subs: seq<Sub>): seq<seq<Addr>>
  {
    seq(|subs|, j requires 0 <= j < |subs| => SubLeaves(i, j, subs[j]))
  }

  /** The visible leaves of root i. */
  function RootLeaves(i: nat, r: Root): seq<Addr>
  {
    if r.subdivided then Concat(SubBlocks(i, r.subs)) else [Slot30(i)]
  }

  /** The leaves of each root, one block per root. */
  function RootBlocks(slots: seq<Root>): seq<seq<Addr>>
  {
    seq(|slots|, i requires 0 <= i < |slots| => RootLeaves(i, slots[i]))
  }

  /** All visible leaves, in day order. */
  function Leaves(slots: seq<Root>): seq<Addr>
  {
    Concat(RootBlocks(slots))
  }

  /** The ids of a list of addresses. */
  function IdsOf(leaves: seq<Addr>): (ids: seq<string>)
    ensures |ids| == |leaves|
  {
    if leaves == [] then [] else IdsOf(leaves[..|leaves| - 1]) + [FormatId(leaves[|leaves| - 1])]
  }

  lemma {:induction false} IdsOfAt(leaves: seq<Addr>, k: nat)
    requires k < |leaves|
    ensures IdsOf(leaves)[k] == FormatId(leaves[k])
    decreases |leaves|
  {
    if k < |leaves| - 1 {
      IdsOfAt(leaves[..|leaves| - 1], k);
    }
  }

  lemma IdsOfSnoc(leaves: seq<Addr>, a: Addr)
    ensures IdsOf(leaves + [a]) == IdsOf(leaves) + [FormatId(a)]
  {
    assert (leaves + [a])[..|leaves|] == leaves;
  }

  lemma {:induction false} IdsOfConcat(xs: seq<Addr>, ys: seq<Addr>)
    ensures IdsOf(xs + ys) == IdsOf(xs) + IdsOf(ys)
    decreases |ys|
  {
    if ys != [] {
      var y := ys[|ys| - 1];
      var ys' := ys[..|ys| - 1];
      assert xs + ys == (xs + ys') + [y];
      assert ys == ys' + [y];
      IdsOfSnoc(xs + ys', y);
      IdsOfSnoc(ys', y);
      IdsOfConcat(xs, ys');
    } else {
      assert xs + ys == xs;
    }
  }

  /** The ids of the visible leaves, in day order. */
  function AllIds(slots: seq<Root>): (ids: seq<string>)
  {
    IdsOf(Leaves(slots))
  }

  /** The address is a visible leaf below sub-slot s: s itself, or one of its micro-slots. */
  predicate IsVisibleInSub(s: Sub, a: Addr)
  {
    match a
    case Slot30(_) => false
    case Slot10(_, _) => !s.subdivided
    case Slot1(_, _, k) => s.subdivided && k < |s.micros|
  }

  /**
   * The direct definition of a visible leaf of root r: every node above
   * it is subdivided and the node itself is not (micro-slots never are).
   */
  predicate IsVisibleIn(r: Root, a: Addr)
  {
    if a.Slot30? then !r.subdivided
    else r.subdivided && a.sub < |r.subs| && IsVisibleInSub(r.subs[a.sub], a)
  }

  /** An address names a visible leaf of the tree. */
  predicate IsVisibleLeaf(slots: seq<Root>, a: Addr)
  {
    a.root < |slots| && IsVisibleIn(slots[a.root], a)
  }
  // ---- membership ----

  /** Every entry of the leaves of sub-slot j of root i is a visible leaf below it. */
  lemma SubLeavesSound(i: nat, j: nat, s: Sub, k: nat)
    requires k < |SubLeaves(i, j, s)|
    ensures var a := SubLeaves(i, j, s)[k]; !a.Slot30? && a.root == i && a.sub == j && IsVisibleInSub(s, a)
  {
  }

  /** Every visible leaf below sub-slot j of root i is listed, at the returned position. */
  lemma SubLeavesComplete(i: nat, j: nat, s: Sub, a: Addr) returns (k: nat)
    requires !a.Slot30? && a.root == i && a.sub == j && IsVisibleInSub(s, a)
    ensures k < |SubLeaves(i, j, s)| && SubLeaves(i, j, s)[k] == a
  {
    if a.Slot1? {
      k := a.micro;
    } else {
      k := 0;
    }
  }

  /** Every entry of the leaves of root i is a visible leaf of it. */
  lemma RootLeavesSound(i: nat, r: Root, k: nat)
    requires k < |RootLeaves(i, r)|
    ensures RootLeaves(i, r)[k].root == i && IsVisibleIn(r, RootLeaves(i, r)[k])
  {
    if r.subdivided {
      var j, p := ConcatSound(SubBlocks(i, r.subs), k);
      SubLeavesSound(i, j, r.subs[j], p);
    }
  }

  /** Every visible leaf of root i is listed, at the returned position. */
  lemma RootLeavesComplete(i: nat, r: Root, a: Addr) returns (k: nat)
    requires a.root == i && IsVisibleIn(r, a)
    ensures k < |RootLeaves(i, r)| && RootLeaves(i, r)[k] == a
  {
    if r.subdivided {
      var p := SubLeavesComplete(i, a.sub, r.subs[a.sub], a);
      k := ConcatComplete(SubBlocks(i, r.subs), a.sub, p);
    } else {
      k := 0;
    }
  }

  /** Every entry of the linearisation is a visible leaf. */
  lemma LeavesSound(slots: seq<Root>, k: nat)
    requires k < |Leaves(slots)|
    ensures IsVisibleLeaf(slots, Leaves(slots)[k])
  {
    var i, p := ConcatSound(RootBlocks(slots), k);
    RootLeavesSound(i, slots[i], p);
  }

  /** Every visible leaf is in the linearisation, at the returned position. */
  lemma LeavesComplete(slots: seq<Root>, a: Addr) returns (k: nat)
    requires IsVisibleLeaf(slots, a)
    ensures k < |Leaves(slots)| && Leaves(slots)[k] == a
  {
    var p := RootLeavesComplete(a.root, slots[a.root], a);
    k := ConcatComplete(RootBlocks(slots), a.root, p);
  }

  /** An address is in the linearisation exactly when it names a visible leaf. */
  lemma LeavesMember(slots: seq<Root>, a: Addr)
    ensures a in Leaves(slots) <==> IsVisibleLeaf(slots, a)
  {
    var ls := Leaves(slots);
    if a in ls {
      var k :| 0 <= k < |ls| && ls[k] == a;
      LeavesSound(slots, k);
    }
    if IsVisibleLeaf(slots, a) {
      var k := LeavesComplete(slots, a);
      assert ls[k] == a;
    }
  }

  // ---- no duplicates ----

  lemma SubLeavesNoDup(i: nat, j: nat, s: Sub)
    ensures NoDup(SubLeaves(i, j, s))
  {
  }

  /** The sub-slot an address lies in, or -1 for a root. */
  function SubKey(a: Addr): int
  {
    if a.Slot30? then -1 else a.sub
  }

  lemma RootLeavesNoDup(i: nat, r: Root)
    ensures NoDup(RootLeaves(i, r))
  {
    if r.subdivided {
      var bs := SubBlocks(i, r.subs);
      forall j | 0 <= j < |bs|
        ensures NoDup(bs[j])
      {
        SubLeavesNoDup(i, j, r.subs[j]);
      }
      forall j, p | 0 <= j < |bs| && 0 <= p < |bs[j]|
        ensures SubKey(bs[j][p]) == j
      {
        SubLeavesSound(i, j, r.subs[j], p);
      }
      ConcatNoDup(bs, SubKey);
    }
  }

  function RootKey(a: Addr): int
  {
    a.root
  }

  lemma LeavesNoDup(slots: seq<Root>)
    ensures NoDup(Leaves(slots))
  {
    var bs := RootBlocks(slots);
    forall i | 0 <= i < |bs|
      ensures NoDup(bs[i])
    {
      RootLeavesNoDup(i, slots[i]);
    }
    forall i, p | 0 <= i < |bs| && 0 <= p < |bs[i]|
      ensures RootKey(bs[i][p]) == i
    {
      RootLeavesSound(i, slots[i], p);
    }
    ConcatNoDup(bs, RootKey);
  }

  /** No id appears twice in the linearisation. */
  lemma AllIdsNoDup(slots: seq<Root>)
    ensures NoDup(Leaves(slots)) && NoDup(AllIds(slots))
  {
    LeavesNoDup(slots);
    var ls, ids := Leaves(slots), AllIds(slots);
    forall p, q | 0 <= p < q < |ids|
      ensures ids[p] != ids[q]
    {
      IdsOfAt(ls, p);
      IdsOfAt(ls, q);
      FormatIdInjective(ls[p], ls[q]);
    }
  }

  /** Every listed id is canonical and names the leaf at its position. */
  lemma AllIdsParse(slots: seq<Root>, k: nat)
    requires k < |AllIds(slots)|
    ensures Canonical(AllIds(slots)[k])
    ensures ParseId(AllIds(slots)[k]) == Some(Leaves(slots)[k])
    ensures IsVisibleLeaf(slots, Leaves(slots)[k])
  {
    IdsOfAt(Leaves(slots), k);
    FormatIdCanonical(Leaves(slots)[k]);
    LeavesSound(slots, k);
  }

  /** Any listed id parses to a visible leaf whose id it is. */
  lemma AllIdsMember(slots: seq<Root>, id: string)
    requires id in AllIds(slots)
    ensures Canonical(id) && IsVisibleLeaf(slots, ParseId(id).value)
  {
    var k :| 0 <= k < |AllIds(slots)| && AllIds(slots)[k] == id;
    AllIdsParse(slots, k);
  }

  /** The id of a visible leaf is listed. */
  lemma VisibleLeafListed(slots: seq<Root>, a: Addr)
    requires IsVisibleLeaf(slots, a)
    ensures FormatId(a) in AllIds(slots)
  {
    var k := LeavesComplete(slots, a);
    IdsOfAt(Leaves(slots), k);
  }

  /** The listed ids are exactly the canonical ids of visible leaves. */
  lemma AllIdsExactly(slots: seq<Root>)
    ensures forall id :: id in AllIds(slots) <==> Canonical(id) && IsVisibleLeaf(slots, ParseId(id).value)
  {
    forall id
      ensures id in AllIds(slots) <==> Canonical(id) && IsVisibleLeaf(slots, ParseId(id).value)
    {
      if id in AllIds(slots) {
        AllIdsMember(slots, id);
      }
      if Canonical(id) && IsVisibleLeaf(slots, ParseId(id).value) {
        VisibleLeafListed(slots, ParseId(id).value);
      }
    }
  }

  // ---- counts ----

  /** How many leaves a root shows: 1, or per sub-slot 1 or its number of micro-slots. */
  function VisibleCount(r: Root): nat
    requires |r.subs| == SubsPerRoot
  {
    if !r.subdivided then 1
    else
      (if r.subs[0].subdivided then |r.subs[0].micros| else 1)
      + (if r.subs[1].subdivided then |r.subs[1].micros| else 1)
      + (if r.subs[2].subdivided then |r.subs[2].micros| else 1)
  }

  lemma RootLeavesCount(i: nat, r: Root)
    requires |r.subs| == SubsPerRoot
    ensures |RootLeaves(i, r)| == VisibleCount(r)
  {
    if r.subdivided {
      ConcatThree(SubBlocks(i, r.subs));
    }
  }

  /** With no root subdivided, the linearisation is one root after another. */
  lemma UnsubdividedLeaves(slots: seq<Root>)
    requires forall i :: 0 <= i < |slots| ==> !slots[i].subdivided
    ensures |Leaves(slots)| == |slots|
    ensures forall k :: 0 <= k < |slots| ==> Leaves(slots)[k] == Slot30(k)
    ensures |AllIds(slots)| == |slots|
  {
    ConcatSingletons(RootBlocks(slots));
  }

  // ---- getAllSlotIds ----

  lemma MicroStep(base: seq<string>, ids: seq<string>, i: nat, j: nat, k: nat)
    requires ids == base + IdsOf(MicroLeaves(i, j, k))
    ensures ids + [FormatId(Slot1(i, j, k))] == base + IdsOf(MicroLeaves(i, j, k + 1))
  {
    assert MicroLeaves(i, j, k + 1) == MicroLeaves(i, j, k) + [Slot1(i, j, k)];
    IdsOfSnoc(MicroLeaves(i, j, k), Slot1(i, j, k));
  }

  lemma SubIds(i: nat, j: nat, s: Sub)
    requires |s.micros| == MicrosPerSub
    ensures IdsOf(SubLeaves(i, j, s)) ==
      if s.subdivided then IdsOf(MicroLeaves(i, j, 10)) else [FormatId(Slot10(i, j))]
  {
    if !s.subdivided {
      IdsOfSnoc([], Slot10(i, j));
    }
  }

  lemma RootIds(i: nat, r: Root)
    requires |r.subs| == SubsPerRoot
    ensures IdsOf(RootLeaves(i, r)) ==
      if r.subdivided then IdsOf(Concat(SubBlocks(i, r.subs)[..3])) else [FormatId(Slot30(i))]
  {
    if r.subdivided {
      SubdividedRootIds(i, r);
    } else {
      SingleRootIds(i, r);
    }
  }

  lemma SubdividedRootIds(i: nat, r: Root)
    requires |r.subs| == SubsPerRoot && r.subdivided
    ensures IdsOf(RootLeaves(i, r)) == IdsOf(Concat(SubBlocks(i, r.subs)[..3]))
  {
    TakeAll(SubBlocks(i, r.subs));
  }

  lemma SingleRootIds(i: nat, r: Root)
    requires !r.subdivided
    ensures IdsOf(RootLeaves(i, r)) == [FormatId(Slot30(i))]
  {
    IdsOfSnoc([], Slot30(i));
    assert [] + [Slot30(i)] == [Slot30(i)];
  }

  /** Appending the ids of block j extends the ids of the blocks before it. */
  lemma BlockStep(before: seq<string>, base: seq<string>, ids: seq<string>, bs: seq<seq<Addr>>, j: nat)
    requires j < |bs|
    requires base == before + IdsOf(Concat(bs[..j]))
    requires ids == base + IdsOf(bs[j])
    ensures ids == before + IdsOf(Concat(bs[..j + 1]))
  {
    TakeSnoc(bs, j);
    ConcatSnoc(bs[..j], bs[j]);
    IdsOfConcat(Concat(bs[..j]), bs[j]);
    SeqAssoc(before, IdsOf(Concat(bs[..j])), IdsOf(bs[j]));
  }

  lemma BlocksStart(before: seq<string>, bs: seq<seq<Addr>>)
    ensures before == before + IdsOf(Concat(bs[..0]))
  {
    assert bs[..0] == [];
  }

  lemma BlocksDone(slots: seq<Root>)
    ensures Concat(RootBlocks(slots)[..|slots|]) == Leaves(slots)
  {
    assert RootBlocks(slots)[..|slots|] == RootBlocks(slots);
  }

  /** The inner loop of `getAllSlotIds()` for sub-slot j of root i. */
  method PushSubIds(ids: seq<string>, i: nat, j: nat, s: Sub) returns (ids': seq<string>)
    requires |s.micros| == MicrosPerSub
    ensures ids' == ids + IdsOf(SubLeaves(i, j, s))
  {
    ids' := ids;
    SubIds(i, j, s);
    if s.subdivided {
      var micro := 0;
      while micro < 10
        invariant 0 <= micro <= 10
        invariant ids' == ids + IdsOf(MicroLeaves(i, j, micro))
      {
        MicroStep(ids, ids', i, j, micro);
        ids' := ids' + [FormatId(Slot1(i, j, micro))];
        micro := micro + 1;
      }
    } else {
      ids' := ids' + [FormatId(Slot10(i, j))];
    }
  }

  /** The body of the outer loop of `getAllSlotIds()` for root i. */
  method PushRootIds(ids: seq<string>, i: nat, r: Root) returns (ids': seq<string>)
    requires |r.subs| == SubsPerRoot
    requires forall j :: 0 <= j < |r.subs| ==> |r.subs[j].micros| == MicrosPerSub
    ensures ids' == ids + IdsOf(RootLeaves(i, r))
  {
    ids' := ids;
    RootIds(i, r);
    if r.subdivided {
      var sub := 0;
      BlocksStart(ids, SubBlocks(i, r.subs));
      while sub < 3
        invariant 0 <= sub <= 3
        invariant ids' == ids + IdsOf(Concat(SubBlocks(i, r.subs)[..sub]))
      {
        ghost var base := ids';
        ids' := PushSubIds(ids', i, sub, r.subs[sub]);
        BlockStep(ids, base, ids', SubBlocks(i, r.subs), sub);
        sub := sub + 1;
      }
    } else {
      ids' := ids' + [FormatId(Slot30(i))];
    }
  }

  /**
   * `getAllSlotIds()`: walk the roots in order and push the id of each
   * visible leaf.
   */
  method AllSlotIds(slots: seq<Root>) returns (ids: seq<string>)
    requires WellShaped(slots)
    ensures ids == AllIds(slots)
  {
    ids := [];
    var index := 0;
    BlocksStart([], RootBlocks(slots));
    while index < |slots|
      invariant 0 <= index <= |slots|
      invariant ids == IdsOf(Concat(RootBlocks(slots)[..index]))
    {
      ghost var before := ids;
      ids := PushRootIds(ids, index, slots[index]);
      BlockStep([], before, ids, RootBlocks(slots), index);
      index := index + 1;
    }
    BlocksDone(slots);
  }
}
