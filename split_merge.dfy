/**
 * The context-menu actions on the tree: splitting a 30-minute slot into its
 * three 10-minute sub-slots or a 10-minute slot into its ten 1-minute
 * micro-slots, and merging them back. A split hands a truthy value down to
 * every child; a merge keeps the children's value when they all agree and
 * otherwise, after the user confirms, clears it.
 */
module SplitMerge {
  import opened Wrappers
  import opened TimeSlots
  import opened SlotIds
  import opened Linearize
  import opened SlotValues
  import opened SeqFacts

  // ---- distinct values ----

  /** `[...new Set(vs)]`: the distinct values, in order of first occurrence. */
  function Distinct(vs: seq<Value>): seq<Value>
  {
    if vs == [] then []
    else
      var d := Distinct(vs[..|vs| - 1]);
      if vs[|vs| - 1] in d then d else d + [vs[|vs| - 1]]
  }

  /** Some value differs from the first one. `null` counts as a value of its own. */
  predicate Mixed(vs: seq<Value>)
  {
    |vs| > 0 && exists k :: 0 <= k < |vs| && vs[k] != vs[0]
  }

  lemma {:induction false} DistinctMember(vs: seq<Value>, x: Value)
    ensures x in Distinct(vs) <==> x in vs
    decreases |vs|
  {
    if vs != [] {
      var front := vs[..|vs| - 1];
      DistinctMember(front, x);
      assert vs == front + [vs[|vs| - 1]];
    }
  }

  lemma {:induction false} DistinctNoDup(vs: seq<Value>)
    ensures NoDup(Distinct(vs))
    decreases |vs|
  {
    if vs != [] {
      var front, last := vs[..|vs| - 1], vs[|vs| - 1];
      DistinctNoDup(front);
      var d := Distinct(front);
      if last !in d {
        forall p | 0 <= p < |d|
          ensures d[p] != last
        {
        }
      }
    }
  }

  lemma {:induction false} DistinctFirst(vs: seq<Value>)
    requires |vs| > 0
    ensures |Distinct(vs)| > 0 && Distinct(vs)[0] == vs[0]
    decreases |vs|
  {
    var front := vs[..|vs| - 1];
    if front != [] {
      DistinctFirst(front);
    }
  }

  /**
   * The merge handlers' test `uniqueValues.length > 1` holds exactly when
   * the values are mixed, and `uniqueValues.length === 1` exactly when
   * there is at least one value and all are equal.
   */
  lemma DistinctSize(vs: seq<Value>)
    ensures |Distinct(vs)| > 1 <==> Mixed(vs)
    ensures |Distinct(vs)| == 1 <==> |vs| > 0 && !Mixed(vs)
  {
    var d := Distinct(vs);
    DistinctNoDup(vs);
    if vs == [] {
      assert d == [];
    } else {
      DistinctFirst(vs);
      if Mixed(vs) {
        var k :| 0 <= k < |vs| && vs[k] != vs[0];
        DistinctMember(vs, vs[k]);
      } else {
        forall p | 0 <= p < |d|
          ensures d[p] == vs[0]
        {
          DistinctMember(vs, d[p]);
        }
      }
    }
  }

  // ---- the values a merge looks at ----

  /** `subSlot.microSlots.map(m => m.value)`. */
  function MicroValues(ms: seq<Micro>): (vs: seq<Value>)
    ensures |vs| == |ms| && forall k :: 0 <= k < |ms| ==> vs[k] == ms[k].value
  {
    seq(|ms|, k requires 0 <= k < |ms| => ms[k].value)
  }

  /** The values a sub-slot contributes to a root merge: its micro-slots' or its own. */
  function SubLeafValues(s: Sub): seq<Value>
  {
    if s.subdivided then MicroValues(s.micros) else [s.value]
  }

  /** `allValues` of the 30-minute merge, sub-slot by sub-slot. */
  function RootLeafValues(r: Root): seq<Value>
  {
    Concat(seq(|r.subs|, j requires 0 <= j < |r.subs| => SubLeafValues(r.subs[j])))
  }

  /** The values the display shows for a root, one per visible leaf. */
  function VisibleValues(r: Root): seq<Value>
  {
    if r.subdivided then RootLeafValues(r) else [r.value]
  }

  /** The value at an address, null where it names no node. */
  function ValueOrNull(slots: seq<Root>, a: Addr): Value
  {
    if InTree(slots, a) then ValueAt(slots, a) else None
  }

  /**
   * The values the 10-minute merge looks at are those of the visible
   * leaves of split sub-slot j of root i, in order.
   */
  lemma MicroValuesVisible(slots: seq<Root>, i: nat, j: nat)
    requires i < |slots| && j < |slots[i].subs| && slots[i].subs[j].subdivided
    ensures var s := slots[i].subs[j];
      && |MicroValues(s.micros)| == |SubLeaves(i, j, s)|
      && forall p :: 0 <= p < |SubLeaves(i, j, s)| ==>
           InTree(slots, SubLeaves(i, j, s)[p]) && MicroValues(s.micros)[p] == ValueAt(slots, SubLeaves(i, j, s)[p])
  {
  }

  /**
   * The values the 30-minute merge looks at are those of the visible
   * leaves of split root i, in day order.
   */
  lemma RootLeafValuesVisible(slots: seq<Root>, i: nat)
    requires i < |slots| && slots[i].subdivided
    ensures |RootLeafValues(slots[i])| == |RootLeaves(i, slots[i])|
    ensures forall p :: 0 <= p < |RootLeaves(i, slots[i])| ==>
      InTree(slots, RootLeaves(i, slots[i])[p]) && RootLeafValues(slots[i])[p] == ValueAt(slots, RootLeaves(i, slots[i])[p])
  {
    var r := slots[i];
    var f := a => ValueOrNull(slots, a);
    var bs := SubBlocks(i, r.subs);
    var cs := seq(|r.subs|, j requires 0 <= j < |r.subs| => SubLeafValues(r.subs[j]));
    forall j, p | 0 <= j < |bs| && 0 <= p < |bs[j]|
      ensures cs[j][p] == f(bs[j][p])
    {
      SubLeavesSound(i, j, r.subs[j], p);
    }
    ConcatMapped(bs, cs, f);
    forall p | 0 <= p < |RootLeaves(i, r)|
      ensures InTree(slots, RootLeaves(i, r)[p])
    {
      RootLeavesSound(i, r, p);
    }
  }

  // ---- splitting ----

  /** `slot.subSlots.forEach(sub => sub.value = v)`. */
  function FillSubs(subs: seq<Sub>, v: Value): (r: seq<Sub>)
    ensures |r| == |subs|
    ensures forall j :: 0 <= j < |r| ==> r[j] == subs[j].(value := v)
  {
    seq(|subs|, j requires 0 <= j < |subs| => subs[j].(value := v))
  }

  /** `subSlot.microSlots.forEach(micro => micro.value = v)`. */
  function FillMicros(ms: seq<Micro>, v: Value): (r: seq<Micro>)
    ensures |r| == |ms| && forall k :: 0 <= k < |r| ==> r[k] == Micro(v)
  {
    seq(|ms|, _ => Micro(v))
  }

  /** "30 min → 10 min": the menu action on a root, which does nothing if it is already split. */
  function SplitRoot(r: Root): Root
  {
    if r.subdivided then r
    else r.(subdivided := true, value := None,
            subs := if Truthy(r.value) then FillSubs(r.subs, r.value) else r.subs)
  }

  /** "10 min → 1 min": the menu action on a sub-slot, which does nothing if it is already split. */
  function SplitSub(s: Sub): Sub
  {
    if s.subdivided then s
    else s.(subdivided := true, value := None,
            micros := if Truthy(s.value) then FillMicros(s.micros, s.value) else s.micros)
  }

  /** The value a split hands to each child: the parent's if truthy, else the child keeps null. */
  function Inherited(v: Value): Value
  {
    if Truthy(v) then v else None
  }

  lemma SplitRootInv(r: Root)
    requires RootInv(r)
    ensures RootInv(SplitRoot(r)) && SameHeader(SplitRoot(r), r)
    ensures SplitRoot(r).subdivided
  {
    var q := SplitRoot(r);
    if !r.subdivided {
      forall j | 0 <= j < |q.subs|
        ensures SubInv(q.subs[j])
      {
        assert r.subs[j] == Sub(None, false, CreateMicroSlots());
      }
    }
  }

  /** After a split the root shows three leaves, each with the inherited value. */
  lemma SplitRootValues(r: Root)
    requires RootInv(r) && !r.subdivided
    ensures VisibleValues(SplitRoot(r)) == [Inherited(r.value), Inherited(r.value), Inherited(r.value)]
  {
    var q := SplitRoot(r);
    var w := Inherited(r.value);
    var bs := seq(|q.subs|, j requires 0 <= j < |q.subs| => SubLeafValues(q.subs[j]));
    forall j | 0 <= j < 3
      ensures bs[j] == [w]
    {
      assert r.subs[j] == Sub(None, false, CreateMicroSlots());
    }
    ConcatThree(bs);
  }

  lemma SplitSubInv(s: Sub)
    requires SubInv(s)
    ensures SubInv(SplitSub(s)) && SplitSub(s).subdivided
  {
  }

  /** After a split the sub-slot shows ten micro-slots, each with the inherited value. */
  lemma SplitSubValues(s: Sub)
    requires SubInv(s) && !s.subdivided
    ensures SubLeafValues(SplitSub(s)) == seq(MicrosPerSub, _ => Inherited(s.value))
  {
  }

  // ---- merging ----

  /** A merged root or sub-slot's value: the common value, or null when mixed. */
  function MergedValue(vs: seq<Value>): Value
  {
    var u := Distinct(vs);
    if |u| == 1 then u[0] else None
  }

  /**
   * "10 min → 30 min": the menu action on a root. With mixed values it goes
   * ahead only if the user confirmed; the children are then replaced by
   * fresh ones.
   */
  function MergeRoot(r: Root, confirmed: bool): Root
  {
    if !r.subdivided then r
    else
      var vs := RootLeafValues(r);
      if |Distinct(vs)| > 1 && !confirmed then r
      else r.(value := MergedValue(vs), subdivided := false, subs := CreateSubSlots())
  }

  /** "1 min → 10 min": the menu action on a sub-slot, with the same confirmation rule. */
  function MergeSub(s: Sub, confirmed: bool): Sub
  {
    if !s.subdivided then s
    else
      var vs := MicroValues(s.micros);
      if |Distinct(vs)| > 1 && !confirmed then s
      else s.(value := MergedValue(vs), subdivided := false, micros := CreateMicroSlots())
  }

  /** The merged value is the one all values share, and null when they are mixed. */
  lemma MergedValueSpec(vs: seq<Value>)
    ensures MergedValue(vs) == if vs == [] || Mixed(vs) then None else vs[0]
  {
    DistinctSize(vs);
    if vs != [] {
      DistinctFirst(vs);
    }
  }

  /** What the 30-minute merge does, stated through `Mixed` rather than the set of values. */
  lemma MergeRootSpec(r: Root, confirmed: bool)
    ensures var vs := RootLeafValues(r);
      && (!r.subdivided || (Mixed(vs) && !confirmed) ==> MergeRoot(r, confirmed) == r)
      && (r.subdivided && (!Mixed(vs) || confirmed) ==>
            MergeRoot(r, confirmed) ==
              r.(value := if vs == [] || Mixed(vs) then None else vs[0], subdivided := false, subs := CreateSubSlots()))
  {
    var vs := RootLeafValues(r);
    DistinctSize(vs);
    MergedValueSpec(vs);
  }

  /** What the 10-minute merge does, stated through `Mixed`. */
  lemma MergeSubSpec(s: Sub, confirmed: bool)
    ensures var vs := MicroValues(s.micros);
      && (!s.subdivided || (Mixed(vs) && !confirmed) ==> MergeSub(s, confirmed) == s)
      && (s.subdivided && (!Mixed(vs) || confirmed) ==>
            MergeSub(s, confirmed) ==
              s.(value := if vs == [] || Mixed(vs) then None else vs[0], subdivided := false, micros := CreateMicroSlots()))
  {
    var vs := MicroValues(s.micros);
    DistinctSize(vs);
    MergedValueSpec(vs);
  }

  lemma MergeRootInv(r: Root, confirmed: bool)
    requires RootInv(r)
    ensures RootInv(MergeRoot(r, confirmed)) && SameHeader(MergeRoot(r, confirmed), r)
  {
  }

  lemma MergeSubInv(s: Sub, confirmed: bool)
    requires SubInv(s)
    ensures SubInv(MergeSub(s, confirmed))
  {
  }

  /** Splitting a root and merging it back restores it, unless its value was the falsy "". */
  lemma SplitMergeRoot(r: Root, confirmed: bool)
    requires RootInv(r) && !r.subdivided && r.value != Some("")
    ensures MergeRoot(SplitRoot(r), confirmed) == r
  {
    var q := SplitRoot(r);
    SplitRootValues(r);
    SplitRootInv(r);
    var vs := RootLeafValues(q);
    assert !Mixed(vs);
    MergeRootSpec(q, confirmed);
  }

  /** Splitting a sub-slot and merging it back restores it, unless its value was "". */
  lemma SplitMergeSub(s: Sub, confirmed: bool)
    requires SubInv(s) && !s.subdivided && s.value != Some("")
    ensures MergeSub(SplitSub(s), confirmed) == s
  {
    var q := SplitSub(s);
    SplitSubValues(s);
    var vs := MicroValues(q.micros);
    assert !Mixed(vs);
    MergeSubSpec(q, confirmed);
  }

  /** The empty string is falsy: a split drops it, so the merge brings back null. */
  lemma SplitMergeDropsEmpty(r: Root, confirmed: bool)
    requires RootInv(r) && !r.subdivided && r.value == Some("")
    ensures MergeRoot(SplitRoot(r), confirmed).value == None
  {
    SplitRootValues(r);
    MergeRootSpec(SplitRoot(r), confirmed);
  }

  /**
   * `null` counts as a value of its own: a code next to a null leaf is a
   * mix, so the merge asks, leaves the root as it is without a yes and
   * clears it with one.
   */
  lemma NullMixesWithCode(r: Root, code: string)
    requires r.subdivided && Some(code) in RootLeafValues(r) && None in RootLeafValues(r)
    ensures Mixed(RootLeafValues(r))
    ensures MergeRoot(r, false) == r && MergeRoot(r, true).value == None
  {
    var vs := RootLeafValues(r);
    var p :| 0 <= p < |vs| && vs[p] == Some(code);
    var q :| 0 <= q < |vs| && vs[q] == None;
    assert vs[p] != vs[0] || vs[q] != vs[0];
    MergeRootSpec(r, false);
    MergeRootSpec(r, true);
  }

  /** After a merge that goes ahead the root shows one leaf, with the merged value. */
  lemma MergeRootValues(r: Root, confirmed: bool)
    requires r.subdivided && (confirmed || !Mixed(RootLeafValues(r)))
    ensures VisibleValues(MergeRoot(r, confirmed)) == [MergedValue(RootLeafValues(r))]
  {
    DistinctSize(RootLeafValues(r));
  }

  // ---- the actions inside a root ----

  /** `menuSplitTo1` on sub-slot j of root r. */
  function SplitSubAt(r: Root, j: nat): (q: Root)
    requires j < |r.subs|
  {
    r.(subs := r.subs[j := SplitSub(r.subs[j])])
  }

  /** `menuMergeTo10` on sub-slot j of root r. */
  function MergeSubAt(r: Root, j: nat, confirmed: bool): (q: Root)
    requires j < |r.subs|
  {
    r.(subs := r.subs[j := MergeSub(r.subs[j], confirmed)])
  }

  /** Splitting a visible sub-slot keeps the root's invariant. */
  lemma SplitSubAtInv(r: Root, j: nat)
    requires RootInv(r) && r.subdivided && j < |r.subs|
    ensures RootInv(SplitSubAt(r, j)) && SameHeader(SplitSubAt(r, j), r)
  {
    SplitSubInv(r.subs[j]);
  }

  /** Merging a sub-slot of a split root keeps the root's invariant. */
  lemma MergeSubAtInv(r: Root, j: nat, confirmed: bool)
    requires RootInv(r) && r.subdivided && j < |r.subs|
    ensures RootInv(MergeSubAt(r, j, confirmed)) && SameHeader(MergeSubAt(r, j, confirmed), r)
  {
    MergeSubInv(r.subs[j], confirmed);
  }

  /** Splitting a sub-slot of an unsplit root would break the invariant: its children must stay fresh. */
  lemma SplitHiddenSubBreaksInv(r: Root, j: nat)
    requires RootInv(r) && !r.subdivided && j < |r.subs|
    ensures !RootInv(SplitSubAt(r, j))
  {
    assert SplitSubAt(r, j).subs[j].subdivided;
  }

  /** Replacing one root by one that keeps the invariant and the header keeps the tree valid. */
  lemma UpdateRootValid(slots: seq<Root>, i: nat, q: Root)
    requires Inv(slots) && Scheduled(slots) && i < |slots|
    requires RootInv(q) && SameHeader(q, slots[i])
    ensures Inv(slots[i := q]) && Scheduled(slots[i := q])
  {
  }

  // ---- the loops of the menu handlers ----

  /** `slot.subSlots.forEach(sub => sub.value = v)`, one sub-slot at a time. */
  method FillSubValues(subs: seq<Sub>, v: Value) returns (out: seq<Sub>)
    ensures out == FillSubs(subs, v)
  {
    out := subs;
    for j := 0 to |subs|
      invariant |out| == |subs|
      invariant forall p :: 0 <= p < j ==> out[p] == subs[p].(value := v)
      invariant forall p :: j <= p < |subs| ==> out[p] == subs[p]
    {
      out := out[j := out[j].(value := v)];
    }
  }

  /** `subSlot.microSlots.forEach(micro => micro.value = v)`, one micro-slot at a time. */
  method FillMicroValues(ms: seq<Micro>, v: Value) returns (out: seq<Micro>)
    ensures out == FillMicros(ms, v)
  {
    out := ms;
    for k := 0 to |ms|
      invariant |out| == |ms|
      invariant forall p :: 0 <= p < k ==> out[p] == Micro(v)
    {
      out := out[k := out[k].(value := v)];
    }
  }

  /** The inner walk of `allValues`: push the value of every micro-slot. */
  method PushMicroValues(all: seq<Value>, ms: seq<Micro>) returns (all': seq<Value>)
    ensures all' == all + MicroValues(ms)
  {
    all' := all;
    var vs := MicroValues(ms);
    for k := 0 to |ms|
      invariant all' == all + vs[..k]
    {
      TakeSnoc(vs, k);
      SeqAssoc(all, vs[..k], [vs[k]]);
      all' := all' + [ms[k].value];
    }
    assert vs[..|ms|] == vs;
  }

  /** `allValues` of the 30-minute merge: per sub-slot, its micro-slots' values or its own. */
  method CollectRootValues(r: Root) returns (all: seq<Value>)
    ensures all == RootLeafValues(r)
  {
    var bs := seq(|r.subs|, j requires 0 <= j < |r.subs| => SubLeafValues(r.subs[j]));
    all := [];
    assert bs[..0] == [];
    for j := 0 to |r.subs|
      invariant all == Concat(bs[..j])
    {
      var sub := r.subs[j];
      if sub.subdivided {
        all := PushMicroValues(all, sub.micros);
      } else {
        all := all + [sub.value];
      }
      TakeSnoc(bs, j);
      ConcatSnoc(bs[..j], bs[j]);
    }
    assert bs[..|r.subs|] == bs;
  }

  /**
   * The body of the 30-minute merge handler on root r: the root it
   * leaves, and whether the merge went ahead (the root was split and its
   * values were uniform or the prompt was confirmed).
   */
  method MergeRootSlot(r: Root, confirmed: bool) returns (q: Root, merged: bool)
    ensures q == MergeRoot(r, confirmed)
    ensures merged <==> r.subdivided && (confirmed || !Mixed(RootLeafValues(r)))
    ensures !merged ==> q == r
  {
    q, merged := r, false;
    if r.subdivided {
      var allValues := CollectRootValues(r);
      var uniqueValues := Distinct(allValues);
      DistinctSize(allValues);
      if |uniqueValues| > 1 && !confirmed {
        return;
      }
      q := r.(value := if |uniqueValues| == 1 then uniqueValues[0] else None,
              subdivided := false, subs := CreateSubSlots());
      merged := true;
    }
  }

  /** The body of the 10-minute merge handler on sub-slot s, with the same rule over its micro-slots. */
  method MergeSubSlot(s: Sub, confirmed: bool) returns (q: Sub, merged: bool)
    ensures q == MergeSub(s, confirmed)
    ensures merged <==> s.subdivided && (confirmed || !Mixed(MicroValues(s.micros)))
    ensures !merged ==> q == s
  {
    q, merged := s, false;
    if s.subdivided {
      var vals := MicroValues(s.micros);
      var uniqueVals := Distinct(vals);
      DistinctSize(vals);
      if |uniqueVals| > 1 && !confirmed {
        return;
      }
      q := s.(value := if |uniqueVals| == 1 then uniqueVals[0] else None,
              subdivided := false, micros := CreateMicroSlots());
      merged := true;
    }
  }
}
