/**
 * Reading and writing the value of one slot, by address and by id
 * (`getSlotValue` / `setSlotValue`), and writing one value into a list
 * of ids (the loop of `applyCode`).
 */
module SlotValues {
  import opened Wrappers
  import opened TimeSlots
  import opened SlotIds
  import opened Linearize
  import opened SeqFacts

  /**
   * The address names a node of the tree, visible or not: the indices it
   * reads are in range. Outside this the script reads a property of
   * `undefined` and throws.
   */
  predicate InTree(slots: seq<Root>, a: Addr)
  {
    match a
    case Slot30(i) => i < |slots|
    case Slot10(i, j) => i < |slots| && j < |slots[i].subs|
    case Slot1(i, j, k) => i < |slots| && j < |slots[i].subs| && k < |slots[i].subs[j].micros|
  }

  /** A visible leaf is a node of the tree. */
  lemma VisibleInTree(slots: seq<Root>, a: Addr)
    requires IsVisibleLeaf(slots, a)
    ensures InTree(slots, a)
  {
  }

  /** The value stored at a node. */
  function ValueAt(slots: seq<Root>, a: Addr): Value
    requires InTree(slots, a)
  {
    match a
    case Slot30(i) => slots[i].value
    case Slot10(i, j) => slots[i].subs[j].value
    case Slot1(i, j, k) => slots[i].subs[j].micros[k].value
  }

  /** The tree with the value at one node replaced. */
  function SetValue(slots: seq<Root>, a: Addr, v: Value): (r: seq<Root>)
    requires InTree(slots, a)
    ensures |r| == |slots|
  {
    match a
    case Slot30(i) => slots[i := slots[i].(value := v)]
    case Slot10(i, j) =>
      var root := slots[i];
      slots[i := root.(subs := root.subs[j := root.subs[j].(value := v)])]
    case Slot1(i, j, k) =>
      var root := slots[i];
      var sub := root.subs[j];
      slots[i := root.(subs := root.subs[j := sub.(micros := sub.micros[k := Micro(v)])])]
  }

  /**
   * Two trees of the same shape: the same roots with the same headers and
   * the same subdivision flags and child counts everywhere; only values
   * may differ.
   */
  predicate SameShape(r: seq<Root>, q: seq<Root>)
  {
    && |r| == |q|
    && forall i :: 0 <= i < |r| ==>
      && SameHeader(r[i], q[i])
      && r[i].subdivided == q[i].subdivided
      && |r[i].subs| == |q[i].subs|
      && forall j :: 0 <= j < |r[i].subs| ==>
        r[i].subs[j].subdivided == q[i].subs[j].subdivided
        && |r[i].subs[j].micros| == |q[i].subs[j].micros|
  }

  lemma SameShapeSymmetric(r: seq<Root>, q: seq<Root>)
    requires SameShape(r, q)
    ensures SameShape(q, r)
  {
  }

  lemma SameShapeTransitive(r: seq<Root>, q: seq<Root>, p: seq<Root>)
    requires SameShape(r, q) && SameShape(q, p)
    ensures SameShape(r, p)
  {
  }

  /** Writing a value changes no flag, no header and no child count. */
  lemma SetValueShape(slots: seq<Root>, a: Addr, v: Value)
    requires InTree(slots, a)
    ensures SameShape(SetValue(slots, a, v), slots)
  {
  }

  /** Reading after writing: the written node has the new value, every other node its old one. */
  lemma ValueAtSetValue(slots: seq<Root>, a: Addr, v: Value, b: Addr)
    requires InTree(slots, a) && InTree(slots, b)
    ensures InTree(SetValue(slots, a, v), b)
    ensures ValueAt(SetValue(slots, a, v), b) == if a == b then v else ValueAt(slots, b)
  {
  }

  lemma SameShapeRootLeaves(i: nat, r: Root, q: Root)
    requires r.subdivided == q.subdivided && |r.subs| == |q.subs|
    requires forall j :: 0 <= j < |r.subs| ==>
      r.subs[j].subdivided == q.subs[j].subdivided && |r.subs[j].micros| == |q.subs[j].micros|
    ensures RootLeaves(i, r) == RootLeaves(i, q)
  {
    assert SubBlocks(i, r.subs) == SubBlocks(i, q.subs);
  }

  /** Trees of the same shape show the same leaves, list the same ids and have the same nodes. */
  lemma SameShapeLeaves(r: seq<Root>, q: seq<Root>)
    requires SameShape(r, q)
    ensures Leaves(r) == Leaves(q) && AllIds(r) == AllIds(q)
    ensures forall a :: IsVisibleLeaf(r, a) <==> IsVisibleLeaf(q, a)
    ensures forall a :: InTree(r, a) <==> InTree(q, a)
  {
    forall i | 0 <= i < |r|
      ensures RootLeaves(i, r[i]) == RootLeaves(i, q[i])
    {
      SameShapeRootLeaves(i, r[i], q[i]);
    }
    assert RootBlocks(r) == RootBlocks(q);
  }

  /** Trees of the same shape have the same nodes and the same visible leaves. */
  lemma SameShapeNode(r: seq<Root>, q: seq<Root>, a: Addr)
    requires SameShape(r, q)
    ensures InTree(r, a) <==> InTree(q, a)
    ensures IsVisibleLeaf(r, a) <==> IsVisibleLeaf(q, a)
  {
  }

  /** An id `getAllSlotIds` lists: canonical and naming a visible leaf. */
  predicate Listed(slots: seq<Root>, id: string)
  {
    Canonical(id) && IsVisibleLeaf(slots, ParseId(id).value)
  }

  /** Writing a visible leaf keeps the tree invariant and the schedule. */
  lemma SetValueInv(slots: seq<Root>, a: Addr, v: Value)
    requires Inv(slots) && IsVisibleLeaf(slots, a)
    ensures Inv(SetValue(slots, a, v))
    ensures Scheduled(slots) ==> Scheduled(SetValue(slots, a, v))
  {
    var r := SetValue(slots, a, v);
    forall i | 0 <= i < |r|
      ensures RootInv(r[i])
    {
      assert RootInv(slots[i]);
    }
  }

  /**
   * Writing a code into a node that is not a visible leaf (a subdivided
   * node or a hidden child) breaks the invariant: together with
   * SetValueInv, a non-null write keeps the invariant exactly when it
   * targets a visible leaf.
   */
  lemma SetHiddenBreaksInv(slots: seq<Root>, a: Addr, v: Value)
    requires Inv(slots) && InTree(slots, a) && !IsVisibleLeaf(slots, a) && v.Some?
    ensures !Inv(SetValue(slots, a, v))
  {
    var r := SetValue(slots, a, v);
    var i := a.root;
    assert RootInv(slots[i]);
    match a
    case Slot30(_) =>
      assert !RootInv(r[i]);
    case Slot10(_, j) =>
      if slots[i].subdivided {
        assert !SubInv(r[i].subs[j]);
      } else {
        assert r[i].subs[j].value != CreateSubSlots()[j].value;
      }
    case Slot1(_, j, k) =>
      if !slots[i].subdivided {
        assert r[i].subs[j].micros[k] != CreateSubSlots()[j].micros[k];
      } else {
        assert SubInv(slots[i].subs[j]);
        assert r[i].subs[j].micros[k] != CreateMicroSlots()[k];
      }
  }

  /**
   * `getSlotValue(slotId)`: the value of the node an id names; None where
   * the script throws (an id part that is not a number, an index out of
   * range).
   */
  function GetSlotValue(slots: seq<Root>, id: string): (r: Option<Value>)
    ensures r.Some? <==> ParseId(id).Some? && InTree(slots, ParseId(id).value)
  {
    match ParseId(id)
    case None => None
    case Some(a) => if InTree(slots, a) then Some(ValueAt(slots, a)) else None
  }

  /** `setSlotValue(slotId, value)`: None exactly where getSlotValue is None. */
  function SetSlotValue(slots: seq<Root>, id: string, v: Value): (r: Option<seq<Root>>)
    ensures r.Some? <==> GetSlotValue(slots, id).Some?
    ensures r.Some? ==> SameShape(r.value, slots)
  {
    match ParseId(id)
    case None => None
    case Some(a) =>
      if InTree(slots, a) then
        SetValueShape(slots, a, v);
        Some(SetValue(slots, a, v))
      else None
  }

  /** Reading an id after writing it yields the written value. */
  lemma GetAfterSet(slots: seq<Root>, id: string, v: Value)
    requires GetSlotValue(slots, id).Some?
    ensures GetSlotValue(SetSlotValue(slots, id, v).value, id) == Some(v)
  {
    var a := ParseId(id).value;
    ValueAtSetValue(slots, a, v, a);
  }

  /** Writing one id leaves every id naming another node as it was. */
  lemma GetOtherAfterSet(slots: seq<Root>, id: string, v: Value, other: string)
    requires GetSlotValue(slots, id).Some?
    requires ParseId(other).Some? && ParseId(other) != ParseId(id)
    ensures GetSlotValue(SetSlotValue(slots, id, v).value, other) == GetSlotValue(slots, other)
  {
    var a, b := ParseId(id).value, ParseId(other).value;
    if InTree(slots, b) {
      ValueAtSetValue(slots, a, v, b);
    } else {
      SetValueShape(slots, a, v);
      SameShapeLeaves(SetValue(slots, a, v), slots);
    }
  }

  /**
   * Writing one value into every id of a list, in list order (the loop of
   * `applyCode`). An id that names no node leaves the tree as it is; the
   * planner only passes listed ids, for which this does not arise.
   */
  function AssignAll(slots: seq<Root>, ids: seq<string>, v: Value): (r: seq<Root>)
    ensures SameShape(r, slots)
    decreases |ids|
  {
    if ids == [] then slots
    else
      var before := AssignAll(slots, ids[..|ids| - 1], v);
      match SetSlotValue(before, ids[|ids| - 1], v)
      case Some(after) =>
        SameShapeTransitive(after, before, slots);
        after
      case None => before
  }

  /**
   * After the writes, a node holds the written value exactly when its id
   * is in the list; every other node keeps its value.
   */
  lemma {:induction false} AssignAllValue(slots: seq<Root>, ids: seq<string>, v: Value, a: Addr)
    requires forall id :: id in ids ==> Listed(slots, id)
    requires InTree(slots, a)
    ensures InTree(AssignAll(slots, ids, v), a)
    ensures ValueAt(AssignAll(slots, ids, v), a) == if FormatId(a) in ids then v else ValueAt(slots, a)
    decreases |ids|
  {
    var r := AssignAll(slots, ids, v);
    SameShapeNode(r, slots, a);
    if ids != [] {
      var init, id := ids[..|ids| - 1], ids[|ids| - 1];
      var before := AssignAll(slots, init, v);
      assert Listed(slots, id);
      var b := ParseId(id).value;
      assert r == SetValue(before, b, v) by {
        SameShapeNode(before, slots, b);
        assert SetSlotValue(before, id, v) == Some(SetValue(before, b, v));
      }
      assert InTree(before, a) && ValueAt(before, a) == if FormatId(a) in init then v else ValueAt(slots, a) by {
        assert forall x :: x in init ==> x in ids;
        AssignAllValue(slots, init, v, a);
      }
      assert FormatId(a) in ids <==> FormatId(a) in init || a == b by {
        SplitLast(ids);
        InSnoc(init, id, FormatId(a));
        FormatIdInjective(a, b);
      }
      SameShapeNode(before, slots, b);
      ValueAtSetValue(before, b, v, a);
    }
  }

  /** Writing listed ids keeps the tree invariant and the schedule. */
  lemma {:induction false} AssignAllInv(slots: seq<Root>, ids: seq<string>, v: Value)
    requires Inv(slots)
    requires forall id :: id in ids ==> Listed(slots, id)
    ensures Inv(AssignAll(slots, ids, v))
    ensures Scheduled(slots) ==> Scheduled(AssignAll(slots, ids, v))
    decreases |ids|
  {
    if ids != [] {
      var init, id := ids[..|ids| - 1], ids[|ids| - 1];
      assert forall x :: x in init ==> x in ids;
      AssignAllInv(slots, init, v);
      var before := AssignAll(slots, init, v);
      assert Listed(slots, id);
      var b := ParseId(id).value;
      SameShapeNode(before, slots, b);
      assert SetSlotValue(before, id, v) == Some(SetValue(before, b, v));
      SetValueInv(before, b, v);
    }
  }
}
