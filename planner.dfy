/**
 * The planner's state and its event handlers: the slot tree, the
 * selection and the drag in progress, the context menu and its four
 * actions, and applying a code to the selection.
 */
module Planner {
  import opened Wrappers
  import opened TimeSlots
  import opened SlotIds
  import opened SeqFacts
  import opened Linearize
  import opened SlotValues
  import opened SplitMerge
  import opened Selection

  /** The four entries of the context menu. */
  datatype MenuItem = SplitTo10 | SplitTo1 | MergeTo30 | MergeTo10

  /**
   * `showContextMenu`: the entries shown for a slot. A root offers to
   * split when it is whole and to merge when it is split; a 10-minute
   * slot offers to split when it is whole and always to merge its root;
   * a 1-minute slot offers both merges.
   */
  function Offered(slots: seq<Root>, a: Addr): set<MenuItem>
    requires InTree(slots, a)
  {
    match a
    case Slot30(i) => if !slots[i].subdivided then {SplitTo10} else {MergeTo30}
    case Slot10(i, j) => (if !slots[i].subs[j].subdivided then {SplitTo1} else {}) + {MergeTo30}
    case Slot1(_, _, _) => {MergeTo10, MergeTo30}
  }

  /**
   * The guard with which each menu action's handler decides to act on
   * the target: the root or sub-slot must be whole to split and split to
   * merge, and the two finer actions need a target at their level.
   * A merge that passes its guard may still be declined at the prompt.
   */
  predicate Acts(slots: seq<Root>, a: Addr, item: MenuItem)
    requires InTree(slots, a)
  {
    match item
    case SplitTo10 => !slots[a.root].subdivided
    case SplitTo1 => a.Slot10? && !slots[a.root].subs[a.sub].subdivided
    case MergeTo30 => slots[a.root].subdivided
    case MergeTo10 => a.Slot1? && slots[a.root].subs[a.sub].subdivided
  }

  /** On a visible slot the menu shows exactly the actions whose handlers would act. */
  lemma OfferedExactlyActs(slots: seq<Root>, a: Addr, item: MenuItem)
    requires Inv(slots) && IsVisibleLeaf(slots, a)
    ensures item in Offered(slots, a) <==> Acts(slots, a, item)
  {
  }

  /** A range over the listed ids keeps a selection of listed ids a set of listed ids. */
  lemma SelectRangeListed(slots: seq<Root>, sel: seq<string>, a: string, b: string)
    requires SelectionValid(slots, sel)
    ensures SelectionValid(slots, Selection.SelectRange(sel, AllIds(slots), a, b))
  {
    AllIdsNoDup(slots);
    SelectRangeSpec(sel, AllIds(slots), a, b);
  }

  /** Every id of the listing is an id the tree lemmas accept. */
  lemma ListingListed(slots: seq<Root>, ids: seq<string>)
    requires forall id :: id in ids ==> id in AllIds(slots)
    ensures forall id :: id in ids ==> Listed(slots, id)
  {
    forall id | id in ids
      ensures Listed(slots, id)
    {
      AllIdsMember(slots, id);
    }
  }

  /**
   * The planner's invariant: the tree keeps its invariant and the day's
   * schedule; the selection is a set of listed ids; during a drag the
   * selection it started from is one too; an open menu belongs to a
   * visible slot.
   */
  predicate StateValid(slots: seq<Root>, selected: seq<string>, preselected: seq<string>,
                       dragging: bool, target: Option<Addr>, menuOpen: bool)
  {
    && Inv(slots) && Scheduled(slots)
    && SelectionValid(slots, selected)
    && NoDup(preselected)
    && (dragging ==> forall id :: id in preselected ==> id in AllIds(slots))
    && (menuOpen ==> target.Some? && IsVisibleLeaf(slots, target.value))
  }

  /** A set of ids of the current listing. */
  predicate SelectionValid(slots: seq<Root>, sel: seq<string>)
  {
    NoDup(sel) && forall id :: id in sel ==> id in AllIds(slots)
  }

  /** Adding a listed id keeps a set of listed ids. */
  lemma AddListed(slots: seq<Root>, sel: seq<string>, id: string)
    requires SelectionValid(slots, sel) && id in AllIds(slots)
    ensures SelectionValid(slots, Add(sel, id)) && SelectionValid(slots, [id])
  {
    AddSpec(sel, id);
  }

  /** A drag that starts from and shows sets of listed ids keeps the invariant. */
  lemma DragValid(slots: seq<Root>, selected: seq<string>, preselected: seq<string>, dragging: bool,
                  target: Option<Addr>, menuOpen: bool, selected': seq<string>, preselected': seq<string>)
    requires StateValid(slots, selected, preselected, dragging, target, menuOpen)
    requires SelectionValid(slots, selected') && SelectionValid(slots, preselected')
    ensures StateValid(slots, selected', preselected', true, target, menuOpen)
  {
  }

  /** A tree of the same shape, with the selection cleared, keeps the state valid. */
  lemma ReshapeValid(start: seq<Root>, slots: seq<Root>, selected: seq<string>, preselected: seq<string>,
                     dragging: bool, target: Option<Addr>, menuOpen: bool)
    requires StateValid(start, selected, preselected, dragging, target, menuOpen)
    requires SameShape(slots, start) && Inv(slots) && Scheduled(slots)
    ensures StateValid(slots, [], preselected, dragging, target, menuOpen)
  {
    SameShapeLeaves(slots, start);
  }

  /** A valid tree with the menu closed, no drag and a given listed selection is a valid state. */
  lemma ClosedValid(slots: seq<Root>, selected: seq<string>, preselected: seq<string>, target: Option<Addr>)
    requires Inv(slots) && Scheduled(slots) && SelectionValid(slots, selected) && NoDup(preselected)
    ensures StateValid(slots, selected, preselected, false, target, false)
  {
  }

  /** Replacing the selection by another set of listed ids keeps the state valid. */
  lemma ReselectValid(slots: seq<Root>, selected: seq<string>, preselected: seq<string>, dragging: bool,
                      target: Option<Addr>, menuOpen: bool, selected': seq<string>)
    requires StateValid(slots, selected, preselected, dragging, target, menuOpen)
    requires SelectionValid(slots, selected')
    ensures StateValid(slots, selected', preselected, dragging, target, menuOpen)
  {
  }

  /** One write of the `applyCode` loop: the next listed id names a node of the tree written so far. */
  lemma AssignStep(start: seq<Root>, ids: seq<string>, k: nat, code: Value)
    requires k < |ids| && forall id :: id in ids ==> Listed(start, id)
    ensures SetSlotValue(AssignAll(start, ids[..k], code), ids[k], code).Some?
    ensures AssignAll(start, ids[..k + 1], code) == SetSlotValue(AssignAll(start, ids[..k], code), ids[k], code).value
  {
    var before := AssignAll(start, ids[..k], code);
    assert Listed(start, ids[k]);
    SameShapeNode(before, start, ParseId(ids[k]).value);
    var prefix := ids[..k + 1];
    assert prefix[..|prefix| - 1] == ids[..k] && prefix[|prefix| - 1] == ids[k];
  }

  /** The loop of `applyCode`: write the code into each id in turn. */
  method AssignIds(start: seq<Root>, ids: seq<string>, code: Value) returns (slots: seq<Root>)
    requires forall id :: id in ids ==> Listed(start, id)
    ensures slots == AssignAll(start, ids, code)
  {
    slots := start;
    for k := 0 to |ids|
      invariant slots == AssignAll(start, ids[..k], code)
    {
      AssignStep(start, ids, k, code);
      slots := SetSlotValue(slots, ids[k], code).value;
    }
    assert ids[..|ids|] == ids;
  }

  /** The loop of `selectRange`: add the ids at positions from..to in order. */
  method AddRun(sel: seq<string>, allIds: seq<string>, from: nat, to: nat) returns (sel': seq<string>)
    requires from <= to < |allIds|
    ensures sel' == AddAll(sel, allIds[from..to + 1])
  {
    sel' := sel;
    assert allIds[from..from] == [];
    for i := from to to + 1
      invariant sel' == AddAll(sel, allIds[from..i])
    {
      AddAllStep(sel, allIds, from, i);
      sel' := Add(sel', allIds[i]);
    }
  }

  /** The body of `selectRange` over the listing `allIds`. */
  method AddRange(sel: seq<string>, allIds: seq<string>, startId: string, endId: string) returns (sel': seq<string>)
    ensures sel' == Selection.SelectRange(sel, allIds, startId, endId)
  {
    var startIdx, endIdx := IndexOf(allIds, startId), IndexOf(allIds, endId);
    if startIdx == -1 || endIdx == -1 {
      return sel;
    }
    sel' := AddRun(sel, allIds, Min(startIdx, endIdx), Max(startIdx, endIdx));
  }

  /** The page's state: the slot tree, the selection, the drag and the context menu. */
  class App {
    var slots: seq<Root>
    var selected: seq<string>
    var preselected: seq<string>
    var dragging: bool
    var dragStart: Option<string>
    var dragCurrent: Option<string>
    var target: Option<Addr>
    var menuOpen: bool

    /** The state satisfies the planner's invariant. */
    ghost predicate Valid()
      reads this
    {
      StateValid(slots, selected, preselected, dragging, target, menuOpen)
    }

    /** `initTimeSlots()` with nothing selected, no drag and no menu. */
    constructor()
      ensures Valid()
      ensures |slots| == RootCount && forall k :: 0 <= k < |slots| ==> slots[k] == ScheduledRoot(k)
      ensures selected == [] && preselected == [] && !dragging
      ensures dragStart.None? && dragCurrent.None? && target.None? && !menuOpen
    {
      var s := InitTimeSlots();
      InitialTreeValid(s);
      slots := s;
      selected := [];
      preselected := [];
      dragging := false;
      dragStart := None;
      dragCurrent := None;
      target := None;
      menuOpen := false;
    }

    /**
     * `selectRange(startId, endId)`: look both ids up in `getAllSlotIds()`
     * and add every id from the lower position to the higher.
     */
    method SelectRange(startId: string, endId: string)
      requires WellShaped(slots)
      modifies this`selected
      ensures selected == Selection.SelectRange(old(selected), AllIds(slots), startId, endId)
    {
      var allIds := AllSlotIds(slots);
      selected := AddRange(selected, allIds, startId, endId);
    }

    /** `updateDragSelection()`: the selection before the drag plus the dragged range. */
    method UpdateDragSelection()
      requires WellShaped(slots)
      modifies this`selected
      ensures selected == if dragStart.None? || dragCurrent.None? then old(selected)
        else Selection.SelectRange(preselected, AllIds(slots), dragStart.value, dragCurrent.value)
    {
      if dragStart.None? || dragCurrent.None? {
        return;
      }
      selected := preselected;
      SelectRange(dragStart.value, dragCurrent.value);
    }

    /** The shift branch of `mousedown`: keep the selection and add the range from its last id to id. */
    method ShiftSelect(id: string)
      requires Valid() && |selected| > 0
      modifies this`selected, this`preselected
      ensures preselected == old(selected)
      ensures selected == Selection.SelectRange(old(selected), AllIds(slots), old(selected)[|old(selected)| - 1], id)
      ensures SelectionValid(slots, selected) && SelectionValid(slots, preselected)
    {
      var last := selected[|selected| - 1];
      preselected := selected;
      InvWellShaped(slots);
      SelectRange(last, id);
      SelectRangeListed(slots, preselected, last, id);
    }

    /**
     * The `mousedown` handler on a slot: only the primary button counts.
     * It starts a drag there; with shift and a selection it keeps the
     * selection and adds the range from the last id selected; with ctrl
     * (or meta) it adds the slot; otherwise the slot alone is selected.
     */
    method PointerDown(id: string, primary: bool, shift: bool, ctrl: bool)
      requires Valid() && id in AllIds(slots)
      modifies this`selected, this`preselected, this`dragging, this`dragStart, this`dragCurrent
      ensures Valid()
      ensures !primary ==>
        && selected == old(selected) && preselected == old(preselected)
        && dragging == old(dragging) && dragStart == old(dragStart) && dragCurrent == old(dragCurrent)
      ensures primary ==> dragging && dragStart == Some(id) && dragCurrent == Some(id)
      ensures primary && shift && |old(selected)| > 0 ==>
        && preselected == old(selected)
        && selected == Selection.SelectRange(old(selected), AllIds(slots), old(selected)[|old(selected)| - 1], id)
      ensures primary && !(shift && |old(selected)| > 0) && ctrl ==>
        preselected == old(selected) && selected == Add(old(selected), id)
      ensures primary && !(shift && |old(selected)| > 0) && !ctrl ==>
        preselected == [] && selected == [id]
    {
      if !primary {
        return;
      }
      ghost var sel0, pre0, drag0 := selected, preselected, dragging;
      if shift && |selected| > 0 {
        ShiftSelect(id);
      } else if ctrl {
        preselected := selected;
        AddListed(slots, selected, id);
        selected := Add(selected, id);
      } else {
        AddListed(slots, selected, id);
        preselected := [];
        selected := [id];
      }
      DragValid(slots, sel0, pre0, drag0, target, menuOpen, selected, preselected);
      dragging := true;
      dragStart := Some(id);
      dragCurrent := Some(id);
    }

    /** The `mouseenter` handler on a slot: during a drag, extend the drag to it. */
    method PointerEnter(id: string)
      requires Valid()
      modifies this`selected, this`dragCurrent
      ensures Valid()
      ensures !dragging ==> selected == old(selected) && dragCurrent == old(dragCurrent)
      ensures dragging ==>
        && dragCurrent == Some(id)
        && selected == if dragStart.None? then old(selected)
             else Selection.SelectRange(preselected, AllIds(slots), dragStart.value, id)
    {
      if dragging {
        ghost var sel0 := selected;
        dragCurrent := Some(id);
        InvWellShaped(slots);
        UpdateDragSelection();
        if dragStart.Some? {
          SelectRangeListed(slots, preselected, dragStart.value, id);
        }
        ReselectValid(slots, sel0, preselected, dragging, target, menuOpen, selected);
      }
    }

    /** The document's `mouseup` handler: a drag in progress ends. */
    method PointerUp()
      requires Valid()
      modifies this`dragging, this`dragStart, this`dragCurrent
      ensures Valid() && !dragging
      ensures old(dragging) ==> dragStart.None? && dragCurrent.None?
      ensures !old(dragging) ==> dragStart == old(dragStart) && dragCurrent == old(dragCurrent)
    {
      if dragging {
        dragging := false;
        dragStart := None;
        dragCurrent := None;
      }
    }

    /**
     * The `contextmenu` handler: remember the slot the menu is for and
     * show the menu with the entries that slot offers.
     */
    method OpenMenu(id: string) returns (items: set<MenuItem>)
      requires Valid() && id in AllIds(slots)
      modifies this`target, this`menuOpen
      ensures Valid() && menuOpen && target == ParseId(id)
      ensures items == Offered(slots, target.value)
    {
      AllIdsMember(slots, id);
      target := ParseId(id);
      menuOpen := true;
      items := Offered(slots, target.value);
    }

    /** The document's `click` handler outside the menu: the menu closes. */
    method CloseMenu()
      requires Valid()
      modifies this`menuOpen
      ensures Valid() && !menuOpen
    {
      menuOpen := false;
    }

    /**
     * "30 min → 10 min" on the menu's root: if the root is whole, split
     * it, hand a truthy value down to the three sub-slots and clear the
     * root's value and the selection. The menu closes either way.
     */
    method MenuSplitTo10()
      requires Valid() && menuOpen && !dragging
      modifies this`slots, this`selected, this`menuOpen
      ensures Valid() && !menuOpen
      ensures var a := old(target).value;
        && slots == (if Acts(old(slots), a, SplitTo10) then old(slots)[a.root := SplitRoot(old(slots)[a.root])] else old(slots))
        && selected == if Acts(old(slots), a, SplitTo10) then [] else old(selected)
    {
      var i := target.value.root;
      var slot := slots[i];
      if !slot.subdivided {
        var subs := slot.subs;
        if Truthy(slot.value) {
          subs := FillSubValues(slot.subs, slot.value);
        }
        SplitRootInv(slot);
        UpdateRootValid(slots, i, SplitRoot(slot));
        ClosedValid(slots[i := SplitRoot(slot)], [], preselected, target);
        slots := slots[i := slot.(subdivided := true, value := None, subs := subs)];
        selected := [];
      } else {
        ClosedValid(slots, selected, preselected, target);
      }
      menuOpen := false;
    }

    /**
     * "10 min → 1 min" on the menu's sub-slot: only for a 10-minute
     * target, where otherwise nothing happens and the menu stays; if the
     * sub-slot is whole, split it, hand a truthy value down to its ten
     * micro-slots and clear its value and the selection.
     */
    method MenuSplitTo1()
      requires Valid() && menuOpen && !dragging
      modifies this`slots, this`selected, this`menuOpen
      ensures Valid()
      ensures var a := old(target).value;
        && (!a.Slot10? ==> slots == old(slots) && selected == old(selected) && menuOpen)
        && (a.Slot10? ==>
              && !menuOpen
              && slots == (if Acts(old(slots), a, SplitTo1) then old(slots)[a.root := SplitSubAt(old(slots)[a.root], a.sub)] else old(slots))
              && selected == if Acts(old(slots), a, SplitTo1) then [] else old(selected))
    {
      var a := target.value;
      if !a.Slot10? {
        return;
      }
      var i, j := a.root, a.sub;
      var slot := slots[i];
      var sub := slot.subs[j];
      if !sub.subdivided {
        var micros := sub.micros;
        if Truthy(sub.value) {
          micros := FillMicroValues(sub.micros, sub.value);
        }
        SplitSubAtInv(slot, j);
        UpdateRootValid(slots, i, SplitSubAt(slot, j));
        ClosedValid(slots[i := SplitSubAt(slot, j)], [], preselected, target);
        slots := slots[i := slot.(subs := slot.subs[j := sub.(subdivided := true, value := None, micros := micros)])];
        selected := [];
      } else {
        ClosedValid(slots, selected, preselected, target);
      }
      menuOpen := false;
    }

    /**
     * "10 min → 30 min" on the menu's root: if the root is split, gather
     * the values it shows; when they are mixed and the prompt is declined
     * (`confirmed` is the prompt's answer) only the menu closes; otherwise
     * the root becomes whole with the common value, or null when mixed,
     * and fresh children, and the selection is cleared.
     */
    method MenuMergeTo30(confirmed: bool)
      requires Valid() && menuOpen && !dragging
      modifies this`slots, this`selected, this`menuOpen
      ensures Valid() && !menuOpen
      ensures var i := old(target).value.root;
        var r := old(slots)[i];
        && slots == old(slots)[i := MergeRoot(r, confirmed)]
        && selected == if r.subdivided && (confirmed || !Mixed(RootLeafValues(r))) then [] else old(selected)
    {
      var i := target.value.root;
      var q, merged := MergeRootSlot(slots[i], confirmed);
      if merged {
        MergeRootInv(slots[i], confirmed);
        UpdateRootValid(slots, i, q);
        ClosedValid(slots[i := q], [], preselected, target);
        slots := slots[i := q];
        selected := [];
      } else {
        assert slots[i := q] == slots;
        ClosedValid(slots, selected, preselected, target);
      }
      menuOpen := false;
    }

    /**
     * "1 min → 10 min" on the menu's sub-slot: only for a 1-minute target,
     * where otherwise nothing happens and the menu stays; then the same
     * rule as the 30-minute merge over the sub-slot's ten micro-slots.
     */
    method MenuMergeTo10(confirmed: bool)
      requires Valid() && menuOpen && !dragging
      modifies this`slots, this`selected, this`menuOpen
      ensures Valid()
      ensures var a := old(target).value;
        && (!a.Slot1? ==> slots == old(slots) && selected == old(selected) && menuOpen)
        && (a.Slot1? ==>
              var r := old(slots)[a.root];
              var s := r.subs[a.sub];
              && !menuOpen
              && slots == old(slots)[a.root := MergeSubAt(r, a.sub, confirmed)]
              && selected == if s.subdivided && (confirmed || !Mixed(MicroValues(s.micros))) then [] else old(selected))
    {
      var a := target.value;
      if !a.Slot1? {
        return;
      }
      var i, j := a.root, a.sub;
      var slot := slots[i];
      var q, merged := MergeSubSlot(slot.subs[j], confirmed);
      if merged {
        MergeSubAtInv(slot, j, confirmed);
        var r := slot.(subs := slot.subs[j := q]);
        UpdateRootValid(slots, i, r);
        ClosedValid(slots[i := r], [], preselected, target);
        slots := slots[i := r];
        selected := [];
      } else {
        assert slot.subs[j := q] == slot.subs;
        assert slots[i := MergeSubAt(slot, j, confirmed)] == slots;
        ClosedValid(slots, selected, preselected, target);
      }
      menuOpen := false;
    }

    /**
     * `applyCode(code)`: with nothing selected nothing changes (the page
     * shows a notice); otherwise write the code, or null for the clear
     * button, into every selected slot in selection order and clear the
     * selection.
     */
    method ApplyCode(code: Value)
      requires Valid()
      modifies this`slots, this`selected
      ensures Valid()
      ensures slots == AssignAll(old(slots), old(selected), code)
      ensures selected == []
    {
      if |selected| == 0 {
        return;
      }
      var ids := selected;
      ListingListed(slots, ids);
      var written := AssignIds(slots, ids, code);
      AssignAllInv(slots, ids, code);
      ReshapeValid(slots, written, ids, preselected, dragging, target, menuOpen);
      slots := written;
      selected := [];
    }
  }
}
