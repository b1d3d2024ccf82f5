/**
 * The three-level slot tree. The day is a fixed list of 32 root slots of
 * 30 minutes (7:30 to 23:00); each root owns 3 sub-slots of 10 minutes and
 * each sub-slot 10 micro-slots of 1 minute. Children exist even while their
 * parent is not subdivided; the invariant Inv says they are then pristine.
 */
module TimeSlots {
  import opened Wrappers
  import opened Decimal

  /** A slot's value: `null` (None) or an activity code. */
  type Value = Option<string>

  /** JavaScript truthiness of a value: `null` and the empty string are falsy. */
  predicate Truthy(v: Value) { v.Some? && v.value != "" }

  datatype Micro = Micro(value: Value)

  datatype Sub = Sub(value: Value, subdivided: bool, micros: seq<Micro>)

  datatype Root = Root(
    start: string, end: string, startHour: nat, startMin: nat,
    value: Value, subdivided: bool, subs: seq<Sub>)

  const RootCount: nat := 32
  const SubsPerRoot: nat := 3
  const MicrosPerSub: nat := 10

  /** Minute of the day at which the first root slot (7:30) starts. */
  const DayStart: nat := 7 * 60 + 30

  /** `createMicroSlots()`: ten fresh micro-slots holding null. */
  function CreateMicroSlots(): (ms: seq<Micro>)
    ensures |ms| == MicrosPerSub
    ensures forall k :: 0 <= k < |ms| ==> ms[k] == Micro(None)
  {
    seq(MicrosPerSub, _ => Micro(None))
  }

  /** `createSubSlots()`: three fresh unsubdivided sub-slots holding null. */
  function CreateSubSlots(): (ss: seq<Sub>)
    ensures |ss| == SubsPerRoot
    ensures forall j :: 0 <= j < |ss| ==> ss[j] == Sub(None, false, CreateMicroSlots())
  {
    seq(SubsPerRoot, _ => Sub(None, false, CreateMicroSlots()))
  }

  /** The `${h}:${m.toString().padStart(2, '0')}` clock label. */
  function HourMinute(h: nat, m: nat): string
  {
    NatToString(h) + ":" + Pad2(m)
  }

  /** The root slot that `initTimeSlots` creates in position k, in closed form. */
  function ScheduledRoot(k: nat): Root
  {
    var t := DayStart + 30 * k;
    var h, m := t / 60, t % 60;
    var endHour := if m == 30 then h + 1 else h;
    var endMin := if m == 30 then 0 else 30;
    Root(HourMinute(h, m), HourMinute(if endHour == 24 then 0 else endHour, endMin),
         h, m, None, false, CreateSubSlots())
  }

  /** Start of the slot, in minutes of the day. */
  function StartMinute(r: Root): nat { r.startHour * 60 + r.startMin }

  lemma ScheduledRootTime(k: nat)
    ensures StartMinute(ScheduledRoot(k)) == DayStart + 30 * k
    ensures ScheduledRoot(k).startMin == 0 || ScheduledRoot(k).startMin == 30
  {
  }

  /** The root built for hour and minute is the scheduled root at the matching position. */
  lemma ScheduledRootAt(hour: nat, min: nat, k: nat)
    requires min == 0 || min == 30
    requires hour * 60 + min == DayStart + 30 * k
    ensures ScheduledRoot(k) == Root(HourMinute(hour, min),
      HourMinute(if (if min == 30 then hour + 1 else hour) == 24 then 0 else (if min == 30 then hour + 1 else hour),
                 if min == 30 then 0 else 30),
      hour, min, None, false, CreateSubSlots())
  {
    var t := DayStart + 30 * k;
    assert t / 60 == hour && t % 60 == min;
  }

  function Clamp(t: int): int
  {
    if t < DayStart then DayStart else if t > DayStart + 30 * RootCount then DayStart + 30 * RootCount else t
  }

  /** The first k roots of the schedule. */
  predicate ScheduledPrefix(slots: seq<Root>)
  {
    forall k :: 0 <= k < |slots| ==> slots[k] == ScheduledRoot(k)
  }

  lemma ScheduledSnoc(slots: seq<Root>, root: Root)
    requires ScheduledPrefix(slots) && root == ScheduledRoot(|slots|)
    ensures ScheduledPrefix(slots + [root])
  {
  }

  /**
   * `initTimeSlots()`: for every hour 7..23 and minute 0 and 30, skipping
   * 7:00 and 23:30, append a blank root slot.
   */
  method InitTimeSlots() returns (slots: seq<Root>)
    ensures |slots| == RootCount
    ensures forall k :: 0 <= k < |slots| ==> slots[k] == ScheduledRoot(k)
  {
    slots := [];
    var hour := 7;
    while hour < 24
      invariant 7 <= hour <= 24
      invariant 30 * |slots| + DayStart == Clamp(hour * 60)
      invariant ScheduledPrefix(slots)
    {
      var min := 0;
      while min < 60
        invariant min == 0 || min == 30 || min == 60
        invariant 30 * |slots| + DayStart == Clamp(hour * 60 + min)
        invariant ScheduledPrefix(slots)
      {
        if !(hour == 7 && min == 0) && !(hour == 23 && min == 30) {
          var startHour, startMin := hour, min;
          var endHour := if min == 30 then hour + 1 else hour;
          var endMin := if min == 30 then 0 else 30;
          var root := Root(HourMinute(startHour, startMin),
                           HourMinute(if endHour == 24 then 0 else endHour, endMin),
                           startHour, startMin, None, false, CreateSubSlots());
          ScheduledRootAt(hour, min, |slots|);
          ScheduledSnoc(slots, root);
          slots := slots + [root];
        }
        min := min + 30;
      }
      hour := hour + 1;
    }
  }

  /**
   * The schedule `initTimeSlots` lays out: 32 roots from 7:30 to 23:00 in
   * 30-minute steps, each blank, unsubdivided and with pristine children.
   */
  lemma ScheduleFacts(slots: seq<Root>)
    requires |slots| == RootCount && ScheduledPrefix(slots)
    ensures slots[0].startHour == 7 && slots[0].startMin == 30
    ensures slots[RootCount - 1].startHour == 23 && slots[RootCount - 1].startMin == 0
    ensures forall k :: 0 <= k < |slots| ==> StartMinute(slots[k]) == DayStart + 30 * k
    ensures forall k :: 0 <= k < |slots| ==>
      slots[k].value == None && !slots[k].subdivided && slots[k].subs == CreateSubSlots()
  {
    forall k | 0 <= k < |slots|
      ensures StartMinute(slots[k]) == DayStart + 30 * k
    {
      ScheduledRootTime(k);
    }
    ScheduledRootTime(0);
    ScheduledRootTime(RootCount - 1);
  }

  /** A sub-slot keeps INV-1 (subdivided means no own value) and pristine hidden children. */
  predicate SubInv(s: Sub)
  {
    && |s.micros| == MicrosPerSub
    && (s.subdivided ==> s.value == None)
    && (!s.subdivided ==> s.micros == CreateMicroSlots())
  }

  /** A root slot keeps INV-1 and pristine hidden children, on both levels. */
  predicate RootInv(r: Root)
  {
    && |r.subs| == SubsPerRoot
    && (r.subdivided ==> r.value == None && forall j :: 0 <= j < |r.subs| ==> SubInv(r.subs[j]))
    && (!r.subdivided ==> r.subs == CreateSubSlots())
  }

  /** The tree invariant of every operation: each root keeps RootInv. */
  predicate Inv(slots: seq<Root>)
  {
    forall i :: 0 <= i < |slots| ==> RootInv(slots[i])
  }

  /** The fixed fields of a root slot: its labels and start time. */
  predicate SameHeader(r: Root, q: Root)
  {
    r.start == q.start && r.end == q.end && r.startHour == q.startHour && r.startMin == q.startMin
  }

  /** The root list is the day's schedule: 32 roots with their scheduled headers. */
  predicate Scheduled(slots: seq<Root>)
  {
    |slots| == RootCount && forall i :: 0 <= i < |slots| ==> SameHeader(slots[i], ScheduledRoot(i))
  }

  /** Every sub-slot of every root has exactly 10 micro-slots, every root 3 sub-slots. */
  predicate WellShaped(slots: seq<Root>)
  {
    forall i :: 0 <= i < |slots| ==>
      |slots[i].subs| == SubsPerRoot &&
      forall j :: 0 <= j < |slots[i].subs| ==> |slots[i].subs[j].micros| == MicrosPerSub
  }

  /** The invariant keeps the tree well shaped. */
  lemma InvWellShaped(slots: seq<Root>)
    requires Inv(slots)
    ensures WellShaped(slots)
  {
    forall i, j | 0 <= i < |slots| && 0 <= j < |slots[i].subs|
      ensures |slots[i].subs[j].micros| == MicrosPerSub
    {
      assert RootInv(slots[i]);
    }
  }

  /** The freshly initialised tree is scheduled and satisfies the invariant. */
  lemma InitialTreeValid(slots: seq<Root>)
    requires |slots| == RootCount && ScheduledPrefix(slots)
    ensures Inv(slots) && Scheduled(slots) && WellShaped(slots)
  {
    InvWellShaped(slots);
  }
}
