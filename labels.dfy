/**
 * Clock labels: the start time `getSlotLabel` shows for a slot at any
 * level, the `formatTime` rendering of a minute total in the clipboard
 * report, and the fact that the visible leaves tile the day.
 */
module Labels {
  import opened Wrappers
  import opened Decimal
  import opened TimeSlots
  import opened SlotIds
  import opened SeqFacts
  import opened Linearize

  /** Minutes from the start of the root to the start of the slot at a. */
  function Offset(a: Addr): nat
  {
    match a
    case Slot30(_) => 0
    case Slot10(_, j) => 10 * j
    case Slot1(_, j, k) => 10 * j + k
  }

  /** Minute of the day at which the slot at a starts in the day's schedule. */
  function LeafStart(a: Addr): int
  {
    DayStart + 30 * a.root + Offset(a)
  }

  /**
   * `Duration` with its result seen as an `int`. `Tiles` takes an
   * `Addr -> int`; handing it the `nat`-valued `Duration` directly would
   * wrap it in a conversion that the tiling proofs do not unfold.
   */
  function Length(a: Addr): int
  {
    Duration(a)
  }

  /**
   * The label of the slot at a within its root: the root shows its own
   * start label; a sub-slot or micro-slot computes hour and minute from
   * the root's start and its offset.
   */
  function LabelIn(slot: Root, a: Addr): string
  {
    if a.Slot30? then slot.start
    else
      var base := slot.startMin + Offset(a);
      HourMinute(slot.startHour + base / 60, base % 60)
  }

  /**
   * `getSlotLabel(slotIndex, subIndex, microIndex)`. A root index past the
   * end has no slot to read from, where the script would throw.
   */
  function SlotLabel(slots: seq<Root>, a: Addr): Option<string>
  {
    if a.root >= |slots| then None else Some(LabelIn(slots[a.root], a))
  }

  /** The `H:MM` label of minute t of the day. */
  function ClockLabel(t: nat): string
  {
    HourMinute(t / 60, t % 60)
  }

  /** The clipboard report's `formatTime`: a minute total as `HH:MM`. */
  function FormatTime(minutes: nat): string
  {
    Pad2(minutes / 60) + ":" + Pad2(minutes % 60)
  }

  /** Reading an `H:MM` or `HH:MM` text back as minutes: hours, a colon, two minute digits below 60. */
  function ParseClock(s: string): Option<nat>
  {
    if |s| < 4 || s[|s| - 3] != ':' then None
    else
      match (ParseNat(s[..|s| - 3]), ParseNat(s[|s| - 2..]))
      case (Some(h), Some(m)) => if m < 60 then Some(60 * h + m) else None
      case _ => None
  }

  lemma ParseClockParts(x: string, h: nat, m: nat)
    requires ParseNat(x) == Some(h) && m < 60
    ensures ParseClock(x + ":" + Pad2(m)) == Some(60 * h + m)
  {
    var s := x + ":" + Pad2(m);
    assert s[..|s| - 3] == x;
    assert s[|s| - 2..] == Pad2(m);
    ParsePad2(m);
  }

  /** A slot label names its minute of the day exactly: parsing it back gives t. */
  lemma ParseClockLabel(t: nat)
    ensures ParseClock(ClockLabel(t)) == Some(t)
  {
    ParseNatToString(t / 60);
    ParseClockParts(NatToString(t / 60), t / 60, t % 60);
  }

  /** The report's durations read back as the totals they render; distinct totals render apart. */
  lemma ParseFormatTime(minutes: nat)
    ensures ParseClock(FormatTime(minutes)) == Some(minutes)
  {
    ParsePad2(minutes / 60);
    ParseClockParts(Pad2(minutes / 60), minutes / 60, minutes % 60);
  }

  /** Carrying whole hours out of a minute offset. */
  lemma CarryHours(h: nat, m: nat, off: nat)
    ensures (h * 60 + m + off) / 60 == h + (m + off) / 60
    ensures (h * 60 + m + off) % 60 == (m + off) % 60
  {
    var q, r := (m + off) / 60, (m + off) % 60;
    assert m + off == 60 * q + r && 0 <= r < 60;
    assert h * 60 + m + off == 60 * (h + q) + r;
  }

  /** A scheduled root starts at 7:30 plus half an hour per position and is labelled so. */
  lemma ScheduledHeader(slots: seq<Root>, i: nat)
    requires Scheduled(slots) && i < |slots|
    ensures StartMinute(slots[i]) == DayStart + 30 * i
    ensures slots[i].start == ClockLabel(DayStart + 30 * i)
  {
    ScheduledRootTime(i);
    assert SameHeader(slots[i], ScheduledRoot(i));
  }

  /** A root labelled with the clock time at which it is scheduled labels each of its slots with its own start. */
  lemma LabelInTime(slot: Root, a: Addr)
    requires StartMinute(slot) == DayStart + 30 * a.root
    requires slot.start == ClockLabel(DayStart + 30 * a.root)
    ensures LabelIn(slot, a) == ClockLabel(LeafStart(a))
  {
    if !a.Slot30? {
      CarryHours(slot.startHour, slot.startMin, Offset(a));
    }
  }

  /**
   * In the day's schedule every slot is labelled with the clock time at
   * which it starts: 7:30 plus half an hour per root plus its offset.
   */
  lemma SlotLabelTime(slots: seq<Root>, a: Addr)
    requires Scheduled(slots) && a.root < |slots|
    ensures SlotLabel(slots, a) == Some(ClockLabel(LeafStart(a)))
  {
    ScheduledHeader(slots, a.root);
    LabelInTime(slots[a.root], a);
  }

  lemma MicroLeavesTile(i: nat, j: nat, n: nat)
    ensures Tiles(MicroLeaves(i, j, n), LeafStart, Length,
                  LeafStart(Slot10(i, j)), LeafStart(Slot10(i, j)) + n)
  {
    var xs := MicroLeaves(i, j, n);
    if n > 0 {
      assert LeafStart(xs[0]) == LeafStart(Slot10(i, j));
      assert LeafStart(xs[n - 1]) + Length(xs[n - 1]) == LeafStart(Slot10(i, j)) + n;
    }
  }

  lemma SubLeavesTile(i: nat, j: nat, s: Sub)
    requires |s.micros| == MicrosPerSub
    ensures Tiles(SubLeaves(i, j, s), LeafStart, Length,
                  LeafStart(Slot10(i, j)), LeafStart(Slot10(i, j)) + 10)
  {
    if s.subdivided {
      MicroLeavesTile(i, j, |s.micros|);
    }
  }

  lemma RootLeavesTile(i: nat, r: Root)
    requires |r.subs| == SubsPerRoot
    requires forall j :: 0 <= j < |r.subs| ==> |r.subs[j].micros| == MicrosPerSub
    ensures Tiles(RootLeaves(i, r), LeafStart, Length,
                  LeafStart(Slot30(i)), LeafStart(Slot30(i)) + 30)
  {
    if r.subdivided {
      var bs := SubBlocks(i, r.subs);
      var bound := (j: int) => LeafStart(Slot30(i)) + 10 * j;
      forall j | 0 <= j < |bs|
        ensures Tiles(bs[j], LeafStart, Length, bound(j), bound(j + 1))
      {
        SubLeavesTile(i, j, r.subs[j]);
      }
      ConcatTiles(bs, LeafStart, Length, bound);
    }
  }

  /**
   * The visible leaves, in the order the ids are listed, cover the day
   * from 7:30 end to end: each leaf starts where the previous one ends,
   * and the last one ends half an hour per root later.
   */
  lemma LeavesTile(slots: seq<Root>)
    requires WellShaped(slots)
    ensures Tiles(Leaves(slots), LeafStart, Length, DayStart, DayStart + 30 * |slots|)
  {
    var bs := RootBlocks(slots);
    var bound := (i: int) => DayStart + 30 * i;
    forall i | 0 <= i < |bs|
      ensures Tiles(bs[i], LeafStart, Length, bound(i), bound(i + 1))
    {
      RootLeavesTile(i, slots[i]);
    }
    ConcatTiles(bs, LeafStart, Length, bound);
  }
}
