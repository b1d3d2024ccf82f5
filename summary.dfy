/**
 * The minutes per code: the `summary` object `updateSummary` and
 * `copyToClipboard` fill by walking the tree, where every visible leaf
 * with a truthy value adds its duration (30, 10 or 1 minutes) to its code.
 */
module Summary {
  import opened Wrappers
  import opened TimeSlots
  import opened SlotIds
  import opened Linearize
  import opened SlotValues
  import opened Selection
  import opened SeqFacts

  // ---- the summary object ----

  /** One key of the `summary` object with its minutes; the keys keep insertion order. */
  datatype Entry = Entry(code: string, minutes: nat)

  /** `summary[c] || 0`. */
  function Get(es: seq<Entry>, c: string): nat
  {
    if es == [] then 0 else if es[0].code == c then es[0].minutes else Get(es[1..], c)
  }

  /** `Object.keys(summary)`. */
  function Codes(es: seq<Entry>): (cs: seq<string>)
    ensures |cs| == |es|
  {
    if es == [] then [] else [es[0].code] + Codes(es[1..])
  }

  /** `Object.values(summary).reduce((a, b) => a + b, 0)`. */
  function Sum(es: seq<Entry>): nat
  {
    if es == [] then 0 else es[0].minutes + Sum(es[1..])
  }

  /** `if (!summary[c]) summary[c] = 0; summary[c] += d;` */
  function Bump(es: seq<Entry>, c: string, d: nat): seq<Entry>
  {
    if es == [] then [Entry(c, d)]
    else if es[0].code == c then [es[0].(minutes := es[0].minutes + d)] + es[1..]
    else [es[0]] + Bump(es[1..], c, d)
  }

  /** Bumping adds d to code c and to nothing else. */
  lemma {:induction false} BumpGet(es: seq<Entry>, c: string, d: nat, x: string)
    ensures Get(Bump(es, c, d), x) == Get(es, x) + (if x == c then d else 0)
    decreases |es|
  {
    if es != [] && es[0].code != c {
      BumpGet(es[1..], c, d, x);
      assert Bump(es, c, d)[1..] == Bump(es[1..], c, d);
    }
  }

  lemma {:induction false} BumpSum(es: seq<Entry>, c: string, d: nat)
    ensures Sum(Bump(es, c, d)) == Sum(es) + d
    decreases |es|
  {
    if es != [] {
      if es[0].code == c {
        assert Bump(es, c, d)[1..] == es[1..];
      } else {
        BumpSum(es[1..], c, d);
        assert Bump(es, c, d)[1..] == Bump(es[1..], c, d);
      }
    }
  }

  /** The keys after a bump are the keys before with c added as a `Set` adds it. */
  lemma {:induction false} BumpCodes(es: seq<Entry>, c: string, d: nat)
    ensures Codes(Bump(es, c, d)) == Add(Codes(es), c)
    decreases |es|
  {
    if es != [] {
      var b := Bump(es, c, d);
      if es[0].code == c {
        assert b[1..] == es[1..];
      } else {
        assert b[1..] == Bump(es[1..], c, d);
        BumpCodes(es[1..], c, d);
        var rest := Codes(es[1..]);
        assert c in Codes(es) <==> c in rest;
        SeqAssoc([es[0].code], rest, [c]);
      }
    }
  }

  // ---- what each leaf contributes ----

  /** A visible leaf seen by the summary: its value and its duration in minutes. */
  datatype Piece = Piece(value: Value, minutes: nat)

  /** One step of the walk: a leaf with a truthy value adds its minutes to its code. */
  function TallyStep(es: seq<Entry>, p: Piece): seq<Entry>
  {
    if Truthy(p.value) then Bump(es, p.value.value, p.minutes) else es
  }

  /** The minutes a piece adds to `totalMinutes`. */
  function FilledStep(p: Piece): nat
  {
    if Truthy(p.value) then p.minutes else 0
  }

  /** The summary after walking the pieces, starting from es. */
  function Tally(es: seq<Entry>, ps: seq<Piece>): seq<Entry>
  {
    if ps == [] then es else TallyStep(Tally(es, ps[..|ps| - 1]), ps[|ps| - 1])
  }

  /** The filled minutes: the durations of the pieces with a truthy value. */
  function Filled(ps: seq<Piece>): nat
  {
    if ps == [] then 0 else Filled(ps[..|ps| - 1]) + FilledStep(ps[|ps| - 1])
  }

  /** The minutes of code c: the durations of the pieces whose value is code c (and c is truthy). */
  function CodeMinutes(ps: seq<Piece>, c: string): nat
  {
    if ps == [] then 0
    else CodeMinutes(ps[..|ps| - 1], c) + (if ps[|ps| - 1].value == Some(c) && c != "" then ps[|ps| - 1].minutes else 0)
  }

  /** All minutes, filled or not. */
  function Minutes(ps: seq<Piece>): nat
  {
    if ps == [] then 0 else Minutes(ps[..|ps| - 1]) + ps[|ps| - 1].minutes
  }

  lemma TakeStep(es: seq<Entry>, ps: seq<Piece>, k: nat)
    requires k < |ps|
    ensures Tally(es, ps[..k + 1]) == TallyStep(Tally(es, ps[..k]), ps[k])
    ensures Filled(ps[..k + 1]) == Filled(ps[..k]) + FilledStep(ps[k])
  {
    assert ps[..k + 1][..k] == ps[..k];
  }

  lemma {:induction false} TallyConcat(es: seq<Entry>, xs: seq<Piece>, ys: seq<Piece>)
    ensures Tally(es, xs + ys) == Tally(Tally(es, xs), ys)
    ensures Filled(xs + ys) == Filled(xs) + Filled(ys)
    decreases |ys|
  {
    if ys == [] {
      assert xs + ys == xs;
    } else {
      var n := |ys| - 1;
      TallyConcat(es, xs, ys[..n]);
      assert (xs + ys)[..|xs + ys| - 1] == xs + ys[..n];
    }
  }

  lemma {:induction false} MinutesConcat(xs: seq<Piece>, ys: seq<Piece>)
    ensures Minutes(xs + ys) == Minutes(xs) + Minutes(ys)
    decreases |ys|
  {
    if ys == [] {
      assert xs + ys == xs;
    } else {
      var n := |ys| - 1;
      MinutesConcat(xs, ys[..n]);
      assert (xs + ys)[..|xs + ys| - 1] == xs + ys[..n];
    }
  }

  /** Each code's minutes in the summary are the durations of its pieces. */
  lemma {:induction false} TallyGet(es: seq<Entry>, ps: seq<Piece>, c: string)
    ensures Get(Tally(es, ps), c) == Get(es, c) + CodeMinutes(ps, c)
    decreases |ps|
  {
    if ps != [] {
      var p := ps[|ps| - 1];
      TallyGet(es, ps[..|ps| - 1], c);
      if Truthy(p.value) {
        BumpGet(Tally(es, ps[..|ps| - 1]), p.value.value, p.minutes, c);
      }
    }
  }

  /** The summary's values add up to the filled minutes. */
  lemma {:induction false} TallySum(es: seq<Entry>, ps: seq<Piece>)
    ensures Sum(Tally(es, ps)) == Sum(es) + Filled(ps)
    decreases |ps|
  {
    if ps != [] {
      var p := ps[|ps| - 1];
      TallySum(es, ps[..|ps| - 1]);
      if Truthy(p.value) {
        BumpSum(Tally(es, ps[..|ps| - 1]), p.value.value, p.minutes);
      }
    }
  }

  /** A piece that puts code c into the summary. */
  predicate Records(ps: seq<Piece>, c: string)
  {
    exists k :: 0 <= k < |ps| && Truthy(ps[k].value) && ps[k].value.value == c
  }

  /** The summary's keys are distinct, and they are exactly the codes of the truthy pieces. */
  lemma {:induction false} TallyCodes(es: seq<Entry>, ps: seq<Piece>)
    requires NoDup(Codes(es))
    ensures NoDup(Codes(Tally(es, ps)))
    ensures forall c :: c in Codes(Tally(es, ps)) <==> c in Codes(es) || Records(ps, c)
    decreases |ps|
  {
    if ps != [] {
      var front, p := ps[..|ps| - 1], ps[|ps| - 1];
      TallyCodes(es, front);
      var mid := Tally(es, front);
      if Truthy(p.value) {
        BumpCodes(mid, p.value.value, p.minutes);
        AddSpec(Codes(mid), p.value.value);
      }
      forall c
        ensures Records(ps, c) <==> Records(front, c) || (Truthy(p.value) && p.value.value == c)
      {
        RecordsSnoc(ps, c);
      }
    }
  }

  /** A code is recorded by the pieces exactly when the front records it or the last piece holds it. */
  lemma RecordsSnoc(ps: seq<Piece>, c: string)
    requires |ps| > 0
    ensures var front, p := ps[..|ps| - 1], ps[|ps| - 1];
      Records(ps, c) <==> Records(front, c) || (Truthy(p.value) && p.value.value == c)
  {
    var front := ps[..|ps| - 1];
    if Records(ps, c) {
      var k :| 0 <= k < |ps| && Truthy(ps[k].value) && ps[k].value.value == c;
      if k < |front| {
        assert front[k] == ps[k];
      }
    }
    if Records(front, c) {
      var k :| 0 <= k < |front| && Truthy(front[k].value) && front[k].value.value == c;
      assert ps[k] == front[k];
    }
  }

  /** The summary is empty exactly when no piece has a truthy value. */
  lemma NothingRecorded(ps: seq<Piece>)
    ensures |Tally([], ps)| == 0 <==> forall k :: 0 <= k < |ps| ==> !Truthy(ps[k].value)
  {
    TallyCodes([], ps);
    var cs := Codes(Tally([], ps));
    if |cs| > 0 {
      assert cs[0] in cs;
    }
    forall k | 0 <= k < |ps| && Truthy(ps[k].value)
      ensures |cs| > 0
    {
      assert Records(ps, ps[k].value.value);
    }
  }

  /** Filled minutes never exceed all minutes. */
  lemma {:induction false} FilledAtMost(ps: seq<Piece>)
    ensures Filled(ps) <= Minutes(ps)
    decreases |ps|
  {
    if ps != [] {
      FilledAtMost(ps[..|ps| - 1]);
    }
  }

  lemma {:induction false} MinutesUniform(ps: seq<Piece>, m: nat)
    requires forall k :: 0 <= k < |ps| ==> ps[k].minutes == m
    ensures Minutes(ps) == m * |ps|
    decreases |ps|
  {
    if ps != [] {
      MinutesUniform(ps[..|ps| - 1], m);
    }
  }

  lemma Distribute(m: nat, n: nat, b: nat)
    requires b == n + 1
    ensures m * b == m * n + m
  {
  }

  lemma {:induction false} MinutesBlocks(bs: seq<seq<Piece>>, m: nat)
    requires forall i :: 0 <= i < |bs| ==> Minutes(bs[i]) == m
    ensures Minutes(Concat(bs)) == m * |bs|
    decreases |bs|
  {
    if bs != [] {
      var n := |bs| - 1;
      MinutesBlocks(bs[..n], m);
      assert Concat(bs) == Concat(bs[..n]) + bs[n];
      MinutesConcat(Concat(bs[..n]), bs[n]);
      Distribute(m, n, |bs|);
    }
  }

  // ---- the pieces of the tree ----

  function MicroPieces(ms: seq<Micro>): seq<Piece>
  {
    seq(|ms|, k requires 0 <= k < |ms| => Piece(ms[k].value, 1))
  }

  /** A sub-slot's pieces: its ten micro-slots of 1 minute, or itself for 10 minutes. */
  function SubPieces(s: Sub): seq<Piece>
  {
    if s.subdivided then MicroPieces(s.micros) else [Piece(s.value, 10)]
  }

  function SubPieceBlocks(subs: seq<Sub>): seq<seq<Piece>>
  {
    seq(|subs|, j requires 0 <= j < |subs| => SubPieces(subs[j]))
  }

  /** A root's pieces: its sub-slots' pieces, or itself for 30 minutes. */
  function RootPieces(r: Root): seq<Piece>
  {
    if r.subdivided then Concat(SubPieceBlocks(r.subs)) else [Piece(r.value, 30)]
  }

  function RootPieceBlocks(slots: seq<Root>): seq<seq<Piece>>
  {
    seq(|slots|, i requires 0 <= i < |slots| => RootPieces(slots[i]))
  }

  /** The pieces of the whole tree, root after root in the order `timeSlots.forEach` visits them. */
  function Pieces(slots: seq<Root>): seq<Piece>
  {
    Concat(RootPieceBlocks(slots))
  }

  /** What the summary sees at an address: the value stored there and the address's duration. */
  function LeafPiece(slots: seq<Root>, a: Addr): Piece
  {
    Piece(if InTree(slots, a) then ValueAt(slots, a) else None, Duration(a))
  }

  lemma RootPiecesOfLeaves(slots: seq<Root>, i: nat)
    requires i < |slots|
    ensures |RootPieces(slots[i])| == |RootLeaves(i, slots[i])|
    ensures forall p :: 0 <= p < |RootLeaves(i, slots[i])| ==>
      RootPieces(slots[i])[p] == LeafPiece(slots, RootLeaves(i, slots[i])[p])
  {
    var r := slots[i];
    if r.subdivided {
      var f := a => LeafPiece(slots, a);
      var bs, cs := SubBlocks(i, r.subs), SubPieceBlocks(r.subs);
      forall j, p | 0 <= j < |bs| && 0 <= p < |bs[j]|
        ensures cs[j][p] == f(bs[j][p])
      {
        SubLeavesSound(i, j, r.subs[j], p);
      }
      ConcatMapped(bs, cs, f);
    }
  }

  /** The summary walks exactly the visible leaves, in day order. */
  lemma PiecesOfLeaves(slots: seq<Root>)
    ensures |Pieces(slots)| == |Leaves(slots)|
    ensures forall k :: 0 <= k < |Leaves(slots)| ==> Pieces(slots)[k] == LeafPiece(slots, Leaves(slots)[k])
  {
    var f := a => LeafPiece(slots, a);
    var bs, cs := RootBlocks(slots), RootPieceBlocks(slots);
    forall i | 0 <= i < |bs|
      ensures |cs[i]| == |bs[i]|
      ensures forall p :: 0 <= p < |bs[i]| ==> cs[i][p] == f(bs[i][p])
    {
      RootPiecesOfLeaves(slots, i);
    }
    ConcatMapped(bs, cs, f);
  }

  /** A well-shaped tree has 30 minutes of pieces per root. */
  lemma PiecesMinutes(slots: seq<Root>)
    requires WellShaped(slots)
    ensures Minutes(Pieces(slots)) == 30 * |slots|
  {
    var bs := RootPieceBlocks(slots);
    forall i | 0 <= i < |bs|
      ensures Minutes(bs[i]) == 30
    {
      var r := slots[i];
      if r.subdivided {
        var sbs := SubPieceBlocks(r.subs);
        forall j | 0 <= j < |sbs|
          ensures Minutes(sbs[j]) == 10
        {
          if r.subs[j].subdivided {
            MinutesUniform(sbs[j], 1);
          } else {
            assert Minutes(sbs[j]) == Minutes([]) + 10;
          }
        }
        MinutesBlocks(sbs, 10);
      } else {
        assert Minutes(bs[i]) == Minutes([]) + 30;
      }
    }
    MinutesBlocks(bs, 30);
  }

  /** `totalMinutes` of the day's 32 roots is at most 32 × 30 = 960. */
  lemma TotalBound(slots: seq<Root>)
    requires WellShaped(slots)
    ensures Filled(Pieces(slots)) <= 30 * |slots|
    ensures |slots| == RootCount ==> Filled(Pieces(slots)) <= 960
  {
    PiecesMinutes(slots);
    FilledAtMost(Pieces(slots));
  }

  /**
   * What the summary means: each code's minutes are the durations of the
   * visible leaves holding that code, its values add up to the filled
   * minutes, and its keys are distinct.
   */
  lemma SummaryMeaning(slots: seq<Root>, c: string)
    ensures Get(Tally([], Pieces(slots)), c) == CodeMinutes(Pieces(slots), c)
    ensures Sum(Tally([], Pieces(slots))) == Filled(Pieces(slots))
    ensures NoDup(Codes(Tally([], Pieces(slots))))
  {
    TallyGet([], Pieces(slots), c);
    TallySum([], Pieces(slots));
    TallyCodes([], Pieces(slots));
  }

  // ---- the walks ----

  /** Appending block j's effect extends the effect of the blocks before it. */
  lemma BlockTallyStep(es: seq<Entry>, t: nat, mid: seq<Entry>, tmid: nat, out: seq<Entry>, tout: nat,
                       bs: seq<seq<Piece>>, j: nat)
    requires j < |bs|
    requires mid == Tally(es, Concat(bs[..j])) && tmid == t + Filled(Concat(bs[..j]))
    requires out == Tally(mid, bs[j]) && tout == tmid + Filled(bs[j])
    ensures out == Tally(es, Concat(bs[..j + 1])) && tout == t + Filled(Concat(bs[..j + 1]))
  {
    TakeSnoc(bs, j);
    ConcatSnoc(bs[..j], bs[j]);
    TallyConcat(es, Concat(bs[..j]), bs[j]);
  }

  lemma BlocksBegin<T>(bs: seq<seq<T>>)
    ensures Concat(bs[..0]) == []
  {
    assert bs[..0] == [];
  }

  /** The walk over one sub-slot: its micro-slots if it is split, else itself. */
  method SummarizeSub(summary: seq<Entry>, total: nat, s: Sub) returns (summary': seq<Entry>, total': nat)
    ensures summary' == Tally(summary, SubPieces(s)) && total' == total + Filled(SubPieces(s))
  {
    summary', total' := summary, total;
    if s.subdivided {
      var ps := MicroPieces(s.micros);
      var k := 0;
      while k < |s.micros|
        invariant 0 <= k <= |s.micros|
        invariant summary' == Tally(summary, ps[..k]) && total' == total + Filled(ps[..k])
      {
        var micro := s.micros[k];
        TakeStep(summary, ps, k);
        if Truthy(micro.value) {
          summary' := Bump(summary', micro.value.value, 1);
          total' := total' + 1;
        }
        k := k + 1;
      }
      assert ps[..k] == ps;
    } else {
      TakeStep(summary, [Piece(s.value, 10)], 0);
      if Truthy(s.value) {
        summary' := Bump(summary', s.value.value, 10);
        total' := total' + 10;
      }
      assert [Piece(s.value, 10)][..1] == [Piece(s.value, 10)];
    }
  }

  /** The walk over one root: its sub-slots if it is split, else itself. */
  method SummarizeRoot(summary: seq<Entry>, total: nat, r: Root) returns (summary': seq<Entry>, total': nat)
    ensures summary' == Tally(summary, RootPieces(r)) && total' == total + Filled(RootPieces(r))
  {
    summary', total' := summary, total;
    if r.subdivided {
      var bs := SubPieceBlocks(r.subs);
      BlocksBegin(bs);
      var j := 0;
      while j < |r.subs|
        invariant 0 <= j <= |r.subs|
        invariant summary' == Tally(summary, Concat(bs[..j])) && total' == total + Filled(Concat(bs[..j]))
      {
        ghost var mid, tmid := summary', total';
        summary', total' := SummarizeSub(summary', total', r.subs[j]);
        BlockTallyStep(summary, total, mid, tmid, summary', total', bs, j);
        j := j + 1;
      }
      assert bs[..j] == bs;
    } else {
      TakeStep(summary, [Piece(r.value, 30)], 0);
      if Truthy(r.value) {
        summary' := Bump(summary', r.value.value, 30);
        total' := total' + 30;
      }
      assert [Piece(r.value, 30)][..1] == [Piece(r.value, 30)];
    }
  }

  /** The walk of `updateSummary()`: the summary object and `totalMinutes`. */
  method Summarize(slots: seq<Root>) returns (summary: seq<Entry>, total: nat)
    ensures summary == Tally([], Pieces(slots)) && total == Filled(Pieces(slots))
  {
    summary, total := [], 0;
    var bs := RootPieceBlocks(slots);
    BlocksBegin(bs);
    var index := 0;
    while index < |slots|
      invariant 0 <= index <= |slots|
      invariant summary == Tally([], Concat(bs[..index])) && total == Filled(Concat(bs[..index]))
    {
      ghost var mid, tmid := summary, total;
      summary, total := SummarizeRoot(summary, total, slots[index]);
      BlockTallyStep([], 0, mid, tmid, summary, total, bs, index);
      index := index + 1;
    }
    assert bs[..index] == bs;
  }

  /** The figures `copyToClipboard()` reports: the summary and the sum of its values. */
  datatype Report = Report(entries: seq<Entry>, total: nat)

  /**
   * `copyToClipboard()`: the same walk (without the running total), then
   * nothing when no code was recorded and otherwise the summary with the
   * sum of its values, which is the total `updateSummary` shows.
   */
  method CopySummary(slots: seq<Root>) returns (report: Option<Report>)
    ensures report.None? <==> forall k :: 0 <= k < |Pieces(slots)| ==> !Truthy(Pieces(slots)[k].value)
    ensures report.Some? ==>
      report.value.entries == Tally([], Pieces(slots)) && report.value.total == Filled(Pieces(slots))
  {
    var summary, _ := Summarize(slots);
    NothingRecorded(Pieces(slots));
    if |summary| == 0 {
      report := None;
    } else {
      TallySum([], Pieces(slots));
      report := Some(Report(summary, Sum(summary)));
    }
  }
}
