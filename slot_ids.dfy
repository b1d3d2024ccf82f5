/**
 * Slot ids. A visible slot is named by the string "i" (a 30-minute root
 * slot), "i-j" (its j-th 10-minute sub-slot) or "i-j-k" (the k-th 1-minute
 * micro-slot of that sub-slot). Addr is the same path as a value; FormatId
 * builds the string, ParseId is the `split('-')` / `parseInt` reading of it.
 */
module SlotIds {
  import opened Wrappers
  import opened Decimal

  datatype Addr =
    | Slot30(root: nat)
    | Slot10(root: nat, sub: nat)
    | Slot1(root: nat, sub: nat, micro: nat)

  /** Minutes covered by the slot at an address. */
  function Duration(a: Addr): (d: nat)
    ensures d == 30 || d == 10 || d == 1
  {
    match a
    case Slot30(_) => 30
    case Slot10(_, _) => 10
    case Slot1(_, _, _) => 1
  }

  /** Index of the first '-' in s. */
  function FirstDash(s: string): (k: nat)
    requires '-' in s
    ensures k < |s| && s[k] == '-' && '-' !in s[..k]
  {
    if s[0] == '-' then 0
    else
      assert '-' in s[1..] by { var p :| 0 <= p < |s| && s[p] == '-'; assert s[1..][p - 1] == '-'; }
      var k := 1 + FirstDash(s[1..]);
      assert s[..k] == [s[0]] + s[1..][..k - 1];
      k
  }

  /** `s.split('-')`. */
  function SplitDash(s: string): (parts: seq<string>)
    ensures |parts| >= 1
    decreases |s|
  {
    if '-' !in s then [s]
    else
      var k := FirstDash(s);
      [s[..k]] + SplitDash(s[k + 1..])
  }

  lemma SplitDashJoin(x: string, y: string)
    requires '-' !in x
    ensures SplitDash(x + "-" + y) == [x] + SplitDash(y)
  {
    var s := x + "-" + y;
    assert s[|x|] == '-';
    var k := FirstDash(s);
    assert forall p :: 0 <= p < |x| ==> s[p] == x[p];
    assert k == |x|;
    assert s[..k] == x;
    assert s[k + 1..] == y;
  }

  lemma NoDashInDigits(s: string)
    requires AllDigits(s)
    ensures '-' !in s
  {
  }

  /** The id string of an address, as `getAllSlotIds` writes it. */
  function FormatId(a: Addr): string
  {
    match a
    case Slot30(i) => NatToString(i)
    case Slot10(i, j) => NatToString(i) + "-" + NatToString(j)
    case Slot1(i, j, k) => NatToString(i) + "-" + NatToString(j) + "-" + NatToString(k)
  }

  /**
   * The address an id names, as `getSlotValue` and `setSlotValue` read it:
   * one part is a root slot, two parts a sub-slot, three or more a
   * micro-slot (parts after the third are ignored). None when a part it
   * reads is not a decimal number.
   */
  function ParseId(id: string): Option<Addr>
  {
    var parts := SplitDash(id);
    match ParseNat(parts[0])
    case None => None
    case Some(i) =>
      if |parts| == 1 then Some(Slot30(i))
      else match ParseNat(parts[1])
        case None => None
        case Some(j) =>
          if |parts| == 2 then Some(Slot10(i, j))
          else match ParseNat(parts[2])
            case None => None
            case Some(k) => Some(Slot1(i, j, k))
  }

  lemma ParseRootId(i: nat)
    ensures ParseId(FormatId(Slot30(i))) == Some(Slot30(i))
  {
    var x := NatToString(i);
    NoDashInDigits(x);
    assert SplitDash(x) == [x];
    ParseNatToString(i);
  }

  lemma ParseSubId(i: nat, j: nat)
    ensures ParseId(FormatId(Slot10(i, j))) == Some(Slot10(i, j))
  {
    var x, y := NatToString(i), NatToString(j);
    NoDashInDigits(x);
    NoDashInDigits(y);
    SplitDashJoin(x, y);
    assert SplitDash(y) == [y];
    assert SplitDash(FormatId(Slot10(i, j))) == [x, y];
    ParseNatToString(i);
    ParseNatToString(j);
  }

  lemma ParseMicroId(i: nat, j: nat, k: nat)
    ensures ParseId(FormatId(Slot1(i, j, k))) == Some(Slot1(i, j, k))
  {
    var x, y, z := NatToString(i), NatToString(j), NatToString(k);
    assert SplitDash(FormatId(Slot1(i, j, k))) == [x, y, z] by {
      NoDashInDigits(x);
      NoDashInDigits(y);
      NoDashInDigits(z);
      assert FormatId(Slot1(i, j, k)) == x + "-" + (y + "-" + z);
      SplitDashJoin(x, y + "-" + z);
      SplitDashJoin(y, z);
      assert SplitDash(z) == [z];
    }
    assert ParseNat(x) == Some(i) by { ParseNatToString(i); }
    assert ParseNat(y) == Some(j) by { ParseNatToString(j); }
    assert ParseNat(z) == Some(k) by { ParseNatToString(k); }
  }

  /** Reading an id back yields the address it was written from. */
  lemma ParseFormatId(a: Addr)
    ensures ParseId(FormatId(a)) == Some(a)
  {
    match a
    case Slot30(i) => ParseRootId(i);
    case Slot10(i, j) => ParseSubId(i, j);
    case Slot1(i, j, k) => ParseMicroId(i, j, k);
  }

  /** Distinct addresses have distinct ids. */
  lemma FormatIdInjective(a: Addr, b: Addr)
    ensures FormatId(a) == FormatId(b) <==> a == b
  {
    ParseFormatId(a);
    ParseFormatId(b);
  }

  /** An id in the canonical form that FormatId produces. */
  predicate Canonical(id: string)
  {
    ParseId(id).Some? && FormatId(ParseId(id).value) == id
  }

  lemma FormatIdCanonical(a: Addr)
    ensures Canonical(FormatId(a)) && ParseId(FormatId(a)) == Some(a)
  {
    ParseFormatId(a);
  }
}
