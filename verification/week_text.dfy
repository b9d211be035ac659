/**
 * The week-field notation of the portal's timetable, such as `1-8,10-16`: week ranges `a-b`
 * joined by commas. Both schedule decoders read it; the lemmas here describe how such a
 * field is written, so that the decoders can be checked against it.
 */
module WeekText {
  import opened Strings

  /** `list(range(a, b + 1))`: the weeks a..b in order, nothing when a > b. */
  function Range(a: int, b: int): (r: seq<int>)
    ensures |r| == if a <= b then b - a + 1 else 0
    ensures forall i :: 0 <= i < |r| ==> r[i] == a + i
    decreases if a <= b then b - a + 1 else 0
  {
    if a > b then [] else [a] + Range(a + 1, b)
  }

  lemma RangeMembers(a: int, b: int, w: int)
    ensures w in Range(a, b) <==> a <= w <= b
  {
    if a <= w <= b {
      assert Range(a, b)[w - a] == w;
    }
  }

  /** One range piece, `a-b`. */
  function RangeText(a: nat, b: nat): String {
    NatToString(a) + "-" + NatToString(b)
  }

  function RangeTexts(ranges: seq<(nat, nat)>): (r: seq<String>)
    ensures |r| == |ranges|
    ensures forall i :: 0 <= i < |r| ==> r[i] == RangeText(ranges[i].0, ranges[i].1)
  {
    if ranges == [] then [] else [RangeText(ranges[0].0, ranges[0].1)] + RangeTexts(ranges[1..])
  }

  /** A week field listing the given ranges in order. */
  function RangesText(ranges: seq<(nat, nat)>): String {
    Join(RangeTexts(ranges), ",")
  }

  /** The weeks the ranges denote, in the order written, repeats kept. */
  function Expand(ranges: seq<(nat, nat)>): seq<int> {
    if ranges == [] then [] else Range(ranges[0].0, ranges[0].1) + Expand(ranges[1..])
  }

  lemma DigitsHaveNo(n: nat, c: char)
    requires !IsDigit(c)
    ensures c !in NatToString(n)
    ensures !Contains(NatToString(n), [c])
  {
    ContainsChar(NatToString(n), c);
  }

  /** Splitting a range piece on `-` gives its two numerals. */
  lemma RangeTextSplits(a: nat, b: nat)
    ensures Split(RangeText(a, b), "-") == [NatToString(a), NatToString(b)]
  {
    DigitsHaveNo(a, '-');
    DigitsHaveNo(b, '-');
    SplitAfterHead(NatToString(a), "-", NatToString(b));
    SplitWithout(NatToString(b), "-");
  }

  /** Splitting a week field on `,` gives its range pieces back. */
  lemma RangesTextSplits(ranges: seq<(nat, nat)>)
    requires |ranges| > 0
    ensures Split(RangesText(ranges), ",") == RangeTexts(ranges)
  {
    var pieces := RangeTexts(ranges);
    forall k | 0 <= k < |pieces|
      ensures ',' !in pieces[k]
    {
      DigitsHaveNo(ranges[k].0, ',');
      DigitsHaveNo(ranges[k].1, ',');
    }
    SplitJoin(pieces, ',');
  }

  lemma RangesTextHasNo(ranges: seq<(nat, nat)>, c: char)
    requires !IsDigit(c) && c != '-' && c != ','
    ensures c !in RangesText(ranges)
  {
    var pieces := RangeTexts(ranges);
    forall k | 0 <= k < |pieces|
      ensures c !in pieces[k]
    {
      DigitsHaveNo(ranges[k].0, c);
      DigitsHaveNo(ranges[k].1, c);
    }
    JoinHasNo(pieces, ",", c);
  }

  lemma {:induction false} JoinHasNo(parts: seq<String>, sep: String, c: char)
    requires c !in sep
    requires forall k :: 0 <= k < |parts| ==> c !in parts[k]
    ensures c !in Join(parts, sep)
    decreases |parts|
  {
    if |parts| > 1 {
      JoinHasNo(parts[1..], sep, c);
    }
  }
}
