/**
 The size limit of 2^30 words implies that every relative offset fits its 30
 bits (src/serialize.cc).
 */
module Offsets {
  import opened Words
  import opened Swar
  import opened Layout
  import opened Units
  import opened Serialize
  import opened Messages

  const TWO30: nat := 0x4000_0000

  /** A distance below 2^30 is stored without loss behind its tag. */
  lemma OffsetExact(d: nat)
    requires d < TWO30
    ensures Offset(d) == 4 * d + 3 && Offset(d) % 4 == 3 && Offset(d) / 4 == d
  {
  }

  /** Distance from cell `i` to its out-of-line object. */
  function Distance(items: seq<Item>, i: nat): int
    requires i < |items|
  {
    |Cells(items, 0)| - WidthSum(items[..i]) + KeptSum(items[..i])
  }

  lemma SumsSplit(items: seq<Item>, i: nat)
    requires i <= |items|
    ensures WidthSum(items[..i]) <= WidthSum(items) && KeptSum(items[..i]) <= KeptSum(items)
  {
    assert items[..i] + items[i..] == items;
    SumsAppend(items[..i], items[i..]);
  }

  /** Cells and kept objects within the limit keep every offset below it. */
  lemma DistanceBound(items: seq<Item>, i: nat)
    requires Wide(items) && i < |items|
    ensures 0 < Distance(items, i) <= WidthSum(items) + KeptSum(items)
  {
    hide Cells, Cell, Item.Moved;
    Sizes(items, 0);
    SumsSplit(items, i);
    CellAt(items, 0, i);
  }

  /** Offsets of an array that SerializeArray accepts. */
  lemma ArrayOffsetsFit(ws: seq<seq<u32>>, i: nat)
    requires i < |ws| && CellTotal(Lens(ws), BestWidth(Lens(ws))) < TWO30
    ensures var m := BestWidth(Lens(ws));
            var items := ArrayItems(ws, m);
            && 0 < Distance(items, i) < TWO30
            && (|ws[i]| > m ==> Cell(items[i], Distance(items, i))[0] == 4 * Distance(items, i) + 3)
  {
    hide BestWidth, Cells, WidthSum, KeptSum, CellTotal;
    BestBounds(Lens(ws));
    var m := BestWidth(Lens(ws));
    var items := ArrayItems(ws, m);
    ItemTotals(items, Lens(ws), m);
    DistanceBound(items, i);
    OffsetExact(Distance(items, i));
  }

  lemma {:induction false} PairTotals(items: seq<Item>, ks: seq<nat>, vs: seq<nat>, m1: nat, m2: nat)
    requires |items| == 2 * |ks| == 2 * |vs|
    requires forall k | 0 <= k < |items| ::
               if k % 2 == 0 then items[k].width == m1 && |items[k].words| == ks[k / 2]
                  else items[k].width == m2 && |items[k].words| == vs[k / 2]
    ensures WidthSum(items) + KeptSum(items) == CellTotal(ks, m1) + CellTotal(vs, m2)
    decreases |ks|
  {
    if ks != [] {
      var rest := items[2..];
      forall k | 0 <= k < |rest|
        ensures if k % 2 == 0 then rest[k].width == m1 && |rest[k].words| == ks[1..][k / 2]
                else rest[k].width == m2 && |rest[k].words| == vs[1..][k / 2]
      {
        assert rest[k] == items[k + 2] && (k + 2) / 2 == k / 2 + 1;
      }
      PairTotals(rest, ks[1..], vs[1..], m1, m2);
      assert items[1..][1..] == rest;
      assert items[1..][0] == items[1];
      assert items[0].width == m1 && items[1].width == m2;
    }
  }

  /** Offsets of a map that SerializeMap accepts. */
  lemma MapOffsetsFit(ks: seq<seq<u32>>, vs: seq<seq<u32>>, k: nat)
    requires |ks| == |vs| && k < 2 * |ks|
    requires CellTotal(Lens(ks), BestWidth(Lens(ks))) + CellTotal(Lens(vs), BestWidth(Lens(vs))) < TWO30
    ensures var items := MapItems(ks, vs, BestWidth(Lens(ks)), BestWidth(Lens(vs)));
            && 0 < Distance(items, k) < TWO30
            && (|items[k].words| > items[k].width ==>
                Cell(items[k], Distance(items, k))[0] == 4 * Distance(items, k) + 3)
  {
    hide BestWidth, Cells, WidthSum, KeptSum, CellTotal;
    BestBounds(Lens(ks));
    BestBounds(Lens(vs));
    var items := MapItems(ks, vs, BestWidth(Lens(ks)), BestWidth(Lens(vs)));
    PairTotals(items, Lens(ks), Lens(vs), BestWidth(Lens(ks)), BestWidth(Lens(vs)));
    DistanceBound(items, k);
    OffsetExact(Distance(items, k));
  }

  // ---------------------------------------------------------------------
  // Messages whose segments lie in field order
  // ---------------------------------------------------------------------

  lemma {:induction false} TotalsBound(units: seq<Unit>, i: nat)
    requires i <= |units|
    ensures Sum(FieldWidths(units)) - Sum(FieldWidths(units)[..i]) + SegSum(units[..i]) <= FieldTotal(units)
    ensures Sum(FieldWidths(units)[..i]) <= Sum(FieldWidths(units))
    decreases |units|
  {
    var ws := FieldWidths(units);
    if units != [] {
      assert ws[1..] == FieldWidths(units[1..]);
      if i == 0 {
        TotalsBound(units[1..], 0);
        assert ws[..0] == [] && units[..0] == [] && FieldWidths(units[1..])[..0] == [] && units[1..][..0] == [];
      } else {
        TotalsBound(units[1..], i - 1);
        assert ws[..i][1..] == FieldWidths(units[1..])[..i - 1];
        assert units[..i][1..] == units[1..][..i - 1];
      }
    } else {
      assert ws == [] && ws[..0] == [] && units[..0] == [];
    }
  }

  /** Offsets of an in-order message that SerializeMessage accepts. */
  lemma MessageOffsetsFit(units: seq<Unit>, contents: seq<u32>, i: nat)
    requires Tiled(units, contents, 0) && i < |units| && units[i].Segment? && FieldTotal(units) < TWO30
    ensures var ws := FieldWidths(units);
            var d := Sum(ws) + |contents| - Sum(ws[..i]) - units[i].pos;
            0 < d < TWO30 && FieldCell(units[i], Sum(ws) + |contents| - Sum(ws[..i])) == [4 * d + 3]
  {
    hide Tiled, Sum, SegSum, FieldTotal;
    var ws := FieldWidths(units);
    TiledAt(units, contents, 0, i);
    TotalsBound(units, i);
    PrefixSum(ws, i);
    OffsetExact(Sum(ws) - Sum(ws[..i]) + SegSum(units[..i]));
  }
}
