/**
 The word layout of arrays and maps (data-format.md): fixed-width cells
 followed by the objects that do not fit their cell, in cell order.
 */
module Layout {
  import opened Words

  /** An object and the width of the cell it goes to. */
  datatype Item = Item(words: seq<u32>, width: nat) {
    /** The object is stored behind the cells. */
    predicate Out() { |words| > width }
    function Moved(): (r: seq<u32>)
      ensures |r| == if Out() then |words| else 0
    {
      if Out() then words else []
    }
  }

  function Zeros(n: nat): (r: seq<u32>)
    ensures |r| == n && forall i | 0 <= i < n :: r[i] == 0
  {
    seq(n, _ => 0)
  }

  /** `(off << 2) | 3` in 32 bits. */
  function Offset(off: int): u32 { (4 * off + 3) % 0x1_0000_0000 }

  /** One cell: the object padded with zeros, or a tagged relative offset. */
  function Cell(item: Item, distance: nat): (r: seq<u32>)
    ensures item.width > 0 ==> |r| == item.width
  {
    if item.Out() then [Offset(distance)] + Zeros(if item.width > 0 then item.width - 1 else 0)
    else item.words + Zeros(item.width - |item.words|)
  }

  /** The out-of-line objects, in order. */
  function Kept(items: seq<Item>): seq<u32> {
    if items == [] then [] else items[0].Moved() + Kept(items[1..])
  }

  /** The cells of `items` when `before` words of out-of-line objects precede theirs. */
  function Cells(items: seq<Item>, before: nat): (r: seq<u32>) {
    if items == [] then []
    else
      var rest := Cells(items[1..], before + |items[0].Moved()|);
      Cell(items[0], items[0].width + |rest| + before) + rest
  }

  ghost predicate Wide(items: seq<Item>) {
    forall i | 0 <= i < |items| :: 1 <= items[i].width <= 3
  }

  /** Total width of the first cells. */
  function WidthSum(items: seq<Item>): nat {
    if items == [] then 0 else items[0].width + WidthSum(items[1..])
  }

  function KeptSum(items: seq<Item>): nat {
    if items == [] then 0 else |items[0].Moved()| + KeptSum(items[1..])
  }

  lemma {:induction false} Sizes(items: seq<Item>, before: nat)
    requires Wide(items)
    ensures |Cells(items, before)| == WidthSum(items) && |Kept(items)| == KeptSum(items)
  {
    if items != [] {
      Sizes(items[1..], before + |items[0].Moved()|);
    }
  }

  lemma SumsStep(items: seq<Item>, i: nat)
    requires 0 < i <= |items|
    ensures items[1..][..i - 1] == items[1..i]
    ensures WidthSum(items[..i]) == items[0].width + WidthSum(items[1..][..i - 1])
    ensures KeptSum(items[..i]) == |items[0].Moved()| + KeptSum(items[1..][..i - 1])
  {
    assert items[..i][1..] == items[1..][..i - 1];
    assert items[..i][0] == items[0];
  }

  lemma CellsStep(items: seq<Item>, before: nat)
    requires items != []
    ensures var rest := Cells(items[1..], before + |items[0].Moved()|);
            Cells(items, before) == Cell(items[0], items[0].width + |rest| + before) + rest
  {
  }

  /** Where cell `i` starts and what it holds. */
  lemma {:induction false} CellAt(items: seq<Item>, before: nat, i: nat)
    requires Wide(items) && i < |items|
    ensures var cells, start := Cells(items, before), WidthSum(items[..i]);
            && start + items[i].width <= |cells|
            && cells[start..start + items[i].width]
               == Cell(items[i], |cells| - start + before + KeptSum(items[..i]))
    decreases i
  {
    hide Cell, Cells, Item.Moved, Item.Out;
    CellsStep(items, before);
    var tail := items[1..];
    var b := before + |items[0].Moved()|;
    var rest := Cells(tail, b);
    var first := Cell(items[0], items[0].width + |rest| + before);
    CellLength(items[0], items[0].width + |rest| + before);
    if i == 0 {
      assert items[..0] == [];
      SliceFront(first, rest);
    } else {
      CellAt(tail, b, i - 1);
      SumsStep(items, i);
      SliceAfter(first, rest, WidthSum(tail[..i - 1]), items[i].width);
    }
  }

  lemma CellLength(item: Item, distance: nat)
    requires item.width > 0
    ensures |Cell(item, distance)| == item.width
  {
  }

  /** Where the out-of-line object of cell `i` is. */
  lemma {:induction false} KeptAt(items: seq<Item>, i: nat)
    requires i < |items|
    ensures var at, moved := KeptSum(items[..i]), items[i].Moved();
            at + |moved| <= |Kept(items)| && Kept(items)[at..at + |moved|] == moved
    decreases i
  {
    hide Item.Moved;
    var tail, head := items[1..], items[0].Moved();
    if i == 0 {
      assert items[..0] == [];
      SliceFront(head, Kept(tail));
    } else {
      KeptAt(tail, i - 1);
      SumsStep(items, i);
      SliceAfter(head, Kept(tail), KeptSum(tail[..i - 1]), |items[i].Moved()|);
    }
  }

  lemma {:induction false} KeptAppend(a: seq<Item>, b: seq<Item>)
    ensures Kept(a + b) == Kept(a) + Kept(b)
  {
    hide Item.Moved;
    if a == [] {
      assert a + b == b && Kept(b) == [] + Kept(b);
    } else {
      KeptAppend(a[1..], b);
      assert (a + b)[0] == a[0] && (a + b)[1..] == a[1..] + b;
      assert Kept(a + b) == a[0].Moved() + Kept(a[1..] + b);
      Assoc(a[0].Moved(), Kept(a[1..]), Kept(b));
    }
  }

  lemma {:induction false} SumsAppend(a: seq<Item>, b: seq<Item>)
    ensures KeptSum(a + b) == KeptSum(a) + KeptSum(b)
    ensures WidthSum(a + b) == WidthSum(a) + WidthSum(b)
  {
    hide Item.Moved;
    if a == [] {
      assert a + b == b;
    } else {
      SumsAppend(a[1..], b);
      assert (a + b)[1..] == a[1..] + b;
    }
  }
}
