/**
 Arrays and maps (BestArraySize, SerializeArray and SerializeMap of
 src/serialize.cc).
 */
module Serialize {
  import opened Words
  import opened Buffers
  import opened Layout
  import opened Units
  import opened Strings

  // ---------------------------------------------------------------------
  // The best cell width
  // ---------------------------------------------------------------------

  /** Words used by cells of width `k` and by the objects that do not fit them. */
  function CellTotal(lens: seq<nat>, k: nat): nat {
    if lens == [] then 0 else k + (if lens[0] > k then lens[0] else 0) + CellTotal(lens[1..], k)
  }

  function BestWidth(lens: seq<nat>): (m: nat)
    ensures 1 <= m <= 3
    ensures forall k | 1 <= k <= 3 :: CellTotal(lens, m) <= CellTotal(lens, k)
  {
    if CellTotal(lens, 1) <= CellTotal(lens, 2) && CellTotal(lens, 1) <= CellTotal(lens, 3) then 1
    else if CellTotal(lens, 2) <= CellTotal(lens, 3) then 2 else 3
  }

  lemma {:induction false} CellTotalAppend(a: seq<nat>, x: nat, k: nat)
    ensures CellTotal(a + [x], k) == CellTotal(a, k) + k + if x > k then x else 0
  {
    if a == [] {
      assert a + [x] == [x];
    } else {
      CellTotalAppend(a[1..], x, k);
      assert (a + [x])[1..] == a[1..] + [x];
    }
  }

  /** BestArraySize. */
  method BestArraySize(lens: seq<nat>) returns (size: nat, m: nat)
    ensures m == BestWidth(lens) && size == CellTotal(lens, m)
  {
    var s1, s2, s3 := 0, 0, 0;
    var i := 0;
    while i < |lens|
      invariant i <= |lens|
      invariant s1 == CellTotal(lens[..i], 1) && s2 == CellTotal(lens[..i], 2) && s3 == CellTotal(lens[..i], 3)
    {
      assert lens[..i + 1] == lens[..i] + [lens[i]];
      CellTotalAppend(lens[..i], lens[i], 1);
      CellTotalAppend(lens[..i], lens[i], 2);
      CellTotalAppend(lens[..i], lens[i], 3);
      s1, s2, s3 := s1 + 1, s2 + 2, s3 + 3;
      var len := lens[i];
      if len > 1 {
        s1 := s1 + len;
        if len > 2 {
          s2 := s2 + len;
          if len > 3 {
            s3 := s3 + len;
          }
        }
      }
      i := i + 1;
    }
    assert lens[..i] == lens;
    m, size := 1, s1;
    if s2 < size { m, size := 2, s2; }
    if s3 < size { m, size := 3, s3; }
  }

  /** Two-word scalars always get two-word cells. */
  lemma {:induction false} AllTwos(lens: seq<nat>)
    requires forall i | 0 <= i < |lens| :: lens[i] == 2
    ensures CellTotal(lens, 1) == 3 * |lens| && CellTotal(lens, 2) == 2 * |lens| && CellTotal(lens, 3) == 3 * |lens|
    ensures lens != [] ==> BestWidth(lens) == 2
  {
    if lens != [] { AllTwos(lens[1..]); }
  }

  /** One-word objects always get one-word cells. */
  lemma {:induction false} AllOnes(lens: seq<nat>)
    requires forall i | 0 <= i < |lens| :: lens[i] == 1
    ensures CellTotal(lens, 1) == |lens| && CellTotal(lens, 2) == 2 * |lens| && CellTotal(lens, 3) == 3 * |lens|
    ensures lens != [] ==> BestWidth(lens) == 1
  {
    if lens != [] { AllOnes(lens[1..]); }
  }

  // ---------------------------------------------------------------------
  // Arrays
  // ---------------------------------------------------------------------

  function Lens(ws: seq<seq<u32>>): (r: seq<nat>)
    ensures |r| == |ws| && forall i | 0 <= i < |r| :: r[i] == |ws[i]|
  {
    seq(|ws|, i requires 0 <= i < |ws| => |ws[i]|)
  }

  function Repeat(m: nat, n: nat): (r: seq<nat>)
    ensures |r| == n && forall i | 0 <= i < n :: r[i] == m
  {
    seq(n, _ => m)
  }

  /** The items of an array whose cells are `m` words wide. */
  function ArrayItems(ws: seq<seq<u32>>, m: nat): (r: seq<Item>)
    ensures |r| == |ws| && forall i | 0 <= i < |r| :: r[i] == Item(ws[i], m)
  {
    seq(|ws|, i requires 0 <= i < |ws| => Item(ws[i], m))
  }

  /** The words of an array of objects. */
  function ArrayWords(ws: seq<seq<u32>>): seq<u32> {
    if ws == [] then [1]
    else
      var m := BestWidth(Lens(ws));
      var items := ArrayItems(ws, m);
      [(4 * |ws| + m) % 0x1_0000_0000] + Cells(items, 0) + Kept(items)
  }

  lemma {:induction false} ItemTotals(items: seq<Item>, lens: seq<nat>, m: nat)
    requires |items| == |lens| && forall i | 0 <= i < |items| :: items[i].width == m && |items[i].words| == lens[i]
    ensures WidthSum(items) + KeptSum(items) == CellTotal(lens, m)
  {
    if items != [] {
      ItemTotals(items[1..], lens[1..], m);
    }
  }

  /** The words a list of units stands for. */
  ghost function Denotes(units: seq<Unit>, contents: seq<u32>): (r: seq<seq<u32>>)
    ensures |r| == |units| && forall i | 0 <= i < |r| :: r[i] == Denote(units[i], contents)
  {
    seq(|units|, i requires 0 <= i < |units| => Denote(units[i], contents))
  }

  /** Sizes of units agree with the words they stand for. */
  lemma UnitSizes(units: seq<Unit>, contents: seq<u32>, start: nat)
    requires Tiled(units, contents, start)
    ensures forall i | 0 <= i < |units| :: units[i].Size() == |Denote(units[i], contents)|
  {
    forall i | 0 <= i < |units| ensures units[i].Size() == |Denote(units[i], contents)| {
      TiledAt(units, contents, start, i);
    }
  }

  function SizesOf(units: seq<Unit>): (r: seq<nat>)
    ensures |r| == |units| && forall i | 0 <= i < |r| :: r[i] == units[i].Size()
  {
    seq(|units|, i requires 0 <= i < |units| => units[i].Size())
  }

  /** The inline units of a list fit the width that is best for the list. */
  ghost predicate FitsBest(units: seq<Unit>) {
    forall i | 0 <= i < |units| :: units[i].Inline? ==> |units[i].words| <= BestWidth(SizesOf(units))
  }

  /** SerializeArray. */
  method SerializeArray(units: seq<Unit>, buf: Buffer, last: nat) returns (ok: bool, unit: Unit)
    requires buf.Valid() && last <= buf.Size() && Tiled(units, buf.Contents(), 0)
    requires SegSum(units) == buf.Size() - last && FitsBest(units)
    modifies buf, buf.data
    ensures buf.Valid() && (buf.data == old(buf.data) || fresh(buf.data))
    ensures units == [] ==> ok && unit == Inline(ArrayWords([])) && buf.Contents() == old(buf.Contents())
    ensures ok <==> units == [] || CellTotal(SizesOf(units), BestWidth(SizesOf(units))) < 0x4000_0000
    ensures ok && units != [] ==>
              var words := ArrayWords(Denotes(units, old(buf.Contents())));
              && buf.Contents() == words + old(buf.Contents())[old(buf.Size()) - last..]
              && unit == Segment(buf.Size(), |words|)
  {
    hide BestWidth, Cells, Kept, Tiled, SegSum, CellTotal, ArrayWords, Denotes, SizesOf;
    unit := Absent;
    if units == [] {
      NoElements();
      return true, Inline([1]);
    }
    ghost var before := buf.Contents();
    var size, m := BestArraySize(SizesOf(units));
    if size >= 0x4000_0000 { return false, unit; }
    PutArray(units, m, buf, last);
    unit := Segment(buf.Size(), buf.Size() - last);
    ok := true;
  }

  /** Header and cells in front of the elements that are kept. */
  method PutArray(units: seq<Unit>, m: nat, buf: Buffer, last: nat)
    requires buf.Valid() && last <= buf.Size() && Tiled(units, buf.Contents(), 0) && units != []
    requires SegSum(units) == buf.Size() - last && FitsBest(units) && m == BestWidth(SizesOf(units))
    modifies buf, buf.data
    ensures buf.Valid() && (buf.data == old(buf.data) || fresh(buf.data))
    ensures buf.Contents() == ArrayWords(Denotes(units, old(buf.Contents())))
            + old(buf.Contents())[old(buf.Size()) - last..]
  {
    hide BestWidth, Cells, Kept, Tiled, SegSum, ArrayWords, Denotes, SizesOf, FitsBest, InlineFit, ItemsOf, Repeat;
    ghost var before := buf.Contents();
    var widths, head: u32 := Repeat(m, |units|), (4 * |units| + m) % 0x1_0000_0000;
    ghost var rest := before[|before| - last..];
    ArraySetup(units, widths, before);
    ArrayAssembled(units, widths, before, rest, head);
    WriteCells(units, widths, buf, last);
    ghost var now := buf.Contents();
    buf.Put(head);
    assert buf.Contents() == [head] + now;
  }

  lemma NoElements()
    ensures ArrayWords([]) == [1]
  {
  }

  lemma ArraySetup(units: seq<Unit>, widths: seq<nat>, contents: seq<u32>)
    requires FitsBest(units) && widths == Repeat(BestWidth(SizesOf(units)), |units|)
    ensures InlineFit(units, widths)
  {
  }

  lemma ArrayAssembled(units: seq<Unit>, widths: seq<nat>, contents: seq<u32>, rest: seq<u32>, head: u32)
    requires head == (4 * |units| + BestWidth(SizesOf(units))) % 0x1_0000_0000
    requires units != [] && Tiled(units, contents, 0) && widths == Repeat(BestWidth(SizesOf(units)), |units|)
    ensures var items := ItemsOf(units, widths, contents);
            [head] + (Cells(items, 0) + Kept(items) + rest) == ArrayWords(Denotes(units, contents)) + rest
  {
    hide BestWidth, Cells, Kept, Tiled;
    var ws := Denotes(units, contents);
    UnitSizes(units, contents, 0);
    assert SizesOf(units) == Lens(ws);
    assert ItemsOf(units, widths, contents) == ArrayItems(ws, BestWidth(Lens(ws)));
  }

  lemma BestBounds(lens: seq<nat>)
    ensures 1 <= BestWidth(lens) <= 3
  {
  }

  // ---------------------------------------------------------------------
  // Maps
  // ---------------------------------------------------------------------

  /** Keys and values alternate. */
  function Interleave<T>(a: seq<T>, b: seq<T>): (r: seq<T>)
    requires |a| == |b|
    ensures |r| == 2 * |a|
    ensures forall k {:trigger r[k]} | 0 <= k < |r| :: r[k] == if k % 2 == 0 then a[k / 2] else b[k / 2]
  {
    seq(2 * |a|, k requires 0 <= k < 2 * |a| => if k % 2 == 0 then a[k / 2] else b[k / 2])
  }

  function MapItems(ks: seq<seq<u32>>, vs: seq<seq<u32>>, m1: nat, m2: nat): seq<Item>
    requires |ks| == |vs|
  {
    Interleave(ArrayItems(ks, m1), ArrayItems(vs, m2))
  }

  /** The index with the two cell widths in the top four bits of its first word. */
  function MapHead(index: seq<byte>, m1: nat, m2: nat): (r: seq<u32>)
    requires |index| > 0 && WordAt(index, 0) < 0x1000_0000 && m1 <= 3 && m2 <= 3
    ensures |r| == WordSize(|index|)
  {
    PackWords(index)[0 := WordAt(index, 0) + 0x4000_0000 * m1 + 0x1000_0000 * m2]
  }

  /** The words of a map: index, interleaved cells, out-of-line objects. */
  function MapWords(index: seq<byte>, ks: seq<seq<u32>>, vs: seq<seq<u32>>): seq<u32>
    requires |ks| == |vs| && |index| > 0 && WordAt(index, 0) < 0x1000_0000
  {
    var m1, m2 := BestWidth(Lens(ks)), BestWidth(Lens(vs));
    var items := MapItems(ks, vs, m1, m2);
    MapHead(index, m1, m2) + Cells(items, 0) + Kept(items)
  }

  /** `5 << 28`: no entries, both widths one. */
  const EmptyMap: seq<u32> := [0x5000_0000]

  function Firsts(pairs: seq<(Unit, Unit)>): (r: seq<Unit>)
    ensures |r| == |pairs| && forall i | 0 <= i < |r| :: r[i] == pairs[i].0
  {
    seq(|pairs|, i requires 0 <= i < |pairs| => pairs[i].0)
  }

  function Seconds(pairs: seq<(Unit, Unit)>): (r: seq<Unit>)
    ensures |r| == |pairs| && forall i | 0 <= i < |r| :: r[i] == pairs[i].1
  {
    seq(|pairs|, i requires 0 <= i < |pairs| => pairs[i].1)
  }

  /** SerializeMap. */
  method SerializeMap(index: seq<byte>, pairs: seq<(Unit, Unit)>, buf: Buffer, last: nat) returns (ok: bool, unit: Unit)
    requires buf.Valid() && last <= buf.Size()
    requires Tiled(Interleave(Firsts(pairs), Seconds(pairs)), buf.Contents(), 0)
    requires SegSum(Interleave(Firsts(pairs), Seconds(pairs))) == buf.Size() - last
    requires FitsBest(Firsts(pairs)) && FitsBest(Seconds(pairs))
    requires pairs != [] ==> |index| > 0 && WordAt(index, 0) < 0x1000_0000
    modifies buf, buf.data
    ensures buf.Valid() && (buf.data == old(buf.data) || fresh(buf.data))
    ensures pairs == [] ==> ok && unit == Inline(EmptyMap) && buf.Contents() == old(buf.Contents())
    ensures ok <==> || pairs == []
                    || WordSize(|index|) + CellTotal(SizesOf(Firsts(pairs)), BestWidth(SizesOf(Firsts(pairs))))
                       + CellTotal(SizesOf(Seconds(pairs)), BestWidth(SizesOf(Seconds(pairs)))) < 0x4000_0000
    ensures ok && pairs != [] ==>
              var before := old(buf.Contents());
              var words := MapWords(index, Denotes(Firsts(pairs), before), Denotes(Seconds(pairs), before));
              && buf.Contents() == words + before[|before| - last..]
              && unit == Segment(buf.Size(), |words|)
  {
    hide BestWidth, Cells, Kept, Tiled, SegSum, CellTotal, MapWords, Denotes, SizesOf, Interleave, MapHead, Firsts,
        Seconds;
    unit := Absent;
    if pairs == [] {
      return true, Inline(EmptyMap);
    }
    ghost var before := buf.Contents();
    var keySize, m1 := BestArraySize(SizesOf(Firsts(pairs)));
    var valueSize, m2 := BestArraySize(SizesOf(Seconds(pairs)));
    if WordSize(|index|) + keySize + valueSize >= 0x4000_0000 { return false, unit; }
    PutMap(index, pairs, m1, m2, buf, last);
    unit := Segment(buf.Size(), buf.Size() - last);
    ok := true;
  }

  /** Index and cells in front of the keys and values that are kept. */
  method PutMap(index: seq<byte>, pairs: seq<(Unit, Unit)>, m1: nat, m2: nat, buf: Buffer, last: nat)
    requires buf.Valid() && last <= buf.Size() && pairs != [] && |index| > 0 && WordAt(index, 0) < 0x1000_0000
    requires Tiled(Interleave(Firsts(pairs), Seconds(pairs)), buf.Contents(), 0)
    requires SegSum(Interleave(Firsts(pairs), Seconds(pairs))) == buf.Size() - last
    requires FitsBest(Firsts(pairs)) && FitsBest(Seconds(pairs))
    requires m1 == BestWidth(SizesOf(Firsts(pairs))) && m2 == BestWidth(SizesOf(Seconds(pairs)))
    modifies buf, buf.data
    ensures buf.Valid() && (buf.data == old(buf.data) || fresh(buf.data))
    ensures var before := old(buf.Contents());
            buf.Contents() == MapWords(index, Denotes(Firsts(pairs), before), Denotes(Seconds(pairs), before))
                              + before[|before| - last..]
  {
    hide BestWidth, Cells, Kept, Tiled, SegSum, MapWords, Denotes, SizesOf, Interleave, MapHead, Firsts, Seconds,
        FitsBest, InlineFit, ItemsOf, Repeat;
    ghost var before := buf.Contents();
    FlatLengths(pairs, m1, m2);
    BestBounds(SizesOf(Firsts(pairs)));
    BestBounds(SizesOf(Seconds(pairs)));
    var units, widths, head := Interleave(Firsts(pairs), Seconds(pairs)),
                               Interleave(Repeat(m1, |pairs|), Repeat(m2, |pairs|)), MapHead(index, m1, m2);
    MapSetup(pairs, m1, m2);
    MapAssembled(index, pairs, m1, m2, before, before[|before| - last..]);
    WriteCells(units, widths, buf, last);
    ghost var now := buf.Contents();
    buf.PutAll(head);
    assert buf.Contents() == head + now;
  }

  lemma FlatLengths(pairs: seq<(Unit, Unit)>, m1: nat, m2: nat)
    ensures |Firsts(pairs)| == |Seconds(pairs)| == |pairs|
    ensures |Repeat(m1, |pairs|)| == |Repeat(m2, |pairs|)| == |pairs|
  {
  }

  lemma MapSetup(pairs: seq<(Unit, Unit)>, m1: nat, m2: nat)
    requires FitsBest(Firsts(pairs)) && FitsBest(Seconds(pairs))
    requires m1 == BestWidth(SizesOf(Firsts(pairs))) && m2 == BestWidth(SizesOf(Seconds(pairs)))
    ensures InlineFit(Interleave(Firsts(pairs), Seconds(pairs)), Interleave(Repeat(m1, |pairs|), Repeat(m2, |pairs|)))
  {
    hide BestWidth, SizesOf;
    BestBounds(SizesOf(Firsts(pairs)));
    BestBounds(SizesOf(Seconds(pairs)));
    var units, widths := Interleave(Firsts(pairs), Seconds(pairs)),
                         Interleave(Repeat(m1, |pairs|), Repeat(m2, |pairs|));
    forall k | 0 <= k < |units|
      ensures 1 <= widths[k] <= 3 && (units[k].Inline? ==> |units[k].words| <= widths[k])
    {
    }
  }

  lemma MapAssembled(index: seq<byte>, pairs: seq<(Unit, Unit)>, m1: nat, m2: nat, contents: seq<u32>, rest: seq<u32>)
    requires pairs != [] && Tiled(Interleave(Firsts(pairs), Seconds(pairs)), contents, 0)
    requires m1 == BestWidth(SizesOf(Firsts(pairs))) <= 3 && m2 == BestWidth(SizesOf(Seconds(pairs))) <= 3
    requires |index| > 0 && WordAt(index, 0) < 0x1000_0000
    ensures var units, widths := Interleave(Firsts(pairs), Seconds(pairs)),
                                 Interleave(Repeat(m1, |pairs|), Repeat(m2, |pairs|));
            var items := ItemsOf(units, widths, contents);
            MapHead(index, m1, m2) + (Cells(items, 0) + Kept(items) + rest)
            == MapWords(index, Denotes(Firsts(pairs), contents), Denotes(Seconds(pairs), contents)) + rest
  {
    hide BestWidth, Cells, Kept, Tiled, MapHead;
    var units, widths := Interleave(Firsts(pairs), Seconds(pairs)),
                         Interleave(Repeat(m1, |pairs|), Repeat(m2, |pairs|));
    var ks, vs := Denotes(Firsts(pairs), contents), Denotes(Seconds(pairs), contents);
    UnitSizes(units, contents, 0);
    PairSizes(pairs, contents);
    var items, expected := ItemsOf(units, widths, contents), MapItems(ks, vs, m1, m2);
    forall k | 0 <= k < |items| ensures items[k] == expected[k] {
    }
    assert items == expected;
  }

  lemma PairSizes(pairs: seq<(Unit, Unit)>, contents: seq<u32>)
    requires Tiled(Interleave(Firsts(pairs), Seconds(pairs)), contents, 0)
    ensures SizesOf(Firsts(pairs)) == Lens(Denotes(Firsts(pairs), contents))
    ensures SizesOf(Seconds(pairs)) == Lens(Denotes(Seconds(pairs), contents))
  {
    hide Tiled;
    var units := Interleave(Firsts(pairs), Seconds(pairs));
    UnitSizes(units, contents, 0);
    forall i | 0 <= i < |pairs|
      ensures pairs[i].0.Size() == |Denote(pairs[i].0, contents)| && pairs[i].1.Size() == |Denote(pairs[i].1, contents)|
    {
      assert units[2 * i] == pairs[i].0 && units[2 * i + 1] == pairs[i].1;
    }
  }
}
