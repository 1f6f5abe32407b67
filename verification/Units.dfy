/**
 Units and the in-place passes over them: Pick and Mark of src/serialize.cc,
 FoldField of include/protocache/serialize.h.
 */
module Units {
  import opened Words
  import opened Buffers
  import opened Layout

  /** A serialized child: words kept in the unit, or a segment of the buffer. */
  datatype Unit = Inline(words: seq<u32>) | Segment(pos: nat, len: nat) {
    function Size(): nat {
      match this
      case Inline(words) => |words|
      case Segment(_, len) => len
    }
    function Pos(): nat {
      match this
      case Inline(_) => 0
      case Segment(pos, _) => pos
    }
  }

  const Absent := Segment(0, 0)

  /** The words a unit stands for, given the contents of the buffer. */
  ghost function Denote(u: Unit, contents: seq<u32>): seq<u32> {
    match u
    case Inline(words) => words
    case Segment(pos, len) =>
      if len <= pos <= |contents| then contents[|contents| - pos..|contents| - pos + len] else []
  }

  ghost predicate InBounds(u: Unit, contents: seq<u32>) {
    u.Segment? ==> 0 < u.len <= u.pos <= |contents|
  }

  /** Words occupied in the buffer by the segments of `units`. */
  function SegSum(units: seq<Unit>): nat {
    if units == [] then 0
    else (if units[0].Segment? then units[0].len else 0) + SegSum(units[1..])
  }

  /** The segments of `units` lie in order, without gaps, from index `start` of the contents. */
  ghost predicate Tiled(units: seq<Unit>, contents: seq<u32>, start: nat) {
    units != [] ==>
      && InBounds(units[0], contents)
      && (units[0].Segment? ==> units[0].pos + start == |contents|)
      && Tiled(units[1..], contents, start + if units[0].Segment? then units[0].len else 0)
  }

  /** Each unit with the width of its cell. */
  ghost function ItemsOf(units: seq<Unit>, widths: seq<nat>, contents: seq<u32>): (r: seq<Item>)
    requires |widths| == |units|
    ensures |r| == |units| && forall i | 0 <= i < |r| :: r[i] == Item(Denote(units[i], contents), widths[i])
  {
    seq(|units|, i requires 0 <= i < |units| => Item(Denote(units[i], contents), widths[i]))
  }

  lemma {:induction false} TiledAt(units: seq<Unit>, contents: seq<u32>, start: nat, i: nat)
    requires Tiled(units, contents, start) && i < |units|
    ensures InBounds(units[i], contents)
    ensures units[i].Segment? ==> units[i].pos + start + SegSum(units[..i]) == |contents|
    ensures SegSum(units[..i + 1]) == SegSum(units[..i]) + if units[i].Segment? then units[i].len else 0
    decreases i
  {
    if i == 0 {
      assert units[..1][1..] == [];
    } else {
      TiledAt(units[1..], contents, start + if units[0].Segment? then units[0].len else 0, i - 1);
      assert units[..i][1..] == units[1..][..i - 1];
      assert units[..i + 1][1..] == units[1..][..i];
    }
  }

  /** `len` words ending at `src` copied so that they end at `dst`. */
  ghost function Shifted(s: seq<u32>, src: nat, dst: nat, len: nat): seq<u32>
    requires len <= src <= dst <= |s|
  {
    s[..dst - len] + s[src - len..src] + s[dst..]
  }

  lemma ShiftedNowhere(s: seq<u32>, src: nat, len: nat)
    requires len <= src <= |s|
    ensures Shifted(s, src, src, len) == s
  {
  }

  /** The copying loop of Pick: `len` words ending at `src` are moved up to end at `dst`. */
  method MoveUp(data: array<u32>, src: nat, dst: nat, len: nat)
    requires len <= src < dst <= data.Length
    modifies data
    ensures data[..] == Shifted(old(data[..]), src, dst, len)
  {
    ghost var before := data[..];
    var s, tail, head := src, dst, dst - len;
    while tail != head
      invariant head <= tail <= dst && s == tail - (dst - src)
      invariant forall i | 0 <= i < tail || dst <= i < data.Length :: data[i] == before[i]
      invariant forall i | tail <= i < dst :: data[i] == before[i - (dst - src)]
      decreases tail
    {
      tail, s := tail - 1, s - 1;
      data[tail] := data[s];
    }
    ghost var after := Shifted(before, src, dst, len);
    assert |after| == data.Length;
    assert forall i | dst - len <= i < dst :: after[i] == before[i - (dst - src)];
    assert data[..] == after;
  }

  /** Moves the segment at `pos` up so that it ends at index `tail` of the contents. */
  method MoveSegment(buf: Buffer, pos: nat, len: nat, tail: nat) returns (pos': nat)
    requires buf.Valid() && 0 < len <= pos <= buf.Size() && buf.Size() - pos + len <= tail <= buf.Size()
    modifies buf.data
    ensures buf.Valid() && |buf.Contents()| == |old(buf.Contents())|
    ensures pos' == buf.Size() - (tail - len)
    ensures buf.Contents()[tail - len..] == Denote(Segment(pos, len), old(buf.Contents())) + old(buf.Contents())[tail..]
    ensures buf.Contents()[..buf.Size() - pos] == old(buf.Contents())[..buf.Size() - pos]
  {
    hide Shifted;
    var src, dst := buf.At(pos) + len, buf.off + tail;
    ghost var whole := buf.data[..];
    FromOffset(buf);
    pos' := pos;
    if dst > src {
      MoveUp(buf.data, src, dst, len);
      pos' := pos - (dst - src);
    } else {
      ShiftedNowhere(whole, src, len);
    }
    FromOffset(buf);
    MovedView(whole, buf.off, pos, len, tail, buf.data[..]);
  }

  lemma FromOffset(buf: Buffer)
    requires buf.Valid()
    ensures buf.Contents() == buf.data[..][buf.off..]
  {
  }

  /**
   Pick: a segment that fits its cell becomes inline; a longer one is moved up
   so that it ends at index `tail`, word by word from its last word.
   */
  method Pick(unit: Unit, buf: Buffer, tail: nat, m: nat) returns (unit': Unit, tail': nat)
    requires buf.Valid() && tail <= buf.Size() && InBounds(unit, buf.Contents())
    requires unit.Segment? ==> buf.Size() - unit.pos + unit.len <= tail
    modifies buf.data
    ensures buf.Valid() && |buf.Contents()| == |old(buf.Contents())|
    ensures unit.Inline? || unit.len <= m ==>
              && unit' == Inline(Denote(unit, old(buf.Contents()))) && tail' == tail
              && buf.Contents() == old(buf.Contents())
    ensures unit.Segment? && unit.len > m ==>
              && tail' == tail - unit.len && unit' == Segment(buf.Size() - tail', unit.len)
              && buf.Contents()[tail'..] == Denote(unit, old(buf.Contents())) + old(buf.Contents())[tail..]
              && buf.Contents()[..buf.Size() - unit.pos] == old(buf.Contents())[..buf.Size() - unit.pos]
  {
    unit', tail' := unit, tail;
    if unit.Inline? { return; }
    if unit.len <= m {
      var first := buf.At(unit.pos);
      unit' := Inline(buf.data[first..first + unit.len]);
      assert unit'.words == Denote(unit, buf.Contents());
    } else {
      var pos := MoveSegment(buf, unit.pos, unit.len, tail);
      unit' := Segment(pos, unit.len);
      tail' := tail - unit.len;
    }
  }

  /** The effect of the move, seen from the start of the used part. */
  lemma MovedView(whole: seq<u32>, off: nat, pos: nat, len: nat, tail: nat, after: seq<u32>)
    requires off <= |whole|
    requires var N := |whole| - off; 0 < len <= pos <= N && N - pos + len <= tail <= N
    requires after == Shifted(whole, |whole| - pos + len, off + tail, len)
    ensures var c, c' := whole[off..], after[off..];
            && |c'| == |c|
            && c'[tail - len..] == c[|c| - pos..|c| - pos + len] + c[tail..]
            && c'[..|c| - pos] == c[..|c| - pos]
  {
    var c, c', first, dst := whole[off..], after[off..], |whole| - pos, off + tail;
    var front, mid, back := whole[..dst - len], whole[first..first + len], whole[dst..];
    assert after == front + (mid + back);
    assert c'[tail - len..] == after[dst - len..] == mid + back;
    assert c[|c| - pos..|c| - pos + len] == mid;
    assert c[tail..] == back;
    assert c'[..|c| - pos] == after[off..first] == front[off..first] == c[..|c| - pos];
  }

  // ---------------------------------------------------------------------
  // The compaction pass
  // ---------------------------------------------------------------------

  /** Inline units fit the cells they will be given. */
  ghost predicate InlineFit(units: seq<Unit>, widths: seq<nat>) {
    |widths| == |units| && forall i | 0 <= i < |units| ::
      1 <= widths[i] <= 3 && (units[i].Inline? ==> |units[i].words| <= widths[i])
  }

  /** What Pick makes of unit `i`, given the items from `i` on and the words below them. */
  ghost function Picked(items: seq<Item>, i: nat, last: nat): Unit
    requires i < |items|
  {
    if items[i].Out() then Segment(last + |Kept(items[i..])|, |items[i].words|) else Inline(items[i].words)
  }

  lemma KeptFrom(items: seq<Item>, i: nat)
    requires i < |items|
    ensures Kept(items[i..]) == items[i].Moved() + Kept(items[i + 1..])
  {
    assert items[i..][1..] == items[i + 1..];
  }

  /** The next unit can be picked. */
  lemma StillReady(before: seq<u32>, now: seq<u32>, units: seq<Unit>, units': seq<Unit>, items: seq<Item>,
                   i: nat, tail: nat, last: nat)
    requires Tiled(units, before, 0) && i < |units| && Compacted(before, now, units, units', items, i + 1, tail, last)
    ensures |now| == |before| && tail <= |now| && |units'| == |units| && units'[i] == units[i]
    ensures InBounds(units[i], now) && Denote(units[i], now) == Denote(units[i], before)
    ensures units[i].Segment? ==> |now| - units[i].pos == SegSum(units[..i])
    ensures units[i].Segment? ==> |now| - units[i].pos + units[i].len <= tail
  {
    hide Kept, Tiled, SegSum, Picked, Denote, InBounds;
    StillThere(before, now, units, i);
  }

  lemma CompactEnd(before: seq<u32>, now: seq<u32>, units: seq<Unit>, units': seq<Unit>, items: seq<Item>, tail: nat,
                   last: nat)
    requires Compacted(before, now, units, units', items, 0, tail, last)
    ensures tail <= |now| && last <= |before| && now[tail..] == Kept(items) + before[|before| - last..]
    ensures |units'| == |units| == |items| && forall k | 0 <= k < |units| :: units'[k] == Picked(items, k, last)
  {
    hide Kept, SegSum, Picked;
    assert items[0..] == items;
  }

  /** State of the pass when units `i` and up have been picked. */
  ghost predicate Compacted(before: seq<u32>, now: seq<u32>, units: seq<Unit>, units': seq<Unit>,
                            items: seq<Item>, i: nat, tail: nat, last: nat) {
    && |now| == |before| && i <= |units| == |units'| == |items| && last <= |before|
    && SegSum(units[..i]) <= tail <= |now|
    && now[..SegSum(units[..i])] == before[..SegSum(units[..i])]
    && now[tail..] == Kept(items[i..]) + before[|before| - last..]
    && (forall k | 0 <= k < i :: units'[k] == units[k])
    && (forall k | i <= k < |units| :: units'[k] == Picked(items, k, last))
  }

  lemma CompactStart(before: seq<u32>, units: seq<Unit>, items: seq<Item>, last: nat)
    requires |items| == |units| && last <= |before| && SegSum(units) == |before| - last
    ensures Compacted(before, before, units, units, items, |units|, |before| - last, last)
  {
    assert units[..|units|] == units && items[|units|..] == [];
  }

  /** An unpicked unit still denotes its original words. */
  lemma StillThere(before: seq<u32>, now: seq<u32>, units: seq<Unit>, i: nat)
    requires Tiled(units, before, 0) && i < |units| && |now| == |before|
    requires SegSum(units[..i + 1]) <= |now| && now[..SegSum(units[..i + 1])] == before[..SegSum(units[..i + 1])]
    ensures InBounds(units[i], now) && Denote(units[i], now) == Denote(units[i], before)
    ensures units[i].Segment? ==> |now| - units[i].pos == SegSum(units[..i])
    ensures units[i].Segment? ==> |now| - units[i].pos + units[i].len == SegSum(units[..i + 1])
  {
    TiledAt(units, before, 0, i);
    if units[i].Segment? {
      var a, b := SegSum(units[..i]), SegSum(units[..i + 1]);
      assert now[a..b] == now[..b][a..b] && before[a..b] == before[..b][a..b];
    }
  }

  /** A unit that becomes or stays inline moves nothing. */
  lemma CompactInline(before: seq<u32>, now: seq<u32>, units: seq<Unit>, units': seq<Unit>, items: seq<Item>,
                      i: nat, tail: nat, last: nat)
    requires i < |units| && Compacted(before, now, units, units', items, i + 1, tail, last)
    requires !items[i].Out() && SegSum(units[..i]) <= SegSum(units[..i + 1])
    ensures Compacted(before, now, units, units'[i := Inline(items[i].words)], items, i, tail, last)
  {
    KeptFrom(items, i);
    var a, b := SegSum(units[..i]), SegSum(units[..i + 1]);
    assert now[..a] == now[..b][..a] && before[..a] == before[..b][..a];
    assert Picked(items, i, last) == Inline(items[i].words);
  }

  /** A unit that stays out of line ends right below the ones picked before it. */
  lemma CompactMoved(before: seq<u32>, now: seq<u32>, units: seq<Unit>, units': seq<Unit>, items: seq<Item>,
                     i: nat, tail: nat, last: nat, now': seq<u32>)
    requires i < |units| && Compacted(before, now, units, units', items, i + 1, tail, last)
    requires items[i].Out() && |now'| == |now|
    requires SegSum(units[..i]) + |items[i].words| == SegSum(units[..i + 1])
    requires now'[tail - |items[i].words|..] == items[i].words + now[tail..]
    requires now'[..SegSum(units[..i])] == now[..SegSum(units[..i])]
    ensures var tail' := tail - |items[i].words|;
            Compacted(before, now', units, units'[i := Segment(|now'| - tail', |items[i].words|)], items, i, tail',
                      last)
  {
    KeptFrom(items, i);
    var a, b, tail' := SegSum(units[..i]), SegSum(units[..i + 1]), tail - |items[i].words|;
    assert now[..a] == now[..b][..a] && before[..a] == before[..b][..a];
    var rest := before[|before| - last..];
    assert items[i].words + (Kept(items[i + 1..]) + rest) == Kept(items[i..]) + rest;
    assert |now'| - tail' == last + |Kept(items[i..])|;
  }

  lemma CompactStep(before: seq<u32>, now: seq<u32>, units: seq<Unit>, units': seq<Unit>, widths: seq<nat>,
                    i: nat, tail: nat, last: nat, now': seq<u32>, unit': Unit, tail': nat)
    requires Tiled(units, before, 0) && InlineFit(units, widths) && i < |units|
    requires Compacted(before, now, units, units', ItemsOf(units, widths, before), i + 1, tail, last)
    requires |now'| == |now|
    requires units[i].Inline? || units[i].len <= widths[i] ==>
               unit' == Inline(Denote(units[i], before)) && tail' == tail && now' == now
    requires units[i].Segment? && units[i].len > widths[i] ==>
               && units[i].len <= tail && tail' == tail - units[i].len && unit' == Segment(|now| - tail', units[i].len)
               && now'[tail'..] == Denote(units[i], before) + now[tail..]
               && SegSum(units[..i]) <= |now| && now'[..SegSum(units[..i])] == now[..SegSum(units[..i])]
    ensures Compacted(before, now', units, units'[i := unit'], ItemsOf(units, widths, before), i, tail', last)
  {
    hide Compacted, Kept, Tiled, SegSum;
    var items := ItemsOf(units, widths, before);
    TiledAt(units, before, 0, i);
    if units[i].Segment? && units[i].len > widths[i] {
      CompactMoved(before, now, units, units', items, i, tail, last, now');
    } else {
      CompactInline(before, now, units, units', items, i, tail, last);
    }
  }

  /** The first loop of SerializeArray and SerializeMap, and the Shrink after it. */
  method Compact(units: seq<Unit>, widths: seq<nat>, buf: Buffer, last: nat) returns (units': seq<Unit>)
    requires buf.Valid() && last <= buf.Size() && Tiled(units, buf.Contents(), 0)
    requires SegSum(units) == buf.Size() - last && InlineFit(units, widths)
    modifies buf, buf.data
    ensures buf.Valid() && buf.data == old(buf.data)
    ensures var items := ItemsOf(units, widths, old(buf.Contents()));
            && buf.Contents() == Kept(items) + old(buf.Contents())[old(buf.Size()) - last..]
            && |units'| == |units| && forall i | 0 <= i < |units| :: units'[i] == Picked(items, i, last)
  {
    hide Kept, Tiled, SegSum, Picked, Compacted, Denote, InBounds;
    ghost var before := buf.Contents();
    ghost var items := ItemsOf(units, widths, before);
    units' := units;
    var tail: nat := buf.Size() - last;
    CompactStart(before, units, items, last);
    var i := |units|;
    while i > 0
      invariant 0 <= i <= |units| && buf.Valid() && buf.data == old(buf.data) && buf.off == old(buf.off)
      invariant Compacted(before, buf.Contents(), units, units', items, i, tail, last)
      modifies buf.data
    {
      i := i - 1;
      ghost var now := buf.Contents();
      StillReady(before, now, units, units', items, i, tail, last);
      var unit', tail' := Pick(units'[i], buf, tail, widths[i]);
      CompactStep(before, now, units, units', widths, i, tail, last, buf.Contents(), unit', tail');
      units' := units'[i := unit'];
      tail := tail';
    }
    CompactEnd(before, buf.Contents(), units, units', items, tail, last);
    buf.Shrink(tail);
  }

  // ---------------------------------------------------------------------
  // The marking pass
  // ---------------------------------------------------------------------

  /** The cell Mark writes for a unit when the buffer holds `size` words. */
  function MarkCell(unit: Unit, m: nat, size: nat): seq<u32>
    requires m > 0 && (unit.Inline? ==> |unit.words| <= m) && (unit.Segment? ==> unit.pos <= size)
  {
    if unit.Segment? then [Offset(size + m - unit.pos)] + Zeros(m - 1) else unit.words + Zeros(m - |unit.words|)
  }

  /** The words of an inline unit, at the front of its cell. */
  method PokeAll(words: seq<u32>, buf: Buffer, m: nat)
    requires buf.Valid() && |words| <= m <= buf.Size()
    modifies buf.data
    ensures buf.Valid() && buf.Size() == old(buf.Size())
    ensures buf.Contents()[..|words|] == words && buf.Contents()[m..] == old(buf.Contents())[m..]
  {
    ghost var before := buf.Contents();
    var i := 0;
    while i < |words|
      invariant i <= |words| && buf.Valid() && buf.Size() == |before|
      invariant buf.Contents()[..i] == words[..i] && buf.Contents()[m..] == before[m..]
      modifies buf.data
    {
      buf.Poke(i, words[i]);
      i := i + 1;
    }
  }

  /** Mark: puts the cell of a unit in front of the buffer. */
  method Mark(unit: Unit, buf: Buffer, m: nat)
    requires buf.Valid() && m > 0 && (unit.Inline? ==> |unit.words| <= m)
    requires unit.Segment? ==> unit.pos <= buf.Size()
    modifies buf, buf.data
    ensures buf.Valid() && (buf.data == old(buf.data) || fresh(buf.data))
    ensures buf.Contents() == MarkCell(unit, m, old(buf.Size())) + old(buf.Contents())
  {
    ghost var before, size := buf.Contents(), buf.Size();
    buf.Expand(m);
    if unit.Segment? {
      buf.Poke(0, Offset(buf.Size() - unit.pos));
      Blank(buf, 1, m);
    } else {
      PokeAll(unit.words, buf, m);
      Blank(buf, |unit.words|, m);
    }
    MarkDone(unit, m, size, buf.Contents(), before);
  }

  lemma MarkDone(unit: Unit, m: nat, size: nat, now: seq<u32>, before: seq<u32>)
    requires m > 0 && (unit.Inline? ==> |unit.words| <= m) && (unit.Segment? ==> unit.pos <= size)
    requires |now| >= m && now[m..] == before
    requires unit.Segment? ==> now[..m] == [Offset(size + m - unit.pos)] + Zeros(m - 1)
    requires unit.Inline? ==> now[..m] == unit.words + Zeros(m - |unit.words|)
    ensures now == MarkCell(unit, m, size) + before
  {
    assert now == now[..m] + now[m..];
  }

  /** Clears the words of a cell from `i` to its end. */
  method Blank(buf: Buffer, i: nat, m: nat)
    requires buf.Valid() && i <= m <= buf.Size()
    modifies buf.data
    ensures buf.Valid() && buf.Size() == old(buf.Size())
    ensures buf.Contents()[..m] == old(buf.Contents())[..i] + Zeros(m - i)
    ensures buf.Contents()[m..] == old(buf.Contents())[m..]
  {
    ghost var before := buf.Contents();
    var k := i;
    while k < m
      invariant i <= k <= m && buf.Valid() && buf.Size() == |before|
      invariant buf.Contents()[..k] == before[..i] + Zeros(k - i) && buf.Contents()[k..] == before[k..]
      modifies buf.data
    {
      ghost var now := buf.Contents();
      buf.Poke(k, 0);
      assert now[k..] == before[k..] && now[k..][1..] == before[k..][1..];
      assert now[k..][1..] == now[k + 1..] && before[k..][1..] == before[k + 1..];
      assert buf.Contents()[..k + 1] == now[..k] + [0];
      assert Zeros(k + 1 - i) == Zeros(k - i) + [0];
      k := k + 1;
    }
  }

  /** State of the pass when the cells from `i` on are in front of the kept objects. */
  ghost predicate Marked(now: seq<u32>, items: seq<Item>, i: nat, rest: seq<u32>) {
    i <= |items| && now == Cells(items[i..], KeptSum(items[..i])) + (Kept(items) + rest)
  }

  lemma MarkStep(now: seq<u32>, items: seq<Item>, i: nat, rest: seq<u32>, cell: seq<u32>)
    requires i < |items| && Wide(items) && items[i].width > 0 && Marked(now, items, i + 1, rest)
    requires items[i].Out() ==> Picked(items, i, |rest|).pos <= |now|
    requires cell == MarkCell(Picked(items, i, |rest|), items[i].width, |now|)
    ensures Marked(cell + now, items, i, rest)
  {
    hide Cells, Kept, Item.Moved, Wide, Cell, MarkCell, Picked;
    assert items[i..][1..] == items[i + 1..];
    CellsStep(items[i..], KeptSum(items[..i]));
    KeptSumNext(items, i);
    var cells := Cells(items[i + 1..], KeptSum(items[..i + 1]));
    MarkedCell(items, i, rest, cells, now);
    Assoc(cell, cells, Kept(items) + rest);
  }

  /** The cell Mark writes is the cell of the layout. */
  lemma MarkedCell(items: seq<Item>, i: nat, rest: seq<u32>, cells: seq<u32>, now: seq<u32>)
    requires i < |items| && items[i].width > 0 && now == cells + (Kept(items) + rest)
    requires items[i].Out() ==> Picked(items, i, |rest|).pos <= |now|
    ensures MarkCell(Picked(items, i, |rest|), items[i].width, |now|)
            == Cell(items[i], items[i].width + |cells| + KeptSum(items[..i]))
  {
    hide Kept, Item.Moved, KeptSum;
    KeptSplit(items, i);
    if items[i].Out() {
      assert |now| + items[i].width - Picked(items, i, |rest|).pos == items[i].width + |cells| + KeptSum(items[..i]);
    }
  }

  lemma KeptSplit(items: seq<Item>, i: nat)
    requires i <= |items|
    ensures |Kept(items)| == KeptSum(items[..i]) + |Kept(items[i..])|
  {
    hide Kept, KeptSum;
    assert items[..i] + items[i..] == items;
    KeptAppend(items[..i], items[i..]);
    KeptSizes(items[..i]);
  }

  lemma KeptSumNext(items: seq<Item>, i: nat)
    requires i < |items|
    ensures KeptSum(items[..i + 1]) == KeptSum(items[..i]) + |items[i].Moved()|
  {
    hide Item.Moved;
    assert items[..i + 1] == items[..i] + [items[i]];
    SumsAppend(items[..i], [items[i]]);
  }

  lemma {:induction false} KeptSizes(items: seq<Item>)
    ensures |Kept(items)| == KeptSum(items)
  {
    hide Item.Moved;
    if items != [] { KeptSizes(items[1..]); }
  }

  /** The second loop of SerializeArray and SerializeMap. */
  method MarkAll(units: seq<Unit>, widths: seq<nat>, buf: Buffer, ghost items: seq<Item>, ghost rest: seq<u32>)
    requires buf.Valid() && buf.Contents() == Kept(items) + rest
    requires |units| == |widths| == |items| && Wide(items)
    requires forall i | 0 <= i < |units| :: items[i].width == widths[i] && units[i] == Picked(items, i, |rest|)
    modifies buf, buf.data
    ensures buf.Valid() && (buf.data == old(buf.data) || fresh(buf.data))
    ensures buf.Contents() == Cells(items, 0) + Kept(items) + rest
  {
    hide Kept, Cells, Item.Moved, MarkCell, Marked, Picked, Wide;
    MarkNone(items, rest);
    var i := |units|;
    while i > 0
      invariant 0 <= i <= |units| && buf.Valid() && (buf.data == old(buf.data) || fresh(buf.data))
      invariant Marked(buf.Contents(), items, i, rest)
    {
      i := i - 1;
      ghost var now := buf.Contents();
      PickedInBounds(items, i, rest, now);
      PickedFits(items, i, |rest|);
      Mark(units[i], buf, widths[i]);
      MarkStep(now, items, i, rest, MarkCell(units[i], widths[i], |now|));
    }
    MarkedAll(buf.Contents(), items, rest);
  }

  lemma PickedFits(items: seq<Item>, i: nat, last: nat)
    requires Wide(items) && i < |items|
    ensures var u, m := Picked(items, i, last), items[i].width;
            m > 0 && (u.Inline? ==> |u.words| <= m) && (u.Segment? <==> items[i].Out())
  {
    hide Kept;
  }

  lemma MarkedAll(now: seq<u32>, items: seq<Item>, rest: seq<u32>)
    requires Marked(now, items, 0, rest)
    ensures now == Cells(items, 0) + Kept(items) + rest
  {
    hide Cells, Kept;
    NothingKeptBefore(items);
    Assoc(Cells(items, 0), Kept(items), rest);
  }

  lemma NothingKeptBefore(items: seq<Item>)
    ensures KeptSum(items[..0]) == 0 && items[0..] == items
  {
  }

  lemma MarkNone(items: seq<Item>, rest: seq<u32>)
    ensures Marked(Kept(items) + rest, items, |items|, rest)
  {
    assert items[|items|..] == [];
  }

  lemma PickedInBounds(items: seq<Item>, i: nat, rest: seq<u32>, now: seq<u32>)
    requires i < |items| && Marked(now, items, i + 1, rest)
    ensures items[i].Out() ==> Picked(items, i, |rest|).pos <= |now|
  {
    assert items[..i] + items[i..] == items;
    KeptAppend(items[..i], items[i..]);
  }

  /** Both passes: cells in front of the objects that do not fit them. */
  method WriteCells(units: seq<Unit>, widths: seq<nat>, buf: Buffer, last: nat)
    requires buf.Valid() && last <= buf.Size() && Tiled(units, buf.Contents(), 0)
    requires SegSum(units) == buf.Size() - last && InlineFit(units, widths)
    modifies buf, buf.data
    ensures buf.Valid() && (buf.data == old(buf.data) || fresh(buf.data))
    ensures var items := ItemsOf(units, widths, old(buf.Contents()));
            buf.Contents() == Cells(items, 0) + Kept(items) + old(buf.Contents())[old(buf.Size()) - last..]
  {
    hide Cells, Kept, Tiled, SegSum, Picked;
    ghost var before := buf.Contents();
    ghost var items := ItemsOf(units, widths, before);
    var units' := Compact(units, widths, buf, last);
    MarkAll(units', widths, buf, items, before[|before| - last..]);
  }
}
