/**
 Where Detect ends: at the last moved object its loops meet, which is the end
 of the encoding exactly when that object was written last.
 */
module Extents {
  import opened Words
  import opened Swar
  import opened Layout
  import opened Units
  import opened Strings
  import opened Serialize
  import opened Messages
  import opened Schema
  import opened HashGraph
  import opened Arena
  import opened Decode
  import opened Visitor
  import opened Objects
  import opened Meaning
  import opened MapFinder
  import opened Detector

  // ---------------------------------------------------------------------
  // Header and cells of a message
  // ---------------------------------------------------------------------

  lemma ZeroFields(k: nat)
    ensures Sum(Fields(0, k)) == 0
  {
    NoFields(k);
  }

  lemma ShiftedFields(x: nat, k: nat, n: nat)
    ensures Sum(Fields(Shl2(x, k), k + n)) == Sum(Fields(x, n))
  {
    hide Sum, Fields, Shl2;
    Shl2Positive(k);
    FieldsJoin(0, x, k, n);
    SumAppend(Fields(0, k), Fields(x, n));
    ZeroFields(k);
  }

  lemma LowWidths(sec: nat)
    ensures Fields(sec % TWO50, 25) == Fields(sec, 25)
  {
    hide Fields, Shl2;
    var x, q := sec % TWO50, sec / TWO50;
    Shl2Known();
    Shl2Times(q, 25);
    FieldsJoin(x, q, 25, 0);
    NoneLeft(q);
    assert Fields(x, 25) + [] == Fields(x, 25);
  }

  lemma SmallShifts(v: nat, x: nat)
    ensures Shl2(v, 4) == 256 * v && Shl2(x, 7) == 0x4000 * x
  {
    assert Shl2(1, 4) == 256 && Shl2(1, 7) == 0x4000;
    Shl2Times(v, 4);
    Shl2Times(x, 7);
  }

  /** Message::Detect counts the same body as the scanning decoder. */
  lemma MessageTail(words: seq<u32>, at: nat)
    requires HeaderInside(words, at) && BodyStart(words, at) + BodyWords(words, at) <= |words|
    ensures MessageEnd(words, at) == BodyStart(words, at) + BodyWords(words, at)
  {
    hide Sum, Fields, Count32, Count64, Shl2;
    var section := words[at] % 256;
    if section == 0 {
      var v := words[at] / 256;
      SmallShifts(v, 0);
      Count32IsFieldSum(words[at]);
      ShiftedFields(v, 4, 12);
    } else {
      var sec := SectionWord(words, at, section - 1);
      SmallShifts(0, sec % TWO50);
      Count64IsFieldSum(DropBase(sec));
      ShiftedFields(sec % TWO50, 7, 25);
      LowWidths(sec);
    }
  }

  // ---------------------------------------------------------------------
  // Trees in order
  // ---------------------------------------------------------------------

  ghost predicate AscendingFields(fields: seq<(nat, Node)>) {
    forall i, k | 0 <= i < k < |fields| :: fields[i].0 < fields[k].0
  }

  ghost predicate AscendingPlans(plans: seq<FieldPlan>) {
    forall i, k | 0 <= i < k < |plans| :: plans[i].id < plans[k].id
  }

  /** Every field that has a value is known to the type. */
  ghost predicate Known(plans: seq<FieldPlan>, fields: seq<(nat, Node)>) {
    forall k | 0 <= k < |fields| :: fields[k].1.NoneNode? || exists i :: 0 <= i < |plans| && plans[i].id == fields[k].0
  }

  /** Fields are listed by ascending id, in the type and in every message. */
  ghost predicate InOrder(types: Types, tid: nat, node: Node)
    decreases node
  {
    match node
    case ArrayNode(_, elems) => forall i | 0 <= i < |elems| :: InOrder(types, ChildOf(types, tid), elems[i])
    case MapNode(_, _, entries) => forall i | 0 <= i < |entries| :: InOrder(types, ChildOf(types, tid), entries[i].1)
    case MessageNode(_, fields) =>
      && AscendingFields(fields) && AscendingPlans(PlansOf(types, tid)) && Known(PlansOf(types, tid), fields)
      && forall i | 0 <= i < |PlansOf(types, tid)| ::
           var plan := PlansOf(types, tid)[i];
           var k := FieldIndex(fields, plan.id, 0);
           k < |fields| ==> InOrder(types, plan.child, fields[k].1)
    case _ => true
  }

  // ---------------------------------------------------------------------
  // Strings and cells
  // ---------------------------------------------------------------------

  lemma StringExtent(words: seq<u32>, at: nat, bytes: seq<byte>)
    requires |bytes| < 0x4000_0000 && InAt(words, at, StringWords(bytes))
    ensures StringEnd(words, at) == at + |StringWords(bytes)|
  {
    hide ParseVar, VarInt, BytesOf, ParseBytes;
    StringTag(bytes);
    InAtWhole(words, at, StringWords(bytes));
    StringPlace(words, Loc(at, |words|), bytes);
    PackedLength(StringBytes(bytes));
  }

  /** Where the bytes of a string start. */
  lemma StringPlace(words: seq<u32>, loc: Loc, bytes: seq<byte>)
    requires |bytes| < 0x4000_0000 && InAt(words, loc.at, StringWords(bytes))
    requires loc.at + |StringWords(bytes)| <= loc.limit <= |words|
    ensures ParseBytes(words, loc) == Some((4 * loc.at + |VarInt(4 * |bytes|)|, |bytes|))
  {
    hide ParseVar, VarInt, BytesOf, PackWords;
    var slice := StringSlice(words, loc, bytes);
    HeaderParsed(slice, bytes);
    StringTag(bytes);
    BytesLength(words);
  }

  lemma ObjectOut(words: seq<u32>, at: nat, w: seq<u32>, a: nat, c: seq<u32>, d: nat)
    requires |words| < 0x4000_0000 && InAt(words, at, w) && PointsTo(w, a, c, d) && c != []
    ensures GetObject(words, at + a) == Some(at + a + d) && InAt(words, at + a + d, c)
  {
    InAtTrans(words, at, w, a + d, c);
    InAtIndex(words, at, w, a);
    assert words[at + a] == 4 * d + 3;
  }

  lemma ObjectInline(words: seq<u32>, at: nat, w: seq<u32>, a: nat, c: seq<u32>)
    requires InAt(words, at, w) && InAt(w, a, c) && c != [] && c[0] % 4 != 3
    ensures GetObject(words, at + a) == Some(at + a) && InAt(words, at + a, c)
  {
    InAtTrans(words, at, w, a, c);
    InAtIndex(words, at + a, c, 0);
  }

  /** The cell leads to item `i`, which lies behind the cells if it was moved, and inside them otherwise. */
  ghost predicate Found(words: seq<u32>, cell: nat, view: nat, items: seq<Item>, i: nat)
    requires i < |items|
  {
    var p := GetObject(words, cell);
    && p.Some? && InAt(words, p.value, items[i].words)
    && if items[i].Out() then p.value == view + KeptSum(items[..i]) else p.value + |items[i].words| <= view
  }

  /** Where a cell of an array or map leads: behind all cells and the objects moved before, or into the cell. */
  lemma ItemObject(words: seq<u32>, at: nat, head: seq<u32>, items: seq<Item>, i: nat)
    requires |words| < 0x4000_0000 && InAt(words, at, head + Cells(items, 0) + Kept(items)) && Wide(items)
    requires i < |items|
    requires items[i].words != [] && (|items[i].words| <= 3 ==> items[i].words[0] % 4 != 3)
    ensures Found(words, at + |head| + WidthSum(items[..i]), at + |head| + |Cells(items, 0)|, items, i)
  {
    hide Cells, Kept, WidthSum, KeptSum, Wide, InAt, GetObject, PointsTo, Outlined;
    var w, a, c := head + Cells(items, 0) + Kept(items), |head| + WidthSum(items[..i]), items[i].words;
    CellStored(head, items, i);
    ItemWide(items, i);
    if items[i].Out() {
      ObjectOut(words, at, w, a, c, |Cells(items, 0)| - WidthSum(items[..i]) + KeptSum(items[..i]));
    } else {
      ObjectInline(words, at, w, a, c);
    }
  }

  /**
   What Detect finds in cell `k`: a place inside its moved object, which is the
   end of the object exactly if the object is whole, or nothing beyond the cells.
   */
  ghost predicate Ends(t: nat, view: nat, items: seq<Item>, k: nat, whole: bool)
    requires k < |items|
  {
    if items[k].Out() then
      var start, end := view + KeptSum(items[..k]), view + KeptSum(items[..k]) + |items[k].words|;
      start < t <= end && (t == end <==> whole)
    else t <= view
  }

  lemma KeptNext(items: seq<Item>, k: nat)
    requires k < |items|
    ensures KeptSum(items[..k + 1]) == KeptSum(items[..k]) + if items[k].Out() then |items[k].words| else 0
  {
    KeptSumNext(items, k);
  }

  /** Item `k` is the last of the first `n` items that is moved. */
  ghost predicate LastOut(items: seq<Item>, n: nat, k: nat) {
    k < n <= |items| && items[k].Out() && forall j | k < j < n :: !items[j].Out()
  }

  /** The last moved item, if there is one, is whole. */
  ghost predicate LastWhole(items: seq<Item>, n: nat, wholes: seq<bool>)
    requires n <= |wholes|
  {
    forall k | 0 <= k < n && LastOut(items, n, k) :: wholes[k]
  }

  lemma LastWholeNext(items: seq<Item>, n: nat, wholes: seq<bool>)
    requires n < |items| == |wholes|
    ensures LastWhole(items, n + 1, wholes) <==> if items[n].Out() then wholes[n] else LastWhole(items, n, wholes)
  {
    if items[n].Out() {
      assert LastOut(items, n + 1, n);
    } else {
      assert forall k | 0 <= k < n :: LastOut(items, n + 1, k) <==> LastOut(items, n, k);
    }
  }

  /** How far Detect reaches into the moved items: to their end exactly if the last one is whole. */
  ghost predicate Reaches(r: nat, view: nat, items: seq<Item>, n: nat, wholes: seq<bool>)
    requires n <= |items| && n <= |wholes|
  {
    && view <= r <= view + KeptSum(items[..n])
    && (r == view + KeptSum(items[..n]) <==> LastWhole(items, n, wholes))
  }

  lemma ReachesNothing(view: nat, items: seq<Item>, wholes: seq<bool>)
    ensures Reaches(view, view, items, 0, wholes)
  {
    assert items[..0] == [];
  }

  /** One more cell: Detect stops at its object if that is moved. */
  lemma ReachesNext(t: nat, r: nat, view: nat, items: seq<Item>, n: nat, wholes: seq<bool>)
    requires n < |items| == |wholes| && Reaches(r, view, items, n, wholes)
    requires Ends(t, view, items, n, wholes[n])
    ensures Reaches(if t > view then t else r, view, items, n + 1, wholes)
  {
    hide KeptSum, LastWhole;
    KeptNext(items, n);
    LastWholeNext(items, n, wholes);
  }

  /** The loop over the cells of an array stops at the last moved object. */
  lemma {:induction false} CellsChain(words: seq<u32>, types: Types, kind: Kind, tid: nat, body: nat, width: nat,
        items: seq<Item>, n: nat, view: nat, wholes: seq<bool>)
    requires n <= |items| == |wholes|
    requires forall k | 0 <= k < n ::
               Ends(DetectCell(words, types, kind, tid, body + Prod(width, k)), view, items, k, wholes[k])
    ensures Reaches(DetectCells(words, types, kind, tid, body, width, n, view), view, items, n, wholes)
    decreases n
  {
    hide DetectCell, Prod, Reaches, Ends;
    if n == 0 {
      ReachesNothing(view, items, wholes);
    } else {
      CellsChain(words, types, kind, tid, body, width, items, n - 1, view, wholes);
      var t := DetectCell(words, types, kind, tid, body + Prod(width, n - 1));
      ReachesNext(t, DetectCells(words, types, kind, tid, body, width, n - 1, view), view, items, n - 1, wholes);
    }
  }

  /** What Detect finds in the pair of slot `s`. */
  ghost predicate PairEnds(words: seq<u32>, types: Types, child: nat, info: MapHeadInfo, items: seq<Item>,
                           wholes: seq<bool>, view: nat, s: nat)
    requires 2 * s + 1 < |items| == |wholes|
  {
    var key := info.body + Prod(info.keyWidth + info.valueWidth, s);
    && (if info.key.KString?
        then Ends(DetectCell(words, types, KString, 0, key), view, items, 2 * s, wholes[2 * s])
        else !items[2 * s].Out())
    && (if IsScalar(info.value)
        then !items[2 * s + 1].Out()
        else Ends(DetectCell(words, types, info.value, child, key + info.keyWidth), view, items, 2 * s + 1,
                  wholes[2 * s + 1]))
  }

  ghost predicate PairsEnd(words: seq<u32>, types: Types, child: nat, info: MapHeadInfo, items: seq<Item>,
                           wholes: seq<bool>, view: nat, n: nat) {
    2 * n <= |items| == |wholes| && forall s | 0 <= s < n :: PairEnds(words, types, child, info, items, wholes, view, s)
  }

  lemma StaysEnds(view: nat, items: seq<Item>, k: nat, whole: bool)
    requires k < |items| && !items[k].Out()
    ensures Ends(0, view, items, k, whole)
  {
  }

  /** The loop over the pairs of a map stops at the last moved object. */
  lemma {:induction false} PairsChain(words: seq<u32>, types: Types, child: nat, info: MapHeadInfo, items: seq<Item>,
                                      wholes: seq<bool>, n: nat, view: nat)
    requires PairsEnd(words, types, child, info, items, wholes, view, n)
    ensures Reaches(DetectPairs(words, types, child, info, n, view), view, items, 2 * n, wholes)
    decreases n
  {
    hide DetectCell, Prod, Reaches, Ends;
    if n == 0 {
      ReachesNothing(view, items, wholes);
    } else {
      PairsChain(words, types, child, info, items, wholes, n - 1, view);
      PairChain(words, types, child, info, items, wholes, n, view);
    }
  }

  /** One more pair. */
  lemma PairChain(words: seq<u32>, types: Types, child: nat, info: MapHeadInfo, items: seq<Item>,
                  wholes: seq<bool>, n: nat, view: nat)
    requires 0 < n && 2 * n <= |items| == |wholes| && PairEnds(words, types, child, info, items, wholes, view, n - 1)
    requires Reaches(DetectPairs(words, types, child, info, n - 1, view), view, items, 2 * n - 2, wholes)
    ensures Reaches(DetectPairs(words, types, child, info, n, view), view, items, 2 * n, wholes)
  {
    hide DetectCell, Prod, Reaches, Ends;
    var r := DetectPairs(words, types, child, info, n - 1, view);
    var key := info.body + Prod(info.keyWidth + info.valueWidth, n - 1);
    var k := if info.key.KString? then DetectCell(words, types, KString, 0, key) else 0;
    var v := if IsScalar(info.value) then 0 else DetectCell(words, types, info.value, child, key + info.keyWidth);
    if !info.key.KString? { StaysEnds(view, items, 2 * n - 2, wholes[2 * n - 2]); }
    if IsScalar(info.value) { StaysEnds(view, items, 2 * n - 1, wholes[2 * n - 1]); }
    ReachesNext(k, r, view, items, 2 * n - 2, wholes);
    ReachesNext(v, if k > view then k else r, view, items, 2 * n - 1, wholes);
  }

  // ---------------------------------------------------------------------
  // Fields of a message
  // ---------------------------------------------------------------------

  /** Field `id` is stored behind the cells. */
  ghost predicate MovedAt(fields: seq<(nat, Node)>, cs: seq<seq<u32>>, id: nat)
    requires |fields| == |cs|
  {
    var k := FieldIndex(fields, id, 0);
    k < |fields| && |cs[k]| > 3
  }

  /** What Detect finds in a field: like in a cell, with the moved fields in the order they are listed. */
  ghost predicate FieldEnds(t: nat, view: nat, fields: seq<(nat, Node)>, cs: seq<seq<u32>>, id: nat, whole: bool)
    requires |fields| == |cs|
  {
    if MovedAt(fields, cs, id) then
      var k := FieldIndex(fields, id, 0);
      var start, end := view + OutTotal(cs[..k]), view + OutTotal(cs[..k]) + |cs[k]|;
      start < t <= end && (t == end <==> whole)
    else t <= view
  }

  /** Field `i` is the last of the first `n` fields of the type that is moved. */
  ghost predicate LastPlanned(plans: seq<FieldPlan>, fields: seq<(nat, Node)>, cs: seq<seq<u32>>, n: nat, i: nat)
    requires |fields| == |cs|
  {
    && i < n <= |plans| && MovedAt(fields, cs, plans[i].id)
    && forall j | i < j < n :: !MovedAt(fields, cs, plans[j].id)
  }

  /** The generated code stops at the last field of the type that is moved. */
  lemma {:induction false} FieldsChain(words: seq<u32>, types: Types, plans: seq<FieldPlan>, at: nat, n: nat, view: nat,
        fields: seq<(nat, Node)>, cs: seq<seq<u32>>, wholes: seq<bool>) returns (last: Option<nat>)
    requires HeaderInside(words, at) && n <= |plans| == |wholes| && |fields| == |cs|
    requires forall i | 0 <= i < n ::
               FieldEnds(DetectField(words, types, plans[i], at), view, fields, cs, plans[i].id, wholes[i])
    ensures var r := DetectFields(words, types, plans, at, n, view);
            match last
            case None => r == view && forall i | 0 <= i < n :: !MovedAt(fields, cs, plans[i].id)
            case Some(i) => LastPlanned(plans, fields, cs, n, i) && r == DetectField(words, types, plans[i], at)
    decreases n
  {
    hide DetectField, MovedAt, OutTotal;
    last := None;
    if n > 0 {
      var t, id := DetectField(words, types, plans[n - 1], at), plans[n - 1].id;
      assert FieldEnds(t, view, fields, cs, id, wholes[n - 1]);
      if t > view {
        last := Some(n - 1);
      } else {
        last := FieldsChain(words, types, plans, at, n - 1, view, fields, cs, wholes);
      }
    }
  }

  /** Item `k` is the last listed field that is moved. */
  ghost predicate LastMoved(cs: seq<seq<u32>>, k: nat) {
    k < |cs| && |cs[k]| > 3 && forall j | k < j < |cs| :: |cs[j]| <= 3
  }

  lemma {:induction false} NothingMoved(cs: seq<seq<u32>>)
    ensures OutTotal(cs) == 0 <==> forall k | 0 <= k < |cs| :: |cs[k]| <= 3
  {
    if cs != [] {
      NothingMoved(cs[1..]);
      assert forall k | 0 < k < |cs| :: cs[k] == cs[1..][k - 1];
      assert |cs[0]| <= 3 && (forall k | 0 <= k < |cs[1..]| :: |cs[1..][k]| <= 3) ==>
          forall k | 0 <= k < |cs| :: |cs[k]| <= 3;
    }
  }

  /** The words of the moved fields end with field `k` exactly if it is the last one. */
  lemma MovedEnd(cs: seq<seq<u32>>, k: nat)
    requires k < |cs| && |cs[k]| > 3
    ensures OutTotal(cs[..k]) + |cs[k]| <= OutTotal(cs)
    ensures OutTotal(cs[..k]) + |cs[k]| == OutTotal(cs) <==> LastMoved(cs, k)
  {
    OutSplit(cs, k);
    assert cs[k..][0] == cs[k] && cs[k..][1..] == cs[k + 1..];
    NothingMoved(cs[k + 1..]);
    assert forall j | k < j < |cs| :: cs[j] == cs[k + 1..][j - k - 1];
  }

  lemma {:induction false} SomeLast(cs: seq<seq<u32>>, k: nat) returns (last: nat)
    requires k < |cs| && |cs[k]| > 3
    ensures LastMoved(cs, last)
    decreases |cs| - k
  {
    if j :| k < j < |cs| && |cs[j]| > 3 { last := SomeLast(cs, j); } else { last := k; }
  }

  // ---------------------------------------------------------------------
  // When the end is exact
  // ---------------------------------------------------------------------

  ghost function MapItemsOf(plan: MapPlan): seq<Item>
    requires |plan.ks| == |plan.vs|
  {
    MapItems(plan.ks, plan.vs, BestWidth(Lens(plan.ks)), BestWidth(Lens(plan.vs)))
  }

  ghost function ArrayItemsOf(ws: seq<seq<u32>>): seq<Item> { ArrayItems(ws, BestWidth(Lens(ws))) }

  /**
   The object that Detect stops at is the one written last, at every level: in
   arrays and maps the last moved one is whole, and in messages the last listed
   field that is moved is also the last moved one of the type, and whole.
   */
  ghost predicate Whole(types: Types, tid: nat, node: Node, c: seq<u32>, hash: Hash)
    decreases node, 1
  {
    match node
    case ArrayNode(_, _) =>
      exists ws: seq<seq<u32>> :: EncArray(node, ws, c, hash) && WholeElements(types, tid, node, ws, hash)
    case MapNode(_, _, entries) =>
      entries == [] || exists plan: MapPlan :: EncMap(node, plan, c, hash) && WholeEntries(types, tid, node, plan, hash)
    case MessageNode(_, _) =>
      exists plan: MessagePlan :: EncMessage(node, plan, c, hash) && WholeFields(types, tid, node, plan.cs, hash)
    case _ => true
  }

  ghost predicate WholeElements(types: Types, tid: nat, node: Node, ws: seq<seq<u32>>, hash: Hash)
    requires node.ArrayNode? && |ws| == |node.elems|
    decreases node, 0
  {
    forall i | 0 <= i < |ws| && LastOut(ArrayItemsOf(ws), |ws|, i) ::
      Whole(types, ChildOf(types, tid), node.elems[i], ws[i], hash)
  }

  ghost predicate WholeEntries(types: Types, tid: nat, node: Node, plan: MapPlan, hash: Hash)
    requires node.MapNode? && |plan.ks| == |plan.vs| == |plan.order| == |node.entries|
    requires forall s | 0 <= s < |plan.order| :: plan.order[s] < |node.entries|
    decreases node, 0
  {
    forall s | 0 <= s < |plan.order| && LastOut(MapItemsOf(plan), 2 * |plan.order|, 2 * s + 1) ::
      Whole(types, ChildOf(types, tid), node.entries[plan.order[s]].1, plan.vs[s], hash)
  }

  ghost predicate WholeFields(types: Types, tid: nat, node: Node, cs: seq<seq<u32>>, hash: Hash)
    requires node.MessageNode? && |cs| == |node.fields|
    decreases node, 0
  {
    forall k | 0 <= k < |cs| && LastMoved(cs, k) ::
      exists i: nat :: i < |PlansOf(types, tid)| && LastKnown(types, tid, node.fields, cs, k, i)
                       && Whole(types, PlansOf(types, tid)[i].child, node.fields[k].1, cs[k], hash)
  }

  /** Field `i` of the type is its last moved one, and stored as the `k`-th listed field. */
  ghost predicate LastKnown(types: Types, tid: nat, fields: seq<(nat, Node)>, cs: seq<seq<u32>>, k: nat, i: nat)
    requires |fields| == |cs|
  {
    var plans := PlansOf(types, tid);
    k < |fields| && LastPlanned(plans, fields, cs, |plans|, i) && plans[i].id == fields[k].0
  }
}
