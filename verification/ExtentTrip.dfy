/**
 Detect never leaves the words of a tree, and returns all of them exactly when
 every object it stops at was written last.
 */
module ExtentTrip {
  import opened Words
  import opened Swar
  import opened Layout
  import opened Strings
  import opened Serialize
  import opened Messages
  import opened Schema
  import opened HashGraph
  import opened HashBuild
  import opened HashIndex
  import opened Arena
  import opened Decode
  import opened Visitor
  import opened Objects
  import opened Headers
  import opened Meaning
  import opened ArrayTrip
  import opened MapTrip
  import opened MessageTrip
  import opened MapFinder
  import opened Detector
  import opened Extents

  /** The detected end lies inside the words `c` at `at`, and at their end exactly if they are whole. */
  ghost predicate Judged(end: nat, at: nat, c: seq<u32>, whole: bool) {
    at < end <= at + |c| && (end == at + |c| <==> whole)
  }

  // ---------------------------------------------------------------------
  // Arrays
  // ---------------------------------------------------------------------

  lemma DetectArray(words: seq<u32>, types: Types, tid: nat, at: nat)
    requires tid < |types| && types[tid].ArrayType? && at < |words|
    ensures var value, view := types[tid].value, ArrayEnd(words, at);
            DetectObject(words, types, KArray, tid, at) ==
              if value.KBool? then StringEnd(words, at)
              else if IsScalar(value) || view == 0 then view
              else DetectCells(words, types, value, types[tid].child, at + 1, words[at] % 4, words[at] / 4, view)
  {
    hide ArrayEnd, StringEnd, DetectCells, MessageEnd, MapEnd, DetectPairs, DetectFields;
  }

  lemma ScalarsExtent(words: seq<u32>, types: Types, tid: nat, at: nat, node: Node, hash: Hash)
    requires node.ScalarsNode? && Formed(node) && Typed(types, KArray, tid, node)
    requires InAt(words, at, ScalarsWords(node.kind, node.items))
    ensures DetectObject(words, types, KArray, tid, at) == at + |ScalarsWords(node.kind, node.items)|
  {
    hide Concat, Prod, ArrayEnd, StringEnd, DetectObject, InAt;
    ScalarsView(words, at, node.kind, node.items);
    DetectArray(words, types, tid, at);
  }

  lemma ScalarsView(words: seq<u32>, at: nat, kind: Kind, items: seq<seq<u32>>)
    requires IsScalar(kind) && |items| < 0x1000_0000 && (forall i | 0 <= i < |items| :: |items[i]| == ScalarWidth(kind))
    requires InAt(words, at, ScalarsWords(kind, items))
    ensures at < |words| && ArrayEnd(words, at) == at + |ScalarsWords(kind, items)|
  {
    hide Concat, Prod, ScalarWidth, InAt, ScalarsHead;
    var m, c := ScalarWidth(kind), ScalarsWords(kind, items);
    ConcatAt(items, m, 0);
    InAtIndex(words, at, c, 0);
    InAtWhole(words, at, c);
    ScalarsHeader(kind, |items|);
  }

  lemma ScalarsHeader(kind: Kind, n: nat)
    requires IsScalar(kind) && n < 0x1000_0000
    ensures ScalarsHead(kind, n) % 4 == ScalarWidth(kind) > 0 && ScalarsHead(kind, n) / 4 == n
  {
  }

  /** The part of an array in front of its moved elements. */
  lemma ArrayView(words: seq<u32>, at: nat, ws: seq<seq<u32>>)
    requires |ws| < 0x4000_0000 && InAt(words, at, ArrayWords(ws))
    ensures at < |words| && words[at] % 4 == WidthOf(ws) && words[at] / 4 == |ws|
    ensures ArrayEnd(words, at) == at + 1 + Prod(WidthOf(ws), |ws|) > 0
  {
    hide ArrayWords, Prod, BestWidth;
    ArrayShape(ws);
    InAtIndex(words, at, ArrayWords(ws), 0);
    InAtWhole(words, at, ArrayWords(ws));
  }

  lemma ArrayParts(ws: seq<seq<u32>>)
    requires ws != []
    ensures var m := BestWidth(Lens(ws));
            var items, head := ArrayItems(ws, m), [(4 * |ws| + m) % 0x1_0000_0000];
            && 1 <= m <= 3 && Wide(items) && ArrayWords(ws) == head + Cells(items, 0) + Kept(items)
            && |Cells(items, 0)| == Prod(m, |ws|) && |ArrayWords(ws)| == 1 + Prod(m, |ws|) + KeptSum(items)
            && forall i | 0 <= i < |ws| :: WidthSum(items[..i]) == Prod(m, i)
  {
    hide Cells, Kept, BestWidth, Prod, WidthSum, KeptSum;
    BestBounds(Lens(ws));
    var m := BestWidth(Lens(ws));
    var items := ArrayItems(ws, m);
    Sizes(items, 0);
    EqualWidths(items, m);
    forall i | 0 <= i < |ws| ensures WidthSum(items[..i]) == Prod(m, i) {
      EqualWidths(items[..i], m);
    }
  }

  /** Extent of an array of objects, from the extents of its elements. */
  lemma ArrayExtent(words: seq<u32>, types: Types, tid: nat, at: nat, node: Node, ws: seq<seq<u32>>, wholes: seq<bool>)
    requires node.ArrayNode? && InAt(words, at, ArrayWords(ws)) && |ws| == |node.elems| == |wholes| < 0x4000_0000
    requires tid < |types| && types[tid].ArrayType? && types[tid].value == node.kind && !IsScalar(node.kind)
    requires forall i | 0 <= i < |ws| :: ElementReached(words, types, node.kind, types[tid].child, at, ws, i, wholes[i])
    ensures Judged(DetectObject(words, types, KArray, tid, at), at, ArrayWords(ws),
                   LastWhole(ArrayItemsOf(ws), |ws|, wholes))
  {
    hide ArrayWords, Prod, DetectCell, ArrayEnd, DetectCells, DetectObject, InAt, LastWhole, ElementReached, Judged,
        ArrayItemsOf, WidthOf;
    ArrayView(words, at, ws);
    DetectArray(words, types, tid, at);
    if ws == [] {
      EmptyArrayReached(words, types, node.kind, types[tid].child, at, words[at] % 4, ArrayEnd(words, at), wholes);
    } else {
      SameWidth(ws);
      ElementsReached(words, types, node.kind, types[tid].child, at, ws, wholes);
    }
  }

  lemma EmptyArrayReached(words: seq<u32>, types: Types, kind: Kind, child: nat, at: nat, width: nat, view: nat,
                          wholes: seq<bool>)
    requires view == at + 1 + Prod(WidthOf([]), 0)
    ensures Judged(DetectCells(words, types, kind, child, at + 1, width, 0, view), at, ArrayWords([]),
                   LastWhole(ArrayItemsOf([]), 0, wholes))
  {
    hide ArrayWords, Prod, DetectCells, LastWhole, ArrayItemsOf, WidthOf;
    NoElements();
    ProdZero(WidthOf([]));
    NoCells(words, types, kind, child, at + 1, width, view);
    NoneLast(ArrayItemsOf([]), wholes);
  }

  lemma SameWidth(ws: seq<seq<u32>>)
    requires ws != []
    ensures WidthOf(ws) == BestWidth(Lens(ws))
  {
  }

  /** The loop over the cells of an array, from what is found in each. */
  lemma ElementsReached(words: seq<u32>, types: Types, kind: Kind, child: nat, at: nat, ws: seq<seq<u32>>,
                        wholes: seq<bool>)
    requires ws != [] && |ws| == |wholes|
    requires forall i | 0 <= i < |ws| :: ElementReached(words, types, kind, child, at, ws, i, wholes[i])
    ensures var m := BestWidth(Lens(ws));
            Judged(DetectCells(words, types, kind, child, at + 1, m, |ws|, at + 1 + Prod(m, |ws|)), at, ArrayWords(ws),
                   LastWhole(ArrayItemsOf(ws), |ws|, wholes))
  {
    hide ArrayWords, Prod, BestWidth, DetectCell, Ends, KeptSum, DetectCells, LastWhole, Cells, Kept, Wide, WidthSum;
    ArrayParts(ws);
    var m, items := BestWidth(Lens(ws)), ArrayItemsOf(ws);
    var view := at + 1 + Prod(m, |ws|);
    forall i | 0 <= i < |ws|
      ensures Ends(DetectCell(words, types, kind, child, at + 1 + Prod(m, i)), view, items, i, wholes[i])
    {
      assert ElementReached(words, types, kind, child, at, ws, i, wholes[i]);
    }
    CellsChain(words, types, kind, child, at + 1, m, items, |ws|, view, wholes);
    assert items[..|ws|] == items;
  }

  lemma NoneLast(items: seq<Item>, wholes: seq<bool>)
    ensures LastWhole(items, 0, wholes)
  {
  }

  /** What Detect finds in the cell of element `i`. */
  ghost predicate ElementReached(words: seq<u32>, types: Types, kind: Kind, child: nat, at: nat, ws: seq<seq<u32>>,
                                 i: nat, whole: bool)
    requires i < |ws|
  {
    Ends(DetectCell(words, types, kind, child, at + 1 + Prod(BestWidth(Lens(ws)), i)),
         at + 1 + Prod(BestWidth(Lens(ws)), |ws|), ArrayItemsOf(ws), i, whole)
  }

  lemma NoCells(words: seq<u32>, types: Types, kind: Kind, child: nat, body: nat, width: nat, view: nat)
    ensures DetectCells(words, types, kind, child, body, width, 0, view) == view
  {
  }

  /** What Detect finds in the cell of an element, given what it finds in the element. */
  lemma ElementEnds(words: seq<u32>, types: Types, kind: Kind, child: nat, at: nat, ws: seq<seq<u32>>, i: nat, p: nat,
                    whole: bool)
    requires |words| < 0x4000_0000 && InAt(words, at, ArrayWords(ws)) && i < |ws|
    requires ws[i] != [] && (|ws[i]| <= 3 ==> ws[i][0] % 4 != 3)
    requires GetObject(words, at + 1 + Prod(BestWidth(Lens(ws)), i)) == Some(p)
    requires Judged(DetectObject(words, types, kind, child, p), p, ws[i], whole)
    ensures ElementReached(words, types, kind, child, at, ws, i, whole)
  {
    hide ArrayWords, Prod, BestWidth, DetectObject, GetObject, Cells, Kept, KeptSum, WidthSum, Wide, InAt;
    ArrayParts(ws);
    var m := BestWidth(Lens(ws));
    ItemObject(words, at, [(4 * |ws| + m) % 0x1_0000_0000], ArrayItems(ws, m), i);
  }

  /** Where the cell of an element leads. */
  lemma ElementObject(words: seq<u32>, at: nat, ws: seq<seq<u32>>, i: nat) returns (p: nat)
    requires |words| < 0x4000_0000 && InAt(words, at, ArrayWords(ws)) && i < |ws|
    requires ws[i] != [] && (|ws[i]| <= 3 ==> ws[i][0] % 4 != 3)
    ensures GetObject(words, at + 1 + Prod(BestWidth(Lens(ws)), i)) == Some(p) && InAt(words, p, ws[i])
  {
    hide ArrayWords, Prod, BestWidth, GetObject, Cells, Kept, KeptSum, WidthSum, Wide, InAt;
    ArrayParts(ws);
    var m := BestWidth(Lens(ws));
    ItemObject(words, at, [(4 * |ws| + m) % 0x1_0000_0000], ArrayItems(ws, m), i);
    p := GetObject(words, at + 1 + Prod(m, i)).value;
  }

  // ---------------------------------------------------------------------
  // Maps
  // ---------------------------------------------------------------------

  lemma MapParts(plan: MapPlan)
    requires |plan.ks| == |plan.vs| && |plan.index| > 0 && WordAt(plan.index, 0) < 0x1000_0000
    ensures var m1, m2, items := BestWidth(Lens(plan.ks)), BestWidth(Lens(plan.vs)), MapItemsOf(plan);
            && 1 <= m1 <= 3 && 1 <= m2 <= 3 && |items| == 2 * |plan.ks|
            && MapWords(plan.index, plan.ks, plan.vs) == MapHead(plan.index, m1, m2) + Cells(items, 0) + Kept(items)
            && |MapHead(plan.index, m1, m2)| == WordSize(|plan.index|)
  {
    hide Cells, Kept, BestWidth, MapHead, Lens;
    BestBounds(Lens(plan.ks));
    BestBounds(Lens(plan.vs));
    HeadSize(plan.index, BestWidth(Lens(plan.ks)), BestWidth(Lens(plan.vs)));
  }

  lemma MapSizes(plan: MapPlan)
    requires |plan.ks| == |plan.vs| && plan.ks != []
    ensures var m, items := BestWidth(Lens(plan.ks)) + BestWidth(Lens(plan.vs)), MapItemsOf(plan);
            Wide(items) && |Cells(items, 0)| == Prod(m, |plan.ks|) && |Kept(items)| == KeptSum(items)
  {
    hide Cells, Kept, BestWidth, Prod, WidthSum, KeptSum, MapItems, Wide, Lens;
    BestBounds(Lens(plan.ks));
    BestBounds(Lens(plan.vs));
    var m1, m2, items := BestWidth(Lens(plan.ks)), BestWidth(Lens(plan.vs)), MapItemsOf(plan);
    SlotItems(plan.ks, plan.vs, m1, m2, 0);
    Sizes(items, 0);
    PairWidths(items, m1, m2, |plan.ks|);
    assert items[..2 * |plan.ks|] == items;
  }

  /** The cells of slot `s`. */
  lemma SlotCells(plan: MapPlan, s: nat)
    requires |plan.ks| == |plan.vs| && s < |plan.ks|
    ensures var m1, m2, items := BestWidth(Lens(plan.ks)), BestWidth(Lens(plan.vs)), MapItemsOf(plan);
            && |items| == 2 * |plan.ks| && items[2 * s] == Item(plan.ks[s], m1)
               && items[2 * s + 1] == Item(plan.vs[s], m2)
            && WidthSum(items[..2 * s]) == Prod(m1 + m2, s) && WidthSum(items[..2 * s + 1]) == Prod(m1 + m2, s) + m1
  {
    hide BestWidth, Prod, WidthSum, MapItems, Lens;
    BestBounds(Lens(plan.ks));
    BestBounds(Lens(plan.vs));
    var m1, m2, items := BestWidth(Lens(plan.ks)), BestWidth(Lens(plan.vs)), MapItemsOf(plan);
    SlotItems(plan.ks, plan.vs, m1, m2, s);
    PairWidths(items, m1, m2, s);
  }

  /** Where the key and value cells of a slot lead. */
  lemma SlotObject(words: seq<u32>, at: nat, plan: MapPlan, s: nat, value: bool)
    requires |words| < 0x4000_0000 && |plan.ks| == |plan.vs| && |plan.index| > 0 && WordAt(plan.index, 0) < 0x1000_0000
    requires InAt(words, at, MapWords(plan.index, plan.ks, plan.vs)) && s < |plan.ks|
    requires var c := if value then plan.vs[s] else plan.ks[s]; c != [] && (|c| <= 3 ==> c[0] % 4 != 3)
    ensures |MapItemsOf(plan)| == 2 * |plan.ks|
    ensures Found(words, SlotCell(at, plan, s, value), SlotCell(at, plan, |plan.ks|, false), MapItemsOf(plan),
          if value then 2 * s + 1 else 2 * s)
  {
    hide BestWidth, Prod, WidthSum, KeptSum, Cells, Kept, MapHead, MapWords, MapItemsOf, InAt, GetObject, Wide, Lens,
        Found;
    MapParts(plan);
    MapSizes(plan);
    SlotCells(plan, s);
    var m1, m2, items := BestWidth(Lens(plan.ks)), BestWidth(Lens(plan.vs)), MapItemsOf(plan);
    ItemObject(words, at, MapHead(plan.index, m1, m2), items, if value then 2 * s + 1 else 2 * s);
  }

  /** Index of the key or value cell of a slot. */
  ghost function SlotCell(at: nat, plan: MapPlan, s: nat, value: bool): nat {
    var m1, m2 := BestWidth(Lens(plan.ks)), BestWidth(Lens(plan.vs));
    at + WordSize(|plan.index|) + Prod(m1 + m2, s) + if value then m1 else 0
  }

  lemma DetectMap(words: seq<u32>, types: Types, tid: nat, at: nat)
    requires tid < |types| && types[tid].MapType? && at < |words|
    ensures var view, info := MapEnd(words, at), MapInfo(words, types[tid].key, types[tid].value, at);
            DetectObject(words, types, KMap, tid, at) ==
              if view == 0 || (!types[tid].key.KString? && IsScalar(types[tid].value)) then view
              else DetectPairs(words, types, types[tid].child, info, info.count, view)
  {
    hide ArrayEnd, StringEnd, DetectCells, MessageEnd, MapEnd, DetectPairs, DetectFields, MapInfo;
  }

  /** The part of a map in front of its moved keys and values. */
  lemma MapView(words: seq<u32>, types: Types, tid: nat, at: nat, node: Node, plan: MapPlan, hash: Hash)
    requires MapPlaced(words, types, tid, Loc(at, |words|), node, plan, hash)
    ensures at < |words|
    ensures var info := MapInfo(words, node.keyKind, node.valueKind, at);
            && info.body == at + WordSize(|plan.index|) && info.count == |plan.ks| == |plan.vs|
            && info.keyWidth == BestWidth(Lens(plan.ks)) && info.valueWidth == BestWidth(Lens(plan.vs))
            && MapEnd(words, at) == info.body + Prod(info.keyWidth + info.valueWidth, |plan.ks|) > 0
  {
    hide MapWords, Prod, BestWidth, EncMap, Formed, Typed, Locate, IndexImage, IndexBytes, OpenMap, IndexByteLength,
        InAt, RealSize;
    Opened(words, types, tid, Loc(at, |words|), node, plan, hash, KString, KString, []);
    InfoShape(words, at, node.keyKind, node.valueKind);
    PlacedSlots(words, types, tid, Loc(at, |words|), node, plan, hash);
    PlanIndex(node, plan, hash);
    MapHeader(words, Loc(at, |words|), plan.index, plan.ks, plan.vs, node.keyKind, node.valueKind);
  }

  lemma {:induction false} NoneMoved(items: seq<Item>)
    requires forall k | 0 <= k < |items| :: !items[k].Out()
    ensures KeptSum(items) == 0
  {
    if items != [] { NoneMoved(items[1..]); }
  }

  /** Extent of a map, from what Detect finds in its pairs. */
  lemma MapExtent(words: seq<u32>, types: Types, tid: nat, at: nat, node: Node, plan: MapPlan, hash: Hash,
                  wholes: seq<bool>)
    requires MapPlaced(words, types, tid, Loc(at, |words|), node, plan, hash) && at < |words|
    requires tid < |types| && types[tid].MapType? && |MapItemsOf(plan)| == 2 * |plan.ks| == |wholes|
    requires PairsEnd(words, types, types[tid].child, MapInfo(words, node.keyKind, node.valueKind, at),
                      MapItemsOf(plan),
                      wholes, SlotCell(at, plan, |plan.ks|, false), |plan.ks|)
    ensures Judged(DetectObject(words, types, KMap, tid, at), at, MapWords(plan.index, plan.ks, plan.vs),
                   LastWhole(MapItemsOf(plan), 2 * |plan.ks|, wholes))
  {
    hide MapWords, Prod, BestWidth, EncMap, Formed, Typed, IndexByteLength, MapEnd, DetectObject, DetectPairs, MapHead,
          KeptSum, Cells, Kept, Wide, MapInfo, MapItemsOf, PairsEnd, Placed, Lens, LastWhole;
    MapTyped(types, tid, node);
    MapView(words, types, tid, at, node, plan, hash);
    DetectMap(words, types, tid, at);
    MapParts(plan);
    PlacedSlots(words, types, tid, Loc(at, |words|), node, plan, hash);
    MapSizes(plan);
    var info, items, view := MapInfo(words, node.keyKind, node.valueKind, at), MapItemsOf(plan), MapEnd(words, at);
    PairsChain(words, types, types[tid].child, info, items, wholes, |plan.ks|, view);
    assert items[..2 * |plan.ks|] == items;
    if !node.keyKind.KString? && IsScalar(node.valueKind) {
      KindsOf(words, node.keyKind, node.valueKind, at);
      ScalarsStay(words, types, types[tid].child, info, items, wholes, view, |plan.ks|);
    }
  }

  lemma ScalarsStay(words: seq<u32>, types: Types, child: nat, info: MapHeadInfo, items: seq<Item>, wholes: seq<bool>,
                    view: nat, n: nat)
    requires PairsEnd(words, types, child, info, items, wholes, view, n)
    requires |items| == 2 * n && !info.key.KString? && IsScalar(info.value)
    ensures KeptSum(items) == 0 && LastWhole(items, 2 * n, wholes)
  {
    hide DetectCell, KeptSum;
    forall k | 0 <= k < |items| ensures !items[k].Out() {
      var s := k / 2;
      assert PairEnds(words, types, child, info, items, wholes, view, s);
      assert k == 2 * s || k == 2 * s + 1;
    }
    NoneMoved(items);
  }

  lemma KindsOf(words: seq<u32>, key: Kind, value: Kind, at: nat)
    requires at < |words|
    ensures MapInfo(words, key, value, at).key == key && MapInfo(words, key, value, at).value == value
  {
  }

  /** Empty maps are one word. */
  lemma EmptyMapExtent(words: seq<u32>, types: Types, tid: nat, at: nat)
    requires InAt(words, at, EmptyMap) && tid < |types| && types[tid].MapType?
    ensures DetectObject(words, types, KMap, tid, at) == at + 1
  {
    hide Prod, DetectObject, DetectPairs, InAt, IndexByteLength;
    InAtIndex(words, at, EmptyMap, 0);
    InAtWhole(words, at, EmptyMap);
    ProdZero(2);
    EmptyIndexBytes();
    DetectMap(words, types, tid, at);
    NoPairs(words, types, types[tid].child, MapInfo(words, types[tid].key, types[tid].value, at), MapEnd(words, at));
  }

  lemma EmptyIndexBytes()
    ensures IndexBytes(0) == 4
  {
  }

  lemma NoPairs(words: seq<u32>, types: Types, child: nat, info: MapHeadInfo, view: nat)
    ensures DetectPairs(words, types, child, info, 0, view) == view
  {
  }

  // ---------------------------------------------------------------------
  // Messages
  // ---------------------------------------------------------------------

  lemma DetectMessage(words: seq<u32>, types: Types, tid: nat, at: nat)
    requires tid < |types| && types[tid].MessageType? && HeaderInside(words, at)
    ensures var view := MessageEnd(words, at);
            DetectObject(words, types, KMessage, tid, at) ==
              if view == 0 then 0 else DetectFields(words, types, types[tid].fields, at, |types[tid].fields|, view)
  {
    hide ArrayEnd, StringEnd, DetectCells, MessageEnd, MapEnd, DetectPairs, DetectFields, MapInfo;
  }

  /** Header and cells of a placed message. */
  lemma MessageView(words: seq<u32>, at: nat, node: Node, mp: MessagePlan, c: seq<u32>, hash: Hash)
    requires node.MessageNode? && EncMessage(node, mp, c, hash) && InAt(words, at, c) && |words| < 0x4000_0000
    ensures HeaderInside(words, at) && HeadOk(mp.widths) && HeadAt(words, at, mp.widths)
    ensures at + |MessageHead(mp.widths)| + Sum(mp.widths) <= |words|
    ensures MessageEnd(words, at) == at + |MessageHead(mp.widths)| + Sum(mp.widths) > at
    ensures |c| == |MessageHead(mp.widths)| + Sum(mp.widths) + OutTotal(mp.cs) && |mp.cs| == |node.fields|
  {
    hide MessageHead, Sum, HeadOk, Enc, FieldStored, StoredBehind, OutTotal, HeadAt, MessageEnd, BodyWords;
    InAtWhole(words, at, c);
    MessagePlaced(words, Loc(at, |words|), node, mp, c, hash);
    HeaderWritten(words, at, mp.widths);
    BodyReadsBack(words, at, mp.widths);
    MessageTail(words, at);
    HeadLength(mp.widths);
  }

  /** The cell GetField finds for a stored field. */
  lemma FieldObject(words: seq<u32>, at: nat, node: Node, mp: MessagePlan, c: seq<u32>, hash: Hash, k: nat)
    requires node.MessageNode? && EncMessage(node, mp, c, hash) && InAt(words, at, c) && |words| < 0x4000_0000
    requires k < |node.fields| == |mp.cs| && mp.cs[k] != [] && (|mp.cs[k]| <= 3 ==> mp.cs[k][0] % 4 != 3)
    ensures HeaderInside(words, at)
    ensures FieldFound(words, at, node.fields[k].0, at + |MessageHead(mp.widths)| + Sum(mp.widths), mp.cs, k)
  {
    hide MessageHead, Sum, HeadOk, Enc, HeadAt, InAt, OutTotal, GetField, MessageEnd, GetObject, PointsTo, Outlined;
    MessageView(words, at, node, mp, c, hash);
    var id, d, ws := node.fields[k].0, mp.cs[k], mp.widths;
    assert FieldStored(c, ws, id, d) && StoredBehind(c, ws, id, d, OutTotal(mp.cs[..k]));
    GetFieldReadsBack(words, at, ws, id);
    var a := |MessageHead(ws)| + Sum(ws[..id]);
    if |d| <= 3 {
      ObjectInline(words, at, c, a, d);
      PrefixSum(ws, id);
    } else {
      ObjectOut(words, at, c, a, d, |MessageHead(ws)| + Sum(ws) + OutTotal(mp.cs[..k]) - a);
    }
  }

  /** GetField and GetObject lead to field `k`: behind the cells and the fields moved before it, or into its cell. */
  ghost predicate FieldFound(words: seq<u32>, at: nat, id: nat, view: nat, cs: seq<seq<u32>>, k: nat)
    requires HeaderInside(words, at) && k < |cs|
  {
    var cell := GetField(words, at, id);
    && cell.Some?
    && var p := GetObject(words, cell.value.0);
       && p.Some? && InAt(words, p.value, cs[k])
       && if |cs[k]| > 3 then p.value == view + OutTotal(cs[..k]) else p.value + |cs[k]| <= view
  }

  /** The last listed field that is moved is the last moved one of the type, and whole. */
  ghost predicate MovedWhole(plans: seq<FieldPlan>, fields: seq<(nat, Node)>, cs: seq<seq<u32>>, wholes: seq<bool>)
    requires |fields| == |cs| && |plans| == |wholes|
  {
    forall k | 0 <= k < |cs| && LastMoved(cs, k) ::
      exists i: nat :: i < |plans| && LastPlanned(plans, fields, cs, |plans|, i) && plans[i].id == fields[k].0
                       && wholes[i]
  }

  /** Detect stops at field `i` of the type: exactly at the end if that field is listed last. */
  lemma StopsAt(plans: seq<FieldPlan>, fields: seq<(nat, Node)>, cs: seq<seq<u32>>, wholes: seq<bool>, i: nat, t: nat,
                view: nat)
    requires |fields| == |cs| && |plans| == |wholes| && DistinctIds(fields)
    requires LastPlanned(plans, fields, cs, |plans|, i)
    requires FieldEnds(t, view, fields, cs, plans[i].id, wholes[i])
    ensures view < t <= view + OutTotal(cs) && (t == view + OutTotal(cs) <==> MovedWhole(plans, fields, cs, wholes))
  {
    hide OutTotal, MovedAt;
    assert MovedAt(fields, cs, plans[i].id) by { PlannedMoved(plans, fields, cs, i); }
    var k := MovedIndex(fields, cs, plans[i].id);
    MovedEnd(cs, k);
    FieldEndsAt(t, view, fields, cs, plans[i].id, wholes[i]);
    if LastMoved(cs, k) && wholes[i] {
      assert forall j | 0 <= j < |cs| && LastMoved(cs, j) :: j == k;
    }
    if MovedWhole(plans, fields, cs, wholes) {
      var last := SomeLast(cs, k);
      var j: nat :| j < |plans| && LastPlanned(plans, fields, cs, |plans|, j) && plans[j].id == fields[last].0
                    && wholes[j];
      assert i == j && fields[k].0 == fields[last].0;
      assert LastMoved(cs, k) && wholes[i];
    }
  }

  lemma PlannedMoved(plans: seq<FieldPlan>, fields: seq<(nat, Node)>, cs: seq<seq<u32>>, i: nat)
    requires |fields| == |cs| && LastPlanned(plans, fields, cs, |plans|, i)
    ensures MovedAt(fields, cs, plans[i].id)
  {
  }

  lemma MovedIndex(fields: seq<(nat, Node)>, cs: seq<seq<u32>>, id: nat) returns (k: nat)
    requires |fields| == |cs| && MovedAt(fields, cs, id)
    ensures k == FieldIndex(fields, id, 0) < |fields| && fields[k].0 == id && |cs[k]| > 3
  {
    k := FieldIndex(fields, id, 0);
  }

  lemma FieldEndsAt(t: nat, view: nat, fields: seq<(nat, Node)>, cs: seq<seq<u32>>, id: nat, whole: bool)
    requires |fields| == |cs| && FieldEnds(t, view, fields, cs, id, whole) && MovedAt(fields, cs, id)
    ensures var k := FieldIndex(fields, id, 0);
            var end := view + OutTotal(cs[..k]) + |cs[k]|;
            view < t <= end && (t == end <==> whole)
  {
    hide OutTotal;
  }

  /** Extent of a message, from what Detect finds in its fields. */
  lemma MessageExtent(words: seq<u32>, types: Types, tid: nat, at: nat, node: Node, mp: MessagePlan, c: seq<u32>,
                      hash: Hash, wholes: seq<bool>)
    requires |words| < 0x4000_0000 && HeaderInside(words, at) && InAt(words, at, c)
    requires node.MessageNode? && EncMessage(node, mp, c, hash) && |mp.cs| == |node.fields|
    requires tid < |types| && types[tid].MessageType? && |wholes| == |types[tid].fields|
    requires forall i | 0 <= i < |wholes| ::
               FieldEnds(DetectField(words, types, types[tid].fields[i], at), MessageEnd(words, at), node.fields, mp.cs,
                         types[tid].fields[i].id, wholes[i])
    ensures Judged(DetectObject(words, types, KMessage, tid, at), at, c,
                   MovedWhole(types[tid].fields, node.fields, mp.cs, wholes))
  {
    hide DetectObject, DetectFields, DetectField, MessageEnd, EncMessage, MessageHead, Sum, OutTotal, InAt, FieldEnds,
          HeadOk, HeadAt, MovedWhole, LastPlanned, MovedAt, DistinctIds;
    MessageView(words, at, node, mp, c, hash);
    DetectMessage(words, types, tid, at);
    var plans, view := types[tid].fields, MessageEnd(words, at);
    assert DistinctIds(node.fields) by { MessageDistinct(node, mp, c, hash); }
    var last := FieldsChain(words, types, plans, at, |plans|, view, node.fields, mp.cs, wholes);
    if last.Some? {
      PlannedBelow(plans, node.fields, mp.cs, last.value);
      StopsAt(plans, node.fields, mp.cs, wholes, last.value, DetectField(words, types, plans[last.value], at), view);
    } else {
      NeverStops(plans, node.fields, mp.cs, wholes);
    }
  }

  lemma PlannedBelow(plans: seq<FieldPlan>, fields: seq<(nat, Node)>, cs: seq<seq<u32>>, i: nat)
    requires |fields| == |cs| && LastPlanned(plans, fields, cs, |plans|, i)
    ensures i < |plans|
  {
  }

  lemma MessageDistinct(node: Node, mp: MessagePlan, c: seq<u32>, hash: Hash)
    requires node.MessageNode? && EncMessage(node, mp, c, hash)
    ensures DistinctIds(node.fields) && |mp.cs| == |node.fields|
  {
    hide Enc, MessageHead, HeadOk, HeadAt, FieldStored, StoredBehind, OutTotal, Sum;
  }

  /** Detect finds nothing behind the cells: all is well if there is nothing. */
  lemma NeverStops(plans: seq<FieldPlan>, fields: seq<(nat, Node)>, cs: seq<seq<u32>>, wholes: seq<bool>)
    requires |fields| == |cs| && |plans| == |wholes| && forall i | 0 <= i < |plans| :: !MovedAt(fields, cs, plans[i].id)
    ensures OutTotal(cs) == 0 <==> MovedWhole(plans, fields, cs, wholes)
  {
    hide OutTotal, MovedAt;
    NothingMoved(cs);
    if k :| 0 <= k < |cs| && |cs[k]| > 3 {
      var last := SomeLast(cs, k);
      assert LastMoved(cs, last);
    }
  }

  // ---------------------------------------------------------------------
  // All trees
  // ---------------------------------------------------------------------

  /**
   Detect never leaves the words of a typed tree, wherever they lie, and
   returns all of them if and only if the tree is whole.
   */
  lemma {:induction false} DetectedExactly(words: seq<u32>, types: Types, kind: Kind, tid: nat, at: nat, node: Node,
                                           c: seq<u32>, hash: Hash)
    requires |words| < 0x4000_0000 && InAt(words, at, c) && Enc(node, c, hash) && Formed(node)
    requires !IsScalar(kind) && Typed(types, kind, tid, node)
    ensures Judged(DetectObject(words, types, kind, tid, at), at, c, Whole(types, tid, node, c, hash))
    decreases node, 3
  {
    hide DetectObject, EncArray, EncMap, EncMessage, ArrayWords, MapWords, ScalarsWords, StringWords, InAt,
          WholeElements, WholeEntries, WholeFields;
    match node
    case NoneNode =>
    case ScalarNode(_, _) =>
    case BytesNode(_, bytes) =>
      StringExtent(words, at, bytes);
      StringTag(bytes);
      DetectBytes(words, types, kind, tid, at);
    case BoolsNode(flags) =>
      StringExtent(words, at, flags);
      StringTag(flags);
      InAtIndex(words, at, c, 0);
      DetectArray(words, types, tid, at);
    case ScalarsNode(_, _) =>
      ScalarsExtent(words, types, tid, at, node, hash);
      ScalarsPresent(node.kind, node.items);
    case ArrayNode(_, _) =>
      ArrayChoice(words, types, tid, at, node, c, hash);
    case MapNode(_, _, entries) =>
      if entries == [] {
        EmptyMapExtent(words, types, tid, at);
      } else {
        MapChoice(words, types, tid, at, node, c, hash);
      }
    case MessageNode(_, _) =>
      MessageChoice(words, types, tid, at, node, c, hash);
  }

  lemma ScalarsPresent(kind: Kind, items: seq<seq<u32>>)
    ensures |ScalarsWords(kind, items)| > 0
  {
  }

  lemma DetectBytes(words: seq<u32>, types: Types, kind: Kind, tid: nat, at: nat)
    requires IsBytes(kind)
    ensures DetectObject(words, types, kind, tid, at) == StringEnd(words, at)
  {
  }

  /** The verdict on an array does not depend on the way its words are taken apart. */
  lemma {:induction false} ArrayChoice(words: seq<u32>, types: Types, tid: nat, at: nat, node: Node, c: seq<u32>,
                                       hash: Hash)
    requires |words| < 0x4000_0000 && InAt(words, at, c) && node.ArrayNode? && Enc(node, c, hash) && Formed(node)
    requires Typed(types, KArray, tid, node)
    ensures Judged(DetectObject(words, types, KArray, tid, at), at, c, Whole(types, tid, node, c, hash))
    decreases node, 2
  {
    hide DetectObject, EncArray, WholeElements, InAt, Formed, Typed;
    forall ws: seq<seq<u32>> | EncArray(node, ws, c, hash)
      ensures |ws| == |node.elems|
      ensures Judged(DetectObject(words, types, KArray, tid, at), at, c, WholeElements(types, tid, node, ws, hash))
    {
      ArrayDetected(words, types, tid, at, node, ws, c, hash);
    }
    var ws: seq<seq<u32>> :| EncArray(node, ws, c, hash);
    assert Judged(DetectObject(words, types, KArray, tid, at), at, c, WholeElements(types, tid, node, ws, hash));
  }

  lemma {:induction false} MapChoice(words: seq<u32>, types: Types, tid: nat, at: nat, node: Node, c: seq<u32>,
                                     hash: Hash)
    requires |words| < 0x4000_0000 && InAt(words, at, c) && node.MapNode? && node.entries != [] && Enc(node, c, hash)
    requires Formed(node) && Typed(types, KMap, tid, node)
    ensures Judged(DetectObject(words, types, KMap, tid, at), at, c, Whole(types, tid, node, c, hash))
    decreases node, 2
  {
    hide DetectObject, EncMap, WholeEntries, InAt, Formed, Typed;
    forall plan: MapPlan | EncMap(node, plan, c, hash)
      ensures SlotsFit(node, plan)
      ensures Judged(DetectObject(words, types, KMap, tid, at), at, c, WholeEntries(types, tid, node, plan, hash))
    {
      MapDetected(words, types, tid, at, node, plan, c, hash);
    }
    var plan: MapPlan :| EncMap(node, plan, c, hash);
    assert Judged(DetectObject(words, types, KMap, tid, at), at, c, WholeEntries(types, tid, node, plan, hash));
  }

  lemma {:induction false} MessageChoice(words: seq<u32>, types: Types, tid: nat, at: nat, node: Node, c: seq<u32>,
                                         hash: Hash)
    requires |words| < 0x4000_0000 && InAt(words, at, c) && node.MessageNode? && Enc(node, c, hash) && Formed(node)
    requires Typed(types, KMessage, tid, node)
    ensures Judged(DetectObject(words, types, KMessage, tid, at), at, c, Whole(types, tid, node, c, hash))
    decreases node, 2
  {
    hide DetectObject, EncMessage, WholeFields, InAt, Formed, Typed;
    forall mp: MessagePlan | EncMessage(node, mp, c, hash)
      ensures |mp.cs| == |node.fields|
      ensures Judged(DetectObject(words, types, KMessage, tid, at), at, c, WholeFields(types, tid, node, mp.cs, hash))
    {
      MessageDetected(words, types, tid, at, node, mp, c, hash);
    }
    var mp: MessagePlan :| EncMessage(node, mp, c, hash);
    assert Judged(DetectObject(words, types, KMessage, tid, at), at, c, WholeFields(types, tid, node, mp.cs, hash));
  }

  /** Every slot of the plan holds an entry of the map. */
  ghost predicate SlotsFit(node: Node, plan: MapPlan)
    requires node.MapNode?
  {
    && |plan.ks| == |plan.vs| == |plan.order| == |node.entries|
    && forall s | 0 <= s < |plan.order| :: plan.order[s] < |node.entries|
  }

  lemma {:induction false} ArrayDetected(words: seq<u32>, types: Types, tid: nat, at: nat, node: Node,
                                         ws: seq<seq<u32>>,
                                         c: seq<u32>, hash: Hash)
    requires |words| < 0x4000_0000 && InAt(words, at, c) && node.ArrayNode? && EncArray(node, ws, c, hash)
    requires Formed(node)
    requires Typed(types, KArray, tid, node)
    ensures |ws| == |node.elems|
    ensures Judged(DetectObject(words, types, KArray, tid, at), at, c, WholeElements(types, tid, node, ws, hash))
    decreases node, 1
  {
    hide DetectObject, ArrayWords, InAt, Prod, BestWidth, Ends, DetectCell, Enc, GetObject, Whole, ElementReached,
        Judged,
          LastWhole, WholeElements;
    var wholes := seq(|ws|, i requires 0 <= i < |ws| => Whole(types, ChildOf(types, tid), node.elems[i], ws[i], hash));
    forall i | 0 <= i < |ws| ensures ElementReached(words, types, node.kind, types[tid].child, at, ws, i, wholes[i]) {
      var elem := node.elems[i];
      assert Typed(types, node.kind, types[tid].child, elem) && Formed(elem) && NodeKind(elem) == Some(node.kind);
      assert Enc(elem, ws[i], hash);
      TagUnambiguous(elem, ws[i], hash);
      var p := ElementObject(words, at, ws, i);
      DetectedExactly(words, types, node.kind, types[tid].child, p, elem, ws[i], hash);
      ElementEnds(words, types, node.kind, types[tid].child, at, ws, i, p, wholes[i]);
    }
    ArrayExtent(words, types, tid, at, node, ws, wholes);
    ElementsJudged(types, tid, node, ws, hash, wholes);
  }

  lemma ElementsJudged(types: Types, tid: nat, node: Node, ws: seq<seq<u32>>, hash: Hash, wholes: seq<bool>)
    requires node.ArrayNode? && |ws| == |node.elems| == |wholes|
    requires forall i | 0 <= i < |ws| :: wholes[i] == Whole(types, ChildOf(types, tid), node.elems[i], ws[i], hash)
    ensures LastWhole(ArrayItemsOf(ws), |ws|, wholes) <==> WholeElements(types, tid, node, ws, hash)
  {
    hide Whole, BestWidth, LastOut;
  }

  lemma {:induction false} MapDetected(words: seq<u32>, types: Types, tid: nat, at: nat, node: Node, plan: MapPlan,
                                       c: seq<u32>, hash: Hash)
    requires |words| < 0x4000_0000 && InAt(words, at, c) && node.MapNode? && node.entries != []
    requires EncMap(node, plan, c, hash) && Formed(node) && Typed(types, KMap, tid, node)
    ensures SlotsFit(node, plan)
    ensures Judged(DetectObject(words, types, KMap, tid, at), at, c, WholeEntries(types, tid, node, plan, hash))
    decreases node, 1
  {
    hide DetectObject, MapWords, Prod, BestWidth, PairEnds, MapItemsOf, Enc, MapInfo, Locate, Perfect, SlotCell, Whole,
          WholeEntries, LastWhole, Judged;
    InAtWhole(words, at, c);
    assert MapPlaced(words, types, tid, Loc(at, |words|), node, plan, hash);
    MapParts(plan);
    MapView(words, types, tid, at, node, plan, hash);
    var info, items, view := MapInfo(words, node.keyKind, node.valueKind, at), MapItemsOf(plan),
                             SlotCell(at, plan, |plan.ks|, false);
    var wholes := seq(2 * |plan.ks|, k requires 0 <= k < 2 * |plan.ks| => SlotWhole(types, tid, node, plan, hash, k));
    forall s | 0 <= s < |plan.ks| ensures PairEnds(words, types, types[tid].child, info, items, wholes, view, s) {
      PairDetected(words, types, tid, at, node, plan, hash, s, wholes);
    }
    MapExtent(words, types, tid, at, node, plan, hash, wholes);
    EntriesJudged(types, tid, node, plan, hash, wholes);
  }

  /** The key or value stored in a slot is whole; keys always are. */
  ghost predicate SlotWhole(types: Types, tid: nat, node: Node, plan: MapPlan, hash: Hash, k: nat)
    requires node.MapNode? && SlotsFit(node, plan) && k < 2 * |plan.ks|
  {
    k % 2 == 1 ==> Whole(types, ChildOf(types, tid), node.entries[plan.order[k / 2]].1, plan.vs[k / 2], hash)
  }

  lemma EntriesJudged(types: Types, tid: nat, node: Node, plan: MapPlan, hash: Hash, wholes: seq<bool>)
    requires node.MapNode? && SlotsFit(node, plan) && |wholes| == 2 * |plan.ks|
    requires forall k | 0 <= k < |wholes| :: wholes[k] == SlotWhole(types, tid, node, plan, hash, k)
    ensures LastWhole(MapItemsOf(plan), 2 * |plan.ks|, wholes) <==> WholeEntries(types, tid, node, plan, hash)
  {
    hide Whole, MapItemsOf, LastOut;
    var n, items := |plan.order|, MapItemsOf(plan);
    forall s | 0 <= s < n
      ensures wholes[2 * s] && wholes[2 * s + 1] ==
              Whole(types, ChildOf(types, tid), node.entries[plan.order[s]].1, plan.vs[s], hash)
    {
      assert (2 * s + 1) % 2 == 1 && (2 * s + 1) / 2 == s && 2 * s % 2 == 0;
    }
    if WholeEntries(types, tid, node, plan, hash) {
      forall k | 0 <= k < 2 * n && LastOut(items, 2 * n, k) ensures wholes[k] {
        var s := k / 2;
        assert k == 2 * s || k == 2 * s + 1;
      }
    }
  }

  lemma {:induction false} PairDetected(words: seq<u32>, types: Types, tid: nat, at: nat, node: Node, plan: MapPlan,
                                        hash: Hash, s: nat, wholes: seq<bool>)
    requires MapPlaced(words, types, tid, Loc(at, |words|), node, plan, hash) && at < |words|
    requires s < |plan.ks| && |MapItemsOf(plan)| == 2 * |plan.ks| == |wholes| && tid < |types| && types[tid].MapType?
    requires node.MapNode? && SlotsFit(node, plan)
    requires forall k | 0 <= k < |wholes| :: wholes[k] == SlotWhole(types, tid, node, plan, hash, k)
    ensures PairEnds(words, types, types[tid].child, MapInfo(words, node.keyKind, node.valueKind, at), MapItemsOf(plan),
                     wholes, SlotCell(at, plan, |plan.ks|, false), s)
    decreases node, 0, 1
  {
    hide DetectObject, MapWords, Prod, BestWidth, MapItemsOf, EncMap, MapInfo, Locate, Perfect, SlotCell, DetectCell,
          Ends, Typed, Formed, Enc, Placed, MapPlaced, Whole;
    MapView(words, types, tid, at, node, plan, hash);
    KindsOf(words, node.keyKind, node.valueKind, at);
    SlotCellIs(at, plan, s, MapInfo(words, node.keyKind, node.valueKind, at));
    KeyDetected(words, types, tid, at, node, plan, hash, s);
    ValueDetected(words, types, tid, at, node, plan, hash, s);
    assert (2 * s + 1) % 2 == 1 && (2 * s + 1) / 2 == s && 2 * s % 2 == 0;
  }

  lemma SlotCellIs(at: nat, plan: MapPlan, s: nat, info: MapHeadInfo)
    requires info.body == at + WordSize(|plan.index|) && info.keyWidth == BestWidth(Lens(plan.ks))
    requires info.valueWidth == BestWidth(Lens(plan.vs))
    ensures SlotCell(at, plan, s, false) == info.body + Prod(info.keyWidth + info.valueWidth, s)
    ensures SlotCell(at, plan, s, true) == info.body + Prod(info.keyWidth + info.valueWidth, s) + info.keyWidth
  {
    hide Prod, BestWidth;
  }

  lemma CellEnds(words: seq<u32>, types: Types, kind: Kind, tid: nat, cell: nat, view: nat, items: seq<Item>, k: nat,
                 whole: bool)
    requires k < |items| && Found(words, cell, view, items, k)
    requires var p := GetObject(words, cell).value;
             Judged(DetectObject(words, types, kind, tid, p), p, items[k].words, whole)
    ensures Ends(DetectCell(words, types, kind, tid, cell), view, items, k, whole)
  {
    hide DetectObject, GetObject, KeptSum;
  }

  /** Width of a scalar is the width of its cell, so it is never moved. */
  lemma ScalarSlot(kind: Kind, nodes: seq<Node>, ws: seq<seq<u32>>, hash: Hash, s: nat)
    requires MapTrip.Column(kind, nodes, ws, hash) && IsScalar(kind) && s < |ws|
    ensures !Item(ws[s], BestWidth(Lens(ws))).Out()
  {
    hide BestWidth, MapTrip.Column;
    ScalarColumn(kind, nodes, ws, hash);
  }

  lemma KeyDetected(words: seq<u32>, types: Types, tid: nat, at: nat, node: Node, plan: MapPlan, hash: Hash, s: nat)
    requires MapPlaced(words, types, tid, Loc(at, |words|), node, plan, hash)
    requires s < |plan.ks| && |MapItemsOf(plan)| == 2 * |plan.ks|
    ensures if node.keyKind.KString? then
              Ends(DetectCell(words, types, KString, 0, SlotCell(at, plan, s, false)),
                   SlotCell(at, plan, |plan.ks|, false),
                   MapItemsOf(plan), 2 * s, true)
            else !MapItemsOf(plan)[2 * s].Out()
  {
    hide DetectObject, MapWords, Prod, BestWidth, MapItemsOf, EncMap, Locate, Perfect, SlotCell, DetectCell, Ends,
        Typed,
          Enc, MapTrip.Column, Found, GetObject, StringWords, StringEnd;
    MapTrip.Columns(words, types, tid, Loc(at, |words|), node, plan, hash);
    SlotCells(plan, s);
    var nodes := Nodes(node, plan, true);
    if node.keyKind.KString? {
      StringColumn(node.keyKind, nodes, plan.ks, hash, s);
      SlotObject(words, at, plan, s, false);
      StringSlot(words, types, KString, 0, SlotCell(at, plan, s, false), SlotCell(at, plan, |plan.ks|, false),
                 MapItemsOf(plan), 2 * s, nodes[s].bytes);
    } else {
      ScalarSlot(node.keyKind, nodes, plan.ks, hash, s);
    }
  }

  lemma StringSlot(words: seq<u32>, types: Types, kind: Kind, tid: nat, cell: nat, view: nat, items: seq<Item>, k: nat,
                   bytes: seq<byte>)
    requires IsBytes(kind) && k < |items| && Found(words, cell, view, items, k) && |bytes| < 0x4000_0000
    requires items[k].words == StringWords(bytes)
    ensures Ends(DetectCell(words, types, kind, tid, cell), view, items, k, true)
  {
    hide StringWords, StringEnd, DetectObject, DetectCell, Ends, GetObject, KeptSum;
    var p := GetObject(words, cell).value;
    StringExtent(words, p, bytes);
    StringTag(bytes);
    DetectBytes(words, types, kind, tid, p);
    CellEnds(words, types, kind, tid, cell, view, items, k, true);
  }

  lemma {:induction false} ValueDetected(words: seq<u32>, types: Types, tid: nat, at: nat, node: Node, plan: MapPlan,
                                         hash: Hash, s: nat)
    requires MapPlaced(words, types, tid, Loc(at, |words|), node, plan, hash) && SlotsFit(node, plan)
    requires s < |plan.ks| && |MapItemsOf(plan)| == 2 * |plan.ks| && tid < |types| && types[tid].MapType?
    ensures if IsScalar(node.valueKind) then !MapItemsOf(plan)[2 * s + 1].Out()
            else Ends(DetectCell(words, types, node.valueKind, types[tid].child, SlotCell(at, plan, s, true)),
                      SlotCell(at, plan, |plan.ks|, false), MapItemsOf(plan), 2 * s + 1,
                      Whole(types, ChildOf(types, tid), node.entries[plan.order[s]].1, plan.vs[s], hash))
    decreases node, 0, 0
  {
    hide DetectObject, MapWords, Prod, BestWidth, MapItemsOf, Locate, Perfect, SlotCell, DetectCell, Ends, Enc,
          MapTrip.Column, GetObject, StringWords, StringEnd, KeptSum, Whole;
    MapTrip.Columns(words, types, tid, Loc(at, |words|), node, plan, hash);
    SlotCells(plan, s);
    var nodes := Nodes(node, plan, false);
    if IsScalar(node.valueKind) {
      ScalarSlot(node.valueKind, nodes, plan.vs, hash, s);
    } else {
      var i := plan.order[s];
      var value := node.entries[i].1;
      assert Typed(types, node.valueKind, types[tid].child, node.entries[i].1) && Formed(node.entries[i].1);
      assert Enc(node.entries[plan.order[s]].1, plan.vs[s], hash);
      NotScalar(value, node.valueKind);
      TagUnambiguous(value, plan.vs[s], hash);
      SlotObject(words, at, plan, s, true);
      var cell, view := SlotCell(at, plan, s, true), SlotCell(at, plan, |plan.ks|, false);
      DetectedExactly(words, types, node.valueKind, types[tid].child, GetObject(words, cell).value, value, plan.vs[s],
                      hash);
      CellEnds(words, types, node.valueKind, types[tid].child, cell, view, MapItemsOf(plan), 2 * s + 1,
               Whole(types, ChildOf(types, tid), node.entries[plan.order[s]].1, plan.vs[s], hash));
    }
  }

  lemma NotScalar(node: Node, kind: Kind)
    requires Formed(node) && NodeKind(node) == Some(kind) && !IsScalar(kind)
    ensures !node.NoneNode? && !node.ScalarNode?
  {
  }

  lemma {:induction false} MessageDetected(words: seq<u32>, types: Types, tid: nat, at: nat, node: Node,
                                           mp: MessagePlan,
                                           c: seq<u32>, hash: Hash)
    requires |words| < 0x4000_0000 && InAt(words, at, c) && node.MessageNode? && EncMessage(node, mp, c, hash)
    requires Formed(node)
    requires Typed(types, KMessage, tid, node)
    ensures |mp.cs| == |node.fields|
    ensures Judged(DetectObject(words, types, KMessage, tid, at), at, c, WholeFields(types, tid, node, mp.cs, hash))
    decreases node, 1
  {
    hide DetectObject, EncMessage, InAt, FieldEnds, DetectField, MessageEnd, MessageHead, HeadOk, HeadAt, OutTotal,
        Whole,
          WholeFields, MovedWhole, Judged, FieldWhole, Sum;
    MessageView(words, at, node, mp, c, hash);
    var plans := types[tid].fields;
    var wholes := seq(|plans|, i requires 0 <= i < |plans| => FieldWhole(types, plans[i], node.fields, mp.cs, hash));
    forall i | 0 <= i < |plans|
      ensures FieldEnds(DetectField(words, types, plans[i], at), MessageEnd(words, at), node.fields, mp.cs,
                        plans[i].id, wholes[i])
    {
      FieldDetected(words, types, plans[i], at, node, mp, c, hash);
    }
    MessageExtent(words, types, tid, at, node, mp, c, hash, wholes);
    MessageDistinct(node, mp, c, hash);
    FieldsJudged(types, tid, node, mp.cs, hash, wholes);
  }

  /** The value of a field, if there is one, is whole. */
  ghost predicate FieldWhole(types: Types, plan: FieldPlan, fields: seq<(nat, Node)>, cs: seq<seq<u32>>, hash: Hash)
    requires |fields| == |cs|
  {
    var k := FieldIndex(fields, plan.id, 0);
    k < |fields| ==> Whole(types, plan.child, fields[k].1, cs[k], hash)
  }

  lemma FieldsJudged(types: Types, tid: nat, node: Node, cs: seq<seq<u32>>, hash: Hash, wholes: seq<bool>)
    requires tid < |types| && types[tid].MessageType? && node.MessageNode? && |cs| == |node.fields|
    requires DistinctIds(node.fields)
    requires |wholes| == |types[tid].fields|
    requires forall i | 0 <= i < |wholes| :: wholes[i] == FieldWhole(types, types[tid].fields[i], node.fields, cs, hash)
    ensures MovedWhole(types[tid].fields, node.fields, cs, wholes) <==> WholeFields(types, tid, node, cs, hash)
  {
    hide Whole, LastPlanned, LastMoved;
    var plans, fields := types[tid].fields, node.fields;
    assert PlansOf(types, tid) == plans;
    forall k, i: nat | 0 <= k < |cs| && LastPlanned(plans, fields, cs, |plans|, i)
                       && LastKnown(types, tid, fields, cs, k, i)
      ensures i < |plans| && wholes[i] == Whole(types, plans[i].child, fields[k].1, cs[k], hash)
    {
      PlannedBelow(plans, fields, cs, i);
      FieldIndexFirst(fields, plans[i].id, 0, k);
    }
    if WholeFields(types, tid, node, cs, hash) {
      forall k | 0 <= k < |cs| && LastMoved(cs, k)
        ensures exists i: nat :: i < |plans| && LastPlanned(plans, fields, cs, |plans|, i)
                                 && plans[i].id == fields[k].0 && wholes[i]
      {
        var i: nat :| i < |plans| && LastKnown(types, tid, fields, cs, k, i)
            && Whole(types, plans[i].child, fields[k].1, cs[k], hash);
        assert LastPlanned(plans, fields, cs, |plans|, i);
      }
    }
    if MovedWhole(plans, fields, cs, wholes) {
      forall k | 0 <= k < |cs| && LastMoved(cs, k)
        ensures exists i: nat :: i < |plans| && LastKnown(types, tid, fields, cs, k, i)
                                 && Whole(types, plans[i].child, fields[k].1, cs[k], hash)
      {
        var i: nat :| i < |plans| && LastPlanned(plans, fields, cs, |plans|, i) && plans[i].id == fields[k].0
            && wholes[i];
        assert LastKnown(types, tid, fields, cs, k, i);
      }
    }
  }

  lemma MovedKnown(node: Node, mp: MessagePlan, c: seq<u32>, hash: Hash, k: nat)
    requires node.MessageNode? && EncMessage(node, mp, c, hash) && k < |node.fields| == |mp.cs| && |mp.cs[k]| > 3
    ensures !node.fields[k].1.NoneNode?
  {
    hide EncArray, EncMap, MessageHead, HeadOk, HeadAt, FieldStored, StoredBehind, OutTotal;
    assert Enc(node.fields[k].1, mp.cs[k], hash);
  }

  /** What Detect finds in one field of a message. */
  lemma {:induction false} FieldDetected(words: seq<u32>, types: Types, plan: FieldPlan, at: nat, node: Node,
                                         mp: MessagePlan, c: seq<u32>, hash: Hash)
    requires |words| < 0x4000_0000 && InAt(words, at, c) && node.MessageNode? && EncMessage(node, mp, c, hash)
    requires Formed(node)
    requires HeaderInside(words, at) && |mp.cs| == |node.fields|
    requires var k := FieldIndex(node.fields, plan.id, 0);
             k < |node.fields| && !node.fields[k].1.NoneNode? ==> Typed(types, plan.kind, plan.child, node.fields[k].1)
    ensures FieldEnds(DetectField(words, types, plan, at), MessageEnd(words, at), node.fields, mp.cs, plan.id,
                      FieldWhole(types, plan, node.fields, mp.cs, hash))
    decreases node, 0
  {
    hide DetectObject, EncMessage, InAt, MessageEnd, OutTotal, GetField, GetObject, Enc, MessageHead, Sum, HeadOk,
        HeadAt, Whole;
    var fields, cs := node.fields, mp.cs;
    var k := FieldIndex(fields, plan.id, 0);
    MessageView(words, at, node, mp, c, hash);
    if k == |fields| || fields[k].1.NoneNode? {
      AbsentEnds(words, types, plan, at, node, mp, c, hash, k);
    } else {
      var child := fields[k].1;
      FieldEncodedAs(node, mp, c, hash, k);
      assert NodeKind(child) == Some(plan.kind) && Formed(child);
      if child.ScalarNode? {
        ScalarShort(child, cs[k], hash);
      } else {
        TagUnambiguous(child, cs[k], hash);
        FieldObject(words, at, node, mp, c, hash, k);
        var p := GetObject(words, GetField(words, at, plan.id).value.0).value;
        DetectedExactly(words, types, plan.kind, plan.child, p, child, cs[k], hash);
      }
    }
  }

  lemma FieldEncodedAs(node: Node, mp: MessagePlan, c: seq<u32>, hash: Hash, k: nat)
    requires node.MessageNode? && EncMessage(node, mp, c, hash) && k < |node.fields| == |mp.cs|
    ensures Enc(node.fields[k].1, mp.cs[k], hash)
  {
    hide Enc, MessageHead, HeadOk, HeadAt, FieldStored, StoredBehind, OutTotal;
  }

  lemma ScalarShort(node: Node, c: seq<u32>, hash: Hash)
    requires node.ScalarNode? && Formed(node) && Enc(node, c, hash)
    ensures |c| <= 3
  {
  }

  lemma AbsentEnds(words: seq<u32>, types: Types, plan: FieldPlan, at: nat, node: Node, mp: MessagePlan, c: seq<u32>,
                   hash: Hash, k: nat)
    requires |words| < 0x4000_0000 && InAt(words, at, c) && node.MessageNode? && EncMessage(node, mp, c, hash)
    requires HeaderInside(words, at) && |mp.cs| == |node.fields|
    requires k == FieldIndex(node.fields, plan.id, 0) && (k == |node.fields| || node.fields[k].1.NoneNode?)
    ensures FieldEnds(DetectField(words, types, plan, at), MessageEnd(words, at), node.fields, mp.cs, plan.id,
                      FieldWhole(types, plan, node.fields, mp.cs, hash))
  {
    hide DetectCell, InAt, MessageEnd, GetField, MessageHead, Sum, HeadOk, HeadAt, EncArray, EncMap, OutTotal, Outlined,
          StoredBehind, Whole;
    var fields, cs := node.fields, mp.cs;
    MessageView(words, at, node, mp, c, hash);
    GetFieldReadsBack(words, at, mp.widths, plan.id);
    if k < |fields| {
      assert Enc(fields[k].1, cs[k], hash) && FieldStored(c, mp.widths, fields[k].0, cs[k]);
    } else {
      forall j | 0 <= j < |fields| ensures fields[j].0 != plan.id {
        if fields[j].0 == plan.id { FieldIndexFirst(fields, plan.id, 0, j); }
      }
    }
  }

  // ---------------------------------------------------------------------
  // Fields in order
  // ---------------------------------------------------------------------

  /** A tree whose fields were serialized in order is whole. */
  lemma {:induction false} OrderedWhole(types: Types, kind: Kind, tid: nat, node: Node, c: seq<u32>, hash: Hash)
    requires Enc(node, c, hash) && Formed(node) && Typed(types, kind, tid, node) && InOrder(types, tid, node)
    ensures Whole(types, tid, node, c, hash)
    decreases node, 1
  {
    hide EncArray, EncMap, EncMessage, WholeElements, WholeEntries, WholeFields;
    match node
    case ArrayNode(_, _) =>
      var ws: seq<seq<u32>> :| EncArray(node, ws, c, hash);
      OrderedElements(types, kind, tid, node, ws, c, hash);
    case MapNode(_, _, entries) =>
      if entries != [] {
        var plan: MapPlan :| EncMap(node, plan, c, hash);
        OrderedEntries(types, kind, tid, node, plan, c, hash);
      }
    case MessageNode(_, _) =>
      var plan: MessagePlan :| EncMessage(node, plan, c, hash);
      OrderedFields(types, kind, tid, node, plan, c, hash);
    case _ =>
  }

  lemma {:induction false} OrderedElements(types: Types, kind: Kind, tid: nat, node: Node, ws: seq<seq<u32>>,
                                           c: seq<u32>, hash: Hash)
    requires node.ArrayNode? && EncArray(node, ws, c, hash) && Formed(node) && Typed(types, kind, tid, node)
    requires InOrder(types, tid, node)
    ensures WholeElements(types, tid, node, ws, hash)
    decreases node, 0
  {
    hide Enc, Whole, ArrayWords, BestWidth, LastOut;
    forall i | 0 <= i < |ws| ensures Whole(types, ChildOf(types, tid), node.elems[i], ws[i], hash) {
      assert Typed(types, node.kind, types[tid].child, node.elems[i]) && Formed(node.elems[i]);
      OrderedWhole(types, node.kind, ChildOf(types, tid), node.elems[i], ws[i], hash);
    }
  }

  lemma {:induction false} OrderedEntries(types: Types, kind: Kind, tid: nat, node: Node, plan: MapPlan, c: seq<u32>,
                                          hash: Hash)
    requires node.MapNode? && EncMap(node, plan, c, hash) && Formed(node) && Typed(types, kind, tid, node)
    requires InOrder(types, tid, node)
    ensures WholeEntries(types, tid, node, plan, hash)
    decreases node, 0
  {
    hide Enc, Whole, MapWords, Locate, Perfect, MapItemsOf, LastOut;
    forall s | 0 <= s < |plan.order|
      ensures Whole(types, ChildOf(types, tid), node.entries[plan.order[s]].1, plan.vs[s], hash)
    {
      var i := plan.order[s];
      assert Typed(types, node.valueKind, types[tid].child, node.entries[i].1) && Formed(node.entries[i].1);
      assert InOrder(types, ChildOf(types, tid), node.entries[i].1)
             && Enc(node.entries[plan.order[s]].1, plan.vs[s], hash);
      OrderedWhole(types, node.valueKind, ChildOf(types, tid), node.entries[i].1, plan.vs[s], hash);
    }
  }

  lemma {:induction false} OrderedFields(types: Types, kind: Kind, tid: nat, node: Node, mp: MessagePlan, c: seq<u32>,
                                         hash: Hash)
    requires node.MessageNode? && EncMessage(node, mp, c, hash) && Formed(node) && Typed(types, kind, tid, node)
    requires InOrder(types, tid, node)
    ensures |mp.cs| == |node.fields| && WholeFields(types, tid, node, mp.cs, hash)
    decreases node, 0
  {
    hide Enc, Whole, EncMessage, AscendingFields, AscendingPlans, LastKnown, LastMoved;
    MessageDistinct(node, mp, c, hash);
    var plans, fields, cs := PlansOf(types, tid), node.fields, mp.cs;
    forall k | 0 <= k < |cs| && LastMoved(cs, k)
      ensures exists i: nat :: i < |plans| && LastKnown(types, tid, fields, cs, k, i)
                               && Whole(types, plans[i].child, fields[k].1, cs[k], hash)
    {
      var i := OrderedLast(types, tid, node, mp, c, hash, k);
      FieldEncodedAs(node, mp, c, hash, k);
      assert types[tid].fields[i] == plans[i];
      assert Typed(types, plans[i].kind, plans[i].child, fields[k].1) && Formed(fields[k].1);
      OrderedWhole(types, plans[i].kind, plans[i].child, fields[k].1, cs[k], hash);
    }
  }

  /** With ascending ids the field moved last belongs to the last moved field of the type. */
  lemma OrderedLast(types: Types, tid: nat, node: Node, mp: MessagePlan, c: seq<u32>, hash: Hash, k: nat)
    returns (i: nat)
    requires node.MessageNode? && EncMessage(node, mp, c, hash) && InOrder(types, tid, node)
    requires k < |mp.cs| == |node.fields| && LastMoved(mp.cs, k)
    ensures LastKnown(types, tid, node.fields, mp.cs, k, i) && i < |PlansOf(types, tid)|
    ensures PlansOf(types, tid)[i].id == node.fields[k].0 && k == FieldIndex(node.fields, node.fields[k].0, 0)
    ensures !node.fields[k].1.NoneNode?
  {
    hide EncMessage;
    MovedKnown(node, mp, c, hash, k);
    var plans, fields := PlansOf(types, tid), node.fields;
    i :| 0 <= i < |plans| && plans[i].id == fields[k].0;
    FieldIndexFirst(fields, plans[i].id, 0, k);
  }

  /** So Detect recovers exactly the words of every tree whose fields were serialized in order. */
  lemma Detected(words: seq<u32>, types: Types, kind: Kind, tid: nat, at: nat, node: Node, c: seq<u32>, hash: Hash)
    requires |words| < 0x4000_0000 && InAt(words, at, c) && Enc(node, c, hash) && Formed(node)
    requires !IsScalar(kind) && Typed(types, kind, tid, node) && InOrder(types, tid, node)
    ensures DetectObject(words, types, kind, tid, at) == at + |c|
  {
    hide DetectObject, Enc, InAt, Formed, Typed, InOrder, Whole;
    DetectedExactly(words, types, kind, tid, at, node, c, hash);
    OrderedWhole(types, kind, tid, node, c, hash);
  }
}
