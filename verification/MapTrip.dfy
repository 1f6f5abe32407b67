/** Maps are recovered from their encoding. */
module MapTrip {
  import opened Words
  import opened Layout
  import opened Strings
  import opened Serialize
  import opened Schema
  import opened HashGraph
  import opened HashBuild
  import opened HashIndex
  import opened Arena
  import opened ArenaWriter
  import opened Decode
  import opened Values
  import opened Objects
  import opened Visitor
  import opened Meaning

  // ---------------------------------------------------------------------
  // Maps do not depend on the order of their entries
  // ---------------------------------------------------------------------

  ghost predicate Unique(pairs: seq<(Value, Value)>) {
    forall i, k | 0 <= i < k < |pairs| :: pairs[i].0 != pairs[k].0
  }

  lemma {:induction false} EntryIn(pairs: seq<(Value, Value)>, i: nat)
    requires Unique(pairs) && i < |pairs|
    ensures pairs[i].0 in MapOf(pairs) && MapOf(pairs)[pairs[i].0] == pairs[i].1
    decreases |pairs|
  {
    if i < |pairs| - 1 { EntryIn(pairs[..|pairs| - 1], i); }
  }

  lemma {:induction false} EntryOf(pairs: seq<(Value, Value)>, key: Value) returns (i: nat)
    requires key in MapOf(pairs)
    ensures i < |pairs| && pairs[i].0 == key
    decreases |pairs|
  {
    var n := |pairs| - 1;
    if pairs[n].0 == key { i := n; } else { i := EntryOf(pairs[..n], key); }
  }

  lemma Included(a: seq<(Value, Value)>, b: seq<(Value, Value)>, key: Value)
    requires Unique(a) && Unique(b) && (forall i | 0 <= i < |a| :: a[i] in b) && key in MapOf(a)
    ensures key in MapOf(b) && MapOf(b)[key] == MapOf(a)[key]
  {
    hide MapOf;
    var i := EntryOf(a, key);
    EntryIn(a, i);
    assert a[i] in b;
    var k :| 0 <= k < |b| && b[k] == a[i];
    EntryIn(b, k);
  }

  lemma SameMap(a: seq<(Value, Value)>, b: seq<(Value, Value)>)
    requires Unique(a) && Unique(b)
    requires (forall i | 0 <= i < |a| :: a[i] in b) && (forall i | 0 <= i < |b| :: b[i] in a)
    ensures MapOf(a) == MapOf(b)
  {
    hide MapOf;
    forall key | key in MapOf(a) ensures key in MapOf(b) && MapOf(b)[key] == MapOf(a)[key] { Included(a, b, key); }
    forall key | key in MapOf(b) ensures key in MapOf(a) { Included(b, a, key); }
  }

  lemma UniqueAt(pairs: seq<(Value, Value)>, i: nat, k: nat)
    requires Unique(pairs) && i < |pairs| && k < |pairs| && i != k
    ensures pairs[i].0 != pairs[k].0
  {
  }

  /** `b` is `a` in slot order. */
  ghost predicate Permuted(a: seq<(Value, Value)>, b: seq<(Value, Value)>, order: seq<nat>) {
    && |a| == |b| == |order|
    && (forall s | 0 <= s < |b| :: order[s] < |a| && b[s] == a[order[s]])
  }

  lemma PermutedUnique(a: seq<(Value, Value)>, b: seq<(Value, Value)>, order: seq<nat>)
    requires Unique(a) && Permuted(a, b, order) && forall s, t | 0 <= s < t < |b| :: order[s] != order[t]
    ensures Unique(b)
  {
    forall s, t | 0 <= s < t < |b| ensures b[s].0 != b[t].0 {
      hide Unique;
      UniqueAt(a, order[s], order[t]);
    }
  }

  lemma PermutedIn(a: seq<(Value, Value)>, b: seq<(Value, Value)>, order: seq<nat>, i: nat)
    requires Permuted(a, b, order) && i < |a| && i in order
    ensures a[i] in b
  {
    var s :| 0 <= s < |order| && order[s] == i;
    assert b[s] == a[i];
  }

  lemma PermutedMap(a: seq<(Value, Value)>, b: seq<(Value, Value)>, order: seq<nat>)
    requires Unique(a) && Permuted(a, b, order)
    requires forall i | 0 <= i < |a| :: i in order
    requires forall s, t | 0 <= s < t < |b| :: order[s] != order[t]
    ensures MapOf(a) == MapOf(b)
  {
    hide MapOf, Unique, Permuted;
    PermutedUnique(a, b, order);
    PermutedLength(a, b, order);
    forall i | 0 <= i < |a| ensures a[i] in b {
      assert i in order;
      PermutedIn(a, b, order, i);
    }
    forall s | 0 <= s < |b| ensures b[s] in a { PermutedBack(a, b, order, s); }
    SameMap(a, b);
  }

  lemma PermutedLength(a: seq<(Value, Value)>, b: seq<(Value, Value)>, order: seq<nat>)
    requires Permuted(a, b, order)
    ensures |a| == |b| == |order|
  {
  }

  lemma PermutedBack(a: seq<(Value, Value)>, b: seq<(Value, Value)>, order: seq<nat>, s: nat)
    requires Permuted(a, b, order) && s < |b|
    ensures b[s] in a
  {
  }

  // ---------------------------------------------------------------------
  // Cells of a map
  // ---------------------------------------------------------------------

  lemma {:induction false} PairWidths(items: seq<Item>, m1: nat, m2: nat, s: nat)
    requires 2 * s <= |items| && forall k | 0 <= k < |items| :: items[k].width == if k % 2 == 0 then m1 else m2
    ensures WidthSum(items[..2 * s]) == Prod(m1 + m2, s)
    ensures 2 * s < |items| ==> WidthSum(items[..2 * s + 1]) == Prod(m1 + m2, s) + m1
    decreases s
  {
    hide Prod;
    if s == 0 {
      ProdZero(m1 + m2);
    } else {
      PairWidths(items, m1, m2, s - 1);
      ProdNext(m1 + m2, s - 1);
      WidthNext(items, 2 * s - 1);
    }
    if 2 * s < |items| { WidthNext(items, 2 * s); }
  }

  lemma WidthNext(items: seq<Item>, k: nat)
    requires k < |items|
    ensures WidthSum(items[..k + 1]) == WidthSum(items[..k]) + items[k].width
  {
    assert items[..k + 1] == items[..k] + [items[k]];
    SumsAppend(items[..k], [items[k]]);
    assert [items[k]][1..] == [];
  }

  lemma SlotItems(ks: seq<seq<u32>>, vs: seq<seq<u32>>, m1: nat, m2: nat, s: nat)
    requires |ks| == |vs| && s < |ks| && 1 <= m1 <= 3 && 1 <= m2 <= 3
    ensures var items := MapItems(ks, vs, m1, m2);
            && |items| == 2 * |ks| && Wide(items)
            && items[2 * s] == Item(ks[s], m1) && items[2 * s + 1] == Item(vs[s], m2)
            && forall k | 0 <= k < |items| :: items[k].width == if k % 2 == 0 then m1 else m2
  {
    assert 2 * s / 2 == s && (2 * s + 1) / 2 == s;
  }

  /** Both cells of slot `s`. */
  lemma SlotStored(index: seq<byte>, ks: seq<seq<u32>>, vs: seq<seq<u32>>, s: nat)
    requires |ks| == |vs| && |index| > 0 && WordAt(index, 0) < 0x1000_0000 && s < |ks|
    ensures var w, m1, m2 := MapWords(index, ks, vs), BestWidth(Lens(ks)), BestWidth(Lens(vs));
            var a := WordSize(|index|) + Prod(m1 + m2, s);
            && a + m1 + m2 <= |w|
            && (if |ks[s]| > m1 then Outlined(w, a, ks[s]) else InAt(w, a, ks[s]))
            && (if |vs[s]| > m2 then Outlined(w, a + m1, vs[s]) else InAt(w, a + m1, vs[s]))
  {
    hide Cells, Kept, Prod, BestWidth, Outlined, InAt, MapHead, MapItems, WidthSum, Lens, Wide;
    var m1, m2 := BestWidth(Lens(ks)), BestWidth(Lens(vs));
    BestBounds(Lens(ks));
    BestBounds(Lens(vs));
    HeadSize(index, m1, m2);
    var items := MapItems(ks, vs, m1, m2);
    SlotItems(ks, vs, m1, m2, s);
    PairWidths(items, m1, m2, s);
    CellStored(MapHead(index, m1, m2), items, 2 * s);
    CellStored(MapHead(index, m1, m2), items, 2 * s + 1);
  }

  lemma HeadSize(index: seq<byte>, m1: nat, m2: nat)
    requires |index| > 0 && WordAt(index, 0) < 0x1000_0000 && m1 <= 3 && m2 <= 3
    ensures |MapHead(index, m1, m2)| == WordSize(|index|)
  {
  }

  lemma AllSlots(index: seq<byte>, ks: seq<seq<u32>>, vs: seq<seq<u32>>)
    requires |ks| == |vs| && |index| > 0 && WordAt(index, 0) < 0x1000_0000
    ensures WordSize(|index|) + Prod(BestWidth(Lens(ks)) + BestWidth(Lens(vs)), |ks|) <= |MapWords(index, ks, vs)|
  {
    hide Prod, BestWidth, MapWords, Outlined, InAt;
    var m := BestWidth(Lens(ks)) + BestWidth(Lens(vs));
    if ks == [] {
      ProdZero(m);
      MapHeadWord(index, ks, vs);
    } else {
      SlotStored(index, ks, vs, |ks| - 1);
      ProdNext(m, |ks| - 1);
    }
  }

  lemma TopBits(n: nat, m1: nat, m2: nat)
    requires n < LIMIT && m1 <= 3 && m2 <= 3
    ensures var h := n + 0x4000_0000 * m1 + 0x1000_0000 * m2;
            h % LIMIT == n && h / 0x4000_0000 == m1 && h / 0x1000_0000 % 4 == m2
  {
    assert (n + 0x4000_0000 * m1 + 0x1000_0000 * m2) / 0x1000_0000 == 4 * m1 + m2;
  }

  lemma IndexSizes(n: nat)
    requires n < LIMIT
    ensures IndexByteLength(n) == IndexBytes(n)
  {
    hide BitmapSize, Section;
  }

  /** What the decoder reads from the header of a placed map. */
  lemma MapHeader(words: seq<u32>, loc: Loc, index: seq<byte>, ks: seq<seq<u32>>, vs: seq<seq<u32>>, key: Kind,
                  value: Kind)
    requires |ks| == |vs| == WordAt(index, 0) < 0x1000_0000 && |index| == IndexBytes(|ks|) > 0 && Placed(words, loc,
          MapWords(index, ks, vs))
    ensures loc.at < loc.limit <= |words|
    ensures var info := MapInfo(words, key, value, loc.at);
            && info == MapHeadInfo(key, value, |ks|, loc.at + WordSize(|index|), BestWidth(Lens(ks)),
                                   BestWidth(Lens(vs)))
            && 1 <= info.keyWidth <= 3 && 1 <= info.valueWidth <= 3
            && info.body + Prod(info.keyWidth + info.valueWidth, info.count) <= loc.limit
  {
    hide Prod, BestWidth, MapWords, IndexBytes, IndexByteLength;
    MapHeadWord(index, ks, vs);
    InAtIndex(words, loc.at, MapWords(index, ks, vs), 0);
    TopBits(|ks|, BestWidth(Lens(ks)), BestWidth(Lens(vs)));
    IndexSizes(|ks|);
    AllSlots(index, ks, vs);
  }

  /** A cell that holds an object leads to it. */
  lemma SlotLeads(words: seq<u32>, at: nat, w: seq<u32>, a: nat, width: nat, c: seq<u32>)
    requires |words| < 0x4000_0000 && InAt(words, at, w) && a + width <= |w| && width > 0
    requires if |c| > width then Outlined(w, a, c) else InAt(w, a, c)
    requires c != [] && (|c| <= 3 ==> c[0] % 4 != 3) && width <= 3
    ensures Leads(words, at + a, width, c)
  {
    hide Leads, Outlined, InAt;
    if |c| > width { LeadsOut(words, at, w, a, width, c); } else { LeadsInline(words, at, w, a, width, c); }
  }

  // ---------------------------------------------------------------------
  // Keys and values
  // ---------------------------------------------------------------------

  /** A typed map, its encoding, and where it lies. */
  ghost predicate MapPlaced(words: seq<u32>, types: Types, tid: nat, loc: Loc, node: Node, plan: MapPlan, hash: Hash) {
    && node.MapNode? && node.entries != [] && Formed(node) && Typed(types, KMap, tid, node)
    && |plan.ks| == |plan.vs| && |plan.index| > 0 && WordAt(plan.index, 0) < 0x1000_0000
    && EncMap(node, plan, MapWords(plan.index, plan.ks, plan.vs), hash)
    && Placed(words, loc, MapWords(plan.index, plan.ks, plan.vs))
  }

  /** The nodes that are stored in the slots, keys or values. */
  ghost function Nodes(node: Node, plan: MapPlan, keys: bool): (r: seq<Node>)
    requires node.MapNode? && forall s | 0 <= s < |plan.order| :: plan.order[s] < |node.entries|
    ensures |r| == |plan.order|
          && forall s | 0 <= s < |r| ::
               r[s] == if keys then node.entries[plan.order[s]].0 else node.entries[plan.order[s]].1
  {
    seq(|plan.order|, s requires 0 <= s < |plan.order| => if keys then node.entries[plan.order[s]].0
        else node.entries[plan.order[s]].1)
  }

  /** The list of nodes of one kind and the words they are encoded as. */
  ghost predicate Column(kind: Kind, nodes: seq<Node>, ws: seq<seq<u32>>, hash: Hash) {
    |nodes| == |ws| && forall s | 0 <= s < |ws| ::
      NodeKind(nodes[s]) == Some(kind) && Formed(nodes[s]) && Enc(nodes[s], ws[s], hash)
  }

  lemma Columns(words: seq<u32>, types: Types, tid: nat, loc: Loc, node: Node, plan: MapPlan, hash: Hash)
    requires MapPlaced(words, types, tid, loc, node, plan, hash)
    ensures |plan.order| == |node.entries| == |plan.ks| && forall s | 0 <= s < |plan.order| ::
              plan.order[s] < |node.entries|
    ensures Column(node.keyKind, Nodes(node, plan, true), plan.ks, hash)
    ensures Column(node.valueKind, Nodes(node, plan, false), plan.vs, hash)
    ensures ValidKey(node.keyKind)
  {
    hide MapWords, Placed, Perfect, Enc, Locate;
    forall s | 0 <= s < |plan.ks|
      ensures NodeKind(node.entries[plan.order[s]].0) == Some(node.keyKind) && Formed(node.entries[plan.order[s]].0)
      ensures NodeKind(node.entries[plan.order[s]].1) == Some(node.valueKind) && Formed(node.entries[plan.order[s]].1)
    {
      var i := plan.order[s];
      assert Typed(types, node.keyKind, tid, node.entries[i].0)
             && Typed(types, node.valueKind, types[tid].child, node.entries[i].1);
    }
  }

  /** Scalars get cells of exactly their width. */
  lemma ScalarColumn(kind: Kind, nodes: seq<Node>, ws: seq<seq<u32>>, hash: Hash)
    requires Column(kind, nodes, ws, hash) && IsScalar(kind) && ws != []
    ensures BestWidth(Lens(ws)) == ScalarWidth(kind)
    ensures forall s | 0 <= s < |ws| :: nodes[s].ScalarNode? && nodes[s].kind == kind && ws[s] == ScalarWords(kind,
          nodes[s].words) && |ws[s]| == ScalarWidth(kind)
  {
    hide BestWidth, EncArray, EncMap, EncMessage;
    forall s | 0 <= s < |ws|
      ensures nodes[s].ScalarNode? && nodes[s].kind == kind && ws[s] == ScalarWords(kind, nodes[s].words)
      ensures |ws[s]| == ScalarWidth(kind)
    {
      assert Enc(nodes[s], ws[s], hash) && Formed(nodes[s]) && NodeKind(nodes[s]) == Some(kind);
    }
    if ScalarWidth(kind) == 2 { AllTwos(Lens(ws)); } else { AllOnes(Lens(ws)); }
  }

  lemma StringColumn(kind: Kind, nodes: seq<Node>, ws: seq<seq<u32>>, hash: Hash, s: nat)
    requires Column(kind, nodes, ws, hash) && IsBytes(kind) && s < |ws|
    ensures nodes[s].BytesNode? && |nodes[s].bytes| < 0x4000_0000 && ws[s] == StringWords(nodes[s].bytes)
    ensures ws[s] != [] && (|ws[s]| <= 3 ==> ws[s][0] % 4 != 3)
  {
    hide StringWords, EncArray, EncMap, EncMessage;
    assert Enc(nodes[s], ws[s], hash) && Formed(nodes[s]) && NodeKind(nodes[s]) == Some(kind);
    TagUnambiguous(nodes[s], ws[s], hash);
  }

  /** Where the cells of a column are. */
  ghost predicate CellsAt(words: seq<u32>, at: nat, stride: nat, width: nat, ws: seq<seq<u32>>) {
    forall s | 0 <= s < |ws| ::
      && (|ws[s]| == width ==> InAt(words, at + Prod(stride, s), ws[s]))
      && (ws[s] != [] && (|ws[s]| <= 3 ==> ws[s][0] % 4 != 3) ==> Leads(words, at + Prod(stride, s), width, ws[s]))
  }

  lemma MapCells(words: seq<u32>, types: Types, tid: nat, loc: Loc, node: Node, plan: MapPlan, hash: Hash)
    requires MapPlaced(words, types, tid, loc, node, plan, hash)
    ensures loc.at < loc.limit <= |words|
    ensures var info := MapInfo(words, node.keyKind, node.valueKind, loc.at);
            var stride := info.keyWidth + info.valueWidth;
            && info.count == |plan.ks| == |plan.vs| && info.keyWidth == BestWidth(Lens(plan.ks))
                  && info.valueWidth == BestWidth(Lens(plan.vs))
            && 1 <= info.keyWidth <= 3 && 1 <= info.valueWidth <= 3
            && info.body + Prod(stride, info.count) <= loc.limit
            && CellsAt(words, info.body, stride, info.keyWidth, plan.ks)
            && CellsAt(words, info.body + info.keyWidth, stride, info.valueWidth, plan.vs)
  {
    hide MapWords, Prod, BestWidth, Enc, Perfect, Leads, InAt, Outlined, Locate, IndexByteLength, Formed, Typed,
        IndexBytes;
    var w := MapWords(plan.index, plan.ks, plan.vs);
    PlanIndex(node, plan, hash);
    MapHeader(words, loc, plan.index, plan.ks, plan.vs, node.keyKind, node.valueKind);
    var info := MapInfo(words, node.keyKind, node.valueKind, loc.at);
    var m1, m2 := info.keyWidth, info.valueWidth;
    forall s | 0 <= s < |plan.ks|
      ensures |plan.ks[s]| == m1 ==> InAt(words, info.body + Prod(m1 + m2, s), plan.ks[s])
      ensures |plan.vs[s]| == m2 ==> InAt(words, info.body + m1 + Prod(m1 + m2, s), plan.vs[s])
      ensures plan.ks[s] != [] && (|plan.ks[s]| <= 3 ==> plan.ks[s][0] % 4 != 3) ==> Leads(words,
            info.body + Prod(m1 + m2, s), m1, plan.ks[s])
      ensures plan.vs[s] != [] && (|plan.vs[s]| <= 3 ==> plan.vs[s][0] % 4 != 3) ==> Leads(words,
            info.body + m1 + Prod(m1 + m2, s), m2, plan.vs[s])
    {
      SlotStored(plan.index, plan.ks, plan.vs, s);
      var a := WordSize(|plan.index|) + Prod(m1 + m2, s);
      SlotFound(words, loc.at, w, a, m1, plan.ks[s]);
      SlotFound(words, loc.at, w, a + m1, m2, plan.vs[s]);
    }
  }

  lemma SlotFound(words: seq<u32>, at: nat, w: seq<u32>, a: nat, width: nat, c: seq<u32>)
    requires |words| < 0x4000_0000 && InAt(words, at, w) && a + width <= |w| && 0 < width <= 3
    requires if |c| > width then Outlined(w, a, c) else InAt(w, a, c)
    ensures |c| == width ==> InAt(words, at + a, c)
    ensures c != [] && (|c| <= 3 ==> c[0] % 4 != 3) ==> Leads(words, at + a, width, c)
  {
    hide Leads, Outlined, InAt;
    if |c| == width { InAtTrans(words, at, w, a, c); }
    if c != [] && (|c| <= 3 ==> c[0] % 4 != 3) { SlotLeads(words, at, w, a, width, c); }
  }

  lemma PlanIndex(node: Node, plan: MapPlan, hash: Hash)
    requires node.MapNode? && Slotted(node.entries, plan, hash)
    ensures |plan.ks| == |plan.vs| == |node.entries| == WordAt(plan.index, 0) < 0x1000_0000
    ensures |plan.index| == IndexBytes(|plan.ks|) > 0
  {
    hide IndexBytes, Locate;
    IndexHead(plan.index, hash, KeysOf(node.entries));
  }

  /** A column of strings or byte arrays. */
  lemma StringsRead(words: seq<u32>, at: nat, stride: nat, width: nat, kind: Kind, nodes: seq<Node>, ws: seq<seq<u32>>,
        hash: Hash, types: Types, tid: nat)
    requires Column(kind, nodes, ws, hash) && IsBytes(kind) && CellsAt(words, at, stride, width, ws)
    ensures var r := ParseSpans(words, at, stride, width, |ws|);
            r.Some? && |r.value| == |ws| && forall s | 0 <= s < |ws| ::
              SpanValue(words, r.value[s]) == NodeValue(types, tid, nodes[s])
  {
    hide StringWords, Leads, InAt, Prod, SpanValue, ParseSpans, Column;
    ColumnLength(kind, nodes, ws, hash);
    var strings := seq(|ws|, s requires 0 <= s < |ws| => if nodes[s].BytesNode? then nodes[s].bytes else []);
    forall s | 0 <= s < |ws|
      ensures nodes[s].BytesNode? && |strings[s]| < 0x4000_0000
      ensures Leads(words, at + Prod(stride, s), width, StringWords(strings[s]))
    {
      StringColumn(kind, nodes, ws, hash, s);
    }
    SpansRecovered(words, at, stride, width, strings);
  }

  lemma ColumnLength(kind: Kind, nodes: seq<Node>, ws: seq<seq<u32>>, hash: Hash)
    requires Column(kind, nodes, ws, hash)
    ensures |nodes| == |ws|
  {
  }

  /** A column of scalars. */
  lemma ScalarsRead(words: seq<u32>, at: nat, stride: nat, width: nat, kind: Kind, nodes: seq<Node>, ws: seq<seq<u32>>,
        hash: Hash, types: Types, tid: nat)
    requires Column(kind, nodes, ws, hash) && IsScalar(kind) && ws != [] && width == BestWidth(Lens(ws))
          && CellsAt(words, at, stride, width, ws)
    ensures width == ScalarWidth(kind) && |nodes| == |ws|
    ensures forall s | 0 <= s < |ws| :: ScalarAt(words, kind, at + Prod(stride, s)) == NodeValue(types, tid, nodes[s])
  {
    hide Leads, InAt, Prod, BestWidth, Enc, ScalarAt, ScalarWords;
    ScalarColumn(kind, nodes, ws, hash);
    forall s | 0 <= s < |ws| ensures ScalarAt(words, kind, at + Prod(stride, s)) == NodeValue(types, tid, nodes[s]) {
      assert Formed(nodes[s]);
      ScalarRecovered(words, at + Prod(stride, s), nodes[s]);
    }
  }

  // ---------------------------------------------------------------------
  // Whole maps
  // ---------------------------------------------------------------------

  /** The keys of a placed map. */
  lemma KeysRead(words: seq<u32>, types: Types, tid: nat, loc: Loc, node: Node, plan: MapPlan, hash: Hash)
    requires MapPlaced(words, types, tid, loc, node, plan, hash)
    ensures loc.at < loc.limit <= |words| && |plan.order| == |plan.ks|
          && forall s | 0 <= s < |plan.order| :: plan.order[s] < |node.entries|
    ensures var info := MapInfo(words, node.keyKind, node.valueKind, loc.at);
            var keys := KeySpans(words, info);
            && info.count == |plan.ks| && keys.Some?
               && (!node.keyKind.KString? ==> info.keyWidth == ScalarWidth(node.keyKind))
            && forall s | 0 <= s < |plan.ks| ::
                 KeyAt(words, info, keys.value, s) == NodeValue(types, tid, node.entries[plan.order[s]].0)
  {
    hide MapWords, Prod, BestWidth, Column, CellsAt, EncMap, ParseSpans, SpanValue, ScalarAt, NodeValue,
        IndexByteLength, Typed, Placed;
    MapCells(words, types, tid, loc, node, plan, hash);
    Columns(words, types, tid, loc, node, plan, hash);
    var info := MapInfo(words, node.keyKind, node.valueKind, loc.at);
    var stride := info.keyWidth + info.valueWidth;
    var nodes := Nodes(node, plan, true);
    if node.keyKind.KString? {
      StringsRead(words, info.body, stride, info.keyWidth, node.keyKind, nodes, plan.ks, hash, types, tid);
    } else {
      ScalarsRead(words, info.body, stride, info.keyWidth, node.keyKind, nodes, plan.ks, hash, types, tid);
    }
  }

  lemma MapTyped(types: Types, tid: nat, node: Node)
    requires node.MapNode? && Typed(types, KMap, tid, node)
    ensures tid < |types| && types[tid].MapType? && types[tid].key == node.keyKind && types[tid].value == node.valueKind
    ensures ChildOf(types, tid) == types[tid].child
  {
  }

  /** Trees for the complex values of a map; none for other values. */
  ghost function ChildTrees(words: seq<u32>, types: Types, child: nat, info: MapHeadInfo, depth: nat): Option<seq<Tree>>
    requires depth <= MAXDEPTH
  {
    if !IsComplex(info.value) then Some([])
    else if depth >= MAXDEPTH then None
    else ParseChildren(words, types, child, info.body + info.keyWidth, info.keyWidth + info.valueWidth,
                       info.valueWidth, info.count, depth)
  }

  /** The values of a placed map. */
  lemma ValuesRead(words: seq<u32>, types: Types, tid: nat, loc: Loc, depth: nat, node: Node, plan: MapPlan, hash: Hash,
        keys: seq<(nat, nat)>)
    requires depth <= MAXDEPTH && MapPlaced(words, types, tid, loc, node, plan, hash)
    requires loc.at < |words| && |plan.order| == |plan.vs| && forall s | 0 <= s < |plan.order| ::
               plan.order[s] < |node.entries|
    requires IsComplex(node.valueKind) && depth < MAXDEPTH ==>
               var info := MapInfo(words, node.keyKind, node.valueKind, loc.at);
               forall s | 0 <= s < |plan.vs| ::
                 CellOk(words, types, types[tid].child,
                        info.body + info.keyWidth + Prod(info.keyWidth + info.valueWidth,
                       s), info.valueWidth, depth, node.entries[plan.order[s]].1)
    ensures var info := MapInfo(words, node.keyKind, node.valueKind, loc.at);
            var values, trees := ValueSpans(words, info), ChildTrees(words, types, types[tid].child, info, depth);
            && values.Some? && (IsScalar(node.valueKind) ==> info.valueWidth == ScalarWidth(node.valueKind))
            && (trees.Some? <==> (IsComplex(node.valueKind) ==> depth < MAXDEPTH && forall s | 0 <= s < |plan.vs| ::
                                    Readable(types, types[tid].child, node.entries[plan.order[s]].1, depth + 1)))
            && (trees.Some? ==> forall s | 0 <= s < |plan.vs| ::
                  EntryValue(words, TMap(tid, info, keys, values.value, trees.value), s) == NodeValue(types,
                        types[tid].child, node.entries[plan.order[s]].1))
  {
    hide MapWords, Prod, BestWidth, Column, CellsAt, EncMap, ParseSpans, ParseChildren, SpanValue, ScalarAt, NodeValue,
          ValueOf, IndexByteLength, Typed, Placed, CellOk, Readable;
    MapTyped(types, tid, node);
    MapCells(words, types, tid, loc, node, plan, hash);
    Columns(words, types, tid, loc, node, plan, hash);
    var info := MapInfo(words, node.keyKind, node.valueKind, loc.at);
    var stride, child := info.keyWidth + info.valueWidth, types[tid].child;
    var nodes := Nodes(node, plan, false);
    if IsBytes(node.valueKind) {
      StringsRead(words, info.body + info.keyWidth, stride, info.valueWidth, node.valueKind, nodes, plan.vs, hash,
                  types, child);
    } else if IsScalar(node.valueKind) {
      ScalarsRead(words, info.body + info.keyWidth, stride, info.valueWidth, node.valueKind, nodes, plan.vs, hash,
                  types, child);
      ScalarEntries(words, info, plan, nodes, types, child);
    } else if depth < MAXDEPTH {
      ChildrenRecovered(words, types, child, info.body + info.keyWidth, stride, info.valueWidth, depth, nodes);
    }
  }

  lemma ScalarEntries(words: seq<u32>, info: MapHeadInfo, plan: MapPlan, nodes: seq<Node>, types: Types, child: nat)
    requires |nodes| == |plan.vs|
    requires forall s | 0 <= s < |plan.vs| :: ScalarAt(words, info.value,
          info.body + info.keyWidth + Prod(info.keyWidth + info.valueWidth, s)) == NodeValue(types, child, nodes[s])
    ensures forall s | 0 <= s < |plan.vs| :: ScalarAt(words, info.value,
          info.body + Prod(info.keyWidth + info.valueWidth, s) + info.keyWidth) == NodeValue(types, child, nodes[s])
  {
    hide Prod, ScalarAt, NodeValue;
    forall s | 0 <= s < |plan.vs|
      ensures ScalarAt(words, info.value, info.body + Prod(info.keyWidth + info.valueWidth,
            s) + info.keyWidth) == NodeValue(types, child, nodes[s])
    {
      assert info.body + Prod(info.keyWidth + info.valueWidth,
            s) + info.keyWidth == info.body + info.keyWidth + Prod(info.keyWidth + info.valueWidth, s);
    }
  }

  /** What ParseMap makes of a readable header. */
  lemma ParseMapParts(words: seq<u32>, types: Types, tid: nat, key: Kind, value: Kind, child: nat, loc: Loc, depth: nat)
    requires depth <= MAXDEPTH && loc.at < loc.limit <= |words|
    requires var info := MapInfo(words, key, value, loc.at);
             && info.keyWidth > 0 && info.valueWidth > 0
                && info.body + Prod(info.keyWidth + info.valueWidth, info.count) <= loc.limit
             && (!key.KString? ==> info.keyWidth == ScalarWidth(key))
                && (IsScalar(value) ==> info.valueWidth == ScalarWidth(value))
             && KeySpans(words, info).Some? && ValueSpans(words, info).Some?
    ensures var info := MapInfo(words, key, value, loc.at);
            var r, trees := ParseMap(words, types, tid, key, value, child, loc, depth),
                            ChildTrees(words, types, child, info, depth);
            && (r.Some? <==> trees.Some?)
            && (r.Some? ==> r.value
                            == TMap(tid, info, KeySpans(words, info).value, ValueSpans(words, info).value, trees.value))
  {
    hide ParseSpans, ParseChildren, Prod, IndexByteLength;
  }

  /** Different entries have different keys, since the index locates them differently. */
  lemma KeysUnique(types: Types, tid: nat, node: Node, plan: MapPlan, hash: Hash, i: nat, k: nat)
    requires node.MapNode? && Formed(node) && Typed(types, KMap, tid, node)
    requires Slotted(node.entries, plan, hash) && i < k < |node.entries|
    ensures NodeValue(types, tid, node.entries[i].0) != NodeValue(types, tid, node.entries[k].0)
  {
    hide Locate, IndexBytes, RealSize;
    assert i in plan.order && k in plan.order;
    var s :| 0 <= s < |plan.order| && plan.order[s] == i;
    var t :| 0 <= t < |plan.order| && plan.order[t] == k;
    assert Typed(types, node.keyKind, tid, node.entries[i].0) && Typed(types, node.keyKind, tid, node.entries[k].0);
    if NodeValue(types, tid, node.entries[i].0) == NodeValue(types, tid, node.entries[k].0) {
      SameKeyBytes(types, tid, node.keyKind, node.entries[i].0, node.entries[k].0);
    }
  }

  lemma SameKeyBytes(types: Types, tid: nat, kind: Kind, a: Node, b: Node)
    requires ValidKey(kind) && NodeKind(a) == NodeKind(b) == Some(kind) && Formed(a) && Formed(b)
    requires NodeValue(types, tid, a) == NodeValue(types, tid, b)
    ensures KeyBytes(a) == KeyBytes(b)
  {
  }

  lemma ReadableInOrder(types: Types, child: nat, node: Node, plan: MapPlan, depth: nat)
    requires node.MapNode? && |plan.order| == |node.entries| && forall s | 0 <= s < |plan.order| ::
               plan.order[s] < |node.entries|
    requires forall i | 0 <= i < |node.entries| :: i in plan.order
    ensures (forall s | 0 <= s < |plan.order| :: Readable(types, child, node.entries[plan.order[s]].1, depth))
            <==> (forall i | 0 <= i < |node.entries| :: Readable(types, child, node.entries[i].1, depth))
  {
    hide Readable;
    if forall s | 0 <= s < |plan.order| :: Readable(types, child, node.entries[plan.order[s]].1, depth) {
      forall i | 0 <= i < |node.entries| ensures Readable(types, child, node.entries[i].1, depth) {
        assert i in plan.order;
        var s :| 0 <= s < |plan.order| && plan.order[s] == i;
        assert Readable(types, child, node.entries[plan.order[s]].1, depth);
      }
    }
  }

  /** The entries of a tree as values, in arena order. */
  function PairsOf(types: Types, tid: nat, node: Node): (r: seq<(Value, Value)>)
    requires node.MapNode?
    ensures |r| == |node.entries|
    ensures NodeValue(types, tid, node) == VMap(MapOf(r))
    ensures forall i | 0 <= i < |r| ::
              r[i] == (NodeValue(types, tid, node.entries[i].0), NodeValue(types, ChildOf(types,
          tid), node.entries[i].1))
  {
    seq(|node.entries|, i requires 0 <= i < |node.entries| =>
      (NodeValue(types, tid, node.entries[i].0), NodeValue(types, ChildOf(types, tid), node.entries[i].1)))
  }

  /** Slot order does not change the value of the map. */
  lemma MapValue(types: Types, tid: nat, node: Node, plan: MapPlan, hash: Hash, entries: seq<(Value, Value)>)
    requires node.MapNode? && Formed(node) && Typed(types, KMap, tid, node) && Slotted(node.entries, plan, hash)
    requires |entries| == |plan.order|
    requires forall s | 0 <= s < |entries| :: plan.order[s] < |node.entries| &&
               entries[s] == (NodeValue(types, tid, node.entries[plan.order[s]].0),
                              NodeValue(types, ChildOf(types, tid),
                     node.entries[plan.order[s]].1))
    ensures NodeValue(types, tid, node) == VMap(MapOf(entries))
  {
    hide MapOf, NodeValue, Formed, Typed, Perfect, Locate;
    var pairs := PairsOf(types, tid, node);
    forall i, k | 0 <= i < k < |pairs| ensures pairs[i].0 != pairs[k].0 {
      KeysUnique(types, tid, node, plan, hash, i, k);
    }
    PermutedMap(pairs, entries, plan.order);
  }

  /** A placed map is recovered, given that its complex values are. */
  lemma MapRecovered(words: seq<u32>, types: Types, tid: nat, loc: Loc, depth: nat, node: Node, plan: MapPlan,
                     hash: Hash)
    requires depth <= MAXDEPTH && MapPlaced(words, types, tid, loc, node, plan, hash)
    requires loc.at < |words| && |plan.order| == |plan.vs| && forall s | 0 <= s < |plan.order| ::
               plan.order[s] < |node.entries|
    requires IsComplex(node.valueKind) && depth < MAXDEPTH ==>
               var info := MapInfo(words, node.keyKind, node.valueKind, loc.at);
               forall s | 0 <= s < |plan.vs| ::
                 CellOk(words, types, types[tid].child,
                        info.body + info.keyWidth + Prod(info.keyWidth + info.valueWidth,
                       s), info.valueWidth, depth, node.entries[plan.order[s]].1)
    ensures loc.limit <= |words| && Recovers(words, types, tid, loc, depth, node)
  {
    hide MapWords, Prod, KeySpans, ValueSpans, ChildTrees, KeyAt, EntryValue, NodeValue, IndexByteLength, Typed, CellOk,
          MapOf, Formed, Parse, ValueOf, Readable, EncMap, Slotted;
    MapTyped(types, tid, node);
    KeysRead(words, types, tid, loc, node, plan, hash);
    var info := MapInfo(words, node.keyKind, node.valueKind, loc.at);
    var keys := KeySpans(words, info).value;
    ValuesRead(words, types, tid, loc, depth, node, plan, hash, keys);
    MapParsed(words, types, tid, loc, depth, node, plan, hash);
    PlanSlotted(node, plan, hash);
    MapReadable(types, tid, node, plan, depth);
    var r := Parse(words, types, tid, loc, depth);
    if r.Some? {
      TreeValue(words, r.value);
      MapValue(types, tid, node, plan, hash, Entries(words, r.value));
    }
  }

  lemma TreeValue(words: seq<u32>, tree: Tree)
    requires tree.TMap?
    ensures ValueOf(words, tree) == VMap(MapOf(Entries(words, tree)))
  {
  }

  lemma MapReadable(types: Types, tid: nat, node: Node, plan: MapPlan, depth: nat)
    requires node.MapNode? && node.entries != [] && |plan.order| == |node.entries|
          && forall s | 0 <= s < |plan.order| :: plan.order[s] < |node.entries|
    requires forall i | 0 <= i < |node.entries| :: i in plan.order
    ensures Readable(types, tid, node, depth) <==>
            (IsComplex(node.valueKind) ==> depth < MAXDEPTH && forall s | 0 <= s < |plan.order| :: Readable(types,
                  ChildOf(types, tid), node.entries[plan.order[s]].1, depth + 1))
  {
    ReadableInOrder(types, ChildOf(types, tid), node, plan, depth + 1);
  }

  /** The tree Parse makes of a placed map. */
  lemma MapParsed(words: seq<u32>, types: Types, tid: nat, loc: Loc, depth: nat, node: Node, plan: MapPlan, hash: Hash)
    requires depth <= MAXDEPTH && MapPlaced(words, types, tid, loc, node, plan, hash) && loc.at < loc.limit <= |words|
    requires tid < |types| && types[tid] == MapType(node.keyKind, node.valueKind, types[tid].child)
    requires var info := MapInfo(words, node.keyKind, node.valueKind, loc.at);
             && (!node.keyKind.KString? ==> info.keyWidth == ScalarWidth(node.keyKind))
             && (IsScalar(node.valueKind) ==> info.valueWidth == ScalarWidth(node.valueKind))
             && KeySpans(words, info).Some? && ValueSpans(words, info).Some?
    ensures var info := MapInfo(words, node.keyKind, node.valueKind, loc.at);
            var r, trees := Parse(words, types, tid, loc, depth),
                            ChildTrees(words, types, types[tid].child, info, depth);
            && (r.Some? <==> trees.Some?)
            && (r.Some? ==> r.value
                            == TMap(tid, info, KeySpans(words, info).value, ValueSpans(words, info).value, trees.value))
  {
    hide MapWords, Prod, KeySpans, ValueSpans, ChildTrees, IndexByteLength, Typed, ParseMap, EncMap, Formed, CellsAt,
        BestWidth;
    MapCells(words, types, tid, loc, node, plan, hash);
    ParseMapParts(words, types, tid, node.keyKind, node.valueKind, types[tid].child, loc, depth);
  }

  lemma PlanSlotted(node: Node, plan: MapPlan, hash: Hash)
    requires node.MapNode? && |plan.ks| == |plan.vs| && |plan.index| > 0 && WordAt(plan.index, 0) < 0x1000_0000
    requires EncMap(node, plan, MapWords(plan.index, plan.ks, plan.vs), hash)
    ensures Slotted(node.entries, plan, hash) && |plan.order| == |node.entries| == |plan.ks|
    ensures forall i | 0 <= i < |node.entries| :: i in plan.order
  {
    hide Enc, Perfect, MapWords, Locate;
  }
}
