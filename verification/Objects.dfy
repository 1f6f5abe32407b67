/**
 Finding an encoded object again: the offset tag never collides with an
 object kept in its cell, so following a cell always ends at the object
 (data-format.md, Field::GetObject of include/protocache/access.h,
 ObjectLocation of typescript/wasm/decode_tape.cc).
 */
module Objects {
  import opened Words
  import opened Swar
  import opened Layout
  import opened Strings
  import opened Serialize
  import opened Messages
  import opened HashGraph
  import opened HashIndex
  import opened Arena
  import opened ArenaWriter
  import opened Decode
  import opened Values

  // ---------------------------------------------------------------------
  // The first word of an object
  // ---------------------------------------------------------------------

  lemma FirstDigit(n: nat)
    ensures VarInt(n) != [] && (n % 4 == 0 ==> VarInt(n)[0] % 4 == 0)
  {
  }

  lemma StringTag(bytes: seq<byte>)
    ensures StringWords(bytes) != [] && StringWords(bytes)[0] % 4 == 0
  {
    hide VarInt;
    var all := StringBytes(bytes);
    var n := 4 * |bytes|;
    FirstDigit(n);
    assert VarInt(n)[0] % 4 == 0;
    assert all[0] == VarInt(n)[0];
    assert StringWords(bytes)[0] == WordAt(all, 0);
  }

  lemma {:induction false} EqualWidths(items: seq<Item>, m: nat)
    requires forall i | 0 <= i < |items| :: items[i].width == m
    ensures WidthSum(items) == Prod(m, |items|)
  {
    if items == [] {
      ProdIsProduct(m, 0);
    } else {
      EqualWidths(items[1..], m);
      ProdNext(m, |items| - 1);
    }
  }

  /** Header and size of an array of objects. */
  lemma ArrayShape(ws: seq<seq<u32>>)
    requires |ws| < 0x4000_0000
    ensures var m := if ws == [] then 1 else BestWidth(Lens(ws));
            && 1 <= m <= 3 && ArrayWords(ws) != [] && ArrayWords(ws)[0] == 4 * |ws| + m
            && 1 + Prod(m, |ws|) <= |ArrayWords(ws)|
  {
    hide Cells, Kept, Prod, BestWidth;
    if ws == [] {
      ProdIsProduct(1, 0);
    } else {
      BestBounds(Lens(ws));
      var m := BestWidth(Lens(ws));
      var items := ArrayItems(ws, m);
      Sizes(items, 0);
      EqualWidths(items, m);
    }
  }

  lemma MapHeadWord(index: seq<byte>, ks: seq<seq<u32>>, vs: seq<seq<u32>>)
    requires |ks| == |vs| && |index| > 0 && WordAt(index, 0) < 0x1000_0000
    ensures var w, m1, m2 := MapWords(index, ks, vs), BestWidth(Lens(ks)), BestWidth(Lens(vs));
            && 1 <= m1 <= 3 && 1 <= m2 <= 3 && |w| >= WordSize(|index|) > 0
            && w[0] == WordAt(index, 0) + 0x4000_0000 * m1 + 0x1000_0000 * m2
  {
    hide Cells, Kept, BestWidth, MapItems, PackWords;
    BestBounds(Lens(ks));
    BestBounds(Lens(vs));
    PackedLength(index);
  }

  lemma PackedLength(bytes: seq<byte>)
    ensures |PackWords(bytes)| == WordSize(|bytes|)
  {
  }

  lemma IndexWords(n: nat)
    requires n < LIMIT
    ensures n >= 2 ==> WordSize(IndexBytes(n)) >= 4
  {
  }

  /**
   The tag is unambiguous: no object of up to three words starts with a word
   that ends in `11`.
   */
  lemma {:induction false} TagUnambiguous(node: Node, w: seq<u32>, hash: Hash)
    requires Enc(node, w, hash) && Formed(node) && !node.NoneNode? && !node.ScalarNode?
    ensures w != [] && (|w| <= 3 ==> w[0] % 4 != 3)
  {
    hide EncArray, EncMap, EncMessage, StringWords;
    match node
    case BytesNode(_, bytes) => StringTag(bytes);
    case BoolsNode(flags) => StringTag(flags);
    case ScalarsNode(kind, items) =>
    case ArrayNode(_, _) =>
      var ws: seq<seq<u32>> :| EncArray(node, ws, w, hash);
      ArrayTag(node, ws, w, hash);
    case MapNode(_, _, entries) =>
      if entries != [] {
        var plan: MapPlan :| EncMap(node, plan, w, hash);
        MapTag(node, plan, w, hash);
      }
    case MessageNode(_, _) =>
      var plan: MessagePlan :| EncMessage(node, plan, w, hash);
      MessageTag(node, plan, w, hash);
  }

  lemma ArrayTag(node: Node, ws: seq<seq<u32>>, w: seq<u32>, hash: Hash)
    requires node.ArrayNode? && EncArray(node, ws, w, hash)
    ensures w != [] && (|w| <= 3 ==> w[0] % 4 != 3)
  {
    hide ArrayWords, Enc, Prod;
    ArrayShape(ws);
    ProdIsProduct(if ws == [] then 1 else BestWidth(Lens(ws)), |ws|);
  }

  lemma MapTag(node: Node, plan: MapPlan, w: seq<u32>, hash: Hash)
    requires node.MapNode? && EncMap(node, plan, w, hash)
    ensures w != [] && (|w| <= 3 ==> w[0] % 4 != 3)
  {
    hide MapWords, Enc, IndexBytes, BestWidth, Locate;
    MapHeadWord(plan.index, plan.ks, plan.vs);
    IndexHead(plan.index, hash, KeysOf(node.entries));
    IndexWords(|node.entries|);
  }

  lemma MessageTag(node: Node, plan: MessagePlan, w: seq<u32>, hash: Hash)
    requires node.MessageNode? && EncMessage(node, plan, w, hash)
    ensures w != [] && (|w| <= 3 ==> w[0] % 4 != 3)
  {
    hide Enc, MessageHead, Sum, HeadOk, FieldStored;
    HeadWord(w, 0, plan.widths);
    HeadLength(plan.widths);
  }

  // ---------------------------------------------------------------------
  // Following a cell
  // ---------------------------------------------------------------------

  /** The cell leads to the words `c`, all of them below the limit of the object. */
  ghost predicate Leads(words: seq<u32>, at: nat, width: nat, c: seq<u32>) {
    var loc := ObjectLocation(words, at, width);
    loc.Some? && InAt(words, loc.value.at, c) && loc.value.at + |c| <= loc.value.limit
  }

  lemma InAtTrans(words: seq<u32>, at: nat, w: seq<u32>, a: nat, c: seq<u32>)
    requires InAt(words, at, w) && InAt(w, a, c)
    ensures InAt(words, at + a, c)
  {
    SliceOfSlice(words, at, at + |w|, a, a + |c|);
  }

  lemma InAtIndex(words: seq<u32>, at: nat, w: seq<u32>, k: nat)
    requires InAt(words, at, w) && k < |w|
    ensures words[at + k] == w[k]
  {
    assert words[at + k] == words[at..at + |w|][k];
  }

  lemma LeadsInline(words: seq<u32>, at: nat, w: seq<u32>, a: nat, width: nat, c: seq<u32>)
    requires InAt(words, at, w) && InAt(w, a, c) && 0 < |c| <= width && a + width <= |w| && c[0] % 4 != 3
    ensures Leads(words, at + a, width, c)
  {
    InAtTrans(words, at, w, a, c);
    InAtIndex(words, at + a, c, 0);
  }

  lemma LeadsOut(words: seq<u32>, at: nat, w: seq<u32>, a: nat, width: nat, c: seq<u32>)
    requires |words| < 0x4000_0000 && InAt(words, at, w) && Outlined(w, a, c) && c != [] && width > 0
    ensures Leads(words, at + a, width, c)
  {
    var d: nat :| PointsTo(w, a, c, d);
    InAtTrans(words, at, w, a + d, c);
    InAtIndex(words, at, w, a);
    assert words[at + a] == 4 * d + 3;
  }

  /** A cell of an array or map, and the object it stands for. */
  lemma CellStored(head: seq<u32>, items: seq<Item>, i: nat)
    requires Wide(items) && i < |items|
    ensures var w, a := head + Cells(items, 0) + Kept(items), |head| + WidthSum(items[..i]);
            && a + items[i].width <= |head| + |Cells(items, 0)| <= |w|
            && (if items[i].Out() then Outlined(w, a, items[i].words) else InAt(w, a, items[i].words))
            && (items[i].Out() ==> PointsTo(w, a, items[i].words,
                                            |Cells(items, 0)| - WidthSum(items[..i]) + KeptSum(items[..i])))
  {
    hide Cells, Kept, WidthSum, KeptSum, Wide, Cell, PointsTo, InAt;
    CellPlace(head, items, i);
    var a, d := |head| + WidthSum(items[..i]), |Cells(items, 0)| - WidthSum(items[..i]) + KeptSum(items[..i]);
    if items[i].Out() {
      OutStored(head, items, i, a, d);
    } else {
      InStored(head, items, i, a, d);
    }
  }

  /** Where a cell is. */
  lemma CellPlace(head: seq<u32>, items: seq<Item>, i: nat)
    requires Wide(items) && i < |items|
    ensures var w, a := head + Cells(items, 0) + Kept(items), |head| + WidthSum(items[..i]);
            && a + items[i].width <= |head| + |Cells(items, 0)| <= |w|
            && WidthSum(items[..i]) + items[i].width <= |Cells(items, 0)|
            && w[a..a + items[i].width]
               == Cell(items[i], |Cells(items, 0)| - WidthSum(items[..i]) + KeptSum(items[..i]))
  {
    hide Cells, Kept, WidthSum, KeptSum, Wide, Cell;
    var cells, kept, start, width := Cells(items, 0), Kept(items), WidthSum(items[..i]), items[i].width;
    CellAt(items, 0, i);
    Assoc(head, cells, kept);
    SliceAfter(head, cells + kept, start, width);
    SliceFront(cells, kept);
    SliceOfSlice(cells + kept, 0, |cells|, start, start + width);
  }

  /** An embedding cell holds its object. */
  lemma InStored(head: seq<u32>, items: seq<Item>, i: nat, a: nat, d: nat)
    requires Wide(items) && i < |items| && !items[i].Out()
    requires var w := head + Cells(items, 0) + Kept(items);
             a + items[i].width <= |w| && w[a..a + items[i].width] == Cell(items[i], d)
    ensures InAt(head + Cells(items, 0) + Kept(items), a, items[i].words)
  {
    hide Cells, Kept, Wide;
    var w := head + Cells(items, 0) + Kept(items);
    ItemWide(items, i);
    SliceOfSlice(w, a, a + items[i].width, 0, |items[i].words|);
  }

  /** An offset cell points to its object. */
  lemma OutStored(head: seq<u32>, items: seq<Item>, i: nat, a: nat, d: nat)
    requires Wide(items) && i < |items| && items[i].Out()
    requires var w := head + Cells(items, 0) + Kept(items);
             && a + items[i].width <= |head| + |Cells(items, 0)| <= |w| && w[a..a + items[i].width] == Cell(items[i], d)
             && a + d == |head| + |Cells(items, 0)| + KeptSum(items[..i])
    ensures PointsTo(head + Cells(items, 0) + Kept(items), a, items[i].words, d)
  {
    hide Cells, Kept, KeptSum, Wide;
    var front, kept := head + Cells(items, 0), Kept(items);
    var w := front + kept;
    ItemWide(items, i);
    KeptAt(items, i);
    SliceAfter(front, kept, KeptSum(items[..i]), |items[i].words|);
    assert w[a] == w[a..a + items[i].width][0] == Offset(d);
  }

  lemma ItemWide(items: seq<Item>, i: nat)
    requires Wide(items) && i < |items|
    ensures 1 <= items[i].width <= 3
  {
  }

  /** A string is read back wherever it is stored. */
  lemma StringFound(words: seq<u32>, loc: Loc, bytes: seq<byte>)
    requires |bytes| < 0x4000_0000 && InAt(words, loc.at, StringWords(bytes))
    requires loc.at + |StringWords(bytes)| <= loc.limit <= |words|
    ensures var r := ParseBytes(words, loc);
            r.Some? && r.value.1 == |bytes| && BytesIn(words, r.value.0, r.value.1) == bytes
  {
    hide ParseVar, VarInt, BytesOf, PackWords;
    var slice := StringSlice(words, loc, bytes);
    HeaderParsed(slice, bytes);
    StringTag(bytes);
    BytesLength(words);
    var used := |VarInt(4 * |bytes|)|;
    SliceOfSlice(BytesOf(words), 4 * loc.at, 4 * loc.limit, used, used + |bytes|);
  }

  lemma HeaderParsed(slice: seq<byte>, bytes: seq<byte>)
    requires |bytes| < 0x4000_0000 && |StringBytes(bytes)| <= |slice|
    requires slice[..|StringBytes(bytes)|] == StringBytes(bytes)
    ensures var used := |VarInt(4 * |bytes|)|;
            && ParseVar(slice, 5) == Some((4 * |bytes|, used))
            && used + |bytes| <= |slice| && slice[used..used + |bytes|] == bytes
  {
    hide ParseVar, VarInt;
    var head, all := VarInt(4 * |bytes|), StringBytes(bytes);
    var rest := slice[|all|..];
    assert slice == all + rest == head + (bytes + rest);
    Pow128Known();
    VarIntRoundTrip(4 * |bytes|, 5, bytes + rest);
    assert (head + (bytes + rest))[|head|..|head| + |bytes|] == bytes;
  }

  lemma BytesLength(words: seq<u32>)
    ensures |BytesOf(words)| == 4 * |words|
  {
  }

  lemma SlicedFront<T>(s: seq<T>, part: seq<T>, front: seq<T>, a: nat, b: nat, c: nat)
    requires a <= b <= c <= |s| && part == s[a..b] && |front| <= |part| && part[..|front|] == front
    ensures |front| <= c - a && s[a..c][..|front|] == front
  {
    SliceOfSlice(s, a, c, 0, |front|);
    SliceOfSlice(s, a, b, 0, |front|);
  }

  lemma StringPacked(bytes: seq<byte>)
    ensures |StringBytes(bytes)| <= |BytesOf(StringWords(bytes))| == 4 * |StringWords(bytes)|
    ensures BytesOf(StringWords(bytes))[..|StringBytes(bytes)|] == StringBytes(bytes)
  {
    hide VarInt, BytesOf, StringBytes;
    PackedBytes(StringBytes(bytes));
    BytesLength(StringWords(bytes));
  }

  lemma StringSlice(words: seq<u32>, loc: Loc, bytes: seq<byte>) returns (slice: seq<byte>)
    requires InAt(words, loc.at, StringWords(bytes)) && loc.at + |StringWords(bytes)| <= loc.limit <= |words|
    ensures |BytesOf(words)| == 4 * |words| && slice == BytesOf(words)[4 * loc.at..4 * loc.limit]
    ensures |StringBytes(bytes)| <= |slice| && slice[..|StringBytes(bytes)|] == StringBytes(bytes)
  {
    hide VarInt, BytesOf, StringBytes, StringWords;
    BytesLength(words);
    var n := |StringWords(bytes)|;
    StringPacked(bytes);
    BytesOfSlice(words, loc.at, loc.at + n);
    slice := BytesOf(words)[4 * loc.at..4 * loc.limit];
    SlicedFront(BytesOf(words), BytesOf(StringWords(bytes)), StringBytes(bytes), 4 * loc.at, 4 * (loc.at + n),
                4 * loc.limit);
  }
}
