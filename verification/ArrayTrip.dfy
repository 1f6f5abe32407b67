/** Arrays are recovered from their encoding. */
module ArrayTrip {
  import opened Words
  import opened Layout
  import opened Strings
  import opened Serialize
  import opened Schema
  import opened HashGraph
  import opened Arena
  import opened Decode
  import opened Values
  import opened Objects
  import opened Visitor
  import opened Meaning

  /** Cell width of an array of objects. */
  function WidthOf(ws: seq<seq<u32>>): nat { if ws == [] then 1 else BestWidth(Lens(ws)) }

  /** Header of a placed array. */
  lemma ArrayHeader(words: seq<u32>, loc: Loc, ws: seq<seq<u32>>)
    requires |ws| < 0x4000_0000 && Placed(words, loc, ArrayWords(ws))
    ensures 1 <= WidthOf(ws) <= 3 && loc.at < loc.limit
    ensures words[loc.at] % 4 == WidthOf(ws) && words[loc.at] / 4 == |ws|
    ensures loc.at + 1 + Prod(WidthOf(ws), |ws|) <= loc.limit
  {
    hide ArrayWords, Prod, BestWidth, InAt;
    ArrayShape(ws);
    InAtIndex(words, loc.at, ArrayWords(ws), 0);
    HeadDigits(|ws|, WidthOf(ws));
  }

  lemma HeadDigits(n: nat, m: nat)
    requires m < 4
    ensures (4 * n + m) % 4 == m && (4 * n + m) / 4 == n
  {
  }

  lemma ElementStored(ws: seq<seq<u32>>, i: nat)
    requires i < |ws|
    ensures var m, w := WidthOf(ws), ArrayWords(ws);
            && 1 <= m <= 3 && 1 + Prod(m, i) + m <= |w|
            && if |ws[i]| > m then Outlined(w, 1 + Prod(m, i), ws[i]) else InAt(w, 1 + Prod(m, i), ws[i])
  {
    hide Cells, Kept, Prod, BestWidth, Outlined, InAt;
    BestBounds(Lens(ws));
    var m := BestWidth(Lens(ws));
    var items := ArrayItems(ws, m);
    EqualWidths(items[..i], m);
    CellStored([(4 * |ws| + m) % 0x1_0000_0000], items, i);
  }

  /** Every element cell of a placed array leads to its element. */
  lemma ElementLeads(words: seq<u32>, loc: Loc, ws: seq<seq<u32>>, i: nat)
    requires i < |ws| && Placed(words, loc, ArrayWords(ws)) && ws[i] != [] && (|ws[i]| <= 3 ==> ws[i][0] % 4 != 3)
    ensures Leads(words, loc.at + 1 + Prod(WidthOf(ws), i), WidthOf(ws), ws[i])
  {
    hide ArrayWords, Prod, Leads, Outlined, WidthOf;
    var m, w := WidthOf(ws), ArrayWords(ws);
    ElementStored(ws, i);
    if |ws[i]| > m {
      LeadsOut(words, loc.at, w, 1 + Prod(m, i), m, ws[i]);
    } else {
      LeadsInline(words, loc.at, w, 1 + Prod(m, i), m, ws[i]);
    }
  }

  /** Arrays of strings or byte arrays. */
  lemma StringArray(words: seq<u32>, types: Types, tid: nat, loc: Loc, depth: nat, node: Node, ws: seq<seq<u32>>,
                    hash: Hash)
    requires depth <= MAXDEPTH && node.ArrayNode? && IsBytes(node.kind) && Formed(node)
    requires Typed(types, KArray, tid, node)
    requires EncArray(node, ws, ArrayWords(ws), hash) && Placed(words, loc, ArrayWords(ws))
    ensures Recovers(words, types, tid, loc, depth, node)
  {
    hide ArrayWords, Prod, Leads, WidthOf, StringWords, ParseSpans, SpanValue;
    ArrayHeader(words, loc, ws);
    var strings := seq(|ws|, i requires 0 <= i < |ws| => ElementBytes(node.elems[i]));
    forall i | 0 <= i < |ws|
      ensures |strings[i]| < 0x4000_0000
      ensures Leads(words, loc.at + 1 + Prod(WidthOf(ws), i), WidthOf(ws), StringWords(strings[i]))
    {
      assert node.elems[i].BytesNode? && Enc(node.elems[i], ws[i], hash);
      TagUnambiguous(node.elems[i], ws[i], hash);
      ElementLeads(words, loc, ws, i);
    }
    SpansRecovered(words, loc.at + 1, WidthOf(ws), WidthOf(ws), strings);
    SameElements(words, types, tid, loc, depth, node);
  }

  /** Equal elements make equal arrays. */
  lemma SameElements(words: seq<u32>, types: Types, tid: nat, loc: Loc, depth: nat, node: Node)
    requires depth <= MAXDEPTH && loc.limit <= |words| && Parse(words, types, tid, loc, depth).Some?
    requires Readable(types, tid, node, depth)
    requires ValueOf(words, Parse(words, types, tid, loc, depth).value).VArray? && NodeValue(types, tid, node).VArray?
    requires var a, b := ValueOf(words, Parse(words, types, tid, loc, depth).value).elems,
                         NodeValue(types, tid, node).elems;
             |a| == |b| && forall i | 0 <= i < |a| :: a[i] == b[i]
    ensures Recovers(words, types, tid, loc, depth, node)
  {
    hide Parse, ValueOf, NodeValue, Readable;
    var a, b := ValueOf(words, Parse(words, types, tid, loc, depth).value).elems, NodeValue(types, tid, node).elems;
    assert a == b;
  }

  function ElementBytes(node: Node): seq<byte> { if node.BytesNode? then node.bytes else [] }

  /** Arrays of complex elements, from what is known of every element. */
  lemma ComplexArray(words: seq<u32>, types: Types, tid: nat, loc: Loc, depth: nat, node: Node, ws: seq<seq<u32>>,
                     hash: Hash)
    requires depth <= MAXDEPTH && node.ArrayNode? && IsComplex(node.kind) && Formed(node)
    requires Typed(types, KArray, tid, node)
    requires EncArray(node, ws, ArrayWords(ws), hash) && Placed(words, loc, ArrayWords(ws))
    requires depth < MAXDEPTH ==> forall i | 0 <= i < |ws| ::
               CellOk(words, types, types[tid].child, loc.at + 1 + Prod(WidthOf(ws), i), WidthOf(ws), depth,
                      node.elems[i])
    ensures Recovers(words, types, tid, loc, depth, node)
  {
    hide ArrayWords, Prod, WidthOf, ParseChildren, CellOk, Recovers, Formed, Enc, InAt;
    ArrayHeader(words, loc, ws);
    if depth < MAXDEPTH {
      ChildrenRecovered(words, types, types[tid].child, loc.at + 1, WidthOf(ws), WidthOf(ws), depth, node.elems);
      ArrayOfTrees(words, types, tid, loc, depth, node, ws);
    } else {
      ArrayTooDeep(words, types, tid, loc, node);
    }
  }

  lemma ArrayTooDeep(words: seq<u32>, types: Types, tid: nat, loc: Loc, node: Node)
    requires node.ArrayNode? && IsComplex(node.kind) && loc.at < loc.limit <= |words|
    requires tid < |types| && types[tid].ArrayType? && types[tid].value == node.kind
    ensures Recovers(words, types, tid, loc, MAXDEPTH, node)
  {
    hide Prod;
    assert Parse(words, types, tid, loc, MAXDEPTH)
           == ParseArray(words, types, tid, node.kind, types[tid].child, loc, MAXDEPTH);
  }

  lemma ArrayOfTrees(words: seq<u32>, types: Types, tid: nat, loc: Loc, depth: nat, node: Node, ws: seq<seq<u32>>)
    requires depth < MAXDEPTH && node.ArrayNode? && IsComplex(node.kind) && loc.at < loc.limit <= |words|
    requires |ws| == |node.elems|
    requires tid < |types| && types[tid].ArrayType? && types[tid].value == node.kind
    requires 1 <= WidthOf(ws) <= 3 && words[loc.at] % 4 == WidthOf(ws) && words[loc.at] / 4 == |ws|
    requires loc.at + 1 + Prod(WidthOf(ws), |ws|) <= loc.limit
    requires var r := ParseChildren(words, types, types[tid].child, loc.at + 1, WidthOf(ws), WidthOf(ws), |ws|, depth);
             && (r.Some? <==> forall i | 0 <= i < |ws| :: Readable(types, types[tid].child, node.elems[i], depth + 1))
             && (r.Some? ==> |r.value| == |ws| && forall i | 0 <= i < |ws| ::
                   ValueOf(words, r.value[i]) == NodeValue(types, types[tid].child, node.elems[i]))
    ensures Recovers(words, types, tid, loc, depth, node)
  {
    hide Prod, WidthOf, ParseChildren;
    var child := types[tid].child;
    var r := ParseChildren(words, types, child, loc.at + 1, WidthOf(ws), WidthOf(ws), |ws|, depth);
    assert Parse(words, types, tid, loc, depth) == ParseArray(words, types, tid, node.kind, child, loc, depth);
    assert Parse(words, types, tid, loc, depth).Some? <==> r.Some?;
    assert Readable(types, tid, node, depth) <==> forall i | 0 <= i < |node.elems| ::
             Readable(types, child, node.elems[i], depth + 1);
    if Parse(words, types, tid, loc, depth).Some? {
      SameElements(words, types, tid, loc, depth, node);
    }
  }

  /** Arrays of bools. */
  lemma BoolArray(words: seq<u32>, types: Types, tid: nat, loc: Loc, depth: nat, node: Node, c: seq<u32>, hash: Hash)
    requires depth <= MAXDEPTH && node.BoolsNode? && Typed(types, KArray, tid, node)
    requires Enc(node, c, hash) && Placed(words, loc, c)
    ensures Recovers(words, types, tid, loc, depth, node)
  {
    hide StringWords, ParseBytes, BytesIn, BoolsOf;
    StringTag(node.flags);
    StringFound(words, loc, node.flags);
    var r := Parse(words, types, tid, loc, depth);
    assert r == ParseArray(words, types, tid, types[tid].value, types[tid].child, loc, depth);
    var p := ParseBytes(words, loc).value;
    assert r == Some(TBools(tid, p.0, p.1));
    assert NodeValue(types, tid, node) == VArray(BoolsOf(node.flags));
  }

  lemma {:induction false} ConcatAt(items: seq<seq<u32>>, m: nat, i: nat)
    requires (forall k | 0 <= k < |items| :: |items[k]| == m) && i <= |items|
    ensures |Concat(items)| == Prod(m, |items|)
    ensures i < |items| ==> InAt(Concat(items), Prod(m, i), items[i])
    decreases |items|
  {
    hide Prod;
    ProdZero(m);
    if items != [] {
      var rest := items[1..];
      ConcatAt(rest, m, if i == 0 then 0 else i - 1);
      ProdNext(m, |rest|);
      if i == 0 {
        SliceFront(items[0], Concat(rest));
      } else if i < |items| {
        ProdNext(m, i - 1);
        SliceAfter(items[0], Concat(rest), Prod(m, i - 1), m);
      }
    }
  }

  /** Arrays of scalars other than bools. */
  lemma ScalarArray(words: seq<u32>, types: Types, tid: nat, loc: Loc, depth: nat, node: Node, c: seq<u32>, hash: Hash)
    requires depth <= MAXDEPTH && node.ScalarsNode? && Formed(node) && Typed(types, KArray, tid, node)
    requires Enc(node, c, hash) && Placed(words, loc, c)
    ensures Recovers(words, types, tid, loc, depth, node)
  {
    hide Concat, Prod, ScalarAt;
    var kind, items := node.kind, node.items;
    var m := ScalarWidth(kind);
    ConcatAt(items, m, 0);
    InAtIndex(words, loc.at, c, 0);
    assert words[loc.at] == 4 * |items| + m;
    forall i | 0 <= i < |items| ensures ScalarAt(words, kind, loc.at + 1 + Prod(m, i)) == ScalarValue(kind, items[i]) {
      ScalarItem(words, loc, kind, items, i);
    }
    SameElements(words, types, tid, loc, depth, node);
  }

  lemma ScalarItem(words: seq<u32>, loc: Loc, kind: Kind, items: seq<seq<u32>>, i: nat)
    requires Placed(words, loc, ScalarsWords(kind, items)) && i < |items| && forall k | 0 <= k < |items| ::
               |items[k]| == ScalarWidth(kind)
    ensures ScalarAt(words, kind, loc.at + 1 + Prod(ScalarWidth(kind), i)) == ScalarValue(kind, items[i])
  {
    hide Concat, Prod, ScalarValue;
    var m := ScalarWidth(kind);
    var w, all := ScalarsWords(kind, items), Concat(items);
    ConcatAt(items, m, i);
    assert InAt(w, 1, all) by { assert w[1..1 + |all|] == all; }
    InAtTrans(w, 1, all, Prod(m, i), items[i]);
    InAtTrans(words, loc.at, w, 1 + Prod(m, i), items[i]);
  }
}
