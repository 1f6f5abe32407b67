/**
 The whole-value round trip: what SerializeNode writes, Visit accepts and
 materialize rebuilds (typescript/wasm/serialize_arena.cc,
 typescript/wasm/decode_tape.cc, typescript/src/deserialize-tape.ts).
 */
module RoundTrip {
  import opened Words
  import opened Strings
  import opened Serialize
  import opened Messages
  import opened Schema
  import opened HashGraph
  import opened HashIndex
  import opened HashBuild
  import opened Arena
  import opened ArenaWriter
  import EncodingSize
  import opened Decode
  import opened Values
  import opened Tapes
  import opened Objects
  import opened Headers
  import opened Meaning
  import opened MessageTrip
  import opened ArrayTrip
  import opened MapTrip
  import opened Visitor
  import opened Deserializer

  // ---------------------------------------------------------------------
  // Messages
  // ---------------------------------------------------------------------

  /** A message is recovered when every field of its type is. */
  lemma MessageOfFields(words: seq<u32>, types: Types, tid: nat, loc: Loc, depth: nat, node: Node)
    requires depth <= MAXDEPTH && loc.limit <= |words| && tid < |types| && types[tid].MessageType? && node.MessageNode?
    requires HeaderInside(words, loc.at) && BodyStart(words, loc.at) + BodyWords(words, loc.at) <= loc.limit
    requires FieldsInside(words, loc)
    requires forall i | 0 <= i < |types[tid].fields| ::
               FieldOk(words, types, types[tid].fields[i], loc, depth, node.fields)
    ensures Recovers(words, types, tid, loc, depth, node)
  {
    hide ParseField, ParseFields, FieldReadable, FieldNodeValue, FieldValue, BodyWords, FieldsInside;
    var plans := types[tid].fields;
    MessageMeaning(types, tid, node, depth);
    if forall i | 0 <= i < |plans| :: FieldReadable(types, plans[i], node.fields, depth) {
      var fs := seq(|plans|, i requires 0 <= i < |plans| => ParseField(words, types, plans[i], loc, depth).value);
      FieldsAll(words, types, plans, loc, depth, fs);
      var r := Parse(words, types, tid, loc, depth);
      assert r == Some(TMessage(tid, fs));
      TreeFields(words, tid, fs);
      var a, b := ValueOf(words, r.value).fields, NodeValue(types, tid, node).fields;
      assert a == b;
    } else {
      var i :| 0 <= i < |plans| && !FieldReadable(types, plans[i], node.fields, depth);
      FieldParsed(words, types, plans, loc, depth, i);
    }
  }

  lemma TreeFields(words: seq<u32>, tid: nat, fs: seq<TField>)
    ensures ValueOf(words, TMessage(tid, fs)).VMessage?
    ensures var a := ValueOf(words, TMessage(tid, fs)).fields;
            |a| == |fs| && forall i | 0 <= i < |fs| :: a[i] == FieldValue(words, fs[i])
  {
  }

  lemma MessageMeaning(types: Types, tid: nat, node: Node, depth: nat)
    requires tid < |types| && types[tid].MessageType? && node.MessageNode?
    ensures var plans := types[tid].fields;
            && (Readable(types, tid, node, depth) <==> forall i | 0 <= i < |plans| ::
                  FieldReadable(types, plans[i], node.fields, depth))
            && NodeValue(types, tid, node).VMessage? && |NodeValue(types, tid, node).fields| == |plans|
            && forall i | 0 <= i < |plans| ::
                 NodeValue(types, tid, node).fields[i] == FieldNodeValue(types, plans[i], node.fields)
  {
    var plans := types[tid].fields;
    assert PlansOf(types, tid) == plans;
    if forall i | 0 <= i < |plans| :: FieldReadable(types, plans[i], node.fields, depth) {
      forall i | 0 <= i < |PlansOf(types, tid)|
        ensures var plan := PlansOf(types, tid)[i];
                var k := FieldIndex(node.fields, plan.id, 0);
                k < |node.fields| && IsComplex(plan.kind) && !node.fields[k].1.NoneNode? ==>
                  depth < MAXDEPTH && Readable(types, plan.child, node.fields[k].1, depth + 1)
      {
        assert FieldReadable(types, plans[i], node.fields, depth);
      }
      assert Readable(types, tid, node, depth);
    } else {
      var i :| 0 <= i < |plans| && !FieldReadable(types, plans[i], node.fields, depth);
      assert PlansOf(types, tid)[i] == plans[i];
      assert !Readable(types, tid, node, depth);
    }
  }

  // ---------------------------------------------------------------------
  // Empty maps
  // ---------------------------------------------------------------------

  lemma EmptyMapRecovered(words: seq<u32>, types: Types, tid: nat, loc: Loc, depth: nat, node: Node)
    requires depth <= MAXDEPTH && node.MapNode? && node.entries == [] && Formed(node) && Typed(types, KMap, tid, node)
          && Placed(words, loc, EmptyMap)
    ensures Recovers(words, types, tid, loc, depth, node)
  {
    hide IndexByteLength, Prod, ParseSpans, ParseChildren;
    var info := EmptyInfo(words, loc, node.keyKind, node.valueKind);
    NothingParsed(words, types, types[tid].child, info, depth);
    var r := Parse(words, types, tid, loc, depth);
    assert r == ParseMap(words, types, tid, node.keyKind, node.valueKind, types[tid].child, loc, depth);
    assert node.keyKind.KString? || ScalarWidth(node.keyKind) > 0;
    assert r.Some? <==> ScalarWidth(node.keyKind) != 2 && ScalarWidth(node.valueKind) != 2
                        && (IsComplex(node.valueKind) ==> depth < MAXDEPTH);
    if r.Some? {
      assert r.value == TMap(tid, info, [], [], []);
      assert Entries(words, r.value) == [] && PairsOf(types, tid, node) == [];
    }
  }

  /** The header word of an empty map says width one for keys and for values. */
  lemma EmptyInfo(words: seq<u32>, loc: Loc, key: Kind, value: Kind) returns (info: MapHeadInfo)
    requires Placed(words, loc, EmptyMap)
    ensures loc.at < loc.limit
    ensures info == MapInfo(words, key, value, loc.at) == MapHeadInfo(key, value, 0, loc.at + 1, 1, 1)
    ensures info.body + Prod(info.keyWidth + info.valueWidth, info.count) <= loc.limit
  {
    hide IndexByteLength, Prod;
    InAtIndex(words, loc.at, EmptyMap, 0);
    EmptyIndex();
    ProdZero(2);
    info := MapInfo(words, key, value, loc.at);
  }

  lemma NothingParsed(words: seq<u32>, types: Types, child: nat, info: MapHeadInfo, depth: nat)
    requires info.count == 0
    ensures ParseSpans(words, info.body, info.keyWidth + info.valueWidth, info.keyWidth, info.count) == Some([])
    ensures ParseSpans(words, info.body + info.keyWidth, info.keyWidth + info.valueWidth, info.valueWidth,
                       info.count) == Some([])
    ensures depth < MAXDEPTH ==> ParseChildren(words, types, child, info.body + info.keyWidth,
          info.keyWidth + info.valueWidth, info.valueWidth, info.count, depth) == Some([])
  {
  }

  lemma EmptyIndex()
    ensures IndexByteLength(0) == 4
  {
  }

  // ---------------------------------------------------------------------
  // All trees
  // ---------------------------------------------------------------------

  /**
   Every well-typed tree is recovered from its encoding wherever that lies:
   the decoder accepts it if and only if it is readable at this depth, and what
   it locates is the value of the tree.
   */
  lemma {:induction false} Recovered(words: seq<u32>, types: Types, kind: Kind, tid: nat, loc: Loc, depth: nat,
        node: Node, c: seq<u32>, hash: Hash)
    requires depth <= MAXDEPTH && IsComplex(kind) && Typed(types, kind, tid, node) && Formed(node)
    requires Enc(node, c, hash) && Placed(words, loc, c)
    ensures Recovers(words, types, tid, loc, depth, node)
    decreases node, 3
  {
    hide Recovers, Placed, EncArray, EncMap, EncMessage, ArrayWords, MapWords, ScalarsWords, StringWords;
    match node
    case NoneNode =>
    case ScalarNode(_, _) =>
    case BytesNode(_, _) =>
    case BoolsNode(_) =>
      BoolArray(words, types, tid, loc, depth, node, c, hash);
    case ScalarsNode(_, _) =>
      ScalarArray(words, types, tid, loc, depth, node, c, hash);
    case ArrayNode(_, _) =>
      var ws: seq<seq<u32>> :| EncArray(node, ws, c, hash);
      ArrayTree(words, types, tid, loc, depth, node, ws, c, hash);
    case MapNode(_, _, entries) =>
      if entries == [] {
        EmptyMapRecovered(words, types, tid, loc, depth, node);
      } else {
        var plan: MapPlan :| EncMap(node, plan, c, hash);
        MapTree(words, types, tid, loc, depth, node, plan, c, hash);
      }
    case MessageNode(_, _) =>
      var plan: MessagePlan :| EncMessage(node, plan, c, hash);
      MessageTree(words, types, tid, loc, depth, node, plan, c, hash);
  }

  lemma {:induction false} CellRecovered(words: seq<u32>, types: Types, kind: Kind, child: nat, at: nat, width: nat,
        depth: nat, node: Node, c: seq<u32>, hash: Hash)
    requires depth < MAXDEPTH && |words| < 0x4000_0000 && Leads(words, at, width, c)
    requires IsComplex(kind) && Typed(types, kind, child, node) && Formed(node) && Enc(node, c, hash)
    ensures CellOk(words, types, child, at, width, depth, node)
    decreases node, 4
  {
    hide Typed, Formed, Enc, Readable, NodeValue, ValueOf, Parse;
    var loc := ObjectLocation(words, at, width).value;
    Recovered(words, types, kind, child, loc, depth + 1, node, c, hash);
  }

  lemma {:induction false} ArrayTree(words: seq<u32>, types: Types, tid: nat, loc: Loc, depth: nat, node: Node,
        ws: seq<seq<u32>>, c: seq<u32>, hash: Hash)
    requires depth <= MAXDEPTH && node.ArrayNode? && Typed(types, KArray, tid, node) && Formed(node)
    requires EncArray(node, ws, c, hash) && Placed(words, loc, c)
    ensures Recovers(words, types, tid, loc, depth, node)
    decreases node, 2
  {
    hide Recovers, ArrayWords, Prod, WidthOf, CellOk, Leads, Enc, InAt;
    if IsBytes(node.kind) {
      StringArray(words, types, tid, loc, depth, node, ws, hash);
    } else {
      if depth < MAXDEPTH {
        forall i | 0 <= i < |ws|
          ensures CellOk(words, types, types[tid].child, loc.at + 1 + Prod(WidthOf(ws), i), WidthOf(ws), depth,
                         node.elems[i])
        {
          assert Typed(types, node.kind, types[tid].child, node.elems[i]) && NodeKind(node.elems[i]) == Some(node.kind);
          assert Enc(node.elems[i], ws[i], hash) && Formed(node.elems[i]);
          TagUnambiguous(node.elems[i], ws[i], hash);
          ElementLeads(words, loc, ws, i);
          CellRecovered(words, types, node.kind, types[tid].child, loc.at + 1 + Prod(WidthOf(ws), i), WidthOf(ws),
                        depth,
                node.elems[i], ws[i], hash);
        }
      }
      ComplexArray(words, types, tid, loc, depth, node, ws, hash);
    }
  }

  lemma {:induction false} MapTree(words: seq<u32>, types: Types, tid: nat, loc: Loc, depth: nat, node: Node,
        plan: MapPlan, c: seq<u32>, hash: Hash)
    requires depth <= MAXDEPTH && node.MapNode? && node.entries != [] && Typed(types, KMap, tid, node) && Formed(node)
    requires EncMap(node, plan, c, hash) && Placed(words, loc, c)
    ensures Recovers(words, types, tid, loc, depth, node)
    decreases node, 2
  {
    hide Recovers, MapWords, Prod, CellOk, Leads, Enc, InAt, IndexByteLength, Locate, Perfect, BestWidth, Formed, Typed;
    assert MapPlaced(words, types, tid, loc, node, plan, hash);
    MapTyped(types, tid, node);
    MapCells(words, types, tid, loc, node, plan, hash);
    if IsComplex(node.valueKind) && depth < MAXDEPTH {
      var info := MapInfo(words, node.keyKind, node.valueKind, loc.at);
      forall s | 0 <= s < |plan.vs|
        ensures CellOk(words, types, types[tid].child, info.body + info.keyWidth + Prod(info.keyWidth + info.valueWidth,
              s), info.valueWidth, depth, node.entries[plan.order[s]].1)
      {
        MapEntryTree(words, types, tid, loc, depth, node, plan, hash, s);
      }
    }
    MapRecovered(words, types, tid, loc, depth, node, plan, hash);
  }

  lemma {:induction false} MapEntryTree(words: seq<u32>, types: Types, tid: nat, loc: Loc, depth: nat, node: Node,
        plan: MapPlan, hash: Hash, s: nat)
    requires depth < MAXDEPTH && MapPlaced(words, types, tid, loc, node, plan, hash) && IsComplex(node.valueKind)
    requires loc.at < |words| && |plan.order| == |plan.vs| == |node.entries| && s < |plan.vs|
    requires plan.order[s] < |node.entries|
    ensures var info := MapInfo(words, node.keyKind, node.valueKind, loc.at);
            CellOk(words, types, types[tid].child, info.body + info.keyWidth + Prod(info.keyWidth + info.valueWidth, s),
                  info.valueWidth, depth, node.entries[plan.order[s]].1)
    decreases node, 0
  {
    hide MapWords, Prod, CellOk, Leads, Enc, InAt, IndexByteLength, Locate, Perfect, BestWidth;
    MapCells(words, types, tid, loc, node, plan, hash);
    var info := MapInfo(words, node.keyKind, node.valueKind, loc.at);
    var value, i := node.entries[plan.order[s]].1, plan.order[s];
    assert Typed(types, node.valueKind, types[tid].child, node.entries[i].1) && Formed(node.entries[i].1);
    assert Enc(node.entries[plan.order[s]].1, plan.vs[s], hash);
    TagUnambiguous(value, plan.vs[s], hash);
    CellRecovered(words, types, node.valueKind, types[tid].child,
          info.body + info.keyWidth + Prod(info.keyWidth + info.valueWidth, s), info.valueWidth, depth, value,
              plan.vs[s], hash);
  }

  lemma {:induction false} MessageTree(words: seq<u32>, types: Types, tid: nat, loc: Loc, depth: nat, node: Node,
        plan: MessagePlan, c: seq<u32>, hash: Hash)
    requires depth <= MAXDEPTH && node.MessageNode? && Typed(types, KMessage, tid, node) && Formed(node)
    requires EncMessage(node, plan, c, hash) && Placed(words, loc, c)
    ensures Recovers(words, types, tid, loc, depth, node)
    decreases node, 2
  {
    hide Recovers, EncMessage, MessageHead, BodyWords, FieldsInside, FieldOk, HeadOk, HeadAt;
    MessagePlaced(words, loc, node, plan, c, hash);
    HeaderWritten(words, loc.at, plan.widths);
    BodyReadsBack(words, loc.at, plan.widths);
    CellsReadInside(words, loc, plan.widths);
    forall i | 0 <= i < |types[tid].fields|
      ensures FieldOk(words, types, types[tid].fields[i], loc, depth, node.fields)
    {
      FieldTree(words, types, types[tid].fields[i], loc, depth, node, plan, c, hash);
    }
    MessageOfFields(words, types, tid, loc, depth, node);
  }

  /** One field of a message. */
  lemma {:induction false} FieldTree(words: seq<u32>, types: Types, plan: FieldPlan, loc: Loc, depth: nat, node: Node,
        mp: MessagePlan, c: seq<u32>, hash: Hash)
    requires depth <= MAXDEPTH && node.MessageNode? && Formed(node) && EncMessage(node, mp, c, hash)
    requires Placed(words, loc, c)
    requires HeaderInside(words, loc.at)
    requires var k := FieldIndex(node.fields, plan.id, 0);
             k < |node.fields| && !node.fields[k].1.NoneNode? ==> Typed(types, plan.kind, plan.child, node.fields[k].1)
    ensures FieldOk(words, types, plan, loc, depth, node.fields)
    decreases node, 0
  {
    hide FieldOk, EncMessage, Placed, Enc, Scan;
    var k := FieldIndex(node.fields, plan.id, 0);
    if k == |node.fields| || node.fields[k].1.NoneNode? {
      AbsentField(words, types, plan, loc, depth, node, mp, c, hash);
    } else {
      var child := node.fields[k].1;
      assert Formed(child) && NodeKind(child) == Some(plan.kind);
      if child.ScalarNode? {
        ScalarField(words, types, plan, loc, depth, node, mp, c, hash, k);
      } else if child.BytesNode? {
        BytesField(words, types, plan, loc, depth, node, mp, c, hash, k);
      } else {
        ComplexFieldLeads(words, plan, loc, node, mp, c, hash, k);
        if depth < MAXDEPTH {
          FieldEncoded(node, mp, c, hash, k);
          var (off, width) := Scan(words, loc.at, plan.id);
          PlacedShort(words, loc, c);
          CellRecovered(words, types, plan.kind, plan.child, off, width, depth, child, mp.cs[k], hash);
        }
        ComplexFieldOk(words, types, plan, loc, depth, node, k);
      }
    }
  }

  lemma PlacedShort(words: seq<u32>, loc: Loc, c: seq<u32>)
    requires Placed(words, loc, c)
    ensures |words| < 0x4000_0000
  {
  }

  lemma FieldEncoded(node: Node, mp: MessagePlan, c: seq<u32>, hash: Hash, k: nat)
    requires node.MessageNode? && EncMessage(node, mp, c, hash) && k < |node.fields|
    ensures |mp.cs| == |node.fields| && Enc(node.fields[k].1, mp.cs[k], hash)
  {
    hide Enc, FieldStored, HeadAt, HeadOk, MessageHead;
  }

  lemma ComplexFieldOk(words: seq<u32>, types: Types, plan: FieldPlan, loc: Loc, depth: nat, node: Node, k: nat)
    requires depth <= MAXDEPTH && node.MessageNode? && HeaderInside(words, loc.at) && IsComplex(plan.kind)
    requires k == FieldIndex(node.fields, plan.id, 0) < |node.fields| && !node.fields[k].1.NoneNode?
    requires var (off, width) := Scan(words, loc.at, plan.id);
             width > 0 && (depth < MAXDEPTH ==> CellOk(words, types, plan.child, off, width, depth, node.fields[k].1))
    ensures FieldOk(words, types, plan, loc, depth, node.fields)
  {
    hide Scan, ParseCell, Readable, NodeValue, ValueOf;
  }

  // ---------------------------------------------------------------------
  // The round trip
  // ---------------------------------------------------------------------

  /** Complex values nest at most `d` deep below this one. */
  ghost predicate Nested(node: Node, d: nat)
    decreases node
  {
    match node
    case ArrayNode(kind, elems) => IsComplex(kind) ==> d > 0 && forall i | 0 <= i < |elems| :: Nested(elems[i], d - 1)
    case MapNode(_, value, entries) => IsComplex(value) ==> d > 0 && forall i | 0 <= i < |entries| ::
      Nested(entries[i].1, d - 1)
    case MessageNode(_, fields) =>
      forall i | 0 <= i < |fields| ::
        fields[i].1.NoneNode? || fields[i].1.ScalarNode? || fields[i].1.BytesNode?
            || (d > 0 && Nested(fields[i].1, d - 1))
    case _ => true
  }

  /** No empty map over 64-bit keys or values. */
  ghost predicate NoEmptyWideMap(node: Node)
    decreases node
  {
    match node
    case ArrayNode(_, elems) => forall i | 0 <= i < |elems| :: NoEmptyWideMap(elems[i])
    case MapNode(key, value, entries) =>
      && (entries == [] ==> ScalarWidth(key) != 2 && ScalarWidth(value) != 2)
      && forall i | 0 <= i < |entries| :: NoEmptyWideMap(entries[i].1)
    case MessageNode(_, fields) => forall i | 0 <= i < |fields| :: NoEmptyWideMap(fields[i].1)
    case _ => true
  }

  /** Nesting of at most 256 levels without empty wide maps is always readable. */
  lemma {:induction false} NestingReadable(types: Types, kind: Kind, tid: nat, node: Node, depth: nat, d: nat)
    requires Typed(types, kind, tid, node) && Formed(node) && depth + d <= MAXDEPTH && Nested(node, d)
    requires NoEmptyWideMap(node)
    ensures Readable(types, tid, node, depth)
    decreases node, 1
  {
    match node
    case ArrayNode(item, elems) =>
      forall i | 0 <= i < |elems| && IsComplex(item) ensures Readable(types, ChildOf(types, tid), elems[i], depth + 1) {
        NestingReadable(types, item, types[tid].child, elems[i], depth + 1, d - 1);
      }
    case MapNode(_, value, entries) =>
      forall i | 0 <= i < |entries| && IsComplex(value)
        ensures Readable(types, ChildOf(types, tid), entries[i].1, depth + 1)
      {
        NestingReadable(types, value, types[tid].child, entries[i].1, depth + 1, d - 1);
      }
    case MessageNode(_, fields) =>
      hide Readable, Typed;
      MessageTyped(types, kind, tid, node);
      var plans := types[tid].fields;
      forall i | 0 <= i < |plans| ensures FieldReadable(types, plans[i], fields, depth) {
        FieldNesting(types, kind, tid, node, i, depth, d);
      }
      MessageMeaning(types, tid, node, depth);
    case _ =>
  }

  lemma MessageTyped(types: Types, kind: Kind, tid: nat, node: Node)
    requires node.MessageNode? && Typed(types, kind, tid, node)
    ensures tid < |types| && types[tid].MessageType?
  {
  }

  lemma {:induction false} FieldNesting(types: Types, kind: Kind, tid: nat, node: Node, i: nat, depth: nat, d: nat)
    requires node.MessageNode? && Typed(types, kind, tid, node) && Formed(node) && depth + d <= MAXDEPTH && Nested(node,
          d) && NoEmptyWideMap(node)
    requires tid < |types| && types[tid].MessageType? && i < |types[tid].fields|
    ensures FieldReadable(types, types[tid].fields[i], node.fields, depth)
    decreases node, 0
  {
    hide Readable;
    var plan, fields := types[tid].fields[i], node.fields;
    var k := FieldIndex(fields, plan.id, 0);
    if k < |fields| && IsComplex(plan.kind) && !fields[k].1.NoneNode? {
      var child := fields[k].1;
      assert Formed(child) && Typed(types, plan.kind, plan.child, child) && NoEmptyWideMap(child);
      assert !child.ScalarNode? && !child.BytesNode?;
      NestingReadable(types, plan.kind, plan.child, child, depth + 1, d - 1);
    }
  }

  /**
   Whole-value round trip.  An output of the serializer is accepted by the
   decoder if and only if the tree is readable, and then decodes to the value
   of the tree.
   */
  lemma WholeValueRoundTrip(root: Node, w: seq<u32>, types: Types, tid: nat, hash: Hash)
    requires tid < |types| && Typed(types, KindOf(types[tid]), tid, root) && Formed(root)
    requires Enc(root, w, hash) && |w| < 0x4000_0000
    ensures var r := Parse(w, types, tid, Loc(0, |w|), 0);
            && (r.Some? <==> Readable(types, tid, root, 0))
            && (r.Some? ==> ValueOf(w, r.value) == NodeValue(types, tid, root))
  {
    hide Typed, Formed, Enc, Parse, Readable, ValueOf, NodeValue;
    assert InAt(w, 0, w) by { assert w[0..|w|] == w; }
    Recovered(w, types, KindOf(types[tid]), tid, Loc(0, |w|), 0, root, w, hash);
  }

  /** The same through both programs, for nesting of at most 256 levels and no empty wide map. */
  method SerializeAndDeserialize(root: Node, types: Types, tid: nat, hash: Hash, seeds: nat -> u32)
    returns (r: Option<Outcome>)
    requires TypesOk(types) && tid < |types| && Formed(root) && Typed(types, KindOf(types[tid]), tid, root)
    requires Nested(root, MAXDEPTH) && NoEmptyWideMap(root)
    ensures r.Some? ==> r.value == Decoded(NodeValue(types, tid, root)) || r.value == TapeTooLong
    ensures r.None? <==> Refused(root, hash, seeds) || exists w :: Enc(root, w, hash) && |w| > 0x1000_0000
  {
    hide Refused, TypesOk, Typed, Formed, Enc, Parse, Readable, ValueOf, NodeValue, Nested, NoEmptyWideMap, Tape;
    var words := SerializeArena(root, KindOf(types[tid]), hash, seeds);
    TypedKind(types, KindOf(types[tid]), tid, root);
    if words.None? || |words.value| > 0x1000_0000 { return None; }
    forall other | Enc(root, other, hash) ensures |other| <= 0x1000_0000 {
      EncodingSize.EncodingLength(root, words.value, other, hash);
    }
    WholeValueRoundTrip(root, words.value, types, tid, hash);
    NestingReadable(types, KindOf(types[tid]), tid, root, 0, MAXDEPTH);
    var outcome := Deserialize(words.value, types, tid);
    return Some(outcome);
  }

  lemma TypedKind(types: Types, kind: Kind, tid: nat, node: Node)
    requires Typed(types, kind, tid, node)
    ensures NodeKind(node) == Some(kind)
  {
  }

  /** An empty map from 64-bit integers: what the serializer writes, the decoder refuses. */
  lemma EmptyWideMapRefused(hash: Hash)
    ensures var types, node := [MapType(KU64, KU32, 0)], MapNode(KU64, KU32, []);
            && TypesOk(types) && Formed(node) && Typed(types, KMap, 0, node) && Enc(node, EmptyMap, hash)
            && Parse(EmptyMap, types, 0, Loc(0, 1), 0) == None
  {
    hide Parse, Enc, Typed, Formed;
    var types, node := [MapType(KU64, KU32, 0)], MapNode(KU64, KU32, []);
    EmptyMapEncoded(node, hash);
    assert Formed(node) && Typed(types, KMap, 0, node)
           && !Readable(types, 0, node, 0) by { EmptyWideMapTyped(types, node); }
    assert EmptyMap[0..1] == EmptyMap;
    EmptyMapRecovered(EmptyMap, types, 0, Loc(0, 1), 0, node);
    assert TypeOk(types, types[0]);
  }

  lemma EmptyWideMapTyped(types: Types, node: Node)
    requires types == [MapType(KU64, KU32, 0)] && node == MapNode(KU64, KU32, [])
    ensures Formed(node) && Typed(types, KMap, 0, node) && !Readable(types, 0, node, 0)
  {
  }
}
