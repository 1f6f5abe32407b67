/**
 What an arena tree means under a schema, when the decoder can read it, and
 what it is for the decoder to recover it.
 */
module Meaning {
  import opened Words
  import opened Strings
  import opened Schema
  import opened Arena
  import opened Decode
  import opened Values
  import opened Objects

  // ---------------------------------------------------------------------
  // What a tree means
  // ---------------------------------------------------------------------

  /** Position of the field with this id, or the number of fields. */
  function FieldIndex(fields: seq<(nat, Node)>, id: nat, i: nat): (k: nat)
    requires i <= |fields|
    ensures i <= k <= |fields| && (k < |fields| ==> fields[k].0 == id)
    decreases |fields| - i
  {
    if i == |fields| || fields[i].0 == id then i else FieldIndex(fields, id, i + 1)
  }

  lemma {:induction false} FieldIndexFirst(fields: seq<(nat, Node)>, id: nat, i: nat, k: nat)
    requires i <= k < |fields| && fields[k].0 == id
    ensures FieldIndex(fields, id, i) <= k
    decreases k - i
  {
    if i < k && fields[i].0 != id { FieldIndexFirst(fields, id, i + 1, k); }
  }

  /** The tree has the announced kind, and the shape of type `tid` when it is complex. */
  ghost predicate Typed(types: Types, kind: Kind, tid: nat, node: Node)
    decreases node
  {
    && NodeKind(node) == Some(kind)
    && match node
       case NoneNode => false
       case ScalarNode(_, _) => true
       case BytesNode(_, _) => true
       case BoolsNode(_) => tid < |types| && types[tid].ArrayType? && types[tid].value.KBool?
       case ScalarsNode(item, _) => tid < |types| && types[tid].ArrayType? && types[tid].value == item
       case ArrayNode(item, elems) =>
         && tid < |types| && types[tid].ArrayType? && types[tid].value == item
         && forall i | 0 <= i < |elems| :: Typed(types, item, types[tid].child, elems[i])
       case MapNode(key, value, entries) =>
         && tid < |types| && types[tid].MapType? && types[tid].key == key && types[tid].value == value && ValidKey(key)
         && forall i | 0 <= i < |entries| ::
              Typed(types, key, tid, entries[i].0) && Typed(types, value, types[tid].child, entries[i].1)
       case MessageNode(_, fields) =>
         && tid < |types| && types[tid].MessageType?
         && forall i | 0 <= i < |types[tid].fields| ::
              var plan := types[tid].fields[i];
              var k := FieldIndex(fields, plan.id, 0);
              k < |fields| && !fields[k].1.NoneNode? ==> Typed(types, plan.kind, plan.child, fields[k].1)
  }

  /** The value of a tree, read with type `tid`; fields the type does not have are dropped. */
  function NodeValue(types: Types, tid: nat, node: Node): Value
    decreases node
  {
    match node
    case NoneNode => VBytes([])
    case ScalarNode(kind, words) => ScalarValue(kind, words)
    case BytesNode(_, bytes) => VBytes(bytes)
    case BoolsNode(flags) => VArray(BoolsOf(flags))
    case ScalarsNode(kind, items) => VArray(seq(|items|, i requires 0 <= i < |items| => ScalarValue(kind, items[i])))
    case ArrayNode(_, elems) => VArray(seq(|elems|,
                                           i requires 0 <= i < |elems| => NodeValue(types, ChildOf(types, tid),
                                                                                    elems[i])))
    case MapNode(_, _, entries) =>
      VMap(MapOf(seq(|entries|, i requires 0 <= i < |entries| =>
        (NodeValue(types, tid, entries[i].0), NodeValue(types, ChildOf(types, tid), entries[i].1)))))
    case MessageNode(_, fields) =>
      var plans := PlansOf(types, tid);
      VMessage(seq(|plans|, i requires 0 <= i < |plans| =>
        var k := FieldIndex(fields, plans[i].id, 0);
        if k < |fields| && !fields[k].1.NoneNode? then Some(NodeValue(types, plans[i].child, fields[k].1)) else None))
  }

  function ChildOf(types: Types, tid: nat): nat {
    if tid < |types| && !types[tid].MessageType? then types[tid].child else 0
  }

  function PlansOf(types: Types, tid: nat): seq<FieldPlan> {
    if tid < |types| && types[tid].MessageType? then types[tid].fields else []
  }

  /**
   What the decoder accepts: nesting within its limit, and no empty map whose
   keys or values are 64-bit scalars.
   */
  ghost predicate Readable(types: Types, tid: nat, node: Node, depth: nat)
    decreases node
  {
    match node
    case ArrayNode(kind, elems) =>
      IsComplex(kind) ==> depth < MAXDEPTH && forall i | 0 <= i < |elems| ::
        Readable(types, ChildOf(types, tid), elems[i], depth + 1)
    case MapNode(key, value, entries) =>
      && (entries == [] ==> ScalarWidth(key) != 2 && ScalarWidth(value) != 2)
      && (IsComplex(value) ==> depth < MAXDEPTH && forall i | 0 <= i < |entries| :: Readable(types, ChildOf(types, tid),
            entries[i].1, depth + 1))
    case MessageNode(_, fields) =>
      forall i | 0 <= i < |PlansOf(types, tid)| ::
        var plan := PlansOf(types, tid)[i];
        var k := FieldIndex(fields, plan.id, 0);
        k < |fields| && IsComplex(plan.kind) && !fields[k].1.NoneNode? ==>
          depth < MAXDEPTH && Readable(types, plan.child, fields[k].1, depth + 1)
    case _ => true
  }

  // ---------------------------------------------------------------------
  // Recovering the parts
  // ---------------------------------------------------------------------

  /** The encoding `c` lies at a location. */
  ghost predicate Placed(words: seq<u32>, loc: Loc, c: seq<u32>) {
    InAt(words, loc.at, c) && loc.at + |c| <= loc.limit <= |words| < 0x4000_0000
  }

  /** Parse accepts the tree exactly when it is readable, and gives its value. */
  ghost predicate Recovers(words: seq<u32>, types: Types, tid: nat, loc: Loc, depth: nat, node: Node)
    requires depth <= MAXDEPTH && loc.limit <= |words|
  {
    var r := Parse(words, types, tid, loc, depth);
    (r.Some? <==> Readable(types, tid, node, depth))
        && (r.Some? ==> ValueOf(words, r.value) == NodeValue(types, tid, node))
  }

  /** The same for the object of a cell. */
  ghost predicate CellOk(words: seq<u32>, types: Types, child: nat, at: nat, width: nat, depth: nat, node: Node)
    requires depth < MAXDEPTH
  {
    var r := ParseCell(words, types, child, at, width, depth);
    && (r.Some? <==> Readable(types, child, node, depth + 1))
    && (r.Some? ==> ValueOf(words, r.value) == NodeValue(types, child, node))
  }

  lemma BytesCell(words: seq<u32>, at: nat, width: nat, bytes: seq<byte>)
    requires |bytes| < 0x4000_0000 && Leads(words, at, width, StringWords(bytes))
    ensures var r := BytesAt(words, at, width); r.Some? && SpanValue(words, r.value) == VBytes(bytes)
  {
    hide ParseBytes, StringWords, BytesIn;
    StringFound(words, ObjectLocation(words, at, width).value, bytes);
  }

  /** All spans of a list of strings. */
  lemma SpansRecovered(words: seq<u32>, at: nat, stride: nat, width: nat, strings: seq<seq<byte>>)
    requires forall i | 0 <= i < |strings| :: |strings[i]| < 0x4000_0000 && Leads(words, at + Prod(stride, i), width,
          StringWords(strings[i]))
    ensures var r := ParseSpans(words, at, stride, width, |strings|);
            r.Some? && |r.value| == |strings| && forall i | 0 <= i < |strings| ::
              SpanValue(words, r.value[i]) == VBytes(strings[i])
  {
    hide BytesAt, StringWords, Leads, Prod, SpanValue, ParseSpans;
    forall i | 0 <= i < |strings|
      ensures BytesAt(words, at + Prod(stride, i), width).Some?
      ensures SpanValue(words, BytesAt(words, at + Prod(stride, i), width).value) == VBytes(strings[i])
    {
      BytesCell(words, at + Prod(stride, i), width, strings[i]);
    }
    var spans := seq(|strings|, i requires 0 <= i < |strings| => BytesAt(words, at + Prod(stride, i), width).value);
    SpansAll(words, at, stride, width, |strings|, spans);
  }

  /** All children of a list of trees. */
  lemma ChildrenRecovered(words: seq<u32>, types: Types, child: nat, at: nat, stride: nat, width: nat, depth: nat,
                          nodes: seq<Node>)
    requires depth < MAXDEPTH
    requires forall i | 0 <= i < |nodes| :: CellOk(words, types, child, at + Prod(stride, i), width, depth, nodes[i])
    ensures var r := ParseChildren(words, types, child, at, stride, width, |nodes|, depth);
            && (r.Some? <==> forall i | 0 <= i < |nodes| :: Readable(types, child, nodes[i], depth + 1))
            && (r.Some? ==> |r.value| == |nodes| && forall i | 0 <= i < |nodes| ::
                  ValueOf(words, r.value[i]) == NodeValue(types, child, nodes[i]))
  {
    hide ParseCell, Prod, ValueOf, NodeValue, Readable, ParseChildren;
    var r := ParseChildren(words, types, child, at, stride, width, |nodes|, depth);
    if forall i | 0 <= i < |nodes| :: Readable(types, child, nodes[i], depth + 1) {
      var trees := seq(|nodes|,
                       i requires 0 <= i < |nodes| => ParseCell(words, types, child, at + Prod(stride, i), width,
                                                                depth).value);
      ChildrenAll(words, types, child, at, stride, width, |nodes|, depth, trees);
    } else {
      var i :| 0 <= i < |nodes| && !Readable(types, child, nodes[i], depth + 1);
      ChildAt(words, types, child, at, stride, width, |nodes|, depth, i);
    }
  }

  /** A scalar's words read back as its value. */
  lemma ScalarRecovered(words: seq<u32>, at: nat, node: Node)
    requires node.ScalarNode? && Formed(node) && InAt(words, at, ScalarWords(node.kind, node.words))
    ensures |ScalarWords(node.kind, node.words)| == ScalarWidth(node.kind)
    ensures ScalarAt(words, node.kind, at) == ScalarValue(node.kind, node.words)
  {
  }
}
