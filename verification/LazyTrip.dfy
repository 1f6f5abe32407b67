/**
 Lazy serialization refines eager serialization: what a partly read message
 is serialized to decodes to the values of its source.
 */
module LazyTrip {
  import opened Words
  import opened Buffers
  import opened Schema
  import opened HashGraph
  import opened Arena
  import opened Decode
  import opened Values
  import opened Meaning
  import opened MessageTrip
  import opened Extents
  import opened RoundTrip
  import opened Detector
  import opened Lazy
  import opened LazyWriter

  // ---------------------------------------------------------------------
  // Refreshed trees stay typed and readable
  // ---------------------------------------------------------------------

  /** Where the fields of a refreshed message are. */
  lemma RefreshedAt(types: Types, tid: nat, node: Node, touch: Touch, i: nat)
    requires node.MessageNode? && !NothingRead(PlansOf(types, tid), touch) && AscendingPlans(PlansOf(types, tid))
          && i < |PlansOf(types, tid)|
    ensures var r, plan := Refreshed(types, tid, node, touch), PlansOf(types, tid)[i];
            && r.MessageNode? && |r.fields| == |PlansOf(types, tid)| && FieldIndex(r.fields, plan.id, 0) == i
            && r.fields[i].1 == RefreshedField(types, plan, node, touch.part(plan.id))
  {
    hide RefreshedField;
    var plans := PlansOf(types, tid);
    assert forall k | 0 <= k < |plans| && k != i :: plans[k].id != plans[i].id;
    FieldIndexAt(Refreshed(types, tid, node, touch).fields, i, 0);
  }

  /** Typed and readable at this depth. */
  ghost predicate Good(types: Types, kind: Kind, tid: nat, node: Node, depth: nat) {
    Typed(types, kind, tid, node) && Readable(types, tid, node, depth)
  }

  lemma {:induction false} RefreshedGood(types: Types, kind: Kind, tid: nat, node: Node, touch: Touch, depth: nat)
    requires Good(types, kind, tid, node, depth) && InOrder(types, tid, node)
    ensures Good(types, kind, tid, Refreshed(types, tid, node, touch), depth)
    decreases node, 2
  {
    if touch.Read? {
      match node
      case ArrayNode(item, _) => if IsComplex(item) { ArrayGood(types, kind, tid, node, touch, depth); }
      case MapNode(_, value, _) => if IsComplex(value) { MapGood(types, kind, tid, node, touch, depth); }
      case MessageNode(_, _) => if !NothingRead(PlansOf(types, tid),
                                                touch) { MessageGood(types, kind, tid, node, touch, depth); }
      case _ =>
    }
  }

  lemma {:induction false} ArrayGood(types: Types, kind: Kind, tid: nat, node: Node, touch: Touch, depth: nat)
    requires Good(types, kind, tid, node, depth) && InOrder(types, tid, node) && node.ArrayNode?
    requires IsComplex(node.kind) && touch.Read?
    ensures Good(types, kind, tid, Refreshed(types, tid, node, touch), depth)
    decreases node, 1
  {
    forall i | 0 <= i < |node.elems| ensures Good(types, node.kind, ChildOf(types, tid), Refreshed(types, ChildOf(types,
          tid), node.elems[i], Part(node.kind, touch, i)), depth + 1) {
      RefreshedGood(types, node.kind, ChildOf(types, tid), node.elems[i], Part(node.kind, touch, i), depth + 1);
    }
  }

  lemma {:induction false} MapGood(types: Types, kind: Kind, tid: nat, node: Node, touch: Touch, depth: nat)
    requires Good(types, kind, tid, node, depth) && InOrder(types, tid, node) && node.MapNode?
    requires IsComplex(node.valueKind) && touch.Read?
    ensures Good(types, kind, tid, Refreshed(types, tid, node, touch), depth)
    decreases node, 1
  {
    forall i | 0 <= i < |node.entries| ensures Good(types, node.valueKind, ChildOf(types, tid), Refreshed(types,
          ChildOf(types, tid), node.entries[i].1, Part(node.valueKind, touch, i)), depth + 1) {
      RefreshedGood(types, node.valueKind, ChildOf(types, tid), node.entries[i].1, Part(node.valueKind, touch, i),
                    depth + 1);
    }
  }

  lemma {:induction false} MessageGood(types: Types, kind: Kind, tid: nat, node: Node, touch: Touch, depth: nat)
    requires Good(types, kind, tid, node, depth) && InOrder(types, tid, node) && node.MessageNode?
          && !NothingRead(PlansOf(types, tid), touch)
    ensures Good(types, kind, tid, Refreshed(types, tid, node, touch), depth)
    decreases node, 1
  {
    hide Refreshed, RefreshedField, FieldReadable, Typed, Readable, InOrder;
    MessageTyped(types, kind, tid, node);
    MessageParts(types, kind, tid, node, depth);
    var plans := types[tid].fields;
    var r := Refreshed(types, tid, node, touch);
    RefreshedKind(types, tid, node, touch);
    forall i | 0 <= i < |plans|
      ensures FieldReadable(types, plans[i], r.fields, depth) && FieldTyped(types, plans[i], r.fields)
    {
      FieldGood(types, kind, tid, node, touch, depth, i);
    }
    MessageMeaning(types, tid, r, depth);
    MessageTypedBy(types, kind, tid, r);
  }

  lemma RefreshedKind(types: Types, tid: nat, node: Node, touch: Touch)
    requires node.MessageNode?
    ensures Refreshed(types, tid, node, touch).MessageNode?
  {
  }

  ghost predicate FieldTyped(types: Types, plan: FieldPlan, fields: seq<(nat, Node)>) {
    var k := FieldIndex(fields, plan.id, 0);
    k < |fields| && !fields[k].1.NoneNode? ==> Typed(types, plan.kind, plan.child, fields[k].1)
  }

  lemma MessageParts(types: Types, kind: Kind, tid: nat, node: Node, depth: nat)
    requires node.MessageNode? && Typed(types, kind, tid, node) && InOrder(types, tid, node)
    ensures kind == KMessage && tid < |types| && types[tid].MessageType? && PlansOf(types, tid) == types[tid].fields
          && AscendingPlans(types[tid].fields)
  {
  }

  lemma MessageTypedBy(types: Types, kind: Kind, tid: nat, node: Node)
    requires node.MessageNode? && kind == KMessage && tid < |types| && types[tid].MessageType?
    requires forall i | 0 <= i < |types[tid].fields| :: FieldTyped(types, types[tid].fields[i], node.fields)
    ensures Typed(types, kind, tid, node)
  {
    forall i | 0 <= i < |types[tid].fields|
      ensures var plan := types[tid].fields[i];
              var k := FieldIndex(node.fields, plan.id, 0);
              k < |node.fields| && !node.fields[k].1.NoneNode? ==> Typed(types, plan.kind, plan.child, node.fields[k].1)
    {
      assert FieldTyped(types, types[tid].fields[i], node.fields);
    }
  }

  lemma {:induction false} FieldGood(types: Types, kind: Kind, tid: nat, node: Node, touch: Touch, depth: nat, i: nat)
    requires Good(types, kind, tid, node, depth) && InOrder(types, tid, node) && node.MessageNode?
          && !NothingRead(PlansOf(types, tid), touch)
    requires tid < |types| && types[tid].MessageType? && i < |types[tid].fields| && AscendingPlans(types[tid].fields)
    ensures Refreshed(types, tid, node, touch).MessageNode?
    ensures FieldReadable(types, types[tid].fields[i], Refreshed(types, tid, node, touch).fields, depth)
    ensures FieldTyped(types, types[tid].fields[i], Refreshed(types, tid, node, touch).fields)
    decreases node, 0
  {
    hide Refreshed, Typed, Readable, InOrder, IsZero, AllNone;
    assert PlansOf(types, tid) == types[tid].fields;
    var plan := types[tid].fields[i];
    RefreshedAt(types, tid, node, touch, i);
    var k := FieldIndex(node.fields, plan.id, 0);
    if k < |node.fields| && !node.fields[k].1.NoneNode? {
      PartGood(types, kind, tid, node, depth, i, k);
      var child, t := node.fields[k].1, touch.part(plan.id);
      if IsComplex(plan.kind) && depth < MAXDEPTH {
        RefreshedGood(types, plan.kind, plan.child, child, t, depth + 1);
      } else {
        LeafStays(types, plan, child, t);
      }
      FieldShape(types, plan, node, t, k);
    }
  }

  /** A refreshed field is missing, the child itself, or the refreshed child. */
  lemma FieldShape(types: Types, plan: FieldPlan, node: Node, touch: Touch, k: nat)
    requires node.MessageNode? && k == FieldIndex(node.fields, plan.id, 0) < |node.fields|
    ensures var f, child := RefreshedField(types, plan, node, touch), node.fields[k].1;
            f == NoneNode || f == Refreshed(types, plan.child, child, touch)
  {
  }

  lemma PartGood(types: Types, kind: Kind, tid: nat, node: Node, depth: nat, i: nat, k: nat)
    requires Good(types, kind, tid, node, depth) && InOrder(types, tid, node) && node.MessageNode?
    requires tid < |types| && types[tid].MessageType? && i < |types[tid].fields|
    requires k == FieldIndex(node.fields, types[tid].fields[i].id, 0) < |node.fields| && !node.fields[k].1.NoneNode?
    ensures var plan, child := types[tid].fields[i], node.fields[k].1;
            && Typed(types, plan.kind, plan.child, child) && InOrder(types, plan.child, child)
            && (IsComplex(plan.kind) ==> depth < MAXDEPTH && Readable(types, plan.child, child, depth + 1))
  {
    assert PlansOf(types, tid)[i] == types[tid].fields[i];
  }

  lemma LeafStays(types: Types, plan: FieldPlan, child: Node, touch: Touch)
    requires NodeKind(child) == Some(plan.kind) && !IsComplex(plan.kind)
    ensures Refreshed(types, plan.child, child, touch) == child
  {
  }

  // ---------------------------------------------------------------------
  // Extents are self-contained
  // ---------------------------------------------------------------------

  /** The extent Detect finds can be copied anywhere: it is recovered there as the same value. */
  lemma CopiedExtentRecovers(words: seq<u32>, types: Types, kind: Kind, tid: nat, at: nat, node: Node, c: seq<u32>,
                             hash: Hash,
                             other: seq<u32>, loc: Loc, depth: nat)
    requires Stored(words, types, hash, kind, tid, at, node, c) && IsComplex(kind) && depth <= MAXDEPTH
    requires var end := DetectObject(words, types, kind, tid, at);
             at <= end <= |words| && Placed(other, loc, words[at..end])
    ensures words[at..DetectObject(words, types, kind, tid, at)] == c
    ensures Recovers(other, types, tid, loc, depth, node)
  {
    hide DetectObject, Enc, Typed, Formed, InOrder, Recovers, Placed;
    StoredExtent(words, types, hash, kind, tid, at, node, c);
    Recovered(other, types, kind, tid, loc, depth, node, c, hash);
  }

  // ---------------------------------------------------------------------
  // The refinement
  // ---------------------------------------------------------------------

  /** The keys of every encoded map differ, because its index separates them. */
  lemma {:induction false} EncodedKeysDiffer(types: Types, kind: Kind, tid: nat, node: Node, w: seq<u32>, hash: Hash)
    requires Enc(node, w, hash) && Formed(node) && Typed(types, kind, tid, node)
    ensures DistinctKeys(types, tid, node)
    decreases node, 1
  {
    hide EncArray, EncMap, EncMessage;
    match node
    case ArrayNode(_, _) =>
      var ws := ArrayPlanOf(node, w, hash);
      ElementKeysDiffer(types, kind, tid, node, ws, w, hash);
    case MapNode(_, _, entries) =>
      if entries != [] {
        var plan := MapPlanOf(node, w, hash);
        EntryKeysDiffer(types, kind, tid, node, plan, w, hash);
      }
    case MessageNode(_, _) =>
      var plan := MessagePlanOf(node, w, hash);
      FieldKeysDiffer(types, kind, tid, node, plan, w, hash);
    case _ =>
  }

  lemma {:induction false} ElementKeysDiffer(types: Types, kind: Kind, tid: nat, node: Node, ws: seq<seq<u32>>,
                                             w: seq<u32>, hash: Hash)
    requires node.ArrayNode? && EncArray(node, ws, w, hash) && Formed(node) && Typed(types, kind, tid, node)
    ensures DistinctKeys(types, tid, node)
    decreases node, 0
  {
    hide Enc, Serialize.ArrayWords;
    forall i | 0 <= i < |node.elems| ensures DistinctKeys(types, ChildOf(types, tid), node.elems[i]) {
      EncodedKeysDiffer(types, node.kind, ChildOf(types, tid), node.elems[i], ws[i], hash);
    }
  }

  lemma {:induction false} EntryKeysDiffer(types: Types, kind: Kind, tid: nat, node: Node, plan: MapPlan, w: seq<u32>,
                                           hash: Hash)
    requires node.MapNode? && EncMap(node, plan, w, hash) && Formed(node) && Typed(types, kind, tid, node)
    ensures DistinctKeys(types, tid, node)
    decreases node, 0
  {
    hide Enc, HashBuild.Perfect, HashIndex.Locate;
    forall i, k | 0 <= i < k < |node.entries|
      ensures NodeValue(types, tid, node.entries[i].0) != NodeValue(types, tid, node.entries[k].0)
    {
      MapTrip.KeysUnique(types, tid, node, plan, hash, i, k);
    }
    forall i | 0 <= i < |node.entries| ensures DistinctKeys(types, ChildOf(types, tid), node.entries[i].1) {
      assert i in plan.order;
      var s :| 0 <= s < |plan.order| && plan.order[s] == i;
      assert Enc(node.entries[plan.order[s]].1, plan.vs[s], hash);
      EncodedKeysDiffer(types, node.valueKind, ChildOf(types, tid), node.entries[i].1, plan.vs[s], hash);
    }
  }

  lemma {:induction false} FieldKeysDiffer(types: Types, kind: Kind, tid: nat, node: Node, plan: MessagePlan,
                                           w: seq<u32>, hash: Hash)
    requires node.MessageNode? && EncMessage(node, plan, w, hash) && Formed(node) && Typed(types, kind, tid, node)
    ensures DistinctKeys(types, tid, node)
    decreases node, 0
  {
    hide Enc, FieldStored, StoredBehind, OutTotal;
    var plans, fields := PlansOf(types, tid), node.fields;
    forall i | 0 <= i < |plans| && FieldIndex(fields, plans[i].id, 0) < |fields|
      ensures DistinctKeys(types, plans[i].child, fields[FieldIndex(fields, plans[i].id, 0)].1)
    {
      var k := FieldIndex(fields, plans[i].id, 0);
      if !fields[k].1.NoneNode? {
        assert Enc(fields[k].1, plan.cs[k], hash);
        EncodedKeysDiffer(types, plans[i].kind, plans[i].child, fields[k].1, plan.cs[k], hash);
      }
    }
  }

  /**
   If the words `c` of a tree decode, then so do the words its partly read form
   is serialized to, and the two values agree up to defaults if and only if no
   field that was read is a negative zero.
   */
  lemma LazyRefinesEager(types: Types, tid: nat, node: Node, touch: Touch, c: seq<u32>, w: seq<u32>, hash: Hash)
    requires tid < |types| && Typed(types, KindOf(types[tid]), tid, node) && Formed(node) && InOrder(types, tid, node)
    requires Enc(node, c, hash) && Enc(Refreshed(types, tid, node, touch), w, hash) && |c| < 0x4000_0000
    requires |w| < 0x4000_0000
    ensures var a, b := Parse(c, types, tid, Loc(0, |c|), 0), Parse(w, types, tid, Loc(0, |w|), 0);
            a.Some? ==> b.Some? && (Canon(ValueOf(w, b.value)) == Canon(ValueOf(c, a.value))
                                    <==> NoLostZero(types, tid, node, touch))
  {
    hide Refreshed, Typed, Readable, Formed, InOrder, Enc, Parse, ValueOf, NodeValue, Canon, NoLostZero, DistinctKeys;
    var kind, r := KindOf(types[tid]), Refreshed(types, tid, node, touch);
    WholeValueRoundTrip(node, c, types, tid, hash);
    if Readable(types, tid, node, 0) {
      RefreshedGood(types, kind, tid, node, touch, 0);
      RefreshedFormed(types, kind, tid, node, touch);
      WholeValueRoundTrip(r, w, types, tid, hash);
      EncodedKeysDiffer(types, kind, tid, node, c, hash);
      SameMeaningExactly(types, kind, tid, node, touch);
    }
  }

  // ---------------------------------------------------------------------
  // The root call
  // ---------------------------------------------------------------------

  /** No type reads a value from nothing. */
  lemma NothingDecodes(types: Types, tid: nat)
    requires tid < |types|
    ensures Parse([], types, tid, Loc(0, 0), 0) == None
  {
  }

  /**
   The root call drops the unit it is handed, and with it an empty array: the
   source decodes, the empty output does not.
   */
  lemma EmptyRootIsLost(types: Types, tid: nat, hash: Hash)
    requires tid < |types| && types[tid].ArrayType? && IsComplex(types[tid].value)
    ensures var node := ArrayNode(types[tid].value, []);
            && Stored([1], types, hash, KArray, tid, 0, node, [1]) && StaysInline(node)
            && Parse([1], types, tid, Loc(0, 1), 0).Some? && Parse([], types, tid, Loc(0, 0), 0) == None
  {
    hide Parse, Enc, InAt, Formed, Typed, InOrder, Readable;
    var node, w: seq<u32> := ArrayNode(types[tid].value, []), [1];
    EmptyArrayStored(types, tid, hash);
    WholeValueRoundTrip(node, w, types, tid, hash);
    NothingDecodes(types, tid);
  }

  lemma EmptyArrayStored(types: Types, tid: nat, hash: Hash)
    requires tid < |types| && types[tid].ArrayType? && IsComplex(types[tid].value)
    ensures var node := ArrayNode(types[tid].value, []);
            Stored([1], types, hash, KArray, tid, 0, node, [1]) && Readable(types, tid, node, 0)
  {
    hide Serialize.ArrayWords;
    var node, w: seq<u32> := ArrayNode(types[tid].value, []), [1];
    Serialize.NoElements();
    assert w[0..1] == w && EncArray(node, [], w, hash);
  }

  /**
   Serializing a partly read root again.  The root call drops the unit, so that
   a root which stays in its unit leaves an empty output; any other root decodes
   if the source does, and its fields have the values of the source if and only
   if no field that was read is a negative zero.
   */
  method Reserialize(words: seq<u32>, types: Types, tid: nat, node: Node, touch: Touch, hash: Hash,
        seeds: nat -> u32) returns (out: Option<seq<u32>>)
    requires tid < |types| && Stored(words, types, hash, KindOf(types[tid]), tid, 0, node, words)
    ensures out.None? <==> LazyRefused(types, tid, node, Extracted(KindOf(types[tid]), touch), hash, seeds)
    ensures out.Some? ==> (out.value == [] <==> StaysInline(node))
    ensures out.Some? && |out.value| < 0x4000_0000 ==>
              var a, b := Parse(words, types, tid, Loc(0, |words|), 0),
                          Parse(out.value, types, tid, Loc(0, |out.value|), 0);
              && (a.Some? ==> (b.Some? <==> !StaysInline(node)))
              && (a.Some? && b.Some? ==> (Canon(ValueOf(out.value, b.value)) == Canon(ValueOf(words, a.value))
                                          <==> NoLostZero(types, tid, node, Extracted(KindOf(types[tid]), touch))))
  {
    hide LazyRefused, Refreshed, Typed, Readable, Formed, InOrder, Enc, Parse, ValueOf, NodeValue, Canon, InAt,
        NoLostZero, Extracted;
    var buf := new Buffer();
    var source := new LazySource(words, types, hash, seeds);
    var kind := KindOf(types[tid]);
    var reached := Extracted(kind, touch);
    var ok, unit, w := source.Serialize(kind, tid, node, reached, 0, buf, words);
    if !ok { return None; }
    RootUnit(types, kind, tid, node, touch);
    assert w + [] == w;
    var view := buf.data[buf.off..];
    if StaysInline(node) {
      NothingDecodes(types, tid);
    } else if |view| < 0x4000_0000 {
      LazyRefinesEager(types, tid, node, reached, words, w, hash);
    }
    return Some(view);
  }

  /** Only roots that are containers stay in their unit, and those are always read. */
  lemma RootUnit(types: Types, kind: Kind, tid: nat, node: Node, touch: Touch)
    requires Formed(node) && Typed(types, kind, tid, node) && tid < |types| && kind == KindOf(types[tid])
    ensures StaysInline(node) ==> !Copied(types, tid, node, Extracted(kind, touch))
  {
  }
}
