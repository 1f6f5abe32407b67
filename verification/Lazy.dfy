/**
 Lazy messages (MessageEX, ArrayEX and MapEX of include/protocache/access-ex.h
 and the Serialize functions generated by tools/protoc-gen-pccx.cc): which
 tree a partly read message is serialized to, and that it means the same.
 */
module Lazy {
  import opened Words
  import opened Schema
  import opened Arena
  import opened Values
  import opened Meaning
  import opened MapTrip
  import opened Extents

  /** What has been read of a value: nothing, or itself with some of its parts. */
  datatype Touch = Clean | Read(part: nat -> Touch)

  /** A container whose parts are all untouched. */
  const Unpacked: Touch := Read(_ => Clean)

  /** Arrays and maps hold their elements by value: once reached, they are read. */
  function Extracted(kind: Kind, touch: Touch): Touch {
    if touch.Clean? && !kind.KMessage? then Unpacked else touch
  }

  /** What has been read of element or value `i` of a container that was read. */
  function Part(kind: Kind, touch: Touch, i: nat): Touch
    requires touch.Read?
  {
    Extracted(kind, touch.part(i))
  }

  /** `field == 0`; for floats this includes the negative zero. */
  predicate IsZero(kind: Kind, words: seq<u32>) {
    || (forall i | 0 <= i < |words| :: words[i] == 0)
    || NegativeZero(kind, words)
  }

  predicate NegativeZero(kind: Kind, words: seq<u32>) {
    (kind.KF32? && words == [0x8000_0000]) || (kind.KF64? && words == [0, 0x8000_0000])
  }

  predicate AllNone(node: Node) {
    node.MessageNode? && forall i | 0 <= i < |node.fields| :: node.fields[i].1.NoneNode?
  }

  /** Number of field slots of the generated class. */
  function SlotCount(plans: seq<FieldPlan>): nat {
    if plans == [] then 0 else plans[|plans| - 1].id + 1
  }

  /** No field of the message has been read (`_accessed.none()`). */
  predicate NothingRead(plans: seq<FieldPlan>, touch: Touch) {
    touch.Clean? || forall i | 0 <= i < |plans| :: touch.part(plans[i].id).Clean?
  }

  /** The tree that a partly read tree is serialized to. */
  function Refreshed(types: Types, tid: nat, node: Node, touch: Touch): Node
    decreases node, 1
  {
    if touch.Clean? then node
    else
      match node
      case ArrayNode(kind, elems) =>
        if IsComplex(kind) then ArrayNode(kind, seq(|elems|, i requires 0 <= i < |elems| => Refreshed(types,
              ChildOf(types, tid), elems[i], Part(kind, touch, i))))
        else node
      case MapNode(key, value, entries) =>
        if IsComplex(value) then
          MapNode(key, value, seq(|entries|, i requires 0 <= i < |entries| => (entries[i].0, Refreshed(types,
                ChildOf(types, tid), entries[i].1, Part(value, touch, i)))))
        else node
      case MessageNode(_, fields) =>
        var plans := PlansOf(types, tid);
        if NothingRead(plans, touch) then node
        else MessageNode(SlotCount(plans), seq(|plans|, i requires 0 <= i < |plans| => (plans[i].id,
              RefreshedField(types, plans[i], node, touch.part(plans[i].id)))))
      case _ => node
  }

  /** A field: read fields with a default value are dropped, and so is every message without fields. */
  function RefreshedField(types: Types, plan: FieldPlan, node: Node, touch: Touch): Node
    requires node.MessageNode?
    decreases node, 0
  {
    var k := FieldIndex(node.fields, plan.id, 0);
    if k == |node.fields| then NoneNode
    else
      var child := node.fields[k].1;
      match child
      case NoneNode => NoneNode
      case ScalarNode(kind, words) => if touch.Read? && IsZero(kind, words) then NoneNode else child
      case BytesNode(_, bytes) => if touch.Read? && bytes == [] then NoneNode else child
      case BoolsNode(flags) => if touch.Read? && flags == [] then NoneNode else child
      case ScalarsNode(_, items) => if touch.Read? && items == [] then NoneNode else child
      case ArrayNode(_, elems) => if touch.Read? && elems == [] then NoneNode
          else Refreshed(types, plan.child, child, touch)
      case MapNode(_, _, entries) => if touch.Read? && entries == [] then NoneNode
          else Refreshed(types, plan.child, child, touch)
      case MessageNode(_, _) =>
        var r := Refreshed(types, plan.child, child, touch);
        if AllNone(r) then NoneNode else r
  }

  // ---------------------------------------------------------------------
  // Values up to defaults
  // ---------------------------------------------------------------------

  /** The value an absent field reads as. */
  predicate IsDefault(v: Value) {
    match v
    case VBool(b) => !b
    case VWords(words) => forall i | 0 <= i < |words| :: words[i] == 0
    case VBytes(bytes) => bytes == []
    case VArray(elems) => elems == []
    case VMap(entries) => entries == map[]
    case VMessage(fields) => forall i | 0 <= i < |fields| :: fields[i].None?
  }

  /** A value with all fields dropped that hold their default. */
  function Canon(v: Value): Value
    decreases v
  {
    match v
    case VArray(elems) => VArray(seq(|elems|, i requires 0 <= i < |elems| => Canon(elems[i])))
    case VMap(entries) => VMap(map k | k in entries :: k := Canon(entries[k]))
    case VMessage(fields) =>
      VMessage(seq(|fields|, i requires 0 <= i < |fields| => if fields[i].None? then None
                   else KeepUnlessDefault(Canon(fields[i].value))))
    case _ => v
  }

  function KeepUnlessDefault(v: Value): Option<Value> {
    if IsDefault(v) then None else Some(v)
  }

  function CanonField(f: Option<Value>): Option<Value> {
    if f.None? then None else KeepUnlessDefault(Canon(f.value))
  }

  /** No field that was read is a negative zero. */
  ghost predicate NoLostZero(types: Types, tid: nat, node: Node, touch: Touch)
    decreases node
  {
    touch.Read? ==>
      match node
      case ScalarNode(kind, words) => !NegativeZero(kind, words)
      case ArrayNode(kind, elems) =>
        IsComplex(kind) ==> forall i | 0 <= i < |elems| ::
          NoLostZero(types, ChildOf(types, tid), elems[i], Part(kind, touch, i))
      case MapNode(_, value, entries) =>
        IsComplex(value) ==> forall i | 0 <= i < |entries| ::
          NoLostZero(types, ChildOf(types, tid), entries[i].1, Part(value, touch, i))
      case MessageNode(_, fields) =>
        forall i | 0 <= i < |PlansOf(types, tid)| ::
          var plan := PlansOf(types, tid)[i];
          var k := FieldIndex(fields, plan.id, 0);
          k < |fields| ==> NoLostZero(types, plan.child, fields[k].1, touch.part(plan.id))
      case _ => true
  }

  // ---------------------------------------------------------------------
  // Equal meaning
  // ---------------------------------------------------------------------

  lemma {:induction false} FieldIndexAt(fields: seq<(nat, Node)>, i: nat, j: nat)
    requires j <= i < |fields| && forall k | 0 <= k < |fields| && k != i :: fields[k].0 != fields[i].0
    ensures FieldIndex(fields, fields[i].0, j) == i
    decreases i - j
  {
    if j < i { FieldIndexAt(fields, i, j + 1); }
  }

  /** Field `i` of a refreshed message, as a value. */
  lemma RefreshedFieldValue(types: Types, tid: nat, node: Node, touch: Touch, i: nat)
    requires node.MessageNode? && !NothingRead(PlansOf(types, tid), touch) && AscendingPlans(PlansOf(types, tid))
          && i < |PlansOf(types, tid)|
    ensures var plan, r := PlansOf(types, tid)[i], Refreshed(types, tid, node, touch);
            var f := RefreshedField(types, plan, node, touch.part(plan.id));
            && NodeValue(types, tid, r).VMessage? && |NodeValue(types, tid, r).fields| == |PlansOf(types, tid)|
            && NodeValue(types, tid, r).fields[i] == if f.NoneNode? then None else Some(NodeValue(types, plan.child, f))
  {
    hide RefreshedField;
    var plans := PlansOf(types, tid);
    var r := Refreshed(types, tid, node, touch);
    assert forall k | 0 <= k < |plans| && k != i :: plans[k].id != plans[i].id;
    FieldIndexAt(r.fields, i, 0);
  }

  lemma FieldOfValue(types: Types, tid: nat, node: Node, i: nat)
    requires node.MessageNode? && i < |PlansOf(types, tid)|
    ensures var plan := PlansOf(types, tid)[i];
            var k := FieldIndex(node.fields, plan.id, 0);
            && NodeValue(types, tid, node).VMessage? && |NodeValue(types, tid, node).fields| == |PlansOf(types, tid)|
            && NodeValue(types, tid, node).fields[i] ==
                 if k < |node.fields| && !node.fields[k].1.NoneNode? then
                      Some(NodeValue(types, plan.child, node.fields[k].1)) else None
  {
  }

  lemma CanonMessage(a: Value, b: Value)
    requires a.VMessage? && b.VMessage? && |a.fields| == |b.fields|
    requires forall i | 0 <= i < |a.fields| :: CanonField(a.fields[i]) == CanonField(b.fields[i])
    ensures Canon(a) == Canon(b)
  {
    hide KeepUnlessDefault;
    var x, y := Canon(a).fields, Canon(b).fields;
    assert forall i | 0 <= i < |x| :: x[i] == CanonField(a.fields[i]) && y[i] == CanonField(b.fields[i]);
    assert x == y;
  }

  lemma CanonArray(a: Value, b: Value)
    requires a.VArray? && b.VArray? && |a.elems| == |b.elems|
    requires forall i | 0 <= i < |a.elems| :: Canon(a.elems[i]) == Canon(b.elems[i])
    ensures Canon(a) == Canon(b)
  {
    var x, y := Canon(a).elems, Canon(b).elems;
    assert forall i | 0 <= i < |x| :: x[i] == Canon(a.elems[i]) && y[i] == Canon(b.elems[i]);
    assert x == y;
  }

  function CanonMap(m: map<Value, Value>): map<Value, Value> { map k | k in m :: k := Canon(m[k]) }

  lemma {:induction false} CanonMapOf(a: seq<(Value, Value)>, b: seq<(Value, Value)>)
    requires |a| == |b| && forall i | 0 <= i < |a| :: a[i].0 == b[i].0 && Canon(a[i].1) == Canon(b[i].1)
    ensures CanonMap(MapOf(a)) == CanonMap(MapOf(b))
    decreases |a|
  {
    hide Canon;
    if a != [] {
      var n := |a| - 1;
      CanonMapOf(a[..n], b[..n]);
      CanonUpdate(MapOf(a[..n]), a[n].0, a[n].1);
      CanonUpdate(MapOf(b[..n]), b[n].0, b[n].1);
    }
  }

  lemma CanonUpdate(m: map<Value, Value>, k: Value, v: Value)
    ensures CanonMap(m[k := v]) == CanonMap(m)[k := Canon(v)]
  {
    hide Canon;
  }

  /** A message without present fields has the default value. */
  lemma NoFieldsDefault(types: Types, tid: nat, node: Node)
    requires AllNone(node)
    ensures IsDefault(Canon(NodeValue(types, tid, node)))
  {
    var v := NodeValue(types, tid, node);
    forall i | 0 <= i < |v.fields| ensures v.fields[i].None? {
      FieldOfValue(types, tid, node, i);
    }
  }

  /**
   Refreshing does not change the meaning: up to fields that hold their
   default, the value is that of the original tree, whatever was read.
   */
  lemma {:induction false} SameMeaning(types: Types, kind: Kind, tid: nat, node: Node, touch: Touch)
    requires Typed(types, kind, tid, node) && Formed(node) && InOrder(types, tid, node)
    requires NoLostZero(types, tid, node, touch)
    ensures Canon(NodeValue(types, tid, Refreshed(types, tid, node, touch))) == Canon(NodeValue(types, tid, node))
    decreases node, 2
  {
    if touch.Read? {
      match node
      case ArrayNode(item, elems) =>
        if IsComplex(item) { SameArray(types, kind, tid, node, touch); }
      case MapNode(_, value, entries) =>
        if IsComplex(value) { SameEntries(types, kind, tid, node, touch); }
      case MessageNode(_, fields) =>
        if !NothingRead(PlansOf(types, tid), touch) { SameFields(types, kind, tid, node, touch); }
      case _ =>
    }
  }

  lemma {:induction false} SameArray(types: Types, kind: Kind, tid: nat, node: Node, touch: Touch)
    requires node.ArrayNode? && IsComplex(node.kind) && touch.Read?
    requires Typed(types, kind, tid, node) && Formed(node) && InOrder(types, tid, node)
    requires NoLostZero(types, tid, node, touch)
    ensures Canon(NodeValue(types, tid, Refreshed(types, tid, node, touch))) == Canon(NodeValue(types, tid, node))
    decreases node, 0
  {
    hide Canon;
    var r, child := Refreshed(types, tid, node, touch), ChildOf(types, tid);
    var a, b := NodeValue(types, tid, r), NodeValue(types, tid, node);
    forall i | 0 <= i < |a.elems| ensures Canon(a.elems[i]) == Canon(b.elems[i]) {
      SameMeaning(types, node.kind, child, node.elems[i], Part(node.kind, touch, i));
    }
    CanonArray(a, b);
  }

  lemma {:induction false} SameEntries(types: Types, kind: Kind, tid: nat, node: Node, touch: Touch)
    requires node.MapNode? && IsComplex(node.valueKind) && touch.Read?
    requires Typed(types, kind, tid, node) && Formed(node) && InOrder(types, tid, node)
    requires NoLostZero(types, tid, node, touch)
    ensures Canon(NodeValue(types, tid, Refreshed(types, tid, node, touch))) == Canon(NodeValue(types, tid, node))
    decreases node, 0
  {
    hide Canon, MapOf;
    var r, child := Refreshed(types, tid, node, touch), ChildOf(types, tid);
    var a, b := PairsOf(types, tid, r), PairsOf(types, tid, node);
    forall i | 0 <= i < |a| ensures a[i].0 == b[i].0 && Canon(a[i].1) == Canon(b[i].1) {
      SameMeaning(types, node.valueKind, child, node.entries[i].1, Part(node.valueKind, touch, i));
    }
    CanonMapOf(a, b);
    CanonOfMap(MapOf(a));
    CanonOfMap(MapOf(b));
  }

  lemma CanonOfMap(m: map<Value, Value>)
    ensures Canon(VMap(m)) == VMap(CanonMap(m))
  {
  }

  lemma {:induction false} SameFields(types: Types, kind: Kind, tid: nat, node: Node, touch: Touch)
    requires node.MessageNode? && !NothingRead(PlansOf(types, tid), touch)
    requires Typed(types, kind, tid, node) && Formed(node) && InOrder(types, tid, node)
    requires NoLostZero(types, tid, node, touch)
    ensures Canon(NodeValue(types, tid, Refreshed(types, tid, node, touch))) == Canon(NodeValue(types, tid, node))
    decreases node, 1
  {
    hide Canon, Refreshed, NodeValue, RefreshedField, CanonField;
    var plans := PlansOf(types, tid);
    var r := Refreshed(types, tid, node, touch);
    SameShape(types, tid, node, touch);
    var a, b := NodeValue(types, tid, r), NodeValue(types, tid, node);
    forall i | 0 <= i < |plans| ensures CanonField(a.fields[i]) == CanonField(b.fields[i]) {
      RefreshedFieldValue(types, tid, node, touch, i);
      FieldOfValue(types, tid, node, i);
      SameField(types, tid, node, plans[i], i, touch.part(plans[i].id));
    }
    CanonMessage(a, b);
  }

  lemma SameShape(types: Types, tid: nat, node: Node, touch: Touch)
    requires node.MessageNode? && !NothingRead(PlansOf(types, tid), touch)
    ensures var a, b := NodeValue(types, tid, Refreshed(types, tid, node, touch)), NodeValue(types, tid, node);
            a.VMessage? && b.VMessage? && |a.fields| == |b.fields| == |PlansOf(types, tid)|
  {
    hide RefreshedField;
  }

  /** One field keeps its meaning. */
  lemma {:induction false} SameField(types: Types, tid: nat, node: Node, plan: FieldPlan, i: nat, touch: Touch)
    requires node.MessageNode? && i < |PlansOf(types, tid)| && PlansOf(types, tid)[i] == plan
    requires Typed(types, KMessage, tid, node) && Formed(node) && InOrder(types, tid, node)
    requires var k := FieldIndex(node.fields, plan.id, 0);
             k < |node.fields| ==> NoLostZero(types, plan.child, node.fields[k].1, touch)
    ensures var k, f := FieldIndex(node.fields, plan.id, 0), RefreshedField(types, plan, node, touch);
            CanonField(if f.NoneNode? then None else Some(NodeValue(types, plan.child, f))) ==
            CanonField(if k < |node.fields| && !node.fields[k].1.NoneNode? then Some(NodeValue(types, plan.child,
                  node.fields[k].1)) else None)
    decreases node, 0
  {
    hide Refreshed, Canon, IsDefault, NodeValue, Typed, Formed, InOrder, NoLostZero, IsZero, NegativeZero, AllNone;
    var k, f := FieldIndex(node.fields, plan.id, 0), RefreshedField(types, plan, node, touch);
    if k < |node.fields| && !node.fields[k].1.NoneNode? {
      var child := node.fields[k].1;
      FieldFacts(types, tid, node, plan, i, k);
      SameMeaning(types, plan.kind, plan.child, child, touch);
      LeafDefault(types, plan.child, child);
      ReadScalar(types, plan.child, child, touch);
      LeafSame(types, plan, node, k, touch);
      var r := Refreshed(types, plan.child, child, touch);
      if AllNone(r) { NoFieldsDefault(types, plan.child, r); }
      assert f == r || (f == NoneNode && IsDefault(Canon(NodeValue(types, plan.child, child))));
      RefreshedPresent(types, plan.child, child, touch);
    }
  }

  lemma ReadScalar(types: Types, tid: nat, node: Node, touch: Touch)
    requires NoLostZero(types, tid, node, touch)
    ensures node.ScalarNode? && touch.Read? ==> !NegativeZero(node.kind, node.words)
  {
  }

  lemma RefreshedPresent(types: Types, tid: nat, node: Node, touch: Touch)
    requires !node.NoneNode?
    ensures !Refreshed(types, tid, node, touch).NoneNode?
  {
  }

  lemma FieldFacts(types: Types, tid: nat, node: Node, plan: FieldPlan, i: nat, k: nat)
    requires node.MessageNode? && i < |PlansOf(types, tid)| && PlansOf(types, tid)[i] == plan
    requires Typed(types, KMessage, tid, node) && Formed(node) && InOrder(types, tid, node)
    requires k == FieldIndex(node.fields, plan.id, 0) < |node.fields| && !node.fields[k].1.NoneNode?
    ensures var child := node.fields[k].1;
            Typed(types, plan.kind, plan.child, child) && Formed(child) && InOrder(types, plan.child, child)
  {
  }

  /** Dropped leaves have their default value. */
  lemma LeafDefault(types: Types, tid: nat, node: Node)
    ensures node.ScalarNode? && IsZero(node.kind, node.words) && !NegativeZero(node.kind, node.words) ==>
              IsDefault(Canon(NodeValue(types, tid, node)))
    ensures node.BytesNode? && node.bytes == [] ==> IsDefault(Canon(NodeValue(types, tid, node)))
    ensures node.BoolsNode? && node.flags == [] ==> IsDefault(Canon(NodeValue(types, tid, node)))
    ensures node.ScalarsNode? && node.items == [] ==> IsDefault(Canon(NodeValue(types, tid, node)))
    ensures node.ArrayNode? && node.elems == [] ==> IsDefault(Canon(NodeValue(types, tid, node)))
    ensures node.MapNode? && node.entries == [] ==> IsDefault(Canon(NodeValue(types, tid, node)))
  {
  }

  /** Leaves are refreshed to themselves. */
  lemma LeafSame(types: Types, plan: FieldPlan, node: Node, k: nat, touch: Touch)
    requires node.MessageNode? && k < |node.fields|
    ensures var child := node.fields[k].1;
            child.ScalarNode? || child.BytesNode? || child.BoolsNode? || child.ScalarsNode? ==>
              Refreshed(types, plan.child, child, touch) == child
  {
  }

  // ---------------------------------------------------------------------
  // The condition is exact
  // ---------------------------------------------------------------------

  /** The entries of every map have different keys. */
  ghost predicate DistinctKeys(types: Types, tid: nat, node: Node)
    decreases node
  {
    match node
    case ArrayNode(_, elems) => forall i | 0 <= i < |elems| :: DistinctKeys(types, ChildOf(types, tid), elems[i])
    case MapNode(_, _, entries) =>
      && (forall i, k | 0 <= i < k < |entries| ::
            NodeValue(types, tid, entries[i].0) != NodeValue(types, tid, entries[k].0))
      && (forall i | 0 <= i < |entries| :: DistinctKeys(types, ChildOf(types, tid), entries[i].1))
    case MessageNode(_, fields) =>
      forall i | 0 <= i < |PlansOf(types, tid)| ::
        var plan := PlansOf(types, tid)[i];
        var k := FieldIndex(fields, plan.id, 0);
        k < |fields| ==> DistinctKeys(types, plan.child, fields[k].1)
    case _ => true
  }

  /** Two default values of trees of the same form are equal. */
  lemma DefaultUnique(types: Types, tid: nat, a: Node, b: Node)
    requires IsDefault(Canon(NodeValue(types, tid, a))) && IsDefault(Canon(NodeValue(types, tid, b)))
    requires (a.ArrayNode? && b.ArrayNode?) || (a.MapNode? && b.MapNode?) || (a.MessageNode? && b.MessageNode?)
    ensures Canon(NodeValue(types, tid, a)) == Canon(NodeValue(types, tid, b))
  {
    var x, y := Canon(NodeValue(types, tid, a)), Canon(NodeValue(types, tid, b));
    if a.MessageNode? {
      assert |x.fields| == |y.fields| == |PlansOf(types, tid)|;
      assert x.fields == y.fields;
    }
  }

  lemma SameForm(types: Types, tid: nat, node: Node, touch: Touch)
    ensures var r := Refreshed(types, tid, node, touch);
            && (node.ArrayNode? ==> r.ArrayNode?) && (node.MapNode? ==> r.MapNode?)
               && (node.MessageNode? ==> r.MessageNode?)
  {
  }

  /** A read negative zero always changes the meaning. */
  lemma {:induction false} LostZeroShows(types: Types, kind: Kind, tid: nat, node: Node, touch: Touch)
    requires Typed(types, kind, tid, node) && IsComplex(kind) && Formed(node) && InOrder(types, tid, node)
    requires DistinctKeys(types, tid, node)
    requires !NoLostZero(types, tid, node, touch)
    ensures Canon(NodeValue(types, tid, Refreshed(types, tid, node, touch))) != Canon(NodeValue(types, tid, node))
    decreases node, 2
  {
    match node
    case ArrayNode(_, _) => LostInArray(types, kind, tid, node, touch);
    case MapNode(_, _, _) => LostInMap(types, kind, tid, node, touch);
    case MessageNode(_, _) => LostInMessage(types, kind, tid, node, touch);
    case _ =>
  }

  lemma {:induction false} LostInArray(types: Types, kind: Kind, tid: nat, node: Node, touch: Touch)
    requires node.ArrayNode? && Typed(types, kind, tid, node) && Formed(node) && InOrder(types, tid, node)
    requires DistinctKeys(types, tid, node)
    requires !NoLostZero(types, tid, node, touch)
    ensures Canon(NodeValue(types, tid, Refreshed(types, tid, node, touch))) != Canon(NodeValue(types, tid, node))
    decreases node, 1
  {
    hide Canon;
    var child := ChildOf(types, tid);
    var i :| 0 <= i < |node.elems| && !NoLostZero(types, child, node.elems[i], Part(node.kind, touch, i));
    LostZeroShows(types, node.kind, child, node.elems[i], Part(node.kind, touch, i));
    var a, b := NodeValue(types, tid, Refreshed(types, tid, node, touch)), NodeValue(types, tid, node);
    CanonElement(a, i);
    CanonElement(b, i);
  }

  lemma CanonElement(v: Value, i: nat)
    requires v.VArray? && i < |v.elems|
    ensures Canon(v).VArray? && |Canon(v).elems| == |v.elems| && Canon(v).elems[i] == Canon(v.elems[i])
  {
  }

  lemma {:induction false} LostInMap(types: Types, kind: Kind, tid: nat, node: Node, touch: Touch)
    requires node.MapNode? && Typed(types, kind, tid, node) && Formed(node) && InOrder(types, tid, node)
    requires DistinctKeys(types, tid, node)
    requires !NoLostZero(types, tid, node, touch)
    ensures Canon(NodeValue(types, tid, Refreshed(types, tid, node, touch))) != Canon(NodeValue(types, tid, node))
    decreases node, 1
  {
    hide Canon, MapOf, Typed, Formed, InOrder, DistinctKeys, Refreshed, NodeValue, Unique;
    var i := LostEntry(types, tid, node, touch);
    EntryFacts(types, kind, tid, node, touch, i);
    LostZeroShows(types, node.valueKind, ChildOf(types, tid), node.entries[i].1, Part(node.valueKind, touch, i));
    RefreshedPairs(types, tid, node, touch, i);
    MapsDiffer(PairsOf(types, tid, Refreshed(types, tid, node, touch)), PairsOf(types, tid, node), i);
  }

  lemma LostEntry(types: Types, tid: nat, node: Node, touch: Touch) returns (i: nat)
    requires node.MapNode? && !NoLostZero(types, tid, node, touch)
    ensures touch.Read? && IsComplex(node.valueKind) && i < |node.entries|
    ensures !NoLostZero(types, ChildOf(types, tid), node.entries[i].1, Part(node.valueKind, touch, i))
  {
    i :| 0 <= i < |node.entries|
        && !NoLostZero(types, ChildOf(types, tid), node.entries[i].1, Part(node.valueKind, touch, i));
  }

  lemma EntryFacts(types: Types, kind: Kind, tid: nat, node: Node, touch: Touch, i: nat)
    requires node.MapNode? && Typed(types, kind, tid, node) && Formed(node) && InOrder(types, tid, node)
    requires DistinctKeys(types, tid, node) && i < |node.entries|
    ensures var child, value := ChildOf(types, tid), node.entries[i].1;
            && Typed(types, node.valueKind, child, value) && Formed(value) && InOrder(types, child, value)
            && DistinctKeys(types, child, value)
  {
  }

  /** Keys of a refreshed map, and its entry `i`. */
  lemma RefreshedPairs(types: Types, tid: nat, node: Node, touch: Touch, i: nat)
    requires node.MapNode? && IsComplex(node.valueKind) && touch.Read? && i < |node.entries|
    requires DistinctKeys(types, tid, node)
    ensures var r := Refreshed(types, tid, node, touch);
            && r.MapNode? && |r.entries| == |node.entries|
            && Unique(PairsOf(types, tid, node)) && Unique(PairsOf(types, tid, r))
            && PairsOf(types, tid, r)[i] == (NodeValue(types, tid, node.entries[i].0),
                                             NodeValue(types, ChildOf(types, tid),
                                                       Refreshed(types, ChildOf(types, tid), node.entries[i].1,
                                                                 Part(node.valueKind, touch, i))))
  {
    hide NodeValue;
    var a, b := PairsOf(types, tid, Refreshed(types, tid, node, touch)), PairsOf(types, tid, node);
    assert forall k | 0 <= k < |a| :: a[k].0 == b[k].0;
  }

  lemma MapsDiffer(a: seq<(Value, Value)>, b: seq<(Value, Value)>, i: nat)
    requires Unique(a) && Unique(b) && i < |a| && i < |b| && a[i].0 == b[i].0 && Canon(a[i].1) != Canon(b[i].1)
    ensures Canon(VMap(MapOf(a))) != Canon(VMap(MapOf(b)))
  {
    hide Canon, MapOf, Unique;
    EntryIn(a, i);
    EntryIn(b, i);
    CanonOfMap(MapOf(a));
    CanonOfMap(MapOf(b));
    assert CanonMap(MapOf(a))[a[i].0] == Canon(a[i].1) && CanonMap(MapOf(b))[b[i].0] == Canon(b[i].1);
  }

  lemma {:induction false} LostInMessage(types: Types, kind: Kind, tid: nat, node: Node, touch: Touch)
    requires node.MessageNode? && Typed(types, kind, tid, node) && Formed(node) && InOrder(types, tid, node)
    requires DistinctKeys(types, tid, node)
    requires !NoLostZero(types, tid, node, touch)
    ensures Canon(NodeValue(types, tid, Refreshed(types, tid, node, touch))) != Canon(NodeValue(types, tid, node))
    decreases node, 1
  {
    hide Canon, Refreshed, NodeValue, RefreshedField, CanonField, Typed, Formed, InOrder, DistinctKeys;
    var plans := PlansOf(types, tid);
    var i := LostField(types, tid, node, touch);
    MessageOrder(types, kind, tid, node);
    SomethingRead(types, tid, node, touch, i);
    RefreshedFieldValue(types, tid, node, touch, i);
    FieldOfValue(types, tid, node, i);
    FieldShows(types, kind, tid, node, plans[i], i, touch.part(plans[i].id));
    CanonPart(NodeValue(types, tid, Refreshed(types, tid, node, touch)), i);
    CanonPart(NodeValue(types, tid, node), i);
  }

  lemma LostField(types: Types, tid: nat, node: Node, touch: Touch) returns (i: nat)
    requires node.MessageNode? && !NoLostZero(types, tid, node, touch)
    ensures i < |PlansOf(types, tid)|
    ensures var plan := PlansOf(types, tid)[i];
            var k := FieldIndex(node.fields, plan.id, 0);
            k < |node.fields| && !NoLostZero(types, plan.child, node.fields[k].1, touch.part(plan.id))
    ensures touch.Read?
  {
    var plans := PlansOf(types, tid);
    i :| 0 <= i < |plans| && FieldIndex(node.fields, plans[i].id, 0) < |node.fields|
      && !NoLostZero(types, plans[i].child, node.fields[FieldIndex(node.fields, plans[i].id, 0)].1,
                     touch.part(plans[i].id));
  }

  lemma MessageOrder(types: Types, kind: Kind, tid: nat, node: Node)
    requires node.MessageNode? && Typed(types, kind, tid, node) && InOrder(types, tid, node)
    ensures AscendingPlans(PlansOf(types, tid)) && kind == KMessage
  {
  }

  lemma SomethingRead(types: Types, tid: nat, node: Node, touch: Touch, i: nat)
    requires node.MessageNode? && i < |PlansOf(types, tid)| && touch.Read?
    requires var plan := PlansOf(types, tid)[i];
             var k := FieldIndex(node.fields, plan.id, 0);
             k < |node.fields| && !NoLostZero(types, plan.child, node.fields[k].1, touch.part(plan.id))
    ensures !NothingRead(PlansOf(types, tid), touch)
  {
    assert !touch.part(PlansOf(types, tid)[i].id).Clean?;
  }

  lemma CanonPart(v: Value, i: nat)
    requires v.VMessage? && i < |v.fields|
    ensures Canon(v).VMessage? && |Canon(v).fields| == |v.fields| && Canon(v).fields[i] == CanonField(v.fields[i])
  {
  }

  /** The field that holds the zero, or contains it, reads differently. */
  lemma {:induction false} FieldShows(types: Types, kind: Kind, tid: nat, node: Node, plan: FieldPlan, i: nat,
                                      touch: Touch)
    requires node.MessageNode? && i < |PlansOf(types, tid)| && PlansOf(types, tid)[i] == plan && kind == KMessage
    requires Typed(types, kind, tid, node) && Formed(node) && InOrder(types, tid, node)
    requires DistinctKeys(types, tid, node)
    requires var k := FieldIndex(node.fields, plan.id, 0);
             k < |node.fields| && !NoLostZero(types, plan.child, node.fields[k].1, touch)
    ensures var k, f := FieldIndex(node.fields, plan.id, 0), RefreshedField(types, plan, node, touch);
            CanonField(if f.NoneNode? then None else Some(NodeValue(types, plan.child, f))) !=
            CanonField(if k < |node.fields| && !node.fields[k].1.NoneNode? then
                       Some(NodeValue(types, plan.child, node.fields[k].1)) else None)
    decreases node, 0
  {
    hide Refreshed, Canon, IsDefault, NodeValue, Typed, Formed, InOrder, DistinctKeys, IsZero, NegativeZero, AllNone,
        RefreshedField;
    var k, f := FieldIndex(node.fields, plan.id, 0), RefreshedField(types, plan, node, touch);
    var child := node.fields[k].1;
    FieldFacts(types, tid, node, plan, i, k);
    if child.ScalarNode? {
      ScalarShows(types, plan, node, k, touch);
    } else {
      ChildFacts(types, tid, node, plan, i, k);
      FieldForm(types, plan, node, k, touch);
      ComplexChild(types, plan, child);
      LostZeroShows(types, plan.kind, plan.child, child, touch);
      var r := Refreshed(types, plan.child, child, touch);
      SameForm(types, plan.child, child, touch);
      if AllNone(r) { NoFieldsDefault(types, plan.child, r); }
      if IsDefault(Canon(NodeValue(types, plan.child, r))) && IsDefault(Canon(NodeValue(types, plan.child, child))) {
        DefaultUnique(types, plan.child, r, child);
      }
    }
  }

  lemma ComplexChild(types: Types, plan: FieldPlan, child: Node)
    requires Typed(types, plan.kind, plan.child, child) && (child.ArrayNode? || child.MapNode? || child.MessageNode?)
    ensures IsComplex(plan.kind)
  {
  }

  lemma ScalarShows(types: Types, plan: FieldPlan, node: Node, k: nat, touch: Touch)
    requires node.MessageNode? && k == FieldIndex(node.fields, plan.id, 0) < |node.fields|
    requires node.fields[k].1.ScalarNode? && !NoLostZero(types, plan.child, node.fields[k].1, touch)
    ensures RefreshedField(types, plan, node, touch) == NoneNode
    ensures CanonField(Some(NodeValue(types, plan.child, node.fields[k].1))).Some?
  {
    var child := node.fields[k].1;
    assert NegativeZero(child.kind, child.words);
    assert child.words[|child.words| - 1] != 0;
  }

  lemma ChildFacts(types: Types, tid: nat, node: Node, plan: FieldPlan, i: nat, k: nat)
    requires node.MessageNode? && i < |PlansOf(types, tid)| && PlansOf(types, tid)[i] == plan
    requires DistinctKeys(types, tid, node)
    requires k == FieldIndex(node.fields, plan.id, 0) < |node.fields|
    ensures DistinctKeys(types, plan.child, node.fields[k].1)
  {
  }

  /** A complex field that contains a read value is kept refreshed, or dropped as a message without fields. */
  lemma FieldForm(types: Types, plan: FieldPlan, node: Node, k: nat, touch: Touch)
    requires node.MessageNode? && k == FieldIndex(node.fields, plan.id, 0) < |node.fields|
    requires !NoLostZero(types, plan.child, node.fields[k].1, touch)
    requires !node.fields[k].1.ScalarNode?
    ensures var f, r := RefreshedField(types, plan, node, touch), Refreshed(types, plan.child, node.fields[k].1, touch);
            && (f == r || (f == NoneNode && AllNone(r))) && !r.NoneNode?
            && (node.fields[k].1.ArrayNode? || node.fields[k].1.MapNode? || node.fields[k].1.MessageNode?)
  {
    hide AllNone;
    RefreshedPresent(types, plan.child, node.fields[k].1, touch);
  }

  /**
   Lazy serialization keeps the meaning of a tree if and only if no field that
   was read is a negative zero.
   */
  lemma SameMeaningExactly(types: Types, kind: Kind, tid: nat, node: Node, touch: Touch)
    requires Typed(types, kind, tid, node) && IsComplex(kind) && Formed(node) && InOrder(types, tid, node)
    requires DistinctKeys(types, tid, node)
    ensures Canon(NodeValue(types, tid, Refreshed(types, tid, node, touch))) == Canon(NodeValue(types, tid, node))
            <==> NoLostZero(types, tid, node, touch)
  {
    hide Canon, NodeValue, Refreshed, Typed, Formed, InOrder, DistinctKeys, NoLostZero;
    if NoLostZero(types, tid, node, touch) {
      SameMeaning(types, kind, tid, node, touch);
    } else {
      LostZeroShows(types, kind, tid, node, touch);
    }
  }

  /** Refreshing keeps kinds and well-formedness. */
  lemma {:induction false} RefreshedFormed(types: Types, kind: Kind, tid: nat, node: Node, touch: Touch)
    requires Formed(node) && Typed(types, kind, tid, node)
    ensures Formed(Refreshed(types, tid, node, touch)) && NodeKind(Refreshed(types, tid, node, touch)) == NodeKind(node)
    decreases node, 1
  {
    if touch.Read? {
      match node
      case ArrayNode(item, elems) =>
        forall i | 0 <= i < |elems| && IsComplex(item)
          ensures Formed(Refreshed(types, ChildOf(types, tid), elems[i], Part(item, touch, i)))
          ensures NodeKind(Refreshed(types,
                ChildOf(types, tid), elems[i], Part(item, touch, i))) == Some(item)
        {
          RefreshedFormed(types, item, ChildOf(types, tid), elems[i], Part(item, touch, i));
        }
      case MapNode(_, value, entries) =>
        forall i | 0 <= i < |entries| && IsComplex(value) ensures Formed(Refreshed(types, ChildOf(types, tid),
              entries[i].1, Part(value, touch, i))) {
          RefreshedFormed(types, value, ChildOf(types, tid), entries[i].1, Part(value, touch, i));
        }
      case MessageNode(_, _) =>
        var plans := PlansOf(types, tid);
        forall i | 0 <= i < |plans| ensures Formed(RefreshedField(types, plans[i], node, touch.part(plans[i].id))) {
          FieldFormed(types, kind, tid, node, i, touch.part(plans[i].id));
        }
      case _ =>
    }
  }

  lemma {:induction false} FieldFormed(types: Types, kind: Kind, tid: nat, node: Node, i: nat, touch: Touch)
    requires node.MessageNode? && Formed(node) && Typed(types, kind, tid, node) && i < |PlansOf(types, tid)|
    ensures Formed(RefreshedField(types, PlansOf(types, tid)[i], node, touch))
    decreases node, 0
  {
    hide Refreshed;
    var plan := PlansOf(types, tid)[i];
    var k := FieldIndex(node.fields, plan.id, 0);
    if k < |node.fields| && !node.fields[k].1.NoneNode? {
      var child := node.fields[k].1;
      assert Formed(child) && Typed(types, plan.kind, plan.child, child);
      RefreshedFormed(types, plan.kind, plan.child, child, touch);
    }
  }

  /** A message with one float field. */
  const FloatTypes: Types := [MessageType([FieldPlan(0, KF32, 0)], [0])]
  const NegativeFloat: Node := MessageNode(1, [(0, ScalarNode(KF32, [0x8000_0000]))])

  /** A field that reads as negative zero is not kept once it has been read. */
  lemma NegativeZeroIsLost(touch: Touch)
    requires touch.Read? && touch.part(0).Read?
    ensures Typed(FloatTypes, KMessage, 0, NegativeFloat) && Formed(NegativeFloat)
    ensures InOrder(FloatTypes, 0, NegativeFloat)
    ensures Canon(NodeValue(FloatTypes, 0, Refreshed(FloatTypes, 0, NegativeFloat,
          touch))) != Canon(NodeValue(FloatTypes, 0, NegativeFloat))
  {
    hide Refreshed, NodeValue, Canon, RefreshedField, Typed, Formed, InOrder;
    NegativeFloatTyped();
    var plans := PlansOf(FloatTypes, 0);
    assert !NothingRead(plans, touch) by { assert !touch.part(plans[0].id).Clean?; }
    NegativeFloatField(touch.part(0));
    RefreshedFieldValue(FloatTypes, 0, NegativeFloat, touch, 0);
    FieldOfValue(FloatTypes, 0, NegativeFloat, 0);
    CanonFirst(NodeValue(FloatTypes, 0, Refreshed(FloatTypes, 0, NegativeFloat, touch)));
    CanonFirst(NodeValue(FloatTypes, 0, NegativeFloat));
  }

  lemma NegativeFloatTyped()
    ensures Typed(FloatTypes, KMessage, 0, NegativeFloat) && Formed(NegativeFloat)
    ensures InOrder(FloatTypes, 0, NegativeFloat)
    ensures AscendingPlans(PlansOf(FloatTypes, 0))
  {
    var plans := PlansOf(FloatTypes, 0);
    assert FieldIndex(NegativeFloat.fields, 0, 0) == 0;
    assert NegativeFloat.fields[0].0 == plans[0].id;
  }

  lemma NegativeFloatField(touch: Touch)
    requires touch.Read?
    ensures FieldIndex(NegativeFloat.fields, 0, 0) == 0
    ensures RefreshedField(FloatTypes, FieldPlan(0, KF32, 0), NegativeFloat, touch) == NoneNode
    ensures CanonField(Some(NodeValue(FloatTypes, 0, NegativeFloat.fields[0].1))).Some?
  {
    assert FieldIndex(NegativeFloat.fields, 0, 0) == 0;
    var negative: seq<u32> := [0x8000_0000];
    assert negative[0] != 0;
  }

  lemma CanonFirst(v: Value)
    requires v.VMessage? && |v.fields| > 0
    ensures Canon(v).VMessage? && |Canon(v).fields| > 0 && Canon(v).fields[0] == CanonField(v.fields[0])
  {
  }
}
