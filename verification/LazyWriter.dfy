/**
 Serialization of partly read values: unread extents are copied, read ones
 are encoded again (Copy and MessageEX::SerializeField of
 include/protocache/access-ex.h, the Serialize functions of ArrayEX and MapEX
 and those generated by tools/protoc-gen-pccx.cc).
 */
module LazyWriter {
  import opened Words
  import opened Swar
  import opened Buffers
  import opened Layout
  import opened Units
  import opened Strings
  import opened Serialize
  import opened Messages
  import opened Schema
  import opened HashGraph
  import opened HashBuild
  import opened HashIndex
  import opened Arena
  import opened EncodingSize
  import opened ArenaWriter
  import opened Decode
  import opened Objects
  import opened Meaning
  import opened MapTrip
  import opened MapFinder
  import opened Detector
  import opened Extents
  import opened ExtentTrip
  import opened Lazy

  // ---------------------------------------------------------------------
  // Messages of a single word
  // ---------------------------------------------------------------------

  lemma {:induction false} ZeroSum(ws: seq<nat>)
    requires forall i | 0 <= i < |ws| :: ws[i] == 0
    ensures Sum(ws) == 0
  {
    if ws != [] { ZeroSum(ws[1..]); }
  }

  lemma {:induction false} NothingOut(cs: seq<seq<u32>>)
    requires forall i | 0 <= i < |cs| :: cs[i] == []
    ensures OutTotal(cs) == 0
  {
    if cs != [] { NothingOut(cs[1..]); }
  }

  lemma Present(node: Node, w: seq<u32>, hash: Hash)
    requires Enc(node, w, hash) && Formed(node)
    ensures w == [] <==> node.NoneNode?
  {
    hide EncArray, EncMap, EncMessage, StringWords;
    if !node.NoneNode? && !node.ScalarNode? { TagUnambiguous(node, w, hash); }
  }

  /** A message takes a single word exactly when it has no field. */
  lemma OneWordMessage(node: Node, w: seq<u32>, hash: Hash)
    requires node.MessageNode? && Enc(node, w, hash) && Formed(node)
    ensures |w| == 1 <==> AllNone(node)
  {
    hide EncMessage;
    var plan: MessagePlan :| EncMessage(node, plan, w, hash);
    if AllNone(node) { NoneIsShort(node, plan, w, hash); } else { SomeIsLong(node, plan, w, hash); }
  }

  lemma NoneIsShort(node: Node, plan: MessagePlan, w: seq<u32>, hash: Hash)
    requires node.MessageNode? && EncMessage(node, plan, w, hash) && AllNone(node)
    ensures |w| == 1
  {
    hide MessageHead, Sum, HeadOk, HeadAt, EncArray, EncMap, OutTotal, Outlined, StoredBehind;
    var fields, ws := node.fields, plan.widths;
    forall k | 0 <= k < |fields| ensures plan.cs[k] == [] {
      assert Enc(fields[k].1, plan.cs[k], hash);
    }
    NothingOut(plan.cs);
    forall id | 0 <= id < |ws| ensures ws[id] == 0 {
      if Listed(fields, id) {
        var k :| 0 <= k < |fields| && fields[k].0 == id;
        assert FieldStored(w, ws, fields[k].0, plan.cs[k]);
      }
    }
    assert ws == [];
    ZeroSum(ws);
    HeadLength(ws);
  }

  lemma SomeIsLong(node: Node, plan: MessagePlan, w: seq<u32>, hash: Hash)
    requires node.MessageNode? && EncMessage(node, plan, w, hash) && Formed(node) && !AllNone(node)
    ensures |w| > 1
  {
    hide MessageHead, Sum, HeadOk, HeadAt, Enc, OutTotal, Outlined, StoredBehind;
    var fields, ws := node.fields, plan.widths;
    var k :| 0 <= k < |fields| && !fields[k].1.NoneNode?;
    Present(fields[k].1, plan.cs[k], hash);
    assert FieldStored(w, ws, fields[k].0, plan.cs[k]);
    PrefixSum(ws, fields[k].0);
    HeadLength(ws);
  }

  // ---------------------------------------------------------------------
  // Copying
  // ---------------------------------------------------------------------

  /** A unit of a message field: inline exactly for up to three words. */
  ghost predicate Folded(unit: Unit, w: seq<u32>) {
    w != [] ==> (unit.Inline? <==> |w| <= 3)
  }

  /** Copy. */
  method Copy(src: seq<u32>, buf: Buffer, fold: bool) returns (unit: Unit)
    requires buf.Valid() && (src != [] || fold)
    modifies buf, buf.data
    ensures buf.Valid() && (buf.data == old(buf.data) || fresh(buf.data))
    ensures Written(unit, src, old(buf.Contents()), buf.Contents())
    ensures if fold then Folded(unit, src) else unit.Segment?
  {
    if fold && |src| < 4 {
      return if |src| == 0 then Absent else Inline(src);
    }
    var last := buf.Size();
    buf.PutAll(src);
    unit := Segment(buf.Size(), buf.Size() - last);
  }

  /** An object that is stored in the source. */
  ghost predicate Stored(words: seq<u32>, types: Types, hash: Hash, kind: Kind, tid: nat, at: nat, node: Node,
                         c: seq<u32>) {
    && |words| < 0x4000_0000 && InAt(words, at, c) && Enc(node, c, hash) && Formed(node)
    && !IsScalar(kind) && Typed(types, kind, tid, node) && InOrder(types, tid, node)
  }

  lemma StoredExtent(words: seq<u32>, types: Types, hash: Hash, kind: Kind, tid: nat, at: nat, node: Node, c: seq<u32>)
    requires Stored(words, types, hash, kind, tid, at, node, c)
    ensures var end := DetectObject(words, types, kind, tid, at);
            at < end <= |words| && words[at..end] == c && c != [] && !node.NoneNode? && !node.ScalarNode?
  {
    hide DetectObject, Enc;
    Detected(words, types, kind, tid, at, node, c, hash);
    TagUnambiguous(node, c, hash);
  }

  /** Copies the extent that Detect finds. */
  method CopyExtent(words: seq<u32>, types: Types, kind: Kind, tid: nat, at: nat, buf: Buffer, fold: bool,
                    ghost hash: Hash, ghost node: Node, ghost c: seq<u32>) returns (unit: Unit)
    requires buf.Valid() && Stored(words, types, hash, kind, tid, at, node, c)
    modifies buf, buf.data
    ensures buf.Valid() && (buf.data == old(buf.data) || fresh(buf.data))
    ensures c != [] && Written(unit, c, old(buf.Contents()), buf.Contents())
    ensures if fold then Folded(unit, c) else unit.Segment?
  {
    hide DetectObject, Stored, Written, Folded;
    StoredExtent(words, types, hash, kind, tid, at, node, c);
    var end := DetectObject(words, types, kind, tid, at);
    unit := Copy(words[at..end], buf, fold);
  }

  // ---------------------------------------------------------------------
  // Where the parts of a stored value are
  // ---------------------------------------------------------------------

  lemma ArrayPlanOf(node: Node, c: seq<u32>, hash: Hash) returns (ws: seq<seq<u32>>)
    requires node.ArrayNode? && Enc(node, c, hash)
    ensures EncArray(node, ws, c, hash)
  {
    hide EncArray;
    ws :| EncArray(node, ws, c, hash);
  }

  lemma MapPlanOf(node: Node, c: seq<u32>, hash: Hash) returns (plan: MapPlan)
    requires node.MapNode? && node.entries != [] && Enc(node, c, hash)
    ensures EncMap(node, plan, c, hash)
  {
    hide EncMap;
    plan :| EncMap(node, plan, c, hash);
  }

  lemma MessagePlanOf(node: Node, c: seq<u32>, hash: Hash) returns (plan: MessagePlan)
    requires node.MessageNode? && Enc(node, c, hash)
    ensures EncMessage(node, plan, c, hash)
  {
    hide EncMessage;
    plan :| EncMessage(node, plan, c, hash);
  }

  lemma ElementStoredAt(words: seq<u32>, types: Types, hash: Hash, tid: nat, at: nat, node: Node, c: seq<u32>,
        i: nat) returns (p: nat, d: seq<u32>)
    requires Stored(words, types, hash, KArray, tid, at, node, c) && node.ArrayNode? && IsComplex(node.kind)
    requires i < |node.elems|
    ensures at < |words| && GetObject(words, at + 1 + Prod(words[at] % 4, i)) == Some(p)
    ensures Stored(words, types, hash, node.kind, ChildOf(types, tid), p, node.elems[i], d)
  {
    hide EncArray, GetObject, Prod, InAt, ArrayWords, BestWidth, Enc;
    var ws := ArrayPlanOf(node, c, hash);
    d := EncElement(node, ws, c, hash, i);
    assert Typed(types, node.kind, types[tid].child, node.elems[i]);
    TagUnambiguous(node.elems[i], d, hash);
    ArrayView(words, at, ws);
    p := ElementObject(words, at, ws, i);
    assert ArrayTrip.WidthOf(ws) == BestWidth(Lens(ws));
  }

  lemma EncElement(node: Node, ws: seq<seq<u32>>, c: seq<u32>, hash: Hash, i: nat) returns (d: seq<u32>)
    requires node.ArrayNode? && EncArray(node, ws, c, hash) && i < |node.elems|
    ensures |ws| == |node.elems| < 0x4000_0000 && c == ArrayWords(ws) && d == ws[i] && Enc(node.elems[i], d, hash)
  {
    hide Enc, ArrayWords;
    d := ws[i];
  }

  /** Index of the value cell of entry `i` of a map, by way of its key. */
  function ValueCell(words: seq<u32>, at: nat, hash: Hash, key: Key): (r: int)
    requires at < |words| && 4 * (|words| - at) >= IndexBytes(words[at] % LIMIT)
  {
    var info := MapInfo(words, KString, KString, at);
    var slot := Locate(IndexImage(words, at), hash, key);
    if slot < 0 then -1 else info.body + Prod(info.keyWidth + info.valueWidth, slot) + info.keyWidth
  }

  lemma EntryStoredAt(words: seq<u32>, types: Types, hash: Hash, tid: nat, at: nat, node: Node, c: seq<u32>,
        i: nat) returns (p: nat, d: seq<u32>)
    requires Stored(words, types, hash, KMap, tid, at, node, c) && node.MapNode? && IsComplex(node.valueKind)
    requires i < |node.entries|
    ensures at < |words| && 4 * (|words| - at) >= IndexBytes(words[at] % LIMIT)
    ensures var cell := ValueCell(words, at, hash, KeyBytes(node.entries[i].0));
            cell >= 0 && GetObject(words, cell) == Some(p)
    ensures Stored(words, types, hash, node.valueKind, ChildOf(types, tid), p, node.entries[i].1, d)
  {
    hide EncMap, GetObject, Prod, InAt, MapWords, BestWidth, MapPlaced, IndexBytes, Locate, IndexImage, MapInfo,
        OpenMap,
          SlotCell, ValueCell;
    var plan := MapPlanOf(node, c, hash);
    MapOpened(words, types, hash, tid, at, node, plan, c);
    p, d := SlotStoredAt(words, types, hash, tid, at, node, plan, c, i);
  }

  lemma MapOpened(words: seq<u32>, types: Types, hash: Hash, tid: nat, at: nat, node: Node, plan: MapPlan, c: seq<u32>)
    requires Stored(words, types, hash, KMap, tid, at, node, c) && node.MapNode? && node.entries != []
    requires EncMap(node, plan, c, hash)
    ensures |plan.ks| == |plan.vs| && |plan.index| > 0 && WordAt(plan.index, 0) < 0x1000_0000
          && c == MapWords(plan.index, plan.ks, plan.vs)
    ensures MapPlaced(words, types, tid, Loc(at, |words|), node, plan, hash) && at < |words|
    ensures 4 * (|words| - at) >= IndexBytes(words[at] % LIMIT)
  {
    hide MapWords, Enc, Perfect, Locate, IndexBytes, IndexImage, Formed, Typed, InOrder, OpenMap;
    InAtWhole(words, at, c);
    Opened(words, types, tid, Loc(at, |words|), node, plan, hash, KString, KString, []);
    OpenedImage(words, at);
  }

  lemma OpenedImage(words: seq<u32>, at: nat)
    ensures OpenMap(words, at, KString, KString).Some? ==> at < |words|
    ensures OpenMap(words, at, KString, KString).Some? ==> 4 * (|words| - at) >= IndexBytes(words[at] % LIMIT)
  {
  }

  lemma SlotStoredAt(words: seq<u32>, types: Types, hash: Hash, tid: nat, at: nat, node: Node, plan: MapPlan,
        c: seq<u32>, i: nat) returns (p: nat, d: seq<u32>)
    requires Stored(words, types, hash, KMap, tid, at, node, c) && node.MapNode? && IsComplex(node.valueKind)
          && i < |node.entries| && EncMap(node, plan, c, hash)
    requires MapPlaced(words, types, tid, Loc(at, |words|), node, plan, hash) && at < |words|
          && 4 * (|words| - at) >= IndexBytes(words[at] % LIMIT)
    ensures var cell := ValueCell(words, at, hash, KeyBytes(node.entries[i].0));
            cell >= 0 && GetObject(words, cell) == Some(p)
    ensures Stored(words, types, hash, node.valueKind, ChildOf(types, tid), p, node.entries[i].1, d)
  {
    hide GetObject, Prod, InAt, MapWords, BestWidth, IndexBytes, Locate, IndexImage, MapInfo, OpenMap, SlotCell, Found,
          MapItemsOf, Perfect, Enc;
    var key := KeyBytes(node.entries[i].0);
    PlacedSlots(words, types, tid, Loc(at, |words|), node, plan, hash);
    LocatedEntry(node, plan, hash, i);
    Opened(words, types, tid, Loc(at, |words|), node, plan, hash, KString, KString, key);
    InfoShape(words, at, node.keyKind, node.valueKind);
    MapView(words, types, tid, at, node, plan, hash);
    var s := Locate(plan.index, hash, key);
    SlotCellIs(at, plan, s, MapInfo(words, node.keyKind, node.valueKind, at));
    d := plan.vs[s];
    assert Enc(node.entries[plan.order[s]].1, plan.vs[s], hash);
    assert Typed(types, node.valueKind, types[tid].child, node.entries[i].1) && Formed(node.entries[i].1)
          && InOrder(types, ChildOf(types, tid), node.entries[i].1);
    TagUnambiguous(node.entries[i].1, d, hash);
    SlotObject(words, at, plan, s, true);
    SlotCells(plan, s);
    p := FoundAt(words, SlotCell(at, plan, s, true), SlotCell(at, plan, |plan.ks|, false), MapItemsOf(plan), 2 * s + 1);
  }

  lemma FoundAt(words: seq<u32>, cell: nat, view: nat, items: seq<Item>, k: nat) returns (p: nat)
    requires k < |items| && Found(words, cell, view, items, k)
    ensures GetObject(words, cell) == Some(p) && InAt(words, p, items[k].words)
  {
    hide GetObject, InAt, KeptSum;
    p := GetObject(words, cell).value;
  }

  /** Where field `k` of a stored message is. */
  lemma FieldStoredAt(words: seq<u32>, types: Types, hash: Hash, tid: nat, at: nat, node: Node, c: seq<u32>,
                      plan: FieldPlan, i: nat)
    returns (d: seq<u32>)
    requires Stored(words, types, hash, KMessage, tid, at, node, c) && node.MessageNode? && i < |PlansOf(types, tid)|
          && PlansOf(types, tid)[i] == plan
    ensures HeaderInside(words, at)
    ensures FieldSource(words, types, hash, at, node, plan, d)
  {
    hide EncMessage, InAt, GetField, GetObject, Scan;
    var mp := MessagePlanOf(node, c, hash);
    d := FieldSourceOf(words, types, hash, tid, at, node, c, plan, i, mp);
  }

  /** A field of the source: absent, the words of a scalar, or a stored object. */
  ghost predicate FieldSource(words: seq<u32>, types: Types, hash: Hash, at: nat, node: Node, plan: FieldPlan,
                              d: seq<u32>)
    requires HeaderInside(words, at) && node.MessageNode?
  {
    var k, cell := FieldIndex(node.fields, plan.id, 0), GetField(words, at, plan.id);
    if k == |node.fields| || node.fields[k].1.NoneNode? then d == [] && cell.None?
    else
      var child := node.fields[k].1;
      && cell.Some? && d != [] && Enc(child, d, hash) && Formed(child) && NodeKind(child) == Some(plan.kind)
      && if child.ScalarNode? then cell.value.1 == |d| <= 3 && InAt(words, cell.value.0, d)
         else
           var p := GetObject(words, cell.value.0);
           p.Some? && Stored(words, types, hash, plan.kind, plan.child, p.value, child, d)
  }

  lemma FieldSourceOf(words: seq<u32>, types: Types, hash: Hash, tid: nat, at: nat, node: Node, c: seq<u32>,
        plan: FieldPlan, i: nat, mp: MessagePlan)
    returns (d: seq<u32>)
    requires Stored(words, types, hash, KMessage, tid, at, node, c) && node.MessageNode? && i < |PlansOf(types, tid)|
          && PlansOf(types, tid)[i] == plan
    requires EncMessage(node, mp, c, hash)
    ensures HeaderInside(words, at) && FieldSource(words, types, hash, at, node, plan, d)
  {
    hide EncMessage, InAt, GetField, GetObject, MessageHead, Sum, HeadOk, HeadAt, Enc, MessageEnd, OutTotal, Formed,
        Typed, InOrder;
    var k := FieldIndex(node.fields, plan.id, 0);
    MessageView(words, at, node, mp, c, hash);
    if k == |node.fields| || node.fields[k].1.NoneNode? {
      d := [];
      MissingCell(words, at, node, mp, c, hash, plan.id, k);
    } else {
      var child := node.fields[k].1;
      d := mp.cs[k];
      FieldEncodedAs(node, mp, c, hash, k);
      StoredParts(words, types, hash, KMessage, tid, at, node, c);
      FieldFacts(types, tid, node, plan, i, k);
      ChildKind(types, plan, child);
      Present(child, d, hash);
      if child.ScalarNode? {
        ScalarCell(words, at, node, mp, c, hash, k);
      } else {
        TagUnambiguous(child, d, hash);
        FieldObject(words, at, node, mp, c, hash, k);
      }
    }
  }

  lemma StoredParts(words: seq<u32>, types: Types, hash: Hash, kind: Kind, tid: nat, at: nat, node: Node, c: seq<u32>)
    requires Stored(words, types, hash, kind, tid, at, node, c)
    ensures |words| < 0x4000_0000 && InAt(words, at, c) && Typed(types, kind, tid, node) && Formed(node)
    ensures InOrder(types, tid, node)
  {
    hide Enc, InAt, Typed, Formed, InOrder;
  }

  lemma ChildKind(types: Types, plan: FieldPlan, child: Node)
    requires Typed(types, plan.kind, plan.child, child) && Formed(child)
    ensures NodeKind(child) == Some(plan.kind) && (IsScalar(plan.kind) <==> child.ScalarNode?)
  {
  }

  lemma MissingCell(words: seq<u32>, at: nat, node: Node, mp: MessagePlan, c: seq<u32>, hash: Hash, id: nat, k: nat)
    requires |words| < 0x4000_0000 && InAt(words, at, c) && node.MessageNode? && EncMessage(node, mp, c, hash)
    requires HeaderInside(words, at)
    requires k == FieldIndex(node.fields, id, 0) && (k == |node.fields| || node.fields[k].1.NoneNode?)
    ensures GetField(words, at, id) == None
  {
    hide InAt, GetField, MessageHead, Sum, HeadOk, HeadAt, EncArray, EncMap, OutTotal, Outlined, StoredBehind;
    var fields := node.fields;
    MessageView(words, at, node, mp, c, hash);
    GetFieldReadsBack(words, at, mp.widths, id);
    if k < |fields| {
      assert Enc(fields[k].1, mp.cs[k], hash) && FieldStored(c, mp.widths, fields[k].0, mp.cs[k]);
    } else {
      forall j | 0 <= j < |fields| ensures fields[j].0 != id {
        if fields[j].0 == id { FieldIndexFirst(fields, id, 0, j); }
      }
      assert !Listed(fields, id);
    }
  }

  lemma ScalarCell(words: seq<u32>, at: nat, node: Node, mp: MessagePlan, c: seq<u32>, hash: Hash, k: nat)
    requires |words| < 0x4000_0000 && InAt(words, at, c) && node.MessageNode? && EncMessage(node, mp, c, hash)
    requires HeaderInside(words, at)
    requires k < |node.fields| == |mp.cs| && node.fields[k].1.ScalarNode? && Formed(node.fields[k].1) && mp.cs[k] != []
    ensures var cell, d := GetField(words, at, node.fields[k].0), mp.cs[k];
            cell.Some? && cell.value.1 == |d| <= 3 && InAt(words, cell.value.0, d)
  {
    hide InAt, GetField, MessageHead, Sum, HeadOk, HeadAt, OutTotal, Outlined, StoredBehind, Enc;
    MessageView(words, at, node, mp, c, hash);
    var id, d := node.fields[k].0, mp.cs[k];
    assert Enc(node.fields[k].1, d, hash) && FieldStored(c, mp.widths, id, d);
    ScalarShort(node.fields[k].1, d, hash);
    GetFieldReadsBack(words, at, mp.widths, id);
    InAtTrans(words, at, c, |MessageHead(mp.widths)| + Sum(mp.widths[..id]), d);
  }

  // ---------------------------------------------------------------------
  // What is refused
  // ---------------------------------------------------------------------

  /** Nothing of the value was read, so that its extent is copied. */
  predicate Copied(types: Types, tid: nat, node: Node, touch: Touch) {
    touch.Clean? || (node.MessageNode? && NothingRead(PlansOf(types, tid), touch))
  }

  /** The reasons for which a partly read tree is not serialized; copying never fails. */
  ghost predicate LazyRefused(types: Types, tid: nat, node: Node, touch: Touch, hash: Hash, seeds: nat -> u32)
    decreases node
  {
    var r := Refreshed(types, tid, node, touch);
    if Copied(types, tid, node, touch) then false
    else
      match node
      case ArrayNode(kind, elems) =>
        if IsComplex(kind) then
          || (exists i :: 0 <= i < |elems|
                          && LazyRefused(types, ChildOf(types, tid), elems[i], Part(kind, touch, i), hash, seeds))
          || (r.ArrayNode? && exists ws: seq<seq<u32>> :: ElementsOver(r.elems, ws, hash))
        else Refused(node, hash, seeds)
      case MapNode(_, value, entries) =>
        if IsComplex(value) then
          || BuildFails(KeysOf(entries), hash, seeds)
          || (exists i :: 0 <= i < |entries| && (Refused(entries[i].0, hash, seeds) || LazyRefused(types, ChildOf(types,
                tid), entries[i].1, Part(value, touch, i), hash, seeds)))
          || (r.MapNode? && exists plan: MapPlan :: EntriesOver(r.entries, plan, hash))
        else Refused(node, hash, seeds)
      case MessageNode(_, fields) =>
        var plans := PlansOf(types, tid);
        || (exists i :: 0 <= i < |plans| && FieldIndex(fields, plans[i].id, 0) < |fields|
              && LazyRefused(types, plans[i].child, fields[FieldIndex(fields, plans[i].id, 0)].1,
                             touch.part(plans[i].id), hash, seeds))
        || (r.MessageNode? && exists units: seq<Unit>, cs: seq<seq<u32>>, contents: seq<u32>,
              last: nat :: FieldsOver(r.fields, units, cs, contents, last, hash))
      case _ => Refused(node, hash, seeds)
  }

  /** The child of a field is refused. */
  ghost predicate PartRefused(types: Types, plan: FieldPlan, node: Node, touch: Touch, hash: Hash, seeds: nat -> u32)
    requires node.MessageNode?
  {
    var k := FieldIndex(node.fields, plan.id, 0);
    k < |node.fields| && LazyRefused(types, plan.child, node.fields[k].1, touch, hash, seeds)
  }

  lemma LeafRefused(types: Types, tid: nat, node: Node, touch: Touch, hash: Hash, seeds: nat -> u32)
    requires touch.Read?
    requires node.BytesNode? || node.BoolsNode? || node.ScalarsNode? || (node.ArrayNode? && !IsComplex(node.kind))
          || (node.MapNode? && !IsComplex(node.valueKind))
    ensures LazyRefused(types, tid, node, touch, hash, seeds) <==> Refused(node, hash, seeds)
  {
    hide Refused;
  }

  lemma LazyArrayRefused(types: Types, tid: nat, node: Node, touch: Touch, ws: seq<seq<u32>>, hash: Hash,
                         seeds: nat -> u32)
    requires node.ArrayNode? && IsComplex(node.kind) && touch.Read?
    requires var r := Refreshed(types, tid, node, touch);
             r.ArrayNode? && |ws| == |r.elems| && ArrayOver(ws) && forall i | 0 <= i < |ws| ::
               Enc(r.elems[i], ws[i], hash)
    ensures LazyRefused(types, tid, node, touch, hash, seeds)
  {
    hide Enc, ArrayOver, Refused, Refreshed;
    assert ElementsOver(Refreshed(types, tid, node, touch).elems, ws, hash);
  }

  lemma LazyArrayAccepted(types: Types, tid: nat, node: Node, touch: Touch, ws: seq<seq<u32>>, hash: Hash,
                          seeds: nat -> u32)
    requires node.ArrayNode? && IsComplex(node.kind) && touch.Read?
    requires var r := Refreshed(types, tid, node, touch);
             r.ArrayNode? && |ws| == |r.elems| && !ArrayOver(ws) && forall i | 0 <= i < |ws| ::
               Enc(r.elems[i], ws[i], hash)
    requires forall i | 0 <= i < |node.elems| ::
               !LazyRefused(types, ChildOf(types, tid), node.elems[i], Part(node.kind, touch, i), hash, seeds)
    ensures !LazyRefused(types, tid, node, touch, hash, seeds)
  {
    hide Enc, ArrayOver, Refused, Refreshed, ElementsOver;
    ElementsAccepted(Refreshed(types, tid, node, touch).elems, ws, hash);
  }

  lemma LazyElementRefused(types: Types, tid: nat, node: Node, touch: Touch, i: nat, hash: Hash, seeds: nat -> u32)
    requires node.ArrayNode? && IsComplex(node.kind) && touch.Read? && i < |node.elems|
    requires LazyRefused(types, ChildOf(types, tid), node.elems[i], Part(node.kind, touch, i), hash, seeds)
    ensures LazyRefused(types, tid, node, touch, hash, seeds)
  {
    hide ElementsOver, Refused;
  }

  lemma LazyMapRefused(types: Types, tid: nat, node: Node, touch: Touch, plan: MapPlan, hash: Hash, seeds: nat -> u32)
    requires node.MapNode? && IsComplex(node.valueKind) && touch.Read?
    requires var r := Refreshed(types, tid, node, touch);
             r.MapNode? && Perfect(plan.index, hash, KeysOf(r.entries)) && PlanEncodes(r.entries, plan, hash)
                 && MapOver(plan)
    ensures LazyRefused(types, tid, node, touch, hash, seeds)
  {
    hide Perfect, PlanEncodes, MapOver, Refused, BuildFails, Refreshed;
    assert EntriesOver(Refreshed(types, tid, node, touch).entries, plan, hash);
  }

  lemma LazyMapAccepted(types: Types, tid: nat, node: Node, touch: Touch, plan: MapPlan, hash: Hash, seeds: nat -> u32)
    requires node.MapNode? && IsComplex(node.valueKind) && touch.Read? && !BuildFails(KeysOf(node.entries), hash, seeds)
    requires var r := Refreshed(types, tid, node, touch);
             r.MapNode? && Perfect(plan.index, hash, KeysOf(r.entries)) && PlanEncodes(r.entries, plan, hash)
                 && !MapOver(plan)
    requires forall i | 0 <= i < |node.entries| :: EntryKept(types, tid, node, touch, i, hash, seeds)
    ensures !LazyRefused(types, tid, node, touch, hash, seeds)
  {
    hide Perfect, PlanEncodes, MapOver, Refused, BuildFails, Refreshed, EntriesOver;
    EntriesAccepted(Refreshed(types, tid, node, touch), plan, hash);
    forall i | 0 <= i < |node.entries|
      ensures !Refused(node.entries[i].0, hash, seeds)
      ensures !LazyRefused(types, ChildOf(types, tid), node.entries[i].1, Part(node.valueKind, touch, i), hash, seeds)
    {
      assert EntryKept(types, tid, node, touch, i, hash, seeds);
    }
  }

  lemma LazyEmptyMapAccepted(types: Types, tid: nat, node: Node, touch: Touch, hash: Hash, seeds: nat -> u32)
    requires node.MapNode? && IsComplex(node.valueKind) && touch.Read? && node.entries == []
    requires var r := Refreshed(types, tid, node, touch); r.MapNode? && r.entries == []
    ensures !LazyRefused(types, tid, node, touch, hash, seeds)
  {
    hide Refused, Refreshed, EntriesOver;
    NoEntriesAccepted(Refreshed(types, tid, node, touch).entries, hash);
  }

  /** Neither the key nor the value of entry `i` is refused. */
  ghost predicate EntryKept(types: Types, tid: nat, node: Node, touch: Touch, i: nat, hash: Hash, seeds: nat -> u32)
    requires node.MapNode? && touch.Read? && i < |node.entries|
  {
    && !Refused(node.entries[i].0, hash, seeds)
    && !LazyRefused(types, ChildOf(types, tid), node.entries[i].1, Part(node.valueKind, touch, i), hash, seeds)
  }

  /** Whatever holds at every slot holds of every entry. */
  lemma EverySlot(types: Types, tid: nat, node: Node, touch: Touch, order: seq<nat>, index: seq<byte>, hash: Hash,
                  seeds: nat -> u32)
    requires node.MapNode? && touch.Read? && Ordered(index, hash, KeysOf(node.entries), order)
    requires forall s | 0 <= s < |order| ::
               order[s] < |node.entries| && EntryKept(types, tid, node, touch, order[s], hash, seeds)
    ensures forall i | 0 <= i < |node.entries| :: EntryKept(types, tid, node, touch, i, hash, seeds)
  {
    hide EntryKept, Numbered, Locate;
    forall i | 0 <= i < |node.entries| ensures EntryKept(types, tid, node, touch, i, hash, seeds) {
      assert i in order;
      var s :| 0 <= s < |order| && order[s] == i;
      assert EntryKept(types, tid, node, touch, order[s], hash, seeds);
    }
  }

  lemma LazyEntryRefused(types: Types, tid: nat, node: Node, touch: Touch, hash: Hash, seeds: nat -> u32)
    requires node.MapNode? && IsComplex(node.valueKind) && touch.Read?
    requires || BuildFails(KeysOf(node.entries), hash, seeds)
             || (exists i :: 0 <= i < |node.entries| && !EntryKept(types, tid, node, touch, i, hash, seeds))
    ensures LazyRefused(types, tid, node, touch, hash, seeds)
  {
    hide EntriesOver, Refused, BuildFails;
  }

  lemma LazyMessageRefused(types: Types, tid: nat, node: Node, touch: Touch, units: seq<Unit>, cs: seq<seq<u32>>,
        contents: seq<u32>, last: nat, hash: Hash, seeds: nat -> u32)
    requires node.MessageNode? && !NothingRead(PlansOf(types, tid), touch)
    requires var r := Refreshed(types, tid, node, touch);
             r.MessageNode? && FieldsOver(r.fields, units, cs, contents, last, hash)
    ensures LazyRefused(types, tid, node, touch, hash, seeds)
  {
    hide FieldsOver, Refused, Refreshed;
  }

  lemma LazyMessageAccepted(types: Types, tid: nat, node: Node, touch: Touch, units: seq<Unit>, cs: seq<seq<u32>>,
        before: seq<u32>, now: seq<u32>, hash: Hash, seeds: nat -> u32)
    requires node.MessageNode? && !NothingRead(PlansOf(types, tid), touch)
    requires var r := Refreshed(types, tid, node, touch);
             r.MessageNode? && FieldsDone(r.fields, 0, units, cs, before, now, hash) && !MessageOver(units)
    requires forall i | 0 <= i < |PlansOf(types, tid)| ::
               !PartRefused(types, PlansOf(types, tid)[i], node, touch.part(PlansOf(types, tid)[i].id), hash, seeds)
    ensures !LazyRefused(types, tid, node, touch, hash, seeds)
  {
    hide Refused, Refreshed, FieldsDone, MessageOver, FieldsOver;
    FieldsAccepted(Refreshed(types, tid, node, touch).fields, units, cs, before, now, hash);
    var plans := PlansOf(types, tid);
    assert forall i | 0 <= i < |plans| :: !PartRefused(types, plans[i], node, touch.part(plans[i].id), hash, seeds);
  }

  lemma LazyPartRefused(types: Types, tid: nat, node: Node, touch: Touch, i: nat, hash: Hash, seeds: nat -> u32)
    requires node.MessageNode? && !NothingRead(PlansOf(types, tid), touch) && i < |PlansOf(types, tid)|
    requires PartRefused(types, PlansOf(types, tid)[i], node, touch.part(PlansOf(types, tid)[i].id), hash, seeds)
    ensures LazyRefused(types, tid, node, touch, hash, seeds)
  {
    hide FieldsOver, Refused, Refreshed;
  }

  /** A copied, absent or default field is never refused. */
  lemma PartAccepted(types: Types, plan: FieldPlan, node: Node, touch: Touch, hash: Hash, seeds: nat -> u32)
    requires node.MessageNode?
    requires var k := FieldIndex(node.fields, plan.id, 0);
             k == |node.fields| || node.fields[k].1.NoneNode? || touch.Clean? || HasDefault(node.fields[k].1)
                 || node.fields[k].1.ScalarNode?
    ensures !PartRefused(types, plan, node, touch, hash, seeds)
  {
    hide Refused, Refreshed;
    var k := FieldIndex(node.fields, plan.id, 0);
    if k < |node.fields| && touch.Read? { DefaultAccepted(types, plan.child, node.fields[k].1, touch, hash, seeds); }
  }

  lemma DefaultAccepted(types: Types, tid: nat, node: Node, touch: Touch, hash: Hash, seeds: nat -> u32)
    requires touch.Read? && (node.NoneNode? || node.ScalarNode? || HasDefault(node))
    ensures !LazyRefused(types, tid, node, touch, hash, seeds)
  {
    hide EntriesOver, Refreshed;
    if node.ArrayNode? { RefreshedNothing(types, tid, node, touch); }
    if node.MapNode? {
      RefreshedNothing(types, tid, node, touch);
      NoEntriesAccepted([], hash);
    }
  }

  lemma RefreshedNothing(types: Types, tid: nat, node: Node, touch: Touch)
    requires (node.ArrayNode? && node.elems == []) || (node.MapNode? && node.entries == [])
    ensures Refreshed(types, tid, node, touch) == node
  {
  }

  // ---------------------------------------------------------------------
  // The serializer
  // ---------------------------------------------------------------------

  /** What serializing a partly read value achieves. */
  ghost predicate Renewed(types: Types, tid: nat, node: Node, touch: Touch, hash: Hash, unit: Unit, w: seq<u32>,
        before: seq<u32>, after: seq<u32>) {
    Enc(Refreshed(types, tid, node, touch), w, hash) && w != [] && Written(unit, w, before, after) && Small(unit)
  }

  /** The same for a field of a message. */
  ghost predicate FieldRenewed(types: Types, plan: FieldPlan, node: Node, touch: Touch, hash: Hash, unit: Unit,
        w: seq<u32>, before: seq<u32>, after: seq<u32>)
    requires node.MessageNode?
  {
    Enc(RefreshedField(types, plan, node, touch), w, hash) && Written(unit, w, before, after) && Folded(unit, w)
  }

  lemma CleanRenewed(types: Types, tid: nat, node: Node, touch: Touch, hash: Hash, unit: Unit, w: seq<u32>,
        before: seq<u32>, after: seq<u32>)
    requires Copied(types, tid, node, touch) || node.BytesNode?
          || node.BoolsNode? || node.ScalarsNode?
             || (node.ArrayNode? && !IsComplex(node.kind)) || (node.MapNode? && !IsComplex(node.valueKind))
    requires Enc(node, w, hash) && w != [] && Written(unit, w, before, after) && Small(unit)
    ensures Renewed(types, tid, node, touch, hash, unit, w, before, after)
  {
    hide Enc, Written;
  }

  lemma CopyAccepted(types: Types, tid: nat, node: Node, touch: Touch, hash: Hash, seeds: nat -> u32)
    requires Copied(types, tid, node, touch)
    ensures !LazyRefused(types, tid, node, touch, hash, seeds)
  {
  }

  class LazySource {
    const words: seq<u32>
    const types: Types
    const hash: Hash
    const seeds: nat -> u32

    constructor (words: seq<u32>, types: Types, hash: Hash, seeds: nat -> u32)
      ensures this.words == words && this.types == types && this.hash == hash && this.seeds == seeds
    {
      this.words := words;
      this.types := types;
      this.hash := hash;
      this.seeds := seeds;
    }

    /** Encodes a value that was read as a whole. */
    method Encode(tid: nat, node: Node, touch: Touch, buf: Buffer) returns (ok: bool, unit: Unit, ghost w: seq<u32>)
      requires buf.Valid() && Formed(node) && !node.NoneNode? && !node.ScalarNode? && touch.Read?
      requires node.BytesNode? || node.BoolsNode? || node.ScalarsNode? || (node.ArrayNode? && !IsComplex(node.kind))
            || (node.MapNode? && !IsComplex(node.valueKind))
      modifies buf, buf.data
      ensures buf.Valid() && (buf.data == old(buf.data) || fresh(buf.data))
      ensures ok ==> Renewed(types, tid, node, touch, hash, unit, w, old(buf.Contents()), buf.Contents())
      ensures ok <==> !LazyRefused(types, tid, node, touch, hash, seeds)
      ensures ok ==> (unit.Inline? <==> StaysInline(node))
    {
      hide Enc, Written, Renewed, Small, Refused, LazyRefused;
      ghost var before := buf.Contents();
      ok, unit, w := SerializeNode(node, buf, hash, seeds);
      if ok {
        ObjectSmall(node, unit);
        CleanRenewed(types, tid, node, touch, hash, unit, w, before, buf.Contents());
      }
      LeafRefused(types, tid, node, touch, hash, seeds);
    }

    /** Serialize of a value: copies it when nothing of it was read, otherwise serializes its parts. */
    method Serialize(kind: Kind, tid: nat, node: Node, touch: Touch, at: nat, buf: Buffer, ghost c: seq<u32>)
          returns (ok: bool, unit: Unit, ghost w: seq<u32>)
      requires buf.Valid() && Stored(words, types, hash, kind, tid, at, node, c)
      modifies buf, buf.data
      ensures buf.Valid() && (buf.data == old(buf.data) || fresh(buf.data))
      ensures ok ==> Renewed(types, tid, node, touch, hash, unit, w, old(buf.Contents()), buf.Contents())
      ensures ok <==> !LazyRefused(types, tid, node, touch, hash, seeds)
      ensures ok ==> (unit.Inline? <==> !Copied(types, tid, node, touch) && StaysInline(node))
      decreases node, 4
    {
      hide Renewed, Written, Enc, InAt, Typed, Formed, InOrder, LazyRefused;
      ghost var before := buf.Contents();
      StoredExtent(words, types, hash, kind, tid, at, node, c);
      if Copied(types, tid, node, touch) {
        CopyAccepted(types, tid, node, touch, hash, seeds);
        unit := CopyExtent(words, types, kind, tid, at, buf, false, hash, node, c);
        CleanRenewed(types, tid, node, touch, hash, unit, c, before, buf.Contents());
        return true, unit, c;
      }
      StoredKind(words, types, hash, kind, tid, at, node, c);
      match node
      case ArrayNode(item, _) =>
        if IsComplex(item) { ok, unit, w := SerializeElements(tid, node, touch, at, buf, c); }
        else { ok, unit, w := Encode(tid, node, touch, buf); }
      case MapNode(_, value, _) =>
        if IsComplex(value) { ok, unit, w := SerializeEntries(tid, node, touch, at, buf, c); }
        else { ok, unit, w := Encode(tid, node, touch, buf); }
      case MessageNode(_, _) =>
        ok, unit, w := SerializeFields(tid, node, touch, at, buf, c);
      case BytesNode(_, _) => ok, unit, w := Encode(tid, node, touch, buf);
      case BoolsNode(_) => ok, unit, w := Encode(tid, node, touch, buf);
      case ScalarsNode(_, _) => ok, unit, w := Encode(tid, node, touch, buf);
    }

    /** ArrayEX::Serialize. */
    method SerializeElements(tid: nat, node: Node, touch: Touch, at: nat, buf: Buffer, ghost c: seq<u32>)
          returns (ok: bool, unit: Unit, ghost w: seq<u32>)
      requires buf.Valid() && node.ArrayNode? && IsComplex(node.kind) && touch.Read? && Stored(words, types, hash,
            KArray, tid, at, node, c)
      modifies buf, buf.data
      ensures buf.Valid() && (buf.data == old(buf.data) || fresh(buf.data))
      ensures ok ==> Renewed(types, tid, node, touch, hash, unit, w, old(buf.Contents()), buf.Contents())
      ensures ok <==> !LazyRefused(types, tid, node, touch, hash, seeds)
      ensures ok ==> (unit.Inline? <==> StaysInline(node))
      decreases node, 3
    {
      hide Renewed, Written, Small, Enc, Stored, ElementsDone, Refreshed, ArrayWords, Tiled, SegSum, FitsBest,
          CellTotal,
            BestWidth, SizesOf, Denotes, Prod, GetObject, KindUnit, LazyRefused, ElementsOver, ArrayOver, Part,
                ArrayReady;
      unit, w := Absent, [];
      ghost var before := buf.Contents();
      var last := buf.Size();
      ghost var fresh' := Refreshed(types, tid, node, touch);
      RefreshedArray(types, tid, node, touch);
      var units: seq<Unit>;
      ghost var ws: seq<seq<u32>>;
      ok, units, ws := SerializeItems(tid, node, touch, at, buf, c);
      if !ok {
        ghost var i :| 0 <= i < |node.elems|
                  && LazyRefused(types, ChildOf(types, tid), node.elems[i], Part(node.kind, touch, i), hash, seeds);
        LazyElementRefused(types, tid, node, touch, i, hash, seeds);
        return;
      }
      ElementsReady(fresh', node.kind, units, ws, before, buf.Contents(), hash);
      ok, unit := FinishArray(units, buf, last, ws, before);
      w := ArrayWords(ws);
      if ok {
        RenewedIs(types, tid, node, touch, hash, unit, w, before, buf.Contents());
        LazyArrayAccepted(types, tid, node, touch, ws, hash, seeds);
      } else {
        LazyArrayRefused(types, tid, node, touch, ws, hash, seeds);
      }
    }

    /** The loop of ArrayEX::Serialize, from the last element to the first. */
    method SerializeItems(tid: nat, node: Node, touch: Touch, at: nat, buf: Buffer, ghost c: seq<u32>)
          returns (ok: bool, units: seq<Unit>, ghost ws: seq<seq<u32>>)
      requires buf.Valid() && node.ArrayNode? && IsComplex(node.kind) && touch.Read?
      requires Stored(words, types, hash, KArray, tid, at, node, c)
      modifies buf, buf.data
      ensures buf.Valid() && (buf.data == old(buf.data) || fresh(buf.data))
      ensures ok ==> Refreshed(types, tid, node, touch).ArrayNode?
                     && ElementsDone(node.kind, Refreshed(types, tid, node, touch).elems, 0, units, ws,
                                     old(buf.Contents()), buf.Contents(), hash)
      ensures ok <==> forall i | 0 <= i < |node.elems| ::
                !LazyRefused(types, ChildOf(types, tid), node.elems[i], Part(node.kind, touch, i), hash, seeds)
      decreases node, 2
    {
      hide Renewed, Written, Enc, Stored, ElementsDone, Refreshed, Prod, GetObject, KindUnit, LazyRefused, Part;
      ghost var before := buf.Contents();
      RefreshedArray(types, tid, node, touch);
      ghost var elems := Refreshed(types, tid, node, touch).elems;
      units, ws := [], [];
      ElementsStart(node.kind, elems, before, hash);
      var i := |node.elems|;
      while i > 0
        invariant 0 <= i <= |node.elems| && buf.Valid() && (buf.data == old(buf.data) || fresh(buf.data))
        invariant ElementsDone(node.kind, elems, i, units, ws, before, buf.Contents(), hash)
        invariant forall k | i <= k < |node.elems| ::
                    !LazyRefused(types, ChildOf(types, tid), node.elems[k], Part(node.kind, touch, k), hash, seeds)
      {
        i := i - 1;
        ghost var now := buf.Contents();
        ghost var p, d := ElementStoredAt(words, types, hash, tid, at, node, c, i);
        var place := GetObject(words, at + 1 + Prod(words[at] % 4, i)).value;
        var u: Unit;
        ghost var x: seq<u32>;
        ok, u, x := Serialize(node.kind, ChildOf(types, tid), node.elems[i], Part(node.kind, touch, i), place, buf, d);
        if !ok { return; }
        RenewedElement(types, tid, node, touch, hash, u, x, now, buf.Contents(), i);
        ElementsStep(node.kind, elems, i, units, ws, before, now, hash, u, x, buf.Contents());
        units, ws := [u] + units, [x] + ws;
      }
      ok := true;
    }

    /** MapEX::Serialize: a new index over the same keys, then the entries by slot. */
    method SerializeEntries(tid: nat, node: Node, touch: Touch, at: nat, buf: Buffer, ghost c: seq<u32>)
          returns (ok: bool, unit: Unit, ghost w: seq<u32>)
      requires buf.Valid() && node.MapNode? && IsComplex(node.valueKind) && touch.Read? && Stored(words, types, hash,
            KMap, tid, at, node, c)
      modifies buf, buf.data
      ensures buf.Valid() && (buf.data == old(buf.data) || fresh(buf.data))
      ensures ok ==> Renewed(types, tid, node, touch, hash, unit, w, old(buf.Contents()), buf.Contents())
      ensures ok <==> !LazyRefused(types, tid, node, touch, hash, seeds)
      ensures ok ==> (unit.Inline? <==> StaysInline(node))
      decreases node, 3
    {
      hide Renewed, Written, Small, Enc, Stored, EntriesDone, Refreshed, MapWords, Tiled, SegSum, FitsBest, Denotes,
            Interleave, KindUnit, Perfect, Ordered, Numbered, HasTwins, SomeSeed, LazyRefused, Refused, MapOver,
                EntriesOver, EntryKept, PlanEncodes, MapReady;
      unit, w := Absent, [];
      ghost var before := buf.Contents();
      ghost var fresh' := Refreshed(types, tid, node, touch);
      RefreshedMap(types, tid, node, touch);
      if node.entries == [] {
        EmptyMapEncoded(fresh', hash);
        WrittenObject(Inline(EmptyMap), EmptyMap, before, before);
        RenewedIs(types, tid, node, touch, hash, Inline(EmptyMap), EmptyMap, before, before);
        LazyEmptyMapAccepted(types, tid, node, touch, hash, seeds);
        return true, Inline(EmptyMap), EmptyMap;
      }
      var keys := KeysOf(node.entries);
      var index := Build(keys, hash, seeds, true);
      if index.None? {
        LazyEntryRefused(types, tid, node, touch, hash, seeds);
        return false, unit, [];
      }
      PerfectNumbers(index.value, hash, keys);
      var order: seq<nat>;
      ok, order := SlotOrder(index.value, hash, keys);
      OrderBounds(index.value, hash, keys, order);
      var last := buf.Size();
      var pairs: seq<(Unit, Unit)>;
      ghost var ks: seq<seq<u32>>, vs: seq<seq<u32>>;
      ok, pairs, ks, vs := SerializePairs(tid, node, touch, at, order, buf, c);
      if !ok {
        LazyEntryRefused(types, tid, node, touch, hash, seeds);
        return;
      }
      EntriesReady(fresh', MapPlan(index.value, order, ks, vs), pairs, before, buf.Contents(), hash);
      ok, unit := FinishMap(index.value, pairs, buf, last, ks, vs, before);
      w := MapWords(index.value, ks, vs);
      if ok {
        RenewedIs(types, tid, node, touch, hash, unit, w, before, buf.Contents());
        EverySlot(types, tid, node, touch, order, index.value, hash, seeds);
        LazyMapAccepted(types, tid, node, touch, MapPlan(index.value, order, ks, vs), hash, seeds);
      } else {
        LazyMapRefused(types, tid, node, touch, MapPlan(index.value, order, ks, vs), hash, seeds);
      }
    }

    /** The loop of MapEX::Serialize, from the last slot to the first, value before key. */
    method SerializePairs(tid: nat, node: Node, touch: Touch, at: nat, order: seq<nat>, buf: Buffer, ghost c: seq<u32>)
      returns (ok: bool, pairs: seq<(Unit, Unit)>, ghost ks: seq<seq<u32>>, ghost vs: seq<seq<u32>>)
      requires buf.Valid() && node.MapNode? && IsComplex(node.valueKind) && touch.Read? && Stored(words, types, hash,
            KMap, tid, at, node, c)
      requires forall s | 0 <= s < |order| :: order[s] < |node.entries|
      modifies buf, buf.data
      ensures buf.Valid() && (buf.data == old(buf.data) || fresh(buf.data))
      ensures ok ==> Refreshed(types, tid, node, touch).MapNode?
                     && EntriesDone(Refreshed(types, tid, node, touch), order, 0, pairs, ks, vs, old(buf.Contents()),
                                    buf.Contents(), hash)
      ensures !ok ==> exists i :: 0 <= i < |node.entries| && !EntryKept(types, tid, node, touch, i, hash, seeds)
      ensures ok ==> forall s | 0 <= s < |order| :: EntryKept(types, tid, node, touch, order[s], hash, seeds)
      decreases node, 2
    {
      hide Refused, LazyRefused, Renewed, Written, Small, Enc, Stored, EntriesDone, Refreshed, KindUnit, ValueCell,
            GetObject, IndexBytes, Formed;
      ghost var before := buf.Contents();
      ghost var fresh' := Refreshed(types, tid, node, touch);
      RefreshedMap(types, tid, node, touch);
      pairs, ks, vs := [], [], [];
      EntriesStart(fresh', order, before, hash);
      var s := |order|;
      while s > 0
        invariant 0 <= s <= |order| && buf.Valid() && (buf.data == old(buf.data) || fresh(buf.data))
        invariant EntriesDone(fresh', order, s, pairs, ks, vs, before, buf.Contents(), hash)
        invariant forall k | s <= k < |order| :: EntryKept(types, tid, node, touch, order[k], hash, seeds)
      {
        s := s - 1;
        ghost var now := buf.Contents();
        var i := order[s];
        ghost var p, d := EntryStoredAt(words, types, hash, tid, at, node, c, i);
        var place := GetObject(words, ValueCell(words, at, hash, KeyBytes(node.entries[i].0))).value;
        var key: Unit, value: Unit;
        ghost var kw: seq<u32>, vw: seq<u32>;
        var entry := node.entries[i];
        ok, value, vw := Serialize(node.valueKind, ChildOf(types, tid), entry.1, Part(node.valueKind, touch, i), place,
                                   buf, d);
        assert !ok ==> !EntryKept(types, tid, node, touch, i, hash, seeds);
        if !ok { return; }
        ghost var middle := buf.Contents();
        KeyFormed(words, types, hash, tid, at, node, c, i);
        ok, key, kw := SerializeNode(entry.0, buf, hash, seeds);
        assert ok <==> EntryKept(types, tid, node, touch, i, hash, seeds);
        if !ok { return; }
        RenewedEntry(types, tid, node, touch, hash, value, vw, now, middle, i);
        EntriesStep(fresh', order, s, pairs, ks, vs, before, now, hash, value, vw, middle, key, kw, buf.Contents());
        pairs, ks, vs := [(key, value)] + pairs, [kw] + ks, [vw] + vs;
      }
      ok := true;
    }

    /** SerializeField: unread fields are copied, read ones dropped if they hold their default and encoded otherwise. */
    method SerializeField(plan: FieldPlan, ghost tid: nat, ghost i: nat, node: Node, touch: Touch, at: nat,
                          buf: Buffer, ghost c: seq<u32>)
      returns (ok: bool, unit: Unit, ghost w: seq<u32>)
      requires buf.Valid() && node.MessageNode? && Stored(words, types, hash, KMessage, tid, at, node, c)
      requires i < |PlansOf(types, tid)| && PlansOf(types, tid)[i] == plan
      modifies buf, buf.data
      ensures buf.Valid() && (buf.data == old(buf.data) || fresh(buf.data))
      ensures ok ==> FieldRenewed(types, plan, node, touch, hash, unit, w, old(buf.Contents()), buf.Contents())
      ensures ok <==> !PartRefused(types, plan, node, touch, hash, seeds)
      decreases node, 1
    {
      hide FieldRenewed, Stored, Written, Folded, RefreshedField, FieldSource, HeaderInside, PartRefused;
      ghost var before := buf.Contents();
      ghost var d := FieldStoredAt(words, types, hash, tid, at, node, c, plan, i);
      var k := FieldIndex(node.fields, plan.id, 0);
      if k == |node.fields| || node.fields[k].1.NoneNode? {
        AbsentRenewed(types, plan, node, touch, hash, before);
        PartAccepted(types, plan, node, touch, hash, seeds);
        return true, Absent, [];
      }
      if touch.Clean? {
        unit, w := CopyField(plan, node, touch, at, k, buf, d);
        PartAccepted(types, plan, node, touch, hash, seeds);
        ok := true;
      } else {
        ok, unit, w := EncodeField(plan, node, touch, at, k, buf, d);
      }
    }

    /** A present field that was not read. */
    method CopyField(plan: FieldPlan, ghost node: Node, ghost touch: Touch, at: nat, ghost k: nat, buf: Buffer,
          ghost d: seq<u32>) returns (unit: Unit, ghost w: seq<u32>)
      requires buf.Valid() && node.MessageNode? && touch.Clean? && HeaderInside(words, at) && FieldSource(words, types,
            hash, at, node, plan, d)
      requires k == FieldIndex(node.fields, plan.id, 0) < |node.fields| && !node.fields[k].1.NoneNode?
      modifies buf, buf.data
      ensures buf.Valid() && (buf.data == old(buf.data) || fresh(buf.data))
      ensures FieldRenewed(types, plan, node, touch, hash, unit, w, old(buf.Contents()), buf.Contents())
    {
      hide FieldRenewed, Stored, Written, Folded, RefreshedField, Enc, GetField, GetObject, InAt, Formed;
      ghost var before := buf.Contents();
      ghost var child := node.fields[k].1;
      var cell := GetField(words, at, plan.id).value;
      SourceKind(child, plan.kind);
      w := d;
      if IsScalar(plan.kind) {
        CellSlice(words, cell.0, d);
        unit := Copy(words[cell.0..cell.0 + cell.1], buf, true);
      } else {
        var place := GetObject(words, cell.0).value;
        unit := CopyExtent(words, types, plan.kind, plan.child, place, buf, true, hash, child, d);
        if plan.kind.KMessage? && unit.Size() == 1 {
          UnitSize(unit, w, before, buf.Contents());
          unit := DropSingle(unit, buf, w, before);
          CopiedRenewed(types, plan, node, k, touch, hash, d);
          DroppedRenewed(types, plan, node, touch, hash, before);
          return unit, [];
        }
        UnitSize(unit, w, before, buf.Contents());
      }
      CopiedRenewed(types, plan, node, k, touch, hash, d);
      KeptRenewed(types, plan, node, touch, hash, unit, w, before, buf.Contents());
    }

    /** A present field that was read. */
    method EncodeField(plan: FieldPlan, node: Node, touch: Touch, at: nat, k: nat, buf: Buffer,
          ghost d: seq<u32>) returns (ok: bool, unit: Unit, ghost w: seq<u32>)
      requires buf.Valid() && node.MessageNode? && touch.Read? && HeaderInside(words, at) && FieldSource(words, types,
            hash, at, node, plan, d)
      requires k == FieldIndex(node.fields, plan.id, 0) < |node.fields| && !node.fields[k].1.NoneNode?
      modifies buf, buf.data
      ensures buf.Valid() && (buf.data == old(buf.data) || fresh(buf.data))
      ensures ok ==> FieldRenewed(types, plan, node, touch, hash, unit, w, old(buf.Contents()), buf.Contents())
      ensures ok <==> !PartRefused(types, plan, node, touch, hash, seeds)
      decreases node, 0
    {
      hide FieldRenewed, Stored, Written, Folded, RefreshedField, Enc, GetField, GetObject, InAt, Formed, Renewed,
            IsZero, Refreshed, LazyRefused;
      ghost var before := buf.Contents();
      var child := node.fields[k].1;
      SourceKind(child, plan.kind);
      if HasDefault(child) {
        DefaultDropped(types, plan, node, k, touch);
        DroppedRenewed(types, plan, node, touch, hash, before);
        PartAccepted(types, plan, node, touch, hash, seeds);
        return true, Absent, [];
      }
      if child.ScalarNode? {
        w := ScalarWords(child.kind, child.words);
        unit := Inline(ScalarWords(child.kind, child.words));
        ScalarKept(types, plan, node, k, touch, hash, before);
        PartAccepted(types, plan, node, touch, hash, seeds);
        return true, unit, w;
      }
      var place := GetObject(words, GetField(words, at, plan.id).value.0).value;
      ok, unit, w := Serialize(plan.kind, plan.child, child, touch, place, buf, d);
      if !ok { return; }
      RenewedChild(words, types, plan, place, child, touch, hash, d, unit, w, before, buf.Contents());
      UnitSize(unit, w, before, buf.Contents());
      ReadRenewed(types, plan, node, k, touch, hash, w);
      if plan.kind.KMessage? && unit.Size() == 1 {
        unit := DropSingle(unit, buf, w, before);
        DroppedRenewed(types, plan, node, touch, hash, before);
        return true, unit, [];
      }
      unit := FoldField(buf, unit, w, before);
      FoldedBy(unit, w);
      KeptRenewed(types, plan, node, touch, hash, unit, w, before, buf.Contents());
    }

    /** The generated Serialize of a message: its fields from the last to the first. */
    method SerializeFields(tid: nat, node: Node, touch: Touch, at: nat, buf: Buffer, ghost c: seq<u32>)
          returns (ok: bool, unit: Unit, ghost w: seq<u32>)
      requires buf.Valid() && node.MessageNode? && !NothingRead(PlansOf(types, tid), touch)
      requires Stored(words, types, hash,
            KMessage, tid, at, node, c)
      modifies buf, buf.data
      ensures buf.Valid() && (buf.data == old(buf.data) || fresh(buf.data))
      ensures ok ==> Renewed(types, tid, node, touch, hash, unit, w, old(buf.Contents()), buf.Contents())
      ensures ok <==> !LazyRefused(types, tid, node, touch, hash, seeds)
      ensures ok ==> unit.Segment?
      decreases node, 3
    {
      hide Renewed, Written, Small, Enc, FieldsDone, DistinctIds, Refreshed, LazyRefused, PartRefused, FieldsOver,
          Refused,
            MessageOver;
      unit, w := Absent, [];
      ghost var before := buf.Contents();
      ghost var fresh' := Refreshed(types, tid, node, touch);
      MessageIds(words, types, hash, tid, at, node, touch, c);
      var last := buf.Size();
      var units: seq<Unit>;
      ghost var cs: seq<seq<u32>>;
      ok, units, cs := SerializeParts(tid, node, touch, at, buf, c);
      if !ok {
        ghost var i :| 0 <= i < |PlansOf(types, tid)| && PartRefused(types, PlansOf(types, tid)[i], node,
              touch.part(PlansOf(types, tid)[i].id), hash, seeds);
        LazyPartRefused(types, tid, node, touch, i, hash, seeds);
        return;
      }
      ghost var now := buf.Contents();
      SomePlan(types, tid, touch);
      ok, unit, w := FinishMessage(fresh', units, cs, before, hash, buf, last);
      if !ok {
        MessageRefused(fresh', units, cs, before, now, hash, seeds);
        LazyMessageRefused(types, tid, node, touch, units, cs, now, last, hash, seeds);
        return;
      }
      LazyMessageAccepted(types, tid, node, touch, units, cs, before, now, hash, seeds);
      RenewedIs(types, tid, node, touch, hash, unit, w, before, buf.Contents());
    }

    method SerializeParts(tid: nat, node: Node, touch: Touch, at: nat, buf: Buffer, ghost c: seq<u32>)
      returns (ok: bool, units: seq<Unit>, ghost cs: seq<seq<u32>>)
      requires buf.Valid() && node.MessageNode? && !NothingRead(PlansOf(types, tid), touch)
      requires Stored(words, types, hash,
            KMessage, tid, at, node, c)
      modifies buf, buf.data
      ensures buf.Valid() && (buf.data == old(buf.data) || fresh(buf.data))
      ensures ok ==> Refreshed(types, tid, node, touch).MessageNode?
                     && FieldsDone(Refreshed(types, tid, node, touch).fields, 0, units, cs, old(buf.Contents()),
                                   buf.Contents(), hash)
                     && |units| == SlotCount(PlansOf(types, tid))
      ensures ok <==> forall i | 0 <= i < |PlansOf(types, tid)| ::
                !PartRefused(types, PlansOf(types, tid)[i], node, touch.part(PlansOf(types, tid)[i].id), hash, seeds)
      decreases node, 2
    {
      hide LazyRefused, PartRefused, Renewed, FieldRenewed, Written, Folded, Enc, FieldsDone, DistinctIds, Refreshed,
            RefreshedField, Stored;
      ghost var before := buf.Contents();
      var plans := PlansOf(types, tid);
      MessageIds(words, types, hash, tid, at, node, touch, c);
      ghost var fields := Refreshed(types, tid, node, touch).fields;
      units, cs := Absents(SlotCount(plans)), [];
      ArenaWriter.FieldsStart(fields, SlotCount(plans), before, hash);
      var i := |plans|;
      while i > 0
        invariant 0 <= i <= |plans| && buf.Valid() && (buf.data == old(buf.data) || fresh(buf.data))
        invariant |units| == SlotCount(plans) && FieldsDone(fields, i, units, cs, before, buf.Contents(), hash)
        invariant forall k | i <= k < |plans| ::
                    !PartRefused(types, plans[k], node, touch.part(plans[k].id), hash, seeds)
      {
        i := i - 1;
        ghost var now := buf.Contents();
        var u: Unit;
        ghost var x: seq<u32>;
        ok, u, x := SerializeField(plans[i], tid, i, node, touch.part(plans[i].id), at, buf, c);
        if !ok { return; }
        RenewedPart(types, tid, node, touch, hash, u, x, now, buf.Contents(), i);
        FieldsStep(fields, i, units, cs, before, now, hash, u, x, buf.Contents());
        units, cs := units[plans[i].id := u], [x] + cs;
      }
      ok := true;
    }
  }

  /** A read field that is dropped without being serialized. */
  predicate HasDefault(node: Node) {
    match node
    case ScalarNode(kind, words) => IsZero(kind, words)
    case BytesNode(_, bytes) => bytes == []
    case BoolsNode(flags) => flags == []
    case ScalarsNode(_, items) => items == []
    case ArrayNode(_, elems) => elems == []
    case MapNode(_, _, entries) => entries == []
    case _ => false
  }

  /** `unit.seg.len = 0; buf.Shrink(1)`, or `unit.len = 0`. */
  method DropSingle(unit: Unit, buf: Buffer, ghost w: seq<u32>, ghost before: seq<u32>) returns (unit': Unit)
    requires buf.Valid() && |w| == 1 && Written(unit, w, before, buf.Contents())
    modifies buf`off
    ensures buf.Valid() && unit' == Absent && buf.Contents() == before
  {
    unit' := Absent;
    if unit.Segment? {
      ghost var now := buf.Contents();
      assert now[1..] == before;
      buf.Shrink(1);
    }
  }

  lemma UnitSize(unit: Unit, w: seq<u32>, before: seq<u32>, after: seq<u32>)
    requires Written(unit, w, before, after) && w != []
    ensures unit.Size() == |w|
  {
  }

  lemma FoldedBy(unit: Unit, w: seq<u32>)
    requires w != [] ==> (unit.Inline? <==> |w| <= 3)
    ensures Folded(unit, w)
  {
  }

  lemma SourceKind(child: Node, kind: Kind)
    requires Formed(child) && NodeKind(child) == Some(kind)
    ensures IsScalar(kind) <==> child.ScalarNode?
    ensures kind.KMessage? <==> child.MessageNode?
  {
  }

  lemma CellSlice(words: seq<u32>, at: nat, d: seq<u32>)
    requires InAt(words, at, d)
    ensures at + |d| <= |words| && words[at..at + |d|] == d
  {
  }

  lemma AbsentRenewed(types: Types, plan: FieldPlan, node: Node, touch: Touch, hash: Hash, before: seq<u32>)
    requires node.MessageNode?
    requires var k := FieldIndex(node.fields, plan.id, 0); k == |node.fields| || node.fields[k].1.NoneNode?
    ensures FieldRenewed(types, plan, node, touch, hash, Absent, [], before, before)
  {
  }

  lemma DroppedRenewed(types: Types, plan: FieldPlan, node: Node, touch: Touch, hash: Hash, before: seq<u32>)
    requires node.MessageNode? && RefreshedField(types, plan, node, touch) == NoneNode
    ensures FieldRenewed(types, plan, node, touch, hash, Absent, [], before, before)
  {
    hide RefreshedField;
  }

  lemma KeptRenewed(types: Types, plan: FieldPlan, node: Node, touch: Touch, hash: Hash, unit: Unit, w: seq<u32>,
        before: seq<u32>, after: seq<u32>)
    requires node.MessageNode? && Enc(RefreshedField(types, plan, node, touch), w, hash) && Written(unit, w, before,
          after) && Folded(unit, w)
    ensures FieldRenewed(types, plan, node, touch, hash, unit, w, before, after)
  {
  }

  /** An unread field is the same, unless it is a message without fields. */
  lemma CopiedRenewed(types: Types, plan: FieldPlan, node: Node, k: nat, touch: Touch, hash: Hash, d: seq<u32>)
    requires node.MessageNode? && touch.Clean? && k == FieldIndex(node.fields, plan.id, 0) < |node.fields|
    requires Enc(node.fields[k].1, d, hash) && Formed(node.fields[k].1) && NodeKind(node.fields[k].1) == Some(plan.kind)
    ensures if plan.kind.KMessage? && |d| == 1 then RefreshedField(types, plan, node, touch) == NoneNode
            else Enc(RefreshedField(types, plan, node, touch), d, hash)
  {
    hide Enc, AllNone, Formed;
    var child := node.fields[k].1;
    SourceKind(child, plan.kind);
    if child.MessageNode? { OneWordMessage(child, d, hash); }
  }

  lemma DefaultDropped(types: Types, plan: FieldPlan, node: Node, k: nat, touch: Touch)
    requires node.MessageNode? && touch.Read? && k == FieldIndex(node.fields, plan.id, 0) < |node.fields|
    requires HasDefault(node.fields[k].1)
    ensures RefreshedField(types, plan, node, touch) == NoneNode
  {
    hide IsZero;
  }

  lemma ScalarKept(types: Types, plan: FieldPlan, node: Node, k: nat, touch: Touch, hash: Hash, before: seq<u32>)
    requires node.MessageNode? && touch.Read? && k == FieldIndex(node.fields, plan.id, 0) < |node.fields|
    requires node.fields[k].1.ScalarNode? && Formed(node.fields[k].1) && !HasDefault(node.fields[k].1)
    ensures var child := node.fields[k].1;
            var w := ScalarWords(child.kind, child.words);
            FieldRenewed(types, plan, node, touch, hash, Inline(w), w, before, before)
  {
    hide IsZero;
  }

  /** A read field that is serialized is its refreshed tree, unless that is a message without fields. */
  lemma ReadRenewed(types: Types, plan: FieldPlan, node: Node, k: nat, touch: Touch, hash: Hash, w: seq<u32>)
    requires node.MessageNode? && touch.Read? && k == FieldIndex(node.fields, plan.id, 0) < |node.fields|
    requires !HasDefault(node.fields[k].1) && !node.fields[k].1.NoneNode? && !node.fields[k].1.ScalarNode?
          && NodeKind(node.fields[k].1) == Some(plan.kind)
    requires var r := Refreshed(types, plan.child, node.fields[k].1, touch);
             Enc(r, w, hash) && Formed(r) && NodeKind(r) == Some(plan.kind) && Formed(node.fields[k].1)
    ensures if plan.kind.KMessage? && |w| == 1 then RefreshedField(types, plan, node, touch) == NoneNode
            else Enc(RefreshedField(types, plan, node, touch), w, hash)
  {
    hide Enc, AllNone, Formed, Refreshed;
    var child := node.fields[k].1;
    var r := Refreshed(types, plan.child, child, touch);
    SourceKind(child, plan.kind);
    SourceKind(r, plan.kind);
    if r.MessageNode? { OneWordMessage(r, w, hash); } else { LeafRefreshed(types, plan.child, child, touch); }
  }

  lemma LeafRefreshed(types: Types, tid: nat, node: Node, touch: Touch)
    requires node.BytesNode? || node.BoolsNode? || node.ScalarsNode? || node.ArrayNode? || node.MapNode?
    ensures node.BytesNode? || node.BoolsNode? || node.ScalarsNode? ==> Refreshed(types, tid, node, touch) == node
  {
  }

  lemma RenewedChild(words: seq<u32>, types: Types, plan: FieldPlan, at: nat, child: Node, touch: Touch, hash: Hash,
        d: seq<u32>, unit: Unit, w: seq<u32>, before: seq<u32>, after: seq<u32>)
    requires Stored(words, types, hash, plan.kind, plan.child, at, child, d) && Renewed(types, plan.child, child, touch,
          hash, unit, w, before, after)
    ensures var r := Refreshed(types, plan.child, child, touch);
            Enc(r, w, hash) && Formed(r) && NodeKind(r) == NodeKind(child) && w != [] && Written(unit, w, before, after)
  {
    hide Enc, Refreshed, InAt, Formed, Typed, InOrder, Written;
    RefreshedFormed(types, plan.kind, plan.child, child, touch);
  }

  lemma SomePlan(types: Types, tid: nat, touch: Touch)
    requires !NothingRead(PlansOf(types, tid), touch)
    ensures touch.Read? && SlotCount(PlansOf(types, tid)) > 0
  {
  }

  lemma OrderBounds(data: seq<byte>, hash: Hash, keys: seq<Option<Key>>, order: seq<nat>)
    requires Ordered(data, hash, keys, order)
    ensures |order| == |keys| && forall s | 0 <= s < |order| :: order[s] < |keys|
  {
  }

  lemma RefreshedMap(types: Types, tid: nat, node: Node, touch: Touch)
    requires node.MapNode? && IsComplex(node.valueKind) && touch.Read?
    ensures var r := Refreshed(types, tid, node, touch);
            && r.MapNode? && r.keyKind == node.keyKind && r.valueKind == node.valueKind && |r.entries| == |node.entries|
            && (forall i | 0 <= i < |r.entries| :: r.entries[i].0 == node.entries[i].0)
            && KeysOf(r.entries) == KeysOf(node.entries) && (node.entries == [] ==> r.entries == [])
  {
  }

  lemma KeyFormed(words: seq<u32>, types: Types, hash: Hash, tid: nat, at: nat, node: Node, c: seq<u32>, i: nat)
    requires Stored(words, types, hash, KMap, tid, at, node, c) && node.MapNode? && i < |node.entries|
    ensures Formed(node.entries[i].0) && NodeKind(node.entries[i].0) == Some(node.keyKind)
  {
    hide Enc, InAt, InOrder;
    assert Typed(types, node.keyKind, tid, node.entries[i].0);
  }

  lemma RenewedEntry(types: Types, tid: nat, node: Node, touch: Touch, hash: Hash, unit: Unit, w: seq<u32>,
        before: seq<u32>, after: seq<u32>, i: nat)
    requires node.MapNode? && IsComplex(node.valueKind) && touch.Read? && i < |node.entries|
    requires Renewed(types, ChildOf(types, tid), node.entries[i].1, Part(node.valueKind, touch, i), hash, unit, w,
                     before, after)
    ensures var r := Refreshed(types, tid, node, touch);
            && r.MapNode? && |r.entries| == |node.entries| && Enc(r.entries[i].1, w, hash)
            && w != [] && Written(unit, w, before, after) && KindUnit(node.valueKind, unit)
  {
    hide Enc, Written;
  }

  /** The fields of a refreshed message have the ids of its type, in order. */
  lemma MessageIds(words: seq<u32>, types: Types, hash: Hash, tid: nat, at: nat, node: Node, touch: Touch, c: seq<u32>)
    requires node.MessageNode? && !NothingRead(PlansOf(types, tid), touch)
    requires Stored(words, types, hash, KMessage, tid, at, node, c)
    ensures var r, plans := Refreshed(types, tid, node, touch), PlansOf(types, tid);
            && r.MessageNode? && |r.fields| == |plans| && DistinctIds(r.fields)
            && forall i | 0 <= i < |plans| :: r.fields[i].0 == plans[i].id < SlotCount(plans)
  {
    hide RefreshedField, Enc, InAt, Typed, Formed;
    var plans := PlansOf(types, tid);
    forall i | 0 <= i < |plans| ensures plans[i].id < SlotCount(plans) {
      assert i == |plans| - 1 || plans[i].id < plans[|plans| - 1].id;
    }
  }

  lemma RenewedPart(types: Types, tid: nat, node: Node, touch: Touch, hash: Hash, unit: Unit, w: seq<u32>,
        before: seq<u32>, after: seq<u32>, i: nat)
    requires node.MessageNode? && !NothingRead(PlansOf(types, tid), touch) && i < |PlansOf(types, tid)|
    requires FieldRenewed(types, PlansOf(types, tid)[i], node, touch.part(PlansOf(types, tid)[i].id), hash, unit, w,
                          before, after)
    ensures var r := Refreshed(types, tid, node, touch);
            && r.MessageNode? && |r.fields| == |PlansOf(types, tid)| && Enc(r.fields[i].1, w, hash)
            && Written(unit, w, before, after) && (w != [] ==> (unit.Inline? <==> |w| <= 3))
  {
    hide Enc, Written, RefreshedField;
  }

  lemma ObjectSmall(node: Node, unit: Unit)
    requires Formed(node) && !node.NoneNode? && !node.ScalarNode? && KindUnit(NodeKind(node).value, unit)
    ensures Small(unit)
  {
  }

  lemma StoredKind(words: seq<u32>, types: Types, hash: Hash, kind: Kind, tid: nat, at: nat, node: Node, c: seq<u32>)
    requires Stored(words, types, hash, kind, tid, at, node, c)
    ensures NodeKind(node) == Some(kind) && Formed(node)
  {
    hide Enc, InAt, InOrder;
  }

  lemma RefreshedArray(types: Types, tid: nat, node: Node, touch: Touch)
    requires node.ArrayNode? && IsComplex(node.kind) && touch.Read?
    ensures var r := Refreshed(types, tid, node, touch);
            r.ArrayNode? && r.kind == node.kind && |r.elems| == |node.elems|
  {
  }

  lemma RenewedElement(types: Types, tid: nat, node: Node, touch: Touch, hash: Hash, unit: Unit, w: seq<u32>,
        before: seq<u32>, after: seq<u32>, i: nat)
    requires node.ArrayNode? && IsComplex(node.kind) && touch.Read? && i < |node.elems|
    requires Renewed(types, ChildOf(types, tid), node.elems[i], Part(node.kind, touch, i), hash, unit, w, before, after)
    ensures var r := Refreshed(types, tid, node, touch);
            && r.ArrayNode? && |r.elems| == |node.elems| && Enc(r.elems[i], w, hash)
            && w != [] && Written(unit, w, before, after) && KindUnit(node.kind, unit)
  {
    hide Enc, Written;
  }

  lemma RenewedIs(types: Types, tid: nat, node: Node, touch: Touch, hash: Hash, unit: Unit, w: seq<u32>,
                  before: seq<u32>, after: seq<u32>)
    requires Enc(Refreshed(types, tid, node, touch), w, hash) && w != [] && Written(unit, w, before, after)
    requires Small(unit)
    ensures Renewed(types, tid, node, touch, hash, unit, w, before, after)
  {
  }
}
