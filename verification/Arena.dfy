/**
 The value trees that the arena serializer receives
 (typescript/wasm/serialize_arena.cc), and what it means for words to encode
 one of them.
 */
module Arena {
  import opened Words
  import opened Swar
  import opened Layout
  import opened Strings
  import opened Serialize
  import opened Messages
  import opened Schema
  import opened HashGraph
  import opened HashBuild
  import opened HashIndex

  /**
   A parsed arena record.  Scalars carry their little-endian words, byte arrays
   their bytes; a message lists its fields in arena order with their ids.
   */
  datatype Node =
    | NoneNode
    | ScalarNode(kind: Kind, words: seq<u32>)
    | BytesNode(kind: Kind, bytes: seq<byte>)
    | BoolsNode(flags: seq<byte>)
    | ScalarsNode(kind: Kind, items: seq<seq<u32>>)
    | ArrayNode(kind: Kind, elems: seq<Node>)
    | MapNode(keyKind: Kind, valueKind: Kind, entries: seq<(Node, Node)>)
    | MessageNode(capacity: nat, fields: seq<(nat, Node)>)

  function NodeKind(node: Node): Option<Kind> {
    match node
    case NoneNode => None
    case ScalarNode(kind, _) => Some(kind)
    case BytesNode(kind, _) => Some(kind)
    case BoolsNode(_) => Some(KArray)
    case ScalarsNode(_, _) => Some(KArray)
    case ArrayNode(_, _) => Some(KArray)
    case MapNode(_, _, _) => Some(KMap)
    case MessageNode(_, _) => Some(KMessage)
  }

  predicate TwoWords(node: Node) { node.ScalarNode? && ScalarWidth(node.kind) == 2 }

  /** Scalars of two words stand only among themselves, as Mark needs them to. */
  predicate EvenlyWide(elems: seq<Node>) {
    (forall i | 0 <= i < |elems| :: TwoWords(elems[i])) || (forall i | 0 <= i < |elems| :: !TwoWords(elems[i]))
  }

  /** The values that are kept in their unit instead of the buffer. */
  predicate StaysInline(node: Node) {
    match node
    case ScalarNode(_, _) => true
    case BytesNode(_, bytes) => |bytes| <= 3
    case BoolsNode(flags) => |flags| <= 3
    case ScalarsNode(_, items) => items == []
    case ArrayNode(_, elems) => elems == []
    case MapNode(_, _, entries) => entries == []
    case _ => false
  }

  /** What the arena writer guarantees of every record. */
  ghost predicate Formed(node: Node)
    decreases node
  {
    match node
    case NoneNode => true
    case ScalarNode(kind, words) => IsScalar(kind) && |words| == ScalarWidth(kind)
    case BytesNode(kind, _) => IsBytes(kind)
    case BoolsNode(_) => true
    case ScalarsNode(kind, items) =>
      && IsScalar(kind) && !kind.KBool? && |items| < 0x1000_0000
      && forall i | 0 <= i < |items| :: |items[i]| == ScalarWidth(kind)
    case ArrayNode(kind, elems) =>
      !IsScalar(kind) && EvenlyWide(elems) && forall i | 0 <= i < |elems| :: !elems[i].NoneNode? && Formed(elems[i])
    case MapNode(_, _, entries) => forall i | 0 <= i < |entries| :: Formed(entries[i].0) && Formed(entries[i].1)
    case MessageNode(_, fields) => forall i | 0 <= i < |fields| :: Formed(fields[i].1)
  }

  // ---------------------------------------------------------------------
  // Encodings
  // ---------------------------------------------------------------------

  /** Words of a scalar; every non-zero bool is stored as 1. */
  function ScalarWords(kind: Kind, words: seq<u32>): seq<u32> {
    if kind.KBool? then [if words != [] && words[0] != 0 then 1 else 0] else words
  }

  function Concat(items: seq<seq<u32>>): seq<u32> {
    if items == [] then [] else items[0] + Concat(items[1..])
  }

  /** `(count << 2) | width` in 32 bits. */
  function ScalarsHead(kind: Kind, count: nat): u32 { (4 * count + ScalarWidth(kind)) % 0x1_0000_0000 }

  function ScalarsWords(kind: Kind, items: seq<seq<u32>>): seq<u32> {
    [ScalarsHead(kind, |items|)] + Concat(items)
  }

  /** KeyBytes: what the hash sees of a key. */
  function KeyBytes(node: Node): Key {
    match node
    case ScalarNode(_, words) => BytesOf(words)
    case BytesNode(_, bytes) => bytes
    case _ => []
  }

  function KeysOf(entries: seq<(Node, Node)>): (r: seq<Option<Key>>)
    ensures |r| == |entries| && forall i | 0 <= i < |r| :: r[i] == Some(KeyBytes(entries[i].0))
  {
    seq(|entries|, i requires 0 <= i < |entries| => Some(KeyBytes(entries[i].0)))
  }

  /** The words `part` are found at index `at`. */
  ghost predicate InAt(words: seq<u32>, at: nat, part: seq<u32>) {
    at + |part| <= |words| && words[at..at + |part|] == part
  }

  /** The cell at `at` holds a relative offset to `part`. */
  ghost predicate PointsTo(words: seq<u32>, at: nat, part: seq<u32>, d: nat) {
    at < |words| && d > 0 && words[at] == Offset(d) && InAt(words, at + d, part)
  }

  ghost predicate Outlined(words: seq<u32>, at: nat, part: seq<u32>) {
    exists d: nat :: PointsTo(words, at, part, d)
  }

  /** `words` encode the tree. */
  ghost predicate Enc(node: Node, words: seq<u32>, hash: Hash)
    decreases node, 1
  {
    match node
    case NoneNode => words == []
    case ScalarNode(kind, ws) => words == ScalarWords(kind, ws)
    case BytesNode(_, bytes) => |bytes| < 0x4000_0000 && words == StringWords(bytes)
    case BoolsNode(flags) => |flags| < 0x4000_0000 && words == StringWords(flags)
    case ScalarsNode(kind, items) => words == ScalarsWords(kind, items)
    case ArrayNode(_, elems) => exists ws: seq<seq<u32>> :: EncArray(node, ws, words, hash)
    case MapNode(_, _, entries) =>
      if entries == [] then words == EmptyMap
      else exists plan: MapPlan :: EncMap(node, plan, words, hash)
    case MessageNode(_, fields) => exists plan: MessagePlan :: EncMessage(node, plan, words, hash)
  }

  ghost predicate EncArray(node: Node, ws: seq<seq<u32>>, words: seq<u32>, hash: Hash)
    requires node.ArrayNode?
    decreases node, 0
  {
    && |ws| == |node.elems| < 0x4000_0000 && words == ArrayWords(ws)
    && forall i | 0 <= i < |ws| :: Enc(node.elems[i], ws[i], hash)
  }

  /** Index of a map, the entry stored in each slot, and the words of its key and value. */
  datatype MapPlan = MapPlan(index: seq<byte>, order: seq<nat>, ks: seq<seq<u32>>, vs: seq<seq<u32>>)

  /** `order` lists every entry once, at the slot the index locates it. */
  ghost predicate Slotted(entries: seq<(Node, Node)>, plan: MapPlan, hash: Hash) {
    && Perfect(plan.index, hash, KeysOf(entries))
    && |plan.order| == |plan.ks| == |plan.vs| == |entries|
    && (forall s | 0 <= s < |entries| :: plan.order[s] < |entries|)
    && (forall i | 0 <= i < |entries| :: i in plan.order)
    && (forall s, t | 0 <= s < t < |entries| :: plan.order[s] != plan.order[t])
    && (forall s | 0 <= s < |entries| :: Locate(plan.index, hash, KeyBytes(entries[plan.order[s]].0)) == s)
  }

  ghost predicate EncMap(node: Node, plan: MapPlan, words: seq<u32>, hash: Hash)
    requires node.MapNode?
    decreases node, 0
  {
    && Slotted(node.entries, plan, hash)
    && |plan.index| > 0 && WordAt(plan.index, 0) < 0x1000_0000
    && words == MapWords(plan.index, plan.ks, plan.vs)
    && forall s | 0 <= s < |plan.order| ::
         && Enc(node.entries[plan.order[s]].0, plan.ks[s], hash)
         && Enc(node.entries[plan.order[s]].1, plan.vs[s], hash)
  }

  /** Widths of the field cells, and the words of every listed field. */
  datatype MessagePlan = MessagePlan(widths: seq<nat>, cs: seq<seq<u32>>)

  /** Field `id` is stored as the words `c`: nothing, in its cell, or behind an offset. */
  ghost predicate FieldStored(words: seq<u32>, widths: seq<nat>, id: nat, c: seq<u32>) {
    if c == [] then id < |widths| ==> widths[id] == 0
    else
      && id < |widths|
      && var at := |MessageHead(widths)| + Sum(widths[..id]);
         if |c| <= 3 then widths[id] == |c| && InAt(words, at, c)
         else widths[id] == 1 && Outlined(words, at, c)
  }

  ghost predicate DistinctIds(fields: seq<(nat, Node)>) {
    forall i, k | 0 <= i < k < |fields| :: fields[i].0 != fields[k].0
  }

  ghost predicate Listed(fields: seq<(nat, Node)>, id: nat) {
    exists k :: 0 <= k < |fields| && fields[k].0 == id
  }

  /** Words of the fields that do not fit their cell. */
  function OutTotal(cs: seq<seq<u32>>): nat {
    if cs == [] then 0 else (if |cs[0]| > 3 then |cs[0]| else 0) + OutTotal(cs[1..])
  }

  lemma {:induction false} OutSplit(cs: seq<seq<u32>>, k: nat)
    requires k <= |cs|
    ensures OutTotal(cs) == OutTotal(cs[..k]) + OutTotal(cs[k..])
    decreases k
  {
    if k == 0 {
      assert cs[0..] == cs && cs[..0] == [];
    } else {
      OutSplit(cs[1..], k - 1);
      assert cs[..k][1..] == cs[1..][..k - 1] && cs[1..][k - 1..] == cs[k..];
    }
  }

  /** A field that does not fit its cell lies `before` words behind the cells. */
  ghost predicate StoredBehind(words: seq<u32>, widths: seq<nat>, id: nat, c: seq<u32>, before: nat) {
    |c| > 3 ==>
      && id < |widths|
      && var at, end := |MessageHead(widths)| + Sum(widths[..id]), |MessageHead(widths)| + Sum(widths);
         at < end + before && PointsTo(words, at, c, end + before - at)
  }

  ghost predicate EncMessage(node: Node, plan: MessagePlan, words: seq<u32>, hash: Hash)
    requires node.MessageNode?
    decreases node, 0
  {
    var fields, widths := node.fields, plan.widths;
    && DistinctIds(fields) && |plan.cs| == |fields|
    && HeadOk(widths) && HeadAt(words, 0, widths) && |MessageHead(widths)| + Sum(widths) + OutTotal(plan.cs) == |words|
    && (forall id | 0 <= id < |widths| :: Listed(fields, id) || widths[id] == 0)
    && (widths != [] ==> widths[|widths| - 1] > 0)
    && forall k | 0 <= k < |fields| ::
         && Enc(fields[k].1, plan.cs[k], hash) && FieldStored(words, widths, fields[k].0, plan.cs[k])
         && StoredBehind(words, widths, fields[k].0, plan.cs[k], OutTotal(plan.cs[..k]))
  }
}
