/** Zero-copy lookup: class Map and Map::Find of include/protocache/access.h. */
module MapFinder {
  import opened Words
  import opened Bytes
  import opened Swar
  import opened Strings
  import opened Serialize
  import opened Schema
  import opened HashGraph
  import opened HashIndex
  import opened HashBuild
  import opened Arena
  import opened ArenaWriter
  import opened Decode
  import opened Values
  import opened Objects
  import opened Meaning
  import opened MapTrip

  // ---------------------------------------------------------------------
  // Locate ignores the top four bits of the header
  // ---------------------------------------------------------------------

  lemma SameSlice(a: seq<byte>, b: seq<byte>, n: nat, lo: nat, hi: nat)
    requires 4 <= lo <= hi <= n <= |a| && n <= |b| && a[4..n] == b[4..n]
    ensures a[lo..hi] == b[lo..hi]
  {
    SliceOfSlice(a, 4, n, lo - 4, hi - 4);
    SliceOfSlice(b, 4, n, lo - 4, hi - 4);
  }

  lemma SameRank(a: seq<byte>, b: seq<byte>, n: nat, slot: nat)
    requires 1 < n < LIMIT && IndexBytes(n) <= |a| && IndexBytes(n) <= |b| && a[4..IndexBytes(n)] == b[4..IndexBytes(n)]
    requires slot < 3 * Section(n)
    ensures var m := Section(n);
            && |a| >= 8 + BitmapSize(m) && |b| >= 8 + BitmapSize(m) && Bitmap(a, m) == Bitmap(b, m)
            && 8 * (slot / 32) + 8 <= BitmapSize(m)
            && (n > 24 ==> |a| >= 8 + BitmapSize(m) + Times(WordBytes(n), slot / 32 + 1)
                           && |b| >= 8 + BitmapSize(m) + Times(WordBytes(n), slot / 32 + 1))
            && PackedRank(a, m, n, slot) == PackedRank(b, m, n, slot)
  {
    hide BitmapSize, Section, IndexBytes, OrHigh, CountValidSlot, LE;
    var N := IndexBytes(n);
    BlockInBounds(n, N, slot);
    SameSlice(a, b, N, 8, 8 + BitmapSize(Section(n)));
    if n > 24 {
      var at := 8 + BitmapSize(Section(n)) + Times(WordBytes(n), slot / 32);
      SameSlice(a, b, N, at, at + WordBytes(n));
    }
  }

  lemma SameSlots(a: seq<byte>, b: seq<byte>, s0: nat, s1: nat, s2: nat)
    requires |a| >= 8 && |b| >= 8 && RealSize(a) == RealSize(b) > 1
    requires |a| >= IndexBytes(RealSize(a)) && |b| >= IndexBytes(RealSize(a))
          && a[4..IndexBytes(RealSize(a))] == b[4..IndexBytes(RealSize(a))]
    requires var m := Section(RealSize(a)); s0 < m && m <= s1 < 2 * m && 2 * m <= s2 < 3 * m
    ensures LocateSlots(a, s0, s1, s2) == LocateSlots(b, s0, s1, s2)
  {
    hide BitmapSize, Section, IndexBytes, RealSize, PackedRank, LocateSlots;
    var n := RealSize(a);
    var m := Section(n);
    LocateUnfolds(a, s0, s1, s2);
    LocateUnfolds(b, s0, s1, s2);
    var labels := HashMapping.Labels(Bitmap(a, m));
    var slot := Choose3(labels[s0] + labels[s1] + labels[s2], s0, s1, s2);
    SameRank(a, b, n, s0);
    SameRank(a, b, n, slot);
  }

  /** Two index images that agree from the seed on, and on the size, locate every key alike. */
  lemma SameLocate(a: seq<byte>, b: seq<byte>, hash: Hash, key: Key)
    requires |a| >= 4 && |b| >= 4 && RealSize(a) == RealSize(b)
    requires |a| >= IndexBytes(RealSize(a)) && |b| >= IndexBytes(RealSize(a))
          && a[4..IndexBytes(RealSize(a))] == b[4..IndexBytes(RealSize(a))]
    ensures Locate(a, hash, key) == Locate(b, hash, key)
  {
    hide BitmapSize, LocateSlots, RealSize, LE, Section;
    var n := RealSize(a);
    if n > 1 {
      SizesAgree(n);
      SectionThreshold(n);
      SameSlice(a, b, IndexBytes(n), 4, 8);
      var m := Section(n);
      var code := hash(key, LE(a[4..8]) % 0x1_0000_0000);
      SameSlots(a, b, code.w0 % m, code.w1 % m + m, code.w2 % m + m * 2);
    }
  }

  // ---------------------------------------------------------------------
  // The reader
  // ---------------------------------------------------------------------

  /** Field::GetObject. */
  function GetObject(words: seq<u32>, off: nat): (r: Option<nat>)
    ensures r.Some? ==> off <= r.value < |words|
  {
    if off >= |words| then None
    else
      var p := if words[off] % 4 == 3 then off + words[off] / 4 else off;
      if p >= |words| then None else Some(p)
  }

  /** Following the tag ends at the object, as the validating decoder does. */
  lemma GetObjectLeads(words: seq<u32>, at: nat, width: nat, c: seq<u32>)
    requires Leads(words, at, width, c)
    ensures GetObject(words, at) == Some(ObjectLocation(words, at, width).value.at)
  {
  }

  /** The Map constructor: cell widths, number of entries, start of the cells. */
  function OpenMap(words: seq<u32>, at: nat, key: Kind, value: Kind): (r: Option<MapHeadInfo>)
    ensures r.Some? ==> at < |words| && 4 * (|words| - at) >= IndexBytes(words[at] % LIMIT)
  {
    if at >= |words| then None
    else
      var n := words[at] % LIMIT;
      var info := MapHeadInfo(key, value, n, at + WordSize(IndexBytes(n)), words[at] / 0x4000_0000,
                              words[at] / 0x1000_0000 % 4);
      if info.keyWidth == 0 || info.valueWidth == 0 || 4 * (|words| - at) < IndexBytes(n)
         || info.body + Prod(info.keyWidth + info.valueWidth, n) > |words| then None
      else Some(info)
  }

  /** The bytes from the header of the map on, which start with its index. */
  function IndexImage(words: seq<u32>, at: nat): (r: seq<byte>)
    requires at < |words|
    ensures |r| == 4 * (|words| - at) && RealSize(r) == words[at] % LIMIT
  {
    WordImage(words, at);
    BytesOf(words)[4 * at..]
  }

  lemma WordImage(words: seq<u32>, at: nat)
    requires at < |words|
    ensures |BytesOf(words)| == 4 * |words| && LE(BytesOf(words)[4 * at..][..4]) == words[at]
  {
    hide LE, ByteOf;
    var b := BytesOf(words)[4 * at..];
    FirstWord(b);
    var w := words[at];
    forall k | 0 <= k < 4 ensures b[k] == ByteOf(w, k) {
      assert (4 * at + k) / 4 == at && (4 * at + k) % 4 == k;
    }
    Join4(w);
  }

  lemma Join4(w: u32)
    ensures ByteOf(w, 0) + 0x100 * ByteOf(w, 1) + 0x1_0000 * ByteOf(w, 2) + 0x100_0000 * ByteOf(w, 3) == w
  {
    assert w / 0x100 / 0x100 == w / 0x1_0000 && w / 0x1_0000 / 0x100 == w / 0x100_0000;
  }

  /** Map::Find for strings: the position of the entry, or nothing. */
  function FindString(words: seq<u32>, at: nat, hash: Hash, key: Key): Option<nat> {
    match OpenMap(words, at, KString, KString)
    case None => None
    case Some(info) =>
      var pos := Locate(IndexImage(words, at), hash, key);
      if pos < 0 || pos >= info.count then None
      else
        match GetObject(words, info.body + Prod(info.keyWidth + info.valueWidth, pos))
        case None => None
        case Some(p) =>
          match ParseBytes(words, Loc(p, |words|))
          case None => None
          case Some(span) => if BytesIn(words, span.0, span.1) == key then Some(pos) else None
  }

  /** Map::Find for scalars of one or two words. */
  function FindScalar(words: seq<u32>, at: nat, hash: Hash, val: seq<u32>): Option<nat> {
    match OpenMap(words, at, KU64, KU64)
    case None => None
    case Some(info) =>
      var pos := Locate(IndexImage(words, at), hash, BytesOf(val));
      if pos < 0 || pos >= info.count then None
      else
        var cell := info.body + Prod(info.keyWidth + info.valueWidth, pos);
        if cell + info.keyWidth <= |words| && info.keyWidth == |val| && words[cell..cell + info.keyWidth] == val then
             Some(pos)
        else None
  }

  // ---------------------------------------------------------------------
  // Find on a serialized map
  // ---------------------------------------------------------------------

  /** From the seed on, the words of a map start with the bytes of its index. */
  lemma HeadBytes(index: seq<byte>, m1: nat, m2: nat)
    requires |index| >= 4 && WordAt(index, 0) < 0x1000_0000 && m1 <= 3 && m2 <= 3
    ensures var b := BytesOf(MapHead(index, m1, m2));
            |b| >= |index| && b[4..|index|] == index[4..]
  {
    hide ByteOf, WordAt;
    var b := BytesOf(MapHead(index, m1, m2));
    forall k | 4 <= k < |index| ensures b[k] == index[k] {
      BytesOfWordAt(index, k / 4, k % 4);
    }
    var x, y := b[4..|index|], index[4..];
    assert forall k | 0 <= k < |x| :: x[k] == y[k];
  }

  lemma MapStartsWithHead(index: seq<byte>, ks: seq<seq<u32>>, vs: seq<seq<u32>>)
    requires |ks| == |vs| && |index| >= 4 && WordAt(index, 0) < 0x1000_0000
    ensures var m1, m2 := BestWidth(Lens(ks)), BestWidth(Lens(vs));
            1 <= m1 <= 3 && 1 <= m2 <= 3 && InAt(MapWords(index, ks, vs), 0, MapHead(index, m1, m2))
  {
    hide BestWidth, MapItems, PackWords, Lens;
    BestBounds(Lens(ks));
    BestBounds(Lens(vs));
    HeadFirst(MapHead(index, BestWidth(Lens(ks)), BestWidth(Lens(vs))),
              MapItems(ks, vs, BestWidth(Lens(ks)), BestWidth(Lens(vs))));
  }

  lemma HeadFirst(head: seq<u32>, items: seq<Layout.Item>)
    ensures InAt(head + Layout.Cells(items, 0) + Layout.Kept(items), 0, head)
  {
    var w := head + Layout.Cells(items, 0) + Layout.Kept(items);
    assert w[0..|head|] == head;
  }

  /** The image read from a placed map agrees with the index that was written. */
  lemma ImageAgrees(words: seq<u32>, at: nat, index: seq<byte>, ks: seq<seq<u32>>, vs: seq<seq<u32>>)
    requires |ks| == |vs| && |index| >= 4 && WordAt(index, 0) < 0x1000_0000
    requires InAt(words, at, MapWords(index, ks, vs)) && at < |words|
    ensures var image := IndexImage(words, at);
            |image| >= |index| && image[4..|index|] == index[4..]
                && RealSize(image) == RealSize(index) == WordAt(index, 0)
  {
    hide MapWords, BestWidth, MapHead, BytesOf, WordAt, LE, Lens;
    var m1, m2 := BestWidth(Lens(ks)), BestWidth(Lens(vs));
    MapStartsWithHead(index, ks, vs);
    var head := MapHead(index, m1, m2);
    InAtTrans(words, at, MapWords(index, ks, vs), 0, head);
    HeadBytes(index, m1, m2);
    BytesOfSlice(words, at, at + |head|);
    BytesLength(words);
    BytesLength(head);
    var image := IndexImage(words, at);
    var all := BytesOf(words);
    SliceOfSlice(all, 4 * at, 4 * (at + |head|), 4, |index|);
    SliceOfSlice(all, 4 * at, |all|, 4, |index|);
    assert image == all[4 * at..|all|];
    HeaderCount(words, at, index, ks, vs);
  }

  lemma HeaderCount(words: seq<u32>, at: nat, index: seq<byte>, ks: seq<seq<u32>>, vs: seq<seq<u32>>)
    requires |ks| == |vs| && |index| >= 4 && WordAt(index, 0) < 0x1000_0000
    requires InAt(words, at, MapWords(index, ks, vs)) && at < |words|
    ensures words[at] % LIMIT == WordAt(index, 0) == RealSize(index)
  {
    hide MapWords, BestWidth, WordAt, LE;
    MapHeadWord(index, ks, vs);
    InAtIndex(words, at, MapWords(index, ks, vs), 0);
    TopBits(WordAt(index, 0), BestWidth(Lens(ks)), BestWidth(Lens(vs)));
    FirstWord(index);
  }

  /** Opening a placed map: its header, and a Locate that agrees with the builder's on every key. */
  lemma Opened(words: seq<u32>, types: Types, tid: nat, loc: Loc, node: Node, plan: MapPlan, hash: Hash, key: Kind,
        value: Kind, bytes: Key)
    requires MapPlaced(words, types, tid, loc, node, plan, hash)
    ensures loc.at < |words|
    ensures OpenMap(words, loc.at, key, value) == Some(MapInfo(words, key, value, loc.at))
    ensures |plan.index| >= 4 && |plan.index| >= IndexBytes(RealSize(plan.index))
    ensures Locate(IndexImage(words, loc.at), hash, bytes) == Locate(plan.index, hash, bytes)
    ensures 0 <= Locate(plan.index, hash, bytes) <= |node.entries| == |plan.ks|
  {
    hide MapWords, Prod, BestWidth, Enc, InAt, Locate, IndexBytes, IndexByteLength, Formed, Typed, RealSize, IndexImage,
          WordAt, LE, CellsAt;
    MapCells(words, types, tid, loc, node, plan, hash);
    PlanIndex(node, plan, hash);
    PlanSized(node, plan, hash, bytes);
    ImageAgrees(words, loc.at, plan.index, plan.ks, plan.vs);
    ImageSize(words, loc.at);
    SameLocate(plan.index, IndexImage(words, loc.at), hash, bytes);
    HeaderCount(words, loc.at, plan.index, plan.ks, plan.vs);
    IndexSizes(|plan.ks|);
  }

  lemma ImageSize(words: seq<u32>, at: nat)
    requires at < |words|
    ensures |IndexImage(words, at)| == 4 * (|words| - at)
  {
  }

  lemma PlanSized(node: Node, plan: MapPlan, hash: Hash, key: Key)
    requires node.MapNode? && Slotted(node.entries, plan, hash)
    ensures |plan.index| >= 4 && RealSize(plan.index) == |node.entries|
    ensures |plan.index| == IndexBytes(RealSize(plan.index))
    ensures 0 <= Locate(plan.index, hash, key) <= |node.entries|
  {
    hide Locate, IndexBytes, LE;
  }

  /** Position `pos` is the only one that can hold the key. */
  lemma LocatedEntry(node: Node, plan: MapPlan, hash: Hash, i: nat)
    requires node.MapNode? && Slotted(node.entries, plan, hash) && i < |node.entries|
    ensures |plan.index| >= 4 && |plan.index| >= IndexBytes(RealSize(plan.index))
    ensures var pos := Locate(plan.index, hash, KeyBytes(node.entries[i].0));
            0 <= pos < |node.entries| && plan.order[pos] == i
  {
    hide Locate, IndexBytes, LE;
    assert i in plan.order;
    var s :| 0 <= s < |plan.order| && plan.order[s] == i;
    assert Locate(plan.index, hash, KeyBytes(node.entries[plan.order[s]].0)) == s;
  }

  /** What Find sees of the key stored at `pos`. */
  ghost predicate ReadsString(words: seq<u32>, info: MapHeadInfo, pos: nat, key: Key) {
    var p := GetObject(words, info.body + Prod(info.keyWidth + info.valueWidth, pos));
    && p.Some?
    && var span := ParseBytes(words, Loc(p.value, |words|));
       span.Some? && BytesIn(words, span.value.0, span.value.1) == key
  }

  ghost predicate ReadsScalar(words: seq<u32>, info: MapHeadInfo, pos: nat, width: nat, node: Node) {
    var cell := info.body + Prod(info.keyWidth + info.valueWidth, pos);
    info.keyWidth == width && cell + width <= |words| && node.ScalarNode? && words[cell..cell + width] == node.words
  }

  lemma StoredString(words: seq<u32>, types: Types, tid: nat, loc: Loc, node: Node, plan: MapPlan, hash: Hash, pos: nat)
    requires MapPlaced(words, types, tid, loc, node, plan, hash) && node.keyKind.KString? && loc.at < |words|
    requires |plan.order| == |plan.ks| && pos < |plan.ks| && plan.order[pos] < |node.entries|
    ensures ReadsString(words, MapInfo(words, node.keyKind, node.valueKind, loc.at), pos,
                        KeyBytes(node.entries[plan.order[pos]].0))
  {
    hide MapWords, Prod, BestWidth, Enc, InAt, Locate, IndexBytes, IndexByteLength, Formed, Typed, MapTrip.Column,
          StringWords, ParseBytes, BytesIn, GetObject, EncMap;
    MapCells(words, types, tid, loc, node, plan, hash);
    MapTrip.Columns(words, types, tid, loc, node, plan, hash);
    var info := MapInfo(words, node.keyKind, node.valueKind, loc.at);
    var cell := info.body + Prod(info.keyWidth + info.valueWidth, pos);
    var nodes := Nodes(node, plan, true);
    StringColumn(node.keyKind, nodes, plan.ks, hash, pos);
    assert Leads(words, cell, info.keyWidth, plan.ks[pos]);
    GetObjectLeads(words, cell, info.keyWidth, plan.ks[pos]);
    InAtWhole(words, ObjectLocation(words, cell, info.keyWidth).value.at, plan.ks[pos]);
    StringFound(words, Loc(ObjectLocation(words, cell, info.keyWidth).value.at, |words|), nodes[pos].bytes);
  }

  lemma InAtWhole(words: seq<u32>, at: nat, part: seq<u32>)
    requires InAt(words, at, part)
    ensures at + |part| <= |words|
  {
  }

  /**
   Map::Find agrees with the map that was serialized: a result is the position
   of the entry with this key, and without a result no entry has the key.
   */
  lemma FindStringAgrees(words: seq<u32>, types: Types, tid: nat, loc: Loc, node: Node, plan: MapPlan, hash: Hash,
                         key: Key)
    requires MapPlaced(words, types, tid, loc, node, plan, hash) && node.keyKind.KString?
    ensures var r := FindString(words, loc.at, hash, key);
            && |plan.order| == |node.entries| && (forall s | 0 <= s < |plan.order| :: plan.order[s] < |node.entries|)
            && (r.Some? ==> r.value < |node.entries| && KeyBytes(node.entries[plan.order[r.value]].0) == key)
            && (r.None? ==> forall i | 0 <= i < |node.entries| :: KeyBytes(node.entries[i].0) != key)
  {
    hide MapPlaced, Prod, Locate, IndexBytes, RealSize, ParseBytes, BytesIn, GetObject, IndexImage, OpenMap, MapInfo,
        KeyBytes;
    Opened(words, types, tid, loc, node, plan, hash, KString, KString, key);
    PlacedSlots(words, types, tid, loc, node, plan, hash);
    InfoShape(words, loc.at, node.keyKind, node.valueKind);
    var pos := Locate(plan.index, hash, key);
    if pos < |plan.ks| {
      StoredString(words, types, tid, loc, node, plan, hash, pos);
      InfoCount(words, types, tid, loc, node, plan, hash);
    } else {
      InfoCount(words, types, tid, loc, node, plan, hash);
    }
    forall i | 0 <= i < |node.entries| && KeyBytes(node.entries[i].0) == key
      ensures FindString(words, loc.at, hash, key) == Some(pos)
    {
      LocatedEntry(node, plan, hash, i);
    }
  }

  /** The kinds in the header description do not influence the rest. */
  lemma InfoShape(words: seq<u32>, at: nat, key: Kind, value: Kind)
    requires at < |words|
    ensures var a, b := MapInfo(words, KString, KString, at), MapInfo(words, key, value, at);
            a.count == b.count && a.body == b.body && a.keyWidth == b.keyWidth && a.valueWidth == b.valueWidth
    ensures var a, b := MapInfo(words, KU64, KU64, at), MapInfo(words, key, value, at);
            a.count == b.count && a.body == b.body && a.keyWidth == b.keyWidth && a.valueWidth == b.valueWidth
  {
  }

  lemma InfoCount(words: seq<u32>, types: Types, tid: nat, loc: Loc, node: Node, plan: MapPlan, hash: Hash)
    requires MapPlaced(words, types, tid, loc, node, plan, hash)
    ensures loc.at < |words| && MapInfo(words, node.keyKind, node.valueKind, loc.at).count == |plan.ks|
  {
    hide MapWords, Prod, BestWidth, EncMap, Formed, Typed, CellsAt;
    MapCells(words, types, tid, loc, node, plan, hash);
  }

  lemma PlacedSlots(words: seq<u32>, types: Types, tid: nat, loc: Loc, node: Node, plan: MapPlan, hash: Hash)
    requires MapPlaced(words, types, tid, loc, node, plan, hash)
    ensures Slotted(node.entries, plan, hash) && |plan.order| == |node.entries| == |plan.ks| && node.MapNode?
    ensures forall s | 0 <= s < |plan.order| :: plan.order[s] < |node.entries|
  {
    hide MapWords, Enc, Perfect, Locate, Formed, Typed;
  }

  lemma StoredScalar(words: seq<u32>, types: Types, tid: nat, loc: Loc, node: Node, plan: MapPlan, hash: Hash, pos: nat)
    requires MapPlaced(words, types, tid, loc, node, plan, hash) && IsScalar(node.keyKind)
    requires !node.keyKind.KBool? && loc.at < |words|
    requires |plan.order| == |plan.ks| && pos < |plan.ks| && plan.order[pos] < |node.entries|
    ensures ReadsScalar(words, MapInfo(words, node.keyKind, node.valueKind, loc.at), pos, ScalarWidth(node.keyKind),
          node.entries[plan.order[pos]].0)
  {
    hide MapWords, Prod, BestWidth, Enc, Locate, IndexBytes, IndexByteLength, Typed, EncMap;
    MapCells(words, types, tid, loc, node, plan, hash);
    MapTrip.Columns(words, types, tid, loc, node, plan, hash);
    ScalarColumn(node.keyKind, Nodes(node, plan, true), plan.ks, hash);
  }

  /** FindScalar answers by the entry in the slot of the key. */
  lemma FindScalarSlot(words: seq<u32>, types: Types, tid: nat, loc: Loc, node: Node, plan: MapPlan, hash: Hash,
                       val: seq<u32>) returns (pos: nat)
    requires MapPlaced(words, types, tid, loc, node, plan, hash) && IsScalar(node.keyKind) && !node.keyKind.KBool?
    requires |val| == ScalarWidth(node.keyKind) && |plan.order| == |node.entries| == |plan.ks|
    requires forall s | 0 <= s < |plan.order| :: plan.order[s] < |node.entries|
    ensures |plan.index| >= 4 && |plan.index| >= IndexBytes(RealSize(plan.index))
    ensures pos == Locate(plan.index, hash, BytesOf(val))
    ensures pos < |plan.ks| ==> node.entries[plan.order[pos]].0.ScalarNode?
    ensures FindScalar(words, loc.at, hash, val) ==
              if pos < |plan.ks| && node.entries[plan.order[pos]].0.words == val then Some(pos) else None
  {
    hide MapPlaced, Prod, Locate, IndexBytes, RealSize, BytesOf, IndexImage, OpenMap, MapInfo, Slotted;
    PlacedSlots(words, types, tid, loc, node, plan, hash);
    Opened(words, types, tid, loc, node, plan, hash, KU64, KU64, BytesOf(val));
    InfoShape(words, loc.at, node.keyKind, node.valueKind);
    InfoCount(words, types, tid, loc, node, plan, hash);
    pos := Locate(plan.index, hash, BytesOf(val));
    if pos < |plan.ks| { StoredScalar(words, types, tid, loc, node, plan, hash, pos); }
  }

  /** The same for integer keys. */
  lemma FindScalarAgrees(words: seq<u32>, types: Types, tid: nat, loc: Loc, node: Node, plan: MapPlan, hash: Hash,
                         val: seq<u32>)
    requires MapPlaced(words, types, tid, loc, node, plan, hash) && IsScalar(node.keyKind) && !node.keyKind.KBool?
          && |val| == ScalarWidth(node.keyKind)
    ensures var r := FindScalar(words, loc.at, hash, val);
            && |plan.order| == |node.entries| && (forall s | 0 <= s < |plan.order| :: plan.order[s] < |node.entries|)
            && (r.Some? ==> r.value < |node.entries| && node.entries[plan.order[r.value]].0.ScalarNode?
                            && node.entries[plan.order[r.value]].0.words == val)
            && (r.None? ==> forall i | 0 <= i < |node.entries| ::
                  !(node.entries[i].0.ScalarNode? && node.entries[i].0.words == val))
  {
    hide MapPlaced, Locate, IndexBytes, RealSize, BytesOf, FindScalar, Slotted;
    PlacedSlots(words, types, tid, loc, node, plan, hash);
    var pos := FindScalarSlot(words, types, tid, loc, node, plan, hash, val);
    forall i | 0 <= i < |node.entries| && node.entries[i].0.ScalarNode? && node.entries[i].0.words == val
      ensures FindScalar(words, loc.at, hash, val) == Some(pos)
    {
      LocatedEntry(node, plan, hash, i);
    }
  }

  /** Nothing is found in an empty map. */
  lemma FindInEmpty(words: seq<u32>, at: nat, hash: Hash, key: Key, val: seq<u32>)
    requires InAt(words, at, EmptyMap)
    ensures FindString(words, at, hash, key) == None && FindScalar(words, at, hash, val) == None
  {
    hide Prod, IndexImage, LocateSlots, BytesOf;
    InAtIndex(words, at, EmptyMap, 0);
    EmptyImage(words, at);
  }

  lemma EmptyImage(words: seq<u32>, at: nat)
    requires at < |words| && words[at] == 0x5000_0000
    ensures |IndexImage(words, at)| >= 4 && RealSize(IndexImage(words, at)) == 0 && IndexBytes(0) == 4
  {
  }
}
