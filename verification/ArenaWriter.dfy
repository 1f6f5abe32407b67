/** SerializeNode and its cases (typescript/wasm/serialize_arena.cc). */
module ArenaWriter {
  import opened Words
  import opened Swar
  import opened Bytes
  import opened Buffers
  import opened Layout
  import opened Units
  import opened Strings
  import opened Serialize
  import opened Messages
  import opened Schema
  import opened HashGraph
  import opened HashBuild
  import opened HashIndex
  import opened Arena
  import opened EncodingSize

  /** The effect of writing an object: nothing, words kept in the unit, or words in front of the buffer. */
  ghost predicate Written(unit: Unit, w: seq<u32>, before: seq<u32>, after: seq<u32>) {
    if w == [] then unit == Absent && after == before
    else || (unit == Inline(w) && |w| <= 3 && after == before)
         || (unit == Segment(|after|, |w|) && after == w + before)
  }

  /** Objects other than scalars stay in their unit only when they are a single word. */
  ghost predicate Small(unit: Unit) {
    unit.Inline? ==> |unit.words| == 1
  }

  // ---------------------------------------------------------------------
  // Children laid out in front of each other
  // ---------------------------------------------------------------------

  /** The units tile the buffer above `last` and stand for the words `ws`. */
  ghost predicate Laid(units: seq<Unit>, ws: seq<seq<u32>>, contents: seq<u32>, last: nat) {
    && last <= |contents| && Tiled(units, contents, 0) && SegSum(units) == |contents| - last
    && Denotes(units, contents) == ws
  }

  lemma {:induction false} TiledShift(units: seq<Unit>, contents: seq<u32>, start: nat, p: seq<u32>)
    requires Tiled(units, contents, start)
    ensures Tiled(units, p + contents, start + |p|)
    decreases |units|
  {
    if units != [] {
      TiledShift(units[1..], contents, start + if units[0].Segment? then units[0].len else 0, p);
    }
  }

  lemma DenoteShift(u: Unit, contents: seq<u32>, p: seq<u32>)
    requires InBounds(u, contents)
    ensures Denote(u, p + contents) == Denote(u, contents)
  {
    if u.Segment? {
      SliceAfter(p, contents, |contents| - u.pos, u.len);
    }
  }

  lemma DenotesShift(units: seq<Unit>, contents: seq<u32>, start: nat, p: seq<u32>)
    requires Tiled(units, contents, start)
    ensures Denotes(units, p + contents) == Denotes(units, contents)
  {
    hide Denote, Tiled, InBounds;
    forall i | 0 <= i < |units| ensures Denote(units[i], p + contents) == Denote(units[i], contents) {
      TiledAt(units, contents, start, i);
      DenoteShift(units[i], contents, p);
    }
  }

  /** Writing one more object in front of the others. */
  lemma LaidPush(units: seq<Unit>, ws: seq<seq<u32>>, before: seq<u32>, last: nat, u: Unit, w: seq<u32>,
                 after: seq<u32>)
    requires Laid(units, ws, before, last) && w != [] && Written(u, w, before, after)
    ensures Laid([u] + units, [w] + ws, after, last)
  {
    hide Tiled, SegSum, Denotes;
    var us := [u] + units;
    assert us[1..] == units;
    if u.Inline? {
      TiledPush(us, after, 0);
      DenotesPush(u, units, after);
    } else {
      TiledShift(units, before, 0, w);
      DenotesShift(units, before, 0, w);
      TiledPush(us, after, |w|);
      DenotesPush(u, units, after);
      assert after[0..|w|] == w;
    }
  }

  lemma TiledPush(us: seq<Unit>, contents: seq<u32>, start: nat)
    requires us != [] && Tiled(us[1..], contents, start)
    requires if us[0].Inline? then start == 0 else us[0] == Segment(|contents|, start) && 0 < start <= |contents|
    ensures Tiled(us, contents, 0) && SegSum(us) == start + SegSum(us[1..])
  {
  }

  lemma DenotesPush(u: Unit, units: seq<Unit>, contents: seq<u32>)
    ensures Denotes([u] + units, contents) == [Denote(u, contents)] + Denotes(units, contents)
  {
    hide Denote;
  }

  lemma LaidNothing(contents: seq<u32>)
    ensures Laid([], [], contents, |contents|)
  {
  }

  // ---------------------------------------------------------------------
  // Scalar arrays and byte arrays
  // ---------------------------------------------------------------------

  /** Byte arrays, and arrays of bools. */
  method SerializeBytes(bytes: seq<byte>, buf: Buffer) returns (ok: bool, unit: Unit, ghost w: seq<u32>)
    requires buf.Valid()
    modifies buf, buf.data
    ensures buf.Valid() && (buf.data == old(buf.data) || fresh(buf.data))
    ensures ok <==> |bytes| < 0x4000_0000
    ensures ok ==> w == StringWords(bytes) && w != [] && Written(unit, w, old(buf.Contents()), buf.Contents())
    ensures ok ==> Small(unit)
    ensures ok ==> (unit.Inline? <==> |bytes| <= 3)
  {
    hide StringWords;
    OneWordString(bytes);
    w := StringWords(bytes);
    ok, unit := SerializeString(bytes, buf);
  }

  /** A string of up to three bytes takes one word, a longer one more. */
  lemma OneWordString(bytes: seq<byte>)
    ensures |StringWords(bytes)| == 1 <==> |bytes| <= 3
  {
    hide VarInt;
    HeaderSize(4 * |bytes|);
  }

  lemma HeaderSize(n: nat)
    ensures |VarInt(n)| >= 1 && (n < 128 ==> |VarInt(n)| == 1)
  {
  }

  /** The copying loop of SerializeScalarArray. */
  method PutItems(items: seq<seq<u32>>, buf: Buffer)
    requires buf.Valid()
    modifies buf, buf.data
    ensures buf.Valid() && (buf.data == old(buf.data) || fresh(buf.data))
    ensures buf.Contents() == Concat(items) + old(buf.Contents())
  {
    hide Concat;
    ghost var before := buf.Contents();
    var i := |items|;
    PutNothing(items, before);
    while i > 0
      invariant 0 <= i <= |items| && buf.Valid() && (buf.data == old(buf.data) || fresh(buf.data))
      invariant buf.Contents() == Concat(items[i..]) + before
    {
      i := i - 1;
      buf.PutAll(items[i]);
      PutStep(items, i, before);
    }
  }

  /** SerializeScalarArray for kinds other than bool. */
  method SerializeScalars(kind: Kind, items: seq<seq<u32>>, buf: Buffer) returns (unit: Unit, ghost w: seq<u32>)
    requires buf.Valid() && IsScalar(kind) && |items| < 0x1000_0000
    modifies buf, buf.data
    ensures buf.Valid() && (buf.data == old(buf.data) || fresh(buf.data))
    ensures w == ScalarsWords(kind, items) && w != [] && Written(unit, w, old(buf.Contents()), buf.Contents())
    ensures Small(unit)
    ensures unit.Inline? <==> items == []
  {
    hide Concat, ScalarsWords, Written, Small;
    w := ScalarsWords(kind, items);
    ghost var before := buf.Contents();
    ScalarsAssembled(kind, items, before);
    if |items| == 0 {
      unit := Inline([ScalarWidth(kind)]);
    } else {
      var last := buf.Size();
      PutItems(items, buf);
      buf.Put(ScalarsHead(kind, |items|));
      unit := Segment(buf.Size(), buf.Size() - last);
    }
    WrittenObject(unit, w, before, buf.Contents());
  }

  lemma ScalarsAssembled(kind: Kind, items: seq<seq<u32>>, before: seq<u32>)
    ensures var w := ScalarsWords(kind, items);
            && w != [] && (items == [] ==> w == [ScalarWidth(kind)])
            && [ScalarsHead(kind, |items|)] + (Concat(items) + before) == w + before
  {
    hide Concat, ScalarsHead;
    Headed(ScalarsHead(kind, |items|), Concat(items), before);
    ConcatNothing();
    NoScalars(kind);
  }

  lemma NoScalars(kind: Kind)
    ensures ScalarsHead(kind, 0) == ScalarWidth(kind)
  {
  }

  lemma Headed(h: u32, body: seq<u32>, before: seq<u32>)
    ensures [h] + (body + before) == [h] + body + before && [h] + body != [] && (body == [] ==> [h] + body == [h])
  {
    Assoc([h], body, before);
  }

  lemma ConcatNothing()
    ensures Concat([]) == []
  {
  }

  lemma PutNothing(items: seq<seq<u32>>, before: seq<u32>)
    ensures Concat(items[|items|..]) + before == before && items[0..] == items
  {
  }

  lemma PutStep(items: seq<seq<u32>>, i: nat, before: seq<u32>)
    requires i < |items|
    ensures items[i] + (Concat(items[i + 1..]) + before) == Concat(items[i..]) + before
  {
    assert items[i..][1..] == items[i + 1..];
    assert items[i] + (Concat(items[i + 1..]) + before) == items[i] + Concat(items[i + 1..]) + before;
  }

  // ---------------------------------------------------------------------
  // Messages
  // ---------------------------------------------------------------------

  /** FoldField: an object of up to three words moves from the buffer into its unit. */
  method FoldField(buf: Buffer, unit: Unit, ghost w: seq<u32>, ghost before: seq<u32>) returns (unit': Unit)
    requires buf.Valid() && Written(unit, w, before, buf.Contents())
    modifies buf`off
    ensures buf.Valid() && Written(unit', w, before, buf.Contents())
    ensures w != [] ==> (unit'.Inline? <==> |w| <= 3)
  {
    unit' := unit;
    if unit.Segment? && unit.len != 0 && unit.len < 4 {
      assert unit.pos == buf.Size();
      ghost var now := buf.Contents();
      assert now[..|w|] == w && now[|w|..] == before;
      var words: seq<u32> := buf.data[buf.off..buf.off + unit.len];
      assert words == now[..unit.len];
      unit' := Inline(words);
      buf.Shrink(unit.len);
    }
  }

  /** A field unit that stands for `c`, its segment above `last`. */
  ghost predicate Held(u: Unit, c: seq<u32>, contents: seq<u32>, last: nat) {
    if c == [] then u == Absent
    else if |c| <= 3 then u == Inline(c)
    else u == Segment(u.Pos(), |c|) && |c| + last <= u.Pos() <= |contents| && Denote(u, contents) == c
  }

  lemma HeldGrows(u: Unit, c: seq<u32>, contents: seq<u32>, last: nat, p: seq<u32>)
    requires Held(u, c, contents, last)
    ensures Held(u, c, p + contents, last)
  {
    if |c| > 3 { DenoteShift(u, contents, p); }
  }

  lemma HeldNew(u: Unit, w: seq<u32>, before: seq<u32>, after: seq<u32>, last: nat)
    requires Written(u, w, before, after) && (w != [] ==> (u.Inline? <==> |w| <= 3)) && last <= |before|
    ensures Held(u, w, after, last)
  {
    if |w| > 3 { assert after[0..|w|] == w; }
  }

  /** The unit of field `i + k` stands for `cs[k]`, its segment behind those of the fields after it. */
  ghost predicate InPlace(fields: seq<(nat, Node)>, i: nat, units: seq<Unit>, cs: seq<seq<u32>>, contents: seq<u32>,
                          last: nat, k: nat)
    requires i + k < |fields| && k < |cs|
  {
    var id, c := fields[i + k].0, cs[k];
    && id < |units| && Held(units[id], c, contents, last)
    && (|c| > 3 ==> units[id].Pos() == last + OutTotal(cs[k..]))
  }

  ghost predicate ListedFrom(fields: seq<(nat, Node)>, i: nat, id: nat) {
    exists k :: i <= k < |fields| && fields[k].0 == id
  }

  /** The units of fields `i` and up are in place, all other units are absent. */
  ghost predicate Filled(fields: seq<(nat, Node)>, i: nat, units: seq<Unit>, cs: seq<seq<u32>>, contents: seq<u32>,
                         last: nat) {
    && i <= |fields| && |cs| == |fields| - i && |contents| == last + OutTotal(cs)
    && (forall k | 0 <= k < |cs| :: InPlace(fields, i, units, cs, contents, last, k))
    && (forall id | 0 <= id < |units| :: units[id] == Absent || ListedFrom(fields, i, id))
  }

  lemma InPlaceNew(fields: seq<(nat, Node)>, i: nat, units: seq<Unit>, cs: seq<seq<u32>>, before: seq<u32>, last: nat,
        u: Unit, w: seq<u32>, after: seq<u32>)
    requires i < |fields| && |before| == last + OutTotal(cs) && fields[i].0 < |units|
    requires Written(u, w, before, after) && (w != [] ==> (u.Inline? <==> |w| <= 3))
    ensures InPlace(fields, i, units[fields[i].0 := u], [w] + cs, after, last, 0)
    ensures |after| == last + OutTotal([w] + cs)
  {
    hide Held, OutTotal, Written;
    HeldNew(u, w, before, after, last);
    OutStep(w, cs);
    WrittenSize(u, w, before, after);
    assert ([w] + cs)[0..] == [w] + cs;
  }

  lemma InPlaceOld(fields: seq<(nat, Node)>, i: nat, units: seq<Unit>, cs: seq<seq<u32>>, before: seq<u32>, last: nat,
        u: Unit, w: seq<u32>, after: seq<u32>, k: nat)
    requires i < |fields| && DistinctIds(fields) && fields[i].0 < |units| && |cs| == |fields| - i - 1 && 0 < k <= |cs|
    requires InPlace(fields, i + 1, units, cs, before, last, k - 1) && Written(u, w, before, after)
    ensures InPlace(fields, i, units[fields[i].0 := u], [w] + cs, after, last, k)
  {
    hide Held, OutTotal, Written;
    var cs', id := [w] + cs, fields[i + k].0;
    assert cs'[k] == cs[k - 1] && fields[i + 1 + (k - 1)] == fields[i + k] && cs'[k..] == cs[k - 1..];
    assert id != fields[i].0;
    GrowsBy(u, w, before, after);
    HeldGrows(units[id], cs[k - 1], before, last, if after == before then [] else w);
  }

  lemma FilledStep(fields: seq<(nat, Node)>, i: nat, units: seq<Unit>, cs: seq<seq<u32>>, before: seq<u32>, last: nat,
                   u: Unit, w: seq<u32>, after: seq<u32>)
    requires i < |fields| && Filled(fields, i + 1, units, cs, before, last) && DistinctIds(fields)
    requires fields[i].0 < |units|
    requires Written(u, w, before, after) && (w != [] ==> (u.Inline? <==> |w| <= 3))
    ensures Filled(fields, i, units[fields[i].0 := u], [w] + cs, after, last)
  {
    hide InPlace, OutTotal, Written, DistinctIds;
    var cs', units' := [w] + cs, units[fields[i].0 := u];
    InPlaceNew(fields, i, units, cs, before, last, u, w, after);
    forall k | 0 <= k < |cs'| ensures InPlace(fields, i, units', cs', after, last, k) {
      if k > 0 {
        assert InPlace(fields, i + 1, units, cs, before, last, k - 1);
        InPlaceOld(fields, i, units, cs, before, last, u, w, after, k);
      }
    }
    forall id | 0 <= id < |units'| ensures units'[id] == Absent || ListedFrom(fields, i, id) {
      if id == fields[i].0 {
        assert i <= i < |fields| && fields[i].0 == id;
      } else if units[id] != Absent {
        assert ListedFrom(fields, i + 1, id);
      }
    }
  }

  lemma WrittenSize(u: Unit, w: seq<u32>, before: seq<u32>, after: seq<u32>)
    requires Written(u, w, before, after) && (w != [] ==> (u.Inline? <==> |w| <= 3))
    ensures |after| == |before| + if |w| > 3 then |w| else 0
    ensures |w| > 3 ==> u.Pos() == |after|
  {
  }

  lemma OutStep(w: seq<u32>, cs: seq<seq<u32>>)
    ensures OutTotal([w] + cs) == (if |w| > 3 then |w| else 0) + OutTotal(cs)
  {
    assert ([w] + cs)[1..] == cs;
  }

  lemma GrowsBy(u: Unit, w: seq<u32>, before: seq<u32>, after: seq<u32>)
    requires Written(u, w, before, after)
    ensures after == (if after == before then [] else w) + before
  {
  }

  /** The first loop of SerializeMessageNode: ids in range and not repeated. */
  method CheckIds(fields: seq<(nat, Node)>, capacity: nat) returns (ok: bool)
    ensures ok <==> DistinctIds(fields) && forall k | 0 <= k < |fields| :: fields[k].0 < capacity
  {
    var occupied := new bool[capacity](_ => false);
    var i := 0;
    while i < |fields|
      invariant 0 <= i <= |fields|
      invariant forall k | 0 <= k < i :: fields[k].0 < capacity && occupied[fields[k].0]
      invariant forall id | 0 <= id < capacity && occupied[id] :: exists k :: 0 <= k < i && fields[k].0 == id
      invariant forall j, k | 0 <= j < k < i :: fields[j].0 != fields[k].0
    {
      var id := fields[i].0;
      if id >= capacity || occupied[id] { return false; }
      occupied[id] := true;
      i := i + 1;
    }
    ok := true;
  }

  /** The words of a message: header and cells, then the segments of its fields. */
  ghost function MessageWords(us: seq<Unit>, contents: seq<u32>, last: nat): seq<u32>
    requires last <= |contents|
  {
    MessageFront(us, |contents|) + contents[..|contents| - last]
  }

  lemma FrontLength(us: seq<Unit>, below: nat)
    ensures |MessageFront(us, below)| == |MessageHead(FieldWidths(us))| + Sum(FieldWidths(us))
  {
    hide MessageHead, Sum, Body;
    BodySize(us, Sum(FieldWidths(us)) + below);
  }

  /** The cell of field `id` inside the words of the message. */
  lemma FrontCell(us: seq<Unit>, contents: seq<u32>, last: nat, id: nat)
    requires last <= |contents| && id < |us|
    ensures var widths := FieldWidths(us);
            var start := Sum(widths[..id]);
            var at := |MessageHead(widths)| + start;
            && at + widths[id] <= |MessageFront(us, |contents|)| <= |MessageWords(us, contents, last)|
            && MessageWords(us, contents, last)[at..at + widths[id]]
               == FieldCell(us[id], Sum(widths) + |contents| - start)
  {
    hide MessageHead, Sum, Body, FieldCell;
    var widths := FieldWidths(us);
    var head, body := MessageHead(widths), Body(us, Sum(widths) + |contents|);
    var start := Sum(widths[..id]);
    BodyAt(us, Sum(widths) + |contents|, id);
    SliceAfter(head, body, start, widths[id]);
    var front, rest := head + body, contents[..|contents| - last];
    var at := |head| + start;
    assert (front + rest)[at..at + widths[id]] == front[at..at + widths[id]];
  }

  lemma InlineStored(us: seq<Unit>, contents: seq<u32>, last: nat, id: nat, c: seq<u32>)
    requires last <= |contents| && id < |us| && us[id] == Inline(c) && 1 <= |c| <= 3
    ensures FieldStored(MessageWords(us, contents, last), FieldWidths(us), id, c)
  {
    hide MessageHead, Sum, MessageWords;
    FrontCell(us, contents, last, id);
  }

  lemma SegmentStored(us: seq<Unit>, contents: seq<u32>, last: nat, id: nat, c: seq<u32>)
    requires last <= |contents| && id < |us| && |c| > 3 && Held(us[id], c, contents, last)
    ensures FieldStored(MessageWords(us, contents, last), FieldWidths(us), id, c)
    ensures StoredBehind(MessageWords(us, contents, last), FieldWidths(us), id, c, |contents| - us[id].Pos())
  {
    hide MessageHead, Sum, MessageFront;
    var widths, p := FieldWidths(us), us[id].Pos();
    var w, front := MessageWords(us, contents, last), MessageFront(us, |contents|);
    FrontCell(us, contents, last, id);
    FrontLength(us, |contents|);
    PrefixSum(widths, id);
    var start := Sum(widths[..id]);
    var at, d := |MessageHead(widths)| + start, Sum(widths) + |contents| - start - p;
    assert w[at] == w[at..at + 1][0] == Offset(d);
    assert at + d == |front| + (|contents| - p);
    var rest := contents[..|contents| - last];
    SliceAfter(front, rest, |contents| - p, |c|);
    assert rest[|contents| - p..|contents| - p + |c|] == contents[|contents| - p..|contents| - p + |c|];
    assert PointsTo(w, at, c, d);
  }

  lemma FieldPlaced(units: seq<Unit>, contents: seq<u32>, last: nat, id: nat, c: seq<u32>)
    requires last <= |contents| && id < |units| && Held(units[id], c, contents, last)
    ensures FieldStored(MessageWords(Trim(units), contents, last), FieldWidths(Trim(units)), id, c)
    ensures |c| > 3 ==> StoredBehind(MessageWords(Trim(units), contents, last), FieldWidths(Trim(units)), id, c,
          |contents| - units[id].Pos())
  {
    hide MessageHead, Sum, MessageWords, FieldStored, Denote, Outlined, StoredBehind;
    var us := Trim(units);
    if c == [] {
      NothingStored(us, contents, last, id);
    } else if |c| <= 3 {
      InlineStored(us, contents, last, id, c);
    } else {
      SegmentStored(us, contents, last, id, c);
    }
  }

  lemma NothingStored(us: seq<Unit>, contents: seq<u32>, last: nat, id: nat)
    requires last <= |contents| && (id < |us| ==> us[id] == Absent)
    ensures FieldStored(MessageWords(us, contents, last), FieldWidths(us), id, [])
  {
  }

  /** The words of a message encode it. */
  lemma MessageAssembled(node: Node, units: seq<Unit>, cs: seq<seq<u32>>, contents: seq<u32>, last: nat, hash: Hash)
    requires node.MessageNode? && DistinctIds(node.fields) && Filled(node.fields, 0, units, cs, contents, last)
    requires HeadOk(FieldWidths(Trim(units)))
    requires forall k | 0 <= k < |node.fields| :: Enc(node.fields[k].1, cs[k], hash)
    ensures Enc(node, MessageWords(Trim(units), contents, last), hash)
    ensures MessageWords(Trim(units), contents, last) != []
  {
    hide Sum, MessageHead, FieldStored, StoredBehind, Filled, Enc, MessageFront, HeadOk, OutTotal, MessageWords,
        DistinctIds, Trim;
    var fields, us := node.fields, Trim(units);
    FilledCount(fields, 0, units, cs, contents, last);
    FilledSize(fields, units, cs, contents, last);
    var widths, w := FieldWidths(us), MessageWords(us, contents, last);
    forall k | 0 <= k < |fields|
      ensures FieldStored(w, widths, fields[k].0, cs[k])
      ensures StoredBehind(w, widths, fields[k].0, cs[k], OutTotal(cs[..k]))
    {
      FieldFilled(fields, units, cs, contents, last, k);
    }
    forall id | 0 <= id < |widths| ensures Listed(fields, id) || widths[id] == 0 {
      UnlistedField(fields, units, cs, contents, last, id);
    }
    HeadInFront(us, contents, last);
    LastPresent(units);
    assert EncMessage(node, MessagePlan(widths, cs), w, hash);
    MessageEncoded(node, MessagePlan(widths, cs), w, hash);
  }

  lemma LastPresent(units: seq<Unit>)
    ensures var ws := FieldWidths(Trim(units)); ws != [] ==> ws[|ws| - 1] > 0
  {
    var us := Trim(units);
    if us != [] { assert us[|us| - 1].Size() > 0; }
  }

  lemma FilledSize(fields: seq<(nat, Node)>, units: seq<Unit>, cs: seq<seq<u32>>, contents: seq<u32>, last: nat)
    requires Filled(fields, 0, units, cs, contents, last)
    ensures |contents| == last + OutTotal(cs)
  {
  }

  lemma FieldFilled(fields: seq<(nat, Node)>, units: seq<Unit>, cs: seq<seq<u32>>, contents: seq<u32>, last: nat,
                    k: nat)
    requires Filled(fields, 0, units, cs, contents, last) && k < |fields| == |cs|
    ensures last <= |contents|
    ensures var widths, w := FieldWidths(Trim(units)), MessageWords(Trim(units), contents, last);
            FieldStored(w, widths, fields[k].0, cs[k]) && StoredBehind(w, widths, fields[k].0, cs[k], OutTotal(cs[..k]))
  {
    hide Sum, MessageHead, FieldStored, StoredBehind, Held, MessageWords, Trim, OutTotal;
    assert InPlace(fields, 0, units, cs, contents, last, k);
    FieldPlaced(units, contents, last, fields[k].0, cs[k]);
    OutSplit(cs, k);
    if |cs[k]| <= 3 { NotBehind(MessageWords(Trim(units), contents, last), FieldWidths(Trim(units)), fields[k].0, cs[k],
          OutTotal(cs[..k])); }
  }

  lemma UnlistedField(fields: seq<(nat, Node)>, units: seq<Unit>, cs: seq<seq<u32>>, contents: seq<u32>, last: nat,
                      id: nat)
    requires Filled(fields, 0, units, cs, contents, last) && id < |Trim(units)|
    ensures Listed(fields, id) || FieldWidths(Trim(units))[id] == 0
  {
    hide InPlace, OutTotal;
    var us := Trim(units);
    if us[id] != Absent { assert ListedFrom(fields, 0, id); }
  }

  lemma NotBehind(words: seq<u32>, widths: seq<nat>, id: nat, c: seq<u32>, before: nat)
    requires |c| <= 3
    ensures StoredBehind(words, widths, id, c, before)
  {
  }

  lemma MessageEncoded(node: Node, plan: MessagePlan, w: seq<u32>, hash: Hash)
    requires node.MessageNode? && EncMessage(node, plan, w, hash)
    ensures Enc(node, w, hash)
  {
    hide EncMessage;
  }

  lemma HeadInFront(us: seq<Unit>, contents: seq<u32>, last: nat)
    requires last <= |contents|
    ensures var widths, w := FieldWidths(us), MessageWords(us, contents, last);
            && HeadAt(w, 0, widths) && 0 < |MessageHead(widths)| + Sum(widths) <= |w|
            && |w| == |MessageHead(widths)| + Sum(widths) + |contents| - last
  {
    hide Sum, Body;
    FrontLength(us, |contents|);
    var widths, w := FieldWidths(us), MessageWords(us, contents, last);
    var head := MessageHead(widths);
    assert w[0..|head|] == head;
  }

  // ---------------------------------------------------------------------
  // Maps
  // ---------------------------------------------------------------------

  /** The size a unit of this kind can have when it is inline. */
  ghost predicate KindUnit(kind: Kind, unit: Unit) {
    if ScalarWidth(kind) == 2 then unit.Inline? && |unit.words| == 2 else Small(unit)
  }

  lemma KindFits(kind: Kind, units: seq<Unit>)
    requires forall i | 0 <= i < |units| :: KindUnit(kind, units[i])
    ensures FitsBest(units)
  {
    hide BestWidth;
    BestBounds(SizesOf(units));
    if ScalarWidth(kind) == 2 && units != [] { AllTwos(SizesOf(units)); }
  }

  /** Kinds that KeyBytes can give to the hash: strings and scalars of whole words. */
  predicate HashableKey(kind: Kind) { kind.KString? || (IsScalar(kind) && !kind.KBool?) }

  /** Keys and values of the announced kinds; anything else makes the parsing loop fail. */
  predicate EntriesOk(node: Node)
    requires node.MapNode?
  {
    forall i | 0 <= i < |node.entries| ::
      && HashableKey(node.keyKind) && NodeKind(node.entries[i].0) == Some(node.keyKind)
      && NodeKind(node.entries[i].1) == Some(node.valueKind)
  }

  ghost predicate Numbered(data: seq<byte>, hash: Hash, keys: seq<Option<Key>>) {
    && AllRead(keys) && |data| >= 4 && |data| >= IndexBytes(RealSize(data)) && RealSize(data) == |keys|
    && Permutes(Locations(data, hash, keys), |keys|)
  }

  lemma PerfectNumbers(data: seq<byte>, hash: Hash, keys: seq<Option<Key>>)
    requires Perfect(data, hash, keys) && AllRead(keys)
    ensures Numbered(data, hash, keys)
  {
    hide IndexBytes, Locate;
  }

  /** `order` lists the keys by the slot Locate gives them. */
  ghost predicate Ordered(data: seq<byte>, hash: Hash, keys: seq<Option<Key>>, order: seq<nat>) {
    && Numbered(data, hash, keys) && |order| == |keys|
    && (forall s | 0 <= s < |keys| :: order[s] < |keys| && Locate(data, hash, keys[order[s]].value) == s)
    && (forall i | 0 <= i < |keys| :: i in order)
  }

  /** The loop that inverts Locate; on a perfect index no slot is out of range or taken twice. */
  method SlotOrder(data: seq<byte>, hash: Hash, keys: seq<Option<Key>>) returns (ok: bool, order: seq<nat>)
    requires Numbered(data, hash, keys)
    ensures ok && |order| == |keys| && Ordered(data, hash, keys, order)
  {
    hide Locate, IndexBytes, RealSize;
    var n := |keys|;
    var taken := new bool[n](_ => false);
    var input := new nat[n](_ => 0);
    ghost var locations := Locations(data, hash, keys);
    var i := 0;
    while i < n
      invariant 0 <= i <= n
      invariant forall s | 0 <= s < n && taken[s] :: input[s] < i && locations[input[s]] == s
      invariant forall k | 0 <= k < i :: taken[locations[k]] && input[locations[k]] == k
    {
      var slot := Locate(data, hash, keys[i].value);
      assert slot == locations[i];
      if slot < 0 || slot >= n || taken[slot] { return false, []; }
      taken[slot] := true;
      input[slot] := i;
      i := i + 1;
    }
    order := input[..];
    ok := true;
    forall s | 0 <= s < n ensures order[s] < n && Locate(data, hash, keys[order[s]].value) == s {
      assert s in locations;
    }
    forall k | 0 <= k < n ensures k in order {
      assert order[locations[k]] == k;
    }
  }

  lemma InterleaveCons<T>(a: T, b: T, x: seq<T>, y: seq<T>)
    requires |x| == |y|
    ensures Interleave([a] + x, [b] + y) == [a] + ([b] + Interleave(x, y))
  {
    var l, r := Interleave([a] + x, [b] + y), [a] + ([b] + Interleave(x, y));
    forall k | 0 <= k < |l| ensures l[k] == r[k] {
      if k >= 2 { assert (k - 2) / 2 == k / 2 - 1 && (k - 2) % 2 == k % 2; }
    }
  }

  /** The entries of the slots `s` and up lie in front of each other, key before value. */
  ghost predicate PairsLaid(pairs: seq<(Unit, Unit)>, ks: seq<seq<u32>>, vs: seq<seq<u32>>, contents: seq<u32>,
                            last: nat) {
    && |pairs| == |ks| == |vs|
    && Laid(Interleave(Firsts(pairs), Seconds(pairs)), Interleave(ks, vs), contents, last)
  }

  lemma PairsPush(pairs: seq<(Unit, Unit)>, ks: seq<seq<u32>>, vs: seq<seq<u32>>, before: seq<u32>, last: nat,
                  v: Unit, vw: seq<u32>, middle: seq<u32>, k: Unit, kw: seq<u32>, after: seq<u32>)
    requires PairsLaid(pairs, ks, vs, before, last) && vw != [] && kw != []
    requires Written(v, vw, before, middle) && Written(k, kw, middle, after)
    ensures PairsLaid([(k, v)] + pairs, [kw] + ks, [vw] + vs, after, last)
  {
    hide Laid, Written, Interleave;
    var flat, ws := Interleave(Firsts(pairs), Seconds(pairs)), Interleave(ks, vs);
    LaidPush(flat, ws, before, last, v, vw, middle);
    LaidPush([v] + flat, [vw] + ws, middle, last, k, kw, after);
    assert Firsts([(k, v)] + pairs) == [k] + Firsts(pairs);
    assert Seconds([(k, v)] + pairs) == [v] + Seconds(pairs);
    InterleaveCons(k, v, Firsts(pairs), Seconds(pairs));
    InterleaveCons(kw, vw, ks, vs);
  }

  lemma PairsNothing(contents: seq<u32>)
    ensures PairsLaid([], [], [], contents, |contents|)
  {
    assert Firsts([]) == [] && Seconds([]) == [];
    assert Interleave<Unit>([], []) == [] && Interleave<seq<u32>>([], []) == [];
    LaidNothing(contents);
  }

  /** Keys and values are recovered from the flat list. */
  lemma PairsDenote(pairs: seq<(Unit, Unit)>, ks: seq<seq<u32>>, vs: seq<seq<u32>>, contents: seq<u32>, last: nat)
    requires PairsLaid(pairs, ks, vs, contents, last)
    ensures Denotes(Firsts(pairs), contents) == ks && Denotes(Seconds(pairs), contents) == vs
  {
    hide Denote, Tiled, SegSum;
    var flat, ws := Interleave(Firsts(pairs), Seconds(pairs)), Interleave(ks, vs);
    forall i | 0 <= i < |pairs| ensures Denote(pairs[i].0, contents) == ks[i] && Denote(pairs[i].1, contents) == vs[i] {
      assert 2 * i / 2 == i && (2 * i + 1) / 2 == i;
      assert flat[2 * i] == pairs[i].0 && ws[2 * i] == ks[i];
      assert flat[2 * i + 1] == pairs[i].1 && ws[2 * i + 1] == vs[i];
    }
  }

  lemma IndexHead(index: seq<byte>, hash: Hash, keys: seq<Option<Key>>)
    requires Perfect(index, hash, keys)
    ensures |index| >= 4 && WordAt(index, 0) == |keys| < 0x1000_0000
  {
    hide Locate, IndexBytes;
    FirstWord(index);
  }

  lemma FirstWord(index: seq<byte>)
    requires |index| >= 4
    ensures WordAt(index, 0) == LE(index[..4])
  {
    var b := index[..4];
    assert LE(b) == b[0] + 256 * LE(b[1..]);
    assert LE(b[1..]) == b[1] + 256 * LE(b[2..]) by { assert b[1..][1..] == b[2..]; }
    assert LE(b[2..]) == b[2] + 256 * LE(b[3..]) by { assert b[2..][1..] == b[3..]; }
    assert LE(b[3..]) == b[3] by { assert b[3..][1..] == []; }
  }

  lemma MapAssembledEnc(node: Node, plan: MapPlan, w: seq<u32>, hash: Hash)
    requires node.MapNode? && node.entries != [] && EncMap(node, plan, w, hash)
    ensures Enc(node, w, hash)
  {
    hide EncMap;
  }

  // ---------------------------------------------------------------------
  // What is refused
  // ---------------------------------------------------------------------

  const TooLong: nat := 0x4000_0000

  /** The size check of SerializeArray fails. */
  ghost predicate ArrayOver(ws: seq<seq<u32>>) {
    ws != [] && CellTotal(Lens(ws), BestWidth(Lens(ws))) >= TooLong
  }

  /** The size check of SerializeMap fails. */
  ghost predicate MapOver(plan: MapPlan) {
    WordSize(|plan.index|) + CellTotal(Lens(plan.ks), BestWidth(Lens(plan.ks))) + CellTotal(Lens(plan.vs),
          BestWidth(Lens(plan.vs))) >= TooLong
  }

  /** The size check or a section of SerializeMessage fails. */
  ghost predicate MessageOver(units: seq<Unit>) {
    Trim(units) != [] && (FieldTotal(Trim(units)) >= TooLong || !HeadOk(FieldWidths(Trim(units))))
  }

  /** No index is found for the keys within the tries. */
  ghost predicate BuildFails(keys: seq<Option<Key>>, hash: Hash, seeds: nat -> u32) {
    |keys| >= LIMIT || (|keys| >= 2 && !SomeSeed(keys, hash, seeds, FirstTries(|keys|) + SecondTries(|keys|)))
  }

  ghost predicate ElementsOver(elems: seq<Node>, ws: seq<seq<u32>>, hash: Hash) {
    |ws| == |elems| && (forall i | 0 <= i < |ws| :: Enc(elems[i], ws[i], hash)) && ArrayOver(ws)
  }

  ghost predicate EntriesOver(entries: seq<(Node, Node)>, plan: MapPlan, hash: Hash) {
    Perfect(plan.index, hash, KeysOf(entries)) && PlanEncodes(entries, plan, hash) && MapOver(plan)
  }

  ghost predicate FieldsOver(fields: seq<(nat, Node)>, units: seq<Unit>, cs: seq<seq<u32>>, contents: seq<u32>,
                             last: nat, hash: Hash) {
    && Filled(fields, 0, units, cs, contents, last) && (forall k | 0 <= k < |fields| :: Enc(fields[k].1, cs[k], hash))
    && MessageOver(units)
  }

  ghost predicate IdsOk(node: Node)
    requires node.MessageNode?
  {
    DistinctIds(node.fields) && forall k | 0 <= k < |node.fields| :: node.fields[k].0 < node.capacity
  }

  /** The reasons for which a tree is not serialized. */
  ghost predicate Refused(node: Node, hash: Hash, seeds: nat -> u32)
    decreases node
  {
    match node
    case BytesNode(_, bytes) => |bytes| >= TooLong
    case BoolsNode(flags) => |flags| >= TooLong
    case ArrayNode(_, elems) =>
      || (exists i :: 0 <= i < |elems| && Refused(elems[i], hash, seeds))
      || (exists ws: seq<seq<u32>> :: ElementsOver(elems, ws, hash))
    case MapNode(_, _, entries) =>
      || !EntriesOk(node) || BuildFails(KeysOf(entries), hash, seeds)
      || (exists i :: 0 <= i < |entries| && (Refused(entries[i].0, hash, seeds) || Refused(entries[i].1, hash, seeds)))
      || (exists plan: MapPlan :: EntriesOver(entries, plan, hash))
    case MessageNode(capacity, fields) =>
      || capacity == 0 || capacity > 12 + 25 * 255 || !IdsOk(node)
      || (exists k :: 0 <= k < |fields| && Refused(fields[k].1, hash, seeds))
      || (exists units: seq<Unit>, cs: seq<seq<u32>>, contents: seq<u32>, last: nat ::
            FieldsOver(fields, units, cs, contents, last, hash))
    case _ => false
  }

  // ---------------------------------------------------------------------
  // The recursive serializer
  // ---------------------------------------------------------------------

  ghost predicate Grown(before: seq<u32>, after: seq<u32>) {
    |before| <= |after| && after[|after| - |before|..] == before
  }

  lemma GrownWritten(unit: Unit, w: seq<u32>, first: seq<u32>, before: seq<u32>, after: seq<u32>)
    requires Grown(first, before) && Written(unit, w, before, after)
    ensures Grown(first, after)
  {
  }

  /** State of the element loop: the elements `i` and up are written. */
  ghost predicate ElementsDone(kind: Kind, elems: seq<Node>, i: nat, units: seq<Unit>, ws: seq<seq<u32>>,
        before: seq<u32>, now: seq<u32>, hash: Hash) {
    && Laid(units, ws, now, |before|) && Grown(before, now)
    && i <= |elems| && |units| == |ws| == |elems| - i
    && (forall k | 0 <= k < |ws| :: Enc(elems[i + k], ws[k], hash))
    && (forall k | 0 <= k < |units| :: KindUnit(kind, units[k]))
  }

  lemma ElementsStart(kind: Kind, elems: seq<Node>, before: seq<u32>, hash: Hash)
    ensures ElementsDone(kind, elems, |elems|, [], [], before, before, hash)
  {
    hide Laid, Enc, KindUnit;
    LaidNothing(before);
    GrownStart(before);
  }

  lemma ElementsStep(kind: Kind, elems: seq<Node>, i: nat, units: seq<Unit>, ws: seq<seq<u32>>, before: seq<u32>,
        now: seq<u32>, hash: Hash,
                     unit: Unit, w: seq<u32>, after: seq<u32>)
    requires i < |elems| && ElementsDone(kind, elems, i + 1, units, ws, before, now, hash)
    requires Enc(elems[i], w, hash) && w != [] && Written(unit, w, now, after) && KindUnit(kind, unit)
    ensures ElementsDone(kind, elems, i, [unit] + units, [w] + ws, before, after, hash)
  {
    hide Enc, Laid, Written, Grown, KindUnit;
    LaidPush(units, ws, now, |before|, unit, w, after);
    GrownWritten(unit, w, before, now, after);
    var ws' := [w] + ws;
    forall k | 0 <= k < |ws'| ensures Enc(elems[i + k], ws'[k], hash) {
      if k > 0 { assert ws'[k] == ws[k - 1] && elems[i + k] == elems[i + 1 + (k - 1)]; }
    }
  }

  /** The element is a value and a scalar of two words exactly if `kind` is one. */
  ghost predicate WideAs(kind: Kind, node: Node) {
    NodeKind(node).Some? && (ScalarWidth(NodeKind(node).value) == 2 <==> ScalarWidth(kind) == 2)
  }

  lemma WideUnit(kind: Kind, node: Node, unit: Unit)
    requires WideAs(kind, node) && KindUnit(NodeKind(node).value, unit)
    ensures KindUnit(kind, unit)
  {
  }

  ghost predicate NoneRefused(elems: seq<Node>, hash: Hash, seeds: nat -> u32) {
    forall i | 0 <= i < |elems| :: !Refused(elems[i], hash, seeds)
  }

  /** The element loop of SerializeArrayNode, from the last element to the first. */
  method SerializeElements(ghost kind: Kind, elems: seq<Node>, buf: Buffer, hash: Hash, seeds: nat -> u32)
    returns (ok: bool, units: seq<Unit>, ghost ws: seq<seq<u32>>)
    requires buf.Valid() && forall i | 0 <= i < |elems| :: Formed(elems[i]) && WideAs(kind, elems[i])
    modifies buf, buf.data
    ensures buf.Valid() && (buf.data == old(buf.data) || fresh(buf.data))
    ensures ok ==> ElementsDone(kind, elems, 0, units, ws, old(buf.Contents()), buf.Contents(), hash)
    ensures ok <==> NoneRefused(elems, hash, seeds)
    decreases elems, 0
  {
    hide Enc, ElementsDone, Written, Formed, KindUnit, ScalarWidth, Refused;
    ghost var before := buf.Contents();
    units, ws := [], [];
    ElementsStart(kind, elems, before, hash);
    var i := |elems|;
    while i > 0
      invariant 0 <= i <= |elems| && buf.Valid() && (buf.data == old(buf.data) || fresh(buf.data))
      invariant ElementsDone(kind, elems, i, units, ws, before, buf.Contents(), hash)
      invariant forall k | i <= k < |elems| :: !Refused(elems[k], hash, seeds)
    {
      i := i - 1;
      ghost var now := buf.Contents();
      var unit: Unit;
      ghost var w: seq<u32>;
      ok, unit, w := SerializeNode(elems[i], buf, hash, seeds);
      if !ok { return; }
      WideUnit(kind, elems[i], unit);
      ElementsStep(kind, elems, i, units, ws, before, now, hash, unit, w, buf.Contents());
      units, ws := [unit] + units, [w] + ws;
    }
    ok := true;
  }

  lemma GrownStart(before: seq<u32>)
    ensures Grown(before, before)
  {
  }

  lemma ArrayEncoded(node: Node, ws: seq<seq<u32>>, hash: Hash)
    requires node.ArrayNode? && |ws| == |node.elems| < 0x4000_0000
    requires forall i | 0 <= i < |ws| :: Enc(node.elems[i], ws[i], hash)
    ensures Enc(node, ArrayWords(ws), hash)
  {
    hide ArrayWords;
    assert EncArray(node, ws, ArrayWords(ws), hash);
  }

  lemma {:induction false} CountBelowTotal(lens: seq<nat>, k: nat)
    requires k >= 1
    ensures |lens| <= CellTotal(lens, k)
  {
    if lens != [] { CountBelowTotal(lens[1..], k); }
  }

  /** SerializeArrayNode for elements that are objects. */
  method SerializeArrayNode(node: Node, buf: Buffer, hash: Hash, seeds: nat -> u32)
    returns (ok: bool, unit: Unit, ghost w: seq<u32>)
    requires buf.Valid() && node.ArrayNode? && Formed(node)
    modifies buf, buf.data
    ensures buf.Valid() && (buf.data == old(buf.data) || fresh(buf.data))
    ensures ok ==> Enc(node, w, hash) && w != [] && Written(unit, w, old(buf.Contents()), buf.Contents()) && Small(unit)
    ensures ok <==> !Refused(node, hash, seeds)
    ensures ok ==> (unit.Inline? <==> StaysInline(node))
    decreases node, 2
  {
    hide Enc, Tiled, SegSum, ArrayWords, CellTotal, BestWidth, Denotes, FitsBest, SizesOf, KindUnit, ElementsDone,
        Grown,
          Formed, Written, Small, Refused, ElementsOver, NoneRefused, ArrayOver, ArrayReady;
    unit, w := Absent, [];
    ghost var before := buf.Contents();
    var last := buf.Size();
    var units: seq<Unit>;
    ghost var ws: seq<seq<u32>>;
    ghost var kind := ElementsFormed(node);
    ok, units, ws := SerializeElements(kind, node.elems, buf, hash, seeds);
    if !ok {
      ElementRefused(node, hash, seeds);
      return;
    }
    ghost var now := buf.Contents();
    ElementsReady(node, kind, units, ws, before, now, hash);
    ok, unit := FinishArray(units, buf, last, ws, before);
    w := ArrayWords(ws);
    ArrayVerdict(node, ws, hash, seeds);
  }

  lemma ArrayAccepted(node: Node, ws: seq<seq<u32>>, hash: Hash, seeds: nat -> u32)
    requires node.ArrayNode? && |ws| == |node.elems| && !ArrayOver(ws)
    requires forall i | 0 <= i < |ws| :: Enc(node.elems[i], ws[i], hash) && !Refused(node.elems[i], hash, seeds)
    ensures !Refused(node, hash, seeds)
  {
    hide Enc, ArrayOver, ElementsOver;
    ElementsAccepted(node.elems, ws, hash);
  }

  /** If one way to encode the elements fits, all do. */
  lemma ElementsAccepted(elems: seq<Node>, ws: seq<seq<u32>>, hash: Hash)
    requires |ws| == |elems| && !ArrayOver(ws) && forall i | 0 <= i < |ws| :: Enc(elems[i], ws[i], hash)
    ensures forall other: seq<seq<u32>> :: !ElementsOver(elems, other, hash)
  {
    hide Enc, ArrayOver;
    forall other: seq<seq<u32>> ensures !ElementsOver(elems, other, hash) {
      if |other| == |elems| && forall i | 0 <= i < |other| :: Enc(elems[i], other[i], hash) {
        SameLens(elems, ws, other, hash);
        SameArrayOver(ws, other);
      }
    }
  }

  lemma SameLens(elems: seq<Node>, x: seq<seq<u32>>, y: seq<seq<u32>>, hash: Hash)
    requires |x| == |y| == |elems| && forall i | 0 <= i < |x| :: Enc(elems[i], x[i], hash) && Enc(elems[i], y[i], hash)
    ensures Lens(x) == Lens(y)
  {
    hide Enc;
    forall i | 0 <= i < |x| ensures |x[i]| == |y[i]| { EncodingLength(elems[i], x[i], y[i], hash); }
  }

  lemma SameArrayOver(x: seq<seq<u32>>, y: seq<seq<u32>>)
    requires Lens(x) == Lens(y)
    ensures ArrayOver(x) <==> ArrayOver(y)
  {
    hide CellTotal, BestWidth;
    assert |x| == |Lens(x)| && |y| == |Lens(y)|;
  }

  lemma ArrayRefused(node: Node, ws: seq<seq<u32>>, hash: Hash, seeds: nat -> u32)
    requires node.ArrayNode? && |ws| == |node.elems| && ArrayOver(ws) && forall i | 0 <= i < |ws| ::
               Enc(node.elems[i], ws[i], hash)
    ensures ElementsOver(node.elems, ws, hash) && Refused(node, hash, seeds)
  {
    hide Enc, ArrayOver;
    assert ElementsOver(node.elems, ws, hash);
  }

  /** An array whose elements are accepted is refused exactly if its size is. */
  lemma ArrayVerdict(node: Node, ws: seq<seq<u32>>, hash: Hash, seeds: nat -> u32)
    requires node.ArrayNode? && |ws| == |node.elems| && NoneRefused(node.elems, hash, seeds)
    requires forall i | 0 <= i < |ws| :: Enc(node.elems[i], ws[i], hash)
    ensures Refused(node, hash, seeds) <==> ArrayOver(ws)
  {
    hide Enc, Refused, ArrayOver;
    if ArrayOver(ws) { ArrayRefused(node, ws, hash, seeds); } else { ArrayAccepted(node, ws, hash, seeds); }
  }

  lemma ElementRefused(node: Node, hash: Hash, seeds: nat -> u32)
    requires node.ArrayNode? && !NoneRefused(node.elems, hash, seeds)
    ensures Refused(node, hash, seeds)
  {
    hide ElementsOver;
  }

  /** What SerializeArray is handed: units that stand for `ws`, their segments in front of `before`. */
  ghost predicate ArrayReady(units: seq<Unit>, ws: seq<seq<u32>>, before: seq<u32>, now: seq<u32>) {
    && |before| <= |now| && Tiled(units, now, 0) && SegSum(units) == |now| - |before| && FitsBest(units)
    && |units| == |ws| && Denotes(units, now) == ws && SizesOf(units) == Lens(ws)
    && now[|now| - |before|..] == before && ArrayWords(ws) != []
    && (units == [] ==> now == before && |ArrayWords(ws)| == 1)
  }

  /** SerializeArray in the terms of the arena serializer. */
  method FinishArray(units: seq<Unit>, buf: Buffer, last: nat, ghost ws: seq<seq<u32>>, ghost before: seq<u32>)
        returns (ok: bool, unit: Unit)
    requires buf.Valid() && last == |before| && ArrayReady(units, ws, before, buf.Contents())
    modifies buf, buf.data
    ensures buf.Valid() && (buf.data == old(buf.data) || fresh(buf.data))
    ensures ok <==> !ArrayOver(ws)
    ensures ok ==> Written(unit, ArrayWords(ws), before, buf.Contents()) && Small(unit)
    ensures ok ==> (unit.Inline? <==> ws == [])
  {
    hide Tiled, SegSum, ArrayWords, CellTotal, BestWidth, Denotes, FitsBest, SizesOf, Written, Small;
    ok, unit := SerializeArray(units, buf, last);
    if !ok { return; }
    WrittenObject(unit, ArrayWords(ws), before, buf.Contents());
  }

  /** A kind whose cells are as wide as those of all elements. */
  lemma ElementsFormed(node: Node) returns (kind: Kind)
    requires node.ArrayNode? && Formed(node)
    ensures forall i | 0 <= i < |node.elems| :: Formed(node.elems[i]) && WideAs(kind, node.elems[i])
  {
    kind := if forall i | 0 <= i < |node.elems| :: TwoWords(node.elems[i]) then KU64 else KString;
    forall i | 0 <= i < |node.elems| ensures WideAs(kind, node.elems[i]) {
      assert Formed(node.elems[i]) && !node.elems[i].NoneNode?;
    }
  }

  lemma WrittenObject(unit: Unit, w: seq<u32>, before: seq<u32>, after: seq<u32>)
    requires w != []
    requires || (unit == Inline(w) && |w| == 1 && after == before)
             || (unit == Segment(|after|, |w|) && after == w + before)
    ensures Written(unit, w, before, after) && Small(unit)
  {
  }

  /** What the finished element loop hands to SerializeArray, and what becomes of it. */
  lemma ElementsReady(node: Node, kind: Kind, units: seq<Unit>, ws: seq<seq<u32>>, before: seq<u32>, now: seq<u32>,
                      hash: Hash)
    requires node.ArrayNode? && ElementsDone(kind, node.elems, 0, units, ws, before, now, hash)
    ensures ArrayReady(units, ws, before, now) && ArrayWords(ws) != []
    ensures !ArrayOver(ws) ==> Enc(node, ArrayWords(ws), hash)
    ensures |ws| == |node.elems| && forall i | 0 <= i < |ws| :: Enc(node.elems[i], ws[i], hash)
  {
    hide Enc, Tiled, ArrayWords, CellTotal, BestWidth, Denotes, FitsBest, SizesOf, KindUnit;
    KindFits(kind, units);
    SizesLength(units);
    BestBounds(SizesOf(units));
    CountBelowTotal(SizesOf(units), BestWidth(SizesOf(units)));
    ArrayNonEmpty(ws);
    if units == [] { NoElements(); }
    forall i | 0 <= i < |ws| ensures Enc(node.elems[i], ws[i], hash) {
      assert node.elems[0 + i] == node.elems[i];
    }
    if |ws| < 0x4000_0000 { ArrayEncoded(node, ws, hash); }
    LaidLens(units, ws, now, |before|);
  }

  lemma LaidLens(units: seq<Unit>, ws: seq<seq<u32>>, contents: seq<u32>, last: nat)
    requires Laid(units, ws, contents, last)
    ensures SizesOf(units) == Lens(ws)
  {
    hide Tiled, SegSum;
    UnitSizes(units, contents, 0);
  }

  lemma SizesLength(units: seq<Unit>)
    ensures |SizesOf(units)| == |units|
  {
  }

  lemma ArrayNonEmpty(ws: seq<seq<u32>>)
    ensures ArrayWords(ws) != []
  {
    hide Cells, Kept, BestWidth;
  }

  /** State of the field loop: the fields `i` and up are written. */
  ghost predicate FieldsDone(fields: seq<(nat, Node)>, i: nat, units: seq<Unit>, cs: seq<seq<u32>>, before: seq<u32>,
        now: seq<u32>, hash: Hash) {
    && Filled(fields, i, units, cs, now, |before|) && Grown(before, now)
    && (forall k | 0 <= k < |cs| :: Enc(fields[i + k].1, cs[k], hash))
  }

  lemma FieldsStart(fields: seq<(nat, Node)>, capacity: nat, before: seq<u32>, hash: Hash)
    ensures FieldsDone(fields, |fields|, Absents(capacity), [], before, before, hash)
  {
    hide Enc;
    FilledNothing(fields, capacity, before);
    GrownStart(before);
  }

  lemma FieldsStep(fields: seq<(nat, Node)>, i: nat, units: seq<Unit>, cs: seq<seq<u32>>, before: seq<u32>,
                   now: seq<u32>, hash: Hash,
                   unit: Unit, w: seq<u32>, after: seq<u32>)
    requires i < |fields| && FieldsDone(fields, i + 1, units, cs, before, now, hash) && DistinctIds(fields)
    requires fields[i].0 < |units|
    requires Enc(fields[i].1, w, hash) && Written(unit, w, now, after) && (w != [] ==> (unit.Inline? <==> |w| <= 3))
    ensures FieldsDone(fields, i, units[fields[i].0 := unit], [w] + cs, before, after, hash)
  {
    hide Enc, Filled, Grown, DistinctIds, Written;
    FilledCount(fields, i + 1, units, cs, now, |before|);
    FilledStep(fields, i, units, cs, now, |before|, unit, w, after);
    GrownWritten(unit, w, before, now, after);
    var cs' := [w] + cs;
    forall k | 0 <= k < |cs'| ensures Enc(fields[i + k].1, cs'[k], hash) {
      if k > 0 { assert cs'[k] == cs[k - 1] && fields[i + k] == fields[i + 1 + (k - 1)]; }
    }
  }

  lemma FilledCount(fields: seq<(nat, Node)>, i: nat, units: seq<Unit>, cs: seq<seq<u32>>, contents: seq<u32>,
                    last: nat)
    requires Filled(fields, i, units, cs, contents, last)
    ensures |cs| == |fields| - i
  {
  }

  /** The field loop of SerializeMessageNode, from the last listed field to the first. */
  method SerializeFields(node: Node, buf: Buffer, hash: Hash, seeds: nat -> u32)
    returns (ok: bool, units: seq<Unit>, ghost cs: seq<seq<u32>>)
    requires buf.Valid() && node.MessageNode? && DistinctIds(node.fields)
    requires forall k | 0 <= k < |node.fields| :: node.fields[k].0 < node.capacity && Formed(node.fields[k].1)
    modifies buf, buf.data
    ensures buf.Valid() && (buf.data == old(buf.data) || fresh(buf.data))
    ensures ok ==> |units| == node.capacity
    ensures ok ==> FieldsDone(node.fields, 0, units, cs, old(buf.Contents()), buf.Contents(), hash)
    ensures ok <==> forall k | 0 <= k < |node.fields| :: !Refused(node.fields[k].1, hash, seeds)
    decreases node, 1
  {
    hide Enc, FieldsDone, Written, Formed, KindUnit, DistinctIds, Refused;
    ghost var before := buf.Contents();
    var fields := node.fields;
    units, cs := Absents(node.capacity), [];
    FieldsStart(fields, node.capacity, before, hash);
    var i := |fields|;
    while i > 0
      invariant 0 <= i <= |fields| && buf.Valid() && (buf.data == old(buf.data) || fresh(buf.data))
      invariant |units| == node.capacity && FieldsDone(fields, i, units, cs, before, buf.Contents(), hash)
      invariant forall k | i <= k < |fields| :: !Refused(fields[k].1, hash, seeds)
    {
      i := i - 1;
      ghost var now := buf.Contents();
      var unit: Unit;
      ghost var w: seq<u32>;
      ok, unit, w := SerializeNode(fields[i].1, buf, hash, seeds);
      if !ok { return; }
      unit := FoldField(buf, unit, w, now);
      FieldsStep(fields, i, units, cs, before, now, hash, unit, w, buf.Contents());
      units, cs := units[fields[i].0 := unit], [w] + cs;
    }
    ok := true;
  }

  function Absents(n: nat): (r: seq<Unit>)
    ensures |r| == n && forall i | 0 <= i < n :: r[i] == Absent
  {
    seq(n, _ => Absent)
  }

  lemma FilledNothing(fields: seq<(nat, Node)>, capacity: nat, contents: seq<u32>)
    ensures Filled(fields, |fields|, Absents(capacity), [], contents, |contents|)
  {
  }

  lemma FilledUnits(fields: seq<(nat, Node)>, units: seq<Unit>, cs: seq<seq<u32>>, contents: seq<u32>, last: nat)
    requires Filled(fields, 0, units, cs, contents, last)
    ensures FieldUnits(units)
  {
    forall id | 0 <= id < |units| && units[id].Inline? ensures 1 <= |units[id].words| <= 3 {
      assert ListedFrom(fields, 0, id);
      var k :| 0 <= k < |fields| && fields[k].0 == id;
      assert InPlace(fields, 0, units, cs, contents, last, k);
    }
  }

  /** SerializeMessageNode. */
  method SerializeMessageNode(node: Node, buf: Buffer, hash: Hash, seeds: nat -> u32)
    returns (ok: bool, unit: Unit, ghost w: seq<u32>)
    requires buf.Valid() && node.MessageNode? && Formed(node)
    modifies buf, buf.data
    ensures buf.Valid() && (buf.data == old(buf.data) || fresh(buf.data))
    ensures ok ==> Enc(node, w, hash) && w != [] && Written(unit, w, old(buf.Contents()), buf.Contents()) && Small(unit)
    ensures ok <==> !Refused(node, hash, seeds)
    ensures ok ==> (unit.Inline? <==> StaysInline(node))
    decreases node, 2
  {
    hide Enc, FieldsDone, DistinctIds, MessageOver, Refused, Written;
    unit, w := Absent, [];
    if node.capacity == 0 || node.capacity > 12 + 25 * 255 {
      CapacityRefused(node, hash, seeds);
      return false, unit, [];
    }
    ok := CheckIds(node.fields, node.capacity);
    if !ok {
      CapacityRefused(node, hash, seeds);
      return;
    }
    ghost var before := buf.Contents();
    var last := buf.Size();
    var units: seq<Unit>;
    ghost var cs: seq<seq<u32>>;
    ok, units, cs := SerializeFields(node, buf, hash, seeds);
    if !ok {
      ghost var k :| 0 <= k < |node.fields| && Refused(node.fields[k].1, hash, seeds);
      FieldRefused(node, k, hash, seeds);
      return;
    }
    ghost var now := buf.Contents();
    ok, unit, w := FinishMessage(node, units, cs, before, hash, buf, last);
    if ok {
      MessageAccepted(node, units, cs, before, now, hash, seeds);
    } else {
      MessageRefused(node, units, cs, before, now, hash, seeds);
    }
  }

  /** SerializeMessage in the terms of the arena serializer. */
  method FinishMessage(ghost node: Node, units: seq<Unit>, ghost cs: seq<seq<u32>>, ghost before: seq<u32>,
                       ghost hash: Hash, buf: Buffer, last: nat) returns (ok: bool, unit: Unit, ghost w: seq<u32>)
    requires buf.Valid() && node.MessageNode? && DistinctIds(node.fields) && last == |before| && units != []
    requires FieldsDone(node.fields, 0, units, cs, before, buf.Contents(), hash)
    modifies buf, buf.data
    ensures buf.Valid() && (buf.data == old(buf.data) || fresh(buf.data))
    ensures ok <==> !MessageOver(units)
    ensures ok ==> Enc(node, w, hash) && w != [] && Written(unit, w, before, buf.Contents()) && Small(unit)
    ensures ok ==> unit.Segment?
  {
    hide Enc, FieldsDone, HeadOk, MessageFront, FieldTotal, DistinctIds, FieldUnits, Trim, FieldWidths, MessageWords;
    ghost var now := buf.Contents();
    FieldsReady(node, units, cs, before, now, hash);
    w := MessageWords(Trim(units), now, last);
    ok, unit := SerializeMessage(units, buf, last);
    if ok { WrittenObject(unit, w, before, buf.Contents()); }
  }

  /** Units that stand for field words of the same lengths have the same widths and sizes. */
  lemma FilledAlike(fields: seq<(nat, Node)>, x: seq<Unit>, cs: seq<seq<u32>>, a: seq<u32>, m: nat, y: seq<Unit>,
                    ds: seq<seq<u32>>, b: seq<u32>, n: nat, id: nat)
    requires Filled(fields, 0, x, cs, a, m) && Filled(fields, 0, y, ds, b, n) && forall k | 0 <= k < |fields| ::
               |cs[k]| == |ds[k]|
    requires id < |x|
    ensures if id < |y| then x[id].Size() == y[id].Size() && FieldWidth(x[id]) == FieldWidth(y[id])
            else x[id].Size() == 0
  {
    hide OutTotal, Denote;
    if ListedFrom(fields, 0, id) {
      var k :| 0 <= k < |fields| && fields[k].0 == id;
      assert InPlace(fields, 0, x, cs, a, m, k) && InPlace(fields, 0, y, ds, b, n, k);
    } else {
      assert x[id] == Absent;
      assert id < |y| ==> y[id] == Absent;
    }
  }

  lemma {:induction false} SameTotals(x: seq<Unit>, y: seq<Unit>)
    requires |x| == |y| && forall i | 0 <= i < |x| :: x[i].Size() == y[i].Size()
    ensures FieldTotal(x) == FieldTotal(y)
  {
    if x != [] { SameTotals(x[1..], y[1..]); }
  }

  /** Whether the limits of SerializeMessage are exceeded depends only on the lengths of the field words. */
  lemma SameMessageOver(fields: seq<(nat, Node)>, x: seq<Unit>, cs: seq<seq<u32>>, a: seq<u32>, m: nat, y: seq<Unit>,
                        ds: seq<seq<u32>>, b: seq<u32>, n: nat)
    requires Filled(fields, 0, x, cs, a, m) && Filled(fields, 0, y, ds, b, n) && forall k | 0 <= k < |fields| ::
               |cs[k]| == |ds[k]|
    ensures MessageOver(x) <==> MessageOver(y)
  {
    hide Filled, HeadOk, FieldTotal;
    var u, v := Trim(x), Trim(y);
    forall id | 0 <= id < |x|
      ensures if id < |y| then x[id].Size() == y[id].Size() && FieldWidth(x[id]) == FieldWidth(y[id])
              else x[id].Size() == 0
    {
      FilledAlike(fields, x, cs, a, m, y, ds, b, n, id);
    }
    forall id | 0 <= id < |y| ensures if id < |x| then x[id].Size() == y[id].Size() else y[id].Size() == 0 {
      FilledAlike(fields, y, ds, b, n, x, cs, a, m, id);
    }
    TrimmedAlike(x, y);
    SameTotals(u, v);
    assert FieldWidths(u) == FieldWidths(v);
  }

  lemma TrimmedAlike(x: seq<Unit>, y: seq<Unit>)
    requires forall id | 0 <= id < |x| :: if id < |y| then x[id].Size() == y[id].Size() else x[id].Size() == 0
    requires forall id | 0 <= id < |y| :: if id < |x| then x[id].Size() == y[id].Size() else y[id].Size() == 0
    ensures |Trim(x)| == |Trim(y)|
  {
    var u, v := Trim(x), Trim(y);
    if u != [] { assert x[|u| - 1].Size() > 0; }
    if v != [] { assert y[|v| - 1].Size() > 0; }
  }

  lemma MessageAccepted(node: Node, units: seq<Unit>, cs: seq<seq<u32>>, before: seq<u32>, now: seq<u32>, hash: Hash,
                        seeds: nat -> u32)
    requires node.MessageNode? && 0 < node.capacity <= 12 + 25 * 255 && IdsOk(node)
    requires FieldsDone(node.fields, 0, units, cs, before, now, hash) && !MessageOver(units)
    requires forall k | 0 <= k < |node.fields| :: !Refused(node.fields[k].1, hash, seeds)
    ensures !Refused(node, hash, seeds)
  {
    hide Enc, MessageOver, IdsOk, FieldsDone, FieldsOver;
    FieldsAccepted(node.fields, units, cs, before, now, hash);
  }

  /** If one way to encode the fields fits, all do. */
  lemma FieldsAccepted(fields: seq<(nat, Node)>, units: seq<Unit>, cs: seq<seq<u32>>, before: seq<u32>, now: seq<u32>,
                       hash: Hash)
    requires FieldsDone(fields, 0, units, cs, before, now, hash) && !MessageOver(units)
    ensures forall us: seq<Unit>, ds: seq<seq<u32>>, other: seq<u32>, last: nat ::
              !FieldsOver(fields, us, ds, other, last, hash)
  {
    hide Enc, MessageOver, Filled, Grown;
    FilledCount(fields, 0, units, cs, now, |before|);
    forall us: seq<Unit>, ds: seq<seq<u32>>, other: seq<u32>, last: nat
      ensures !FieldsOver(fields, us, ds, other, last, hash)
    {
      if Filled(fields, 0, us, ds, other, last) {
        FilledCount(fields, 0, us, ds, other, last);
        if forall k | 0 <= k < |fields| :: Enc(fields[k].1, ds[k], hash) {
          forall k | 0 <= k < |fields| ensures |cs[k]| == |ds[k]| {
            assert fields[0 + k] == fields[k];
            EncodingLength(fields[k].1, cs[k], ds[k], hash);
          }
          SameMessageOver(fields, units, cs, now, |before|, us, ds, other, last);
        }
      }
    }
  }

  lemma CapacityRefused(node: Node, hash: Hash, seeds: nat -> u32)
    requires node.MessageNode? && (node.capacity == 0 || node.capacity > 12 + 25 * 255 || !IdsOk(node))
    ensures Refused(node, hash, seeds)
  {
    hide FieldsOver, IdsOk;
  }

  lemma FieldRefused(node: Node, k: nat, hash: Hash, seeds: nat -> u32)
    requires node.MessageNode? && k < |node.fields| && Refused(node.fields[k].1, hash, seeds)
    ensures Refused(node, hash, seeds)
  {
    hide FieldsOver, IdsOk;
  }

  lemma MessageRefused(node: Node, units: seq<Unit>, cs: seq<seq<u32>>, before: seq<u32>, now: seq<u32>, hash: Hash,
                       seeds: nat -> u32)
    requires node.MessageNode? && FieldsDone(node.fields, 0, units, cs, before, now, hash) && MessageOver(units)
    ensures FieldsOver(node.fields, units, cs, now, |before|, hash) && Refused(node, hash, seeds)
  {
    hide Enc, MessageOver, IdsOk, Held;
    FilledCount(node.fields, 0, units, cs, now, |before|);
    forall k | 0 <= k < |node.fields| ensures Enc(node.fields[k].1, cs[k], hash) {
      assert node.fields[0 + k] == node.fields[k];
    }
    assert FieldsOver(node.fields, units, cs, now, |before|, hash);
  }

  /** What the finished field loop hands to SerializeMessage, and what becomes of it. */
  lemma FieldsReady(node: Node, units: seq<Unit>, cs: seq<seq<u32>>, before: seq<u32>, now: seq<u32>, hash: Hash)
    requires node.MessageNode? && DistinctIds(node.fields) && FieldsDone(node.fields, 0, units, cs, before, now, hash)
    ensures FieldUnits(units) && |before| <= |now|
    ensures var w := MessageWords(Trim(units), now, |before|);
            && MessageFront(Trim(units), |now|) + now == w + before
            && (HeadOk(FieldWidths(Trim(units))) ==> w != [] && Enc(node, w, hash))
  {
    hide Enc, HeadOk, MessageFront, DistinctIds, FieldUnits, Trim, FieldWidths, Held;
    FilledUnits(node.fields, units, cs, now, |before|);
    assert now == now[..|now| - |before|] + before;
    var w := MessageWords(Trim(units), now, |before|);
    assert MessageFront(Trim(units), |now|) + now == w + before;
    if HeadOk(FieldWidths(Trim(units))) {
      forall k | 0 <= k < |node.fields| ensures Enc(node.fields[k].1, cs[k], hash) {
        assert node.fields[0 + k] == node.fields[k];
      }
      MessageAssembled(node, units, cs, now, |before|, hash);
    }
  }

  /** State of the entry loop: the slots `s` and up are written. */
  ghost predicate EntriesDone(node: Node, order: seq<nat>, s: nat, pairs: seq<(Unit, Unit)>, ks: seq<seq<u32>>,
        vs: seq<seq<u32>>, before: seq<u32>, now: seq<u32>, hash: Hash)
    requires node.MapNode?
  {
    && PairsLaid(pairs, ks, vs, now, |before|) && Grown(before, now)
    && s <= |order| && |pairs| == |ks| == |vs| == |order| - s
    && (forall k | 0 <= k < |order| :: order[k] < |node.entries|)
    && (forall k | 0 <= k < |ks| ::
          Enc(node.entries[order[s + k]].0, ks[k], hash) && Enc(node.entries[order[s + k]].1, vs[k], hash))
    && (forall k | 0 <= k < |pairs| :: KindUnit(node.keyKind, pairs[k].0) && KindUnit(node.valueKind, pairs[k].1))
  }

  lemma EntriesStart(node: Node, order: seq<nat>, before: seq<u32>, hash: Hash)
    requires node.MapNode? && forall k | 0 <= k < |order| :: order[k] < |node.entries|
    ensures EntriesDone(node, order, |order|, [], [], [], before, before, hash)
  {
    hide Enc, PairsLaid, KindUnit;
    PairsNothing(before);
    GrownStart(before);
  }

  lemma EntriesStep(node: Node, order: seq<nat>, s: nat, pairs: seq<(Unit, Unit)>, ks: seq<seq<u32>>, vs: seq<seq<u32>>,
        before: seq<u32>, now: seq<u32>, hash: Hash,
                    value: Unit, vw: seq<u32>, middle: seq<u32>, key: Unit, kw: seq<u32>, after: seq<u32>)
    requires node.MapNode? && s < |order| && EntriesDone(node, order, s + 1, pairs, ks, vs, before, now, hash)
    requires vw != [] && Written(value, vw, now, middle) && KindUnit(node.valueKind, value)
    requires Enc(node.entries[order[s]].1, vw, hash)
    requires kw != [] && Written(key, kw, middle, after) && KindUnit(node.keyKind, key)
    requires Enc(node.entries[order[s]].0, kw, hash)
    ensures EntriesDone(node, order, s, [(key, value)] + pairs, [kw] + ks, [vw] + vs, before, after, hash)
  {
    hide Enc, PairsLaid, Written, Grown, KindUnit;
    PairsPush(pairs, ks, vs, now, |before|, value, vw, middle, key, kw, after);
    GrownWritten(value, vw, before, now, middle);
    GrownWritten(key, kw, before, middle, after);
    var ks', vs' := [kw] + ks, [vw] + vs;
    forall k | 0 <= k < |ks'|
      ensures Enc(node.entries[order[s + k]].0, ks'[k], hash) && Enc(node.entries[order[s + k]].1, vs'[k], hash)
    {
      if k > 0 { assert ks'[k] == ks[k - 1] && vs'[k] == vs[k - 1] && order[s + k] == order[s + 1 + (k - 1)]; }
    }
  }

  /** The entry loop of SerializeMapNode, from the last slot to the first, value before key. */
  method SerializeEntries(node: Node, order: seq<nat>, buf: Buffer, hash: Hash, seeds: nat -> u32)
    returns (ok: bool, pairs: seq<(Unit, Unit)>, ghost ks: seq<seq<u32>>, ghost vs: seq<seq<u32>>)
    requires buf.Valid() && node.MapNode? && EntriesOk(node) && Formed(node)
    requires forall s | 0 <= s < |order| :: order[s] < |node.entries|
    modifies buf, buf.data
    ensures buf.Valid() && (buf.data == old(buf.data) || fresh(buf.data))
    ensures ok ==> EntriesDone(node, order, 0, pairs, ks, vs, old(buf.Contents()), buf.Contents(), hash)
    ensures !ok ==> exists i :: 0 <= i < |node.entries|
                                && (Refused(node.entries[i].0, hash, seeds) || Refused(node.entries[i].1, hash, seeds))
    ensures ok ==> forall s | 0 <= s < |order| ::
              !Refused(node.entries[order[s]].0, hash, seeds) && !Refused(node.entries[order[s]].1, hash, seeds)
    decreases node, 1
  {
    hide Enc, EntriesDone, Written, KindUnit, Refused;
    ghost var before := buf.Contents();
    pairs, ks, vs := [], [], [];
    EntriesStart(node, order, before, hash);
    var s := |order|;
    while s > 0
      invariant 0 <= s <= |order| && buf.Valid() && (buf.data == old(buf.data) || fresh(buf.data))
      invariant EntriesDone(node, order, s, pairs, ks, vs, before, buf.Contents(), hash)
      invariant forall k | s <= k < |order| ::
                  !Refused(node.entries[order[k]].0, hash, seeds) && !Refused(node.entries[order[k]].1, hash, seeds)
    {
      s := s - 1;
      ghost var now := buf.Contents();
      var key: Unit, value: Unit;
      ghost var kw: seq<u32>, vw: seq<u32>;
      var entry := node.entries[order[s]];
      ok, value, vw := SerializeNode(entry.1, buf, hash, seeds);
      if !ok { return; }
      ghost var middle := buf.Contents();
      ok, key, kw := SerializeNode(entry.0, buf, hash, seeds);
      if !ok { return; }
      EntriesStep(node, order, s, pairs, ks, vs, before, now, hash, value, vw, middle, key, kw, buf.Contents());
      pairs, ks, vs := [(key, value)] + pairs, [kw] + ks, [vw] + vs;
    }
    ok := true;
  }

  /** SerializeMapNode. */
  method SerializeMapNode(node: Node, buf: Buffer, hash: Hash, seeds: nat -> u32)
    returns (ok: bool, unit: Unit, ghost w: seq<u32>)
    requires buf.Valid() && node.MapNode? && Formed(node)
    modifies buf, buf.data
    ensures buf.Valid() && (buf.data == old(buf.data) || fresh(buf.data))
    ensures ok ==> Enc(node, w, hash) && w != [] && Written(unit, w, old(buf.Contents()), buf.Contents()) && Small(unit)
    ensures ok <==> !Refused(node, hash, seeds)
    ensures ok ==> (unit.Inline? <==> StaysInline(node))
    decreases node, 2
  {
    hide Enc, Perfect, Numbered, MapWords, HasTwins, SomeSeed, Tiled, SegSum, BestWidth, CellTotal, SizesOf, Interleave,
          FitsBest, KindUnit, EntriesDone, Grown, Locate, Written, Small, Refused, MapOver, EntriesOver, MapReady;
    unit, w := Absent, [];
    if !EntriesOk(node) {
      EntriesRefused(node, hash, seeds);
      return false, unit, [];
    }
    if node.entries == [] {
      EmptyMapEncoded(node, hash);
      WrittenObject(Inline(EmptyMap), EmptyMap, buf.Contents(), buf.Contents());
      EmptyMapAccepted(node, hash, seeds);
      return true, Inline(EmptyMap), EmptyMap;
    }
    var keys := KeysOf(node.entries);
    var index := Build(keys, hash, seeds, true);
    if index.None? {
      EntriesRefused(node, hash, seeds);
      return false, unit, [];
    }
    PerfectNumbers(index.value, hash, keys);
    var order: seq<nat>;
    ok, order := SlotOrder(index.value, hash, keys);
    if !ok { return; }
    ghost var before := buf.Contents();
    var last := buf.Size();
    var pairs: seq<(Unit, Unit)>;
    ghost var ks: seq<seq<u32>>, vs: seq<seq<u32>>;
    ok, pairs, ks, vs := SerializeEntries(node, order, buf, hash, seeds);
    if !ok {
      ghost var i :| 0 <= i < |node.entries|
                && (Refused(node.entries[i].0, hash, seeds) || Refused(node.entries[i].1, hash, seeds));
      EntryRefused(node, i, hash, seeds);
      return;
    }
    EntriesReady(node, MapPlan(index.value, order, ks, vs), pairs, before, buf.Contents(), hash);
    ok, unit := FinishMap(index.value, pairs, buf, last, ks, vs, before);
    w := MapWords(index.value, ks, vs);
    ghost var plan := MapPlan(index.value, order, ks, vs);
    if ok {
      EveryEntry(node, order, index.value, hash, seeds);
      MapAccepted(node, plan, hash, seeds);
    } else {
      MapRefused(node, plan, hash, seeds);
    }
  }

  lemma EmptyMapAccepted(node: Node, hash: Hash, seeds: nat -> u32)
    requires node.MapNode? && node.entries == []
    ensures !Refused(node, hash, seeds)
  {
    hide EntriesOver;
    NoEntriesAccepted(node.entries, hash);
  }

  lemma NoEntriesAccepted(entries: seq<(Node, Node)>, hash: Hash)
    requires entries == []
    ensures forall plan: MapPlan :: !EntriesOver(entries, plan, hash)
  {
    hide Perfect, Enc;
    forall plan: MapPlan ensures !EntriesOver(entries, plan, hash) {
      if Perfect(plan.index, hash, KeysOf(entries)) && PlanEncodes(entries, plan, hash) {
        PerfectSize(plan.index, hash, KeysOf(entries));
      }
    }
  }

  lemma PerfectSize(index: seq<byte>, hash: Hash, keys: seq<Option<Key>>)
    requires Perfect(index, hash, keys)
    ensures |index| == IndexBytes(|keys|) && (|keys| == 0 ==> |index| == 4)
  {
    hide Locate;
  }

  /** Whatever holds at every slot holds of every entry. */
  lemma EveryEntry(node: Node, order: seq<nat>, index: seq<byte>, hash: Hash, seeds: nat -> u32)
    requires node.MapNode? && Ordered(index, hash, KeysOf(node.entries), order)
    requires forall s | 0 <= s < |order| ::
               order[s] < |node.entries| && !Refused(node.entries[order[s]].0, hash, seeds)
                   && !Refused(node.entries[order[s]].1, hash, seeds)
    ensures forall i | 0 <= i < |node.entries| ::
              !Refused(node.entries[i].0, hash, seeds) && !Refused(node.entries[i].1, hash, seeds)
  {
    hide Refused, Numbered, Locate;
    forall i | 0 <= i < |node.entries|
      ensures !Refused(node.entries[i].0, hash, seeds) && !Refused(node.entries[i].1, hash, seeds)
    {
      assert i in order;
      var s :| 0 <= s < |order| && order[s] == i;
      assert !Refused(node.entries[order[s]].0, hash, seeds) && !Refused(node.entries[order[s]].1, hash, seeds);
    }
  }

  /** The size of a map does not depend on the index it got. */
  lemma SameMapOver(node: Node, x: MapPlan, y: MapPlan, hash: Hash)
    requires node.MapNode? && Perfect(x.index, hash, KeysOf(node.entries))
    requires Perfect(y.index, hash, KeysOf(node.entries))
    requires PlanEncodes(node.entries, x, hash) && PlanEncodes(node.entries, y, hash)
    ensures MapOver(x) <==> MapOver(y)
  {
    hide Perfect, PlanEncodes, IndexBytes, BestWidth, CellTotal, SameColumn;
    PerfectSize(x.index, hash, KeysOf(node.entries));
    PerfectSize(y.index, hash, KeysOf(node.entries));
    PlansAgree(node, x, y, hash);
    ColumnWidths(x.order, x.ks, y.order, y.ks);
    ColumnWidths(x.order, x.vs, y.order, y.vs);
  }

  lemma MapAccepted(node: Node, plan: MapPlan, hash: Hash, seeds: nat -> u32)
    requires node.MapNode? && EntriesOk(node) && !BuildFails(KeysOf(node.entries), hash, seeds)
    requires forall i | 0 <= i < |node.entries| ::
               !Refused(node.entries[i].0, hash, seeds) && !Refused(node.entries[i].1, hash, seeds)
    requires Perfect(plan.index, hash, KeysOf(node.entries)) && PlanEncodes(node.entries, plan, hash) && !MapOver(plan)
    ensures !Refused(node, hash, seeds)
  {
    hide Perfect, PlanEncodes, MapOver, EntriesOk, BuildFails, EntriesOver;
    EntriesAccepted(node, plan, hash);
  }

  /** If one way to slot and encode the entries fits, all do. */
  lemma EntriesAccepted(node: Node, plan: MapPlan, hash: Hash)
    requires node.MapNode? && Perfect(plan.index, hash, KeysOf(node.entries))
    requires PlanEncodes(node.entries, plan, hash) && !MapOver(plan)
    ensures forall other: MapPlan :: !EntriesOver(node.entries, other, hash)
  {
    hide Perfect, PlanEncodes, MapOver;
    forall other: MapPlan ensures !EntriesOver(node.entries, other, hash) {
      if Perfect(other.index, hash, KeysOf(node.entries)) && PlanEncodes(node.entries, other, hash) {
        SameMapOver(node, plan, other, hash);
      }
    }
  }

  lemma EntriesRefused(node: Node, hash: Hash, seeds: nat -> u32)
    requires node.MapNode? && (!EntriesOk(node) || BuildFails(KeysOf(node.entries), hash, seeds))
    ensures Refused(node, hash, seeds)
  {
    hide EntriesOver, BuildFails;
  }

  lemma EntryRefused(node: Node, i: nat, hash: Hash, seeds: nat -> u32)
    requires node.MapNode? && i < |node.entries|
    requires (Refused(node.entries[i].0, hash, seeds) || Refused(node.entries[i].1, hash, seeds))
    ensures Refused(node, hash, seeds)
  {
    hide EntriesOver, BuildFails, EntriesOk;
  }

  lemma MapRefused(node: Node, plan: MapPlan, hash: Hash, seeds: nat -> u32)
    requires node.MapNode? && Perfect(plan.index, hash, KeysOf(node.entries))
    requires PlanEncodes(node.entries, plan, hash) && MapOver(plan)
    ensures EntriesOver(node.entries, plan, hash) && Refused(node, hash, seeds)
  {
    hide Perfect, PlanEncodes, MapOver, BuildFails, EntriesOk;
    assert EntriesOver(node.entries, plan, hash);
  }

  /** What SerializeMap is handed: units that stand for keys and values, their segments in front of `before`. */
  ghost predicate MapReady(index: seq<byte>, pairs: seq<(Unit, Unit)>, ks: seq<seq<u32>>, vs: seq<seq<u32>>,
                           before: seq<u32>, now: seq<u32>) {
    && |before| <= |now| && now[|now| - |before|..] == before && pairs != []
    && Tiled(Interleave(Firsts(pairs), Seconds(pairs)), now, 0)
    && SegSum(Interleave(Firsts(pairs), Seconds(pairs))) == |now| - |before|
    && FitsBest(Firsts(pairs)) && FitsBest(Seconds(pairs))
    && Denotes(Firsts(pairs), now) == ks && Denotes(Seconds(pairs), now) == vs
    && |index| > 0 && WordAt(index, 0) < 0x1000_0000 && |ks| == |vs| && MapWords(index, ks, vs) != []
  }

  /** SerializeMap in the terms of the arena serializer. */
  method FinishMap(index: seq<byte>, pairs: seq<(Unit, Unit)>, buf: Buffer, last: nat, ghost ks: seq<seq<u32>>,
        ghost vs: seq<seq<u32>>, ghost before: seq<u32>)
    returns (ok: bool, unit: Unit)
    requires buf.Valid() && last == |before| && MapReady(index, pairs, ks, vs, before, buf.Contents())
    modifies buf, buf.data
    ensures buf.Valid() && (buf.data == old(buf.data) || fresh(buf.data))
    ensures ok ==> Written(unit, MapWords(index, ks, vs), before, buf.Contents()) && Small(unit)
    ensures forall order: seq<nat> :: ok <==> !MapOver(MapPlan(index, order, ks, vs))
    ensures ok ==> unit.Segment?
  {
    hide Tiled, SegSum, MapWords, CellTotal, BestWidth, FitsBest, SizesOf, Interleave, Denotes, Written, Small;
    PairSizes(pairs, buf.Contents());
    ok, unit := SerializeMap(index, pairs, buf, last);
    if !ok { return; }
    WrittenObject(unit, MapWords(index, ks, vs), before, buf.Contents());
  }

  /** What the finished entry loop hands to SerializeMap, and what becomes of it. */
  lemma EntriesReady(node: Node, plan: MapPlan, pairs: seq<(Unit, Unit)>, before: seq<u32>, now: seq<u32>, hash: Hash)
    requires node.MapNode? && node.entries != [] && |plan.order| == |node.entries|
    requires EntriesDone(node, plan.order, 0, pairs, plan.ks, plan.vs, before, now, hash)
    requires Perfect(plan.index, hash, KeysOf(node.entries))
    requires Ordered(plan.index, hash, KeysOf(node.entries), plan.order)
    ensures MapReady(plan.index, pairs, plan.ks, plan.vs, before, now)
    ensures |plan.index| > 0 && WordAt(plan.index, 0) < 0x1000_0000 && |plan.ks| == |plan.vs|
    ensures Enc(node, MapWords(plan.index, plan.ks, plan.vs), hash) && MapWords(plan.index, plan.ks, plan.vs) != []
    ensures PlanEncodes(node.entries, plan, hash)
  {
    hide MapOver, Enc, Perfect, Ordered, MapWords, Tiled, SegSum, Interleave, FitsBest, KindUnit, PairsLaid, Denotes;
    PairsReady(pairs, plan.ks, plan.vs, now, |before|, node.keyKind, node.valueKind);
    forall s | 0 <= s < |plan.order|
      ensures Enc(node.entries[plan.order[s]].0, plan.ks[s], hash)
      ensures Enc(node.entries[plan.order[s]].1, plan.vs[s], hash)
    {
      assert plan.order[0 + s] == plan.order[s];
    }
    MapEncoded(node, plan, hash);
    OrderedPermutes(plan.index, hash, KeysOf(node.entries), plan.order);
  }

  lemma OrderedPermutes(index: seq<byte>, hash: Hash, keys: seq<Option<Key>>, order: seq<nat>)
    requires Ordered(index, hash, keys, order)
    ensures Permutation(order, |keys|)
  {
    hide Numbered, Locate;
    forall s, t | 0 <= s < t < |keys| ensures order[s] != order[t] {
      LocatedOnce(index, hash, keys, order, s, t);
    }
  }

  lemma LocatedOnce(index: seq<byte>, hash: Hash, keys: seq<Option<Key>>, order: seq<nat>, s: nat, t: nat)
    requires Ordered(index, hash, keys, order) && s < t < |keys|
    ensures order[s] != order[t]
  {
    hide Locate, Permutes, IndexBytes;
  }

  lemma EmptyMapEncoded(node: Node, hash: Hash)
    requires node.MapNode? && node.entries == []
    ensures Enc(node, EmptyMap, hash)
  {
  }

  lemma PairsReady(pairs: seq<(Unit, Unit)>, ks: seq<seq<u32>>, vs: seq<seq<u32>>, contents: seq<u32>, last: nat,
        keyKind: Kind, valueKind: Kind)
    requires PairsLaid(pairs, ks, vs, contents, last)
    requires forall s | 0 <= s < |pairs| :: KindUnit(keyKind, pairs[s].0) && KindUnit(valueKind, pairs[s].1)
    ensures last <= |contents|
    ensures Tiled(Interleave(Firsts(pairs), Seconds(pairs)), contents, 0)
    ensures SegSum(Interleave(Firsts(pairs), Seconds(pairs))) == |contents| - last
    ensures FitsBest(Firsts(pairs)) && FitsBest(Seconds(pairs))
    ensures Denotes(Firsts(pairs), contents) == ks && Denotes(Seconds(pairs), contents) == vs
  {
    hide Tiled, SegSum, Interleave, Denotes, FitsBest, KindUnit;
    PairsDenote(pairs, ks, vs, contents, last);
    KindFits(keyKind, Firsts(pairs));
    KindFits(valueKind, Seconds(pairs));
  }

  lemma MapEncoded(node: Node, plan: MapPlan, hash: Hash)
    requires node.MapNode? && node.entries != [] && |plan.order| == |plan.ks| == |plan.vs| == |node.entries|
    requires Perfect(plan.index, hash, KeysOf(node.entries))
    requires Ordered(plan.index, hash, KeysOf(node.entries), plan.order)
    requires forall s | 0 <= s < |plan.order| :: plan.order[s] < |node.entries| && Enc(node.entries[plan.order[s]].0,
          plan.ks[s], hash) && Enc(node.entries[plan.order[s]].1, plan.vs[s], hash)
    ensures |plan.index| > 0 && WordAt(plan.index, 0) < 0x1000_0000
    ensures Enc(node, MapWords(plan.index, plan.ks, plan.vs), hash) && MapWords(plan.index, plan.ks, plan.vs) != []
  {
    hide Enc, Perfect, MapWords, Ordered, Slotted;
    IndexHead(plan.index, hash, KeysOf(node.entries));
    MapNonEmpty(plan.index, plan.ks, plan.vs);
    var w := MapWords(plan.index, plan.ks, plan.vs);
    OrderedSlots(node.entries, plan, hash);
    assert EncMap(node, plan, w, hash);
    MapAssembledEnc(node, plan, w, hash);
  }

  lemma OrderedSlots(entries: seq<(Node, Node)>, plan: MapPlan, hash: Hash)
    requires Perfect(plan.index, hash, KeysOf(entries)) && Ordered(plan.index, hash, KeysOf(entries), plan.order)
    requires |plan.order| == |plan.ks| == |plan.vs| == |entries|
    ensures Slotted(entries, plan, hash)
  {
    hide Perfect, Locate, IndexBytes, RealSize, Permutes;
  }

  lemma MapNonEmpty(index: seq<byte>, ks: seq<seq<u32>>, vs: seq<seq<u32>>)
    requires |ks| == |vs| && |index| > 0 && WordAt(index, 0) < 0x1000_0000
    ensures MapWords(index, ks, vs) != []
  {
    hide Cells, Kept, BestWidth, MapItems;
    BestBounds(Lens(ks));
    BestBounds(Lens(vs));
  }

  /** SerializeNode: on success the words produced encode the tree. */
  method SerializeNode(node: Node, buf: Buffer, hash: Hash, seeds: nat -> u32)
    returns (ok: bool, unit: Unit, ghost w: seq<u32>)
    requires buf.Valid() && Formed(node)
    modifies buf, buf.data
    ensures buf.Valid() && (buf.data == old(buf.data) || fresh(buf.data))
    ensures ok ==> Enc(node, w, hash) && Written(unit, w, old(buf.Contents()), buf.Contents())
    ensures ok ==> (w == [] <==> node.NoneNode?)
    ensures ok && NodeKind(node).Some? ==> KindUnit(NodeKind(node).value, unit)
    ensures ok <==> !Refused(node, hash, seeds)
    ensures ok ==> (unit.Inline? <==> StaysInline(node))
    decreases node, 3
  {
    hide EncArray, EncMap, EncMessage, StringWords, ScalarsWords, ElementsOver, EntriesOver, FieldsOver;
    match node
    case NoneNode =>
      return true, Absent, [];
    case ScalarNode(kind, words) =>
      w := ScalarWords(kind, words);
      return true, Inline(ScalarWords(kind, words)), w;
    case BytesNode(kind, bytes) =>
      ok, unit, w := SerializeBytes(bytes, buf);
    case BoolsNode(flags) =>
      ok, unit, w := SerializeBytes(flags, buf);
    case ScalarsNode(kind, items) =>
      unit, w := SerializeScalars(kind, items, buf);
      ok := true;
    case ArrayNode(_, _) =>
      ok, unit, w := SerializeArrayNode(node, buf, hash, seeds);
    case MapNode(_, _, _) =>
      ok, unit, w := SerializeMapNode(node, buf, hash, seeds);
    case MessageNode(_, _) =>
      ok, unit, w := SerializeMessageNode(node, buf, hash, seeds);
  }

  /** pc_arena_serialize: the whole output is the encoding of the root, in fewer than 2^30 words. */
  method SerializeArena(root: Node, kind: Kind, hash: Hash, seeds: nat -> u32) returns (r: Option<seq<u32>>)
    requires Formed(root) && IsComplex(kind)
    ensures r.Some? ==> NodeKind(root) == Some(kind) && Enc(root, r.value, hash) && 0 < |r.value| < 0x4000_0000
    ensures r.None? <==> NodeKind(root) != Some(kind) || Refused(root, hash, seeds) || exists w ::
              Enc(root, w, hash) && |w| >= TooLong
  {
    hide Enc, Formed, Refused;
    if NodeKind(root) != Some(kind) { return None; }
    var buf := new Buffer();
    var ok, unit, w := SerializeNode(root, buf, hash, seeds);
    if !ok { return None; }
    assert w + [] == w;
    if unit.Inline? {
      if buf.Size() != 0 { return None; }
      buf.PutAll(unit.words);
    }
    var view := buf.data[buf.off..];
    assert view == w;
    if |view| > 0x3fff_ffff { return None; }
    forall other | Enc(root, other, hash) ensures |other| < TooLong {
      EncodingLength(root, w, other, hash);
    }
    return Some(view);
  }
}
