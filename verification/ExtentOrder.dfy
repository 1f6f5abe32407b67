/**
 What Detect does with a message whose fields were listed out of order: it
 stops at the field with the largest id and loses those written behind it.
 */
module ExtentOrder {
  import opened Words
  import opened Swar
  import opened Units
  import opened Strings
  import opened Messages
  import opened Schema
  import opened HashGraph
  import opened Arena
  import opened ArenaWriter
  import opened Decode
  import opened Meaning
  import opened Detector
  import opened Extents
  import opened ExtentTrip

  const TwoStrings: Types := [MessageType([FieldPlan(0, KString, 0), FieldPlan(1, KString, 0)], [0, 1])]

  /** Two string fields, field 1 listed before field 0. */
  function Swapped(a: seq<byte>, b: seq<byte>): Node {
    MessageNode(2, [(1, BytesNode(KString, a)), (0, BytesNode(KString, b))])
  }

  /** A string that does not fit a cell. */
  predicate LongString(s: seq<byte>) { |s| < 0x4000_0000 && |StringWords(s)| > 3 }

  lemma SwappedTyped(a: seq<byte>, b: seq<byte>)
    ensures Formed(Swapped(a, b)) && Typed(TwoStrings, KMessage, 0, Swapped(a, b))
    ensures FieldIndex(Swapped(a, b).fields, 0, 0) == 1 && FieldIndex(Swapped(a, b).fields, 1, 0) == 0
  {
    var fields := Swapped(a, b).fields;
    assert FieldIndex(fields, 0, 1) == 1;
  }

  /** Every such message is encoded by some words. */
  lemma SwappedEncoded(a: seq<byte>, b: seq<byte>, hash: Hash) returns (c: seq<u32>)
    requires LongString(a) && LongString(b)
    ensures Enc(Swapped(a, b), c, hash)
  {
    hide StringWords, Filled, Grown, Trim;
    var node, x, y := Swapped(a, b), StringWords(a), StringWords(b);
    var fields := node.fields;
    FieldsStart(fields, 2, [], hash);
    var u: Unit, v: Unit := Segment(|y|, |y|), Segment(|x + y|, |x|);
    assert y + [] == y && [y] + [] == [y];
    FieldsStep(fields, 1, Absents(2), [], [], [], hash, u, y, y);
    FieldsStep(fields, 0, Absents(2)[0 := u], [y], [], y, hash, v, x, x + y);
    var units, cs := Absents(2)[0 := u][1 := v], [x] + [y];
    assert units == [u, v];
    FieldsReady(node, units, cs, [], x + y, hash);
    TwoWidths(units);
    c := MessageWords(Trim(units), x + y, 0);
  }

  lemma TwoWidths(units: seq<Unit>)
    requires |units| == 2 && units[0].Segment? && units[1].Segment? && units[1].len > 0
    ensures HeadOk(FieldWidths(Trim(units)))
  {
    assert Trim(units) == units;
  }

  /** Detect loses exactly the words of the field listed last. */
  lemma SwappedCut(a: seq<byte>, b: seq<byte>, c: seq<u32>, hash: Hash)
    requires LongString(a) && LongString(b) && Enc(Swapped(a, b), c, hash) && |c| < 0x4000_0000
    ensures |StringWords(b)| < |c| && DetectObject(c, TwoStrings, KMessage, 0, 0) == |c| - |StringWords(b)|
  {
    hide EncMessage, StringWords, DetectObject, DetectField, MessageEnd, InAt, MessageHead, Sum, HeadOk, HeadAt, Formed,
         Typed, FieldEnds, DetectFields;
    var node, plans := Swapped(a, b), TwoStrings[0].fields;
    var mp: MessagePlan :| EncMessage(node, mp, c, hash);
    assert InAt(c, 0, c) by { Everywhere(c); }
    MessageView(c, 0, node, mp, c, hash);
    FieldEncodedAs(node, mp, c, hash, 0);
    FieldEncodedAs(node, mp, c, hash, 1);
    assert mp.cs == [StringWords(a), StringWords(b)];
    SwappedTyped(a, b);
    BytesTyped(plans[1], a);
    FieldDetected(c, TwoStrings, plans[1], 0, node, mp, c, hash);
    SwappedEnd(node, mp.cs, plans, c, hash);
    DetectMessage(c, TwoStrings, 0, 0);
    OneField(c, plans, MessageEnd(c, 0));
  }

  lemma Everywhere(c: seq<u32>)
    ensures InAt(c, 0, c)
  {
    assert c[0..|c|] == c;
  }

  lemma BytesTyped(plan: FieldPlan, a: seq<byte>)
    requires plan.kind.KString?
    ensures Typed(TwoStrings, plan.kind, plan.child, BytesNode(KString, a))
  {
  }

  lemma SwappedEnd(node: Node, cs: seq<seq<u32>>, plans: seq<FieldPlan>, c: seq<u32>, hash: Hash)
    requires HeaderInside(c, 0) && |cs| == 2 && |cs[0]| > 3 && |cs[1]| > 3
    requires node.MessageNode? && |node.fields| == 2 && node.fields[0].1.BytesNode?
    requires |plans| == 2 && FieldIndex(node.fields, plans[1].id, 0) == 0
    requires FieldEnds(DetectField(c, TwoStrings, plans[1], 0), MessageEnd(c, 0), node.fields, cs, plans[1].id,
                       FieldWhole(TwoStrings, plans[1], node.fields, cs, hash))
    ensures DetectField(c, TwoStrings, plans[1], 0) == MessageEnd(c, 0) + |cs[0]|
    ensures OutTotal(cs) == |cs[0]| + |cs[1]|
  {
    hide DetectField, MessageEnd;
    assert cs[..0] == [] && cs[1..][0] == cs[1] && cs[1..][1..] == [];
  }

  lemma OneField(c: seq<u32>, plans: seq<FieldPlan>, view: nat)
    requires HeaderInside(c, 0) && |plans| == 2 && DetectField(c, TwoStrings, plans[1], 0) > view
    ensures DetectFields(c, TwoStrings, plans, 0, 2, view) == DetectField(c, TwoStrings, plans[1], 0)
  {
    hide DetectField;
  }
}
