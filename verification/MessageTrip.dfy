/** Message fields are recovered from their encoding. */
module MessageTrip {
  import opened Words
  import opened Swar
  import opened Strings
  import opened Messages
  import opened Schema
  import opened HashGraph
  import opened Arena
  import opened Decode
  import opened Values
  import opened Objects
  import opened Headers
  import opened Meaning

  /** The cell of a stored field leads to its words. */
  lemma FieldLeads(words: seq<u32>, at: nat, w: seq<u32>, widths: seq<nat>, id: nat, c: seq<u32>)
    requires |words| < 0x4000_0000 && InAt(words, at, w) && FieldStored(w, widths, id, c) && c != []
    requires |c| <= 3 ==> c[0] % 4 != 3
    ensures id < |widths| && Leads(words, at + |MessageHead(widths)| + Sum(widths[..id]), widths[id], c)
  {
    hide MessageHead, Sum, Leads, Outlined, InAt;
    var a := |MessageHead(widths)| + Sum(widths[..id]);
    if |c| <= 3 {
      InAtBound(w, a, c);
      LeadsInline(words, at, w, a, |c|, c);
    } else {
      LeadsOut(words, at, w, a, 1, c);
    }
  }

  lemma InAtBound(words: seq<u32>, at: nat, part: seq<u32>)
    requires InAt(words, at, part)
    ensures at + |part| <= |words|
  {
  }

  ghost predicate FieldReadable(types: Types, plan: FieldPlan, fields: seq<(nat, Node)>, depth: nat) {
    var k := FieldIndex(fields, plan.id, 0);
    k < |fields| && IsComplex(plan.kind) && !fields[k].1.NoneNode? ==> depth < MAXDEPTH && Readable(types, plan.child,
          fields[k].1, depth + 1)
  }

  ghost function FieldNodeValue(types: Types, plan: FieldPlan, fields: seq<(nat, Node)>): Option<Value> {
    var k := FieldIndex(fields, plan.id, 0);
    if k < |fields| && !fields[k].1.NoneNode? then Some(NodeValue(types, plan.child, fields[k].1)) else None
  }

  ghost predicate FieldOk(words: seq<u32>, types: Types, plan: FieldPlan, loc: Loc, depth: nat,
                          fields: seq<(nat, Node)>)
    requires depth <= MAXDEPTH && HeaderInside(words, loc.at)
  {
    var r := ParseField(words, types, plan, loc, depth);
    && (r.Some? <==> FieldReadable(types, plan, fields, depth))
    && (r.Some? ==> FieldValue(words, r.value) == FieldNodeValue(types, plan, fields))
  }

  /** A field that is not stored is missing. */
  lemma AbsentField(words: seq<u32>, types: Types, plan: FieldPlan, loc: Loc, depth: nat, node: Node, mp: MessagePlan,
        w: seq<u32>, hash: Hash)
    requires depth <= MAXDEPTH && node.MessageNode? && EncMessage(node, mp, w, hash) && Placed(words, loc, w)
    requires var k := FieldIndex(node.fields, plan.id, 0); k == |node.fields| || node.fields[k].1.NoneNode?
    ensures HeaderInside(words, loc.at) && FieldOk(words, types, plan, loc, depth, node.fields)
  {
    hide Scan, MessageHead, Sum, HeadOk, Readable, NodeValue;
    var k := FieldIndex(node.fields, plan.id, 0);
    MessagePlaced(words, loc, node, mp, w, hash);
    ScanReadsBack(words, loc.at, mp.widths, plan.id);
    if k == |node.fields| && Listed(node.fields, plan.id) {
      var j :| 0 <= j < |node.fields| && node.fields[j].0 == plan.id;
      FieldIndexFirst(node.fields, plan.id, 0, j);
    }
    assert Scan(words, loc.at, plan.id).1 == 0;
  }

  /** Header and body of a placed message. */
  lemma MessagePlaced(words: seq<u32>, loc: Loc, node: Node, mp: MessagePlan, w: seq<u32>, hash: Hash)
    requires node.MessageNode? && EncMessage(node, mp, w, hash) && Placed(words, loc, w)
    ensures HeadOk(mp.widths) && HeadAt(words, loc.at, mp.widths) && HeaderInside(words, loc.at)
    ensures loc.at + |MessageHead(mp.widths)| + Sum(mp.widths) <= loc.limit <= |words|
  {
    hide MessageHead, Sum, HeadOk, Enc, FieldStored;
    var head := MessageHead(mp.widths);
    assert InAt(w, 0, head);
    InAtTrans(words, loc.at, w, 0, head);
    HeaderWritten(words, loc.at, mp.widths);
  }

  /** A stored scalar field. */
  lemma ScalarField(words: seq<u32>, types: Types, plan: FieldPlan, loc: Loc, depth: nat, node: Node, mp: MessagePlan,
        w: seq<u32>, hash: Hash, k: nat)
    requires depth <= MAXDEPTH && node.MessageNode? && EncMessage(node, mp, w, hash) && Placed(words, loc, w)
    requires k == FieldIndex(node.fields, plan.id, 0) < |node.fields|
    requires node.fields[k].1.ScalarNode? && node.fields[k].1.kind == plan.kind && Formed(node.fields[k].1)
    ensures HeaderInside(words, loc.at) && FieldOk(words, types, plan, loc, depth, node.fields)
  {
    hide Scan, MessageHead, Sum, HeadOk, Readable, ScalarAt, HeadAt, InAt, Listed;
    var child, c := node.fields[k].1, mp.cs[k];
    MessagePlaced(words, loc, node, mp, w, hash);
    ScanReadsBack(words, loc.at, mp.widths, plan.id);
    var a := |MessageHead(mp.widths)| + Sum(mp.widths[..plan.id]);
    assert c == ScalarWords(child.kind, child.words);
    assert FieldStored(w, mp.widths, plan.id, c);
    InAtTrans(words, loc.at, w, a, c);
    ScalarRecovered(words, loc.at + a, child);
  }

  /** A stored string or byte array field. */
  lemma BytesField(words: seq<u32>, types: Types, plan: FieldPlan, loc: Loc, depth: nat, node: Node, mp: MessagePlan,
        w: seq<u32>, hash: Hash, k: nat)
    requires depth <= MAXDEPTH && node.MessageNode? && EncMessage(node, mp, w, hash) && Placed(words, loc, w)
    requires k == FieldIndex(node.fields, plan.id, 0) < |node.fields|
    requires node.fields[k].1.BytesNode? && node.fields[k].1.kind == plan.kind && Formed(node.fields[k].1)
    ensures HeaderInside(words, loc.at) && FieldOk(words, types, plan, loc, depth, node.fields)
  {
    hide Scan, MessageHead, Sum, HeadOk, Readable, HeadAt, InAt, StringWords, Leads, BytesAt, SpanValue, Listed;
    var child, c := node.fields[k].1, mp.cs[k];
    MessagePlaced(words, loc, node, mp, w, hash);
    ScanReadsBack(words, loc.at, mp.widths, plan.id);
    TagUnambiguous(child, c, hash);
    assert FieldStored(w, mp.widths, plan.id, c);
    FieldLeads(words, loc.at, w, mp.widths, plan.id, c);
    LeadsSomewhere(words, loc.at + |MessageHead(mp.widths)| + Sum(mp.widths[..plan.id]), mp.widths[plan.id], c);
    BytesCell(words, loc.at + |MessageHead(mp.widths)| + Sum(mp.widths[..plan.id]), mp.widths[plan.id], child.bytes);
  }

  lemma LeadsSomewhere(words: seq<u32>, at: nat, width: nat, c: seq<u32>)
    requires Leads(words, at, width, c)
    ensures width > 0
  {
  }

  /** Where a stored complex field leads. */
  lemma ComplexFieldLeads(words: seq<u32>, plan: FieldPlan, loc: Loc, node: Node, mp: MessagePlan, w: seq<u32>,
                          hash: Hash, k: nat)
    requires node.MessageNode? && EncMessage(node, mp, w, hash) && Placed(words, loc, w)
    requires k == FieldIndex(node.fields, plan.id, 0) < |node.fields| && Formed(node.fields[k].1)
    requires !node.fields[k].1.NoneNode? && !node.fields[k].1.ScalarNode?
    ensures HeaderInside(words, loc.at)
    ensures var (off, width) := Scan(words, loc.at, plan.id); width > 0 && Leads(words, off, width, mp.cs[k])
  {
    hide Scan, MessageHead, Sum, HeadOk, HeadAt, InAt, Leads, Listed, Enc;
    var child, c := node.fields[k].1, mp.cs[k];
    MessagePlaced(words, loc, node, mp, w, hash);
    ScanReadsBack(words, loc.at, mp.widths, plan.id);
    TagUnambiguous(child, c, hash);
    assert FieldStored(w, mp.widths, plan.id, c);
    FieldLeads(words, loc.at, w, mp.widths, plan.id, c);
    LeadsSomewhere(words, loc.at + |MessageHead(mp.widths)| + Sum(mp.widths[..plan.id]), mp.widths[plan.id], c);
  }
}
