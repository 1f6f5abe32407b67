/**
 Decoding as a whole (pc_decode_tape of typescript/wasm/decode_tape.cc and
 deserializeWithTape of typescript/src/deserialize-tape.ts).
 */
module Deserializer {
  import opened Words
  import opened Schema
  import opened Decode
  import opened Values
  import opened Tapes
  import opened Visitor
  import opened Materializer

  // ---------------------------------------------------------------------
  // Tape words are 32-bit words
  // ---------------------------------------------------------------------

  ghost predicate Words32(tape: seq<nat>) {
    forall k | 0 <= k < |tape| :: tape[k] < 0x1_0000_0000
  }

  lemma CountInside(width: nat, count: nat, n: nat)
    requires 0 < width && Prod(width, count) <= n
    ensures count <= n
  {
  }

  lemma SpansFit(n: nat, spans: seq<(nat, nat)>)
    requires n <= 0x1000_0000 && SpansInside(n, spans)
    ensures Words32(Flat(spans))
  {
  }

  lemma MapSpansFit(n: nat, info: MapHeadInfo, keys: seq<(nat, nat)>, values: seq<(nat, nat)>)
    requires n <= 0x1000_0000 && SpansInside(n, keys) && SpansInside(n, values)
    ensures Words32(Flat(MapSpans(info, keys, values)))
  {
    SpansFit(n, MapSpans(info, keys, values));
  }

  lemma {:induction false} FieldTapesFit(n: nat, types: Types, plans: seq<FieldPlan>, fields: seq<TField>)
    requires n <= 0x1000_0000 && TypesOk(types)
    requires |plans| == |fields| && forall i | 0 <= i < |plans| :: FieldFits(n, types, plans[i], fields[i])
    ensures Words32(FieldTapes(fields))
    decreases fields, 1
  {
    hide FieldFits, Tape, TypesOk;
    if fields != [] {
      var m := |fields| - 1;
      FieldTapesFit(n, types, plans[..m], fields[..m]);
      FieldTapeFits(n, types, plans[m], fields[m]);
    }
  }

  lemma {:induction false} FieldTapeFits(n: nat, types: Types, plan: FieldPlan, field: TField)
    requires n <= 0x1000_0000 && TypesOk(types) && FieldFits(n, types, plan, field)
    ensures Words32(FieldTape(field))
    decreases field, 1
  {
    hide Fits, Tape, TypesOk;
    if field.Child? { TapeFits(n, types, plan.child, field.tree); }
  }

  lemma {:induction false} TreeTapesFit(n: nat, types: Types, child: nat, trees: seq<Tree>)
    requires n <= 0x1000_0000 && TypesOk(types) && forall i | 0 <= i < |trees| :: Fits(n, types, child, trees[i])
    ensures Words32(TreeTapes(trees))
    decreases trees, 1
  {
    hide Fits, Tape, TypesOk;
    if trees != [] {
      var m := |trees| - 1;
      TreeTapesFit(n, types, child, trees[..m]);
      TapeFits(n, types, child, trees[m]);
    }
  }

  lemma DescsFit(n: nat, types: Types, plans: seq<FieldPlan>, fields: seq<TField>)
    requires n <= 0x1000_0000 && |plans| == |fields| && forall i | 0 <= i < |plans| ::
               FieldFits(n, types, plans[i], fields[i])
    ensures Words32(Flat(Descs(fields)))
  {
    hide Fits, FieldFits, Desc;
    var ds := Descs(fields);
    forall i | 0 <= i < |ds| ensures ds[i].0 < 0x1_0000_0000 && ds[i].1 < 0x1_0000_0000 {
      DescFits(n, types, plans[i], fields[i]);
    }
  }

  lemma DescFits(n: nat, types: Types, plan: FieldPlan, field: TField)
    requires n <= 0x1000_0000 && FieldFits(n, types, plan, field)
    ensures Desc(field).0 < 0x1_0000_0000 && Desc(field).1 < 0x1_0000_0000
  {
    hide Fits;
  }

  /** Every word of the tape of an accepted input of up to 2^28 words fits 32 bits. */
  lemma {:induction false} TapeFits(n: nat, types: Types, tid: nat, tree: Tree)
    requires n <= 0x1000_0000 && TypesOk(types) && Fits(n, types, tid, tree)
    ensures Words32(Tape(tree))
    decreases tree, 1
  {
    hide FieldFits, FieldTapes, TreeTapes, Flat, Descs, MapSpans, Prod, Indexed;
    assert TypeOk(types, types[tid]);
    match tree
    case TMessage(_, fields) =>
      DescsFit(n, types, types[tid].fields, fields);
      FieldTapesFit(n, types, types[tid].fields, fields);
    case TBools(_, _, _) =>
    case TScalars(_, _, count, body, width) =>
      CountInside(width, count, n);
    case TStrings(_, body, width, spans) =>
      CountInside(width, |spans|, n);
      SpansFit(n, spans);
    case TArray(_, body, width, children) =>
      CountInside(width, |children|, n);
      TreeTapesFit(n, types, types[tid].child, children);
    case TMap(_, info, keys, values, children) =>
      CountInside(info.keyWidth + info.valueWidth, info.count, n);
      MapSpansFit(n, info, keys, values);
      TreeTapesFit(n, types, types[tid].child, children);
  }

  // ---------------------------------------------------------------------
  // Producer and consumer together
  // ---------------------------------------------------------------------

  const MAXTAPE: nat := 0x3fff_ffff

  datatype Outcome = Decoded(value: Value) | Invalid | TapeTooLong | TrailingRecords

  /** pc_decode_tape: `Some` tape when the input is accepted. */
  method DecodeTape(words: seq<u32>, types: Types, tid: nat) returns (ok: bool, tape: seq<nat>)
    requires TypesOk(types) && |words| <= 0x1000_0000
    ensures ok <==> |words| > 0 && Parse(words, types, tid, Loc(0, |words|), 0).Some?
    ensures ok ==> tape == Tape(Parse(words, types, tid, Loc(0, |words|), 0).value) && Words32(tape)
  {
    hide Parse, Tape, TypesOk, Fits, Words32;
    if |words| == 0 { return false, []; }
    var decoder := new Decoder(words, types);
    ok := decoder.Visit(tid, Loc(0, |words|), 0);
    tape := decoder.tape;
    if ok {
      ghost var tree := Parse(words, types, tid, Loc(0, |words|), 0).value;
      assert [] + Tape(tree) == Tape(tree);
      ParseFits(words, types, tid, Loc(0, |words|), 0);
      TapeFits(|words|, types, tid, tree);
    }
  }

  /**
   deserializeWithTape: the consumer ends exactly at the end of the tape, so
   the check for trailing records never fires, and the value is the one the
   input locates.
   */
  method Deserialize(words: seq<u32>, types: Types, tid: nat) returns (r: Outcome)
    requires TypesOk(types) && |words| <= 0x1000_0000
    ensures var tree := Parse(words, types, tid, Loc(0, |words|), 0);
            r == if |words| == 0 || tree.None? then Invalid
                 else if |Tape(tree.value)| > MAXTAPE then TapeTooLong
                 else Decoded(ValueOf(words, tree.value))
  {
    hide Parse, Tape, TypesOk, Fits, Words32, ValueOf, At;
    var ok, tape := DecodeTape(words, types, tid);
    if !ok { return Invalid; }
    if |tape| > MAXTAPE { return TapeTooLong; }
    ghost var tree := Parse(words, types, tid, Loc(0, |words|), 0).value;
    ParseFits(words, types, tid, Loc(0, |words|), 0);
    WholeTape(tape);
    var context := new Context(words, types, tape);
    var value := context.Materialize(tid, tree);
    if context.cursor != |tape| { return TrailingRecords; }
    return Decoded(value);
  }

  lemma WholeTape(tape: seq<nat>)
    ensures At(tape, 0, tape)
  {
  }
}
