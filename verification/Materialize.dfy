/**
 The consumer of the tape (materialize and scalarAt of
 typescript/src/deserialize-tape.ts).
 */
module Materializer {
  import opened Words
  import opened Strings
  import opened Schema
  import opened Decode
  import opened Values
  import opened Tapes

  /** The records `part` start at index `at` of the tape. */
  ghost predicate At(tape: seq<nat>, at: nat, part: seq<nat>) {
    at + |part| <= |tape| && tape[at..at + |part|] == part
  }

  lemma AtSplit(tape: seq<nat>, at: nat, a: seq<nat>, b: seq<nat>)
    requires At(tape, at, a + b)
    ensures At(tape, at, a) && At(tape, at + |a|, b)
  {
    var s := tape[at..at + |a + b|];
    assert s[..|a|] == a && s[|a|..] == b;
    assert tape[at..at + |a|] == s[..|a|];
    assert tape[at + |a|..at + |a| + |b|] == s[|a|..];
  }

  lemma AtIndex(tape: seq<nat>, at: nat, part: seq<nat>, k: nat)
    requires At(tape, at, part) && k < |part|
    ensures tape[at + k] == part[k]
  {
    assert tape[at + k] == tape[at..at + |part|][k];
  }

  lemma {:induction false} AtField(tape: seq<nat>, at: nat, fields: seq<TField>, i: nat)
    requires At(tape, at, FieldTapes(fields)) && i < |fields|
    ensures At(tape, at + |FieldTapes(fields[..i])|, FieldTape(fields[i]))
    ensures |FieldTapes(fields[..i + 1])| == |FieldTapes(fields[..i])| + |FieldTape(fields[i])|
    decreases |fields|
  {
    hide FieldTape, At;
    var n := |fields| - 1;
    AtSplit(tape, at, FieldTapes(fields[..n]), FieldTape(fields[n]));
    if i < n {
      AtField(tape, at, fields[..n], i);
      assert fields[..n][..i] == fields[..i] && fields[..n][..i + 1] == fields[..i + 1];
    } else {
      assert fields[..i + 1] == fields;
    }
  }

  lemma {:induction false} AtTree(tape: seq<nat>, at: nat, trees: seq<Tree>, i: nat)
    requires At(tape, at, TreeTapes(trees)) && i < |trees|
    ensures At(tape, at + |TreeTapes(trees[..i])|, Tape(trees[i]))
    ensures |TreeTapes(trees[..i + 1])| == |TreeTapes(trees[..i])| + |Tape(trees[i])|
    decreases |trees|
  {
    hide Tape, At;
    var n := |trees| - 1;
    AtSplit(tape, at, TreeTapes(trees[..n]), Tape(trees[n]));
    if i < n {
      AtTree(tape, at, trees[..n], i);
      assert trees[..n][..i] == trees[..i] && trees[..n][..i + 1] == trees[..i + 1];
    } else {
      assert trees[..i + 1] == trees;
    }
  }

  lemma AtPair(tape: seq<nat>, at: nat, pairs: seq<(nat, nat)>, i: nat)
    requires At(tape, at, Flat(pairs)) && i < |pairs|
    ensures at + 2 * i + 1 < |tape| && (tape[at + 2 * i], tape[at + 2 * i + 1]) == pairs[i]
  {
    hide At;
    FlatAt(pairs, i);
    AtIndex(tape, at, Flat(pairs), 2 * i);
    AtIndex(tape, at, Flat(pairs), 2 * i + 1);
    AtBound(tape, at, Flat(pairs));
  }

  lemma AtBound(tape: seq<nat>, at: nat, part: seq<nat>)
    requires At(tape, at, part)
    ensures at + |part| <= |tape|
  {
  }

  lemma NoTapes()
    ensures FieldTapes([]) == [] && TreeTapes([]) == []
  {
  }

  class Context {
    const words: seq<u32>
    const types: Types
    const tape: seq<nat>
    var cursor: nat

    constructor (words: seq<u32>, types: Types, tape: seq<nat>)
      ensures this.words == words && this.types == types && this.tape == tape && cursor == 0
    {
      this.words := words;
      this.types := types;
      this.tape := tape;
      cursor := 0;
    }

    /** scalarAt: a span of bytes, or the words of a scalar; both are inside the input. */
    method ReadScalar(kind: Kind, first: nat, second: nat) returns (value: Value)
      requires !IsComplex(kind)
      requires if IsBytes(kind) then first + second <= 4 * |words| else first + ScalarWidth(kind) <= |words|
      ensures value == if IsBytes(kind) then SpanValue(words, (first, second)) else ScalarAt(words, kind, first)
    {
      if IsBytes(kind) { return VBytes(BytesOf(words)[first..first + second]); }
      if kind.KBool? { return VBool(words[first] != 0); }
      return VWords(words[first..first + ScalarWidth(kind)]);
    }

    /** One field of a message. */
    method ReadField(plan: FieldPlan, descriptor: nat, ghost field: TField) returns (value: Option<Value>)
      requires FieldFits(|words|, types, plan, field)
      requires descriptor + 1 < |tape| && (tape[descriptor], tape[descriptor + 1]) == Desc(field)
      requires At(tape, cursor, FieldTape(field))
      modifies this`cursor
      ensures value == FieldValue(words, field) && cursor == old(cursor) + |FieldTape(field)|
      decreases field, 2
    {
      hide Tape, Fits, At, ValueOf, ScalarAt, SpanValue;
      var first, second := tape[descriptor], tape[descriptor + 1];
      if first == 0 { return None; }
      if IsComplex(plan.kind) {
        var v := Materialize(plan.child, field.tree);
        return Some(v);
      }
      var v := ReadScalar(plan.kind, first, second);
      return Some(v);
    }

    /** The loop over the fields of a message. */
    method ReadFields(fields: seq<FieldPlan>, descriptors: nat, ghost fs: seq<TField>) returns (out: seq<Option<Value>>)
      requires |fs| == |fields| && forall i | 0 <= i < |fields| :: FieldFits(|words|, types, fields[i], fs[i])
      requires At(tape, descriptors, Flat(Descs(fs))) && At(tape, cursor, FieldTapes(fs))
      modifies this`cursor
      ensures cursor == old(cursor) + |FieldTapes(fs)|
      ensures |out| == |fs| && forall k | 0 <= k < |fs| :: out[k] == FieldValue(words, fs[k])
      decreases fs, 2
    {
      hide At, FieldTapes, FieldTape, FieldFits, FieldValue, Desc, Flat;
      ghost var children := cursor;
      NoTapes();
      out := [];
      var i := 0;
      assert fs[..0] == [];
      while i < |fields|
        invariant 0 <= i <= |fields| && |out| == i
        invariant cursor == children + |FieldTapes(fs[..i])|
        invariant forall k | 0 <= k < i :: out[k] == FieldValue(words, fs[k])
      {
        AtField(tape, children, fs, i);
        AtPair(tape, descriptors, Descs(fs), i);
        var v := ReadField(fields[i], descriptors + 2 * i, fs[i]);
        out := out + [v];
        i := i + 1;
      }
      assert fs[..i] == fs;
    }

    method ReadMessage(tid: nat, ghost tree: Tree) returns (value: Value)
      requires Fits(|words|, types, tid, tree) && At(tape, cursor, Tape(tree)) && types[tid].MessageType?
      modifies this`cursor
      ensures cursor == old(cursor) + |Tape(tree)| && value == ValueOf(words, tree)
      decreases tree, 3
    {
      hide At, FieldTapes, FieldFits, FieldValue, Descs, Flat;
      var fields := types[tid].fields;
      ghost var fs := tree.fields;
      DescsLength(fs);
      ghost var head := [1, tid + 1, |fs|, 0, 0];
      AtSplit(tape, cursor, head + Flat(Descs(fs)), FieldTapes(fs));
      AtSplit(tape, cursor, head, Flat(Descs(fs)));
      var descriptors := cursor + 5;
      cursor := descriptors + 2 * |fields|;
      var out := ReadFields(fields, descriptors, fs);
      value := VMessage(out);
    }

    method Materialize(tid: nat, ghost tree: Tree) returns (value: Value)
      requires Fits(|words|, types, tid, tree) && At(tape, cursor, Tape(tree))
      modifies this`cursor
      ensures cursor == old(cursor) + |Tape(tree)| && value == ValueOf(words, tree)
      decreases tree, 4
    {
      hide At, Tape, ValueOf;
      match types[tid]
      case MessageType(_, _) => value := ReadMessage(tid, tree);
      case ArrayType(_, _) => value := ReadArray(tid, tree);
      case MapType(_, _, _) => value := ReadMap(tid, tree);
    }

    /** The loop over complex elements. */
    method ReadChildren(child: nat, count: nat, ghost trees: seq<Tree>) returns (out: seq<Value>)
      requires count == |trees| && forall i | 0 <= i < |trees| :: Fits(|words|, types, child, trees[i])
      requires At(tape, cursor, TreeTapes(trees))
      modifies this`cursor
      ensures cursor == old(cursor) + |TreeTapes(trees)|
      ensures |out| == |trees| && forall k | 0 <= k < |trees| :: out[k] == ValueOf(words, trees[k])
      decreases trees, 2
    {
      hide At, TreeTapes, Tape, Fits, ValueOf;
      ghost var start := cursor;
      NoTapes();
      out := [];
      var i := 0;
      assert trees[..0] == [];
      while i < count
        invariant 0 <= i <= count && |out| == i
        invariant cursor == start + |TreeTapes(trees[..i])|
        invariant forall k | 0 <= k < i :: out[k] == ValueOf(words, trees[k])
      {
        AtTree(tape, start, trees, i);
        var v := Materialize(child, trees[i]);
        out := out + [v];
        i := i + 1;
      }
      assert trees[..i] == trees;
    }

    /** The loop over strings or byte arrays. */
    method ReadSpans(kind: Kind, descriptors: nat, count: nat, ghost spans: seq<(nat, nat)>) returns (out: seq<Value>)
      requires IsBytes(kind) && count == |spans| && SpansInside(|words|, spans) && At(tape, descriptors, Flat(spans))
      ensures |out| == |spans| && forall k | 0 <= k < |spans| :: out[k] == SpanValue(words, spans[k])
    {
      hide At, Flat, SpanValue;
      out := [];
      var i := 0;
      while i < count
        invariant 0 <= i <= count && |out| == i
        invariant forall k | 0 <= k < i :: out[k] == SpanValue(words, spans[k])
      {
        AtPair(tape, descriptors, spans, i);
        var v := ReadScalar(kind, tape[descriptors + 2 * i], tape[descriptors + 2 * i + 1]);
        out := out + [v];
        i := i + 1;
      }
    }

    /** The loops over the elements of a scalar array. */
    method ReadScalars(kind: Kind, count: nat, body: nat, width: nat) returns (out: seq<Value>)
      requires IsScalar(kind) && width == ScalarWidth(kind) && body + Prod(width, count) <= |words|
      ensures |out| == count && forall k | 0 <= k < count :: out[k] == ScalarAt(words, kind, body + Prod(width, k))
    {
      hide ScalarAt, Prod;
      out := [];
      var i := 0;
      while i < count
        invariant 0 <= i <= count && |out| == i
        invariant forall k | 0 <= k < i :: out[k] == ScalarAt(words, kind, body + Prod(width, k))
      {
        ProdNext(width, i);
        ProdUpTo(width, i + 1, count);
        var v := ReadScalar(kind, body + Prod(width, i), width);
        out := out + [v];
        i := i + 1;
      }
    }

    method ReadBools(off: nat, count: nat) returns (out: seq<Value>)
      requires off + count <= 4 * |words|
      ensures out == BoolsOf(BytesIn(words, off, count))
    {
      out := [];
      var i := 0;
      while i < count
        invariant 0 <= i <= count && |out| == i
        invariant forall k | 0 <= k < i :: out[k] == VBool(BytesOf(words)[off + k] != 0)
      {
        out := out + [VBool(BytesOf(words)[off + i] != 0)];
        i := i + 1;
      }
    }

    method ReadArray(tid: nat, ghost tree: Tree) returns (value: Value)
      requires Fits(|words|, types, tid, tree) && At(tape, cursor, Tape(tree)) && types[tid].ArrayType?
      modifies this`cursor
      ensures cursor == old(cursor) + |Tape(tree)| && value == ValueOf(words, tree)
      decreases tree, 3
    {
      hide At, Flat, TreeTapes, BoolsOf, BytesIn, SpanValue, ScalarAt, Prod;
      ghost var rest := ArrayRecord(tape, cursor, tree);
      var count, data0, data1 := tape[cursor + 2], tape[cursor + 3], tape[cursor + 4];
      cursor := cursor + 5;
      var kind, child := types[tid].value, types[tid].child;
      var out: seq<Value>;
      if kind.KBool? {
        out := ReadBools(data0, count);
      } else if IsBytes(kind) {
        FlatSize(tree.spans);
        var descriptors := cursor;
        cursor := cursor + 2 * count;
        out := ReadSpans(kind, descriptors, count, tree.spans);
      } else if IsComplex(kind) {
        out := ReadChildren(child, count, tree.children);
      } else {
        out := ReadScalars(kind, count, data0, data1);
      }
      value := VArray(out);
    }

    /** Key of entry `i` of a map. */
    method ReadKey(ghost tree: Tree, kind: Kind, i: nat, descriptor: nat, at: nat, keyWidth: nat) returns (key: Value)
      requires tree.TMap? && i < tree.info.count && kind == tree.info.key
      requires MapFits(|words|, kind, tree.info.value, tree.info, tree.keys, tree.values, |tree.children|)
      requires kind.KString? ==> descriptor + 1 < |tape| && (tape[descriptor], tape[descriptor + 1]) == tree.keys[i]
      requires keyWidth == tree.info.keyWidth && at == tree.info.body + Prod(keyWidth + tree.info.valueWidth, i)
      ensures key == KeyAt(words, tree.info, tree.keys, i)
    {
      hide SpanValue, ScalarAt, Prod;
      if kind.KString? {
        key := ReadScalar(kind, tape[descriptor], tape[descriptor + 1]);
      } else {
        EntryInside(tree.info, i);
        key := ReadScalar(kind, at, keyWidth);
      }
    }

    /** Value of entry `i` of a map. */
    method ReadEntry(ghost tree: Tree, kind: Kind, child: nat, i: nat, descriptor: nat, at: nat, valueWidth: nat)
      returns (value: Value)
      requires tree.TMap? && i < tree.info.count && kind == tree.info.value
      requires MapFits(|words|, tree.info.key, kind, tree.info, tree.keys, tree.values, |tree.children|)
      requires IsBytes(kind) ==> descriptor + 1 < |tape| && (tape[descriptor], tape[descriptor + 1]) == tree.values[i]
      requires IsComplex(kind) ==> Fits(|words|, types, child, tree.children[i])
      requires IsComplex(kind) ==> At(tape, cursor, Tape(tree.children[i]))
      requires valueWidth == tree.info.valueWidth
      requires at == tree.info.body + Prod(tree.info.keyWidth + valueWidth, i) + tree.info.keyWidth
      modifies this`cursor
      ensures value == EntryValue(words, tree, i)
      ensures cursor == old(cursor) + if IsComplex(kind) then |Tape(tree.children[i])| else 0
      decreases tree, 1
    {
      hide SpanValue, ScalarAt, Prod, Tape, At, Fits, ValueOf;
      if IsBytes(kind) {
        value := ReadScalar(kind, tape[descriptor], tape[descriptor + 1]);
      } else if IsComplex(kind) {
        value := Materialize(child, tree.children[i]);
      } else {
        EntryInside(tree.info, i);
        value := ReadScalar(kind, at, valueWidth);
      }
    }

    /** The loop over the entries of a map. */
    method ReadEntries(tid: nat, descriptors: nat, ghost tree: Tree) returns (out: map<Value, Value>)
      requires Fits(|words|, types, tid, tree) && types[tid].MapType?
      requires At(tape, descriptors, Flat(MapSpans(tree.info, tree.keys, tree.values)))
      requires At(tape, cursor, TreeTapes(tree.children))
      requires 5 <= descriptors <= |tape| && tape[descriptors - 3] == tree.info.count
      requires tape[descriptors - 2] == tree.info.body
      requires tape[descriptors - 1] == tree.info.keyWidth + 0x1_0000 * tree.info.valueWidth
      modifies this`cursor
      ensures out == MapOf(Entries(words, tree)) && cursor == old(cursor) + |TreeTapes(tree.children)|
      decreases tree, 2
    {
      hide At, Flat, MapSpans, TreeTapes, Tape, Prod, KeyAt, EntryValue, MapOf;
      var count, data0, data1 := tape[descriptors - 3], tape[descriptors - 2], tape[descriptors - 1];
      var keyWidth, valueWidth := data1 % 0x1_0000, data1 / 0x1_0000;
      var key, kind, child := types[tid].key, types[tid].value, types[tid].child;
      var stride, descriptorStride := keyWidth + valueWidth,
                                      (if key.KString? then 2 else 0) + (if IsBytes(kind) then 2 else 0);
      ghost var entries, children, start := Entries(words, tree), tree.children, cursor;
      NoTapes();
      NoEntries();
      assert entries[..0] == [] && children[..0] == [];
      out := map[];
      var i := 0;
      while i < count
        invariant 0 <= i <= count && out == MapOf(entries[..i])
        invariant cursor == start + if IsComplex(kind) then |TreeTapes(children[..i])| else 0
      {
        var descriptor := descriptors + Prod(descriptorStride, i);
        MapSpanAt(tape, descriptors, tree.info, tree.keys, tree.values, i, descriptor);
        if IsComplex(kind) { AtTree(tape, start, children, i); }
        var k := ReadKey(tree, key, i, descriptor, data0 + Prod(stride, i), keyWidth);
        if key.KString? { descriptor := descriptor + 2; }
        var v := ReadEntry(tree, kind, child, i, descriptor, data0 + Prod(stride, i) + keyWidth, valueWidth);
        NextEntry(entries, i);
        out := out[k := v];
        i := i + 1;
      }
      assert entries[..i] == entries;
      assert IsComplex(kind) ==> children[..i] == children;
      assert !IsComplex(kind) ==> children == [];
    }

    method ReadMap(tid: nat, ghost tree: Tree) returns (value: Value)
      requires Fits(|words|, types, tid, tree) && At(tape, cursor, Tape(tree)) && types[tid].MapType?
      modifies this`cursor
      ensures cursor == old(cursor) + |Tape(tree)| && value == ValueOf(words, tree)
      decreases tree, 3
    {
      hide At, Flat, MapSpans, TreeTapes, Entries, MapOf, Prod;
      ghost var record, spans := MapRecord(tid, tree.info), MapSpans(tree.info, tree.keys, tree.values);
      AtSplit(tape, cursor, record + Flat(spans), TreeTapes(tree.children));
      AtSplit(tape, cursor, record, Flat(spans));
      AtIndex(tape, cursor, record, 2);
      AtIndex(tape, cursor, record, 3);
      AtIndex(tape, cursor, record, 4);
      AtBound(tape, cursor, record);
      var count := tape[cursor + 2];
      var key, kind := types[tid].key, types[tid].value;
      var descriptorStride := (if key.KString? then 2 else 0) + (if IsBytes(kind) then 2 else 0);
      var descriptors := cursor + 5;
      cursor := descriptors + Prod(descriptorStride, count);
      MapSpansSize(tree.info, tree.keys, tree.values, descriptorStride);
      var out := ReadEntries(tid, descriptors, tree);
      value := VMap(out);
    }
  }

  lemma NoEntries()
    ensures MapOf([]) == map[]
  {
  }

  lemma NextEntry(entries: seq<(Value, Value)>, i: nat)
    requires i < |entries|
    ensures MapOf(entries[..i + 1]) == MapOf(entries[..i])[entries[i].0 := entries[i].1]
  {
    assert entries[..i + 1][..i] == entries[..i];
  }

  /** The two spans of entry `i` of a map. */
  lemma MapSpanAt(tape: seq<nat>, at: nat, info: MapHeadInfo, keys: seq<(nat, nat)>, values: seq<(nat, nat)>, i: nat,
                  d: nat)
    requires i < info.count && At(tape, at, Flat(MapSpans(info, keys, values)))
    requires |keys| == (if info.key.KString? then info.count else 0)
    requires |values| == (if IsBytes(info.value) then info.count else 0)
    requires d == at + Prod((if info.key.KString? then 2 else 0) + (if IsBytes(info.value) then 2 else 0), i)
    ensures info.key.KString? ==> d + 1 < |tape| && (tape[d], tape[d + 1]) == keys[i]
    ensures IsBytes(info.value) ==> var e := if info.key.KString? then d + 2 else d;
                                    e + 1 < |tape| && (tape[e], tape[e + 1]) == values[i]
  {
    hide At, Flat;
    var spans := MapSpans(info, keys, values);
    if info.key.KString? && IsBytes(info.value) {
      ProdIsProduct(4, i);
      AtPair(tape, at, spans, 2 * i);
      AtPair(tape, at, spans, 2 * i + 1);
      assert (2 * i + 1) / 2 == i;
    } else if info.key.KString? || IsBytes(info.value) {
      ProdIsProduct(2, i);
      AtPair(tape, at, spans, i);
    }
  }

  lemma MapSpansSize(info: MapHeadInfo, keys: seq<(nat, nat)>, values: seq<(nat, nat)>, stride: nat)
    requires |keys| == (if info.key.KString? then info.count else 0)
    requires |values| == (if IsBytes(info.value) then info.count else 0)
    requires stride == (if info.key.KString? then 2 else 0) + (if IsBytes(info.value) then 2 else 0)
    ensures |Flat(MapSpans(info, keys, values))| == Prod(stride, info.count)
  {
    FlatSize(MapSpans(info, keys, values));
    ProdIsProduct(stride, info.count);
  }

  /** Header words of an array record. */
  lemma ArrayRecord(tape: seq<nat>, at: nat, tree: Tree) returns (rest: seq<nat>)
    requires At(tape, at, Tape(tree)) && (tree.TBools? || tree.TScalars? || tree.TStrings? || tree.TArray?)
    ensures rest == Tape(tree)[5..] && at + 5 <= |tape| && At(tape, at + 5, rest) && |Tape(tree)| == 5 + |rest|
    ensures tape[at + 2] == Tape(tree)[2] && tape[at + 3] == Tape(tree)[3] && tape[at + 4] == Tape(tree)[4]
  {
    hide At, Flat, TreeTapes;
    var t := Tape(tree);
    rest := t[5..];
    assert t == t[..5] + rest;
    AtSplit(tape, at, t[..5], rest);
    AtIndex(tape, at, t, 2);
    AtIndex(tape, at, t, 3);
    AtIndex(tape, at, t, 4);
    AtBound(tape, at, t);
  }

  lemma FlatSize(pairs: seq<(nat, nat)>)
    ensures |Flat(pairs)| == 2 * |pairs|
  {
  }

  lemma EntryInside(info: MapHeadInfo, i: nat)
    requires i < info.count
    ensures var stride := info.keyWidth + info.valueWidth;
            Prod(stride, i) + stride <= Prod(stride, info.count)
  {
    var stride := info.keyWidth + info.valueWidth;
    ProdNext(stride, i);
    ProdUpTo(stride, i + 1, info.count);
  }

  lemma DescsLength(fields: seq<TField>)
    ensures |Descs(fields)| == |fields| && forall i | 0 <= i < |fields| :: Descs(fields)[i] == Desc(fields[i])
    ensures |Flat(Descs(fields))| == 2 * |fields|
  {
    hide Desc;
  }
}
