/**
 The decode tape and its producer (Visit, VisitMessage, VisitArray and
 VisitMap of typescript/wasm/decode_tape.cc).
 */
module Tapes {
  import opened Schema
  import opened Serialize
  import opened Decode

  // ---------------------------------------------------------------------
  // The tape of a tree
  // ---------------------------------------------------------------------

  /** Pairs written out one after the other. */
  function Flat(pairs: seq<(nat, nat)>): (r: seq<nat>)
    ensures |r| == 2 * |pairs|
    ensures forall k {:trigger r[k]} | 0 <= k < |r| :: r[k] == if k % 2 == 0 then pairs[k / 2].0 else pairs[k / 2].1
  {
    seq(2 * |pairs|, k requires 0 <= k < 2 * |pairs| => if k % 2 == 0 then pairs[k / 2].0 else pairs[k / 2].1)
  }

  function Blank(n: nat): (r: seq<nat>)
    ensures |r| == n && forall k | 0 <= k < n :: r[k] == 0
  {
    seq(n, _ => 0)
  }

  /** The descriptor of a field. */
  function Desc(field: TField): (nat, nat) {
    match field
    case Missing => (0, 0)
    case Scalar(_, at, width) => (at, width)
    case Span(off, len) => (off, len)
    case Child(at, width, _) => (at, width)
  }

  function Descs(fields: seq<TField>): (r: seq<(nat, nat)>)
    ensures |r| == |fields| && forall i | 0 <= i < |r| :: r[i] == Desc(fields[i])
  {
    seq(|fields|, i requires 0 <= i < |fields| => Desc(fields[i]))
  }

  /** Key and value spans of a map, entry by entry. */
  function MapSpans(info: MapHeadInfo, keys: seq<(nat, nat)>, values: seq<(nat, nat)>): seq<(nat, nat)> {
    if info.key.KString? && IsBytes(info.value) && |keys| == |values| then Interleave(keys, values)
    else if info.key.KString? then keys else values
  }

  function MapRecord(tid: nat, info: MapHeadInfo): (r: seq<nat>)
    ensures |r| == 5
  {
    [21, tid + 1, info.count, info.body, info.keyWidth + 0x1_0000 * info.valueWidth]
  }

  /** The records of a tree: a header of five words, descriptors, the children. */
  function Tape(tree: Tree): seq<nat>
    decreases tree, 0
  {
    match tree
    case TMessage(tid, fields) => [1, tid + 1, |fields|, 0, 0] + Flat(Descs(fields)) + FieldTapes(fields)
    case TBools(tid, off, len) => [20, tid + 1, len, off, 0]
    case TScalars(tid, _, count, body, width) => [20, tid + 1, count, body, width]
    case TStrings(tid, body, width, spans) => [20, tid + 1, |spans|, body, width] + Flat(spans)
    case TArray(tid, body, width, children) => [20, tid + 1, |children|, body, width] + TreeTapes(children)
    case TMap(tid, info, keys, values, children) => MapRecord(tid, info) + Flat(MapSpans(info, keys, values))
                                                    + TreeTapes(children)
  }

  function FieldTape(field: TField): seq<nat>
    decreases field, 0
  {
    if field.Child? then Tape(field.tree) else []
  }

  function FieldTapes(fields: seq<TField>): seq<nat>
    decreases fields, 1
  {
    if fields == [] then [] else FieldTapes(fields[..|fields| - 1]) + FieldTape(fields[|fields| - 1])
  }

  function TreeTapes(trees: seq<Tree>): seq<nat>
    decreases trees, 1
  {
    if trees == [] then [] else TreeTapes(trees[..|trees| - 1]) + Tape(trees[|trees| - 1])
  }

  lemma FieldTapesStep(fields: seq<TField>, field: TField)
    ensures FieldTapes(fields + [field]) == FieldTapes(fields) + FieldTape(field)
  {
    assert (fields + [field])[..|fields|] == fields;
  }

  lemma TreeTapesStep(trees: seq<Tree>, tree: Tree)
    ensures TreeTapes(trees + [tree]) == TreeTapes(trees) + Tape(tree)
  {
    assert (trees + [tree])[..|trees|] == trees;
  }

  // ---------------------------------------------------------------------
  // Patching descriptors
  // ---------------------------------------------------------------------

  lemma FlatAt(pairs: seq<(nat, nat)>, i: nat)
    requires i < |pairs|
    ensures Flat(pairs)[2 * i] == pairs[i].0 && Flat(pairs)[2 * i + 1] == pairs[i].1
  {
    assert 2 * i / 2 == i && (2 * i + 1) / 2 == i;
  }

  lemma FlatAppend(pairs: seq<(nat, nat)>, p: (nat, nat))
    ensures Flat(pairs + [p]) == Flat(pairs) + [p.0, p.1]
  {
    var a, b := Flat(pairs + [p]), Flat(pairs) + [p.0, p.1];
    forall k | 0 <= k < |a| ensures a[k] == b[k] {
      if k < 2 * |pairs| { assert (pairs + [p])[k / 2] == pairs[k / 2]; }
    }
  }

  lemma PatchFlat(base: seq<nat>, pairs: seq<(nat, nat)>, rest: seq<nat>, i: nat, p: (nat, nat))
    requires i < |pairs|
    ensures (base + Flat(pairs) + rest)[|base| + 2 * i := p.0][|base| + 2 * i + 1 := p.1]
            == base + Flat(pairs[i := p]) + rest
  {
    var a := (base + Flat(pairs) + rest)[|base| + 2 * i := p.0][|base| + 2 * i + 1 := p.1];
    var b := base + Flat(pairs[i := p]) + rest;
    var f, g := Flat(pairs), Flat(pairs[i := p]);
    forall k | 0 <= k < |f| && k / 2 != i ensures f[k] == g[k] {
    }
    FlatAt(pairs[i := p], i);
    forall k | 0 <= k < |a| ensures a[k] == b[k] {
      if |base| <= k < |base| + |f| {
        assert b[k] == g[k - |base|];
      }
    }
  }

  /** Writing the next pair into blank descriptors. */
  lemma PatchNext(base: seq<nat>, pairs: seq<(nat, nat)>, n: nat, p: (nat, nat))
    ensures var d := |base| + 2 * |pairs|;
            (base + Flat(pairs) + Blank(n + 2))[d := p.0][d + 1 := p.1] == base + Flat(pairs + [p]) + Blank(n)
  {
    FlatAppend(pairs, p);
    var d := |base| + 2 * |pairs|;
    var a, b := (base + Flat(pairs) + Blank(n + 2))[d := p.0][d + 1 := p.1], base + Flat(pairs + [p]) + Blank(n);
    forall k | 0 <= k < |a| ensures a[k] == b[k] {
    }
  }
}
