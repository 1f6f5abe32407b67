/**
 The values a decoded buffer stands for (typescript/src/deserialize-tape.ts).
 Floats and integers are their words, strings and byte arrays their bytes; a
 map is a finite map, so the order of its entries does not matter.
 */
module Values {
  import opened Words
  import opened Strings
  import opened Schema
  import opened Decode

  datatype Value =
    | VBool(b: bool)
    | VWords(words: seq<u32>)
    | VBytes(bytes: seq<byte>)
    | VArray(elems: seq<Value>)
    | VMap(entries: map<Value, Value>)
    | VMessage(fields: seq<Option<Value>>)

  /** A map filled entry by entry; a later entry replaces an earlier one. */
  function MapOf(pairs: seq<(Value, Value)>): map<Value, Value> {
    if pairs == [] then map[]
    else
      var last := pairs[|pairs| - 1];
      MapOf(pairs[..|pairs| - 1])[last.0 := last.1]
  }

  function BytesIn(words: seq<u32>, off: nat, len: nat): seq<byte> {
    if off + len <= 4 * |words| then BytesOf(words)[off..off + len] else []
  }

  function BoolsOf(bytes: seq<byte>): (r: seq<Value>)
    ensures |r| == |bytes| && forall i | 0 <= i < |r| :: r[i] == VBool(bytes[i] != 0)
  {
    seq(|bytes|, i requires 0 <= i < |bytes| => VBool(bytes[i] != 0))
  }

  /** The value of a scalar's own words. */
  function ScalarValue(kind: Kind, words: seq<u32>): Value {
    if kind.KBool? then VBool(words != [] && words[0] != 0) else VWords(words)
  }

  /** scalarAt for the kinds that are read from the input words. */
  function ScalarAt(words: seq<u32>, kind: Kind, at: nat): Value {
    var width := ScalarWidth(kind);
    ScalarValue(kind, if at + width <= |words| then words[at..at + width] else [])
  }

  function SpanValue(words: seq<u32>, span: (nat, nat)): Value {
    VBytes(BytesIn(words, span.0, span.1))
  }

  function ValueOf(words: seq<u32>, tree: Tree): Value
    decreases tree, 2
  {
    match tree
    case TMessage(_, fields) => VMessage(seq(|fields|, i requires 0 <= i < |fields| => FieldValue(words, fields[i])))
    case TBools(_, off, len) => VArray(BoolsOf(BytesIn(words, off, len)))
    case TScalars(_, kind, count, body, width) => VArray(seq(count, i requires 0 <= i < count => ScalarAt(words, kind,
          body + Prod(width, i))))
    case TStrings(_, _, _, spans) => VArray(seq(|spans|, i requires 0 <= i < |spans| => SpanValue(words, spans[i])))
    case TArray(_, _, _, children) => VArray(seq(|children|,
                                                 i requires 0 <= i < |children| => ValueOf(words, children[i])))
    case TMap(_, _, _, _, _) => VMap(MapOf(Entries(words, tree)))
  }

  /** The entries of a map in slot order. */
  function Entries(words: seq<u32>, tree: Tree): seq<(Value, Value)>
    requires tree.TMap?
    decreases tree, 1
  {
    seq(tree.info.count, i requires 0 <= i < tree.info.count => (KeyAt(words, tree.info, tree.keys, i),
                                                                 EntryValue(words, tree, i)))
  }

  function FieldValue(words: seq<u32>, field: TField): Option<Value>
    decreases field, 0
  {
    match field
    case Missing => None
    case Scalar(kind, at, _) => Some(ScalarAt(words, kind, at))
    case Span(off, len) => Some(SpanValue(words, (off, len)))
    case Child(_, _, tree) => Some(ValueOf(words, tree))
  }

  /** Key of entry `i`. */
  function KeyAt(words: seq<u32>, info: MapHeadInfo, keys: seq<(nat, nat)>, i: nat): Value {
    if info.key.KString? then if i < |keys| then SpanValue(words, keys[i]) else VBytes([])
    else ScalarAt(words, info.key, info.body + Prod(info.keyWidth + info.valueWidth, i))
  }

  /** Value of entry `i`. */
  function EntryValue(words: seq<u32>, tree: Tree, i: nat): Value
    requires tree.TMap?
    decreases tree, 0
  {
    var info := tree.info;
    if IsBytes(info.value) then if i < |tree.values| then SpanValue(words, tree.values[i]) else VBytes([])
    else if IsComplex(info.value) then if i < |tree.children| then ValueOf(words, tree.children[i]) else VBytes([])
    else ScalarAt(words, info.value, info.body + Prod(info.keyWidth + info.valueWidth, i) + info.keyWidth)
  }
}
