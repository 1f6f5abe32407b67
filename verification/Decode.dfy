/**
 What the tape decoder accepts and locates (typescript/wasm/decode_tape.cc),
 as a function from the input to a tree of located values.
 */
module Decode {
  import opened Words
  import opened Swar
  import opened Messages
  import opened Strings
  import opened Schema
  import opened HashIndex

  const MAXDEPTH: nat := 256

  datatype Loc = Loc(at: nat, limit: nat)

  /** Where the parts of a value were found. */
  datatype Tree =
    | TMessage(tid: nat, fields: seq<TField>)
    | TBools(tid: nat, off: nat, len: nat)
    | TScalars(tid: nat, kind: Kind, count: nat, body: nat, width: nat)
    | TStrings(tid: nat, body: nat, width: nat, spans: seq<(nat, nat)>)
    | TArray(tid: nat, body: nat, width: nat, children: seq<Tree>)
    | TMap(tid: nat, info: MapHeadInfo, keys: seq<(nat, nat)>, values: seq<(nat, nat)>, children: seq<Tree>)

  datatype TField =
    | Missing
    | Scalar(kind: Kind, at: nat, width: nat)
    | Span(off: nat, len: nat)
    | Child(at: nat, width: nat, tree: Tree)

  datatype MapHeadInfo = MapHeadInfo(key: Kind, value: Kind, count: nat, body: nat, keyWidth: nat, valueWidth: nat)

  // ---------------------------------------------------------------------
  // Objects and byte spans
  // ---------------------------------------------------------------------

  /** ObjectLocation: follows a tagged offset, or stays in the cell. */
  function ObjectLocation(words: seq<u32>, off: nat, width: nat): (r: Option<Loc>)
    ensures r.Some? ==> r.value.at < |words| && r.value.limit <= |words|
  {
    if width == 0 || off >= |words| then None
    else if words[off] % 4 == 3 then
      var delta := words[off] / 4;
      if delta == 0 || delta > |words| - off || off + delta >= |words| then None
      else Some(Loc(off + delta, |words|))
    else if off + width > |words| then None
    else Some(Loc(off, off + width))
  }

  /** ParseBytes: byte offset and length of the string at a location. */
  function ParseBytes(words: seq<u32>, loc: Loc): (r: Option<(nat, nat)>)
    ensures r.Some? ==> r.value.0 > 0 && r.value.0 + r.value.1 <= 4 * |words|
  {
    if loc.at + 1 > loc.limit || loc.limit > |words| then None
    else
      match ParseVar(BytesOf(words)[4 * loc.at..4 * loc.limit], 5)
      case None => None
      case Some((mark, used)) =>
        if mark % 4 != 0 || mark / 4 > 4 * (loc.limit - loc.at) - used then None
        else Some((4 * loc.at + used, mark / 4))
  }

  function BytesAt(words: seq<u32>, off: nat, width: nat): (r: Option<(nat, nat)>)
    ensures r.Some? ==> r.value.0 > 0 && r.value.0 + r.value.1 <= 4 * |words|
  {
    match ObjectLocation(words, off, width)
    case None => None
    case Some(loc) => ParseBytes(words, loc)
  }

  // ---------------------------------------------------------------------
  // Message headers, scanned from the front
  // ---------------------------------------------------------------------

  /** The header words of the message at `at` lie inside the input. */
  predicate HeaderInside(words: seq<u32>, at: nat) {
    at < |words| && at + 1 + 2 * (words[at] % 256) <= |words|
  }

  function BodyStart(words: seq<u32>, at: nat): nat
    requires HeaderInside(words, at)
  {
    at + 1 + 2 * (words[at] % 256)
  }

  /** Widths of section `a`, counting the default section as none. */
  function SectionWidths(words: seq<u32>, at: nat, a: nat): (r: seq<nat>)
    requires HeaderInside(words, at) && a < words[at] % 256
    ensures |r| == 25 && forall i | 0 <= i < 25 :: r[i] < 4
  {
    Fields(SectionWord(words, at, a), 25)
  }

  function DefaultWidths(words: seq<u32>, at: nat): (r: seq<nat>)
    requires HeaderInside(words, at)
    ensures |r| == 12 && forall i | 0 <= i < 12 :: r[i] < 4
  {
    Fields(words[at] / 256, 12)
  }

  /** Word index and width of field `id` by summing the widths before it; width 0 when absent. */
  function Scan(words: seq<u32>, at: nat, id: nat): (r: (nat, nat))
    requires HeaderInside(words, at)
    ensures r.1 < 4
  {
    if id < 12 then
      var ws := DefaultWidths(words, at);
      (BodyStart(words, at) + Sum(ws[..id]), ws[id])
    else
      var a, b := (id - 12) / 25, (id - 12) % 25;
      if a >= words[at] % 256 then (0, 0)
      else
        var ws := SectionWidths(words, at, a);
        (BodyStart(words, at) + SectionWord(words, at, a) / TWO50 + Sum(ws[..b]), ws[b])
  }

  /** Words of the body, from the last section. */
  function BodyWords(words: seq<u32>, at: nat): nat
    requires HeaderInside(words, at)
  {
    var section := words[at] % 256;
    if section == 0 then Sum(DefaultWidths(words, at))
    else SectionWord(words, at, section - 1) / TWO50 + Sum(SectionWidths(words, at, section - 1))
  }

  /** Every present field lies below the limit. */
  predicate FieldsInside(words: seq<u32>, loc: Loc)
    requires HeaderInside(words, loc.at)
  {
    forall id: nat | id < 12 + 25 * (words[loc.at] % 256) ::
      var (off, width) := Scan(words, loc.at, id);
      width > 0 ==> off + width <= loc.limit
  }

  lemma {:induction false} FieldsPrefix(v: nat, k: nat, i: nat)
    requires i <= k
    ensures Fields(v, k)[..i] == Fields(v, i)
    decreases i
  {
    if i > 0 { FieldsPrefix(v / 4, k - 1, i - 1); }
  }

  lemma {:induction false} FieldsAt(v: nat, k: nat, i: nat)
    requires i < k
    ensures Fields(v, k)[i] == FieldAt(v, i)
    decreases i
  {
    if i > 0 { FieldsAt(v / 4, k - 1, i - 1); }
  }

  lemma {:induction false} NoFields(k: nat)
    ensures Sum(Fields(0, k)) == 0
  {
    if k > 0 {
      NoFields(k - 1);
      assert Fields(0, k)[1..] == Fields(0, k - 1);
    }
  }

  lemma FourDigit(n: nat, a: nat, t: nat)
    requires a < 4 && n == a + 4 * t
    ensures n % 4 == a && n / 4 == t
  {
  }

  /** Masking off the upper fields leaves the sum of the lower ones. */
  lemma {:induction false} LowFieldsSum(v: nat, k: nat, i: nat)
    requires i <= k
    ensures Sum(Fields(LowFields(v, i), k)) == Sum(Fields(v, i))
    decreases i
  {
    if i == 0 {
      NoFields(k);
    } else {
      var low := LowFields(v, i);
      LowFieldsSum(v / 4, k - 1, i - 1);
      assert low == v % 4 + 4 * LowFields(v / 4, i - 1);
      assert Fields(low, k) == [low % 4] + Fields(low / 4, k - 1);
      assert Fields(v, i) == [v % 4] + Fields(v / 4, i - 1);
      hide Fields, Sum, LowFields;
      FourDigit(low, v % 4, LowFields(v / 4, i - 1));
      ValCons(v % 4, Fields(low / 4, k - 1));
      ValCons(v % 4, Fields(v / 4, i - 1));
    }
  }

  /**
   Random access equals the linear scan: the masked word-parallel count of
   GetField finds the offset and width that summing one width at a time finds.
   */
  lemma RandomAccessIsScan(words: seq<u32>, at: nat, id: nat)
    requires HeaderInside(words, at)
    ensures var (off, width) := Scan(words, at, id);
            GetField(words, at, id) == if width == 0 then None else CheckEnd(words, off, width)
  {
    hide Count32, Count64, Sum, Fields, LowFields, FieldAt;
    if id < 12 {
      var v := words[at] / 256;
      FieldsAt(v, 12, id);
      FieldsPrefix(v, 12, id);
      LowFieldsSum(v, 16, id);
      Count32IsFieldSum(LowFields(v, id));
    } else {
      var a, b := (id - 12) / 25, (id - 12) % 25;
      if a < words[at] % 256 {
        var v := SectionWord(words, at, a);
        FieldsAt(v, 25, b);
        FieldsPrefix(v, 25, b);
        LowFieldsSum(v, 32, b);
        Count64IsFieldSum(LowFields(v, b));
      }
    }
  }

  lemma ScanIds(words: seq<u32>, at: nat, id: nat)
    requires HeaderInside(words, at)
    ensures var (off, width) := Scan(words, at, id);
            width > 0 ==> off > at && id < 12 + 25 * (words[at] % 256)
  {
  }

  /** On an accepted message GetField returns exactly what the scan records, and never index 0. */
  lemma AcceptedFieldsAgree(words: seq<u32>, loc: Loc, id: nat)
    requires HeaderInside(words, loc.at) && loc.limit <= |words| && FieldsInside(words, loc)
    ensures var (off, width) := Scan(words, loc.at, id);
            && (width > 0 ==> off > 0 && GetField(words, loc.at, id) == Some((off, width)))
            && (width == 0 ==> GetField(words, loc.at, id) == None)
  {
    hide GetField, Scan;
    RandomAccessIsScan(words, loc.at, id);
    ScanIds(words, loc.at, id);
  }

  // ---------------------------------------------------------------------
  // Trees
  // ---------------------------------------------------------------------

  function Parse(words: seq<u32>, types: Types, tid: nat, loc: Loc, depth: nat): (r: Option<Tree>)
    requires depth <= MAXDEPTH && loc.limit <= |words|
    decreases MAXDEPTH - depth, 3, 0
  {
    if tid >= |types| || loc.at + 1 > loc.limit then None
    else
      match types[tid]
      case MessageType(fields, _) =>
        if loc.at + 1 + 2 * (words[loc.at] % 256) > loc.limit
           || BodyStart(words, loc.at) + BodyWords(words, loc.at) > loc.limit
           || !FieldsInside(words, loc) then None
        else
          (match ParseFields(words, types, fields, loc, depth)
           case None => None
           case Some(fs) => Some(TMessage(tid, fs)))
      case ArrayType(value, child) => ParseArray(words, types, tid, value, child, loc, depth)
      case MapType(key, value, child) => ParseMap(words, types, tid, key, value, child, loc, depth)
  }

  function ParseField(words: seq<u32>, types: Types, field: FieldPlan, loc: Loc, depth: nat): Option<TField>
    requires depth <= MAXDEPTH && HeaderInside(words, loc.at)
    decreases MAXDEPTH - depth, 1, 0
  {
    var (off, width) := Scan(words, loc.at, field.id);
    if width == 0 then Some(Missing)
    else if IsBytes(field.kind) then
      match BytesAt(words, off, width)
      case None => None
      case Some((o, l)) => Some(Span(o, l))
    else if !IsComplex(field.kind) then
      if width == ScalarWidth(field.kind) then Some(Scalar(field.kind, off, width)) else None
    else if depth >= MAXDEPTH then None
    else
      match ParseCell(words, types, field.child, off, width, depth)
      case None => None
      case Some(tree) => Some(Child(off, width, tree))
  }

  function ParseFields(words: seq<u32>, types: Types, fields: seq<FieldPlan>, loc: Loc,
                       depth: nat): (r: Option<seq<TField>>)
    requires depth <= MAXDEPTH && HeaderInside(words, loc.at)
    ensures r.Some? ==> |r.value| == |fields|
    decreases MAXDEPTH - depth, 2, |fields|
  {
    if fields == [] then Some([])
    else
      var n := |fields| - 1;
      match ParseFields(words, types, fields[..n], loc, depth)
      case None => None
      case Some(fs) =>
        match ParseField(words, types, fields[n], loc, depth)
        case None => None
        case Some(f) => Some(fs + [f])
  }

  /** Byte spans of `count` cells, `stride` apart. */
  function ParseSpans(words: seq<u32>, at: nat, stride: nat, width: nat, count: nat): (r: Option<seq<(nat, nat)>>)
    ensures r.Some? ==> |r.value| == count
    decreases count
  {
    if count == 0 then Some([])
    else
      match ParseSpans(words, at, stride, width, count - 1)
      case None => None
      case Some(spans) =>
        match BytesAt(words, at + Prod(stride, count - 1), width)
        case None => None
        case Some(span) => Some(spans + [span])
  }

  /** The object of a cell. */
  function ParseCell(words: seq<u32>, types: Types, child: nat, at: nat, width: nat, depth: nat): Option<Tree>
    requires depth < MAXDEPTH
    decreases MAXDEPTH - depth, 0, 0
  {
    match ObjectLocation(words, at, width)
    case None => None
    case Some(loc) => Parse(words, types, child, loc, depth + 1)
  }

  /** Child objects of `count` cells, `stride` apart. */
  function ParseChildren(words: seq<u32>, types: Types, child: nat, at: nat, stride: nat, width: nat, count: nat,
        depth: nat): (r: Option<seq<Tree>>)
    requires depth < MAXDEPTH
    ensures r.Some? ==> |r.value| == count
    decreases MAXDEPTH - depth, 1, count
  {
    if count == 0 then Some([])
    else
      match ParseChildren(words, types, child, at, stride, width, count - 1, depth)
      case None => None
      case Some(trees) =>
        match ParseCell(words, types, child, at + Prod(stride, count - 1), width, depth)
        case None => None
        case Some(tree) => Some(trees + [tree])
  }

  function ParseArray(words: seq<u32>, types: Types, tid: nat, value: Kind, child: nat, loc: Loc,
                      depth: nat): Option<Tree>
    requires depth <= MAXDEPTH && loc.at < loc.limit <= |words|
    decreases MAXDEPTH - depth, 2, 0
  {
    if value.KBool? then
      match ParseBytes(words, loc)
      case None => None
      case Some((off, len)) => Some(TBools(tid, off, len))
    else
      var width, count, body := words[loc.at] % 4, words[loc.at] / 4, loc.at + 1;
      if width == 0 || body + Prod(width, count) > loc.limit then None
      else if IsBytes(value) then
        match ParseSpans(words, body, width, width, count)
        case None => None
        case Some(spans) => Some(TStrings(tid, body, width, spans))
      else if !IsComplex(value) then
        if width == ScalarWidth(value) then Some(TScalars(tid, value, count, body, width)) else None
      else if depth >= MAXDEPTH then None
      else
        match ParseChildren(words, types, child, body, width, width, count, depth)
        case None => None
        case Some(children) => Some(TArray(tid, body, width, children))
  }

  function MapInfo(words: seq<u32>, key: Kind, value: Kind, at: nat): MapHeadInfo
    requires at < |words|
  {
    var count := words[at] % LIMIT;
    MapHeadInfo(key, value, count, at + (IndexByteLength(count) + 3) / 4, words[at] / 0x4000_0000,
                words[at] / 0x1000_0000 % 4)
  }

  function ParseMap(words: seq<u32>, types: Types, tid: nat, key: Kind, value: Kind, child: nat, loc: Loc,
                    depth: nat): Option<Tree>
    requires depth <= MAXDEPTH && loc.at < loc.limit <= |words|
    decreases MAXDEPTH - depth, 2, 0
  {
    var info := MapInfo(words, key, value, loc.at);
    var stride := info.keyWidth + info.valueWidth;
    if info.keyWidth == 0 || info.valueWidth == 0 || info.body + Prod(stride, info.count) > loc.limit then None
    else if !key.KString? && info.keyWidth != ScalarWidth(key) then None
    else if !IsComplex(value) && !IsBytes(value) && info.valueWidth != ScalarWidth(value) then None
    else
      var keys := if key.KString? then ParseSpans(words, info.body, stride, info.keyWidth, info.count) else Some([]);
      var values := if IsBytes(value) then
            ParseSpans(words, info.body + info.keyWidth, stride, info.valueWidth, info.count) else Some([]);
      if keys.None? || values.None? then None
      else if !IsComplex(value) then Some(TMap(tid, info, keys.value, values.value, []))
      else if depth >= MAXDEPTH then None
      else
        match ParseChildren(words, types, child, info.body + info.keyWidth, stride, info.valueWidth, info.count, depth)
        case None => None
        case Some(children) => Some(TMap(tid, info, keys.value, values.value, children))
  }

  // ---------------------------------------------------------------------
  // The parts of a parsed container
  // ---------------------------------------------------------------------

  lemma {:induction false} SpanAt(words: seq<u32>, at: nat, stride: nat, width: nat, count: nat, i: nat)
    requires i < count
    ensures var r := ParseSpans(words, at, stride, width, count);
            var cell := BytesAt(words, at + Prod(stride, i), width);
            (r.Some? ==> cell == Some(r.value[i])) && (cell.None? ==> r.None?)
    decreases count
  {
    hide BytesAt;
    if i < count - 1 { SpanAt(words, at, stride, width, count - 1, i); }
  }

  lemma {:induction false} SpansAll(words: seq<u32>, at: nat, stride: nat, width: nat, count: nat,
                                    spans: seq<(nat, nat)>)
    requires |spans| == count && forall i | 0 <= i < count ::
               BytesAt(words, at + Prod(stride, i), width) == Some(spans[i])
    ensures ParseSpans(words, at, stride, width, count) == Some(spans)
    decreases count
  {
    hide BytesAt, Prod;
    if count > 0 {
      SpansAll(words, at, stride, width, count - 1, spans[..count - 1]);
      assert spans == spans[..count - 1] + [spans[count - 1]];
    }
  }

  lemma {:induction false} ChildAt(words: seq<u32>, types: Types, child: nat, at: nat, stride: nat, width: nat,
        count: nat, depth: nat, i: nat)
    requires depth < MAXDEPTH && i < count
    ensures var r := ParseChildren(words, types, child, at, stride, width, count, depth);
            var cell := ParseCell(words, types, child, at + Prod(stride, i), width, depth);
            (r.Some? ==> cell == Some(r.value[i])) && (cell.None? ==> r.None?)
    decreases count
  {
    hide ParseCell;
    if i < count - 1 { ChildAt(words, types, child, at, stride, width, count - 1, depth, i); }
  }

  lemma {:induction false} ChildrenAll(words: seq<u32>, types: Types, child: nat, at: nat, stride: nat, width: nat,
        count: nat, depth: nat, trees: seq<Tree>)
    requires depth < MAXDEPTH && |trees| == count
    requires forall i | 0 <= i < count ::
               ParseCell(words, types, child, at + Prod(stride, i), width, depth) == Some(trees[i])
    ensures ParseChildren(words, types, child, at, stride, width, count, depth) == Some(trees)
    decreases count
  {
    hide ParseCell, Prod;
    if count > 0 {
      ChildrenAll(words, types, child, at, stride, width, count - 1, depth, trees[..count - 1]);
      assert trees == trees[..count - 1] + [trees[count - 1]];
    }
  }

  lemma {:induction false} FieldParsed(words: seq<u32>, types: Types, fields: seq<FieldPlan>, loc: Loc, depth: nat,
                                       i: nat)
    requires depth <= MAXDEPTH && HeaderInside(words, loc.at) && i < |fields|
    ensures var r := ParseFields(words, types, fields, loc, depth);
            var f := ParseField(words, types, fields[i], loc, depth);
            (r.Some? ==> f == Some(r.value[i])) && (f.None? ==> r.None?)
    decreases |fields|
  {
    hide ParseField;
    if i < |fields| - 1 { FieldParsed(words, types, fields[..|fields| - 1], loc, depth, i); }
  }

  lemma {:induction false} FieldsAll(words: seq<u32>, types: Types, fields: seq<FieldPlan>, loc: Loc, depth: nat,
                                     fs: seq<TField>)
    requires depth <= MAXDEPTH && HeaderInside(words, loc.at) && |fs| == |fields|
    requires forall i | 0 <= i < |fields| :: ParseField(words, types, fields[i], loc, depth) == Some(fs[i])
    ensures ParseFields(words, types, fields, loc, depth) == Some(fs)
    decreases |fields|
  {
    hide ParseField;
    if fields != [] {
      var n := |fields| - 1;
      FieldsAll(words, types, fields[..n], loc, depth, fs[..n]);
      assert fs == fs[..n] + [fs[n]];
    }
  }

  // ---------------------------------------------------------------------
  // What a parsed tree guarantees its consumer
  // ---------------------------------------------------------------------

  ghost predicate SpansInside(n: nat, spans: seq<(nat, nat)>) {
    forall i | 0 <= i < |spans| :: spans[i].0 + spans[i].1 <= 4 * n
  }

  /** The tree has the shape of type `tid` and points inside an input of `n` words. */
  ghost predicate Fits(n: nat, types: Types, tid: nat, tree: Tree)
    decreases tree
  {
    && tid < |types| && tree.tid == tid
    && match types[tid]
       case MessageType(fields, _) =>
         && tree.TMessage? && |tree.fields| == |fields|
         && forall i | 0 <= i < |fields| :: FieldFits(n, types, fields[i], tree.fields[i])
       case ArrayType(value, child) =>
         (match tree
          case TBools(_, off, len) => value.KBool? && off + len <= 4 * n
          case TScalars(_, kind, count, body, width) =>
            && IsScalar(value) && !value.KBool? && kind == value
            && width == ScalarWidth(value) && body + Prod(width, count) <= n
          case TStrings(_, body, width, spans) =>
            IsBytes(value) && SpansInside(n, spans) && 0 < width <= 3 && body + Prod(width, |spans|) <= n
          case TArray(_, body, width, children) =>
            && IsComplex(value) && 0 < width <= 3 && body + Prod(width, |children|) <= n
            && forall i | 0 <= i < |children| :: Fits(n, types, child, children[i])
          case _ => false)
       case MapType(key, value, child) =>
         && tree.TMap? && MapFits(n, key, value, tree.info, tree.keys, tree.values, |tree.children|)
         && forall i | 0 <= i < |tree.children| :: Fits(n, types, child, tree.children[i])
  }

  ghost predicate FieldFits(n: nat, types: Types, plan: FieldPlan, field: TField)
    decreases field
  {
    match field
    case Missing => true
    case Scalar(kind, at, width) =>
      IsScalar(plan.kind) && kind == plan.kind && width == ScalarWidth(kind) && 0 < at && at + width <= n
    case Span(off, len) => IsBytes(plan.kind) && 0 < off && off + len <= 4 * n
    case Child(at, width, tree) => IsComplex(plan.kind) && 0 < at && at + width <= n && Fits(n, types, plan.child, tree)
  }

  ghost predicate MapFits(n: nat, key: Kind, value: Kind, info: MapHeadInfo, keys: seq<(nat, nat)>, values: seq<(nat,
        nat)>, children: nat) {
    && info.key == key && info.value == value && 0 < info.keyWidth <= 3 && info.valueWidth <= 3
    && info.body + Prod(info.keyWidth + info.valueWidth, info.count) <= n
    && |keys| == (if key.KString? then info.count else 0) && SpansInside(n, keys)
    && |values| == (if IsBytes(value) then info.count else 0) && SpansInside(n, values)
    && children == (if IsComplex(value) then info.count else 0)
    && (!key.KString? ==> info.keyWidth == ScalarWidth(key))
    && (IsScalar(value) ==> info.valueWidth == ScalarWidth(value))
  }

  lemma SpansParsedInside(words: seq<u32>, at: nat, stride: nat, width: nat, count: nat)
    ensures var r := ParseSpans(words, at, stride, width, count);
            r.Some? ==> SpansInside(|words|, r.value)
  {
    hide ParseSpans, Prod;
    var r := ParseSpans(words, at, stride, width, count);
    if r.Some? {
      SpansLength(words, at, stride, width, count);
      forall i | 0 <= i < |r.value| ensures r.value[i].0 + r.value[i].1 <= 4 * |words| {
        SpanAt(words, at, stride, width, count, i);
      }
    }
  }

  lemma SpansLength(words: seq<u32>, at: nat, stride: nat, width: nat, count: nat)
    ensures var r := ParseSpans(words, at, stride, width, count); r.Some? ==> |r.value| == count
  {
  }

  /** Whatever Parse accepts fits its type and the input. */
  lemma {:induction false} ParseFits(words: seq<u32>, types: Types, tid: nat, loc: Loc, depth: nat)
    requires depth <= MAXDEPTH && loc.limit <= |words|
    ensures var r := Parse(words, types, tid, loc, depth);
            r.Some? ==> Fits(|words|, types, tid, r.value)
    decreases MAXDEPTH - depth, 2
  {
    hide ParseFields, ParseArray, ParseMap, FieldsInside, BodyWords, Fits;
    var r := Parse(words, types, tid, loc, depth);
    if r.Some? {
      match types[tid]
      case MessageType(fields, _) =>
        MessageParsedFits(words, types, tid, loc, depth, r.value);
      case ArrayType(value, child) =>
        ArrayParsedFits(words, types, tid, value, child, loc, depth);
      case MapType(key, value, child) =>
        MapParsedFits(words, types, tid, key, value, child, loc, depth);
    }
  }

  lemma {:induction false} MessageParsedFits(words: seq<u32>, types: Types, tid: nat, loc: Loc, depth: nat, tree: Tree)
    requires depth <= MAXDEPTH && loc.limit <= |words| && tid < |types| && types[tid].MessageType?
    requires HeaderInside(words, loc.at) && FieldsInside(words, loc)
    requires tree.TMessage? && tree.tid == tid
    requires ParseFields(words, types, types[tid].fields, loc, depth) == Some(tree.fields)
    ensures Fits(|words|, types, tid, tree)
    decreases MAXDEPTH - depth, 1
  {
    hide ParseFields, ParseField, FieldFits, FieldsInside;
    var fields := types[tid].fields;
    FieldsLength(words, types, fields, loc, depth);
    forall i | 0 <= i < |fields| ensures FieldFits(|words|, types, fields[i], tree.fields[i]) {
      FieldParsed(words, types, fields, loc, depth, i);
      FieldParsedFits(words, types, fields[i], loc, depth, tree.fields[i]);
    }
  }

  lemma FieldsLength(words: seq<u32>, types: Types, fields: seq<FieldPlan>, loc: Loc, depth: nat)
    requires depth <= MAXDEPTH && HeaderInside(words, loc.at)
    ensures var r := ParseFields(words, types, fields, loc, depth); r.Some? ==> |r.value| == |fields|
  {
  }

  lemma {:induction false} FieldParsedFits(words: seq<u32>, types: Types, plan: FieldPlan, loc: Loc, depth: nat,
                                           field: TField)
    requires depth <= MAXDEPTH && loc.limit <= |words| && HeaderInside(words, loc.at) && FieldsInside(words, loc)
    requires ParseField(words, types, plan, loc, depth) == Some(field)
    ensures FieldFits(|words|, types, plan, field)
    decreases MAXDEPTH - depth, 0
  {
    hide Scan, Fits, ParseCell, BytesAt;
    ScanIds(words, loc.at, plan.id);
    if IsBytes(plan.kind) {
      var (off, width) := Scan(words, loc.at, plan.id);
      BytesAtInside(words, off, width);
    }
    if field.Child? { CellParsedFits(words, types, plan.child, field.at, field.width, depth); }
  }

  lemma BytesAtInside(words: seq<u32>, off: nat, width: nat)
    ensures var r := BytesAt(words, off, width);
            r.Some? ==> r.value.0 > 0 && r.value.0 + r.value.1 <= 4 * |words|
  {
  }

  lemma {:induction false} CellParsedFits(words: seq<u32>, types: Types, child: nat, at: nat, width: nat, depth: nat)
    requires depth < MAXDEPTH
    ensures var r := ParseCell(words, types, child, at, width, depth);
            r.Some? ==> Fits(|words|, types, child, r.value)
    decreases MAXDEPTH - depth - 1, 3
  {
    hide Parse, Fits;
    var o := ObjectLocation(words, at, width);
    if o.Some? { ParseFits(words, types, child, o.value, depth + 1); }
  }

  lemma {:induction false} ChildrenParsedFit(words: seq<u32>, types: Types, child: nat, at: nat, stride: nat,
                                             width: nat,
        count: nat, depth: nat)
    requires depth < MAXDEPTH
    ensures var r := ParseChildren(words, types, child, at, stride, width, count, depth);
            r.Some? ==> |r.value| == count && forall i | 0 <= i < count :: Fits(|words|, types, child, r.value[i])
    decreases MAXDEPTH - depth, 0
  {
    hide Parse, Fits, ParseCell, Prod;
    var r := ParseChildren(words, types, child, at, stride, width, count, depth);
    if r.Some? {
      forall i | 0 <= i < count ensures Fits(|words|, types, child, r.value[i]) {
        ChildAt(words, types, child, at, stride, width, count, depth, i);
        CellParsedFits(words, types, child, at + Prod(stride, i), width, depth);
      }
    }
  }

  lemma {:induction false} ArrayParsedFits(words: seq<u32>, types: Types, tid: nat, value: Kind, child: nat, loc: Loc,
                                           depth: nat)
    requires depth <= MAXDEPTH && loc.at < loc.limit <= |words| && tid < |types|
    requires types[tid] == ArrayType(value, child)
    ensures var r := ParseArray(words, types, tid, value, child, loc, depth);
            r.Some? ==> Fits(|words|, types, tid, r.value)
    decreases MAXDEPTH - depth, 1
  {
    hide ParseSpans, ParseChildren, ParseBytes, Prod;
    var width, count, body := words[loc.at] % 4, words[loc.at] / 4, loc.at + 1;
    if value.KBool? {
      BytesParsedInside(words, loc);
    } else if IsBytes(value) {
      SpansParsedInside(words, body, width, width, count);
    } else if IsComplex(value) && depth < MAXDEPTH {
      ChildrenParsedFit(words, types, child, body, width, width, count, depth);
    }
  }

  lemma BytesParsedInside(words: seq<u32>, loc: Loc)
    ensures var r := ParseBytes(words, loc); r.Some? ==> r.value.0 > 0 && r.value.0 + r.value.1 <= 4 * |words|
  {
  }

  lemma {:induction false} MapParsedFits(words: seq<u32>, types: Types, tid: nat, key: Kind, value: Kind, child: nat,
                                         loc: Loc, depth: nat)
    requires depth <= MAXDEPTH && loc.at < loc.limit <= |words| && tid < |types|
    requires types[tid] == MapType(key, value, child)
    ensures var r := ParseMap(words, types, tid, key, value, child, loc, depth);
            r.Some? ==> Fits(|words|, types, tid, r.value)
    decreases MAXDEPTH - depth, 1
  {
    hide ParseSpans, ParseChildren, Prod, IndexByteLength;
    var info := MapInfo(words, key, value, loc.at);
    var stride := info.keyWidth + info.valueWidth;
    SpansLength(words, info.body, stride, info.keyWidth, info.count);
    SpansParsedInside(words, info.body, stride, info.keyWidth, info.count);
    SpansLength(words, info.body + info.keyWidth, stride, info.valueWidth, info.count);
    SpansParsedInside(words, info.body + info.keyWidth, stride, info.valueWidth, info.count);
    if IsComplex(value) && depth < MAXDEPTH {
      ChildrenParsedFit(words, types, child, info.body + info.keyWidth, stride, info.valueWidth, info.count, depth);
    }
  }
}
