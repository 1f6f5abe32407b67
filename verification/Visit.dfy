/** The validating decoder of typescript/wasm/decode_tape.cc. */
module Visitor {
  import opened Words
  import opened Swar
  import opened Strings
  import opened Schema
  import opened Messages
  import opened HashIndex
  import opened Serialize
  import opened Decode
  import opened Tapes

  // ---------------------------------------------------------------------
  // Section words read as two halves
  // ---------------------------------------------------------------------

  lemma {:induction false} FieldsJoin(low: nat, high: nat, k: nat, n: nat)
    requires low < Shl2(1, k)
    ensures Fields(low + Shl2(high, k), k + n) == Fields(low, k) + Fields(high, n)
    decreases k
  {
    if k > 0 {
      var v := low + Shl2(high, k);
      assert v % 4 == low % 4 && v / 4 == low / 4 + Shl2(high, k - 1);
      FieldsJoin(low / 4, high, k - 1, n);
      assert Fields(v, k + n) == [v % 4] + Fields(v / 4, k + n - 1);
    }
  }

  lemma Shl2Halves(x: nat)
    ensures Shl2(1, 16) == TWO32 && Shl2(1, 9) == 0x4_0000
    ensures Shl2(x, 16) == TWO32 * x && Shl2(x, 9) == 0x4_0000 * x
  {
    assert Shl2(1, 4) == 0x100;
    assert Shl2(1, 8) == 0x1_0000;
    assert Shl2(1, 12) == 0x100_0000;
    Shl2Times(x, 16);
    Shl2Times(x, 9);
  }

  /** The 25 widths of a section are 16 in its low word and 9 in its high word. */
  lemma SectionHalves(low: u32, high: u32)
    ensures Fields(low + TWO32 * high, 25) == Fields(low, 16) + Fields(high, 9)
    ensures Fields(high, 9) == Fields(high % 0x4_0000, 9)
    ensures (low + TWO32 * high) / TWO50 == high / 0x4_0000
  {
    hide Fields, Shl2;
    Shl2Halves(high);
    FieldsJoin(low, high, 16, 9);
    var h, c := high % 0x4_0000, high / 0x4_0000;
    Shl2Halves(c);
    FieldsJoin(h, c, 9, 0);
    NoneLeft(c);
    assert Fields(h, 9) + [] == Fields(h, 9);
  }

  lemma NoneLeft(c: nat)
    ensures Fields(c, 0) == []
  {
  }

  /** SumWidths. */
  method SumWidths(widths: nat, count: nat) returns (total: nat)
    ensures total == Sum(Fields(widths, count))
  {
    var rest, i := widths, 0;
    total := 0;
    while i < count
      invariant 0 <= i <= count && rest >= 0
      invariant Sum(Fields(widths, count)) == total + Sum(Fields(rest, count - i))
    {
      assert Fields(rest, count - i)[1..] == Fields(rest / 4, count - i - 1);
      total := total + rest % 4;
      rest := rest / 4;
      i := i + 1;
    }
  }

  /** The words of the body as VisitMessage computes them. */
  method MeasureBody(words: seq<u32>, at: nat) returns (size: nat)
    requires HeaderInside(words, at)
    ensures size == BodyWords(words, at)
  {
    hide Fields, Sum;
    var first := words[at];
    var sections := first % 256;
    if sections == 0 {
      size := SumWidths(first / 256, 12);
    } else {
      var last := at + 1 + 2 * (sections - 1);
      var low, high := words[last], words[last + 1];
      var a := SumWidths(low, 16);
      var b := SumWidths(high % 0x4_0000, 9);
      size := high / 0x4_0000 + a + b;
      SectionHalves(low, high);
      SumAppend(Fields(low, 16), Fields(high, 9));
    }
  }

  // ---------------------------------------------------------------------
  // The varint loop
  // ---------------------------------------------------------------------

  lemma ByteInside(words: seq<u32>, loc: Loc, i: nat)
    requires loc.at <= loc.limit <= |words| && i < 4 * (loc.limit - loc.at)
    ensures BytesOf(words)[4 * loc.at..4 * loc.limit][i] == ByteOf(words[loc.at + i / 4], i % 4)
  {
  }

  /** The loop over the varint header of a byte array. */
  method ReadVar(words: seq<u32>, loc: Loc) returns (r: Option<(nat, nat)>)
    requires loc.at <= loc.limit <= |words|
    ensures |BytesOf(words)| == 4 * |words| && r == ParseVar(BytesOf(words)[4 * loc.at..4 * loc.limit], 5)
  {
    hide ParseVar, Resume, Scaled, ByteOf;
    ghost var all := BytesOf(words)[4 * loc.at..4 * loc.limit];
    assert all[0..] == all;
    var i: nat, mark: nat, scale: nat := 0, 0, 1;
    ResumeStart(ParseVar(all, 5));
    while i < 5
      invariant 0 <= i <= 5 && i <= |all|
      invariant ParseVar(all, 5) == Resume(mark, scale, i, ParseVar(all[i..], 5 - i))
    {
      ParseVarStep(all, i);
      if i >= 4 * (loc.limit - loc.at) {
        ResumeNone(mark, scale, i);
        return None;
      }
      ByteInside(words, loc, i);
      var b: nat := ByteOf(words[loc.at + i / 4], i % 4);
      var part: nat, left: nat := Scaled(b % 128, scale), Scaled(128, scale);
      if b < 128 {
        ResumeLast(mark, scale, i, b);
        return Some((mark + part, i + 1));
      }
      ResumeNext(mark, scale, i, b - 128, ParseVar(all[i + 1..], 4 - i));
      mark, scale, i := mark + part, left, i + 1;
    }
    NothingAfterFive(all, i);
    ResumeNone(mark, scale, i);
    return None;
  }

  /** ParseBytes. */
  method ReadBytes(words: seq<u32>, loc: Loc) returns (r: Option<(nat, nat)>)
    requires loc.limit <= |words|
    ensures r == ParseBytes(words, loc)
  {
    if loc.at + 1 > loc.limit { return None; }
    var header := ReadVar(words, loc);
    if header.None? { return None; }
    var (mark, used) := header.value;
    if mark % 4 != 0 { return None; }
    var len := mark / 4;
    if len > 4 * (loc.limit - loc.at) - used { return None; }
    return Some((4 * loc.at + used, len));
  }

  // ---------------------------------------------------------------------
  // Recording the cells of a message
  // ---------------------------------------------------------------------

  /** What the scan leaves in a descriptor: place and width of the cell, or zeros. */
  function Raw(words: seq<u32>, at: nat, id: nat): (nat, nat)
    requires HeaderInside(words, at)
  {
    var (off, width) := Scan(words, at, id);
    if width == 0 then (0, 0) else (off, width)
  }

  /** The descriptors of all fields with an id below `n` are recorded, the others are blank. */
  ghost predicate Recorded(words: seq<u32>, at: nat, fields: seq<FieldPlan>, n: nat, pairs: seq<(nat, nat)>)
    requires HeaderInside(words, at)
  {
    && |pairs| == |fields|
    && forall i | 0 <= i < |pairs| :: pairs[i] == if fields[i].id < n then Raw(words, at, fields[i].id) else (0, 0)
  }

  ghost predicate InsideUpTo(words: seq<u32>, loc: Loc, n: nat)
    requires HeaderInside(words, loc.at)
  {
    forall id: nat | id < n :: Scan(words, loc.at, id).1 > 0 ==>
             Scan(words, loc.at, id).0 + Scan(words, loc.at, id).1 <= loc.limit
  }

  lemma RecordSkip(words: seq<u32>, at: nat, fields: seq<FieldPlan>, id: nat, pairs: seq<(nat, nat)>)
    requires HeaderInside(words, at) && Recorded(words, at, fields, id, pairs)
    requires Raw(words, at, id) == (0, 0) || forall i | 0 <= i < |fields| :: fields[i].id != id
    ensures Recorded(words, at, fields, id + 1, pairs)
  {
    hide Scan, Raw;
  }

  lemma RecordPut(words: seq<u32>, at: nat, fields: seq<FieldPlan>, id: nat, pairs: seq<(nat, nat)>, i: nat)
    requires HeaderInside(words, at) && Recorded(words, at, fields, id, pairs) && i < |fields| && fields[i].id == id
    requires forall j | 0 <= j < |fields| && fields[j].id == id :: j == i
    ensures Recorded(words, at, fields, id + 1, pairs[i := Raw(words, at, id)])
  {
    hide Scan, Raw;
  }

  /** Where the fields after the default section end up. */
  lemma RecordedAll(words: seq<u32>, at: nat, fields: seq<FieldPlan>, pairs: seq<(nat, nat)>)
    requires HeaderInside(words, at) && Recorded(words, at, fields, 12 + 25 * (words[at] % 256), pairs)
    ensures forall i | 0 <= i < |fields| :: pairs[i] == Raw(words, at, fields[i].id)
  {
    hide Scan;
    forall i | 0 <= i < |fields| ensures pairs[i] == Raw(words, at, fields[i].id) {
      ScanIds(words, at, fields[i].id);
    }
  }

  lemma InsideAll(words: seq<u32>, loc: Loc)
    requires HeaderInside(words, loc.at)
    ensures InsideUpTo(words, loc, 12 + 25 * (words[loc.at] % 256)) <==> FieldsInside(words, loc)
  {
    hide Scan;
  }

  lemma Outside(words: seq<u32>, loc: Loc, id: nat)
    requires HeaderInside(words, loc.at) && Scan(words, loc.at, id).1 > 0
    requires Scan(words, loc.at, id).0 + Scan(words, loc.at, id).1 > loc.limit
    ensures !FieldsInside(words, loc)
  {
    hide Scan;
    ScanIds(words, loc.at, id);
  }

  /** One step of the loop over the default section. */
  lemma DefaultStep(words: seq<u32>, at: nat, id: nat, widths: nat, offset: nat)
    requires HeaderInside(words, at) && id < 12
    requires DefaultWidths(words, at)[id..] == Fields(widths, 12 - id) && offset == Sum(DefaultWidths(words, at)[..id])
    ensures Scan(words, at, id) == (BodyStart(words, at) + offset, widths % 4)
    ensures DefaultWidths(words, at)[id + 1..] == Fields(widths / 4, 11 - id)
    ensures offset + widths % 4 == Sum(DefaultWidths(words, at)[..id + 1])
  {
    hide Sum, Fields, DefaultWidths;
    DefaultCount(words, at);
    var ws := DefaultWidths(words, at);
    WidthStep(ws, id, widths);
  }

  lemma DefaultCount(words: seq<u32>, at: nat)
    requires HeaderInside(words, at)
    ensures |DefaultWidths(words, at)| == 12
  {
    hide Fields;
  }

  lemma WidthStep(ws: seq<nat>, i: nat, widths: nat)
    requires i < |ws| && ws[i..] == Fields(widths, |ws| - i)
    ensures ws[i] == widths % 4 && ws[i + 1..] == Fields(widths / 4, |ws| - i - 1)
    ensures Sum(ws[..i + 1]) == Sum(ws[..i]) + ws[i]
  {
    hide Sum;
    assert ws[i] == ws[i..][0];
    assert ws[i + 1..] == ws[i..][1..];
    SumNext(ws, i);
  }

  lemma SumNext(ws: seq<nat>, i: nat)
    requires i < |ws|
    ensures Sum(ws[..i + 1]) == Sum(ws[..i]) + ws[i]
  {
    assert ws[..i + 1] == ws[..i] + [ws[i]];
    SumAppend(ws[..i], [ws[i]]);
    ValCons(ws[i], []);
    SumNone();
    assert [ws[i]] + [] == [ws[i]];
  }

  /** One step of the loop over section `a`. */
  lemma SectionStep(words: seq<u32>, at: nat, a: nat, b: nat, offset: nat)
    requires HeaderInside(words, at) && a < words[at] % 256 && b < 25
    requires offset == SectionWord(words, at, a) / TWO50 + Sum(SectionWidths(words, at, a)[..b])
    ensures var low, high := words[at + 1 + 2 * a], words[at + 2 + 2 * a];
            var width := if b < 16 then FieldAt(low, b) else FieldAt(high, b - 16);
            && Scan(words, at, 12 + 25 * a + b) == (BodyStart(words, at) + offset, width)
            && offset + width == SectionWord(words, at, a) / TWO50 + Sum(SectionWidths(words, at, a)[..b + 1])
  {
    hide Sum, Fields, FieldAt;
    var low, high := words[at + 1 + 2 * a], words[at + 2 + 2 * a];
    SectionHalves(low, high);
    if b < 16 { FieldsAt(low, 16, b); } else { FieldsAt(high, 9, b - 16); }
    var ws := SectionWidths(words, at, a);
    SumNext(ws, b);
    SectionOf(a, b);
  }

  lemma SectionOf(a: nat, b: nat)
    requires b < 25
    ensures (12 + 25 * a + b - 12) / 25 == a && (12 + 25 * a + b - 12) % 25 == b
  {
  }

  ghost predicate Extends(before: seq<nat>, after: seq<nat>) {
    |before| <= |after| && after[..|before|] == before
  }

  lemma NotListed(fields: seq<FieldPlan>, indexById: seq<int>, id: nat)
    requires Indexed(fields, indexById) && (id >= |indexById| || indexById[id] < 0)
    ensures forall i | 0 <= i < |fields| :: fields[i].id != id
  {
  }

  lemma ListedOnce(fields: seq<FieldPlan>, indexById: seq<int>, id: nat)
    requires Indexed(fields, indexById) && id < |indexById| && indexById[id] >= 0
    ensures indexById[id] < |fields| && fields[indexById[id]].id == id
    ensures forall j | 0 <= j < |fields| && fields[j].id == id :: j == indexById[id]
  {
  }

  class Decoder {
    const words: seq<u32>
    const types: Types
    var tape: seq<nat>

    constructor (words: seq<u32>, types: Types)
      ensures this.words == words && this.types == types && tape == []
    {
      this.words := words;
      this.types := types;
      tape := [];
    }

    /** Stores the cell of field `id` in its descriptor, if the type has that field. */
    method Record(plan: TypePlan, at: nat, descriptors: nat, id: nat, off: nat, width: nat, ghost base: seq<nat>,
          ghost pairs: seq<(nat, nat)>)
      returns (ghost pairs': seq<(nat, nat)>)
      requires plan.MessageType? && Indexed(plan.fields, plan.indexById)
      requires HeaderInside(words, at) && Raw(words, at, id) == (off, width)
      requires |base| == descriptors && tape == base + Flat(pairs) && Recorded(words, at, plan.fields, id, pairs)
      modifies this
      ensures tape == base + Flat(pairs') && Recorded(words, at, plan.fields, id + 1, pairs')
    {
      hide Indexed, Raw, Flat;
      FlatLength(pairs);
      pairs' := pairs;
      if id >= |plan.indexById| || plan.indexById[id] < 0 {
        NotListed(plan.fields, plan.indexById, id);
        RecordSkip(words, at, plan.fields, id, pairs);
        return;
      }
      ListedOnce(plan.fields, plan.indexById, id);
      var index := plan.indexById[id];
      PatchFlat(base, pairs, [], index, (off, width));
      assert base + Flat(pairs) + [] == base + Flat(pairs);
      tape := tape[descriptors + 2 * index := off];
      tape := tape[descriptors + 2 * index + 1 := width];
      pairs' := pairs[index := (off, width)];
      assert base + Flat(pairs') + [] == base + Flat(pairs');
      RecordPut(words, at, plan.fields, id, pairs, index);
    }

    /** The loop over the default section. */
    method ScanDefault(plan: TypePlan, loc: Loc, descriptors: nat, ghost base: seq<nat>, ghost pairs: seq<(nat, nat)>)
      returns (ok: bool, ghost pairs': seq<(nat, nat)>)
      requires plan.MessageType? && Indexed(plan.fields, plan.indexById) && HeaderInside(words, loc.at)
      requires |base| == descriptors && tape == base + Flat(pairs) && Recorded(words, loc.at, plan.fields, 0, pairs)
      modifies this
      ensures Extends(base, tape)
      ensures ok ==> InsideUpTo(words, loc, 12)
      ensures ok ==> tape == base + Flat(pairs') && Recorded(words, loc.at, plan.fields, 12, pairs')
      ensures !ok ==> !FieldsInside(words, loc)
    {
      hide Fields, Sum, Scan, Flat, Recorded, Indexed, FieldsInside, DefaultWidths;
      ghost var ws := DefaultWidths(words, loc.at);
      var widths, offset, id := words[loc.at] / 256, 0, 0;
      var body := BodyStart(words, loc.at);
      pairs' := pairs;
      DefaultStart(words, loc.at);
      while id < 12
        invariant 0 <= id <= 12 && 0 <= widths && 0 <= offset
        invariant |ws| == 12 && ws[id..] == Fields(widths, 12 - id) && offset == Sum(ws[..id])
        invariant InsideUpTo(words, loc, id)
        invariant tape == base + Flat(pairs') && Recorded(words, loc.at, plan.fields, id, pairs')
      {
        var width := widths % 4;
        DefaultStep(words, loc.at, id, widths, offset);
        if width != 0 {
          if body + offset + width > loc.limit {
            Outside(words, loc, id);
            return false, pairs';
          }
          pairs' := Record(plan, loc.at, descriptors, id, body + offset, width, base, pairs');
          offset := offset + width;
        } else {
          RecordSkip(words, loc.at, plan.fields, id, pairs');
        }
        widths := widths / 4;
        id := id + 1;
      }
      ok := true;
    }

    /** The loop over the widths of section `a`. */
    method ScanSection(plan: TypePlan, loc: Loc, a: nat, descriptors: nat, ghost base: seq<nat>,
                       ghost pairs: seq<(nat, nat)>)
      returns (ok: bool, ghost pairs': seq<(nat, nat)>)
      requires plan.MessageType? && Indexed(plan.fields, plan.indexById) && HeaderInside(words, loc.at)
      requires a < words[loc.at] % 256 && InsideUpTo(words, loc, 12 + 25 * a)
      requires |base| == descriptors && tape == base + Flat(pairs)
      requires Recorded(words, loc.at, plan.fields, 12 + 25 * a, pairs)
      modifies this
      ensures Extends(base, tape)
      ensures ok ==> InsideUpTo(words, loc, 37 + 25 * a)
      ensures ok ==> tape == base + Flat(pairs') && Recorded(words, loc.at, plan.fields, 37 + 25 * a, pairs')
      ensures !ok ==> !FieldsInside(words, loc)
    {
      hide Fields, Sum, Scan, Flat, Recorded, Indexed, FieldsInside, SectionWidths, FieldAt;
      ghost var ws := SectionWidths(words, loc.at, a);
      var low, high := words[loc.at + 1 + 2 * a], words[loc.at + 2 + 2 * a];
      var body := BodyStart(words, loc.at);
      var offset := high / 0x4_0000;
      var index := 0;
      pairs' := pairs;
      SectionStart(words, loc.at, a);
      while index < 25
        invariant 0 <= index <= 25 && 0 <= offset && |ws| == 25
        invariant offset == SectionWord(words, loc.at, a) / TWO50 + Sum(ws[..index])
        invariant InsideUpTo(words, loc, 12 + 25 * a + index)
        invariant tape == base + Flat(pairs') && Recorded(words, loc.at, plan.fields, 12 + 25 * a + index, pairs')
      {
        var width := if index < 16 then FieldAt(low, index) else FieldAt(high, index - 16);
        var id := 12 + 25 * a + index;
        SectionStep(words, loc.at, a, index, offset);
        if width != 0 {
          if body + offset + width > loc.limit {
            Outside(words, loc, id);
            return false, pairs';
          }
          pairs' := Record(plan, loc.at, descriptors, id, body + offset, width, base, pairs');
          offset := offset + width;
        } else {
          RecordSkip(words, loc.at, plan.fields, id, pairs');
        }
        index := index + 1;
      }
      ok := true;
    }

    /** ValidateScalar for strings and byte arrays: puts the span into the descriptor. */
    method ValidateBytes(off: nat, width: nat, descriptor: nat) returns (ok: bool)
      requires descriptor + 1 < |tape|
      modifies this
      ensures var r := BytesAt(words, off, width);
              && ok == r.Some?
              && tape == if ok then old(tape)[descriptor := r.value.0][descriptor + 1 := r.value.1] else old(tape)
    {
      hide ParseBytes;
      var place := ObjectLocation(words, off, width);
      if place.None? { return false; }
      var bytes := ReadBytes(words, place.value);
      if bytes.None? { return false; }
      tape := tape[descriptor := bytes.value.0];
      tape := tape[descriptor + 1 := bytes.value.1];
      ok := true;
    }

    /** One field of a message: a complex child is visited, anything else is validated. */
    method VisitField(field: FieldPlan, loc: Loc, depth: nat, descriptor: nat, ghost base: seq<nat>,
          ghost pairs: seq<(nat, nat)>, ghost i: nat, ghost rest: seq<nat>)
      returns (ok: bool)
      requires TypesOk(types) && depth <= MAXDEPTH && HeaderInside(words, loc.at)
      requires i < |pairs| && pairs[i] == Raw(words, loc.at, field.id)
      requires descriptor == |base| + 2 * i && tape == base + Flat(pairs) + rest
      modifies this
      ensures Extends(base, tape)
      ensures var r := ParseField(words, types, field, loc, depth);
              && ok == r.Some?
              && (ok ==> tape == base + Flat(pairs[i := Desc(r.value)]) + (rest + FieldTape(r.value)))
      decreases MAXDEPTH - depth, 2
    {
      hide Scan, Parse, ParseBytes, ObjectLocation, Tape, Flat, TypesOk, BytesAt;
      FlatLength(pairs);
      FlatAt(pairs, i);
      ScanIds(words, loc.at, field.id);
      var off, width := tape[descriptor], tape[descriptor + 1];
      assert pairs[i := pairs[i]] == pairs;
      assert base + Flat(pairs) + (rest + []) == base + Flat(pairs) + rest;
      if off == 0 { return true; }
      if IsBytes(field.kind) {
        ok := ValidateBytes(off, width, descriptor);
        if ok {
          ghost var span := BytesAt(words, off, width).value;
          PatchFlat(base, pairs, rest, i, span);
          assert base + Flat(pairs[i := span]) + (rest + []) == base + Flat(pairs[i := span]) + rest;
        }
      } else if !IsComplex(field.kind) {
        ok := width == ScalarWidth(field.kind);
      } else {
        if depth >= MAXDEPTH { return false; }
        var child := ObjectLocation(words, off, width);
        if child.None? { return false; }
        LocationInside(words, off, width);
        ghost var before := tape;
        ok := Visit(field.child, child.value, depth + 1);
        if ok {
          ghost var t := Tape(Parse(words, types, field.child, child.value, depth + 1).value);
          assert base + Flat(pairs) + rest + t == base + Flat(pairs) + (rest + t);
        }
      }
    }

    /** The loop over the fields of a type. */
    method VisitFields(fields: seq<FieldPlan>, loc: Loc, depth: nat, descriptors: nat, ghost base: seq<nat>,
                       ghost raw: seq<(nat, nat)>)
      returns (ok: bool)
      requires TypesOk(types) && depth <= MAXDEPTH && HeaderInside(words, loc.at)
      requires |raw| == |fields| && forall i | 0 <= i < |raw| :: raw[i] == Raw(words, loc.at, fields[i].id)
      requires descriptors == |base| && tape == base + Flat(raw)
      modifies this
      ensures Extends(base, tape)
      ensures var r := ParseFields(words, types, fields, loc, depth);
              && ok == r.Some?
              && (ok ==> tape == base + Flat(Descs(r.value)) + FieldTapes(r.value))
      decreases MAXDEPTH - depth, 3
    {
      hide ParseField, ParseFields, Raw, Flat, FieldTapes, FieldTape, TypesOk, HeaderInside, Descs, Desc;
      ghost var fs: seq<TField> := [];
      FieldsStart(words, types, fields, loc, depth, raw);
      assert base + Flat(raw) + [] == base + Flat(raw);
      var i := 0;
      while i < |fields|
        invariant 0 <= i <= |fields| && |fs| == i && |Descs(fs)| == i
        invariant ParseFields(words, types, fields[..i], loc, depth) == Some(fs)
        invariant tape == base + Flat(Descs(fs) + raw[i..]) + FieldTapes(fs)
      {
        ghost var pairs := Descs(fs) + raw[i..];
        ok := VisitField(fields[i], loc, depth, descriptors + 2 * i, base, pairs, i, FieldTapes(fs));
        FieldParsed(words, types, fields, loc, depth, i);
        if !ok { return; }
        ghost var f := ParseField(words, types, fields[i], loc, depth).value;
        FieldsNext(words, types, fields, loc, depth, i, fs, f, raw);
        fs := fs + [f];
        i := i + 1;
      }
      assert fields[..i] == fields && raw[i..] == [];
      assert Descs(fs) + [] == Descs(fs);
      ok := true;
    }

    /** Both loops over the header. */
    method ScanHeader(plan: TypePlan, loc: Loc, descriptors: nat, ghost base: seq<nat>)
      returns (ok: bool, ghost raw: seq<(nat, nat)>)
      requires plan.MessageType? && Indexed(plan.fields, plan.indexById) && HeaderInside(words, loc.at)
      requires |base| == descriptors && tape == base + Blank(2 * |plan.fields|)
      modifies this
      ensures Extends(base, tape) && ok == FieldsInside(words, loc)
      ensures ok ==> tape == base + Flat(raw) && |raw| == |plan.fields|
      ensures ok ==> forall i | 0 <= i < |raw| :: raw[i] == Raw(words, loc.at, plan.fields[i].id)
    {
      hide Scan, Flat, Recorded, Indexed, FieldsInside, Raw, InsideUpTo;
      raw := NothingRecorded(words, loc, plan.fields);
      ok, raw := ScanDefault(plan, loc, descriptors, base, raw);
      if !ok { return; }
      var section, count := 0, words[loc.at] % 256;
      while section < count
        invariant 0 <= section <= count && InsideUpTo(words, loc, 12 + 25 * section)
        invariant tape == base + Flat(raw) && Recorded(words, loc.at, plan.fields, 12 + 25 * section, raw)
      {
        ok, raw := ScanSection(plan, loc, section, descriptors, base, raw);
        if !ok { return; }
        section := section + 1;
      }
      RecordedLength(words, loc.at, plan.fields, 12 + 25 * section, raw);
      RecordedAll(words, loc.at, plan.fields, raw);
      InsideAll(words, loc);
      ok := true;
    }

    method VisitMessage(tid: nat, loc: Loc, depth: nat) returns (ok: bool)
      requires TypesOk(types) && depth <= MAXDEPTH && loc.at < loc.limit <= |words|
      requires tid < |types| && types[tid].MessageType?
      modifies this
      ensures Extends(old(tape), tape)
      ensures var r := Parse(words, types, tid, loc, depth);
              ok == r.Some? && (ok ==> tape == old(tape) + Tape(r.value))
      decreases MAXDEPTH - depth, 4
    {
      hide ParseFields, Flat, Raw, FieldsInside, BodyWords, FieldTapes, Indexed, Descs;
      var plan := types[tid];
      if loc.at + 1 + 2 * (words[loc.at] % 256) > loc.limit { return false; }
      var size := MeasureBody(words, loc.at);
      if BodyStart(words, loc.at) + size > loc.limit { return false; }
      tape := tape + [1, tid + 1, |plan.fields|, 0, 0];
      ghost var base := tape;
      var descriptors := |tape|;
      tape := tape + Blank(2 * |plan.fields|);
      MessagePlanIndexed(types, tid);
      ghost var raw;
      ok, raw := ScanHeader(plan, loc, descriptors, base);
      if !ok { return; }
      ok := VisitFields(plan.fields, loc, depth, descriptors, base, raw);
      if ok {
        ghost var fs := ParseFields(words, types, plan.fields, loc, depth).value;
        FieldsLength(words, types, plan.fields, loc, depth);
        ghost var head := [1, tid + 1, |plan.fields|, 0, 0];
        assert old(tape) + head + Flat(Descs(fs)) + FieldTapes(fs)
               == old(tape) + (head + Flat(Descs(fs)) + FieldTapes(fs));
      }
    }

    /** The loop over complex elements of an array or values of a map. */
    method VisitChildren(child: nat, at: nat, stride: nat, width: nat, count: nat, depth: nat) returns (ok: bool)
      requires TypesOk(types) && depth < MAXDEPTH
      modifies this
      ensures Extends(old(tape), tape)
      ensures var r := ParseChildren(words, types, child, at, stride, width, count, depth);
              ok == r.Some? && (ok ==> tape == old(tape) + TreeTapes(r.value))
      decreases MAXDEPTH - depth, 3
    {
      hide Parse, Prod, TypesOk, TreeTapes, Tape, ObjectLocation;
      ghost var trees: seq<Tree> := [];
      NoTrees();
      assert tape + [] == tape;
      var index := 0;
      while index < count
        invariant 0 <= index <= count
        invariant ParseChildren(words, types, child, at, stride, width, index, depth) == Some(trees)
        invariant tape == old(tape) + TreeTapes(trees)
      {
        var cell := at + Prod(stride, index);
        ChildAt(words, types, child, at, stride, width, count, depth, index);
        LocationInside(words, cell, width);
        var place := ObjectLocation(words, cell, width);
        if place.None? { return false; }
        ghost var before := tape;
        ok := Visit(child, place.value, depth + 1);
        assert Extends(old(tape), tape);
        if !ok { return; }
        ghost var tree := Parse(words, types, child, place.value, depth + 1).value;
        TreeTapesStep(trees, tree);
        assert old(tape) + TreeTapes(trees) + Tape(tree) == old(tape) + (TreeTapes(trees) + Tape(tree));
        trees := trees + [tree];
        index := index + 1;
      }
      ok := true;
    }

    /** The loop over the strings or byte arrays of an array. */
    method PutSpan(at: nat, width: nat, descriptor: nat, ghost base: seq<nat>, ghost spans: seq<(nat, nat)>,
                   ghost left: nat)
        returns (ok: bool)
      requires tape == base + Flat(spans) + Blank(left + 2) && descriptor == |base| + 2 * |spans|
      modifies this
      ensures Extends(base, tape)
      ensures var r := BytesAt(words, at, width);
              ok == r.Some? && (ok ==> tape == base + Flat(spans + [r.value]) + Blank(left))
    {
      hide BytesAt, Flat;
      FlatLength(spans);
      ok := ValidateBytes(at, width, descriptor);
      if !ok { return; }
      PatchNext(base, spans, left, BytesAt(words, at, width).value);
    }

    method VisitSpans(at: nat, width: nat, count: nat) returns (ok: bool)
      modifies this
      ensures Extends(old(tape), tape)
      ensures var r := ParseSpans(words, at, width, width, count);
              ok == r.Some? && (ok ==> tape == old(tape) + Flat(r.value))
    {
      hide Prod, BytesAt, Flat;
      var descriptors := |tape|;
      ghost var base := tape;
      tape := tape + Blank(2 * count);
      ghost var spans: seq<(nat, nat)> := [];
      NothingFlat();
      assert base + [] + Blank(2 * count) == base + Blank(2 * count);
      var index := 0;
      while index < count
        invariant 0 <= index <= count
        invariant ParseSpans(words, at, width, width, index) == Some(spans)
        invariant tape == base + Flat(spans) + Blank(2 * (count - index))
      {
        SpanAt(words, at, width, width, count, index);
        ok := PutSpan(at + Prod(width, index), width, descriptors + 2 * index, base, spans, 2 * (count - index - 1));
        if !ok { return; }
        spans := spans + [BytesAt(words, at + Prod(width, index), width).value];
        index := index + 1;
      }
      assert base + Flat(spans) + Blank(0) == base + Flat(spans);
      ok := true;
    }

    method VisitArray(tid: nat, loc: Loc, depth: nat) returns (ok: bool)
      requires TypesOk(types) && depth <= MAXDEPTH && loc.at < loc.limit <= |words|
      requires tid < |types| && types[tid].ArrayType?
      modifies this
      ensures Extends(old(tape), tape)
      ensures var r := ParseArray(words, types, tid, types[tid].value, types[tid].child, loc, depth);
              ok == r.Some? && (ok ==> tape == old(tape) + Tape(r.value))
      decreases MAXDEPTH - depth, 4
    {
      hide ParseBytes, ParseSpans, ParseChildren, TreeTapes, Flat, Prod, TypesOk;
      var value, child := types[tid].value, types[tid].child;
      if value.KBool? {
        var bytes := ReadBytes(words, loc);
        if bytes.None? { return false; }
        tape := tape + [20, tid + 1, bytes.value.1, bytes.value.0, 0];
        return true;
      }
      var width, count, body := words[loc.at] % 4, words[loc.at] / 4, loc.at + 1;
      if width == 0 || body + Prod(width, count) > loc.limit { return false; }
      ghost var head := [20, tid + 1, count, body, width];
      tape := tape + [20, tid + 1, count, body, width];
      if IsBytes(value) {
        ok := VisitSpans(body, width, count);
        SpansLength(words, body, width, width, count);
        if ok {
          ghost var spans := ParseSpans(words, body, width, width, count).value;
          assert old(tape) + head + Flat(spans) == old(tape) + (head + Flat(spans));
        }
        return;
      }
      if !IsComplex(value) { return width == ScalarWidth(value); }
      if depth >= MAXDEPTH { return false; }
      ok := VisitChildren(child, body, width, width, count, depth);
      if ok {
        ghost var trees := ParseChildren(words, types, child, body, width, width, count, depth).value;
        assert old(tape) + head + TreeTapes(trees) == old(tape) + (head + TreeTapes(trees));
      }
    }

    method Visit(tid: nat, loc: Loc, depth: nat) returns (ok: bool)
      requires TypesOk(types) && depth <= MAXDEPTH && loc.limit <= |words|
      modifies this
      ensures Extends(old(tape), tape)
      ensures var r := Parse(words, types, tid, loc, depth);
              ok == r.Some? && (ok ==> tape == old(tape) + Tape(r.value))
      decreases MAXDEPTH - depth, 5
    {
      hide ParseFields, ParseArray, ParseMap, Tape, TypesOk, FieldsInside, BodyWords;
      if tid >= |types| || loc.at + 1 > loc.limit { return false; }
      match types[tid]
      case MessageType(_, _) => ok := VisitMessage(tid, loc, depth);
      case ArrayType(_, _) => ok := VisitArray(tid, loc, depth);
      case MapType(_, _, _) => ok := VisitMap(tid, loc, depth);
    }

    /** Key and value spans of one map entry. */
    method VisitEntry(info: MapHeadInfo, key: nat, descriptor: nat, ghost base: seq<nat>, ghost ks: seq<(nat, nat)>,
          ghost vs: seq<(nat, nat)>, ghost left: nat)
      returns (ok: bool, ghost ks': seq<(nat, nat)>, ghost vs': seq<(nat, nat)>)
      requires info.key.KString? && IsBytes(info.value) ==> |ks| == |vs|
      requires info.key.KString? || ks == []
      requires IsBytes(info.value) || vs == []
      requires tape == base + Flat(MapSpans(info, ks, vs)) + Blank(left + SpanStride(info))
      requires descriptor == |base| + 2 * |MapSpans(info, ks, vs)|
      modifies this
      ensures Extends(base, tape)
      ensures ok ==> tape == base + Flat(MapSpans(info, ks', vs')) + Blank(left)
      ensures ok ==> ks' == Longer(info.key.KString?, ks, BytesAt(words, key, info.keyWidth))
      ensures ok ==> vs' == Longer(IsBytes(info.value), vs, BytesAt(words, key + info.keyWidth, info.valueWidth))
      ensures ok == (&& (info.key.KString? ==> BytesAt(words, key, info.keyWidth).Some?)
                     && (IsBytes(info.value) ==> BytesAt(words, key + info.keyWidth, info.valueWidth).Some?))
    {
      hide BytesAt, Flat, MapSpans;
      ok, ks', vs' := true, ks, vs;
      var d := descriptor;
      ghost var pairs := MapSpans(info, ks, vs);
      ExtendsFront(base, Flat(pairs), Blank(left + SpanStride(info)));
      if info.key.KString? {
        ok := PutSpan(key, info.keyWidth, d, base, pairs, left + (if IsBytes(info.value) then 2 else 0));
        if !ok { return; }
        ghost var span := BytesAt(words, key, info.keyWidth).value;
        pairs, ks' := pairs + [span], ks + [span];
        d := d + 2;
      }
      if IsBytes(info.value) {
        ok := PutSpan(key + info.keyWidth, info.valueWidth, d, base, pairs, left);
        if !ok { return; }
        ghost var span := BytesAt(words, key + info.keyWidth, info.valueWidth).value;
        pairs, vs' := pairs + [span], vs + [span];
      }
      SpansNext(info, ks, vs, ks', vs', pairs);
    }

    /** The loop over the key and value spans of a map. */
    method VisitEntries(info: MapHeadInfo) returns (ok: bool)
      modifies this
      ensures Extends(old(tape), tape)
      ensures var keys, values := KeySpans(words, info), ValueSpans(words, info);
              && ok == (keys.Some? && values.Some?)
              && (ok ==> tape == old(tape) + Flat(MapSpans(info, keys.value, values.value)))
    {
      hide BytesAt, Flat, MapSpans, Prod, EntriesRead, ParseSpans;
      EntriesNone(words, info);
      var descriptors, stride := |tape|, SpanStride(info);
      ghost var base := tape;
      tape := tape + Blank(Prod(stride, info.count));
      ghost var ks: seq<(nat, nat)>, vs: seq<(nat, nat)> := [], [];
      NoSpans(info);
      NothingFlat();
      assert base + [] + Blank(Prod(stride, info.count)) == base + Blank(Prod(stride, info.count));
      ProdZero(stride);
      var index: nat, done: nat := 0, 0;
      while index < info.count
        invariant index <= info.count && done == Prod(stride, index) <= Prod(stride, info.count)
        invariant EntriesRead(words, info, ks, vs, index)
        invariant tape == base + Flat(MapSpans(info, ks, vs)) + Blank(Prod(stride, info.count) - done)
        invariant 2 * |MapSpans(info, ks, vs)| == done
      {
        var key := info.body + Prod(info.keyWidth + info.valueWidth, index);
        ProdNext(stride, index);
        ProdUpTo(stride, index + 1, info.count);
        EntriesCount(words, info, ks, vs, index);
        ghost var ks0, vs0 := ks, vs;
        ok, ks, vs := VisitEntry(info, key, descriptors + done, base, ks, vs,
                                 Prod(stride, info.count) - Prod(stride, index + 1));
        if !ok {
          EntryUnread(words, info, index);
          return;
        }
        EntriesNext(words, info, ks0, vs0, index);
        index, done := index + 1, done + stride;
        EntriesCount(words, info, ks, vs, index);
        SpansCount(info, ks, vs, index, done);
      }
      EntriesAll(words, info, ks, vs);
      assert base + Flat(MapSpans(info, ks, vs)) + Blank(0) == base + Flat(MapSpans(info, ks, vs));
      ok := true;
    }

    method VisitMap(tid: nat, loc: Loc, depth: nat) returns (ok: bool)
      requires TypesOk(types) && depth <= MAXDEPTH && loc.at < loc.limit <= |words|
      requires tid < |types| && types[tid].MapType?
      modifies this
      ensures Extends(old(tape), tape)
      ensures var r := ParseMap(words, types, tid, types[tid].key, types[tid].value, types[tid].child, loc, depth);
              ok == r.Some? && (ok ==> tape == old(tape) + Tape(r.value))
      decreases MAXDEPTH - depth, 4
    {
      hide ParseSpans, ParseChildren, TreeTapes, Flat, Prod, TypesOk, MapSpans, IndexByteLength;
      var plan := types[tid];
      var info := MapInfo(words, plan.key, plan.value, loc.at);
      var stride := info.keyWidth + info.valueWidth;
      if info.keyWidth == 0 || info.valueWidth == 0 || info.body + Prod(stride, info.count) > loc.limit {
        return false;
      }
      tape := tape + MapRecord(tid, info);
      if !plan.key.KString? && info.keyWidth != ScalarWidth(plan.key) { return false; }
      if !IsComplex(plan.value) && !IsBytes(plan.value) && info.valueWidth != ScalarWidth(plan.value) { return false; }
      ok := VisitEntries(info);
      if !ok { return; }
      ghost var keys, values := KeySpans(words, info).value, ValueSpans(words, info).value;
      ghost var spans := Flat(MapSpans(info, keys, values));
      if !IsComplex(plan.value) {
        NoTrees();
        assert old(tape) + MapRecord(tid, info) + spans == old(tape) + (MapRecord(tid, info) + spans + []);
        return;
      }
      if depth >= MAXDEPTH { return false; }
      ok := VisitChildren(plan.child, info.body + info.keyWidth, stride, info.valueWidth, info.count, depth);
      if ok {
        ghost var trees := ParseChildren(words, types, plan.child, info.body + info.keyWidth, stride, info.valueWidth,
              info.count, depth).value;
        assert old(tape) + MapRecord(tid, info) + spans + TreeTapes(trees) == old(tape) + (MapRecord(tid,
              info) + spans + TreeTapes(trees));
      }
    }
  }

  /** Tape words per entry for key and value spans. */
  function SpanStride(info: MapHeadInfo): nat {
    (if info.key.KString? then 2 else 0) + (if IsBytes(info.value) then 2 else 0)
  }

  function KeySpans(words: seq<u32>, info: MapHeadInfo): Option<seq<(nat, nat)>> {
    if info.key.KString? then ParseSpans(words, info.body, info.keyWidth + info.valueWidth, info.keyWidth,
                                         info.count) else Some([])
  }

  function ValueSpans(words: seq<u32>, info: MapHeadInfo): Option<seq<(nat, nat)>> {
    if IsBytes(info.value) then ParseSpans(words, info.body + info.keyWidth, info.keyWidth + info.valueWidth,
          info.valueWidth, info.count) else Some([])
  }

  lemma ExtendsFront(base: seq<nat>, a: seq<nat>, b: seq<nat>)
    ensures Extends(base, base + a + b)
  {
  }

  /** The spans after one more entry. */
  function Longer(present: bool, spans: seq<(nat, nat)>, span: Option<(nat, nat)>): seq<(nat, nat)> {
    if present && span.Some? then spans + [span.value] else []
  }

  /** The key and value spans of the first `n` entries. */
  ghost predicate EntriesRead(words: seq<u32>, info: MapHeadInfo, ks: seq<(nat, nat)>, vs: seq<(nat, nat)>, n: nat) {
    var stride := info.keyWidth + info.valueWidth;
    && (if info.key.KString? then ParseSpans(words, info.body, stride, info.keyWidth, n) == Some(ks) else ks == [])
    && (if IsBytes(info.value)
        then ParseSpans(words, info.body + info.keyWidth, stride, info.valueWidth, n) == Some(vs)
        else vs == [])
  }

  lemma EntriesNone(words: seq<u32>, info: MapHeadInfo)
    ensures EntriesRead(words, info, [], [], 0)
  {
  }

  lemma EntriesCount(words: seq<u32>, info: MapHeadInfo, ks: seq<(nat, nat)>, vs: seq<(nat, nat)>, n: nat)
    requires EntriesRead(words, info, ks, vs, n)
    ensures |ks| == (if info.key.KString? then n else 0) && |vs| == (if IsBytes(info.value) then n else 0)
  {
    hide BytesAt, Prod;
  }

  lemma EntriesNext(words: seq<u32>, info: MapHeadInfo, ks: seq<(nat, nat)>, vs: seq<(nat, nat)>, n: nat)
    requires EntriesRead(words, info, ks, vs, n)
    requires var key := info.body + Prod(info.keyWidth + info.valueWidth, n);
             && (info.key.KString? ==> BytesAt(words, key, info.keyWidth).Some?)
             && (IsBytes(info.value) ==> BytesAt(words, key + info.keyWidth, info.valueWidth).Some?)
    ensures var key := info.body + Prod(info.keyWidth + info.valueWidth, n);
            EntriesRead(words, info, Longer(info.key.KString?, ks, BytesAt(words, key, info.keyWidth)),
                        Longer(IsBytes(info.value), vs, BytesAt(words, key + info.keyWidth, info.valueWidth)), n + 1)
  {
    hide BytesAt, Prod;
  }

  lemma EntryUnread(words: seq<u32>, info: MapHeadInfo, n: nat)
    requires n < info.count
    requires var key := info.body + Prod(info.keyWidth + info.valueWidth, n);
             || (info.key.KString? && BytesAt(words, key, info.keyWidth).None?)
             || (IsBytes(info.value) && BytesAt(words, key + info.keyWidth, info.valueWidth).None?)
    ensures KeySpans(words, info).None? || ValueSpans(words, info).None?
  {
    hide BytesAt, Prod, ParseSpans;
    SpanAt(words, info.body, info.keyWidth + info.valueWidth, info.keyWidth, info.count, n);
    SpanAt(words, info.body + info.keyWidth, info.keyWidth + info.valueWidth, info.valueWidth, info.count, n);
  }

  lemma EntriesAll(words: seq<u32>, info: MapHeadInfo, ks: seq<(nat, nat)>, vs: seq<(nat, nat)>)
    requires EntriesRead(words, info, ks, vs, info.count)
    ensures KeySpans(words, info) == Some(ks) && ValueSpans(words, info) == Some(vs)
  {
    hide ParseSpans;
  }

  lemma SpansNext(info: MapHeadInfo, ks: seq<(nat, nat)>, vs: seq<(nat, nat)>, ks': seq<(nat, nat)>, vs': seq<(nat,
        nat)>, pairs: seq<(nat, nat)>)
    requires info.key.KString? && IsBytes(info.value) ==> |ks| == |vs|
    requires if info.key.KString? then |ks'| == |ks| + 1 && ks' == ks + [ks'[|ks|]] else ks == ks' == []
    requires if IsBytes(info.value) then |vs'| == |vs| + 1 && vs' == vs + [vs'[|vs|]] else vs == vs' == []
    requires pairs == MapSpans(info, ks, vs)
                      + (if info.key.KString? then [ks'[|ks|]] else [])
                          + (if IsBytes(info.value) then [vs'[|vs|]] else [])
    ensures MapSpans(info, ks', vs') == pairs
  {
    var r := MapSpans(info, ks', vs');
    if info.key.KString? && IsBytes(info.value) {
      forall k | 0 <= k < |r| ensures r[k] == pairs[k] {
      }
    }
  }

  lemma NoSpans(info: MapHeadInfo)
    ensures MapSpans(info, [], []) == []
  {
    assert Interleave<(nat, nat)>([], []) == [];
  }

  lemma SpansCount(info: MapHeadInfo, ks: seq<(nat, nat)>, vs: seq<(nat, nat)>, n: nat, done: nat)
    requires |ks| == (if info.key.KString? then n else 0) && |vs| == (if IsBytes(info.value) then n else 0)
    requires done == Prod(SpanStride(info), n)
    ensures 2 * |MapSpans(info, ks, vs)| == done
  {
    ProdIsProduct(SpanStride(info), n);
  }

  lemma ProdZero(w: nat)
    ensures Prod(w, 0) == 0
  {
    ProdIsProduct(w, 0);
  }

  lemma NothingFlat()
    ensures Flat([]) == []
  {
  }

  lemma NoTrees()
    ensures TreeTapes([]) == []
  {
  }

  lemma MessagePlanIndexed(types: Types, tid: nat)
    requires TypesOk(types) && tid < |types| && types[tid].MessageType?
    ensures Indexed(types[tid].fields, types[tid].indexById)
  {
    hide Indexed;
    assert TypeOk(types, types[tid]);
  }

  lemma RecordedLength(words: seq<u32>, at: nat, fields: seq<FieldPlan>, n: nat, pairs: seq<(nat, nat)>)
    requires HeaderInside(words, at) && Recorded(words, at, fields, n, pairs)
    ensures |pairs| == |fields|
  {
  }

  lemma NothingRecorded(words: seq<u32>, loc: Loc, fields: seq<FieldPlan>) returns (pairs: seq<(nat, nat)>)
    requires HeaderInside(words, loc.at)
    ensures Blank(2 * |fields|) == Flat(pairs) && Recorded(words, loc.at, fields, 0, pairs) && InsideUpTo(words, loc, 0)
  {
    hide Scan;
    pairs := seq(|fields|, _ => (0, 0));
  }

  lemma LocationInside(words: seq<u32>, off: nat, width: nat)
    ensures var r := ObjectLocation(words, off, width); r.Some? ==> r.value.limit <= |words|
  {
  }

  lemma FieldsStart(words: seq<u32>, types: Types, fields: seq<FieldPlan>, loc: Loc, depth: nat, raw: seq<(nat, nat)>)
    requires depth <= MAXDEPTH && HeaderInside(words, loc.at)
    ensures fields[..0] == [] && ParseFields(words, types, [], loc, depth) == Some([])
    ensures Descs([]) == [] && Descs([]) + raw[0..] == raw && FieldTapes([]) == []
  {
  }

  lemma FieldsNext(words: seq<u32>, types: Types, fields: seq<FieldPlan>, loc: Loc, depth: nat, i: nat, fs: seq<TField>,
        f: TField, raw: seq<(nat, nat)>)
    requires depth <= MAXDEPTH && HeaderInside(words, loc.at) && i < |fields| == |raw| && |fs| == i
    requires ParseFields(words, types, fields[..i], loc, depth) == Some(fs)
    requires ParseField(words, types, fields[i], loc, depth) == Some(f)
    ensures ParseFields(words, types, fields[..i + 1], loc, depth) == Some(fs + [f])
    ensures FieldTapes(fs + [f]) == FieldTapes(fs) + FieldTape(f)
    ensures |Descs(fs)| == i && |Descs(fs + [f])| == i + 1
    ensures (Descs(fs) + raw[i..])[i := Desc(f)] == Descs(fs + [f]) + raw[i + 1..]
  {
    hide ParseField, FieldTapes, FieldTape;
    assert fields[..i + 1][..i] == fields[..i];
    FieldTapesStep(fs, f);
  }

  lemma FlatLength(pairs: seq<(nat, nat)>)
    ensures |Flat(pairs)| == 2 * |pairs|
  {
  }

  lemma DefaultStart(words: seq<u32>, at: nat)
    requires HeaderInside(words, at)
    ensures var ws := DefaultWidths(words, at);
            |ws| == 12 && ws[0..] == Fields(words[at] / 256, 12) && ws[..0] == [] && Sum(ws[..0]) == 0
  {
    hide Fields;
  }

  lemma SectionStart(words: seq<u32>, at: nat, a: nat)
    requires HeaderInside(words, at) && a < words[at] % 256
    ensures var ws := SectionWidths(words, at, a);
            && |ws| == 25 && Sum(ws[..0]) == 0
            && SectionWord(words, at, a) / TWO50 == words[at + 2 + 2 * a] / 0x4_0000
  {
    hide Fields;
    SectionHalves(words[at + 1 + 2 * a], words[at + 2 + 2 * a]);
  }
}
