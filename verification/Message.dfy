/**
 Messages: a header of two-bit widths in sections, then the field cells
 (SerializeMessage of src/serialize.cc, GetField of
 include/protocache/access.h).
 */
module Messages {
  import opened Words
  import opened Swar
  import opened Buffers
  import opened Layout
  import opened Units

  const TWO32: nat := 0x1_0000_0000
  const TWO50: nat := 0x4_0000_0000_0000

  // ---------------------------------------------------------------------
  // Two-bit fields
  // ---------------------------------------------------------------------

  /** `w << 2i` */
  function Shl2(w: nat, i: nat): nat {
    if i == 0 then w else 4 * Shl2(w, i - 1)
  }

  /** `(v >> 2i) & 3` */
  function FieldAt(v: nat, i: nat): nat {
    if i == 0 then v % 4 else FieldAt(v / 4, i - 1)
  }

  /** `v & ~(~0 << 2i)` */
  function LowFields(v: nat, i: nat): nat {
    if i == 0 then 0 else v % 4 + 4 * LowFields(v / 4, i - 1)
  }

  /** Two-bit fields packed from the lowest up. */
  function Pack4(ws: seq<nat>): nat {
    if ws == [] then 0 else ws[0] + 4 * Pack4(ws[1..])
  }

  ghost predicate Below4(ws: seq<nat>) {
    forall i | 0 <= i < |ws| :: ws[i] < 4
  }

  lemma {:induction false} Pack4Append(ws: seq<nat>, w: nat)
    ensures Pack4(ws + [w]) == Pack4(ws) + Shl2(w, |ws|)
  {
    if ws == [] {
      assert ws + [w] == [w];
    } else {
      Pack4Append(ws[1..], w);
      assert (ws + [w])[1..] == ws[1..] + [w];
    }
  }

  lemma {:induction false} Pack4Bound(ws: seq<nat>, k: nat)
    requires Below4(ws) && |ws| <= k
    ensures Pack4(ws) < Shl2(1, k)
    decreases k
  {
    if ws != [] { Pack4Bound(ws[1..], k - 1); } else { Shl2Positive(k); }
  }

  lemma {:induction false} Shl2Positive(k: nat)
    ensures Shl2(1, k) > 0
  {
    if k > 0 { Shl2Positive(k - 1); }
  }

  lemma Shl2Known()
    ensures Shl2(1, 12) == 0x100_0000 && Shl2(1, 25) == TWO50
  {
    assert Shl2(1, 4) == 0x100;
    assert Shl2(1, 8) == 0x1_0000;
    assert Shl2(1, 12) == 0x100_0000;
    assert Shl2(1, 16) == TWO32;
    assert Shl2(1, 20) == 0x100_0000_0000;
    assert Shl2(1, 24) == 0x1_0000_0000_0000;
  }

  /** A packed field reads back; fields beyond the list are zero. */
  lemma {:induction false} PackedField(ws: seq<nat>, high: nat, k: nat, i: nat)
    requires Below4(ws) && |ws| <= k && i < k
    ensures FieldAt(Pack4(ws) + Shl2(high, k), i) == if i < |ws| then ws[i] else 0
    decreases i
  {
    var v := Pack4(ws) + Shl2(high, k);
    if ws == [] {
      assert v / 4 == Shl2(high, k - 1) && v % 4 == 0;
      if i > 0 {
        PackedField([], high, k - 1, i - 1);
      }
    } else {
      assert v / 4 == Pack4(ws[1..]) + Shl2(high, k - 1) && v % 4 == ws[0];
      if i > 0 {
        PackedField(ws[1..], high, k - 1, i - 1);
      }
    }
  }

  lemma {:induction false} PackedLow(ws: seq<nat>, high: nat, k: nat, i: nat)
    requires Below4(ws) && |ws| <= k && i <= k
    ensures LowFields(Pack4(ws) + Shl2(high, k), i) == Pack4(if i <= |ws| then ws[..i] else ws)
    decreases i
  {
    if i > 0 {
      var v := Pack4(ws) + Shl2(high, k);
      if ws == [] {
        assert v / 4 == Shl2(high, k - 1) && v % 4 == 0;
        PackedLow([], high, k - 1, i - 1);
      } else {
        assert v / 4 == Pack4(ws[1..]) + Shl2(high, k - 1) && v % 4 == ws[0];
        PackedLow(ws[1..], high, k - 1, i - 1);
        if i <= |ws| {
          assert ws[..i][1..] == ws[1..][..i - 1];
        }
      }
    } else {
      assert ws[..0] == [];
    }
  }

  /** The fields of a packed list are the list, padded with zeros. */
  lemma {:induction false} PackedSum(ws: seq<nat>, k: nat)
    requires Below4(ws) && |ws| <= k
    ensures Sum(Fields(Pack4(ws), k)) == Sum(ws)
    decreases k
  {
    if k > 0 {
      if ws == [] {
        PackedSum([], k - 1);
      } else {
        assert Pack4(ws) / 4 == Pack4(ws[1..]) && Pack4(ws) % 4 == ws[0];
        PackedSum(ws[1..], k - 1);
      }
      assert Fields(Pack4(ws), k)[1..] == Fields(Pack4(ws) / 4, k - 1);
    }
  }

  lemma {:induction false} SumAppend(a: seq<nat>, b: seq<nat>)
    ensures Sum(a + b) == Sum(a) + Sum(b)
  {
    if a == [] {
      assert a + b == b;
    } else {
      SumAppend(a[1..], b);
      assert (a + b)[1..] == a[1..] + b;
    }
  }

  // ---------------------------------------------------------------------
  // Headers
  // ---------------------------------------------------------------------

  function Min(a: nat, b: nat): nat { if a < b then a else b }

  /** One extended section as a 64-bit word: 25 widths and the 14-bit base. */
  function SectionMark(ws: seq<nat>, cnt: nat): nat {
    Pack4(ws) + Shl2(cnt, 25)
  }

  /** The extended sections, each as its low and high word. */
  function Sections(ws: seq<nat>, cnt: nat): (r: seq<u32>)
    decreases |ws|
  {
    if ws == [] then []
    else
      var k := Min(25, |ws|);
      var mark := SectionMark(ws[..k], cnt);
      [mark % TWO32, mark / TWO32 % TWO32] + Sections(ws[k..], cnt + Sum(ws[..k]))
  }

  function SectionCount(n: nat): nat { (n + 12) / 25 }

  /** The header of a message whose fields have the given widths. */
  function MessageHead(ws: seq<nat>): seq<u32> {
    var k := Min(12, |ws|);
    [(SectionCount(|ws|) + 256 * Pack4(ws[..k])) % TWO32] + Sections(ws[k..], Sum(ws[..k]))
  }

  /** Every section base fits its 14 bits. */
  ghost predicate BasesFit(ws: seq<nat>, cnt: nat)
    decreases |ws|
  {
    ws != [] ==> cnt < 0x4000 && BasesFit(ws[Min(25, |ws|)..], cnt + Sum(ws[..Min(25, |ws|)]))
  }

  /** What SerializeMessage checks of the widths. */
  ghost predicate HeadOk(ws: seq<nat>) {
    && Below4(ws) && SectionCount(|ws|) <= 0xff
    && BasesFit(ws[Min(12, |ws|)..], Sum(ws[..Min(12, |ws|)]))
  }

  lemma {:induction false} SectionsLength(ws: seq<nat>, cnt: nat)
    ensures |Sections(ws, cnt)| == 2 * ((|ws| + 24) / 25)
    decreases |ws|
  {
    hide Sections, SectionMark, Sum;
    if ws == [] {
      NoSections(cnt);
    } else {
      SectionsStep(ws, cnt);
      SectionsLength(ws[Min(25, |ws|)..], cnt + Sum(ws[..Min(25, |ws|)]));
    }
  }

  lemma HeadLength(ws: seq<nat>)
    ensures |MessageHead(ws)| == 1 + 2 * SectionCount(|ws|)
  {
    SectionsLength(ws[Min(12, |ws|)..], Sum(ws[..Min(12, |ws|)]));
  }

  /** Section `a` holds the widths of its fields and the number of words before them. */
  lemma {:induction false} SectionAt(ws: seq<nat>, cnt: nat, a: nat)
    requires Below4(ws) && BasesFit(ws, cnt) && 25 * a < |ws|
    ensures 2 * a + 2 <= |Sections(ws, cnt)|
    ensures var part := ws[25 * a..Min(25 * a + 25, |ws|)];
            var base := cnt + Sum(ws[..25 * a]);
            && base < 0x4000
            && Sections(ws, cnt)[2 * a] + TWO32 * Sections(ws, cnt)[2 * a + 1] == SectionMark(part, base)
    decreases a
  {
    hide Sections, SectionMark, Sum, Pack4;
    var k := Min(25, |ws|);
    SectionsStep(ws, cnt);
    if a == 0 {
      assert ws[..0] == [];
      SumNone();
      MarkBound(ws[..k], cnt);
      Halves(SectionMark(ws[..k], cnt));
    } else {
      var rest := ws[25..];
      SectionAt(rest, cnt + Sum(ws[..25]), a - 1);
      TailSlice(ws, 25, 25 * (a - 1), Min(25 * a + 25, |ws|) - 25);
      SumAppend(ws[..25], rest[..25 * (a - 1)]);
    }
  }

  lemma SectionsStep(ws: seq<nat>, cnt: nat)
    requires ws != []
    ensures var k := Min(25, |ws|);
            var mark := SectionMark(ws[..k], cnt);
            Sections(ws, cnt) == [mark % TWO32, mark / TWO32 % TWO32] + Sections(ws[k..], cnt + Sum(ws[..k]))
  {
  }

  lemma SumNone()
    ensures Sum([]) == 0
  {
  }

  lemma MarkBound(ws: seq<nat>, cnt: nat)
    requires Below4(ws) && |ws| <= 25 && cnt < 0x4000
    ensures SectionMark(ws, cnt) < TWO32 * TWO32
    ensures SectionMark(ws, cnt) / TWO50 == cnt
  {
    Pack4Bound(ws, 25);
    Shl2Known();
    Shl2Times(cnt, 25);
  }

  lemma {:induction false} Shl2Times(c: nat, k: nat)
    ensures Shl2(c, k) == c * Shl2(1, k)
  {
    if k > 0 { Shl2Times(c, k - 1); }
  }

  lemma Halves(mark: nat)
    requires mark < TWO32 * TWO32
    ensures mark % TWO32 + TWO32 * (mark / TWO32 % TWO32) == mark
  {
  }

  // ---------------------------------------------------------------------
  // Random access
  // ---------------------------------------------------------------------

  /** The 64-bit view of section `a` of the message at index `at`. */
  function SectionWord(words: seq<u32>, at: nat, a: nat): nat
    requires at + 2 * a + 3 <= |words|
  {
    words[at + 1 + 2 * a] + TWO32 * words[at + 2 + 2 * a]
  }

  /** GetField: where field `id` of the message at index `at` is stored, and its width. */
  function GetField(words: seq<u32>, at: nat, id: nat): (r: Option<(nat, nat)>)
    requires at < |words| && at + 1 + 2 * (words[at] % 256) <= |words|
  {
    var section := words[at] % 256;
    var body := at + 1 + 2 * section;
    if id < 12 then
      var v := words[at] / 256;
      var width := FieldAt(v, id);
      if width == 0 then None else CheckEnd(words, body + Count32(LowFields(v, id)), width)
    else
      var a, b := (id - 12) / 25, (id - 12) % 25;
      if a >= section then None
      else
        var vec := SectionWord(words, at, a);
        var width := FieldAt(vec, b);
        if width == 0 then None
        else CheckEnd(words, body + Count64(LowFields(vec, b)) + vec / TWO50, width)
  }

  function CheckEnd(words: seq<u32>, off: int, width: nat): Option<(nat, nat)> {
    if off < 0 || off + width > |words| then None else Some((off, width))
  }

  /** The header words of a message with these widths are at index `at`. */
  ghost predicate HeadAt(words: seq<u32>, at: nat, ws: seq<nat>) {
    at + |MessageHead(ws)| <= |words| && words[at..at + |MessageHead(ws)|] == MessageHead(ws)
  }

  lemma HeadWord(words: seq<u32>, at: nat, ws: seq<nat>)
    requires HeadOk(ws) && HeadAt(words, at, ws)
    ensures at < |words| && words[at] % 256 == SectionCount(|ws|)
    ensures words[at] / 256 == Pack4(ws[..Min(12, |ws|)])
    ensures at + 1 + 2 * (words[at] % 256) == at + |MessageHead(ws)|
  {
    hide Pack4, Sections, Sum, BasesFit, Shl2;
    HeadLength(ws);
    Pack4Bound(ws[..Min(12, |ws|)], 12);
    Shl2Known();
    assert words[at] == words[at..at + |MessageHead(ws)|][0];
  }

  /** Fields of the default section. */
  lemma GetFieldLow(words: seq<u32>, at: nat, ws: seq<nat>, id: nat)
    requires HeadOk(ws) && HeadAt(words, at, ws) && at + |MessageHead(ws)| + Sum(ws) <= |words|
    requires id < 12
    ensures at < |words| && at + 1 + 2 * (words[at] % 256) <= |words|
    ensures GetField(words, at, id) ==
              if id < |ws| && ws[id] > 0 then Some((at + |MessageHead(ws)| + Sum(ws[..id]), ws[id])) else None
  {
    hide Count32, Sum, Pack4, FieldAt, LowFields, MessageHead, HeadOk;
    HeadWord(words, at, ws);
    HeadOkFacts(ws);
    LowSection(ws, id);
    if id < |ws| { PrefixSum(ws, id); }
  }

  lemma HeadOkFacts(ws: seq<nat>)
    requires HeadOk(ws)
    ensures Below4(ws) && SectionCount(|ws|) <= 0xff
  {
  }

  /** Width and word count of a field of the default section. */
  lemma LowSection(ws: seq<nat>, id: nat)
    requires Below4(ws) && id < 12
    ensures var v := Pack4(ws[..Min(12, |ws|)]);
            && FieldAt(v, id) == (if id < |ws| then ws[id] else 0)
            && (id < |ws| ==> Count32(LowFields(v, id)) == Sum(ws[..id]))
  {
    hide Count32, Sum, Pack4, FieldAt, LowFields;
    var low := ws[..Min(12, |ws|)];
    Shl2Times(0, 12);
    PackedField(low, 0, 12, id);
    PackedLow(low, 0, 12, id);
    if id < |ws| {
      assert low[..id] == ws[..id];
      Count32IsFieldSum(Pack4(ws[..id]));
      PackedSum(ws[..id], 16);
    }
  }

  lemma PrefixSum(ws: seq<nat>, id: nat)
    requires id < |ws|
    ensures Sum(ws[..id]) + ws[id] <= Sum(ws)
  {
    assert ws == ws[..id] + ([ws[id]] + ws[id + 1..]);
    SumAppend(ws[..id], [ws[id]] + ws[id + 1..]);
    ValCons(ws[id], ws[id + 1..]);
  }

  /** Width and word count of a field of an extended section. */
  lemma HighSection(part: seq<nat>, base: nat, b: nat)
    requires Below4(part) && |part| <= 25 && base < 0x4000 && b < 25
    ensures var vec := SectionMark(part, base);
            && FieldAt(vec, b) == (if b < |part| then part[b] else 0)
            && (b < |part| ==> Count64(LowFields(vec, b)) == Sum(part[..b]))
            && vec / TWO50 == base
  {
    hide Count64, Sum, Pack4, FieldAt, LowFields;
    PackedField(part, base, 25, b);
    PackedLow(part, base, 25, b);
    MarkBound(part, base);
    if b < |part| {
      Count64IsFieldSum(Pack4(part[..b]));
      PackedSum(part[..b], 32);
    }
  }

  /** Section `a` of a message header, as the reader sees it. */
  lemma ReadSection(words: seq<u32>, at: nat, ws: seq<nat>, a: nat)
    requires HeadOk(ws) && HeadAt(words, at, ws) && 12 + 25 * a < |ws|
    ensures at + 2 * a + 3 <= |words| && a < SectionCount(|ws|)
    ensures var part := ws[12 + 25 * a..Min(37 + 25 * a, |ws|)];
            var base := Sum(ws[..12 + 25 * a]);
            base < 0x4000 && SectionWord(words, at, a) == SectionMark(part, base)
  {
    hide Sections, SectionMark, Sum, Pack4;
    var rest, cnt := ws[12..], Sum(ws[..12]);
    HeadLength(ws);
    SectionAt(rest, cnt, a);
    TailSlice(ws, 12, 25 * a, Min(37 + 25 * a, |ws|) - 12);
    SumAppend(ws[..12], rest[..25 * a]);
    var head := MessageHead(ws);
    var sections := Sections(rest, cnt);
    assert head[1 + 2 * a] == sections[2 * a] && head[2 + 2 * a] == sections[2 * a + 1];
    assert words[at + 1 + 2 * a] == words[at..at + |head|][1 + 2 * a];
    assert words[at + 2 + 2 * a] == words[at..at + |head|][2 + 2 * a];
  }

  /** Fields of the extended sections. */
  lemma GetFieldHigh(words: seq<u32>, at: nat, ws: seq<nat>, id: nat)
    requires HeadOk(ws) && HeadAt(words, at, ws) && at + |MessageHead(ws)| + Sum(ws) <= |words|
    requires id >= 12
    ensures at < |words| && at + 1 + 2 * (words[at] % 256) <= |words|
    ensures GetField(words, at, id) ==
              if id < |ws| && ws[id] > 0 then Some((at + |MessageHead(ws)| + Sum(ws[..id]), ws[id])) else None
  {
    hide Count64, Sum, Pack4, FieldAt, LowFields, MessageHead, HeadOk, SectionMark;
    HeadWord(words, at, ws);
    HeadOkFacts(ws);
    var a, b := (id - 12) / 25, (id - 12) % 25;
    if 12 + 25 * a < |ws| {
      ReadSection(words, at, ws, a);
      var part, base := ws[12 + 25 * a..Min(37 + 25 * a, |ws|)], Sum(ws[..12 + 25 * a]);
      HighSection(part, base, b);
      if id < |ws| {
        PrefixInto(ws, 12 + 25 * a, id, Min(37 + 25 * a, |ws|));
        SumAppend(ws[..12 + 25 * a], part[..b]);
        PrefixSum(ws, id);
      }
    }
  }

  /** GetField returns exactly the stored cell of every present field, and nothing for any other id. */
  lemma GetFieldReadsBack(words: seq<u32>, at: nat, ws: seq<nat>, id: nat)
    requires HeadOk(ws) && HeadAt(words, at, ws) && at + |MessageHead(ws)| + Sum(ws) <= |words|
    ensures at < |words| && at + 1 + 2 * (words[at] % 256) <= |words|
    ensures GetField(words, at, id) ==
              if id < |ws| && ws[id] > 0 then Some((at + |MessageHead(ws)| + Sum(ws[..id]), ws[id])) else None
  {
    if id < 12 { GetFieldLow(words, at, ws, id); } else { GetFieldHigh(words, at, ws, id); }
  }

  // ---------------------------------------------------------------------
  // SerializeMessage
  // ---------------------------------------------------------------------

  /** Width of a field's cell: its own words, one offset word, or nothing. */
  function FieldWidth(u: Unit): nat {
    match u
    case Inline(words) => |words|
    case Segment(_, len) => if len > 0 then 1 else 0
  }

  function FieldWidths(units: seq<Unit>): (r: seq<nat>)
    ensures |r| == |units| && forall i | 0 <= i < |r| :: r[i] == FieldWidth(units[i])
  {
    seq(|units|, i requires 0 <= i < |units| => FieldWidth(units[i]))
  }

  /** The cell of a field when it starts at position `pos`. */
  function FieldCell(u: Unit, pos: int): (r: seq<u32>)
    ensures |r| == FieldWidth(u)
  {
    match u
    case Inline(words) => words
    case Segment(p, len) => if len > 0 then [Offset(pos - p)] else []
  }

  /** The field cells in order, the first one at position `pos`. */
  function Body(units: seq<Unit>, pos: int): seq<u32> {
    if units == [] then [] else FieldCell(units[0], pos) + Body(units[1..], pos - FieldWidth(units[0]))
  }

  lemma {:induction false} BodySize(units: seq<Unit>, pos: int)
    ensures |Body(units, pos)| == Sum(FieldWidths(units))
  {
    hide FieldCell;
    if units != [] {
      BodySize(units[1..], pos - FieldWidth(units[0]));
      CellWidth(units[0], pos);
      assert FieldWidths(units)[1..] == FieldWidths(units[1..]);
    }
  }

  lemma {:induction false} BodyAppend(units: seq<Unit>, u: Unit, pos: int)
    ensures Body(units + [u], pos) == Body(units, pos) + FieldCell(u, pos - |Body(units, pos)|)
  {
    hide FieldCell, FieldWidth;
    if units == [] {
      assert units + [u] == [u];
      assert Body([u], pos) == FieldCell(u, pos) + Body([], pos - FieldWidth(u));
    } else {
      var head, p := FieldCell(units[0], pos), pos - FieldWidth(units[0]);
      CellWidth(units[0], pos);
      BodyAppend(units[1..], u, p);
      assert (units + [u])[1..] == units[1..] + [u];
      Assoc(head, Body(units[1..], p), FieldCell(u, p - |Body(units[1..], p)|));
    }
  }

  lemma WidthsBefore(units: seq<Unit>, i: nat)
    requires 0 < i < |units|
    ensures Sum(FieldWidths(units)[..i]) == FieldWidth(units[0]) + Sum(FieldWidths(units[1..])[..i - 1])
  {
    hide Sum, FieldWidth;
    var ws, rest := FieldWidths(units), FieldWidths(units[1..]);
    assert ws == [ws[0]] + rest;
    assert ws[..i] == [ws[0]] + rest[..i - 1];
    ValCons(ws[0], rest[..i - 1]);
  }

  /** Body cell of field `i`. */
  lemma {:induction false} BodyAt(units: seq<Unit>, pos: int, i: nat)
    requires i < |units|
    ensures var start := Sum(FieldWidths(units)[..i]);
            && start + FieldWidth(units[i]) <= |Body(units, pos)|
            && Body(units, pos)[start..start + FieldWidth(units[i])] == FieldCell(units[i], pos - start)
    decreases i
  {
    hide FieldCell, FieldWidth, Sum;
    var ws := FieldWidths(units);
    var head, rest := FieldCell(units[0], pos), Body(units[1..], pos - FieldWidth(units[0]));
    CellWidth(units[0], pos);
    if i == 0 {
      assert ws[..0] == [];
      SumNone();
      SliceFront(head, rest);
    } else {
      BodyAt(units[1..], pos - FieldWidth(units[0]), i - 1);
      WidthsBefore(units, i);
      SliceAfter(head, rest, Sum(FieldWidths(units[1..])[..i - 1]), FieldWidth(units[i]));
    }
  }

  lemma CellWidth(u: Unit, pos: int)
    ensures |FieldCell(u, pos)| == FieldWidth(u)
  {
  }

  /** The fields without the absent ones at the end. */
  function Trim(units: seq<Unit>): (r: seq<Unit>)
    ensures |r| <= |units| && r == units[..|r|]
    ensures forall i | |r| <= i < |units| :: units[i].Size() == 0
    ensures r != [] ==> r[|r| - 1].Size() > 0
  {
    if units == [] || units[|units| - 1].Size() > 0 then units else Trim(units[..|units| - 1])
  }

  /** Words counted against the size limit. */
  function FieldTotal(units: seq<Unit>): nat {
    if units == [] then 0 else units[0].Size() + FieldTotal(units[1..])
  }

  ghost predicate FieldUnits(units: seq<Unit>) {
    forall i | 0 <= i < |units| :: units[i].Inline? ==> 1 <= |units[i].words| <= 3
  }

  /** The words SerializeMessage puts in front of `below` words. */
  function MessageFront(units: seq<Unit>, below: nat): seq<u32> {
    var ws := FieldWidths(units);
    MessageHead(ws) + Body(units, Sum(ws) + below)
  }

  /** The size loop: words counted, and width of the body. */
  method MeasureFields(units: seq<Unit>) returns (size: nat, body: nat)
    ensures size == FieldTotal(units) && body == Sum(FieldWidths(units))
  {
    size, body := 0, 0;
    var i := |units|;
    assert units[i..] == [];
    while i > 0
      invariant 0 <= i <= |units|
      invariant size == FieldTotal(units[i..]) && body == Sum(FieldWidths(units[i..]))
    {
      i := i - 1;
      assert units[i..][1..] == units[i + 1..];
      assert FieldWidths(units[i..])[1..] == FieldWidths(units[i + 1..]);
      size := size + units[i].Size();
      match units[i]
      case Inline(words) => body := body + |words|;
      case Segment(_, len) => if len > 0 { body := body + 1; }
    }
    assert units[0..] == units;
  }

  /** Writes the cells of fields `i` to `next - 1` and packs their widths. */
  method WriteRun(units: seq<Unit>, i: nat, next: nat, cells: seq<u32>, pos: int)
    returns (packed: nat, cnt: nat, cells': seq<u32>)
    requires i <= next <= |units| && cells == Body(units[..i], pos)
    ensures packed == Pack4(FieldWidths(units)[i..next]) && cnt == Sum(FieldWidths(units)[..next])
    ensures cells' == Body(units[..next], pos)
  {
    hide Pack4, Sum, Body, FieldCell, Shl2;
    ghost var ws := FieldWidths(units);
    packed, cells' := 0, cells;
    BodyLength(units, i, pos);
    cnt := |cells|;
    var k := i;
    assert ws[i..i] == [];
    PackNone();
    while k < next
      invariant i <= k <= next
      invariant packed == Pack4(ws[i..k]) && cnt == Sum(ws[..k]) && cells' == Body(units[..k], pos) && cnt == |cells'|
    {
      var u := units[k];
      RunStep(units, i, k, pos);
      packed := packed + Shl2(FieldWidth(u), k - i);
      cells' := cells' + FieldCell(u, pos - cnt);
      cnt := cnt + FieldWidth(u);
      k := k + 1;
      BodyLength(units, k, pos);
    }
  }

  lemma PackNone()
    ensures Pack4([]) == 0
  {
  }

  lemma BodyLength(units: seq<Unit>, k: nat, pos: int)
    requires k <= |units|
    ensures |Body(units[..k], pos)| == Sum(FieldWidths(units)[..k])
  {
    BodySize(units[..k], pos);
    assert FieldWidths(units[..k]) == FieldWidths(units)[..k];
  }

  lemma RunStep(units: seq<Unit>, i: nat, k: nat, pos: int)
    requires i <= k < |units|
    ensures var ws := FieldWidths(units);
            && Pack4(ws[i..k + 1]) == Pack4(ws[i..k]) + Shl2(ws[k], k - i)
            && Sum(ws[..k + 1]) == Sum(ws[..k]) + ws[k]
            && Body(units[..k + 1], pos) == Body(units[..k], pos) + FieldCell(units[k], pos - |Body(units[..k], pos)|)
  {
    hide Pack4, Sum, Body, FieldCell, Shl2;
    var ws := FieldWidths(units);
    assert ws[i..k + 1] == ws[i..k] + [ws[k]];
    Pack4Append(ws[i..k], ws[k]);
    assert ws[..k + 1] == ws[..k] + [ws[k]];
    SumAppend(ws[..k], [ws[k]]);
    ValCons(ws[k], []);
    SumNone();
    assert [ws[k]] + [] == [ws[k]];
    assert units[..k + 1] == units[..k] + [units[k]];
    BodyAppend(units[..k], units[k], pos);
  }

  /** The sections before field `i` are written, with `cnt` words in front of it. */
  ghost predicate SectionsDone(ws: seq<nat>, sections: seq<u32>, i: nat, cnt: nat) {
    var k := Min(12, |ws|);
    && k <= i <= |ws| && cnt == Sum(ws[..i])
    && Sections(ws[k..], Sum(ws[..k])) == sections + Sections(ws[i..], cnt)
    && (BasesFit(ws[k..], Sum(ws[..k])) <==> BasesFit(ws[i..], cnt))
  }

  lemma WrittenStart(ws: seq<nat>)
    ensures SectionsDone(ws, [], Min(12, |ws|), Sum(ws[..Min(12, |ws|)]))
  {
    hide Sum, Sections, BasesFit;
  }

  lemma WrittenStep(ws: seq<nat>, sections: seq<u32>, i: nat, cnt: nat, next: nat, packed: nat)
    requires SectionsDone(ws, sections, i, cnt) && i < |ws| && next == Min(i + 25, |ws|)
    requires cnt < 0x4000 && packed == Pack4(ws[i..next])
    ensures var mark := packed + Shl2(cnt, 25);
            SectionsDone(ws, sections + [mark % TWO32, mark / TWO32 % TWO32], next, Sum(ws[..next]))
  {
    hide Sum, Sections, BasesFit, Pack4, Shl2;
    SectionRun(ws, i, next);
    var mark := packed + Shl2(cnt, 25);
    Assoc(sections, [mark % TWO32, mark / TWO32 % TWO32], Sections(ws[next..], Sum(ws[..next])));
  }

  lemma WrittenStop(ws: seq<nat>, sections: seq<u32>, i: nat, cnt: nat)
    requires SectionsDone(ws, sections, i, cnt) && i < |ws| && cnt >= 0x4000
    ensures !HeadOk(ws)
  {
    hide Sum, Sections;
  }

  lemma WrittenEnd(ws: seq<nat>, sections: seq<u32>, cnt: nat)
    requires SectionsDone(ws, sections, |ws|, cnt) && Below4(ws) && SectionCount(|ws|) <= 0xff
    ensures HeadOk(ws)
    ensures MessageHead(ws) == [(SectionCount(|ws|) + 256 * Pack4(ws[..Min(12, |ws|)])) % TWO32] + sections
  {
    hide Sum, Sections, BasesFit, Pack4;
    assert ws[|ws|..] == [];
    NoSections(cnt);
  }

  lemma WidthsBelow4(units: seq<Unit>)
    requires FieldUnits(units)
    ensures Below4(FieldWidths(units))
  {
  }

  /** Builds header and body; fails when a section base needs more than 14 bits. */
  method BuildMessage(units: seq<Unit>, below: nat) returns (ok: bool, front: seq<u32>)
    requires FieldUnits(units) && SectionCount(|units|) <= 0xff
    ensures ok <==> HeadOk(FieldWidths(units))
    ensures ok ==> front == MessageFront(units, below)
  {
    hide Pack4, Sum, Body, Shl2, MessageHead, SectionsDone, HeadOk, SectionCount, Below4;
    ghost var ws := FieldWidths(units);
    var size, body := MeasureFields(units);
    var pos := body + below;
    var i := Min(12, |units|);
    assert units[..0] == [];
    BodyNone(pos);
    var packed, cnt, cells := WriteRun(units, 0, i, [], pos);
    var head := (SectionCount(|units|) + 256 * packed) % TWO32;
    var sections: seq<u32> := [];
    assert ws[0..i] == ws[..i];
    WrittenStart(ws);
    while i < |units|
      invariant i <= |units| && cells == Body(units[..i], pos) && SectionsDone(ws, sections, i, cnt)
    {
      if cnt >= 0x4000 {
        WrittenStop(ws, sections, i, cnt);
        return false, [];
      }
      var next := Min(i + 25, |units|);
      var base := cnt;
      packed, cnt, cells := WriteRun(units, i, next, cells, pos);
      WrittenStep(ws, sections, i, base, next, packed);
      var mark := packed + Shl2(base, 25);
      sections := sections + [mark % TWO32, mark / TWO32 % TWO32];
      i := next;
    }
    assert units[..i] == units;
    WidthsBelow4(units);
    WrittenEnd(ws, sections, cnt);
    ok := true;
    front := [head] + sections + cells;
  }

  lemma BodyNone(pos: int)
    ensures Body([], pos) == []
  {
  }

  lemma NoSections(cnt: nat)
    ensures Sections([], cnt) == [] && BasesFit([], cnt)
  {
  }

  lemma SectionRun(ws: seq<nat>, i: nat, next: nat)
    requires i < |ws| && next == Min(i + 25, |ws|)
    ensures var mark := Pack4(ws[i..next]) + Shl2(Sum(ws[..i]), 25);
            Sections(ws[i..], Sum(ws[..i]))
                == [mark % TWO32, mark / TWO32 % TWO32] + Sections(ws[next..], Sum(ws[..next]))
    ensures BasesFit(ws[i..], Sum(ws[..i])) <==> Sum(ws[..i]) < 0x4000 && BasesFit(ws[next..], Sum(ws[..next]))
  {
    hide Pack4, Sum, Shl2;
    var k := next - i;
    assert ws[i..][..k] == ws[i..next] && ws[i..][k..] == ws[next..];
    PrefixInto(ws, i, next, next);
    SumAppend(ws[..i], ws[i..next]);
  }

  /** The loop that drops absent fields from the end. */
  method CountFields(fields: seq<Unit>) returns (n: nat)
    ensures n <= |fields| && fields[..n] == Trim(fields)
  {
    n := |fields|;
    assert fields[..n] == fields;
    while n > 0 && fields[n - 1].Size() == 0
      invariant 0 <= n <= |fields| && Trim(fields) == Trim(fields[..n])
    {
      n := n - 1;
      assert fields[..n + 1][..n] == fields[..n];
    }
  }

  /** SerializeMessage. */
  method SerializeMessage(fields: seq<Unit>, buf: Buffer, last: nat) returns (ok: bool, unit: Unit)
    requires buf.Valid() && last <= buf.Size() && FieldUnits(fields)
    modifies buf, buf.data
    ensures buf.Valid() && (buf.data == old(buf.data) || fresh(buf.data))
    ensures ok <==> (&& fields != []
                     && (Trim(fields) == [] || (FieldTotal(Trim(fields)) < 0x4000_0000
                                                && HeadOk(FieldWidths(Trim(fields))))))
    ensures ok ==> buf.Contents() == MessageFront(Trim(fields), old(buf.Size())) + old(buf.Contents())
    ensures ok ==> unit == Segment(buf.Size(), buf.Size() - last) && HeadOk(FieldWidths(Trim(fields)))
  {
    hide HeadOk, MessageFront, FieldTotal, Trim;
    unit := Absent;
    if fields == [] { return false, unit; }
    var n := CountFields(fields);
    var units := fields[..n];
    if n == 0 {
      EmptyMessage(buf.Size());
      buf.Put(0);
      return true, Segment(buf.Size(), buf.Size() - last);
    }
    var size, body := MeasureFields(units);
    if size >= 0x4000_0000 { return false, unit; }
    var section := SectionCount(n);
    if section > 0xff {
      TooManyFields(units);
      return false, unit;
    }
    var front: seq<u32>;
    ok, front := BuildMessage(units, buf.Size());
    if !ok { return; }
    buf.PutAll(front);
    unit := Segment(buf.Size(), buf.Size() - last);
  }

  lemma TooManyFields(units: seq<Unit>)
    requires SectionCount(|units|) > 0xff
    ensures !HeadOk(FieldWidths(units))
  {
  }

  lemma EmptyMessage(below: nat)
    ensures MessageFront([], below) == [0] && HeadOk(FieldWidths([]))
  {
    var ws := FieldWidths([]);
    assert ws == [];
    assert MessageHead([]) == [0];
  }
}
