/** The header SerializeMessage writes, as the scanning decoder reads it. */
module Headers {
  import opened Words
  import opened Swar
  import opened Messages
  import opened Decode
  import opened Visitor

  lemma HeaderWritten(words: seq<u32>, at: nat, ws: seq<nat>)
    requires HeadOk(ws) && HeadAt(words, at, ws)
    ensures HeaderInside(words, at) && BodyStart(words, at) == at + |MessageHead(ws)|
  {
    hide MessageHead, HeadOk;
    HeadWord(words, at, ws);
  }

  lemma ScanWidthLow(words: seq<u32>, at: nat, ws: seq<nat>, id: nat)
    requires HeadOk(ws) && HeadAt(words, at, ws) && HeaderInside(words, at) && id < 12
    ensures Scan(words, at, id).1 == if id < |ws| then ws[id] else 0
  {
    hide Sum, Fields, FieldAt, LowFields, Pack4, MessageHead, HeadOk, Count32;
    HeadWord(words, at, ws);
    HeadOkFacts(ws);
    LowSection(ws, id);
    FieldsAt(words[at] / 256, 12, id);
  }

  lemma ScanWidthHigh(words: seq<u32>, at: nat, ws: seq<nat>, id: nat)
    requires HeadOk(ws) && HeadAt(words, at, ws) && HeaderInside(words, at) && id >= 12
    ensures Scan(words, at, id).1 == if id < |ws| then ws[id] else 0
  {
    hide Sum, Fields, FieldAt, LowFields, Pack4, MessageHead, HeadOk, Count64, SectionMark;
    HeadWord(words, at, ws);
    HeadOkFacts(ws);
    var a, b := (id - 12) / 25, (id - 12) % 25;
    if 12 + 25 * a < |ws| {
      ReadSection(words, at, ws, a);
      HighSection(ws[12 + 25 * a..Min(37 + 25 * a, |ws|)], Sum(ws[..12 + 25 * a]), b);
      FieldsAt(SectionWord(words, at, a), 25, b);
    }
  }

  /** The scan finds every written field at its cell, and no other field. */
  lemma ScanReadsBack(words: seq<u32>, at: nat, ws: seq<nat>, id: nat)
    requires HeadOk(ws) && HeadAt(words, at, ws) && at + |MessageHead(ws)| + Sum(ws) <= |words|
    ensures HeaderInside(words, at)
    ensures var (off, width) := Scan(words, at, id);
            && width == (if id < |ws| then ws[id] else 0)
            && (width > 0 ==> off == at + |MessageHead(ws)| + Sum(ws[..id]))
  {
    hide Scan, MessageHead, HeadOk, Sum, GetField, HeadAt;
    HeaderWritten(words, at, ws);
    if id < 12 { ScanWidthLow(words, at, ws, id); } else { ScanWidthHigh(words, at, ws, id); }
    GetFieldReadsBack(words, at, ws, id);
    RandomAccessIsScan(words, at, id);
  }

  lemma SectionTotal(part: seq<nat>, base: nat)
    requires Below4(part) && |part| <= 25 && base < 0x4000
    ensures var vec := SectionMark(part, base);
            vec / TWO50 + Sum(Fields(vec, 25)) == base + Sum(part)
  {
    hide Sum, Fields, Pack4, Shl2;
    MarkBound(part, base);
    Pack4Bound(part, 25);
    FieldsJoin(Pack4(part), base, 25, 0);
    NoneLeft(base);
    assert Fields(Pack4(part), 25) + [] == Fields(Pack4(part), 25);
    PackedSum(part, 25);
  }

  /** The body computed from the last section is the whole body. */
  lemma BodyReadsBack(words: seq<u32>, at: nat, ws: seq<nat>)
    requires HeadOk(ws) && HeadAt(words, at, ws) && HeaderInside(words, at)
    ensures BodyWords(words, at) == Sum(ws)
  {
    hide Sum, Fields, Pack4, MessageHead, HeadOk, SectionMark;
    HeadWord(words, at, ws);
    HeadOkFacts(ws);
    var section := SectionCount(|ws|);
    if section == 0 {
      assert ws[..Min(12, |ws|)] == ws;
      PackedSum(ws, 12);
    } else {
      var a := section - 1;
      ReadSection(words, at, ws, a);
      var part, base := ws[12 + 25 * a..Min(37 + 25 * a, |ws|)], Sum(ws[..12 + 25 * a]);
      SectionTotal(part, base);
      assert ws == ws[..12 + 25 * a] + part;
      SumAppend(ws[..12 + 25 * a], part);
    }
  }

  lemma CellsReadInside(words: seq<u32>, loc: Loc, ws: seq<nat>)
    requires HeadOk(ws) && HeadAt(words, loc.at, ws) && loc.at + |MessageHead(ws)| + Sum(ws) <= loc.limit <= |words|
    ensures HeaderInside(words, loc.at) && FieldsInside(words, loc)
  {
    hide Scan, MessageHead, HeadOk, Sum, HeadAt;
    HeaderWritten(words, loc.at, ws);
    forall id: nat | id < 12 + 25 * (words[loc.at] % 256)
      ensures var (off, width) := Scan(words, loc.at, id); width > 0 ==> off + width <= loc.limit
    {
      ScanReadsBack(words, loc.at, ws, id);
      if id < |ws| { PrefixSum(ws, id); }
    }
  }
}
