/**
 The serialized perfect-hash index: its three size computations, and Locate
 over the packed bitmap and block table (src/perfect_hash.cc and
 typescript/wasm/decode_tape.cc).
 */
module HashIndex {
  import opened Words
  import opened Bytes
  import opened Swar
  import opened HashGraph
  import opened HashMapping
  import opened HashRank

  const LIMIT: nat := 0x1000_0000   // counts are below 2^28

  // ---------------------------------------------------------------------
  // Sizes
  // ---------------------------------------------------------------------

  function Section(size: nat): nat {
    var s := (size * 105 + 255) / 256;
    if s < 10 then 10 else s
  }

  /** ((section * 3 + 31) & ~31) / 4 */
  function BitmapSize(section: nat): nat {
    (section * 3 + 31) / 32 * 32 / 4
  }

  /** Bytes of the word type Build is instantiated with. */
  function WordBytes(n: nat): nat {
    if n > 0xffff then 4 else if n > 0xff then 2 else 1
  }

  /** `w * a` for the three word widths. */
  function Times(w: nat, a: nat): nat {
    if w == 4 then 4 * a else if w == 2 then 2 * a else a
  }

  /** kEnd of the word type: all ones. */
  function KEnd(n: nat): nat {
    if n > 0xffff then 0xffff_ffff else if n > 0xff then 0xffff else 0xff
  }

  /** Size computed by Build. */
  function BuildBytes(n: nat): nat {
    var bmsz := BitmapSize(Section(n));
    8 + bmsz + if bmsz > 8 then Times(WordBytes(n), bmsz / 8) else 0
  }

  /** Size computed by the PerfectHash constructor. */
  function IndexBytes(n: nat): nat {
    if n > 1 then
      var bytes := BitmapSize(Section(n));
      8 + bytes + (if n > 0xffff then bytes / 2 else if n > 0xff then bytes / 4 else if n > 24 then bytes / 8 else 0)
    else 4
  }

  /** Size computed by the tape decoder. */
  function IndexByteLength(count: nat): nat {
    if count <= 1 then 4
    else
      var bitmap := BitmapSize(Section(count));
      var bytes := if count > 0xffff then bitmap + bitmap / 2
                   else if count > 0xff then bitmap + bitmap / 4
                   else if count > 24 then bitmap + bitmap / 8
                   else bitmap;
      bytes + 8
  }

  /** Number of 32-vertex blocks. */
  function Blocks(n: nat): nat { BitmapSize(Section(n)) / 8 }

  /** The three size computations agree, and the block table exists exactly for more than 24 keys. */
  lemma SizesAgree(n: nat)
    requires 1 < n < LIMIT
    ensures BuildBytes(n) == IndexBytes(n) == IndexByteLength(n)
    ensures BitmapSize(Section(n)) > 8 <==> n > 24
    ensures BitmapSize(Section(n)) == 8 * Blocks(n)
    ensures 3 * Section(n) <= 32 * Blocks(n) < 3 * Section(n) + 32
    ensures 3 * Section(n) + 31 < 0x1_0000_0000
  {
    hide BitmapSize;
    SectionThreshold(n);
    BitmapBlocks(Section(n));
    var q := Blocks(n);
    assert 8 * q / 8 == q && 8 * q / 4 == 2 * q && 8 * q / 2 == 4 * q;
  }

  lemma SectionThreshold(n: nat)
    requires n < LIMIT
    ensures n <= 24 <==> Section(n) == 10
    ensures 10 <= Section(n) < 0x700_0000
  {
  }

  lemma BitmapBlocks(s: nat)
    ensures BitmapSize(s) == 8 * (BitmapSize(s) / 8)
    ensures 3 * s <= 4 * BitmapSize(s) < 3 * s + 32
    ensures 3 * s <= 32 <==> BitmapSize(s) <= 8
  {
    var q := (s * 3 + 31) / 32;
    assert BitmapSize(s) == q * 32 / 4 == 8 * q;
  }

  /** Edges, vertices and running counts fit the word type; no edge number is the end marker. */
  lemma FitsWord(n: nat)
    requires 1 < n < LIMIT
    ensures n <= KEnd(n) && Section(n) <= KEnd(n) && n < Pow256(WordBytes(n))
    ensures KEnd(n) + 1 == Pow256(WordBytes(n))
  {
    Pow256Known();
  }

  // ---------------------------------------------------------------------
  // Locate
  // ---------------------------------------------------------------------

  /** `v | (~0 << 2b)` on a word of `k` two-bit fields. */
  function OrHigh(v: nat, b: nat, k: nat): nat
    decreases k
  {
    if k == 0 then 0
    else if b == 0 then 3 + 4 * OrHigh(v / 4, 0, k - 1)
    else v % 4 + 4 * OrHigh(v / 4, b - 1, k - 1)
  }

  function RealSize(data: seq<byte>): (n: nat)
    requires |data| >= 4
    ensures n < LIMIT
  {
    LE(data[..4]) % LIMIT
  }

  function Bitmap(data: seq<byte>, section: nat): seq<byte>
    requires |data| >= 8 + BitmapSize(section)
  {
    data[8..8 + BitmapSize(section)]
  }

  /** The block-table entry that Locate adds; there is no table for up to 24 keys. */
  function TableEntry(data: seq<byte>, section: nat, size: nat, a: nat): nat
    requires |data| >= 8 + BitmapSize(section)
    requires size > 24 ==> |data| >= 8 + BitmapSize(section) + Times(WordBytes(size), a + 1)
  {
    if size > 24 then
      var at := 8 + BitmapSize(section) + Times(WordBytes(size), a);
      LE(data[at..at + WordBytes(size)])
    else 0
  }

  /** Every vertex lies inside the bitmap, and its block inside the table. */
  lemma BlockInBounds(n: nat, len: nat, slot: nat)
    requires 1 < n < LIMIT && len >= IndexBytes(n) && slot < 3 * Section(n)
    ensures slot / 32 < Blocks(n) && slot / 4 < BitmapSize(Section(n)) == 8 * Blocks(n)
    ensures len >= 8 + BitmapSize(Section(n))
    ensures n > 24 ==> len >= 8 + BitmapSize(Section(n)) + Times(WordBytes(n), slot / 32 + 1)
  {
    hide BitmapSize;
    SizesAgree(n);
  }

  /** Rank of a vertex from its table entry and its masked block. */
  function PackedRank(data: seq<byte>, section: nat, size: nat, slot: nat): int
    requires |data| >= 8 + BitmapSize(section) && 8 * (slot / 32) + 8 <= BitmapSize(section)
    requires size > 24 ==> |data| >= 8 + BitmapSize(section) + Times(WordBytes(size), slot / 32 + 1)
  {
    var a, b := slot / 32, slot % 32;
    var off := TableEntry(data, section, size, a);
    var block := OrHigh(LE(Bitmap(data, section)[8 * a..8 * a + 8]), b, 32);
    off + CountValidSlot(block)
  }

  function Choose3(m: nat, s0: nat, s1: nat, s2: nat): nat {
    if m % 3 == 0 then s0 else if m % 3 == 1 then s1 else s2
  }

  /** Locate on three vertices: the selected vertex's rank, from one table entry and one block. */
  function LocateSlots(data: seq<byte>, s0: nat, s1: nat, s2: nat): int
    requires |data| >= 8 && RealSize(data) > 1 && |data| >= IndexBytes(RealSize(data))
    requires var m := Section(RealSize(data)); s0 < m && m <= s1 < 2 * m && 2 * m <= s2 < 3 * m
  {
    var size := RealSize(data);
    var section := Section(size);
    BlockInBounds(size, |data|, s0);
    BlockInBounds(size, |data|, s1);
    BlockInBounds(size, |data|, s2);
    var bitmap := Bitmap(data, section);
    var m := Bit2(bitmap, s0) + Bit2(bitmap, s1) + Bit2(bitmap, s2);
    PackedRank(data, section, size, Choose3(m, s0, s1, s2))
  }

  /** Locate on a key; every code word is reduced into its side of the graph. */
  function Locate(data: seq<byte>, hash: Hash, key: Key): int
    requires |data| >= 4 && |data| >= IndexBytes(RealSize(data))
  {
    var size := RealSize(data);
    if size < 2 then 0
    else
      var section := Section(size);
      var code := hash(key, LE(data[4..8]) % 0x1_0000_0000);
      LocateSlots(data, code.w0 % section, code.w1 % section + section, code.w2 % section + section * 2)
  }

  // ---------------------------------------------------------------------
  // Locate computes a rank
  // ---------------------------------------------------------------------

  /** The lowest field of a word whose fields from `b` on are set. */
  lemma HighStep(v: nat, b: nat, k: nat)
    requires 0 < k
    ensures var low, rest := if b == 0 then 3 else v % 4, OrHigh(v / 4, if b == 0 then 0 else b - 1, k - 1);
            Fields(OrHigh(v, b, k), k) == [low] + Fields(rest, k - 1)
  {
    var low, rest := if b == 0 then 3 else v % 4, OrHigh(v / 4, if b == 0 then 0 else b - 1, k - 1);
    assert OrHigh(v, b, k) == low + 4 * rest;
    hide OrHigh;
    QuarterOf(low + 4 * rest, rest, low);
  }

  lemma {:induction false} OrHighFields(v: nat, b: nat, k: nat)
    requires b <= k
    ensures CountNot3(Fields(OrHigh(v, b, k), k)) == CountNot3(Fields(v, k)[..b])
    decreases k
  {
    hide OrHigh, CountNot3;
    if b == 0 {
      NoCount(Fields(v, k)[..0]);
      if k > 0 {
        OrHighFields(v / 4, 0, k - 1);
        NoCount(Fields(v / 4, k - 1)[..0]);
        HighStep(v, 0, k);
        CountCons(3, Fields(OrHigh(v / 4, 0, k - 1), k - 1));
      } else {
        NoCount(Fields(OrHigh(v, b, k), k));
      }
    } else {
      OrHighFields(v / 4, b - 1, k - 1);
      HighStep(v, b, k);
      CountCons(v % 4, Fields(OrHigh(v / 4, b - 1, k - 1), k - 1));
      assert Fields(v, k)[..b] == [v % 4] + Fields(v / 4, k - 1)[..b - 1];
      CountCons(v % 4, Fields(v / 4, k - 1)[..b - 1]);
    }
  }

  lemma CountCons(d: nat, t: seq<nat>)
    ensures CountNot3([d] + t) == (if d != 3 then 1 else 0) + CountNot3(t)
  {
    assert ([d] + t)[1..] == t;
  }

  lemma NoCount(s: seq<nat>)
    requires s == []
    ensures CountNot3(s) == 0
  {
  }

  /** The fields of a little-endian word are the labels of its bytes. */
  lemma {:induction false} FieldsAreLabels(bytes: seq<byte>)
    ensures Fields(LE(bytes), 4 * |bytes|) == Labels(bytes)
  {
    if bytes == [] {
    } else {
      var b, t := bytes[0], bytes[1..];
      FieldsAreLabels(t);
      assert LE(bytes) == b + 256 * LE(t);
      hide LE, Field, Fields, Labels;
      FourFields(b, LE(t), 4 * |t|);
      FirstLabels(bytes);
    }
  }

  lemma FirstLabels(bytes: seq<byte>)
    requires bytes != []
    ensures var b := bytes[0];
            Labels(bytes) == [Field(b, 0), Field(b, 1), Field(b, 2), Field(b, 3)] + Labels(bytes[1..])
  {
    hide Bit2, Field;
    var labels, rest := Labels(bytes), Labels(bytes[1..]);
    forall p | 0 <= p < |rest| ensures labels[p + 4] == rest[p] { NextBit2(bytes, p); }
    FirstBit2(bytes);
    assert labels == [labels[0], labels[1], labels[2], labels[3]] + rest;
  }

  lemma FirstBit2(bytes: seq<byte>)
    requires bytes != []
    ensures forall p: nat | p < 4 :: Bit2(bytes, p) == Field(bytes[0], p)
  {
    hide Field;
    forall p: nat | p < 4 ensures Bit2(bytes, p) == Field(bytes[0], p) { QuarterOf(p, 0, p); }
  }

  lemma NextBit2(bytes: seq<byte>, p: nat)
    requires bytes != [] && p < 4 * (|bytes| - 1)
    ensures Bit2(bytes, p + 4) == Bit2(bytes[1..], p)
  {
    hide Field;
    QuarterOf(p + 4, p / 4 + 1, p % 4);
    assert bytes[p / 4 + 1] == bytes[1..][p / 4];
  }

  lemma QuarterOf(n: nat, q: nat, r: nat)
    requires n == 4 * q + r && r < 4
    ensures n / 4 == q && n % 4 == r
  {
  }

  lemma FourFields(b: byte, x: nat, k: nat)
    ensures Fields(b + 256 * x, k + 4) == [Field(b, 0), Field(b, 1), Field(b, 2), Field(b, 3)] + Fields(x, k)
  {
    var v := b + 256 * x;
    var v1, v2, v3 := b / 4 + 64 * x, b / 16 + 16 * x, b / 64 + 4 * x;
    assert v / 4 == v1 && v % 4 == b % 4;
    assert v1 / 4 == v2 && v1 % 4 == b / 4 % 4;
    assert v2 / 4 == v3 && v2 % 4 == b / 16 % 4;
    assert v3 / 4 == x && v3 % 4 == b / 64;
    assert Fields(v, k + 4) == [v % 4] + Fields(v1, k + 3);
    assert Fields(v1, k + 3) == [v1 % 4] + Fields(v2, k + 2);
    assert Fields(v2, k + 2) == [v2 % 4] + Fields(v3, k + 1);
    assert Fields(v3, k + 1) == [v3 % 4] + Fields(x, k);
  }

  /** Labels of a slice of the bitmap. */
  lemma LabelsOfSlice(vec: seq<byte>, i: nat, k: nat)
    requires i <= k <= |vec|
    ensures Labels(vec[i..k]) == Labels(vec)[4 * i..4 * k]
  {
    var part, whole := Labels(vec[i..k]), Labels(vec)[4 * i..4 * k];
    forall p | 0 <= p < |part| ensures part[p] == whole[p] {
      assert vec[i..k][p / 4] == vec[(4 * i + p) / 4];
    }
  }

  /** Counting within a block after masking gives the rank inside the block. */
  lemma LabelCount(bitmap: seq<byte>)
    ensures |Labels(bitmap)| == 4 * |bitmap|
  {
  }

  lemma BlockRank(bitmap: seq<byte>, slot: nat)
    requires |bitmap| % 8 == 0 && slot < 4 * |bitmap|
    ensures var a, b := slot / 32, slot % 32;
            Rank(Labels(bitmap), slot) == Rank(Labels(bitmap), 32 * a)
              + CountValidSlot(OrHigh(LE(bitmap[8 * a..8 * a + 8]), b, 32))
  {
    hide CountNot3, Fields, CountValidSlot, OrHigh, LE;
    var a, b := slot / 32, slot % 32;
    var labels := Labels(bitmap);
    var bytes := bitmap[8 * a..8 * a + 8];
    MaskedCount(bytes, b);
    LabelsOfSlice(bitmap, 8 * a, 8 * a + 8);
    LabelCount(bitmap);
    var block := labels[32 * a..32 * a + 32];
    PrefixInto(labels, 32 * a, slot, 32 * a + 32);
    CountAppend(labels[..32 * a], block[..b]);
  }

  lemma MaskedCount(bytes: seq<byte>, b: nat)
    requires |bytes| == 8 && b < 32
    ensures CountValidSlot(OrHigh(LE(bytes), b, 32)) == CountNot3(Labels(bytes)[..b])
  {
    hide CountNot3, CountValidSlot, OrHigh, LE;
    CountValidSlotCounts(OrHigh(LE(bytes), b, 32));
    OrHighFields(LE(bytes), b, 32);
    FieldsAreLabels(bytes);
  }

  /** `table` holds the rank at the start of every block. */
  ghost predicate TableOk(data: seq<byte>)
    requires |data| >= 8 && RealSize(data) > 1 && |data| >= IndexBytes(RealSize(data))
  {
    var size := RealSize(data);
    SizesAgree(size);
    forall a: nat | a < Blocks(size) ::
      TableEntry(data, Section(size), size, a) == Rank(Labels(Bitmap(data, Section(size))), 32 * a)
  }

  /** Locate returns the rank of the vertex selected by the labels. */
  lemma LocateIsRank(data: seq<byte>, s0: nat, s1: nat, s2: nat)
    requires |data| >= 8 && RealSize(data) > 1 && |data| >= IndexBytes(RealSize(data)) && TableOk(data)
    requires var m := Section(RealSize(data)); s0 < m && m <= s1 < 2 * m && 2 * m <= s2 < 3 * m
    ensures |data| >= 8 + BitmapSize(Section(RealSize(data)))
    ensures var labels := Labels(Bitmap(data, Section(RealSize(data))));
            && 3 * Section(RealSize(data)) <= |labels|
            && LocateSlots(data, s0, s1, s2) == Rank(labels, Choose3(labels[s0] + labels[s1] + labels[s2], s0, s1, s2))
  {
    hide BitmapSize, RealSize, Section, IndexBytes, Rank, TableOk, LocateSlots, PackedRank;
    var size := RealSize(data);
    LocateUnfolds(data, s0, s1, s2);
    BitmapBlocks(Section(size));
    var labels := Labels(Bitmap(data, Section(size)));
    PackedRankIsRank(data, Choose3(labels[s0] + labels[s1] + labels[s2], s0, s1, s2));
  }

  lemma LocateUnfolds(data: seq<byte>, s0: nat, s1: nat, s2: nat)
    requires |data| >= 8 && RealSize(data) > 1 && |data| >= IndexBytes(RealSize(data))
    requires var m := Section(RealSize(data)); s0 < m && m <= s1 < 2 * m && 2 * m <= s2 < 3 * m
    ensures var size := RealSize(data);
            var m := Section(size);
            && |data| >= 8 + BitmapSize(m) && 3 * m <= 4 * BitmapSize(m)
            && var labels := Labels(Bitmap(data, m));
               var slot := Choose3(labels[s0] + labels[s1] + labels[s2], s0, s1, s2);
               && 8 * (slot / 32) + 8 <= BitmapSize(m)
               && (size > 24 ==> |data| >= 8 + BitmapSize(m) + Times(WordBytes(size), slot / 32 + 1))
               && LocateSlots(data, s0, s1, s2) == PackedRank(data, m, size, slot)
  {
    hide BitmapSize, RealSize, Section, IndexBytes, PackedRank;
    var size := RealSize(data);
    BitmapBlocks(Section(size));
    BlockInBounds(size, |data|, s0);
    BlockInBounds(size, |data|, s1);
    BlockInBounds(size, |data|, s2);
  }

  lemma PackedRankIsRank(data: seq<byte>, slot: nat)
    requires |data| >= 8 && RealSize(data) > 1 && |data| >= IndexBytes(RealSize(data)) && TableOk(data)
    requires slot < 3 * Section(RealSize(data))
    ensures var size := RealSize(data);
            var m := Section(size);
            && |data| >= 8 + BitmapSize(m) && 8 * (slot / 32) + 8 <= BitmapSize(m)
            && (size > 24 ==> |data| >= 8 + BitmapSize(m) + Times(WordBytes(size), slot / 32 + 1))
            && slot < 4 * BitmapSize(m)
            && PackedRank(data, m, size, slot) == Rank(Labels(Bitmap(data, m)), slot)
  {
    hide BitmapSize, RealSize, Section, OrHigh, CountValidSlot, Rank, LE, IndexBytes;
    var size := RealSize(data);
    BlockInBounds(size, |data|, slot);
    BlockRank(Bitmap(data, Section(size)), slot);
    assert TableEntry(data, Section(size), size, slot / 32)
           == Rank(Labels(Bitmap(data, Section(size))), 32 * (slot / 32));
  }
}
