/**
 Building the index: the duplicate check, the block table, and the retry loop
 over seeds (Check and Build in src/perfect_hash.cc).
 */
module HashBuild {
  import opened Words
  import opened Bytes
  import opened Swar
  import opened Reciprocal
  import opened HashGraph
  import opened HashMapping
  import opened HashRank
  import opened HashIndex
  import HashCheck

  // ---------------------------------------------------------------------
  // The serialized index
  // ---------------------------------------------------------------------

  /** Table entries, little-endian, `w` bytes each. */
  function Flat(table: seq<nat>, w: nat): seq<byte> {
    if table == [] then [] else ToLE(table[0], w) + Flat(table[1..], w)
  }

  lemma {:induction false} FlatAt(table: seq<nat>, w: nat, a: nat)
    requires w in {1, 2, 4} && a <= |table|
    ensures |Flat(table, w)| == Times(w, |table|)
    ensures a < |table| ==> Times(w, a) + w <= Times(w, |table|)
                            && Flat(table, w)[Times(w, a)..Times(w, a) + w] == ToLE(table[a], w)
  {
    hide ToLE;
    if table != [] {
      var i := if a == 0 then 0 else a - 1;
      FlatAt(table[1..], w, i);
      var head, rest := ToLE(table[0], w), Flat(table[1..], w);
      ToLELength(table[0], w);
      TimesStep(w, |table| - 1);
      if a == 0 {
        assert (head + rest)[..w] == head;
      } else if a < |table| {
        TimesStep(w, i);
        SliceAfter(head, rest, Times(w, i), w);
      }
    }
  }

  lemma ToLELength(v: nat, w: nat)
    ensures |ToLE(v, w)| == w
  {
  }

  lemma TimesStep(w: nat, i: nat)
    requires w in {1, 2, 4}
    ensures Times(w, i + 1) == w + Times(w, i)
  {
  }

  /** Header, bitmap and block table. */
  function IndexData(n: nat, seed: u32, bitmap: seq<byte>, table: seq<nat>): seq<byte> {
    ToLE(n, 4) + ToLE(seed, 4) + bitmap + Flat(table, WordBytes(n))
  }

  /** The entries of the block table: the rank at the start of every block. */
  ghost predicate TableIs(table: seq<nat>, n: nat, labels: seq<nat>) {
    if n > 24 then |table| == Blocks(n) && forall a: nat | a < |table| ::
         32 * a <= |labels| && table[a] == Rank(labels, 32 * a)
    else table == []
  }

  lemma IndexSize(n: nat, seed: u32, bitmap: seq<byte>, table: seq<nat>)
    requires 1 < n < LIMIT && |bitmap| == BitmapSize(Section(n))
    requires n > 24 ==> |table| == Blocks(n)
    requires n <= 24 ==> table == []
    ensures |IndexData(n, seed, bitmap, table)| == IndexBytes(n) >= 8
  {
    hide BitmapSize, Section, LE, ToLE;
    SizesAgree(n);
    FlatAt(table, WordBytes(n), 0);
  }

  lemma IndexParts(n: nat, seed: u32, bitmap: seq<byte>, table: seq<nat>)
    requires 1 < n < LIMIT
    ensures var data := IndexData(n, seed, bitmap, table);
            && |data| >= 8 + |bitmap| && data[..4] == ToLE(n, 4) && data[4..8] == ToLE(seed, 4)
            && data[8..8 + |bitmap|] == bitmap
  {
    hide LE, ToLE, Flat, WordBytes;
    var data, front := IndexData(n, seed, bitmap, table), ToLE(n, 4) + ToLE(seed, 4) + bitmap;
    assert data[..|front|] == front;
    assert data[8..8 + |bitmap|] == front[8..8 + |bitmap|] == bitmap;
    assert data[4..8] == front[4..8] && data[..4] == front[..4];
  }

  lemma SmallSize(n: nat, data: seq<byte>)
    requires n < LIMIT && |data| >= 4 && LE(data[..4]) == n
    ensures RealSize(data) == n
  {
    hide LE;
  }

  /** The bytes of a finished index read back as they were written. */
  lemma ReadBack(n: nat, seed: u32, bitmap: seq<byte>, table: seq<nat>)
    requires 1 < n < LIMIT && |bitmap| == BitmapSize(Section(n))
    requires n > 24 ==> |table| == Blocks(n)
    requires n <= 24 ==> table == []
    ensures var data := IndexData(n, seed, bitmap, table);
            && |data| == IndexBytes(n) >= 8 && LE(data[..4]) == RealSize(data) == n
            && LE(data[4..8]) == seed
            && |data| >= 8 + |bitmap| && Bitmap(data, Section(n)) == bitmap
  {
    hide BitmapSize, Section, LE, ToLE, Flat, IndexBytes, Blocks, WordBytes;
    var data := IndexData(n, seed, bitmap, table);
    IndexSize(n, seed, bitmap, table);
    Pow256Known();
    LoadStored(n, 4);
    LoadStored(seed, 4);
    IndexParts(n, seed, bitmap, table);
    SmallSize(n, data);
  }

  lemma EntryReadBack(n: nat, seed: u32, bitmap: seq<byte>, table: seq<nat>, a: nat)
    requires 1 < n < LIMIT && |bitmap| == BitmapSize(Section(n))
    requires n > 24 && |table| == Blocks(n) && a < |table| && table[a] <= n
    ensures var data := IndexData(n, seed, bitmap, table);
            && |data| >= 8 + |bitmap| + Times(WordBytes(n), a + 1)
            && TableEntry(data, Section(n), n, a) == table[a]
  {
    hide BitmapSize, Section, ToLE, Flat, LE;
    var w := WordBytes(n);
    FlatAt(table, w, a);
    FitsWord(n);
    LoadStored(table[a], w);
    TimesStep(w, a);
    var head := ToLE(n, 4) + ToLE(seed, 4) + bitmap;
    ToLELength(n, 4);
    ToLELength(seed, 4);
    SliceAfter(head, Flat(table, w), Times(w, a), w);
  }

  lemma BlockCount(bitmap: seq<byte>, i: nat)
    requires 8 * i + 8 <= |bitmap|
    ensures Rank(Labels(bitmap), 32 * i + 32)
            == Rank(Labels(bitmap), 32 * i) + CountValidSlot(LE(bitmap[8 * i..8 * i + 8]))
  {
    hide CountNot3, CountValidSlot, LE, Fields;
    var labels, bytes := Labels(bitmap), bitmap[8 * i..8 * i + 8];
    CountValidSlotCounts(LE(bytes));
    FieldsAreLabels(bytes);
    LabelsOfSlice(bitmap, 8 * i, 8 * i + 8);
    var block := labels[32 * i..32 * i + 32];
    assert labels[..32 * i + 32] == labels[..32 * i] + block;
    CountAppend(labels[..32 * i], block);
  }

  /** The running count over the blocks, in the arithmetic of the word type. */
  method FillTable(n: nat, bitmap: seq<byte>, table: array<nat>) returns (cnt: nat)
    requires 24 < n < LIMIT && |bitmap| == BitmapSize(Section(n)) && table.Length == Blocks(n)
    requires CountNot3(Labels(bitmap)) == n
    modifies table
    ensures TableIs(table[..], n, Labels(bitmap)) && cnt == n
  {
    hide CountNot3, Rank, BitmapSize, Section, CountValidSlot, LE, Labels, Pow256, WordBytes;
    SizesAgree(n);
    FitsWord(n);
    ghost var labels := Labels(bitmap);
    assert Rank(labels, 0) == 0 && Rank(labels, |labels|) == n by { RankEnds(labels); }
    cnt := 0;
    var i := 0;
    while i < Blocks(n)
      invariant i <= Blocks(n) && cnt == Rank(labels, 32 * i)
      invariant forall a: nat | a < i :: table[a] == Rank(labels, 32 * a)
    {
      table[i] := cnt;
      BlockCount(bitmap, i);
      RankMonotone(labels, 32 * i + 32, |labels|);
      ghost var sum := cnt + CountValidSlot(LE(bitmap[8 * i..8 * i + 8]));
      assert sum <= n < Pow256(WordBytes(n));
      cnt := (cnt + CountValidSlot(LE(bitmap[8 * i..8 * i + 8]))) % Pow256(WordBytes(n));
      assert cnt == sum;
      i := i + 1;
    }
  }

  lemma RankEnds(labels: seq<nat>)
    ensures Rank(labels, 0) == 0 && Rank(labels, |labels|) == CountNot3(labels)
  {
    assert labels[..|labels|] == labels;
  }

  // ---------------------------------------------------------------------
  // What a finished index promises
  // ---------------------------------------------------------------------

  /** The bytes are an index for `n` keys as far as their size goes. */
  ghost predicate Sized(data: seq<byte>, n: nat) {
    |data| >= 4 && n < LIMIT && LE(data[..4]) == RealSize(data) == n && |data| == IndexBytes(n)
  }

  ghost function Locations(data: seq<byte>, hash: Hash, keys: seq<Option<Key>>): (r: seq<int>)
    requires |data| >= 4 && |data| >= IndexBytes(RealSize(data)) && AllRead(keys)
    ensures |r| == |keys| && forall i | 0 <= i < |r| :: r[i] == Locate(data, hash, keys[i].value)
  {
    seq(|keys|, i requires 0 <= i < |keys| => Locate(data, hash, keys[i].value))
  }

  /** `r` is a permutation of 0..n-1. */
  ghost predicate Permutes(r: seq<int>, n: nat) {
    && |r| == n
    && (forall i | 0 <= i < n :: 0 <= r[i] < n)
    && (forall i, k | 0 <= i < k < n :: r[i] != r[k])
    && (forall p | 0 <= p < n :: p in r)
  }

  /** Locate maps the keys one to one onto 0..n-1 and never exceeds n, whatever it is asked. */
  ghost predicate Perfect(data: seq<byte>, hash: Hash, keys: seq<Option<Key>>) {
    && Sized(data, |keys|)
    && (AllRead(keys) ==> Permutes(Locations(data, hash, keys), |keys|))
    && (forall key: Key :: 0 <= Locate(data, hash, key) <= |keys|)
  }

  /** Every vertex the hash selects has the rank Locate reports. */
  lemma LocateKey(data: seq<byte>, hash: Hash, key: Key)
    requires |data| >= 8 && RealSize(data) > 1 && |data| >= IndexBytes(RealSize(data)) && TableOk(data)
    ensures var m := Section(RealSize(data));
            var code := hash(key, LE(data[4..8]) % 0x1_0000_0000);
            var a, b, c := code.w0 % m, code.w1 % m + m, code.w2 % m + 2 * m;
            && |data| >= 8 + BitmapSize(m)
            && var labels := Labels(Bitmap(data, m));
               && 3 * m <= |labels|
               && Locate(data, hash, key) == Rank(labels, Choose3(labels[a] + labels[b] + labels[c], a, b, c))
  {
    hide BitmapSize, LE, RealSize, IndexBytes, TableOk, Rank, LocateSlots, Labels, Bitmap, Section, Choose3;
    var m := Section(RealSize(data));
    SectionThreshold(RealSize(data));
    var code := hash(key, LE(data[4..8]) % 0x1_0000_0000);
    var a, b, c := Reduced(code.w0, m), Reduced(code.w1, m) + m, Reduced(code.w2, m) + m * 2;
    LocateIsRank(data, a, b, c);
  }

  /** A labelled graph, written out with its table, is a perfect index for the keys. */
  lemma WrittenIndexIsPerfect(n: nat, seed: u32, bitmap: seq<byte>, table: seq<nat>,
                              keys: seq<Option<Key>>, hash: Hash)
    requires 1 < n < LIMIT && |keys| == n && AllRead(keys)
    requires |bitmap| == BitmapSize(Section(n)) && 3 * Section(n) <= |Labels(bitmap)|
    requires InSection(KeySlots(keys, hash, seed, Section(n)), n, Section(n))
    requires Assigned(KeySlots(keys, hash, seed, Section(n)), n, Section(n), Labels(bitmap), Range(n))
    requires TableIs(table, n, Labels(bitmap))
    ensures Perfect(IndexData(n, seed, bitmap, table), hash, keys)
  {
    hide Assigned, InSection, IndexData, BitmapSize, TableIs, TableOk, Section, Bit2, Locate, CountNot3, IndexBytes,
          Rank, Pick, LE, RealSize;
    SectionThreshold(n);
    var data := IndexData(n, seed, bitmap, table);
    var m := Section(n);
    var slots, labels := KeySlots(keys, hash, seed, m), Labels(bitmap);
    MinimalPerfect(slots, n, m, labels);
    WrittenTable(n, seed, bitmap, table);
    LocationsArePositions(data, n, seed, bitmap, keys, hash);
    PermutesLike(Locations(data, hash, keys), Positions(slots, n, m, labels), n);
    forall key: Key ensures 0 <= Locate(data, hash, key) <= n {
      LocateBounded(data, n, seed, bitmap, hash, key);
    }
  }

  lemma LocationsArePositions(data: seq<byte>, n: nat, seed: u32, bitmap: seq<byte>, keys: seq<Option<Key>>, hash: Hash)
    requires |data| >= 8 && 1 < n == RealSize(data) == |keys| && |data| >= IndexBytes(n) && TableOk(data)
    requires LE(data[4..8]) == seed && |data| >= 8 + BitmapSize(Section(n)) && Bitmap(data, Section(n)) == bitmap
    requires AllRead(keys) && 3 * Section(n) <= |Labels(bitmap)|
    requires InSection(KeySlots(keys, hash, seed, Section(n)), n, Section(n))
    ensures var positions := Positions(KeySlots(keys, hash, seed, Section(n)), n, Section(n), Labels(bitmap));
            |positions| == n && forall i | 0 <= i < n :: Locations(data, hash, keys)[i] == positions[i]
  {
    hide InSection, BitmapSize, TableOk, Section, Bit2, Locate, IndexBytes, Rank, Pick, LE, RealSize;
    SectionThreshold(n);
    var m := Section(n);
    var slots, labels := KeySlots(keys, hash, seed, m), Labels(bitmap);
    var positions := Positions(slots, n, m, labels);
    forall i | 0 <= i < n ensures Locations(data, hash, keys)[i] == positions[i] {
      LocateEdge(data, n, seed, bitmap, slots, hash, keys[i].value, i);
    }
  }

  lemma PermutesLike(locations: seq<int>, positions: seq<nat>, n: nat)
    requires |locations| == n && IsOrder(positions, n) && forall r: nat | r < n :: r in positions
    requires forall i | 0 <= i < n :: locations[i] == positions[i]
    ensures Permutes(locations, n)
  {
    forall p | 0 <= p < n ensures p in locations {
      var r: nat := p;
      assert r in positions;
      var i :| 0 <= i < |positions| && positions[i] == p;
      assert locations[i] == p;
    }
  }

  lemma LocateEdge(data: seq<byte>, n: nat, seed: u32, bitmap: seq<byte>, slots: Slots, hash: Hash, key: Key, i: nat)
    requires |data| >= 8 && 1 < n == RealSize(data) && |data| >= IndexBytes(n) && TableOk(data)
    requires LE(data[4..8]) == seed && |data| >= 8 + BitmapSize(Section(n)) && Bitmap(data, Section(n)) == bitmap
    requires i < n && 3 * Section(n) <= |Labels(bitmap)| && InSection(slots, n, Section(n))
    requires slots[0][i] == hash(key, seed).w0 % Section(n) && slots[1][i] == hash(key, seed).w1 % Section(n)
    requires slots[2][i] == hash(key, seed).w2 % Section(n)
    ensures Locate(data, hash, key) == Rank(Labels(bitmap), Pick(slots, n, Section(n), Labels(bitmap), i))
  {
    hide BitmapSize, TableOk, Section, Bit2, Locate, IndexBytes, InSection, RealSize, LE, Rank, Pick;
    SectionThreshold(n);
    PickIsChoice(slots, n, Section(n), Labels(bitmap), i);
    LocateKey(data, hash, key);
  }

  lemma PickIsChoice(slots: Slots, n: nat, m: nat, labels: seq<nat>, e: nat)
    requires InSection(slots, n, m) && e < n && 3 * m <= |labels|
    ensures |slots| == 3 && |slots[0]| == |slots[1]| == |slots[2]| == n
    ensures var a, b, c := slots[0][e], slots[1][e] + m, slots[2][e] + 2 * m;
            && a < 3 * m && b < 3 * m && c < 3 * m
            && Pick(slots, n, m, labels, e) == Choose3(labels[a] + labels[b] + labels[c], a, b, c)
  {
    assert slots[0][e] < m && slots[1][e] < m && slots[2][e] < m;
  }

  lemma LocateBounded(data: seq<byte>, n: nat, seed: u32, bitmap: seq<byte>, hash: Hash, key: Key)
    requires |data| >= 8 && 1 < n == RealSize(data) && |data| >= IndexBytes(n) && TableOk(data)
    requires LE(data[4..8]) == seed && |data| >= 8 + BitmapSize(Section(n)) && Bitmap(data, Section(n)) == bitmap
    requires CountNot3(Labels(bitmap)) == n
    ensures 0 <= Locate(data, hash, key) <= n
  {
    hide BitmapSize, TableOk, Bit2, Locate, IndexBytes, RealSize, LE, CountNot3, Rank, Choose3, Section, Bitmap, Labels;
    var sum, a, b, c := LocateChoice(data, hash, key);
    ChosenRank(Labels(bitmap), sum, a, b, c);
  }

  /** Locate gives the rank of one of three positions in the bitmap. */
  lemma LocateChoice(data: seq<byte>, hash: Hash, key: Key) returns (sum: nat, a: nat, b: nat, c: nat)
    requires |data| >= 8 && RealSize(data) > 1 && |data| >= IndexBytes(RealSize(data)) && TableOk(data)
    ensures |data| >= 8 + BitmapSize(Section(RealSize(data)))
    ensures var labels := Labels(Bitmap(data, Section(RealSize(data))));
            && a < |labels| && b < |labels| && c < |labels|
            && Locate(data, hash, key) == Rank(labels, Choose3(sum, a, b, c))
  {
    hide BitmapSize, TableOk, Bit2, Locate, IndexBytes, RealSize, LE, Rank, Choose3, Section, Bitmap, Labels;
    LocateKey(data, hash, key);
    var m := Section(RealSize(data));
    SectionThreshold(RealSize(data));
    var labels, code := Labels(Bitmap(data, m)), hash(key, LE(data[4..8]) % 0x1_0000_0000);
    a, b, c := Reduced(code.w0, m), Reduced(code.w1, m) + m, Reduced(code.w2, m) + 2 * m;
    sum := labels[a] + labels[b] + labels[c];
  }

  function Reduced(x: nat, m: nat): (r: nat)
    requires m > 0
    ensures r == x % m < m
  {
    x % m
  }

  lemma ChosenRank(labels: seq<nat>, sum: nat, a: nat, b: nat, c: nat)
    requires a < |labels| && b < |labels| && c < |labels|
    ensures Rank(labels, Choose3(sum, a, b, c)) <= CountNot3(labels)
  {
    hide Rank, CountNot3;
    RankMonotone(labels, Choose3(sum, a, b, c), |labels|);
    RankEnds(labels);
  }

  lemma WrittenTable(n: nat, seed: u32, bitmap: seq<byte>, table: seq<nat>)
    requires 1 < n < LIMIT && |bitmap| == BitmapSize(Section(n))
    requires TableIs(table, n, Labels(bitmap)) && CountNot3(Labels(bitmap)) == n
    ensures var data := IndexData(n, seed, bitmap, table);
            && |data| >= 8 && LE(data[..4]) == RealSize(data) == n && |data| == IndexBytes(n) && TableOk(data)
            && LE(data[4..8]) == seed && |data| >= 8 + BitmapSize(Section(n)) && Bitmap(data, Section(n)) == bitmap
  {
    hide BitmapSize, Section, IndexData, CountNot3, Rank;
    var data := IndexData(n, seed, bitmap, table);
    ReadBack(n, seed, bitmap, table);
    SizesAgree(n);
    var labels := Labels(bitmap);
    forall a: nat | a < Blocks(n) ensures TableEntry(data, Section(n), n, a) == Rank(labels, 32 * a) {
      if n > 24 {
        RankMonotone(labels, 32 * a, |labels|);
        RankEnds(labels);
        EntryReadBack(n, seed, bitmap, table, a);
      } else {
        RankEnds(labels);
      }
    }
  }

  // ---------------------------------------------------------------------
  // Build
  // ---------------------------------------------------------------------

  /** The keys hash to a peelable graph under this seed. */
  ghost predicate Succeeds(keys: seq<Option<Key>>, hash: Hash, seed: u32) {
    && AllRead(keys)
    && Peelable(KeySlots(keys, hash, seed, Section(|keys|)), |keys|)
  }

  /** FIRST_TRIES and SECOND_TRIES. */
  function FirstTries(n: nat): nat { if n > 0xff then 4 else 8 }
  function SecondTries(n: nat): nat { if n > 0xff then 12 else 32 }

  lemma KeySlotsInSection(keys: seq<Option<Key>>, hash: Hash, seed: u32, m: nat)
    requires m > 0 && AllRead(keys)
    ensures InSection(KeySlots(keys, hash, seed, m), |keys|, m)
  {
  }

  /** One attempt: create, tear, map. */
  method Attempt(g: Graph, d: Divisor, keys: seq<Option<Key>>, hash: Hash, seed: u32,
                 free: array<nat>, book: array<bool>, bitmap: array<byte>) returns (ok: bool)
    requires 1 < |keys| < LIMIT && g.Valid() && g.slot.Length0 == free.Length == |keys|
    requires g.nodes.Length1 == d.val == Section(|keys|) && d.Valid()
    requires book.Length == 3 * Section(|keys|) && bitmap.Length == BitmapSize(Section(|keys|))
    modifies g, g.slot, g.prev, g.next, g.nodes, free, book, bitmap
    ensures g.Valid()
    ensures ok <==> Succeeds(keys, hash, seed)
    ensures ok ==> Labelled(keys, hash, seed, bitmap[..])
  {
    hide Peelable, PeelOrder, Assigned, InSection, Section, BitmapSize, Approximates, AllThreaded;
    SectionThreshold(|keys|);
    EdgesFitBook(|keys|);
    BitmapBlocks(Section(|keys|));
    ok := g.CreateGraph(keys, hash, seed, d);
    if !ok { return; }
    ghost var core: set<nat>;
    ok, core := g.TearGraph(free, book);
    if !ok { return; }
    KeySlotsInSection(keys, hash, seed, Section(|keys|));
    Mapping(g, d.val, free, book, bitmap);
  }

  lemma EdgesFitBook(n: nat)
    ensures n <= 3 * Section(n)
  {
  }

  /** The bitmap labels the graph of the keys under `seed`. */
  ghost predicate Labelled(keys: seq<Option<Key>>, hash: Hash, seed: u32, bitmap: seq<byte>) {
    && AllRead(keys) && Section(|keys|) > 0 && 3 * Section(|keys|) <= |Labels(bitmap)|
    && InSection(KeySlots(keys, hash, seed, Section(|keys|)), |keys|, Section(|keys|))
    && Assigned(KeySlots(keys, hash, seed, Section(|keys|)), |keys|, Section(|keys|), Labels(bitmap), Range(|keys|))
  }

  /** Two keys that read the same fail under every seed, whatever the hash. */
  lemma TwinKeysFail(keys: seq<Option<Key>>, hash: Hash, seed: u32, i: nat, k: nat)
    requires i < k < |keys| && keys[i] == keys[k]
    ensures !Succeeds(keys, hash, seed)
  {
    if AllRead(keys) {
      EqualCodesFail(keys, hash, seed, i, k);
    }
  }

  /** Two keys with the same three reduced code words fail under this seed. */
  lemma EqualCodesFail(keys: seq<Option<Key>>, hash: Hash, seed: u32, i: nat, k: nat)
    requires AllRead(keys) && i < k < |keys|
    requires forall j: nat | j < 3 ::
               hash(keys[i].value, seed).Word(j) % Section(|keys|)
                   == hash(keys[k].value, seed).Word(j) % Section(|keys|)
    ensures !Succeeds(keys, hash, seed)
  {
    hide Peelable;
    var slots := KeySlots(keys, hash, seed, Section(|keys|));
    TwinsBlockPeeling(slots, |keys|, i, k);
  }

  /** Some seed among the first `tries` succeeds. */
  ghost predicate SomeSeed(keys: seq<Option<Key>>, hash: Hash, seeds: nat -> u32, tries: nat) {
    exists t: nat :: t < tries && Succeeds(keys, hash, seeds(t))
  }

  ghost predicate HasTwins(keys: seq<Option<Key>>) {
    exists i: nat, k: nat | i < k < |keys| :: keys[i] == keys[k]
  }

  lemma TwinsDefeatAllSeeds(keys: seq<Option<Key>>, hash: Hash, seeds: nat -> u32, tries: nat)
    requires HasTwins(keys)
    ensures !SomeSeed(keys, hash, seeds, tries)
  {
    var i: nat, k: nat :| i < k < |keys| && keys[i] == keys[k];
    forall t: nat | t < tries ensures !Succeeds(keys, hash, seeds(t)) {
      TwinKeysFail(keys, hash, seeds(t), i, k);
    }
  }

  /** Writes the finished index. */
  method Finish(keys: seq<Option<Key>>, hash: Hash, seed: u32, bitmap: seq<byte>) returns (data: seq<byte>)
    requires 1 < |keys| < LIMIT && |bitmap| == BitmapSize(Section(|keys|)) && Labelled(keys, hash, seed, bitmap)
    ensures Perfect(data, hash, keys)
  {
    hide Assigned, InSection, BitmapSize, Section, Perfect, IndexData, CountNot3;
    var n := |keys|;
    SizesAgree(n);
    SectionThreshold(n);
    MinimalPerfect(KeySlots(keys, hash, seed, Section(n)), n, Section(n), Labels(bitmap));
    var table: seq<nat> := [];
    if |bitmap| > 8 {
      var cells := new nat[Blocks(n)];
      var cnt := FillTable(n, bitmap, cells);
      assert cnt == n;
      table := cells[..];
    }
    data := IndexData(n, seed, bitmap, table);
    WrittenIndexIsPerfect(n, seed, bitmap, table, keys, hash);
  }

  /** One retry loop: tries the seeds numbered `lo` to `hi - 1` until one succeeds. */
  method TrySeeds(g: Graph, d: Divisor, keys: seq<Option<Key>>, hash: Hash, seeds: nat -> u32, lo: nat, hi: nat,
                  free: array<nat>, book: array<bool>, bitmap: array<byte>) returns (r: Option<seq<byte>>)
    requires lo <= hi && 1 < |keys| < LIMIT && g.Valid() && g.slot.Length0 == free.Length == |keys|
    requires g.nodes.Length1 == d.val == Section(|keys|) && d.Valid()
    requires book.Length == 3 * Section(|keys|) && bitmap.Length == BitmapSize(Section(|keys|))
    modifies g, g.slot, g.prev, g.next, g.nodes, free, book, bitmap
    ensures g.Valid()
    ensures r.Some? ==> Perfect(r.value, hash, keys) && SomeSeed(keys, hash, seeds, hi)
    ensures r.None? ==> forall t: nat | lo <= t < hi :: !Succeeds(keys, hash, seeds(t))
  {
    hide Perfect, Succeeds, Labelled, Section, BitmapSize, Approximates, AllThreaded;
    var t := lo;
    while t < hi
      invariant lo <= t <= hi && g.Valid()
      invariant forall i: nat | lo <= i < t :: !Succeeds(keys, hash, seeds(i))
    {
      var ok := Attempt(g, d, keys, hash, seeds(t), free, book, bitmap);
      if ok {
        var data := Finish(keys, hash, seeds(t), bitmap[..]);
        return Some(data);
      }
      t := t + 1;
    }
    return None;
  }

  /** The working storage of Build. */
  method Tables(n: nat) returns (g: Graph, d: Divisor, free: array<nat>, book: array<bool>, bitmap: array<byte>)
    requires 1 < n < LIMIT
    ensures fresh(g) && fresh(g.slot) && fresh(g.prev) && fresh(g.next) && fresh(g.nodes) && fresh(d) && fresh(free)
          && fresh(book) && fresh(bitmap)
    ensures g.Valid() && g.slot.Length0 == free.Length == n && g.nodes.Length1 == d.val == Section(n) && d.Valid()
    ensures book.Length == 3 * Section(n) && bitmap.Length == BitmapSize(Section(n))
  {
    hide Section, BitmapSize, Approximates, AllThreaded;
    SectionThreshold(n);
    FitsWord(n);
    var section := Section(n);
    d := new Divisor();
    d.Set(section);
    g := new Graph(n, section, KEnd(n));
    free := new nat[n];
    book := new bool[3 * section];
    bitmap := new byte[BitmapSize(section)];
  }

  /** The retry loops of Build for two keys or more. */
  method BuildMany(keys: seq<Option<Key>>, hash: Hash, seeds: nat -> u32, noCheck: bool) returns (r: Option<seq<byte>>)
    requires 1 < |keys| < LIMIT
    ensures r.Some? ==> Perfect(r.value, hash, keys)
    ensures r.Some? ==> SomeSeed(keys, hash, seeds, FirstTries(|keys|) + SecondTries(|keys|))
    ensures SomeSeed(keys, hash, seeds, FirstTries(|keys|)) ==> r.Some?
    ensures noCheck && SomeSeed(keys, hash, seeds, FirstTries(|keys|) + SecondTries(|keys|)) ==> r.Some?
  {
    hide Perfect, Succeeds, Section, BitmapSize, Approximates, AllThreaded;
    var n := |keys|;
    var g, d, free, book, bitmap := Tables(n);
    var first, second := FirstTries(n), SecondTries(n);
    r := TrySeeds(g, d, keys, hash, seeds, 0, first, free, book, bitmap);
    if r.Some? { return; }
    if !noCheck {
      var clean := HashCheck.Check(keys, hash, seeds(first - 1));
      if !clean { return; }
    }
    r := TrySeeds(g, d, keys, hash, seeds, first, first + second, free, book, bitmap);
  }

  /**
   PerfectHashObject::Build.  `seeds` is the stream of seeds tried.  A result is
   always perfect; equal keys never give one; with fewer than two keys only the
   count is stored.
   */
  method Build(keys: seq<Option<Key>>, hash: Hash, seeds: nat -> u32, noCheck: bool) returns (r: Option<seq<byte>>)
    ensures r.Some? ==> Perfect(r.value, hash, keys)
    ensures r.Some? ==> |keys| < 2 || SomeSeed(keys, hash, seeds, FirstTries(|keys|) + SecondTries(|keys|))
    ensures |keys| >= LIMIT ==> r.None?
    ensures |keys| < 2 ==> r.Some?
    ensures HasTwins(keys) ==> r.None?
    ensures 2 <= |keys| < LIMIT && SomeSeed(keys, hash, seeds, FirstTries(|keys|)) ==> r.Some?
    ensures 2 <= |keys| < LIMIT && noCheck && SomeSeed(keys, hash, seeds, FirstTries(|keys|) + SecondTries(|keys|)) ==>
              r.Some?
  {
    var n := |keys|;
    if n >= LIMIT { return None; }
    if n > 1 {
      r := BuildMany(keys, hash, seeds, noCheck);
      if HasTwins(keys) {
        TwinsDefeatAllSeeds(keys, hash, seeds, FirstTries(n) + SecondTries(n));
      }
    } else {
      SmallIndex(keys, hash);
      r := Some(ToLE(n, 4));
    }
  }

  lemma SmallIndex(keys: seq<Option<Key>>, hash: Hash)
    requires |keys| < 2
    ensures Perfect(ToLE(|keys|, 4), hash, keys)
  {
    hide ToLE, LE, LocateSlots, Section, BitmapSize;
    var data := ToLE(|keys|, 4);
    ToLELength(|keys|, 4);
    Pow256Known();
    LoadStored(|keys|, 4);
    assert data[..4] == data;
    if AllRead(keys) {
      var locations := Locations(data, hash, keys);
      assert |keys| == 1 ==> locations == [0];
    }
  }

  /**
   PerfectHashObject::Locate, which reduces the code words with the divisor of
   the builder: it agrees with the reader's Locate on every key.
   */
  method BuilderLocate(data: seq<byte>, d: Divisor, hash: Hash, key: Key) returns (r: int)
    requires |data| >= 4 && |data| >= IndexBytes(RealSize(data))
    requires RealSize(data) >= 2 ==> d.Valid() && d.val == Section(RealSize(data))
    ensures r == Locate(data, hash, key)
  {
    hide IndexBytes, LocateSlots, RealSize, Section, LE, Approximates;
    if RealSize(data) < 2 { return 0; }
    SectionThreshold(RealSize(data));
    SizedHeader(data);
    var code := hash(key, LE(data[4..8]) % 0x1_0000_0000);
    DivExact(d, code.w0);
    DivExact(d, code.w1);
    DivExact(d, code.w2);
    r := LocateSlots(data, d.Mod(code.w0), d.Mod(code.w1) + d.val, d.Mod(code.w2) + d.val * 2);
  }

  lemma SizedHeader(data: seq<byte>)
    requires |data| >= 4 && |data| >= IndexBytes(RealSize(data)) && RealSize(data) >= 2
    ensures |data| >= 8
  {
  }
}
