/**
 Labelling a peeled graph (Mapping in src/perfect_hash.cc) and the ranking
 argument that makes the resulting hash minimal and perfect.
 */
module HashMapping {
  import opened Words
  import opened HashGraph

  // ---------------------------------------------------------------------
  // Two-bit labels packed four to a byte
  // ---------------------------------------------------------------------

  function Field(b: byte, k: nat): nat
    requires k < 4
  {
    if k == 0 then b % 4 else if k == 1 then b / 4 % 4 else if k == 2 then b / 16 % 4 else b / 64
  }

  function Bit2(vec: seq<byte>, pos: nat): nat
    requires pos / 4 < |vec|
  {
    Field(vec[pos / 4], pos % 4)
  }

  function Labels(vec: seq<byte>): (r: seq<nat>)
    ensures |r| == 4 * |vec| && forall p | 0 <= p < |r| :: r[p] == Bit2(vec, p) && r[p] < 4
  {
    seq(4 * |vec|, p requires 0 <= p < 4 * |vec| => Bit2(vec, p))
  }

  function Xor(x: nat, y: nat): nat {
    if x == 0 && y == 0 then 0 else (x + y) % 2 + 2 * Xor(x / 2, y / 2)
  }

  lemma XorBit(a: nat, b: nat, x: nat, y: nat)
    requires a < 2 && b < 2
    ensures Xor(a + 2 * x, b + 2 * y) == (a + b) % 2 + 2 * Xor(x, y)
  {
    var p, q := a + 2 * x, b + 2 * y;
    assert p / 2 == x && q / 2 == y && (p + q) % 2 == (a + b) % 2;
  }

  lemma XorPair(m: nat, n: nat, x: nat, y: nat)
    requires m < 4 && n < 4
    ensures Xor(m + 4 * x, n + 4 * y) == Xor(m, n) + 4 * Xor(x, y)
    ensures n == 0 ==> Xor(m, n) == m
    ensures m == 3 ==> Xor(m, n) == 3 - n
  {
    hide Xor;
    var a, b, c, d := m % 2, m / 2, n % 2, n / 2;
    XorBit(b, d, x, y);
    XorBit(a, c, b + 2 * x, d + 2 * y);
    XorZero();
    XorBit(b, d, 0, 0);
    XorBit(a, c, b, d);
  }

  lemma XorZero()
    ensures Xor(0, 0) == 0
  {
  }

  /** `b ^= (~val & 3) << 2k`, meant for a field that holds `11`. */
  function SetField(b: byte, k: nat, val: nat): nat
    requires k < 4 && val <= 3
  {
    Xor(b, (3 - val) * (if k == 0 then 1 else if k == 1 then 4 else if k == 2 then 16 else 64))
  }

  /** On a field that holds `11` the exclusive-or writes the value and nothing else. */
  lemma SetFieldWrites(b: byte, k: nat, val: nat)
    requires k < 4 && val <= 3 && Field(b, k) == 3
    ensures 0 <= SetField(b, k, val) < 256
    ensures forall i | 0 <= i < 4 :: Field(SetField(b, k, val), i) == if i == k then val else Field(b, i)
  {
    hide Xor, Field;
    var d0, d1, d2, d3 := Field(b, 0), Field(b, 1), Field(b, 2), Field(b, 3);
    ByteFields(b);
    var c := 3 - val;
    XorFour(d0, d1, d2, d3, if k == 0 then c else 0, if k == 1 then c else 0,
            if k == 2 then c else 0, if k == 3 then c else 0);
    FieldsOf(if k == 0 then val else d0, if k == 1 then val else d1,
             if k == 2 then val else d2, if k == 3 then val else d3);
  }

  lemma ByteFields(b: byte)
    ensures b == Field(b, 0) + 4 * (Field(b, 1) + 4 * (Field(b, 2) + 4 * Field(b, 3)))
    ensures Field(b, 0) < 4 && Field(b, 1) < 4 && Field(b, 2) < 4 && Field(b, 3) < 4
  {
    var x := b / 4;
    var y := x / 4;
    assert b == b % 4 + 4 * x && x == x % 4 + 4 * y && y == y % 4 + 4 * (y / 4);
    assert b / 16 == y && b / 64 == y / 4 < 4;
  }

  lemma XorFour(d0: nat, d1: nat, d2: nat, d3: nat, c0: nat, c1: nat, c2: nat, c3: nat)
    requires d0 < 4 && d1 < 4 && d2 < 4 && d3 < 4 && c0 < 4 && c1 < 4 && c2 < 4 && c3 < 4
    requires (c0 == 0 || d0 == 3) && (c1 == 0 || d1 == 3) && (c2 == 0 || d2 == 3) && (c3 == 0 || d3 == 3)
    ensures Xor(d0 + 4 * (d1 + 4 * (d2 + 4 * d3)), c0 + 4 * (c1 + 4 * (c2 + 4 * c3)))
         == (d0 - c0) + 4 * ((d1 - c1) + 4 * ((d2 - c2) + 4 * (d3 - c3)))
  {
    hide Xor;
    XorZero();
    XorPair(d3, c3, 0, 0);
    XorPair(d2, c2, d3, c3);
    XorPair(d1, c1, d2 + 4 * d3, c2 + 4 * c3);
    XorPair(d0, c0, d1 + 4 * (d2 + 4 * d3), c1 + 4 * (c2 + 4 * c3));
  }

  lemma FieldsOf(d0: nat, d1: nat, d2: nat, d3: nat)
    requires d0 < 4 && d1 < 4 && d2 < 4 && d3 < 4
    ensures var b := d0 + 4 * (d1 + 4 * (d2 + 4 * d3));
            b < 256 && Field(b, 0) == d0 && Field(b, 1) == d1 && Field(b, 2) == d2 && Field(b, 3) == d3
  {
  }

  /** SetBit2on11. */
  method SetBit2on11(vec: array<byte>, pos: nat, val: nat)
    requires pos / 4 < vec.Length && val <= 3 && Bit2(vec[..], pos) == 3
    modifies vec
    ensures Labels(vec[..]) == SetAt(old(Labels(vec[..])), pos, val)
  {
    ghost var before := Labels(vec[..]);
    SetFieldWrites(vec[pos / 4], pos % 4, val);
    vec[pos / 4] := SetField(vec[pos / 4], pos % 4, val);
    var after := Labels(vec[..]);
    forall p | 0 <= p < |before| ensures after[p] == if p == pos then val else before[p] {
      assert p / 4 == pos / 4 ==> (p % 4 == pos % 4 <==> p == pos);
    }
  }

  // ---------------------------------------------------------------------
  // Labels that select one vertex per edge
  // ---------------------------------------------------------------------

  /** The vertices of `n` edges lie below `m` on each side. */
  ghost predicate InSection(slots: Slots, n: nat, m: nat) {
    IsSlots(slots, n) && forall j, e | 0 <= j < 3 && 0 <= e < n :: slots[j][e] < m
  }

  /** Vertex number of edge `e` on side `j`: the sides are numbered one after the other. */
  function Vertex(slots: Slots, m: nat, e: nat, j: nat): nat
    requires j < 3 && |slots| == 3 && e < |slots[j]|
  {
    slots[j][e] + if j == 0 then 0 else if j == 1 then m else 2 * m
  }

  /** The vertex that the labels of its three vertices select for edge `e`. */
  ghost function Pick(slots: Slots, n: nat, m: nat, labels: seq<nat>, e: nat): (v: nat)
    requires InSection(slots, n, m) && e < n && 3 * m <= |labels|
    ensures v < 3 * m
  {
    Vertex(slots, m, e, LabelSum(slots, n, m, labels, e) % 3)
  }

  ghost function LabelSum(slots: Slots, n: nat, m: nat, labels: seq<nat>, e: nat): nat
    requires InSection(slots, n, m) && e < n && 3 * m <= |labels|
  {
    labels[Vertex(slots, m, e, 0)] + labels[Vertex(slots, m, e, 1)] + labels[Vertex(slots, m, e, 2)]
  }

  /** The edges of `done` select distinct labelled vertices, and no other vertex is labelled. */
  ghost predicate Assigned(slots: Slots, n: nat, m: nat, labels: seq<nat>, done: set<nat>)
    requires InSection(slots, n, m) && 3 * m <= |labels|
  {
    && (forall e | e in done :: e < n && labels[Pick(slots, n, m, labels, e)] != 3)
    && (forall e, f | e in done && f in done && e != f ::
          Pick(slots, n, m, labels, e) != Pick(slots, n, m, labels, f))
    && (forall v | 0 <= v < |labels| && labels[v] != 3 :: Selected(slots, n, m, labels, done, v))
  }

  ghost predicate Selected(slots: Slots, n: nat, m: nat, labels: seq<nat>, done: set<nat>, v: nat)
    requires InSection(slots, n, m) && 3 * m <= |labels|
  {
    exists e | e in done && e < n :: Pick(slots, n, m, labels, e) == v
  }

  /** `book` marks exactly the vertices of the edges of `done`. */
  ghost predicate Visited(slots: Slots, n: nat, m: nat, book: seq<bool>, done: set<nat>)
    requires InSection(slots, n, m)
  {
    && 3 * m <= |book|
    && (forall e, j: nat | e in done && e < n && j < 3 :: book[Vertex(slots, m, e, j)])
    && (forall v | 0 <= v < 3 * m && book[v] :: Touched(slots, n, m, done, v))
  }

  ghost predicate Touched(slots: Slots, n: nat, m: nat, done: set<nat>, v: nat)
    requires InSection(slots, n, m)
  {
    exists e, j: nat | e in done && e < n && j < 3 :: Vertex(slots, m, e, j) == v
  }

  /** Vertices of different sides never coincide. */
  lemma SidesApart(slots: Slots, n: nat, m: nat, e: nat, i: nat, f: nat, j: nat)
    requires InSection(slots, n, m) && e < n && f < n && i < 3 && j < 3
    ensures Vertex(slots, m, e, i) < 3 * m
    ensures Vertex(slots, m, e, i) == Vertex(slots, m, f, j) <==> i == j && slots[i][e] == slots[j][f]
  {
    assert slots[i][e] < m && slots[j][f] < m;
  }

  /** The vertex an edge owns in a peeling order belongs to no later edge. */
  lemma OwnedUntouched(slots: Slots, n: nat, m: nat, order: seq<nat>, p: nat, j: nat)
    requires InSection(slots, n, m) && IsOrder(order, n) && OwnsOn(slots, n, order, p, j)
    ensures !Touched(slots, n, m, Elements(order[p + 1..]), Vertex(slots, m, order[p], j))
  {
    var later := order[p + 1..];
    forall e, i: nat | e in Elements(later) && e < n && i < 3
      ensures Vertex(slots, m, e, i) != Vertex(slots, m, order[p], j)
    {
      var q :| 0 <= q < |later| && later[q] == e;
      assert order[p + 1 + q] == e && e !in order[..p + 1];
      assert slots[j][e] != slots[j][order[p]];
      SidesApart(slots, n, m, e, i, order[p], j);
    }
  }

  /** In reverse peeling order some vertex of the next edge is always unmarked. */
  lemma SomeVertexFree(slots: Slots, n: nat, m: nat, book: seq<bool>, order: seq<nat>, p: nat)
    requires InSection(slots, n, m) && PeelOrder(slots, n, order) && p < n
    requires Visited(slots, n, m, book, Elements(order[p + 1..]))
    ensures var e := order[p];
            !book[Vertex(slots, m, e, 0)] || !book[Vertex(slots, m, e, 1)] || !book[Vertex(slots, m, e, 2)]
  {
    assert Owns(slots, n, order, p);
    var j: nat :| OwnsOn(slots, n, order, p, j);
    OwnedUntouched(slots, n, m, order, p, j);
    SidesApart(slots, n, m, order[p], j, order[p], j);
    assert !book[Vertex(slots, m, order[p], j)];
  }

  /** Every labelled vertex has been marked. */
  lemma LabelledIsVisited(slots: Slots, n: nat, m: nat, labels: seq<nat>, book: seq<bool>, done: set<nat>, v: nat)
    requires InSection(slots, n, m) && 3 * m <= |labels|
    requires Assigned(slots, n, m, labels, done) && Visited(slots, n, m, book, done)
    requires v < |labels| && labels[v] != 3
    ensures v < 3 * m && book[v]
  {
    assert Selected(slots, n, m, labels, done, v);
    var f :| f in done && f < n && Pick(slots, n, m, labels, f) == v;
    assert book[Vertex(slots, m, f, LabelSum(slots, n, m, labels, f) % 3)];
  }

  /** Relabelling an unmarked vertex does not change what the edges done so far select. */
  lemma PickStable(slots: Slots, n: nat, m: nat, labels: seq<nat>, book: seq<bool>, done: set<nat>,
                   x: nat, labels': seq<nat>, f: nat)
    requires InSection(slots, n, m) && 3 * m <= |labels| == |labels'|
    requires Visited(slots, n, m, book, done) && x < 3 * m && !book[x]
    requires forall v | 0 <= v < |labels| && v != x :: labels'[v] == labels[v]
    requires f in done && f < n
    ensures Pick(slots, n, m, labels', f) == Pick(slots, n, m, labels, f) != x
    ensures Pick(slots, n, m, labels, f) < 3 * m
  {
    assert book[Vertex(slots, m, f, 0)] && book[Vertex(slots, m, f, 1)] && book[Vertex(slots, m, f, 2)];
    SidesApart(slots, n, m, f, 0, f, 0);
    SidesApart(slots, n, m, f, 1, f, 1);
    SidesApart(slots, n, m, f, 2, f, 2);
    assert LabelSum(slots, n, m, labels', f) == LabelSum(slots, n, m, labels, f);
  }

  /** Labelling one unmarked vertex of a new edge. */
  lemma AssignStep(slots: Slots, n: nat, m: nat, labels: seq<nat>, book: seq<bool>, done: set<nat>,
                   e: nat, j: nat, labels': seq<nat>)
    requires InSection(slots, n, m) && 3 * m <= |labels| == |labels'|
    requires Assigned(slots, n, m, labels, done) && Visited(slots, n, m, book, done)
    requires e < n && e !in done && j < 3 && Vertex(slots, m, e, j) < 3 * m && !book[Vertex(slots, m, e, j)]
    requires labels'[Vertex(slots, m, e, j)] < 3
    requires forall v | 0 <= v < |labels| && v != Vertex(slots, m, e, j) :: labels'[v] == labels[v]
    requires LabelSum(slots, n, m, labels', e) % 3 == j
    ensures Assigned(slots, n, m, labels', done + {e})
  {
    var x := Vertex(slots, m, e, j);
    assert Pick(slots, n, m, labels', e) == x;
    forall f | f in done
      ensures f < n && Pick(slots, n, m, labels', f) == Pick(slots, n, m, labels, f) != x
      ensures Pick(slots, n, m, labels, f) < 3 * m
    {
      PickStable(slots, n, m, labels, book, done, x, labels', f);
    }
    AssignExtends(slots, n, m, labels, done, e, x, labels');
  }

  lemma AssignExtends(slots: Slots, n: nat, m: nat, labels: seq<nat>, done: set<nat>, e: nat, x: nat, labels': seq<nat>)
    requires InSection(slots, n, m) && 3 * m <= |labels| == |labels'| && x < 3 * m
    requires Assigned(slots, n, m, labels, done) && e < n && e !in done
    requires labels'[x] != 3 && forall v | 0 <= v < |labels| && v != x :: labels'[v] == labels[v]
    requires Pick(slots, n, m, labels', e) == x
    requires forall f | f in done :: && f < n && Pick(slots, n, m, labels', f) == Pick(slots, n, m, labels, f) != x
                                     && Pick(slots, n, m, labels, f) < 3 * m
    ensures Assigned(slots, n, m, labels', done + {e})
  {
    hide Pick;
    forall v | 0 <= v < |labels'| && labels'[v] != 3 ensures Selected(slots, n, m, labels', done + {e}, v) {
      if v == x {
        assert e in done + {e};
      } else {
        assert Selected(slots, n, m, labels, done, v);
        var f :| f in done && f < n && Pick(slots, n, m, labels, f) == v;
        assert f in done + {e} && Pick(slots, n, m, labels', f) == v;
      }
    }
  }

  /** Marking the vertices of a new edge. */
  lemma VisitStep(slots: Slots, n: nat, m: nat, book: seq<bool>, done: set<nat>, e: nat, book': seq<bool>)
    requires InSection(slots, n, m) && Visited(slots, n, m, book, done) && e < n && |book'| == |book|
    requires forall v | 0 <= v < |book| ::
               book'[v] == (book[v] || v == Vertex(slots, m, e, 0) || v == Vertex(slots, m, e, 1)
                            || v == Vertex(slots, m, e, 2))
    ensures Visited(slots, n, m, book', done + {e})
  {
    forall v | 0 <= v < 3 * m && book'[v] ensures Touched(slots, n, m, done + {e}, v) {
      if book[v] {
        assert Touched(slots, n, m, done, v);
        var f, j: nat :| f in done && f < n && j < 3 && Vertex(slots, m, f, j) == v;
        assert f in done + {e};
      } else {
        assert e in done + {e};
      }
    }
  }

  // ---------------------------------------------------------------------
  // Mapping
  // ---------------------------------------------------------------------

  /** Gives `x` the label that makes the three labels add up to `j` modulo three. */
  method Complete(bitmap: array<byte>, x: nat, y: nat, z: nat, j: nat) returns (val: nat)
    requires x < 4 * bitmap.Length && y < 4 * bitmap.Length && z < 4 * bitmap.Length && j < 3
    requires Labels(bitmap[..])[x] == 3
    modifies bitmap
    ensures val < 3 && (val + old(Labels(bitmap[..]))[y] + old(Labels(bitmap[..]))[z]) % 3 == j
    ensures Labels(bitmap[..]) == SetAt(old(Labels(bitmap[..])), x, val)
  {
    var sum := Bit2(bitmap[..], y) + Bit2(bitmap[..], z);
    val := (6 + j - sum) % 3;
    SetBit2on11(bitmap, x, val);
  }

  ghost function Third(a: nat, b: nat, c: nat, j: nat): nat {
    if j == 0 then a else if j == 1 then b else c
  }

  /** The three mutually exclusive cases of the labelling loop; the fourth never happens. */
  method MapEdge(a: nat, b: nat, c: nat, book: array<bool>, bitmap: array<byte>) returns (ghost j: nat, ghost val: nat)
    requires a < b < c < book.Length && c < 4 * bitmap.Length
    requires !book[a] || !book[b] || !book[c]
    requires var labels := Labels(bitmap[..]);
             (!book[a] ==> labels[a] == 3) && (!book[b] ==> labels[b] == 3) && (!book[c] ==> labels[c] == 3)
    modifies book, bitmap
    ensures j < 3 && val < 3 && !old(book[Third(a, b, c, j)])
    ensures Labels(bitmap[..]) == SetAt(old(Labels(bitmap[..])), Third(a, b, c, j), val)
    ensures var labels := Labels(bitmap[..]); (labels[a] + labels[b] + labels[c]) % 3 == j
    ensures forall v | 0 <= v < book.Length :: book[v] == (old(book[v]) || v == a || v == b || v == c)
  {
    if !book[a] {
      book[a] := true;
      book[b] := true;
      book[c] := true;
      val := Complete(bitmap, a, b, c, 0);
      j := 0;
    } else if !book[b] {
      book[b] := true;
      book[c] := true;
      val := Complete(bitmap, b, a, c, 1);
      j := 1;
    } else if !book[c] {
      book[c] := true;
      val := Complete(bitmap, c, a, b, 2);
      j := 2;
    } else {
      assert false;
    }
  }

  lemma AllOnesAre11(vec: seq<byte>)
    requires forall i | 0 <= i < |vec| :: vec[i] == 255
    ensures forall p | 0 <= p < 4 * |vec| :: Labels(vec)[p] == 3
  {
  }

  /** Labels the vertices in reverse peeling order so that every edge selects a vertex of its own. */
  method Mapping(g: Graph, m: nat, free: array<nat>, book: array<bool>, bitmap: array<byte>)
    requires g.slot.Length1 == 3 && free.Length == g.slot.Length0
    requires InSection(g.Slots(), free.Length, m) && PeelOrder(g.Slots(), free.Length, free[..])
    requires 3 * m <= book.Length && 3 * m <= 4 * bitmap.Length
    modifies book, bitmap
    ensures Assigned(g.Slots(), free.Length, m, Labels(bitmap[..]), Range(free.Length))
  {
    hide Assigned, Visited, PeelOrder, InSection, Bit2, Elements;
    ghost var n, slots, order := free.Length, g.Slots(), free[..];
    forall i | 0 <= i < bitmap.Length { bitmap[i] := 255; }
    forall v | 0 <= v < book.Length { book[v] := false; }
    AllOnesAre11(bitmap[..]);
    var i := free.Length;
    assert order[i..] == [];
    MapNothing(slots, n, m, Labels(bitmap[..]), book[..]);
    while i > 0
      invariant i <= n && free[..] == order
      invariant Assigned(slots, n, m, Labels(bitmap[..]), Elements(order[i..]))
      invariant Visited(slots, n, m, book[..], Elements(order[i..]))
    {
      i := i - 1;
      MapNext(g, m, free, book, bitmap, i);
    }
    assert order[0..] == order;
    WholeOrder(slots, order, n);
  }

  lemma MapNothing(slots: Slots, n: nat, m: nat, labels: seq<nat>, book: seq<bool>)
    requires InSection(slots, n, m) && 3 * m <= |labels| && 3 * m <= |book|
    requires (forall v | 0 <= v < |labels| :: labels[v] == 3) && (forall v | 0 <= v < |book| :: !book[v])
    ensures Assigned(slots, n, m, labels, Elements([])) && Visited(slots, n, m, book, Elements([]))
  {
  }

  lemma WholeOrder(slots: Slots, order: seq<nat>, n: nat)
    requires IsSlots(slots, n) && PeelOrder(slots, n, order)
    ensures Elements(order) == Range(n)
  {
    forall e | e in Range(n) ensures e in Elements(order) { OrderCovers(order, n, e); }
  }

  /** One turn of the labelling loop. */
  method MapNext(g: Graph, m: nat, free: array<nat>, book: array<bool>, bitmap: array<byte>, i: nat)
    requires g.slot.Length1 == 3 && i < free.Length == g.slot.Length0
    requires InSection(g.Slots(), free.Length, m) && PeelOrder(g.Slots(), free.Length, free[..])
    requires 3 * m <= book.Length && 3 * m <= 4 * bitmap.Length
    requires Assigned(g.Slots(), free.Length, m, Labels(bitmap[..]), Elements(free[..][i + 1..]))
    requires Visited(g.Slots(), free.Length, m, book[..], Elements(free[..][i + 1..]))
    modifies book, bitmap
    ensures Assigned(g.Slots(), free.Length, m, Labels(bitmap[..]), Elements(free[..][i..]))
    ensures Visited(g.Slots(), free.Length, m, book[..], Elements(free[..][i..]))
  {
    hide Assigned, Visited, PeelOrder, InSection, Bit2, Elements;
    ghost var n, slots, order := free.Length, g.Slots(), free[..];
    ghost var labels, marks := Labels(bitmap[..]), book[..];
    BeforeMap(slots, n, m, labels, marks, order, i);
    var e := free[i];
    var a, b, c := g.slot[e, 0], g.slot[e, 1] + m, g.slot[e, 2] + m * 2;
    assert a == Vertex(slots, m, e, 0) && b == Vertex(slots, m, e, 1) && c == Vertex(slots, m, e, 2);
    ghost var j, val := MapEdge(a, b, c, book, bitmap);
    MapStep(slots, n, m, labels, marks, order, i, j, val, Labels(bitmap[..]), book[..]);
  }

  lemma SuffixStep(order: seq<nat>, i: nat)
    requires i < |order| && Distinct(order)
    ensures order[i] !in Elements(order[i + 1..])
    ensures Elements(order[i..]) == Elements(order[i + 1..]) + {order[i]}
  {
    assert order[i..] == [order[i]] + order[i + 1..];
  }

  /** What holds of the next edge's vertices before it is labelled. */
  lemma BeforeMap(slots: Slots, n: nat, m: nat, labels: seq<nat>, book: seq<bool>, order: seq<nat>, i: nat)
    requires InSection(slots, n, m) && 3 * m <= |labels| && i < n && PeelOrder(slots, n, order)
    requires Assigned(slots, n, m, labels, Elements(order[i + 1..]))
    requires Visited(slots, n, m, book, Elements(order[i + 1..]))
    ensures |order| == n && order[i] < n && |slots| == 3 && |slots[0]| == |slots[1]| == |slots[2]| == n
    ensures var e := order[i];
            var a, b, c := Vertex(slots, m, e, 0), Vertex(slots, m, e, 1), Vertex(slots, m, e, 2);
            && a < b < c < 3 * m <= |book|
            && (!book[a] ==> labels[a] == 3) && (!book[b] ==> labels[b] == 3) && (!book[c] ==> labels[c] == 3)
            && (!book[a] || !book[b] || !book[c])
  {
    var e, done := order[i], Elements(order[i + 1..]);
    assert slots[0][e] < m && slots[1][e] < m && slots[2][e] < m;
    SomeVertexFree(slots, n, m, book, order, i);
    var a, b, c := Vertex(slots, m, e, 0), Vertex(slots, m, e, 1), Vertex(slots, m, e, 2);
    if labels[a] != 3 { LabelledIsVisited(slots, n, m, labels, book, done, a); }
    if labels[b] != 3 { LabelledIsVisited(slots, n, m, labels, book, done, b); }
    if labels[c] != 3 { LabelledIsVisited(slots, n, m, labels, book, done, c); }
  }

  /** The effect of one turn of the labelling loop. */
  lemma MapStep(slots: Slots, n: nat, m: nat, labels: seq<nat>, book: seq<bool>, order: seq<nat>, i: nat,
                j: nat, val: nat, labels': seq<nat>, book': seq<bool>)
    requires InSection(slots, n, m) && PeelOrder(slots, n, order) && i < n && 3 * m <= |labels| == |labels'|
    requires |book'| == |book|
    requires Assigned(slots, n, m, labels, Elements(order[i + 1..]))
    requires Visited(slots, n, m, book, Elements(order[i + 1..]))
    requires j < 3 && val < 3
    requires var e := order[i];
             var a, b, c := Vertex(slots, m, e, 0), Vertex(slots, m, e, 1), Vertex(slots, m, e, 2);
             && a < b < c < 3 * m <= |book|
             && !book[Third(a, b, c, j)] && labels' == SetAt(labels, Third(a, b, c, j), val)
             && (labels'[a] + labels'[b] + labels'[c]) % 3 == j
             && forall v | 0 <= v < |book| :: book'[v] == (book[v] || v == a || v == b || v == c)
    ensures Assigned(slots, n, m, labels', Elements(order[i..])) && Visited(slots, n, m, book', Elements(order[i..]))
  {
    hide Assigned, Visited, Elements;
    SuffixStep(order, i);
    AssignStep(slots, n, m, labels, book, Elements(order[i + 1..]), order[i], j, labels');
    VisitStep(slots, n, m, book, Elements(order[i + 1..]), order[i], book');
  }
}
