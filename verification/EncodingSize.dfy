/** All encodings of a tree have the same length, whatever index its maps got. */
module EncodingSize {
  import opened Words
  import opened Swar
  import opened Layout
  import opened Strings
  import opened Serialize
  import opened Messages
  import opened Offsets
  import opened HashGraph
  import opened HashIndex
  import opened Arena

  // ---------------------------------------------------------------------
  // Totals do not depend on the order
  // ---------------------------------------------------------------------

  /** `order` lists 0..n-1, each once. */
  ghost predicate Permutation(order: seq<nat>, n: nat) {
    && |order| == n && (forall s | 0 <= s < n :: order[s] < n)
    && (forall i | 0 <= i < n :: i in order)
    && (forall s, t | 0 <= s < t < n :: order[s] != order[t])
  }

  function Chosen(xs: seq<nat>, order: seq<nat>): (r: seq<nat>)
    requires forall s | 0 <= s < |order| :: order[s] < |xs|
    ensures |r| == |order| && forall s | 0 <= s < |r| :: r[s] == xs[order[s]]
  {
    seq(|order|, s requires 0 <= s < |order| => xs[order[s]])
  }

  function Cost(x: nat, k: nat): nat { k + if x > k then x else 0 }

  lemma {:induction false} TotalInsert(a: seq<nat>, v: nat, b: seq<nat>, k: nat)
    ensures CellTotal(a + [v] + b, k) == CellTotal(a + b, k) + Cost(v, k)
  {
    if a == [] {
      assert a + [v] + b == [v] + b && a + b == b;
      assert ([v] + b)[1..] == b;
    } else {
      TotalInsert(a[1..], v, b, k);
      assert (a + [v] + b)[1..] == a[1..] + [v] + b && (a + b)[1..] == a[1..] + b;
    }
  }

  /** A permutation without the place that holds its largest number. */
  lemma Shorter(order: seq<nat>, n: nat, p: nat)
    requires Permutation(order, n + 1) && p <= n && order[p] == n
    ensures Permutation(order[..p] + order[p + 1..], n)
  {
    var rest := order[..p] + order[p + 1..];
    forall s | 0 <= s < n ensures rest[s] < n {
      var t := if s < p then s else s + 1;
      assert rest[s] == order[t] && order[t] != order[p];
    }
    forall i | 0 <= i < n ensures i in rest {
      assert i in order;
      var s :| 0 <= s < |order| && order[s] == i;
      assert rest[if s < p then s else s - 1] == i;
    }
    forall s, t | 0 <= s < t < n ensures rest[s] != rest[t] {
      assert rest[s] == order[if s < p then s else s + 1] && rest[t] == order[if t < p then t else t + 1];
    }
  }

  lemma TotalLast(xs: seq<nat>, k: nat)
    requires xs != []
    ensures CellTotal(xs, k) == CellTotal(xs[..|xs| - 1], k) + Cost(xs[|xs| - 1], k)
  {
    hide CellTotal;
    var n := |xs| - 1;
    assert xs == xs[..n] + [xs[n]] + [] && xs[..n] + [] == xs[..n];
    TotalInsert(xs[..n], xs[n], [], k);
  }

  lemma ChosenWithout(xs: seq<nat>, order: seq<nat>, p: nat)
    requires Permutation(order, |xs|) && p < |order| && order[p] == |xs| - 1
    requires Permutation(order[..p] + order[p + 1..], |xs| - 1)
    ensures var all := Chosen(xs, order);
            && Chosen(xs[..|xs| - 1], order[..p] + order[p + 1..]) == all[..p] + all[p + 1..]
            && all == all[..p] + [xs[|xs| - 1]] + all[p + 1..]
  {
  }

  lemma {:induction false} PermutedTotal(xs: seq<nat>, order: seq<nat>, k: nat)
    requires Permutation(order, |xs|)
    ensures CellTotal(Chosen(xs, order), k) == CellTotal(xs, k)
    decreases |xs|
  {
    hide CellTotal, Cost;
    if xs == [] {
      assert Chosen(xs, order) == xs;
    } else {
      var n := |xs| - 1;
      assert n in order;
      var p :| 0 <= p < |order| && order[p] == n;
      Shorter(order, n, p);
      var rest, all := order[..p] + order[p + 1..], Chosen(xs, order);
      PermutedTotal(xs[..n], rest, k);
      ChosenWithout(xs, order, p);
      TotalInsert(all[..p], xs[n], all[p + 1..], k);
      TotalLast(xs, k);
    }
  }

  ghost function SlotOf(order: seq<nat>, i: nat): (s: nat)
    requires i in order
    ensures s < |order| && order[s] == i
  {
    var s :| 0 <= s < |order| && order[s] == i;
    s
  }

  /** Two orders of the same lengths. */
  ghost predicate SameColumn(o: seq<nat>, a: seq<seq<u32>>, p: seq<nat>, b: seq<seq<u32>>) {
    && |a| == |b| && Permutation(o, |a|) && Permutation(p, |b|)
    && forall s, t | 0 <= s < |a| && 0 <= t < |b| && o[s] == p[t] :: |a[s]| == |b[t]|
  }

  lemma ColumnTotals(o: seq<nat>, a: seq<seq<u32>>, p: seq<nat>, b: seq<seq<u32>>, k: nat)
    requires SameColumn(o, a, p, b)
    ensures CellTotal(Lens(a), k) == CellTotal(Lens(b), k)
  {
    hide CellTotal;
    var n := |a|;
    var xs := seq(n, i requires 0 <= i < n => |a[SlotOf(o, i)]|);
    forall s | 0 <= s < n ensures Lens(a)[s] == xs[o[s]] && Lens(b)[s] == xs[p[s]] {
      assert o[s] in o && SlotOf(o, o[s]) == s;
      assert p[s] in o;
      var t := SlotOf(o, p[s]);
      assert |a[t]| == |b[s]|;
    }
    assert Lens(a) == Chosen(xs, o) && Lens(b) == Chosen(xs, p);
    PermutedTotal(xs, o, k);
    PermutedTotal(xs, p, k);
  }

  lemma ColumnWidths(o: seq<nat>, a: seq<seq<u32>>, p: seq<nat>, b: seq<seq<u32>>)
    requires SameColumn(o, a, p, b)
    ensures BestWidth(Lens(a)) == BestWidth(Lens(b))
    ensures CellTotal(Lens(a), BestWidth(Lens(a))) == CellTotal(Lens(b), BestWidth(Lens(b)))
  {
    hide CellTotal, SameColumn, Lens;
    ColumnTotals(o, a, p, b, 1);
    ColumnTotals(o, a, p, b, 2);
    ColumnTotals(o, a, p, b, 3);
  }

  // ---------------------------------------------------------------------
  // Sizes of containers
  // ---------------------------------------------------------------------

  lemma ArraySize(ws: seq<seq<u32>>)
    requires ws != []
    ensures |ArrayWords(ws)| == 1 + CellTotal(Lens(ws), BestWidth(Lens(ws)))
  {
    hide Cells, Kept, BestWidth, CellTotal, WidthSum, KeptSum;
    BestBounds(Lens(ws));
    var m := BestWidth(Lens(ws));
    var items := ArrayItems(ws, m);
    Sizes(items, 0);
    ItemTotals(items, Lens(ws), m);
  }

  lemma MapSize(index: seq<byte>, ks: seq<seq<u32>>, vs: seq<seq<u32>>)
    requires |ks| == |vs| && |index| > 0 && WordAt(index, 0) < 0x1000_0000
    ensures |MapWords(index, ks, vs)|
            == WordSize(|index|) + CellTotal(Lens(ks), BestWidth(Lens(ks))) + CellTotal(Lens(vs), BestWidth(Lens(vs)))
  {
    hide Cells, Kept, BestWidth, CellTotal, WidthSum, KeptSum;
    BestBounds(Lens(ks));
    BestBounds(Lens(vs));
    var m1, m2 := BestWidth(Lens(ks)), BestWidth(Lens(vs));
    var items := MapItems(ks, vs, m1, m2);
    Sizes(items, 0);
    PairTotals(items, Lens(ks), Lens(vs), m1, m2);
  }

  // ---------------------------------------------------------------------
  // Encodings
  // ---------------------------------------------------------------------

  /** Any two encodings of a tree are equally long. */
  lemma {:induction false} EncodingLength(node: Node, a: seq<u32>, b: seq<u32>, hash: Hash)
    requires Enc(node, a, hash) && Enc(node, b, hash)
    ensures |a| == |b|
    decreases node, 2
  {
    hide EncArray, EncMap, EncMessage, StringWords, ScalarsWords, ScalarWords;
    match node
    case ArrayNode(_, _) =>
      var x: seq<seq<u32>> :| EncArray(node, x, a, hash);
      var y: seq<seq<u32>> :| EncArray(node, y, b, hash);
      ArrayLength(node, x, a, y, b, hash);
    case MapNode(_, _, entries) =>
      if entries != [] {
        var x: MapPlan :| EncMap(node, x, a, hash);
        var y: MapPlan :| EncMap(node, y, b, hash);
        MapLength(node, x, a, y, b, hash);
      }
    case MessageNode(_, _) =>
      var x: MessagePlan :| EncMessage(node, x, a, hash);
      var y: MessagePlan :| EncMessage(node, y, b, hash);
      MessageLength(node, x, a, y, b, hash);
    case _ =>
  }

  lemma {:induction false} ArrayLength(node: Node, x: seq<seq<u32>>, a: seq<u32>, y: seq<seq<u32>>, b: seq<u32>,
                                       hash: Hash)
    requires node.ArrayNode? && EncArray(node, x, a, hash) && EncArray(node, y, b, hash)
    ensures |a| == |b|
    decreases node, 0
  {
    hide ArrayWords, Enc;
    forall i | 0 <= i < |x| ensures |x[i]| == |y[i]| {
      EncodingLength(node.elems[i], x[i], y[i], hash);
    }
    assert Lens(x) == Lens(y);
    if x != [] {
      ArraySize(x);
      ArraySize(y);
    } else {
      assert x == y;
    }
  }

  /** Two ways to slot the entries of a map have the same key lengths and the same value lengths. */
  lemma {:induction false} PlansAgree(node: Node, x: MapPlan, y: MapPlan, hash: Hash)
    requires node.MapNode? && PlanEncodes(node.entries, x, hash) && PlanEncodes(node.entries, y, hash)
    ensures SameColumn(x.order, x.ks, y.order, y.ks) && SameColumn(x.order, x.vs, y.order, y.vs)
    decreases node, 0
  {
    hide Enc;
    forall s, t | 0 <= s < |x.order| && 0 <= t < |y.order| && x.order[s] == y.order[t]
      ensures |x.ks[s]| == |y.ks[t]| && |x.vs[s]| == |y.vs[t]|
    {
      var entry := node.entries[x.order[s]];
      EncodingLength(entry.0, x.ks[s], y.ks[t], hash);
      EncodingLength(entry.1, x.vs[s], y.vs[t], hash);
    }
  }

  /** Every entry stands in one slot with words that encode it. */
  ghost predicate PlanEncodes(entries: seq<(Node, Node)>, plan: MapPlan, hash: Hash) {
    && |plan.ks| == |plan.vs| == |entries| && Permutation(plan.order, |entries|)
    && forall s | 0 <= s < |plan.order| ::
         Enc(entries[plan.order[s]].0, plan.ks[s], hash) && Enc(entries[plan.order[s]].1, plan.vs[s], hash)
  }

  lemma {:induction false} MapLength(node: Node, x: MapPlan, a: seq<u32>, y: MapPlan, b: seq<u32>, hash: Hash)
    requires node.MapNode? && EncMap(node, x, a, hash) && EncMap(node, y, b, hash)
    ensures |a| == |b|
    decreases node, 1
  {
    hide MapWords, Enc, Locate, SameColumn, IndexBytes, BestWidth, CellTotal;
    PlansAgree(node, x, y, hash);
    ColumnWidths(x.order, x.ks, y.order, y.ks);
    ColumnWidths(x.order, x.vs, y.order, y.vs);
    MapSize(x.index, x.ks, x.vs);
    MapSize(y.index, y.ks, y.vs);
  }

  lemma {:induction false} SameOut(a: seq<seq<u32>>, b: seq<seq<u32>>)
    requires |a| == |b| && forall i | 0 <= i < |a| :: |a[i]| == |b[i]|
    ensures OutTotal(a) == OutTotal(b)
  {
    if a != [] { SameOut(a[1..], b[1..]); }
  }

  lemma {:induction false} MessageLength(node: Node, x: MessagePlan, a: seq<u32>, y: MessagePlan, b: seq<u32>,
                                         hash: Hash)
    requires node.MessageNode? && EncMessage(node, x, a, hash) && EncMessage(node, y, b, hash)
    ensures |a| == |b|
    decreases node, 0
  {
    hide Enc, MessageHead, Sum, HeadOk, HeadAt, FieldStored, StoredBehind, OutTotal;
    forall k | 0 <= k < |node.fields| ensures |x.cs[k]| == |y.cs[k]| {
      EncodingLength(node.fields[k].1, x.cs[k], y.cs[k], hash);
    }
    SameOut(x.cs, y.cs);
    NotWider(node, x, a, y, b, hash);
    NotWider(node, y, b, x, a, hash);
    assert x.widths == y.widths;
  }

  /** Every width of one encoding is a width of the other. */
  lemma NotWider(node: Node, x: MessagePlan, a: seq<u32>, y: MessagePlan, b: seq<u32>, hash: Hash)
    requires node.MessageNode? && EncMessage(node, x, a, hash) && EncMessage(node, y, b, hash)
    requires forall k | 0 <= k < |node.fields| :: |x.cs[k]| == |y.cs[k]|
    ensures |x.widths| <= |y.widths| && forall id | 0 <= id < |x.widths| && id < |y.widths| ::
              x.widths[id] == y.widths[id]
  {
    hide Enc, MessageHead, Sum, HeadOk, HeadAt, StoredBehind, OutTotal, Outlined, InAt;
    var fields := node.fields;
    forall id | 0 <= id < |x.widths|
      ensures if id < |y.widths| then x.widths[id] == y.widths[id] else x.widths[id] == 0
    {
      if Listed(fields, id) {
        var k :| 0 <= k < |fields| && fields[k].0 == id;
        assert FieldStored(a, x.widths, fields[k].0, x.cs[k]) && FieldStored(b, y.widths, fields[k].0, y.cs[k]);
      }
    }
  }
}
