/**
 Ranking labelled vertices: the labels left by Mapping turn the graph into a
 bijection from the keys onto 0..n-1.
 */
module HashRank {
  import opened HashGraph
  import opened HashMapping
  import opened Swar

  /** The number of labelled vertices before vertex `v`. */
  function Rank(labels: seq<nat>, v: nat): nat
    requires v <= |labels|
  {
    CountNot3(labels[..v])
  }

  lemma {:induction false} CountAppend(a: seq<nat>, b: seq<nat>)
    ensures CountNot3(a + b) == CountNot3(a) + CountNot3(b)
  {
    if a == [] {
      assert a + b == b;
    } else {
      CountAppend(a[1..], b);
      assert (a + b)[1..] == a[1..] + b;
    }
  }

  lemma RankStep(labels: seq<nat>, v: nat)
    requires v < |labels|
    ensures Rank(labels, v + 1) == Rank(labels, v) + if labels[v] != 3 then 1 else 0
  {
    assert labels[..v + 1] == labels[..v] + [labels[v]];
    CountAppend(labels[..v], [labels[v]]);
  }

  lemma {:induction false} RankMonotone(labels: seq<nat>, v: nat, w: nat)
    requires v <= w <= |labels|
    ensures Rank(labels, v) <= Rank(labels, w)
    decreases w - v
  {
    if v < w {
      RankStep(labels, w - 1);
      RankMonotone(labels, v, w - 1);
    }
  }

  /** Labelled vertices have pairwise different ranks, in order. */
  lemma RankStrict(labels: seq<nat>, v: nat, w: nat)
    requires v < w <= |labels| && labels[v] != 3
    ensures Rank(labels, v) < Rank(labels, w)
  {
    RankStep(labels, v);
    RankMonotone(labels, v + 1, w);
  }

  /** The rank of the end of a prefix is the size of its set of labelled vertices. */
  lemma {:induction false} RankIsSize(labels: seq<nat>, k: nat)
    requires k <= |labels|
    ensures Rank(labels, k) == |set v | 0 <= v < k && labels[v] != 3|
  {
    var here := set v | 0 <= v < k && labels[v] != 3;
    if k > 0 {
      RankIsSize(labels, k - 1);
      RankStep(labels, k - 1);
      var before := set v | 0 <= v < k - 1 && labels[v] != 3;
      assert here == if labels[k - 1] != 3 then before + {k - 1} else before;
    }
  }

  /** `picks` lists every labelled vertex exactly once. */
  ghost predicate Lists(labels: seq<nat>, picks: seq<nat>) {
    && Distinct(picks)
    && (forall e | 0 <= e < |picks| :: picks[e] < |labels| && labels[picks[e]] != 3)
    && (forall v | 0 <= v < |labels| && labels[v] != 3 :: v in picks)
  }

  /** As many vertices are labelled as are listed. */
  lemma LabelledCount(labels: seq<nat>, picks: seq<nat>)
    requires Lists(labels, picks)
    ensures CountNot3(labels) == Rank(labels, |labels|) == |picks|
  {
    var all := set v | 0 <= v < |labels| && labels[v] != 3;
    assert Elements(picks) == all;
    ElementsSize(picks);
    RankIsSize(labels, |labels|);
    assert labels[..|labels|] == labels;
  }

  /** The ranks of the listed vertices. */
  ghost function Ranks(labels: seq<nat>, picks: seq<nat>): (r: seq<nat>)
    requires forall e | 0 <= e < |picks| :: picks[e] <= |labels|
    ensures |r| == |picks| && forall e | 0 <= e < |r| :: r[e] == Rank(labels, picks[e])
  {
    seq(|picks|, e requires 0 <= e < |picks| => Rank(labels, picks[e]))
  }

  /** Ranking the listed vertices is a bijection onto 0..n-1. */
  lemma RanksArePermutation(labels: seq<nat>, picks: seq<nat>)
    requires Lists(labels, picks)
    ensures IsOrder(Ranks(labels, picks), |picks|)
  {
    hide Rank;
    LabelledCount(labels, picks);
    var ranks := Ranks(labels, picks);
    forall e | 0 <= e < |ranks| ensures ranks[e] < |picks| {
      RankStrict(labels, picks[e], |labels|);
    }
    forall i, k | 0 <= i < k < |ranks| ensures ranks[i] != ranks[k] {
      if picks[i] < picks[k] {
        RankStrict(labels, picks[i], picks[k]);
      } else {
        RankStrict(labels, picks[k], picks[i]);
      }
    }
  }

  ghost function Picks(slots: Slots, n: nat, m: nat, labels: seq<nat>): (r: seq<nat>)
    requires InSection(slots, n, m) && 3 * m <= |labels|
    ensures |r| == n && forall e | 0 <= e < n :: r[e] == Pick(slots, n, m, labels, e) < 3 * m
  {
    seq(n, e requires 0 <= e < n => Pick(slots, n, m, labels, e))
  }

  lemma PicksList(slots: Slots, n: nat, m: nat, labels: seq<nat>)
    requires InSection(slots, n, m) && 3 * m <= |labels| && Assigned(slots, n, m, labels, Range(n))
    ensures Lists(labels, Picks(slots, n, m, labels))
  {
    hide Pick, Assigned, InSection;
    var picks := Picks(slots, n, m, labels);
    forall e | 0 <= e < n ensures 0 <= picks[e] < |labels| && labels[picks[e]] != 3 {
      PickedLabel(slots, n, m, labels, e);
    }
    forall i, k | 0 <= i < k < n ensures picks[i] != picks[k] {
      PicksDiffer(slots, n, m, labels, i, k);
    }
    forall v | 0 <= v < |labels| && labels[v] != 3 ensures v in picks {
      var e := PickedBy(slots, n, m, labels, v);
      assert picks[e] == v;
    }
  }

  lemma PickedLabel(slots: Slots, n: nat, m: nat, labels: seq<nat>, e: nat)
    requires InSection(slots, n, m) && 3 * m <= |labels| && Assigned(slots, n, m, labels, Range(n)) && e < n
    ensures 0 <= Pick(slots, n, m, labels, e) < |labels| && labels[Pick(slots, n, m, labels, e)] != 3
  {
    assert e in Range(n);
  }

  lemma PicksDiffer(slots: Slots, n: nat, m: nat, labels: seq<nat>, i: nat, k: nat)
    requires InSection(slots, n, m) && 3 * m <= |labels| && Assigned(slots, n, m, labels, Range(n)) && i < k < n
    ensures Pick(slots, n, m, labels, i) != Pick(slots, n, m, labels, k)
  {
    hide Pick, InSection;
    assert i in Range(n) && k in Range(n);
  }

  lemma PickedBy(slots: Slots, n: nat, m: nat, labels: seq<nat>, v: nat) returns (e: nat)
    requires InSection(slots, n, m) && 3 * m <= |labels| && Assigned(slots, n, m, labels, Range(n))
    requires v < |labels| && labels[v] != 3
    ensures e < n && Pick(slots, n, m, labels, e) == v
  {
    hide Pick, InSection;
    assert Selected(slots, n, m, labels, Range(n), v);
    e :| e in Range(n) && e < n && Pick(slots, n, m, labels, e) == v;
  }

  /** The slot the index gives to every edge. */
  ghost function Positions(slots: Slots, n: nat, m: nat, labels: seq<nat>): seq<nat>
    requires InSection(slots, n, m) && 3 * m <= |labels|
  {
    Ranks(labels, Picks(slots, n, m, labels))
  }

  /** The index is a bijection from the edges onto 0..n-1, and exactly `n` vertices are labelled. */
  lemma MinimalPerfect(slots: Slots, n: nat, m: nat, labels: seq<nat>)
    requires InSection(slots, n, m) && 3 * m <= |labels| && Assigned(slots, n, m, labels, Range(n))
    ensures IsOrder(Positions(slots, n, m, labels), n)
    ensures forall r: nat | r < n :: r in Positions(slots, n, m, labels)
    ensures CountNot3(labels) == n
  {
    var positions := Positions(slots, n, m, labels);
    PicksList(slots, n, m, labels);
    LabelledCount(labels, Picks(slots, n, m, labels));
    RanksArePermutation(labels, Picks(slots, n, m, labels));
    forall r: nat | r < n ensures r in positions {
      OrderCovers(positions, n, r);
    }
  }
}
