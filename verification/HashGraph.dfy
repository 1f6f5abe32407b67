/**
 The 3-partite hypergraph of the perfect-hash builder (src/perfect_hash.cc).

 Every key is an edge with one vertex on each of three sides.  The edges that
 meet at a vertex are threaded on an intrusive doubly linked list, and the
 graph is torn down by repeatedly removing an edge that is alone at one of its
 vertices.
 */
module HashGraph {
  import opened Words
  import opened Reciprocal

  type Key = seq<byte>

  /** A 128-bit hash value as four words; the hash itself is a parameter of the model. */
  datatype Code = Code(w0: u32, w1: u32, w2: u32, w3: u32) {
    function Word(j: nat): u32
      requires j < 3
    {
      if j == 0 then w0 else if j == 1 then w1 else w2
    }
  }

  type Hash = (Key, u32) -> Code

  // ---------------------------------------------------------------------
  // One linked list
  // ---------------------------------------------------------------------

  /** The links of the `k`-th element point to its two neighbours. */
  ghost predicate LinkAt(list: seq<nat>, prev: seq<nat>, next: seq<nat>, nil: nat, k: nat) {
    && k < |list| && list[k] < |prev| == |next|
    && prev[list[k]] == (if k == 0 then nil else list[k - 1])
    && next[list[k]] == (if k + 1 == |list| then nil else list[k + 1])
  }

  ghost predicate Distinct(list: seq<nat>) {
    forall i, k | 0 <= i < k < |list| :: list[i] != list[k]
  }

  /** `list` is a well-formed doubly linked list under `prev` and `next`. */
  ghost predicate Chain(list: seq<nat>, prev: seq<nat>, next: seq<nat>, nil: nat) {
    && Distinct(list)
    && forall k | 0 <= k < |list| :: LinkAt(list, prev, next, nil, k)
  }

  function Without(list: seq<nat>, k: nat): (r: seq<nat>)
    requires k < |list|
    ensures |r| == |list| - 1
    ensures forall i | 0 <= i < |r| :: r[i] == if i < k then list[i] else list[i + 1]
  {
    list[..k] + list[k + 1..]
  }

  /** Splicing the `k`-th element out leaves a well-formed list of the others. */
  lemma SpliceOut(list: seq<nat>, k: nat, prev: seq<nat>, next: seq<nat>, nil: nat,
                  prev': seq<nat>, next': seq<nat>)
    requires |prev| <= nil && k < |list| && Chain(list, prev, next, nil) && LinkAt(list, prev, next, nil, k)
    requires var e := list[k];
             && (next[e] != nil ==> next[e] < |prev|)
             && (prev[e] != nil ==> prev[e] < |next|)
             && prev' == (if next[e] != nil then prev[next[e] := prev[e]] else prev)
             && next' == (if prev[e] != nil then next[prev[e] := next[e]] else next)
    ensures Chain(Without(list, k), prev', next', nil)
  {
    hide LinkAt;
    var short := Without(list, k);
    forall i | 0 <= i < |short| ensures LinkAt(short, prev', next', nil, i) {
      var h := if i < k then i else i + 1;
      assert LinkAt(list, prev, next, nil, h);
      RelinkAt(list, k, h, prev, next, nil, prev', next');
    }
  }

  /** The links of element `h` after the `k`-th has been spliced out. */
  lemma RelinkAt(list: seq<nat>, k: nat, h: nat, prev: seq<nat>, next: seq<nat>, nil: nat,
                 prev': seq<nat>, next': seq<nat>)
    requires |prev| <= nil && k < |list| && h < |list| && h != k && Distinct(list)
    requires LinkAt(list, prev, next, nil, k) && LinkAt(list, prev, next, nil, h)
    requires var e := list[k];
             && (next[e] != nil ==> next[e] < |prev|)
             && (prev[e] != nil ==> prev[e] < |next|)
             && prev' == (if next[e] != nil then prev[next[e] := prev[e]] else prev)
             && next' == (if prev[e] != nil then next[prev[e] := next[e]] else next)
    ensures LinkAt(Without(list, k), prev', next', nil, if h < k then h else h - 1)
  {
  }

  /** A list is unaffected by writes to cells of edges that are not on it. */
  lemma SpliceElsewhere(list: seq<nat>, prev: seq<nat>, next: seq<nat>, nil: nat,
                        prev': seq<nat>, next': seq<nat>, touched: set<nat>)
    requires Chain(list, prev, next, nil)
    requires |prev'| == |prev| && |next'| == |next|
    requires forall k | 0 <= k < |list| :: list[k] !in touched
    requires forall e | 0 <= e < |prev| && e < |next| && e !in touched :: prev'[e] == prev[e] && next'[e] == next[e]
    ensures Chain(list, prev', next', nil)
  {
    forall k | 0 <= k < |list| ensures LinkAt(list, prev', next', nil, k) {
      assert LinkAt(list, prev, next, nil, k);
    }
  }

  /** Pushing a new element in front. */
  lemma PushFront(list: seq<nat>, e: nat, prev: seq<nat>, next: seq<nat>, nil: nat,
                  prev': seq<nat>, next': seq<nat>)
    requires Chain(list, prev, next, nil) && |prev| == |next| && e < |prev| && e !in list
    requires next' == next[e := if list == [] then nil else list[0]]
    requires list != [] ==> LinkAt(list, prev, next, nil, 0)
    requires prev' == if list == [] then prev[e := nil] else prev[e := nil][list[0] := e]
    ensures Chain([e] + list, prev', next', nil)
  {
    var long := [e] + list;
    forall k | 0 <= k < |long| ensures LinkAt(long, prev', next', nil, k) {
      if k > 0 { assert LinkAt(list, prev, next, nil, k - 1); }
    }
  }

  // ---------------------------------------------------------------------
  // One side of the graph
  // ---------------------------------------------------------------------

  /** `e` is the only live edge at its vertex. */
  ghost predicate Lone(live: set<nat>, slot: seq<nat>, e: nat) {
    e in live && forall f | f in live && f < |slot| && e < |slot| && slot[f] == slot[e] :: f == e
  }

  /** The lists thread exactly the live edges, each on the list of its vertex. */
  ghost predicate Threaded(slot: seq<nat>, prev: seq<nat>, next: seq<nat>, nil: nat,
                           live: set<nat>, lists: seq<seq<nat>>) {
    && |slot| == |prev| == |next| <= nil
    && (forall e | e in live :: e < |slot| && slot[e] < |lists| && e in lists[slot[e]])
    && (forall s | 0 <= s < |lists| :: Chain(lists[s], prev, next, nil))
    && (forall s, k | 0 <= s < |lists| && 0 <= k < |lists[s]| ::
          lists[s][k] in live && lists[s][k] < |slot| && slot[lists[s][k]] == s)
  }

  /** The two link tests of the source say exactly that the edge is alone at its vertex. */
  lemma UnlinkedIsLone(slot: seq<nat>, prev: seq<nat>, next: seq<nat>, nil: nat,
                       live: set<nat>, lists: seq<seq<nat>>, e: nat)
    requires Threaded(slot, prev, next, nil, live, lists) && e in live
    ensures prev[e] == nil && next[e] == nil <==> Lone(live, slot, e)
  {
    var list := lists[slot[e]];
    var k :| 0 <= k < |list| && list[k] == e;
    assert Chain(list, prev, next, nil) && LinkAt(list, prev, next, nil, k);
    assert k > 0 ==> LinkAt(list, prev, next, nil, k - 1);
    assert k + 1 < |list| ==> LinkAt(list, prev, next, nil, k + 1);
    if prev[e] == nil && next[e] == nil {
      assert k == 0 && |list| == 1;
    } else {
      var h := if k == 0 then 1 else k - 1;
      assert list[h] in live && slot[list[h]] == slot[e] && list[h] != e;
    }
  }

  /** After unlinking `e`, only its list neighbour can have become alone. */
  lemma OnlyNeighbourBecomesLone(slot: seq<nat>, prev: seq<nat>, next: seq<nat>, nil: nat,
                                 live: set<nat>, lists: seq<seq<nat>>, e: nat)
    requires Threaded(slot, prev, next, nil, live, lists) && e in live
    ensures forall x | Lone(live - {e}, slot, x) ::
              Lone(live, slot, x) || x == (if next[e] != nil then next[e] else prev[e])
  {
    var list := lists[slot[e]];
    var k :| 0 <= k < |list| && list[k] == e;
    assert Chain(list, prev, next, nil) && LinkAt(list, prev, next, nil, k);
    forall x: nat | Lone(live - {e}, slot, x) && !Lone(live, slot, x)
      ensures x == (if next[e] != nil then next[e] else prev[e])
    {
      assert slot[x] == slot[e];
      var i :| 0 <= i < |list| && list[i] == x;
      assert forall h | 0 <= h < |list| :: list[h] == x || list[h] == e;
      ElementsSize(list);
      SubsetSize(Elements(list), {x, e});
    }
  }

  lemma NeighboursLive(slot: seq<nat>, prev: seq<nat>, next: seq<nat>, nil: nat,
                       live: set<nat>, lists: seq<seq<nat>>, e: nat)
    requires Threaded(slot, prev, next, nil, live, lists) && e in live
    ensures prev[e] != nil ==> prev[e] in live - {e} && prev[e] < |slot|
    ensures next[e] != nil ==> next[e] in live - {e} && next[e] < |slot|
  {
    var list := lists[slot[e]];
    var k :| 0 <= k < |list| && list[k] == e;
    assert Chain(list, prev, next, nil) && LinkAt(list, prev, next, nil, k);
    assert k > 0 ==> list[k - 1] in live;
    assert k + 1 < |list| ==> list[k + 1] in live;
  }

  lemma HeadInRange(slot: seq<nat>, prev: seq<nat>, next: seq<nat>, nil: nat,
                    live: set<nat>, lists: seq<seq<nat>>, s: nat)
    requires Threaded(slot, prev, next, nil, live, lists) && s < |lists|
    ensures lists[s] != [] ==> lists[s][0] < |slot| && lists[s][0] != nil
  {
    assert lists[s] != [] ==> lists[s][0] in live;
  }

  function After<T>(cells: seq<T>, at: nat, value: T, write: bool): (r: seq<T>)
    requires write ==> at < |cells|
    ensures |r| == |cells|
  {
    if write then cells[at := value] else cells
  }

  lemma ThreadInsert(slot: seq<nat>, prev: seq<nat>, next: seq<nat>, nil: nat,
                     live: set<nat>, lists: seq<seq<nat>>, i: nat, s: nat,
                     prev': seq<nat>, next': seq<nat>)
    requires Threaded(slot, prev, next, nil, live, lists)
    requires i < |slot| && s < |lists| && i !in live
    requires lists[s] != [] ==> lists[s][0] < |slot|
    requires next' == next[i := if lists[s] == [] then nil else lists[s][0]]
    requires prev' == if lists[s] == [] then prev[i := nil] else prev[i := nil][lists[s][0] := i]
    ensures Threaded(slot[i := s], prev', next', nil, live + {i}, lists[s := [i] + lists[s]])
  {
    var slot', live', lists' := slot[i := s], live + {i}, lists[s := [i] + lists[s]];
    assert Chain(lists[s], prev, next, nil);
    assert lists[s] != [] ==> LinkAt(lists[s], prev, next, nil, 0);
    PushFront(lists[s], i, prev, next, nil, prev', next');
    forall t | 0 <= t < |lists'| && t != s ensures Chain(lists'[t], prev', next', nil) {
      SpliceElsewhere(lists[t], prev, next, nil, prev', next', {i} + if lists[s] == [] then {} else {lists[s][0]});
    }
    forall e | e in live' ensures e < |slot'| && slot'[e] < |lists'| && e in lists'[slot'[e]] {
      if e == i { assert lists'[s][0] == i; }
    }
  }

  lemma ThreadRemove(slot: seq<nat>, prev: seq<nat>, next: seq<nat>, nil: nat,
                     live: set<nat>, lists: seq<seq<nat>>, e: nat, k: nat,
                     prev': seq<nat>, next': seq<nat>)
    requires Threaded(slot, prev, next, nil, live, lists) && e in live
    requires k < |lists[slot[e]]| && lists[slot[e]][k] == e
    requires (next[e] != nil ==> next[e] < |prev|) && (prev[e] != nil ==> prev[e] < |next|)
    requires prev' == After(prev, next[e], prev[e], next[e] != nil)
    requires next' == After(next, prev[e], next[e], prev[e] != nil)
    ensures Threaded(slot, prev', next', nil, live - {e},
                     lists[slot[e] := Without(lists[slot[e]], k)])
  {
    var s := slot[e];
    var list := lists[s];
    var lists' := lists[s := Without(list, k)];
    assert Chain(list, prev, next, nil) && LinkAt(list, prev, next, nil, k);
    SpliceOut(list, k, prev, next, nil, prev', next');
    SpliceOutMembers(list, k);
    var touched := (if prev[e] == nil then {} else {prev[e]}) + (if next[e] == nil then {} else {next[e]});
    forall x | x in touched ensures x < |slot| && slot[x] == s {
      assert (k > 0 && x == list[k - 1]) || (k + 1 < |list| && x == list[k + 1]);
    }
    forall t | 0 <= t < |lists'| && t != s ensures Chain(lists'[t], prev', next', nil) {
      SpliceElsewhere(lists[t], prev, next, nil, prev', next', touched);
    }
    forall t, h | 0 <= t < |lists'| && 0 <= h < |lists'[t]|
      ensures lists'[t][h] in live - {e} && slot[lists'[t][h]] == t
    {
      if t == s { assert lists'[t][h] in Without(list, k); }
    }
  }

  lemma SpliceOutMembers(list: seq<nat>, k: nat)
    requires k < |list| && Distinct(list)
    ensures forall x :: x in Without(list, k) <==> x in list && x != list[k]
  {
    forall x | x in list && x != list[k] ensures x in Without(list, k) {
      var h :| 0 <= h < |list| && list[h] == x;
      assert Without(list, k)[if h < k then h else h - 1] == x;
    }
  }

  // ---------------------------------------------------------------------
  // Peeling orders
  // ---------------------------------------------------------------------

  type Slots = seq<seq<nat>>   // three sides, each giving the vertex of every edge

  ghost predicate IsSlots(slots: Slots, n: nat) {
    |slots| == 3 && forall j | 0 <= j < 3 :: |slots[j]| == n
  }

  ghost predicate IsOrder(order: seq<nat>, n: nat) {
    |order| == n && Distinct(order) && forall p | 0 <= p < n :: order[p] < n
  }

  /** On side `j`, the `p`-th edge meets none of the edges outside `order[..p + 1]`. */
  ghost predicate OwnsOn(slots: Slots, n: nat, order: seq<nat>, p: nat, j: nat)
    requires IsSlots(slots, n)
  {
    p < |order| && order[p] < n && j < 3 &&
    forall f | 0 <= f < n && f !in order[..p + 1] :: slots[j][f] != slots[j][order[p]]
  }

  ghost predicate Owns(slots: Slots, n: nat, order: seq<nat>, p: nat)
    requires IsSlots(slots, n)
  {
    exists j: nat :: OwnsOn(slots, n, order, p, j)
  }

  /** Every edge owns a vertex that no later edge of the order uses. */
  ghost predicate PeelOrder(slots: Slots, n: nat, order: seq<nat>)
    requires IsSlots(slots, n)
  {
    IsOrder(order, n) && forall p: nat | p < n :: Owns(slots, n, order, p)
  }

  ghost predicate Peelable(slots: Slots, n: nat)
    requires IsSlots(slots, n)
  {
    exists order :: PeelOrder(slots, n, order)
  }

  /** A non-empty set of edges in which every touched vertex has at least two of them. */
  ghost predicate IsCore(slots: Slots, n: nat, core: set<nat>)
    requires IsSlots(slots, n)
  {
    && core != {}
    && (forall e | e in core :: e < n)
    && (forall e, j | e in core && 0 <= j < 3 ::
          Shared(slots[j], core, e))
  }

  ghost predicate Shared(slot: seq<nat>, core: set<nat>, e: nat) {
    exists f | f in core && f != e && f < |slot| && e < |slot| :: slot[f] == slot[e]
  }

  function Range(n: nat): (r: set<nat>)
    ensures |r| == n && forall x: nat :: x in r <==> x < n
  {
    if n == 0 then {} else Range(n - 1) + {n - 1}
  }

  function Elements(list: seq<nat>): set<nat> {
    set x | x in list
  }

  lemma {:induction false} ElementsSize(list: seq<nat>)
    requires Distinct(list)
    ensures |Elements(list)| == |list|
  {
    if list != [] {
      var front, last := list[..|list| - 1], list[|list| - 1];
      ElementsSize(front);
      assert list == front + [last];
      assert Elements(list) == Elements(front) + {last};
    }
  }

  lemma {:induction false} SubsetSize<T>(a: set<T>, b: set<T>)
    requires a <= b
    ensures |a| <= |b|
  {
    if a != {} {
      var x :| x in a;
      SubsetSize(a - {x}, b - {x});
    }
  }

  /** An order of all `n` edges mentions every edge. */
  lemma OrderCovers(order: seq<nat>, n: nat, e: nat)
    requires IsOrder(order, n) && e < n
    ensures e in order
  {
    assert Elements(order) <= Range(n);
    if e !in order {
      ElementsSize(order);
      SubsetSize(Elements(order), Range(n) - {e});
    }
  }

  lemma {:induction false} FirstIn(order: seq<nat>, core: set<nat>, e: nat) returns (p: nat)
    requires e in order && e in core
    ensures p < |order| && order[p] in core && forall q | 0 <= q < p :: order[q] !in core
  {
    p := 0;
    while order[p] !in core
      invariant p < |order| && forall q | 0 <= q < p :: order[q] !in core
      decreases |order| - p
    {
      assert exists i :: p < i < |order| && order[i] == e;
      p := p + 1;
    }
  }

  /** Whichever core edge comes first in an order, another core edge still shares its vertices. */
  lemma CoreEdgeOwnsNothing(slots: Slots, n: nat, core: set<nat>, order: seq<nat>, p: nat, j: nat)
    requires IsSlots(slots, n) && IsCore(slots, n, core)
    requires p < |order| && order[p] in core && j < 3 && forall q | 0 <= q < p :: order[q] !in core
    ensures !OwnsOn(slots, n, order, p, j)
  {
    assert Shared(slots[j], core, order[p]);
    var f :| f in core && f != order[p] && slots[j][f] == slots[j][order[p]];
    assert f !in order[..p + 1];
  }

  /** A graph with a core has no peeling order at all. */
  lemma CoreBlocksPeeling(slots: Slots, n: nat, core: set<nat>)
    requires IsSlots(slots, n) && IsCore(slots, n, core)
    ensures !Peelable(slots, n)
  {
    forall order | PeelOrder(slots, n, order) ensures false {
      var e :| e in core;
      OrderCovers(order, n, e);
      var p := FirstIn(order, core, e);
      assert Owns(slots, n, order, p);
      var j: nat :| OwnsOn(slots, n, order, p, j);
      CoreEdgeOwnsNothing(slots, n, core, order, p, j);
    }
  }

  /** Two edges with the same three vertices can never be peeled. */
  lemma TwinsBlockPeeling(slots: Slots, n: nat, e: nat, f: nat)
    requires IsSlots(slots, n) && e < n && f < n && e != f
    requires forall j | 0 <= j < 3 :: slots[j][e] == slots[j][f]
    ensures !Peelable(slots, n)
  {
    CoreBlocksPeeling(slots, n, {e, f});
  }

  // ---------------------------------------------------------------------
  // Progress of the teardown
  // ---------------------------------------------------------------------

  type Lives = seq<set<nat>>   // edges still threaded on each side

  ghost predicate LoneOn(slots: Slots, lives: Lives, e: nat, j: nat) {
    j < 3 && j < |slots| && j < |lives| && Lone(lives[j], slots[j], e)
  }

  /** Every queued edge from position `from` on is alone at one of its vertices. */
  ghost predicate Pending(slots: Slots, lives: Lives, queue: seq<nat>, from: nat) {
    forall p | from <= p < |queue| :: LoneSomewhere(slots, lives, queue[p])
  }

  ghost predicate LoneSomewhere(slots: Slots, lives: Lives, e: nat) {
    exists j: nat :: LoneOn(slots, lives, e, j)
  }

  /** No edge outside the queue is alone on the first `sides` sides. */
  ghost predicate Settled(slots: Slots, lives: Lives, queue: seq<nat>, e: nat, sides: nat) {
    e !in queue ==> forall j: nat | j < sides :: !LoneOn(slots, lives, e, j)
  }

  ghost predicate AllSettled(slots: Slots, lives: Lives, queue: seq<nat>, n: nat) {
    forall e: nat | e < n :: Settled(slots, lives, queue, e, 3)
  }

  /** `queue` lists edges without repetition and `book` marks exactly those. */
  ghost predicate Booked(queue: seq<nat>, book: seq<bool>, n: nat) {
    && Distinct(queue)
    && n <= |book|
    && (forall p | 0 <= p < |queue| :: queue[p] < n)
    && (forall e | 0 <= e < n :: book[e] <==> e in queue)
  }

  lemma RoomInQueue(queue: seq<nat>, n: nat, e: nat)
    requires Distinct(queue) && e < n && e !in queue
    requires forall p | 0 <= p < |queue| :: queue[p] < n
    ensures |queue| < n
  {
    assert Elements(queue) <= Range(n) - {e};
    ElementsSize(queue);
    SubsetSize(Elements(queue), Range(n) - {e});
  }

  /** Unlinking one edge on one side, then queueing the neighbour it left alone. */
  lemma UnlinkStep(slots: Slots, lives: Lives, queue: seq<nat>, from: nat, n: nat,
                   curr: nat, j: nat, lives': Lives, queue': seq<nat>, i: nat, nil: nat)
    requires |slots| == |lives| == 3 && j < 3 && n <= nil
    requires Pending(slots, lives, queue, from) && AllSettled(slots, lives, queue, n)
    requires from <= |queue| && curr !in queue[from..]
    requires lives' == lives[j := lives[j] - {curr}]
    requires forall x | Lone(lives'[j], slots[j], x) :: Lone(lives[j], slots[j], x) || x == i
    requires || (queue' == queue && (i == nil || i in queue || !Lone(lives'[j], slots[j], i)))
             || (queue' == queue + [i] && Lone(lives'[j], slots[j], i))
    ensures Pending(slots, lives', queue', from) && AllSettled(slots, lives', queue', n)
  {
    forall p | from <= p < |queue'| ensures LoneSomewhere(slots, lives', queue'[p]) {
      if p < |queue| {
        assert LoneSomewhere(slots, lives, queue[p]);
        var h: nat :| LoneOn(slots, lives, queue[p], h);
        assert queue[p] == queue[from..][p - from];
        assert LoneOn(slots, lives', queue'[p], h);
      } else {
        assert LoneOn(slots, lives', queue'[p], j);
      }
    }
    forall e: nat | e < n ensures Settled(slots, lives', queue', e, 3) {
      assert Settled(slots, lives, queue, e, 3);
      if e !in queue' {
        forall h: nat | h < 3 ensures !LoneOn(slots, lives', e, h) {
          assert !LoneOn(slots, lives, e, h);
          assert h == j && Lone(lives'[j], slots[j], e) ==> e == i;
        }
      }
    }
  }

  lemma SeedNone(slots: Slots, lives: Lives, queue: seq<nat>, book: seq<bool>, n: nat)
    requires queue == [] && n <= |book| && forall e | 0 <= e < |book| :: !book[e]
    ensures Pending(slots, lives, queue, 0) && Booked(queue, book, n)
  {
  }

  /** Queueing an edge that is alone on side `j` during the initial scan. */
  lemma SeedStep(slots: Slots, lives: Lives, queue: seq<nat>, queue': seq<nat>, i: nat, j: nat)
    requires Pending(slots, lives, queue, 0) && LoneOn(slots, lives, i, j)
    requires queue' == if i in queue then queue else queue + [i]
    ensures Pending(slots, lives, queue', 0)
    ensures forall e: nat, sides: nat | Settled(slots, lives, queue, e, sides) ::
              Settled(slots, lives, queue', e, sides)
    ensures forall sides: nat :: Settled(slots, lives, queue', i, sides)
  {
    assert i in queue';
    forall p | 0 <= p < |queue'| ensures LoneSomewhere(slots, lives, queue'[p]) {
      if p == |queue| {
        assert LoneOn(slots, lives, queue'[p], j);
      } else {
        assert queue'[p] == queue[p];
      }
    }
  }

  ghost function AllLive(n: nat): (r: Lives)
    ensures |r| == 3
  {
    [Range(n), Range(n), Range(n)]
  }

  lemma InAllLive(i: nat, n: nat)
    requires i < n
    ensures |AllLive(n)| == 3 && forall j | 0 <= j < 3 :: i in AllLive(n)[j]
  {
  }

  ghost function Remaining(n: nat, gone: seq<nat>): Lives {
    [Range(n) - Elements(gone), Range(n) - Elements(gone), Range(n) - Elements(gone)]
  }

  /** The edge at the head of the queue owns a vertex once everything before it is gone. */
  lemma HeadOwns(slots: Slots, lives: Lives, queue: seq<nat>, head: nat, n: nat)
    requires IsSlots(slots, n) && |lives| == 3 && head < |queue| && queue[head] < n
    requires lives == Remaining(n, queue[..head])
    requires Pending(slots, lives, queue, head)
    ensures Owns(slots, n, queue, head)
  {
    assert LoneSomewhere(slots, lives, queue[head]);
    var j: nat :| LoneOn(slots, lives, queue[head], j);
    forall f | 0 <= f < n && f !in queue[..head + 1] ensures slots[j][f] != slots[j][queue[head]] {
      assert queue[..head + 1] == queue[..head] + [queue[head]];
      assert f in lives[j];
    }
    assert OwnsOn(slots, n, queue, head, j);
  }

  /** The lives after `curr` has been dropped from the first `sides` sides. */
  ghost function Drop(lives: Lives, curr: nat, sides: nat): Lives {
    seq(|lives|, j requires 0 <= j < |lives| => if j < sides then lives[j] - {curr} else lives[j])
  }

  /** Extending the queue and moving its head past one edge. */
  lemma AdvanceHead(slots: Slots, queue: seq<nat>, queue': seq<nat>, head: nat, n: nat)
    requires IsSlots(slots, n) && head < |queue| <= |queue'| && queue'[..|queue|] == queue
    requires forall p: nat | p <= head :: Owns(slots, n, queue, p)
    ensures forall p: nat | p <= head :: Owns(slots, n, queue', p)
    ensures Drop(Remaining(n, queue[..head]), queue[head], 3) == Remaining(n, queue'[..head + 1])
  {
    forall p: nat | p <= head ensures Owns(slots, n, queue', p) {
      assert Owns(slots, n, queue, p);
      var j: nat :| OwnsOn(slots, n, queue, p, j);
      assert queue'[..p + 1] == queue[..p + 1];
      assert OwnsOn(slots, n, queue', p, j);
    }
    assert queue'[..head + 1] == queue[..head] + [queue[head]];
    var gone, gone' := Elements(queue[..head]), Elements(queue'[..head + 1]);
    assert gone' == gone + {queue[head]};
    assert Range(n) - gone - {queue[head]} == Range(n) - gone';
    assert Drop(Remaining(n, queue[..head]), queue[head], 3) == Remaining(n, queue'[..head + 1]);
  }

  /** The loop invariant of the teardown. */
  ghost predicate Teardown(slots: Slots, lives: Lives, queue: seq<nat>, head: nat, n: nat) {
    && IsSlots(slots, n) && head <= |queue|
    && lives == Remaining(n, queue[..head])
    && Pending(slots, lives, queue, head)
    && AllSettled(slots, lives, queue, n)
    && forall p: nat | p < head :: Owns(slots, n, queue, p)
  }

  lemma StartTeardown(slots: Slots, lives: Lives, queue: seq<nat>, n: nat)
    requires IsSlots(slots, n) && lives == AllLive(n)
    requires Pending(slots, lives, queue, 0) && AllSettled(slots, lives, queue, n)
    ensures Teardown(slots, lives, queue, 0, n)
  {
    assert queue[..0] == [];
    assert Range(n) - Elements([]) == Range(n);
  }

  /** The edge at the head is still threaded everywhere and is not queued again. */
  lemma HeadAttached(slots: Slots, lives: Lives, queue: seq<nat>, book: seq<bool>, head: nat, n: nat)
    requires Teardown(slots, lives, queue, head, n) && head < |queue| && Booked(queue, book, n)
    ensures queue[head] < n
    ensures |lives| == 3 && queue[head] !in queue[head + 1..] && Pending(slots, lives, queue, head + 1)
    ensures AllSettled(slots, lives, queue, n)
    ensures forall j | 0 <= j < 3 :: queue[head] in lives[j]
  {
    var e := queue[head];
    assert e !in queue[..head];
    var left := Range(n) - Elements(queue[..head]);
    assert e in left && lives == [left, left, left];
  }

  /** Once the head has been detached, the invariant holds for the next head. */
  lemma HeadPeeled(slots: Slots, lives: Lives, queue: seq<nat>, head: nat, n: nat,
                   lives': Lives, queue': seq<nat>)
    requires Teardown(slots, lives, queue, head, n) && head < |queue| && queue[head] < n
    requires lives' == Drop(lives, queue[head], 3)
    requires |queue| <= |queue'| && queue'[..|queue|] == queue
    requires Pending(slots, lives', queue', head + 1) && AllSettled(slots, lives', queue', n)
    ensures Teardown(slots, lives', queue', head + 1, n)
  {
    HeadOwns(slots, lives, queue, head, n);
    AdvanceHead(slots, queue, queue', head, n);
  }

  lemma FinishTeardown(slots: Slots, lives: Lives, queue: seq<nat>, book: seq<bool>, n: nat)
    requires Teardown(slots, lives, queue, |queue|, n) && Booked(queue, book, n) && |queue| <= n
    ensures |queue| == n <==> Peelable(slots, n)
    ensures |queue| == n ==> PeelOrder(slots, n, queue)
    ensures |queue| < n ==> LargestCore(slots, n, Range(n) - Elements(queue))
  {
    assert queue[..|queue|] == queue;
    if |queue| < n {
      StuckIsCore(slots, lives, queue, n);
      CoreBlocksPeeling(slots, n, Range(n) - Elements(queue));
      forall other | IsCore(slots, n, other) ensures other <= Range(n) - Elements(queue) {
        CoreNeverQueued(slots, n, queue, other);
      }
    } else {
      assert PeelOrder(slots, n, queue);
    }
  }

  /** A core that contains all others. */
  ghost predicate LargestCore(slots: Slots, n: nat, core: set<nat>)
    requires IsSlots(slots, n)
  {
    IsCore(slots, n, core) && forall other | IsCore(slots, n, other) :: other <= core
  }

  /** No edge of a core is ever queued. */
  lemma CoreNeverQueued(slots: Slots, n: nat, queue: seq<nat>, core: set<nat>)
    requires IsSlots(slots, n) && IsCore(slots, n, core) && forall p: nat | p < |queue| :: Owns(slots, n, queue, p)
    ensures core <= Range(n) - Elements(queue)
  {
    forall e | e in core ensures e !in queue {
      if e in queue {
        var p := FirstIn(queue, core, e);
        assert Owns(slots, n, queue, p);
        var j: nat :| OwnsOn(slots, n, queue, p, j);
        CoreEdgeOwnsNothing(slots, n, core, queue, p, j);
      }
    }
  }

  /** When the queue runs dry early, the edges never queued form a core. */
  lemma StuckIsCore(slots: Slots, lives: Lives, queue: seq<nat>, n: nat)
    requires IsSlots(slots, n) && |lives| == 3 && |queue| < n && Distinct(queue)
    requires forall p | 0 <= p < |queue| :: queue[p] < n
    requires lives == Remaining(n, queue)
    requires AllSettled(slots, lives, queue, n)
    ensures IsCore(slots, n, Range(n) - Elements(queue))
  {
    var core := Range(n) - Elements(queue);
    if core == {} {
      ElementsSize(queue);
      SubsetSize(Range(n), Elements(queue));
    }
    forall e, j | e in core && 0 <= j < 3 ensures Shared(slots[j], core, e) {
      assert Settled(slots, lives, queue, e, 3);
      assert !LoneOn(slots, lives, e, j);
      var f :| f in lives[j] && slots[j][f] == slots[j][e] && f != e;
    }
  }

  ghost predicate AllRead(keys: seq<Option<Key>>) {
    forall i | 0 <= i < |keys| :: keys[i].Some?
  }

  /** The vertices the hash assigns to every key. */
  ghost function KeySlots(keys: seq<Option<Key>>, hash: Hash, seed: u32, m: nat): (r: Slots)
    requires m > 0 && AllRead(keys)
    ensures IsSlots(r, |keys|)
  {
    seq(3, j requires 0 <= j < 3 =>
      seq(|keys|, i requires 0 <= i < |keys| => hash(keys[i].value, seed).Word(j) % m))
  }

  /** The first `i` keys have been read and their vertices recorded. */
  ghost predicate Hashed(slots: Slots, keys: seq<Option<Key>>, hash: Hash, seed: u32, m: nat, i: nat) {
    && m > 0 && IsSlots(slots, |keys|) && i <= |keys| && AllRead(keys[..i])
    && forall j: nat, k: nat | j < 3 && k < i && keys[k].Some? :: slots[j][k] == hash(keys[k].value, seed).Word(j) % m
  }

  lemma HashedNone(slots: Slots, keys: seq<Option<Key>>, hash: Hash, seed: u32, m: nat)
    requires m > 0 && IsSlots(slots, |keys|)
    ensures Hashed(slots, keys, hash, seed, m, 0)
  {
  }

  lemma HashedStep(slots: Slots, slots': Slots, keys: seq<Option<Key>>, hash: Hash, seed: u32, m: nat, i: nat)
    requires Hashed(slots, keys, hash, seed, m, i) && i < |keys| && keys[i].Some? && IsSlots(slots', |keys|)
    requires forall j: nat | j < 3 :: slots'[j] == slots[j][i := hash(keys[i].value, seed).Word(j) % m]
    ensures Hashed(slots', keys, hash, seed, m, i + 1)
  {
    assert keys[..i + 1] == keys[..i] + [keys[i]];
  }

  lemma HashedAll(slots: Slots, keys: seq<Option<Key>>, hash: Hash, seed: u32, m: nat)
    requires Hashed(slots, keys, hash, seed, m, |keys|)
    ensures AllRead(keys) && slots == KeySlots(keys, hash, seed, m)
  {
    assert keys[..|keys|] == keys;
    var expected := KeySlots(keys, hash, seed, m);
    forall j: nat | j < 3 ensures slots[j] == expected[j] {
    }
  }

  // ---------------------------------------------------------------------
  // Building and tearing the graph
  // ---------------------------------------------------------------------

  ghost predicate OneThreaded(slot: seq<seq<nat>>, prev: seq<seq<nat>>, next: seq<seq<nat>>, nil: nat,
                              lives: Lives, lists: seq<seq<seq<nat>>>, j: nat) {
    && j < |slot| && j < |prev| && j < |next| && j < |lives| && j < |lists|
    && Threaded(slot[j], prev[j], next[j], nil, lives[j], lists[j])
  }

  ghost predicate AllThreaded(slot: seq<seq<nat>>, prev: seq<seq<nat>>, next: seq<seq<nat>>, nil: nat,
                              lives: Lives, lists: seq<seq<seq<nat>>>) {
    forall j: nat | j < 3 :: OneThreaded(slot, prev, next, nil, lives, lists, j)
  }

  /** A change confined to one side leaves the other two threaded. */
  lemma OtherSides(slot: seq<seq<nat>>, prev: seq<seq<nat>>, next: seq<seq<nat>>, nil: nat,
                   lives: Lives, lists: seq<seq<seq<nat>>>, j: nat,
                   slot': seq<seq<nat>>, prev': seq<seq<nat>>, next': seq<seq<nat>>,
                   lives': Lives, lists': seq<seq<seq<nat>>>)
    requires AllThreaded(slot, prev, next, nil, lives, lists) && j < 3
    requires OneThreaded(slot', prev', next', nil, lives', lists', j)
    requires |slot'| == |prev'| == |next'| == |lives'| == |lists'| == |slot| == |prev| == |next| == |lives|
             == |lists| == 3
    requires forall k: nat | k < 3 && k != j ::
               && slot'[k] == slot[k] && prev'[k] == prev[k] && next'[k] == next[k]
               && lives'[k] == lives[k] && lists'[k] == lists[k]
    ensures AllThreaded(slot', prev', next', nil, lives', lists')
  {
    forall k: nat | k < 3 ensures OneThreaded(slot', prev', next', nil, lives', lists', k) {
      assert OneThreaded(slot, prev, next, nil, lives, lists, k);
    }
  }

  lemma EmptySides(slot: seq<seq<nat>>, prev: seq<seq<nat>>, next: seq<seq<nat>>, nil: nat,
                   lives: Lives, lists: seq<seq<seq<nat>>>)
    requires |slot| == |prev| == |next| == |lives| == |lists| == 3
    requires forall j | 0 <= j < 3 :: |slot[j]| == |prev[j]| == |next[j]| <= nil && lives[j] == {}
    requires forall j, s | 0 <= j < 3 && 0 <= s < |lists[j]| :: lists[j][s] == []
    ensures AllThreaded(slot, prev, next, nil, lives, lists)
  {
  }

  ghost function PrevAfter(prev: seq<seq<nat>>, j: nat, i: nat, head: nat, nil: nat): seq<seq<nat>>
    requires j < |prev| && i < |prev[j]| && (head != nil ==> head < |prev[j]|)
  {
    var p := Put(prev, j, i, nil);
    if head != nil then Put(p, j, head, i) else p
  }

  lemma InsertSides(slot: seq<seq<nat>>, prev: seq<seq<nat>>, next: seq<seq<nat>>, nil: nat,
                    lives: Lives, lists: seq<seq<seq<nat>>>, i: nat, j: nat, s: nat)
    requires |slot| == |prev| == |next| == |lives| == |lists| == 3 && j < 3
    requires AllThreaded(slot, prev, next, nil, lives, lists)
    requires i < |slot[j]| == |prev[j]| == |next[j]| && s < |lists[j]| && i !in lives[j]
    ensures var list := lists[j][s];
            var head := if list == [] then nil else list[0];
            && (head != nil ==> head < |prev[j]|)
            && AllThreaded(Put(slot, j, i, s), PrevAfter(prev, j, i, head, nil), Put(next, j, i, head), nil,
                           lives[j := lives[j] + {i}], lists[j := lists[j][s := [i] + list]])
  {
    assert OneThreaded(slot, prev, next, nil, lives, lists, j);
    HeadInRange(slot[j], prev[j], next[j], nil, lives[j], lists[j], s);
    var list := lists[j][s];
    var head := if list == [] then nil else list[0];
    var prev', next' := PrevAfter(prev, j, i, head, nil), Put(next, j, i, head);
    ThreadInsert(slot[j], prev[j], next[j], nil, lives[j], lists[j], i, s, prev'[j], next'[j]);
    OtherSides(slot, prev, next, nil, lives, lists, j, Put(slot, j, i, s), prev', next',
               lives[j := lives[j] + {i}], lists[j := lists[j][s := [i] + list]]);
  }

  /** The tables after edge `e` has been spliced out on side `j`. */
  ghost function Spliced(links: seq<seq<nat>>, j: nat, at: nat, value: nat, nil: nat): seq<seq<nat>>
    requires j < |links| && (at != nil ==> at < |links[j]|)
  {
    if at != nil then Put(links, j, at, value) else links
  }

  lemma UnlinkSides(slot: seq<seq<nat>>, prev: seq<seq<nat>>, next: seq<seq<nat>>, nil: nat,
                    lives: Lives, lists: seq<seq<seq<nat>>>, e: nat, j: nat) returns (lists': seq<seq<seq<nat>>>)
    requires |slot| == |prev| == |next| == |lives| == |lists| == 3 && j < 3
    requires AllThreaded(slot, prev, next, nil, lives, lists) && e in lives[j]
    ensures |lists'| == 3 && forall k | 0 <= k < 3 :: |lists'[k]| == |lists[k]|
    ensures e < |slot[j]| == |prev[j]| == |next[j]|
    ensures var p, q := prev[j][e], next[j][e];
            && (p != nil ==> p < |next[j]| && p in lives[j] - {e})
            && (q != nil ==> q < |prev[j]| && q in lives[j] - {e})
            && AllThreaded(slot, Spliced(prev, j, q, p, nil), Spliced(next, j, p, q, nil), nil,
                           lives[j := lives[j] - {e}], lists')
            && forall x | Lone(lives[j] - {e}, slot[j], x) ::
                 Lone(lives[j], slot[j], x) || x == (if q != nil then q else p)
  {
    assert OneThreaded(slot, prev, next, nil, lives, lists, j);
    NeighboursLive(slot[j], prev[j], next[j], nil, lives[j], lists[j], e);
    var s := slot[j][e];
    var k :| 0 <= k < |lists[j][s]| && lists[j][s][k] == e;
    var p, q := prev[j][e], next[j][e];
    var prev', next' := Spliced(prev, j, q, p, nil), Spliced(next, j, p, q, nil);
    ThreadRemove(slot[j], prev[j], next[j], nil, lives[j], lists[j], e, k, prev'[j], next'[j]);
    OnlyNeighbourBecomesLone(slot[j], prev[j], next[j], nil, lives[j], lists[j], e);
    lists' := lists[j := lists[j][s := Without(lists[j][s], k)]];
    OtherSides(slot, prev, next, nil, lives, lists, j, slot, prev', next', lives[j := lives[j] - {e}], lists');
  }

  /** TestAndSetBit on `book` followed by `free[tail++] = e`. */
  method Enqueue(free: array<nat>, book: array<bool>, tail: nat, e: nat, ghost n: nat) returns (t: nat)
    requires tail <= free.Length == n && Booked(free[..tail], book[..], n) && e < n
    modifies free, book
    ensures t <= n && Booked(free[..t], book[..], n)
    ensures free[..t] == if e in old(free[..tail]) then old(free[..tail]) else old(free[..tail]) + [e]
  {
    t := tail;
    if !book[e] {
      ghost var queue := free[..tail];
      RoomInQueue(queue, n, e);
      book[e] := true;
      free[tail] := e;
      t := tail + 1;
      assert free[..t] == queue + [e];
    }
  }

  /** Column `j` of a table of vertices: one side of every edge. */
  ghost function Column(a: array2<nat>, j: nat): (r: seq<nat>)
    requires j < a.Length1
    reads a
    ensures |r| == a.Length0 && forall e | 0 <= e < |r| :: r[e] == a[e, j]
  {
    seq(a.Length0, e requires 0 <= e < a.Length0 reads a => a[e, j])
  }

  ghost function Columns(a: array2<nat>): (r: seq<seq<nat>>)
    requires a.Length1 == 3
    reads a
    ensures |r| == 3 && forall j | 0 <= j < 3 :: r[j] == Column(a, j)
  {
    [Column(a, 0), Column(a, 1), Column(a, 2)]
  }

  ghost function SetAt(s: seq<nat>, i: nat, v: nat): (r: seq<nat>)
    requires i < |s|
  {
    s[i := v]
  }

  /** The table with one entry of column `j` replaced. */
  ghost function Put(t: seq<seq<nat>>, j: nat, e: nat, v: nat): (r: seq<seq<nat>>)
    requires j < |t| && e < |t[j]|
  {
    t[j := SetAt(t[j], e, v)]
  }

  /** One store into an edge record, seen as an update of one column. */
  method Store(a: array2<nat>, e: nat, j: nat, v: nat)
    requires a.Length1 == 3 && j < 3 && e < a.Length0
    modifies a
    ensures Columns(a) == Put(old(Columns(a)), j, e, v)
  {
    ghost var after := Put(Columns(a), j, e, v);
    a[e, j] := v;
    forall k | 0 <= k < 3 ensures Columns(a)[k] == after[k] {
      assert Column(a, k) == after[k];
    }
  }

  class Graph {
    const nil: nat                       // kEnd, the all-ones value of the word type
    const slot: array2<nat>              // vertex of edge `e` on side `j`
    const prev: array2<nat>
    const next: array2<nat>
    const nodes: array2<nat>             // first edge on the list of each vertex, per side
    ghost var lives: Lives               // edges currently threaded, per side
    ghost var lists: seq<seq<seq<nat>>>  // the lists, per side and vertex

    ghost predicate Shape()
      reads this
    {
      && slot.Length0 == prev.Length0 == next.Length0 <= nil
      && slot.Length1 == prev.Length1 == next.Length1 == nodes.Length0 == |lives| == |lists| == 3
      && slot != prev && slot != next && prev != next
      && nodes != slot && nodes != prev && nodes != next
      && (forall j | 0 <= j < 3 :: |lists[j]| == nodes.Length1)
    }

    ghost predicate Valid()
      reads this, slot, prev, next
    {
      Shape() && AllThreaded(Columns(slot), Columns(prev), Columns(next), nil, lives, lists)
    }

    /** `nodes` holds the list heads; only graph creation maintains this. */
    ghost predicate Headed()
      requires Shape()
      reads this, nodes
    {
      forall j, s | 0 <= j < 3 && 0 <= s < nodes.Length1 ::
        nodes[j, s] == if lists[j][s] == [] then nil else lists[j][s][0]
    }

    ghost function Slots(): (r: Slots)
      requires slot.Length1 == 3
      reads slot
      ensures IsSlots(r, slot.Length0)
    {
      Columns(slot)
    }

    constructor (n: nat, m: nat, end: nat)
      requires n <= end
      ensures Valid() && nil == end && slot.Length0 == n && nodes.Length1 == m
      ensures fresh(slot) && fresh(prev) && fresh(next) && fresh(nodes)
    {
      nil := end;
      slot := new nat[n, 3];
      prev := new nat[n, 3];
      next := new nat[n, 3];
      nodes := new nat[3, m];
      lives := [{}, {}, {}];
      lists := seq(3, _ => seq(m, _ => []));
      new;
      EmptySides(Columns(slot), Columns(prev), Columns(next), nil, lives, lists);
    }

    /** Empties every list, as `memset(g.nodes, ~0, ...)` does. */
    method Reset()
      requires Valid()
      modifies this, nodes
      ensures Valid() && Headed() && lives == AllLive(0)
    {
      forall j, s | 0 <= j < 3 && 0 <= s < nodes.Length1 { nodes[j, s] := nil; }
      lives := [{}, {}, {}];
      lists := seq(3, _ => seq(nodes.Length1, _ => []));
      EmptySides(Columns(slot), Columns(prev), Columns(next), nil, lives, lists);
    }

    /** The five stores that put an edge in front of a list. */
    method LinkFront(i: nat, j: nat, s: nat)
      requires Shape() && i < slot.Length0 && j < 3 && s < nodes.Length1
      requires nodes[j, s] != nil ==> nodes[j, s] < slot.Length0
      modifies slot, prev, next, nodes
      ensures Columns(slot) == Put(old(Columns(slot)), j, i, s)
      ensures Columns(prev) == PrevAfter(old(Columns(prev)), j, i, old(nodes[j, s]), nil)
      ensures Columns(next) == Put(old(Columns(next)), j, i, old(nodes[j, s]))
      ensures nodes[j, s] == i
      ensures forall k, t | 0 <= k < 3 && 0 <= t < nodes.Length1 && (k, t) != (j, s) :: nodes[k, t] == old(nodes[k, t])
    {
      Store(slot, i, j, s);
      var head := nodes[j, s];
      Store(prev, i, j, nil);
      Store(next, i, j, head);
      nodes[j, s] := i;
      if head != nil {
        Store(prev, head, j, i);
      }
    }

    /** Puts edge `i` in front of the list of vertex `s` on side `j`. */
    method Insert(i: nat, j: nat, s: nat)
      requires Valid() && Headed()
      requires i < slot.Length0 && j < 3 && s < nodes.Length1 && i !in lives[j]
      modifies this, slot, prev, next, nodes
      ensures Valid() && Headed()
      ensures lives == old(lives)[j := old(lives)[j] + {i}]
      ensures Slots() == Put(old(Slots()), j, i, s)
    {
      hide AllThreaded;
      ghost var list := lists[j][s];
      InsertSides(Columns(slot), Columns(prev), Columns(next), nil, lives, lists, i, j, s);
      LinkFront(i, j, s);
      lists := lists[j := lists[j][s := [i] + list]];
      lives := lives[j := lives[j] + {i}];
    }

    /** The link test of the source, answered in terms of the live edges. */
    method IsAlone(e: nat, j: nat) returns (alone: bool)
      requires Valid() && j < 3 && e in lives[j]
      ensures alone <==> LoneOn(Slots(), lives, e, j)
    {
      assert OneThreaded(Columns(slot), Columns(prev), Columns(next), nil, lives, lists, j);
      alone := prev[e, j] == nil && next[e, j] == nil;
      UnlinkedIsLone(Column(slot, j), Column(prev, j), Column(next, j), nil, lives[j], lists[j], e);
    }

    /**
     Unlinks `e` on side `j` and returns its neighbour, or `nil` when it was
     alone.  The cells of `e` itself are left alone, and so is `nodes`.
     */
    method Unlink(e: nat, j: nat) returns (i: nat)
      requires Valid() && j < 3 && e in lives[j]
      modifies this, prev, next
      ensures Valid() && lives == old(lives)[j := old(lives)[j] - {e}]
      ensures i != nil ==> i in lives[j] && i < slot.Length0
      ensures forall x | Lone(lives[j], Slots()[j], x) :: Lone(old(lives[j]), Slots()[j], x) || x == i
    {
      hide AllThreaded;
      ghost var lists' := UnlinkSides(Columns(slot), Columns(prev), Columns(next), nil, lives, lists, e, j);
      i := nil;
      var p, q := prev[e, j], next[e, j];
      if p != nil {
        i := p;
        Store(next, p, j, q);
      }
      if q != nil {
        i := q;
        Store(prev, q, j, p);
      }
      lists := lists';
      lives := lives[j := lives[j] - {e}];
    }

    /** Threads edge `i` at the three vertices its code selects. */
    method InsertEdge(i: nat, code: Code, d: Divisor)
      requires Valid() && Headed() && d.Valid() && d.val == nodes.Length1 > 0
      requires i < slot.Length0 && lives == AllLive(i)
      modifies this, slot, prev, next, nodes
      ensures Valid() && Headed() && lives == AllLive(i + 1)
      ensures forall j: nat | j < 3 :: Slots()[j] == SetAt(old(Slots())[j], i, code.Word(j) % nodes.Length1)
    {
      hide Approximates, AllThreaded;
      ghost var slots := Slots();
      var j := 0;
      while j < 3
        invariant j <= 3 && Valid() && Headed()
        invariant lives == seq(3, k => if k < j then Range(i + 1) else Range(i))
        invariant forall k: nat | k < 3 ::
                    Slots()[k] == if k < j then SetAt(slots[k], i, code.Word(k) % nodes.Length1) else slots[k]
      {
        DivExact(d, code.Word(j));
        var s := d.Mod(code.Word(j));
        assert Range(i) + {i} == Range(i + 1);
        Insert(i, j, s);
        j := j + 1;
      }
      assert lives == AllLive(i + 1);
    }

    /** Threads every key's edge; fails exactly when a key cannot be read. */
    method CreateGraph(keys: seq<Option<Key>>, hash: Hash, seed: u32, d: Divisor) returns (ok: bool)
      requires Valid() && d.Valid() && d.val == nodes.Length1 > 0 && |keys| == slot.Length0
      modifies this, slot, prev, next, nodes
      ensures Valid()
      ensures ok <==> AllRead(keys)
      ensures ok ==> lives == AllLive(|keys|)
      ensures ok ==> Slots() == KeySlots(keys, hash, seed, nodes.Length1)
    {
      hide Approximates, AllThreaded, Hashed, AllLive;
      Reset();
      var i := 0;
      HashedNone(Slots(), keys, hash, seed, nodes.Length1);
      while i < |keys|
        invariant i <= |keys| && Valid() && Headed() && lives == AllLive(i)
        invariant Hashed(Slots(), keys, hash, seed, nodes.Length1, i)
      {
        if keys[i].None? { return false; }
        ghost var slots := Slots();
        InsertEdge(i, hash(keys[i].value, seed), d);
        HashedStep(slots, Slots(), keys, hash, seed, nodes.Length1, i);
        i := i + 1;
      }
      HashedAll(Slots(), keys, hash, seed, nodes.Length1);
      return true;
    }

    /** Queues every edge that is already alone somewhere, scanning from the last edge. */
    method Seed(free: array<nat>, book: array<bool>) returns (tail: nat)
      requires Valid() && free.Length == slot.Length0 <= book.Length
      requires lives == AllLive(free.Length)
      modifies free, book
      ensures tail <= free.Length && Booked(free[..tail], book[..], free.Length)
      ensures Pending(Slots(), lives, free[..tail], 0)
      ensures AllSettled(Slots(), lives, free[..tail], free.Length)
    {
      hide Booked, Pending, AllThreaded, Settled, AllLive;
      forall e | 0 <= e < book.Length { book[e] := false; }
      tail := 0;
      ghost var n, slots := free.Length, Slots();
      SeedNone(slots, lives, free[..0], book[..], n);
      var i := free.Length;
      while i > 0
        invariant i <= n && tail <= n && Booked(free[..tail], book[..], n)
        invariant Pending(slots, lives, free[..tail], 0)
        invariant forall e: nat | i <= e < n :: Settled(slots, lives, free[..tail], e, 3)
      {
        i := i - 1;
        tail := SeedEdge(free, book, tail, i);
      }
    }

    /** The three link tests of one edge in the initial scan. */
    method SeedEdge(free: array<nat>, book: array<bool>, tail: nat, i: nat) returns (t: nat)
      requires Valid() && i < free.Length == slot.Length0 <= book.Length && tail <= free.Length
      requires lives == AllLive(free.Length)
      requires Booked(free[..tail], book[..], free.Length) && Pending(Slots(), lives, free[..tail], 0)
      modifies free, book
      ensures t <= free.Length && Booked(free[..t], book[..], free.Length)
      ensures Pending(Slots(), lives, free[..t], 0)
      ensures Settled(Slots(), lives, free[..t], i, 3)
      ensures forall e: nat | Settled(Slots(), lives, old(free[..tail]), e, 3) ::
                Settled(Slots(), lives, free[..t], e, 3)
    {
      hide Booked, Pending, AllThreaded, AllLive;
      ghost var n, slots := free.Length, Slots();
      t := tail;
      InAllLive(i, n);
      var j := 0;
      while j < 3
        invariant 0 <= j <= 3 && t <= n && Booked(free[..t], book[..], n)
        invariant Pending(slots, lives, free[..t], 0)
        invariant forall e: nat | Settled(slots, lives, old(free[..tail]), e, 3) ::
                    Settled(slots, lives, free[..t], e, 3)
        invariant Settled(slots, lives, free[..t], i, j)
      {
        var alone := IsAlone(i, j);
        if alone {
          ghost var queue := free[..t];
          t := Enqueue(free, book, t, i, n);
          SeedStep(slots, lives, queue, free[..t], i, j);
        }
        j := j + 1;
      }
    }

    /** Unlinks edge `curr` on all sides and queues the edges this leaves alone. */
    method Detach(curr: nat, free: array<nat>, book: array<bool>, tail: nat, ghost from: nat) returns (t: nat)
      requires Valid() && free.Length == slot.Length0 <= book.Length && from <= tail <= free.Length
      requires forall j | 0 <= j < 3 :: curr in lives[j]
      requires Booked(free[..tail], book[..], free.Length) && curr !in free[from..tail]
      requires Pending(Slots(), lives, free[..tail], from)
      requires AllSettled(Slots(), lives, free[..tail], free.Length)
      modifies this, prev, next, free, book
      ensures Valid() && lives == Drop(old(lives), curr, 3)
      ensures tail <= t <= free.Length && free[..tail] == old(free[..tail])
      ensures Booked(free[..t], book[..], free.Length)
      ensures Pending(Slots(), lives, free[..t], from)
      ensures AllSettled(Slots(), lives, free[..t], free.Length)
    {
      t := tail;
      ghost var n, slots, lives0 := free.Length, Slots(), lives;
      var j := 0;
      while j < 3
        invariant 0 <= j <= 3 && Valid() && lives == Drop(lives0, curr, j)
        invariant tail <= t <= n && free[..tail] == old(free[..tail])
        invariant Booked(free[..t], book[..], n) && curr !in free[from..t]
        invariant Pending(slots, lives, free[..t], from)
        invariant AllSettled(slots, lives, free[..t], n)
      {
        ghost var queue := free[..t];
        t := DetachSide(curr, j, free, book, t, from);
        assert free[..tail] == queue[..tail];
        j := j + 1;
      }
    }

    /** One side of Detach. */
    method DetachSide(curr: nat, j: nat, free: array<nat>, book: array<bool>, tail: nat, ghost from: nat)
      returns (t: nat)
      requires Valid() && free.Length == slot.Length0 <= book.Length && from <= tail <= free.Length
      requires j < 3 && curr in lives[j]
      requires Booked(free[..tail], book[..], free.Length) && curr !in free[from..tail]
      requires Pending(Slots(), lives, free[..tail], from)
      requires AllSettled(Slots(), lives, free[..tail], free.Length)
      modifies this, prev, next, free, book
      ensures Valid() && lives == old(lives)[j := old(lives)[j] - {curr}]
      ensures tail <= t <= free.Length && free[..tail] == old(free[..tail]) && curr !in free[from..t]
      ensures Booked(free[..t], book[..], free.Length)
      ensures Pending(Slots(), lives, free[..t], from)
      ensures AllSettled(Slots(), lives, free[..t], free.Length)
    {
      t := tail;
      ghost var n, slots, before, queue := free.Length, Slots(), lives, free[..t];
      assert queue[from..] == free[from..t];
      var i := Unlink(curr, j);
      assert Slots() == slots;
      forall x | Lone(lives[j], slots[j], x) ensures Lone(before[j], slots[j], x) || x == i {
        assert Lone(lives[j], Slots()[j], x);
      }
      if i != nil {
        var alone := IsAlone(i, j);
        if alone {
          t := Enqueue(free, book, t, i, n);
        }
      }
      UnlinkStep(slots, before, queue, from, n, curr, j, lives, free[..t], i, nil);
      assert free[from..t] == queue[from..] + free[tail..t];
    }

    /** One turn of the peeling loop: takes the edge at the head of the queue out of the graph. */
    method PeelHead(free: array<nat>, book: array<bool>, tail: nat, head: nat) returns (t: nat)
      requires Valid() && free.Length == slot.Length0 <= book.Length && head < tail <= free.Length
      requires Booked(free[..tail], book[..], free.Length)
      requires Teardown(Slots(), lives, free[..tail], head, free.Length)
      modifies this, prev, next, free, book
      ensures Valid() && tail <= t <= free.Length && Booked(free[..t], book[..], free.Length)
      ensures Teardown(Slots(), lives, free[..t], head + 1, free.Length)
    {
      hide Pending, AllSettled, Booked, AllThreaded, Remaining;
      ghost var n, slots, lives0, queue := free.Length, Slots(), lives, free[..tail];
      HeadAttached(slots, lives, queue, book[..], head, n);
      assert queue[head + 1..] == free[head + 1..tail];
      var curr := free[head];
      t := Detach(curr, free, book, tail, head + 1);
      assert free[..t][..tail] == queue;
      HeadPeeled(slots, lives0, queue, head, n, lives, free[..t]);
    }

    /**
     Peels the graph.  It succeeds exactly when some peeling order exists; the
     order found is then in `free`.  Otherwise the edges left are the largest core.
     */
    method TearGraph(free: array<nat>, book: array<bool>) returns (ok: bool, ghost core: set<nat>)
      requires Valid() && free.Length == slot.Length0 <= book.Length
      requires lives == AllLive(free.Length)
      modifies this, prev, next, free, book
      ensures Valid() && Slots() == old(Slots())
      ensures ok <==> Peelable(Slots(), free.Length)
      ensures ok ==> PeelOrder(Slots(), free.Length, free[..])
      ensures !ok ==> LargestCore(Slots(), free.Length, core)
    {
      hide Teardown, Booked, AllThreaded, Pending, AllSettled, PeelOrder, Peelable, LargestCore;
      var tail := Seed(free, book);
      var head := 0;
      ghost var n, slots := free.Length, Slots();
      StartTeardown(slots, lives, free[..tail], n);
      while head < tail
        invariant head <= tail <= n && Valid() && Booked(free[..tail], book[..], n)
        invariant Teardown(slots, lives, free[..tail], head, n)
        decreases n - head
      {
        tail := PeelHead(free, book, tail, head);
        head := head + 1;
      }
      ok := tail == free.Length;
      FinishTeardown(slots, lives, free[..tail], book[..], n);
      assert free[..n] == free[..];
      core := Range(n) - Elements(free[..tail]);
    }
  }
}
