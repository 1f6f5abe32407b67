/**
 The duplicate check of the builder: an open-addressing table of hash codes
 with linear probing (Check in src/perfect_hash.cc).
 */
module HashCheck {
  import opened Words
  import opened HashGraph

  /** `code.u32[0] |= 1`: the lowest bit marks a cell as taken. */
  function Stamp(c: Code): Code {
    c.(w0 := if c.w0 % 2 == 0 then c.w0 + 1 else c.w0)
  }

  predicate Taken(c: Code) { c.w0 % 2 == 1 }

  /** The cell reached after `d` probes from `pos` in a table of `m` cells. */
  function Probe(pos: nat, d: nat, m: nat): nat
    requires pos < m && d < m
  {
    if pos + d < m then pos + d else pos + d - m
  }

  /** `code` sits `d` probes from its home cell, and every cell before it is taken. */
  ghost predicate SitsAt(space: seq<Code>, code: Code, d: nat) {
    && |space| > 0 && d < |space|
    && var home := code.w0 % |space|;
       && space[Probe(home, d, |space|)] == Stamp(code)
       && forall i: nat | i < d :: Taken(space[Probe(home, i, |space|)])
  }

  ghost predicate Sits(space: seq<Code>, code: Code) {
    exists d: nat :: SitsAt(space, code, d)
  }

  /** The table holds the given codes at the listed cells and nothing else. */
  ghost predicate Holds(space: seq<Code>, codes: seq<Code>, cells: seq<nat>) {
    && |cells| == |codes| && Distinct(cells)
    && (forall i | 0 <= i < |cells| :: cells[i] < |space|)
    && (forall s | 0 <= s < |space| :: Taken(space[s]) <==> s in cells)
    && (forall i | 0 <= i < |codes| :: Sits(space, codes[i]))
    && (forall s | 0 <= s < |space| && Taken(space[s]) :: FromCodes(codes, space[s]))
  }

  ghost predicate FromCodes(codes: seq<Code>, c: Code) {
    exists i | 0 <= i < |codes| :: Stamp(codes[i]) == c
  }

  ghost predicate AllDifferent(codes: seq<Code>) {
    forall i, k | 0 <= i < k < |codes| :: codes[i] != codes[k]
  }

  /** Two of the codes agree except possibly in the lowest bit of the first word. */
  ghost predicate SomeTwins(codes: seq<Code>) {
    exists i, k | 0 <= i < k < |codes| :: Stamp(codes[i]) == Stamp(codes[k])
  }

  /** Storing a code in a free cell keeps every older code where it can be found. */
  lemma StoreKeeps(space: seq<Code>, codes: seq<Code>, cells: seq<nat>, code: Code, d: nat)
    requires |space| > 0 && d < |space| && Holds(space, codes, cells)
    requires var s := Probe(code.w0 % |space|, d, |space|);
             && !Taken(space[s])
             && forall i: nat | i < d :: Taken(space[Probe(code.w0 % |space|, i, |space|)])
    ensures var s := Probe(code.w0 % |space|, d, |space|);
            Holds(space[s := Stamp(code)], codes + [code], cells + [s])
  {
    hide Sits, FromCodes;
    var s := Probe(code.w0 % |space|, d, |space|);
    var space', codes', cells' := space[s := Stamp(code)], codes + [code], cells + [s];
    SitsNew(space, code, d);
    forall i | 0 <= i < |codes'| ensures Sits(space', codes'[i]) {
      if i < |codes| {
        SitsKept(space, codes[i], s, Stamp(code));
      }
    }
    forall t | 0 <= t < |space'| && Taken(space'[t]) ensures FromCodes(codes', space'[t]) {
      FromCodesGrows(codes, code, space[t]);
    }
    CellsGrow(space, cells, s, Stamp(code));
  }

  lemma SitsKept(space: seq<Code>, c: Code, s: nat, x: Code)
    requires Sits(space, c) && s < |space| && !Taken(space[s]) && Taken(x)
    ensures Sits(space[s := x], c)
  {
    var e: nat :| SitsAt(space, c, e);
    assert SitsAt(space[s := x], c, e);
  }

  lemma SitsNew(space: seq<Code>, code: Code, d: nat)
    requires |space| > 0 && d < |space|
    requires forall i: nat | i < d :: Taken(space[Probe(code.w0 % |space|, i, |space|)])
    ensures Sits(space[Probe(code.w0 % |space|, d, |space|) := Stamp(code)], code)
  {
    assert SitsAt(space[Probe(code.w0 % |space|, d, |space|) := Stamp(code)], code, d);
  }

  lemma FromCodesGrows(codes: seq<Code>, code: Code, c: Code)
    ensures FromCodes(codes + [code], Stamp(code))
    ensures FromCodes(codes, c) ==> FromCodes(codes + [code], c)
  {
    assert (codes + [code])[|codes|] == code;
    if FromCodes(codes, c) {
      var i :| 0 <= i < |codes| && Stamp(codes[i]) == c;
      assert (codes + [code])[i] == codes[i];
    }
  }

  lemma CellsGrow(space: seq<Code>, cells: seq<nat>, s: nat, x: Code)
    requires s < |space| && !Taken(space[s]) && Taken(x) && Distinct(cells)
    requires forall t | 0 <= t < |space| :: Taken(space[t]) <==> t in cells
    ensures Distinct(cells + [s])
    ensures forall t | 0 <= t < |space| :: Taken(space[s := x][t]) <==> t in cells + [s]
  {
  }

  /** A code that was stored before would have been met before any free cell. */
  lemma MetBeforeFree(space: seq<Code>, code: Code, d: nat)
    requires |space| > 0 && d < |space| && Sits(space, code)
    requires !Taken(space[Probe(code.w0 % |space|, d, |space|)])
    ensures exists e: nat | e < d :: space[Probe(code.w0 % |space|, e, |space|)] == Stamp(code)
  {
    var e: nat :| SitsAt(space, code, e);
    assert e < d;
  }

  /** With fewer codes than probes, the probes cannot all hit taken cells. */
  lemma FreeCellExists(space: seq<Code>, codes: seq<Code>, cells: seq<nat>, pos: nat, n: nat)
    requires Holds(space, codes, cells) && |codes| < n <= |space| && pos < |space|
    ensures exists d: nat | d < n :: !Taken(space[Probe(pos, d, |space|)])
  {
    if forall d: nat | d < n :: Taken(space[Probe(pos, d, |space|)]) {
      var probes := seq(n, d requires 0 <= d < n => Probe(pos, d, |space|));
      assert Distinct(probes);
      assert Elements(probes) <= Elements(cells) by {
        forall s | s in probes ensures s in cells {
          var d: nat :| d < n && probes[d] == s;
          assert Taken(space[Probe(pos, d, |space|)]);
        }
      }
      ElementsSize(probes);
      ElementsSize(cells);
      SubsetSize(Elements(probes), Elements(cells));
    }
  }

  /** Inserts a code; fails exactly when an equal stamp is met first. */
  method Insert(space: array<Code>, n: nat, code: Code, ghost codes: seq<Code>, ghost cells: seq<nat>)
    returns (ok: bool, ghost cells': seq<nat>)
    requires space.Length == 2 * n && |codes| < n && Holds(space[..], codes, cells)
    modifies space
    ensures ok ==> Holds(space[..], codes + [code], cells') && code !in codes
    ensures !ok ==> space[..] == old(space[..]) && FromCodes(codes, Stamp(code))
  {
    var m := n * 2;
    var home := code.w0 % m;
    var pos := home;
    var stamped := Stamp(code);
    cells' := cells;
    FreeCellExists(space[..], codes, cells, home, n);
    var j := 0;
    while j < n
      invariant j <= n && pos == Probe(home, j, m)
      invariant space[..] == old(space[..])
      invariant forall i: nat | i < j :: Taken(space[..][Probe(home, i, m)]) && space[..][Probe(home, i, m)] != stamped
    {
      if !Taken(space[pos]) {
        ghost var before := space[..];
        StoreKeeps(before, codes, cells, code, j);
        if code in codes { MetBeforeFree(before, code, j); }
        space[pos] := stamped;
        cells' := cells + [pos];
        assert space[..] == before[pos := stamped];
        return true, cells';
      }
      if space[pos] == stamped {
        assert Taken(space[..][pos]);
        return false, cells';
      }
      pos := pos + 1;
      if pos >= m { pos := 0; }
      j := j + 1;
    }
    return false, cells';
  }

  /** The codes of the first `i` keys. */
  ghost function Codes(keys: seq<Option<Key>>, hash: Hash, seed: u32): (r: seq<Code>)
    requires AllRead(keys)
    ensures |r| == |keys| && forall i | 0 <= i < |r| :: r[i] == hash(keys[i].value, seed)
  {
    seq(|keys|, i requires 0 <= i < |keys| => hash(keys[i].value, seed))
  }

  /** True only if all keys can be read and have pairwise different codes. */
  method Check(keys: seq<Option<Key>>, hash: Hash, seed: u32) returns (ok: bool)
    ensures ok ==> AllRead(keys) && AllDifferent(Codes(keys, hash, seed))
    ensures !ok && AllRead(keys) ==> SomeTwins(Codes(keys, hash, seed))
  {
    var n := |keys|;
    var zero := Code(0, 0, 0, 0);
    var space := new Code[n * 2](_ => zero);
    ghost var codes: seq<Code>, cells: seq<nat> := [], [];
    var i := 0;
    while i < n
      invariant i <= n && |codes| == i && Holds(space[..], codes, cells) && AllDifferent(codes)
      invariant forall k | 0 <= k < i :: keys[k].Some? && codes[k] == hash(keys[k].value, seed)
    {
      if keys[i].None? { return false; }
      var code := hash(keys[i].value, seed);
      var stored, cells' := Insert(space, n, code, codes, cells);
      if !stored {
        if AllRead(keys) {
          var all := Codes(keys, hash, seed);
          var k :| 0 <= k < |codes| && Stamp(codes[k]) == Stamp(code);
          assert Stamp(all[k]) == Stamp(all[i]);
        }
        return false;
      }
      codes := codes + [code];
      cells := cells';
      i := i + 1;
    }
    assert AllRead(keys);
    assert Codes(keys, hash, seed) == codes;
    return true;
  }
}
