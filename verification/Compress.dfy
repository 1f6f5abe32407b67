/**
 The byte compressor (Compress and Decompress of src/utils.cc): pairs of
 four-bit tokens, each a run of up to four 0x00 or 0xff bytes or up to seven
 literal bytes, written and read with wide stores that overrun and are
 overwritten later.
 */
module Compressor {
  import opened Words
  import opened Strings

  // ---------------------------------------------------------------------
  // The token stream
  // ---------------------------------------------------------------------

  predicate IsRun(ch: byte) { ch == 0 || ch == 255 }

  /** How many leading bytes are `ch`, at most `k`. */
  function Same(s: seq<byte>, ch: byte, k: nat): (n: nat)
    ensures n <= k && n <= |s|
    decreases k
  {
    if k == 0 || s == [] || s[0] != ch then 0 else 1 + Same(s[1..], ch, k - 1)
  }

  /** How many leading bytes are neither 0x00 nor 0xff, at most `k`. */
  function Plain(s: seq<byte>, k: nat): (n: nat)
    ensures n <= k && n <= |s|
    decreases k
  {
    if k == 0 || s == [] || IsRun(s[0]) then 0 else 1 + Plain(s[1..], k - 1)
  }

  /** Bytes a run or a stretch of literals can have after its first. */
  function RunMore(): nat { 3 }
  function PlainMore(): nat { 6 }

  /** Bytes covered by the first token. */
  function Count(s: seq<byte>): (n: nat)
    requires s != []
    ensures 1 <= n <= |s| && n <= 7
  {
    if IsRun(s[0]) then 1 + Same(s[1..], s[0], RunMore()) else 1 + Plain(s[1..], PlainMore())
  }

  function Nibble(s: seq<byte>): (t: nat)
    requires s != []
    ensures t < 16
  {
    if IsRun(s[0]) then
      assert Count(s) <= 4;
      8 + (if s[0] == 255 then 4 else 0) + Count(s) - 1
    else Count(s)
  }

  /** The bytes a token stores behind it. */
  function Literal(s: seq<byte>): (r: seq<byte>)
    requires s != []
    ensures |r| == if IsRun(s[0]) then 0 else Count(s)
  {
    if IsRun(s[0]) then [] else s[..Count(s)]
  }

  function After(s: seq<byte>): (r: seq<byte>)
    requires s != []
    ensures |r| < |s|
  {
    s[Count(s)..]
  }

  /** Two tokens in one byte. */
  function Token(a: nat, b: nat): byte
    requires a < 16 && b < 16
  {
    a + 16 * b
  }

  /** The compressed form without the length. */
  function Pack(s: seq<byte>): seq<byte>
    decreases |s|
  {
    if s == [] then []
    else if After(s) == [] then [Nibble(s)] + Literal(s)
    else
      var r := After(s);
      [Token(Nibble(s), Nibble(r))] + Literal(s) + Literal(r) + Pack(After(r))
  }

  // ---------------------------------------------------------------------
  // Decoding
  // ---------------------------------------------------------------------

  function Repeated(ch: byte, n: nat): (r: seq<byte>)
    ensures |r| == n && forall i | 0 <= i < n :: r[i] == ch
  {
    seq(n, _ => ch)
  }

  /** One token: the bytes produced and the number of bytes taken from the stream. */
  function Unpack(mark: nat, s: seq<byte>, room: nat): (r: Option<(seq<byte>, nat)>)
    requires mark < 16
    ensures r.Some? ==> |r.value.0| <= room && r.value.1 <= |s|
  {
    if mark >= 8 then
      if mark % 4 + 1 > room then None else Some((Repeated(if mark / 4 % 2 == 1 then 255 else 0, mark % 4 + 1), 0))
    else if mark > |s| || mark > room then None
    else Some((s[..mark], mark))
  }

  function Unpacked(s: seq<byte>, room: nat): (r: Option<seq<byte>>)
    ensures r.Some? ==> |r.value| <= room
    decreases |s|
  {
    if s == [] then Some([])
    else
      match Unpack(s[0] % 16, s[1..], room)
      case None => None
      case Some((a, i)) =>
        match Unpack(s[0] / 16, s[1 + i..], room - |a|)
        case None => None
        case Some((b, k)) =>
          match Unpacked(s[1 + i + k..], room - |a| - |b|)
          case None => None
          case Some(rest) => Some(a + b + rest)
  }

  // ---------------------------------------------------------------------
  // Round trip of the token stream
  // ---------------------------------------------------------------------

  lemma {:induction false} SameBytes(s: seq<byte>, ch: byte, k: nat)
    ensures s[..Same(s, ch, k)] == Repeated(ch, Same(s, ch, k))
    decreases k
  {
    if k > 0 && s != [] && s[0] == ch {
      SameBytes(s[1..], ch, k - 1);
      var n := Same(s[1..], ch, k - 1);
      assert s[..1 + n] == [s[0]] + s[1..][..n];
    }
  }

  /** A token gives back the bytes it covers, whatever follows its literals. */
  lemma TokenRoundTrip(s: seq<byte>, rest: seq<byte>, room: nat)
    requires s != [] && Count(s) <= room
    ensures Unpack(Nibble(s), Literal(s) + rest, room) == Some((s[..Count(s)], |Literal(s)|))
  {
    var c, n := Count(s), Nibble(s);
    if IsRun(s[0]) {
      SameBytes(s[1..], s[0], RunMore());
      assert s[..c] == [s[0]] + s[1..][..c - 1];
      assert s[..c] == Repeated(s[0], c);
      assert n % 4 + 1 == c && (n / 4 % 2 == 1 <==> s[0] == 255);
    } else {
      assert (Literal(s) + rest)[..c] == Literal(s);
    }
  }

  lemma UnpackNothing(s: seq<byte>, room: nat)
    ensures Unpack(0, s, room) == Some(([], 0))
  {
  }

  /** Decoding the token stream restores the bytes. */
  lemma {:induction false} PackRoundTrip(s: seq<byte>, room: nat)
    requires |s| <= room
    ensures Unpacked(Pack(s), room) == Some(s)
    decreases |s|
  {
    hide Count, Nibble, Literal, Unpack, Unpacked, Pack;
    if s == [] {
      NothingPacked(room);
    } else {
      TokenBounds(s);
      var r := After(s);
      if r == [] {
        LastToken(s, room);
      } else {
        TokenBounds(r);
        PackRoundTrip(After(r), room - Count(s) - Count(r));
        PairOfTokens(s, room);
      }
    }
  }

  lemma NothingPacked(room: nat)
    ensures Pack([]) == [] && Unpacked([], room) == Some([])
  {
  }

  lemma LastToken(s: seq<byte>, room: nat)
    requires s != [] && After(s) == [] && |s| <= room
    ensures Unpacked(Pack(s), room) == Some(s)
  {
    hide Count, Nibble, Literal, Unpack;
    TokenBounds(s);
    var lit := Literal(s);
    var p := [Nibble(s)] + lit;
    TokenRoundTrip(s, [], room);
    assert lit + [] == lit == p[1..];
    assert s[..Count(s)] == s;
    UnpackNothing(p[1 + |lit|..], room - |s|);
    assert p[1 + |lit| + 0..] == [];
    assert s + [] + [] == s;
  }

  lemma TokenBounds(s: seq<byte>)
    requires s != []
    ensures Nibble(s) < 16 && 1 <= Count(s) <= |s| && |Literal(s)| <= Count(s)
  {
  }

  lemma PairOfTokens(s: seq<byte>, room: nat)
    requires s != [] && After(s) != [] && |s| <= room
    requires Unpacked(Pack(After(After(s))), room - Count(s) - Count(After(s))) == Some(After(After(s)))
    ensures Unpacked(Pack(s), room) == Some(s)
  {
    hide Count, Nibble, Literal, Unpack, Unpacked, Pack;
    var r := After(s);
    TokenBounds(s);
    TokenBounds(r);
    var a, b, tail := Literal(s), Literal(r), Pack(After(r));
    var p := [Token(Nibble(s), Nibble(r))] + a + b + tail;
    PackPair(s);
    assert p[1..] == a + (b + tail);
    assert p[1 + |a|..] == b + tail;
    assert p[1 + |a| + |b|..] == tail;
    TokenRoundTrip(s, b + tail, room);
    TokenRoundTrip(r, tail, room - Count(s));
    UnpackedPair(p, room, s[..Count(s)], |a|, r[..Count(r)], |b|, After(r));
    assert s[..Count(s)] + r[..Count(r)] + After(r) == s;
  }

  lemma PackPair(s: seq<byte>)
    requires s != [] && After(s) != []
    ensures var r := After(s);
            Pack(s) == [Token(Nibble(s), Nibble(r))] + Literal(s) + Literal(r) + Pack(After(r))
  {
  }

  lemma UnpackedPair(p: seq<byte>, room: nat, a: seq<byte>, i: nat, b: seq<byte>, k: nat, rest: seq<byte>)
    requires p != [] && 1 + i + k <= |p| && |a| + |b| <= room
    requires Unpack(p[0] % 16, p[1..], room) == Some((a, i))
    requires Unpack(p[0] / 16, p[1 + i..], room - |a|) == Some((b, k))
    requires Unpacked(p[1 + i + k..], room - |a| - |b|) == Some(rest)
    ensures Unpacked(p, room) == Some(a + b + rest)
  {
    hide Unpack;
  }

  // ---------------------------------------------------------------------
  // Size of the token stream
  // ---------------------------------------------------------------------

  /** What a token stream may still exceed its input by, in fourteenths; less in front of a run. */
  function Slack(s: seq<byte>): (k: nat)
    ensures k <= 13
  {
    if s == [] then 0 else if IsRun(s[0]) then 7 else 13
  }

  lemma {:induction false} PlainStops(s: seq<byte>, k: nat)
    ensures var n := Plain(s, k); n < k && n < |s| ==> IsRun(s[n])
    decreases k
  {
    if k > 0 && s != [] && !IsRun(s[0]) { PlainStops(s[1..], k - 1); }
  }

  /** Literals end after seven bytes, at a run, or at the end. */
  lemma LiteralStops(s: seq<byte>)
    requires s != [] && !IsRun(s[0]) && Count(s) < 7
    ensures After(s) == [] || IsRun(After(s)[0])
  {
    PlainStops(s[1..], PlainMore());
  }

  /** Bytes written for the first pair, against the bytes it covers. */
  lemma PairCost(s: seq<byte>)
    requires s != [] && After(s) != []
    ensures var r := After(s);
            14 * (1 + |Literal(s)| + |Literal(r)|) + Slack(After(r)) <= 15 * (Count(s) + Count(r)) + Slack(s)
  {
    hide Count;
    var r := After(s);
    CountBounds(s);
    CountBounds(r);
    if !IsRun(s[0]) && Count(s) < 7 { LiteralStops(s); }
    if !IsRun(r[0]) && Count(r) < 7 { LiteralStops(r); }
  }

  lemma CountBounds(s: seq<byte>)
    requires s != []
    ensures 1 <= Count(s) <= |s| && Count(s) <= 7 && |Literal(s)| == (if IsRun(s[0]) then 0 else Count(s))
    ensures |After(s)| == |s| - Count(s)
  {
  }

  lemma {:induction false} PackSize(s: seq<byte>)
    ensures 14 * |Pack(s)| <= 15 * |s| + Slack(s)
    decreases |s|
  {
    hide Count, Nibble, Literal, Token, Slack;
    SlackBounds(s);
    if s != [] {
      CountBounds(s);
      if After(s) == [] {
        LastCost(s);
      } else {
        CountBounds(After(s));
        PackSize(After(After(s)));
        PairCost(s);
      }
    }
  }

  lemma SlackBounds(s: seq<byte>)
    ensures Slack(s) <= 13
  {
  }

  lemma LastCost(s: seq<byte>)
    requires s != []
    ensures 14 * (1 + |Literal(s)|) <= 15 * Count(s) + Slack(s)
  {
    hide Count;
    CountBounds(s);
  }

  /** Room reserved for the token stream of `n` bytes. */
  function Reserved(n: nat): nat { n + (n + 13) / 14 }

  lemma Fits(n: nat, x: nat)
    requires 14 * x <= 15 * n + 13
    ensures x <= Reserved(n)
  {
  }

  /** The token stream is at most one fourteenth longer than its input. */
  lemma PackBound(s: seq<byte>)
    ensures |Pack(s)| <= |s| + (|s| + 13) / 14
  {
    hide Pack;
    PackSize(s);
    Fits(|s|, |Pack(s)|);
  }

  // ---------------------------------------------------------------------
  // Compress
  // ---------------------------------------------------------------------

  lemma SameStep(s: seq<byte>, ch: byte, cnt: nat, i: nat)
    requires cnt <= 3 && i <= |s|
    ensures i == |s| || s[i] != ch || cnt == 3 ==> Same(s[i..], ch, 3 - cnt) == 0
    ensures i < |s| && s[i] == ch && cnt < 3 ==> Same(s[i..], ch, 3 - cnt) == 1 + Same(s[i + 1..], ch, 2 - cnt)
  {
    if i < |s| { assert s[i..][1..] == s[i + 1..]; }
  }

  lemma PlainStep(s: seq<byte>, cnt: nat, i: nat)
    requires cnt <= 6 && i <= |s|
    ensures i == |s| || IsRun(s[i]) || cnt == 6 ==> Plain(s[i..], 6 - cnt) == 0
    ensures i < |s| && !IsRun(s[i]) && cnt < 6 ==> Plain(s[i..], 6 - cnt) == 1 + Plain(s[i + 1..], 5 - cnt)
  {
    if i < |s| { assert s[i..][1..] == s[i + 1..]; }
  }

  /** The closure `pick`: the next token and where it ends. */
  method PickToken(src: seq<byte>, start: nat) returns (mark: nat, i: nat)
    requires start < |src|
    ensures mark == Nibble(src[start..]) && i == start + Count(src[start..]) <= |src|
  {
    hide Same, Plain;
    var ch, cnt := src[start], 1;
    i := start + 1;
    assert src[start..][1..] == src[i..];
    if ch == 0 || ch == 255 {
      SameStep(src, ch, 0, i);
      while i < |src| && cnt < 4 && src[i] == ch
        invariant start < i == start + cnt <= |src| && 1 <= cnt <= 4
        invariant Same(src[start + 1..], ch, 3) == cnt - 1 + Same(src[i..], ch, 4 - cnt)
      {
        SameStep(src, ch, cnt - 1, i);
        i, cnt := i + 1, cnt + 1;
      }
      SameStep(src, ch, cnt - 1, i);
      mark := 8 + (if ch == 255 then 4 else 0) + (cnt - 1);
    } else {
      while i < |src| && cnt < 7 && src[i] != 0 && src[i] != 255
        invariant start < i == start + cnt <= |src| && 1 <= cnt <= 7
        invariant Plain(src[start + 1..], 6) == cnt - 1 + Plain(src[i..], 7 - cnt)
      {
        PlainStep(src, cnt - 1, i);
        i, cnt := i + 1, cnt + 1;
      }
      PlainStep(src, cnt - 1, i);
      mark := cnt;
    }
  }

  /** The closure `copy`: eight bytes at once while the source has them. */
  method Copy(out: array<byte>, dest: nat, src: seq<byte>, s: nat, len: nat) returns (dest': nat)
    requires s + len <= |src| && len <= 7
    requires dest + (if s + 8 <= |src| then 8 else len) <= out.Length
    modifies out
    ensures dest' == dest + len <= out.Length && out[..dest'] == old(out[..dest]) + src[s..s + len]
  {
    ghost var before := out[..dest];
    var wide := if s + 8 <= |src| then 8 else len;
    forall i | dest <= i < dest + wide { out[i] := src[s + (i - dest)]; }
    dest' := dest + len;
    assert out[..dest] == before;
    assert out[dest..dest'] == src[s..s + len];
    assert out[..dest'] == out[..dest] + out[dest..dest'];
  }

  /** `done` is the stream of the first `i` bytes, within its budget. */
  ghost predicate Done(src: seq<byte>, i: nat, done: seq<byte>) {
    && i <= |src| && Pack(src) == done + Pack(src[i..])
    && 14 * |done| + Slack(src[i..]) <= 15 * i + 13
  }

  /** End of the store for a literal of `len` bytes at source index `s`. */
  function StoreEnd(n: nat, s: nat, len: nat): nat { if s + 8 <= n then 8 else len }

  /** Every store of a pair stays inside the reserved room. */
  lemma PairRoom(src: seq<byte>, x: nat, size: nat)
    requires x < |src| && After(src[x..]) != [] && 14 * size + Slack(src[x..]) <= 15 * x + 13
    ensures var s, n := src[x..], |src|;
            var r, y := After(s), x + Count(s);
            && y < n && src[y..] == r && size + 1 <= Reserved(n)
            && (!IsRun(s[0]) ==> size + 1 + StoreEnd(n, x, Count(s)) <= Reserved(n))
            && (!IsRun(r[0]) ==> size + 1 + |Literal(s)| + StoreEnd(n, y, Count(r)) <= Reserved(n))
  {
    hide Count, Reserved;
    var s, n := src[x..], |src|;
    var r, y := After(s), x + Count(s);
    CountBounds(s);
    CountBounds(r);
    assert src[y..] == s[Count(s)..];
    Fits(n, size + 1);
    if !IsRun(s[0]) {
      Fits(n, size + 1 + StoreEnd(n, x, Count(s)));
      if Count(s) < 7 { LiteralStops(s); }
    }
    if !IsRun(r[0]) { Fits(n, size + 1 + |Literal(s)| + StoreEnd(n, y, Count(r))); }
  }

  lemma LastRoom(src: seq<byte>, x: nat, size: nat)
    requires x < |src| && After(src[x..]) == [] && 14 * size + Slack(src[x..]) <= 15 * x + 13
    ensures var s, n := src[x..], |src|;
            && size + 1 <= Reserved(n)
            && (!IsRun(s[0]) ==> size + 1 + StoreEnd(n, x, Count(s)) <= Reserved(n))
  {
    hide Count, Reserved;
    var s, n := src[x..], |src|;
    CountBounds(s);
    Fits(n, size + 1);
    if !IsRun(s[0]) { Fits(n, size + 1 + StoreEnd(n, x, Count(s))); }
  }

  lemma MarkKind(s: seq<byte>)
    requires s != []
    ensures Nibble(s) < 16 && (Nibble(s) >= 8 <==> IsRun(s[0]))
    ensures (Nibble(s) < 8 ==> Nibble(s) == Count(s) && Literal(s) == s[..Count(s)])
    ensures IsRun(s[0]) ==> Literal(s) == []
  {
  }

  /** One token with its literal. */
  method PutLiteral(out: array<byte>, dest: nat, src: seq<byte>, x: nat, mark: nat) returns (dest': nat)
    requires x < |src| && mark == Nibble(src[x..]) && dest <= out.Length
    requires !IsRun(src[x]) ==> dest + StoreEnd(|src|, x, Count(src[x..])) <= out.Length
    modifies out
    ensures dest' == dest + |Literal(src[x..])| <= out.Length && out[..dest'] == old(out[..dest]) + Literal(src[x..])
  {
    hide Count, Nibble, Literal;
    ghost var s := src[x..];
    MarkKind(s);
    CountBounds(s);
    dest' := dest;
    if mark < 8 {
      dest' := Copy(out, dest, src, x, mark);
      assert src[x..x + mark] == s[..mark];
    } else {
      assert out[..dest] + [] == out[..dest];
    }
  }

  method PutByte(out: array<byte>, dest: nat, b: byte)
    requires dest < out.Length
    modifies out
    ensures out[..dest + 1] == old(out[..dest]) + [b]
  {
    ghost var before := out[..dest];
    out[dest] := b;
    assert out[..dest] == before;
  }

  lemma DonePair(src: seq<byte>, x: nat, done: seq<byte>)
    requires x < |src| && Done(src, x, done) && After(src[x..]) != []
    ensures var s := src[x..];
            var r := After(s);
            Done(src, x + Count(s) + Count(r), done + [Token(Nibble(s), Nibble(r))] + Literal(s) + Literal(r))
  {
    hide Count, Nibble, Literal, Token, Pack, Slack;
    var s := src[x..];
    var r := After(s);
    CountBounds(s);
    CountBounds(r);
    PackPair(s);
    PairCost(s);
    assert src[x + Count(s) + Count(r)..] == After(r);
    var t, a, b, rest := [Token(Nibble(s), Nibble(r))], Literal(s), Literal(r), Pack(After(r));
    assert done + (t + a + b + rest) == (done + t + a + b) + rest;
  }

  lemma DoneLast(src: seq<byte>, x: nat, done: seq<byte>)
    requires x < |src| && Done(src, x, done) && After(src[x..]) == []
    ensures var s := src[x..];
            Done(src, |src|, done + [Nibble(s)] + Literal(s))
  {
    hide Count, Nibble, Literal;
    var s := src[x..];
    CountBounds(s);
    LastCost(s);
    assert src[|src|..] == [];
    assert Pack(s) == [Nibble(s)] + Literal(s);
    assert done + ([Nibble(s)] + Literal(s)) == (done + [Nibble(s)] + Literal(s)) + [];
    CountIsAll(s);
  }

  lemma CountIsAll(s: seq<byte>)
    requires s != [] && After(s) == []
    ensures Count(s) == |s|
  {
  }

  /** The last token of an odd stream. */
  method PutLast(out: array<byte>, dest: nat, src: seq<byte>, x: nat, a: nat, ghost head: seq<byte>,
                 ghost done: seq<byte>)
    returns (dest': nat, ghost done': seq<byte>)
    requires x < |src| && After(src[x..]) == [] && a == Nibble(src[x..]) && Done(src, x, done)
    requires out.Length == |head| + Reserved(|src|)
    requires dest == |head| + |done| <= out.Length && out[..dest] == head + done
    modifies out
    ensures Done(src, |src|, done') && dest' == |head| + |done'| <= out.Length && out[..dest'] == head + done'
  {
    hide Count, Nibble, Literal, Pack, Slack, Reserved, Done, IsRun, After;
    ghost var s := src[x..];
    DoneBudget(src, x, done);
    MarkKind(s);
    LastRoom(src, x, |done|);
    PutByte(out, dest, a);
    dest' := PutLiteral(out, dest + 1, src, x, a);
    DoneLast(src, x, done);
    done' := done + [a] + Literal(s);
    assert head + done + [a] + Literal(s) == head + done';
  }

  /** Two tokens and their literals. */
  method PutTwo(out: array<byte>, dest: nat, src: seq<byte>, x: nat, a: nat, y: nat, b: nat, ghost head: seq<byte>,
                ghost done: seq<byte>)
    returns (dest': nat, ghost done': seq<byte>)
    requires x < |src| && After(src[x..]) != [] && a == Nibble(src[x..]) && y == x + Count(src[x..]) < |src|
    requires b == Nibble(src[y..])
    requires Done(src, x, done) && out.Length == |head| + Reserved(|src|)
    requires dest == |head| + |done| <= out.Length && out[..dest] == head + done
    modifies out
    ensures Done(src, y + Count(src[y..]), done') && dest' == |head| + |done'| <= out.Length
    ensures out[..dest'] == head + done'
  {
    hide Count, Nibble, Literal, Token, Pack, Slack, Reserved, Done, IsRun, After;
    ghost var s, r := src[x..], src[y..];
    DoneBudget(src, x, done);
    PairRoom(src, x, |done|);
    MarkKind(s);
    MarkKind(r);
    PutByte(out, dest, Token(a, b));
    dest' := PutLiteral(out, dest + 1, src, x, a);
    dest' := PutLiteral(out, dest', src, y, b);
    DonePair(src, x, done);
    done' := done + [Token(a, b)] + Literal(s) + Literal(r);
    assert head + done + [Token(a, b)] + Literal(s) + Literal(r) == head + done';
  }

  /** The body of the main loop: one pair, or the last token. */
  method PutPair(out: array<byte>, dest: nat, src: seq<byte>, x: nat, ghost head: seq<byte>, ghost done: seq<byte>)
    returns (dest': nat, i: nat, ghost done': seq<byte>)
    requires x < |src| && Done(src, x, done) && out.Length == |head| + Reserved(|src|)
    requires dest == |head| + |done| <= out.Length && out[..dest] == head + done
    modifies out
    ensures x < i <= |src| && Done(src, i, done')
    ensures dest' == |head| + |done'| <= out.Length && out[..dest'] == head + done'
  {
    hide Count, Nibble, Literal, Token, Pack, Slack, Reserved, Done, IsRun;
    CountBounds(src[x..]);
    var a: nat;
    a, i := PickToken(src, x);
    if i == |src| {
      dest', done' := PutLast(out, dest, src, x, a, head, done);
    } else {
      var y := i;
      CountBounds(src[y..]);
      var b: nat;
      b, i := PickToken(src, y);
      dest', done' := PutTwo(out, dest, src, x, a, y, b, head, done);
    }
  }

  lemma DoneBudget(src: seq<byte>, i: nat, done: seq<byte>)
    requires Done(src, i, done)
    ensures i <= |src| && 14 * |done| + Slack(src[i..]) <= 15 * i + 13
  {
  }

  lemma DoneNothing(src: seq<byte>)
    ensures Done(src, 0, [])
  {
    assert src[0..] == src && [] + Pack(src) == Pack(src);
  }

  lemma DoneAll(src: seq<byte>, done: seq<byte>)
    requires Done(src, |src|, done)
    ensures done == Pack(src)
  {
    assert src[|src|..] == [] && done + [] == done;
  }

  /** Compress: the length as a varint, then the token stream; every store stays inside the reserved buffer. */
  method Compress(src: seq<byte>) returns (r: seq<byte>)
    requires |src| <= 0xffff_fff8
    ensures r == if src == [] then [] else VarInt(|src|) + Pack(src)
  {
    hide Pack, Done, Reserved, VarInt;
    if |src| == 0 { return []; }
    var head := WriteVarInt(|src|);
    var off := |head|;
    var out := new byte[off + Reserved(|src|)];
    forall k | 0 <= k < off { out[k] := head[k]; }
    ghost var done: seq<byte> := [];
    DoneNothing(src);
    assert out[..off] == head + done;
    var dest, i := off, 0;
    while i < |src|
      invariant 0 <= i <= |src| && Done(src, i, done)
      invariant dest == off + |done| <= out.Length && out[..dest] == head + done
      decreases |src| - i
    {
      dest, i, done := PutPair(out, dest, src, i, head, done);
    }
    DoneAll(src, done);
    r := out[..dest];
  }

  // ---------------------------------------------------------------------
  // Decompress
  // ---------------------------------------------------------------------

  /** The closure `parse_size`; the shifts drop what exceeds 32 bits. */
  method ParseSize(src: seq<byte>) returns (r: Option<(u32, nat)>)
    ensures r == match ParseVar(src, 5) { case None => None case Some((v, used)) => Some((v % 0x1_0000_0000, used)) }
  {
    hide ParseVar, Resume, Scaled;
    assert src[0..] == src;
    var i: nat, mark: nat, scale: nat := 0, 0, 1;
    ResumeStart(ParseVar(src, 5));
    while i < 5
      invariant 0 <= i <= 5 && i <= |src|
      invariant ParseVar(src, 5) == Resume(mark, scale, i, ParseVar(src[i..], 5 - i))
    {
      ParseVarStep(src, i);
      if i >= |src| {
        ResumeNone(mark, scale, i);
        return None;
      }
      var b: nat := src[i];
      var part: nat, left: nat := Scaled(b % 128, scale), Scaled(128, scale);
      if b < 128 {
        ResumeLast(mark, scale, i, b);
        return Some(((mark + part) % 0x1_0000_0000, i + 1));
      }
      ResumeNext(mark, scale, i, b - 128, ParseVar(src[i + 1..], 4 - i));
      mark, scale, i := mark + part, left, i + 1;
    }
    NothingAfterFive(src, i);
    ResumeNone(mark, scale, i);
    return None;
  }

  /** Stores four bytes of a run; those beyond `cnt` are overwritten later. */
  method Fill(out: array<byte>, dest: nat, ch: byte, cnt: nat)
    requires 1 <= cnt <= 4 && dest + 4 <= out.Length
    modifies out
    ensures out[..dest + cnt] == old(out[..dest]) + Repeated(ch, cnt)
  {
    ghost var before := out[..dest];
    forall i | dest <= i < dest + 4 { out[i] := ch; }
    assert out[..dest] == before;
    assert out[dest..dest + cnt] == Repeated(ch, cnt);
    assert out[..dest + cnt] == out[..dest] + out[dest..dest + cnt];
  }

  /**
   What became of a token, or of the whole stream: unpacked, refused by a bound test, or
   stored outside the buffer.
   */
  datatype Step = Unpacks | Refuses | Leaves

  /** The number of bytes stored for a token. */
  function Covered(mark: nat, s: seq<byte>): nat {
    if mark >= 8 then 4 else if mark == 0 then 0 else if |s| >= 8 then 8 else mark
  }

  /** A token that passes the bound tests is stored beyond the `free` bytes left in the buffer. */
  predicate StoredOutside(mark: nat, s: seq<byte>, room: nat, free: int)
    requires mark < 16
  {
    Unpack(mark, s, room).Some? && Covered(mark, s) > free
  }

  /** Some token of the stream is. */
  predicate Overruns(s: seq<byte>, room: nat, free: int)
    decreases |s|
  {
    s != [] &&
    (|| StoredOutside(s[0] % 16, s[1..], room, free)
     || match Unpack(s[0] % 16, s[1..], room)
        case None => false
        case Some((a, i)) =>
          || StoredOutside(s[0] / 16, s[1 + i..], room - |a|, free - |a|)
          || match Unpack(s[0] / 16, s[1 + i..], room - |a|)
             case None => false
             case Some((b, k)) => Overruns(s[1 + i + k..], room - |a| - |b|, free - |a| - |b|))
  }

  /** The closure `unpack`: one token, with a store of four or eight bytes. */
  method UnpackToken(mark: nat, src: seq<byte>, i: nat, out: array<byte>, dest: nat, tail: nat)
    returns (step: Step, i': nat, dest': nat)
    requires mark < 16 && i <= |src| && dest <= tail && dest <= out.Length
    modifies out
    ensures step.Leaves? <==> StoredOutside(mark, src[i..], tail - dest, out.Length - dest)
    ensures var r := Unpack(mark, src[i..], tail - dest);
            && (step.Refuses? <==> r.None?)
            && (step.Unpacks? ==> i' == i + r.value.1 <= |src| && dest' == dest + |r.value.0| <= tail
                                  && dest' <= out.Length
                                  && out[..dest'] == old(out[..dest]) + r.value.0)
  {
    i', dest' := i, dest;
    if mark >= 8 {
      var cnt := mark % 4 + 1;
      if dest + cnt > tail { return Refuses, i, dest; }
      if dest + 4 > out.Length { return Leaves, i, dest; }
      Fill(out, dest, if mark / 4 % 2 == 1 then 255 else 0, cnt);
      dest' := dest + cnt;
    } else if mark != 0 {
      if i + mark > |src| || dest + mark > tail { return Refuses, i, dest; }
      if dest + (if i + 8 <= |src| then 8 else mark) > out.Length { return Leaves, i, dest; }
      assert src[i..i + mark] == src[i..][..mark];
      dest' := Copy(out, dest, src, i, mark);
      i' := i + mark;
    } else {
      assert out[..dest] + [] == out[..dest];
    }
    step := Unpacks;
  }

  lemma OverrunPair(src: seq<byte>, i: nat, room: nat, free: int)
    requires i < |src|
    ensures var x := Unpack(src[i] % 16, src[i + 1..], room);
            && (StoredOutside(src[i] % 16, src[i + 1..], room, free) ==> Overruns(src[i..], room, free))
            && (x.None? ==> !Overruns(src[i..], room, free))
            && (x.Some? && !StoredOutside(src[i] % 16, src[i + 1..], room, free) ==>
                  var a := |x.value.0|;
                  var k := i + 1 + x.value.1;
                  var y := Unpack(src[i] / 16, src[k..], room - a);
                  && (StoredOutside(src[i] / 16, src[k..], room - a, free - a) ==> Overruns(src[i..], room, free))
                  && (y.None? ==> !Overruns(src[i..], room, free))
                  && (y.Some? && !StoredOutside(src[i] / 16, src[k..], room - a, free - a) ==>
                        (Overruns(src[i..], room, free)
                         <==> Overruns(src[k + y.value.1..], room - a - |y.value.0|, free - a - |y.value.0|))))
  {
    hide Unpack, Covered;
    var s := src[i..];
    assert s[0] == src[i] && s[1..] == src[i + 1..];
    UnpackUsed(src[i] % 16, src[i + 1..], room);
    var x := Unpack(src[i] % 16, src[i + 1..], room);
    if x.Some? {
      var k := i + 1 + x.value.1;
      assert s[1 + x.value.1..] == src[k..];
      UnpackUsed(src[i] / 16, src[k..], room - |x.value.0|);
      var y := Unpack(src[i] / 16, src[k..], room - |x.value.0|);
      if y.Some? { assert s[1 + x.value.1 + y.value.1..] == src[k + y.value.1..]; }
    }
  }

  /** The outcome of the main loop when `done` has been produced and `rest` is left. */
  function Continued(done: seq<byte>, rest: Option<seq<byte>>): Option<seq<byte>> {
    match rest
    case None => None
    case Some(more) => Some(done + more)
  }

  lemma TokenPair(src: seq<byte>, i: nat, room: nat)
    requires i < |src|
    ensures var x := Unpack(src[i] % 16, src[i + 1..], room);
            && (x.None? ==> Unpacked(src[i..], room) == None)
            && (x.Some? ==>
                  var y := Unpack(src[i] / 16, src[i + 1 + x.value.1..], room - |x.value.0|);
                  && (y.None? ==> Unpacked(src[i..], room) == None)
                  && (y.Some? ==>
                        var k := i + 1 + x.value.1 + y.value.1;
                        k <= |src| && Unpacked(src[i..], room) == Continued(x.value.0 + y.value.0, Unpacked(src[k..],
                              room - |x.value.0| - |y.value.0|))))
  {
    hide Unpack, Unpacked;
    var s := src[i..];
    assert s[0] == src[i] && s[1..] == src[i + 1..];
    UnpackUsed(src[i] % 16, src[i + 1..], room);
    UnpackedStep(s, room);
    var x := Unpack(src[i] % 16, src[i + 1..], room);
    if x.Some? {
      assert s[1 + x.value.1..] == src[i + 1 + x.value.1..];
      UnpackUsed(src[i] / 16, src[i + 1 + x.value.1..], room - |x.value.0|);
      var y := Unpack(src[i] / 16, src[i + 1 + x.value.1..], room - |x.value.0|);
      if y.Some? { assert s[1 + x.value.1 + y.value.1..] == src[i + 1 + x.value.1 + y.value.1..]; }
    }
  }

  lemma UnpackUsed(mark: nat, s: seq<byte>, room: nat)
    requires mark < 16
    ensures var r := Unpack(mark, s, room); r.Some? ==> |r.value.0| <= room && r.value.1 <= |s|
  {
  }

  lemma UnpackedStep(s: seq<byte>, room: nat)
    requires s != []
    ensures var x := Unpack(s[0] % 16, s[1..], room);
            Unpacked(s, room) ==
              if x.None? then None
              else
                var y := Unpack(s[0] / 16, s[1 + x.value.1..], room - |x.value.0|);
                if y.None? then None
                else Continued(x.value.0 + y.value.0,
                               Unpacked(s[1 + x.value.1 + y.value.1..], room - |x.value.0| - |y.value.0|))
  {
    hide Unpack;
    UnpackUsed(s[0] % 16, s[1..], room);
    var x := Unpack(s[0] % 16, s[1..], room);
    if x.Some? { UnpackUsed(s[0] / 16, s[1 + x.value.1..], room - |x.value.0|); }
  }

  lemma ContinuedTwice(done: seq<byte>, more: seq<byte>, rest: Option<seq<byte>>)
    ensures Continued(done, Continued(more, rest)) == Continued(done + more, rest)
  {
    if rest.Some? { Assoc(done, more, rest.value); }
  }

  /** What the stream stands for. */
  function Decompressed(src: seq<byte>): Option<seq<byte>> {
    if src == [] then Some([])
    else
      match ParseVar(src, 5)
      case None => None
      case Some((v, used)) =>
        var size := v % 0x1_0000_0000;
        match Unpacked(src[used..], size)
        case None => None
        case Some(bytes) => if |bytes| == size then Some(bytes) else None
  }

  /** The outcome of Decompress; after a store outside the buffer nothing is known. */
  datatype Decoding = Decoded(bytes: seq<byte>) | Failed | Overrun

  /** `size+7` in 32 bits. */
  function RoomFor(size: nat): nat { (size + 7) % 0x1_0000_0000 }

  /** What Decompress computes. */
  function Decoding32(src: seq<byte>): Decoding {
    if src == [] then Decoded([])
    else
      match ParseVar(src, 5)
      case None => Failed
      case Some((v, used)) =>
        var size := v % 0x1_0000_0000;
        if Overruns(src[used..], size, RoomFor(size)) then Overrun
        else
          match Unpacked(src[used..], size)
          case None => Failed
          case Some(bytes) => if |bytes| == size then Decoded(bytes) else Failed
  }

  /** The main loop of Decompress. */
  method UnpackAll(src: seq<byte>, start: nat, size: nat, out: array<byte>) returns (step: Step, dest: nat)
    requires start <= |src|
    modifies out
    ensures step.Leaves? <==> Overruns(src[start..], size, out.Length)
    ensures !step.Leaves? ==> (step.Refuses? <==> Unpacked(src[start..], size).None?)
    ensures step.Unpacks? ==> dest <= size && dest <= out.Length && Unpacked(src[start..], size) == Some(out[..dest])
  {
    hide Unpack, Unpacked, StoredOutside, Overruns;
    var i := start;
    dest := 0;
    ContinuedNone(Unpacked(src[start..], size));
    while i < |src|
      invariant start <= i <= |src| && 0 <= dest <= size && dest <= out.Length
      invariant Unpacked(src[start..], size) == Continued(out[..dest], Unpacked(src[i..], size - dest))
      invariant Overruns(src[start..], size, out.Length) <==> Overruns(src[i..], size - dest, out.Length - dest)
      decreases |src| - i
    {
      var mark := src[i];
      ghost var done := out[..dest];
      TokenPair(src, i, size - dest);
      OverrunPair(src, i, size - dest, out.Length - dest);
      var k: nat, d: nat;
      step, k, d := UnpackToken(mark % 16, src, i + 1, out, dest, size);
      if !step.Unpacks? { return; }
      ghost var a := Unpack(mark % 16, src[i + 1..], size - dest).value.0;
      ghost var room := size - dest;
      step, i, dest := UnpackToken(mark / 16, src, k, out, d, size);
      if !step.Unpacks? { return; }
      ghost var b := Unpack(mark / 16, src[k..], room - |a|).value.0;
      ContinuedTwice(done, a + b, Unpacked(src[i..], size - dest));
      assert done + a + b == done + (a + b);
    }
    AllConsumed(src, i, size - dest, out[..dest]);
    NoneLeft(src, i, size - dest, out.Length - dest);
    step := Unpacks;
  }

  lemma NoneLeft(src: seq<byte>, i: nat, room: nat, free: int)
    requires i == |src|
    ensures !Overruns(src[i..], room, free)
  {
  }

  lemma ContinuedNone(r: Option<seq<byte>>)
    ensures Continued([], r) == r
  {
    if r.Some? { assert [] + r.value == r.value; }
  }

  lemma AllConsumed(src: seq<byte>, i: nat, room: nat, done: seq<byte>)
    requires i == |src|
    ensures Continued(done, Unpacked(src[i..], room)) == Some(done)
  {
    assert src[i..] == [] && done + [] == done;
  }

  /** Decompress, up to the first store outside the buffer. */
  method Decompress(src: seq<byte>) returns (r: Decoding)
    ensures r == Decoding32(src)
  {
    hide ParseVar, Unpacked, Overruns;
    if |src| == 0 { return Decoded([]); }
    var header := ParseSize(src);
    if header.None? { return Failed; }
    HeaderUsed(src);
    var size, used := header.value.0, header.value.1;
    var out := new byte[RoomFor(size)];
    var step, dest := UnpackAll(src, used, size, out);
    match step
    case Leaves => return Overrun;
    case Refuses => return Failed;
    case Unpacks => return if dest == size then Decoded(out[..dest]) else Failed;
  }

  /** The size that the header announces. */
  function Announced(src: seq<byte>): nat {
    match ParseVar(src, 5)
    case None => 0
    case Some((v, _)) => v % 0x1_0000_0000
  }

  /** With seven spare bytes no store leaves the buffer. */
  lemma {:induction false} SpareBytesSuffice(s: seq<byte>, room: nat, free: int)
    requires free >= room + 7
    ensures !Overruns(s, room, free)
    decreases |s|
  {
    hide Unpack, StoredOutside;
    if s != [] {
      TokenInside(s[0] % 16, s[1..], room, free);
      var x := Unpack(s[0] % 16, s[1..], room);
      if x.Some? {
        TokenInside(s[0] / 16, s[1 + x.value.1..], room - |x.value.0|, free - |x.value.0|);
        var y := Unpack(s[0] / 16, s[1 + x.value.1..], room - |x.value.0|);
        if y.Some? {
          SpareBytesSuffice(s[1 + x.value.1 + y.value.1..], room - |x.value.0| - |y.value.0|,
                            free - |x.value.0| - |y.value.0|);
        }
      }
    }
  }

  lemma TokenInside(mark: nat, s: seq<byte>, room: nat, free: int)
    requires mark < 16 && free >= room + 7
    ensures !StoredOutside(mark, s, room, free)
  {
  }

  /** Whatever is unpacked without leaving the buffer fits into it. */
  lemma {:induction false} UnpackedInside(s: seq<byte>, room: nat, free: int)
    requires free >= 0 && !Overruns(s, room, free)
    ensures Unpacked(s, room).Some? ==> |Unpacked(s, room).value| <= free
    decreases |s|
  {
    hide Unpack, StoredOutside;
    if s != [] {
      TokenFits(s[0] % 16, s[1..], room, free);
      var x := Unpack(s[0] % 16, s[1..], room);
      if x.Some? {
        TokenFits(s[0] / 16, s[1 + x.value.1..], room - |x.value.0|, free - |x.value.0|);
        var y := Unpack(s[0] / 16, s[1 + x.value.1..], room - |x.value.0|);
        if y.Some? {
          UnpackedInside(s[1 + x.value.1 + y.value.1..], room - |x.value.0| - |y.value.0|,
                         free - |x.value.0| - |y.value.0|);
        }
      }
    }
  }

  lemma TokenFits(mark: nat, s: seq<byte>, room: nat, free: int)
    requires mark < 16 && free >= 0 && !StoredOutside(mark, s, room, free)
    ensures var r := Unpack(mark, s, room); r.Some? ==> |r.value.0| <= free
  {
  }

  /**
   Up to an announced size of 2^32 - 8 Decompress restores exactly what the
   stream stands for, and fails on every other input.  Beyond it the sum
   `size+7` wraps to at most six bytes, and no input is restored.
   */
  lemma DecompressExactly(src: seq<byte>)
    ensures Announced(src) <= 0xffff_fff8 ==>
              Decoding32(src) == match Decompressed(src) { case None => Failed case Some(bytes) => Decoded(bytes) }
    ensures Announced(src) > 0xffff_fff8 ==> !Decoding32(src).Decoded?
  {
    hide ParseVar, Unpacked, Overruns;
    var header := ParseVar(src, 5);
    if src != [] && header.Some? {
      var size, rest := header.value.0 % 0x1_0000_0000, src[header.value.1..];
      if size <= 0xffff_fff8 {
        SpareBytesSuffice(rest, size, RoomFor(size));
      } else if !Overruns(rest, size, RoomFor(size)) {
        UnpackedInside(rest, size, RoomFor(size));
      }
    }
  }

  /** What follows a complete header does not change it. */
  lemma {:induction false} HeaderExtends(header: seq<byte>, k: nat, rest: seq<byte>)
    requires ParseVar(header, k).Some?
    ensures ParseVar(header + rest, k) == ParseVar(header, k)
  {
    if header[0] >= 128 {
      HeaderExtends(header[1..], k - 1, rest);
      assert (header + rest)[1..] == header[1..] + rest;
    }
  }

  /** Two runs of four zero bytes leave every buffer of up to six bytes. */
  lemma TwoRunsOverrun(room: nat, free: nat)
    requires free <= 6 && room >= 8
    ensures Overruns([0xbb], room, free)
  {
    var s: seq<byte> := [0xbb];
    assert s[0] % 16 == 11 && s[0] / 16 == 11;
    var x := Unpack(11, s[1..], room);
    assert |x.value.0| == 4 && x.value.1 == 0;
    assert StoredOutside(11, s[1..], room - 4, free - 4);
  }

  /** A header is safe before every token stream if and only if it announces at most 2^32 - 8 bytes. */
  lemma StoresStayInside(header: seq<byte>)
    requires ParseVar(header, 5).Some? && ParseVar(header, 5).value.1 == |header|
    ensures (forall tokens: seq<byte> :: Decoding32(header + tokens) != Overrun) <==> Announced(header) <= 0xffff_fff8
  {
    hide ParseVar, Unpacked, Overruns, Decompressed;
    var size := Announced(header);
    forall tokens: seq<byte> ensures Announced(header + tokens) == size {
      HeaderExtends(header, 5, tokens);
    }
    if size <= 0xffff_fff8 {
      forall tokens: seq<byte> ensures Decoding32(header + tokens) != Overrun { DecompressExactly(header + tokens); }
    } else {
      HeaderExtends(header, 5, [0xbb]);
      TwoRunsOverrun(size, RoomFor(size));
      assert (header + [0xbb])[|header|..] == [0xbb];
      assert Decoding32(header + [0xbb]) == Overrun;
    }
  }

  /** The header ff ff ff ff 0f announces 2^32 - 1 bytes, for which six are reserved. */
  lemma WrappedHeaderOverruns()
    ensures Announced([0xff, 0xff, 0xff, 0xff, 0x0f]) == 0xffff_ffff && RoomFor(0xffff_ffff) == 6
    ensures Decoding32([0xff, 0xff, 0xff, 0xff, 0x0f] + [0xbb]) == Overrun
  {
    hide Unpacked, Overruns;
    var header: seq<byte> := [0xff, 0xff, 0xff, 0xff, 0x0f];
    assert VarInt(0xffff_ffff) == header by { LastHeader(); }
    Pow128Known();
    VarIntRoundTrip(0xffff_ffff, 5, []);
    assert header + [] == header;
    HeaderExtends(header, 5, [0xbb]);
    TwoRunsOverrun(0xffff_ffff, 6);
    assert (header + [0xbb])[5..] == [0xbb];
  }

  lemma LastHeader()
    ensures VarInt(0xffff_ffff) == [0xff, 0xff, 0xff, 0xff, 0x0f]
  {
    assert VarInt(15) == [15];
    assert VarInt(0x7ff) == [0xff] + VarInt(15);
    assert VarInt(0x3_ffff) == [0xff] + VarInt(0x7ff);
    assert VarInt(0x1ff_ffff) == [0xff] + VarInt(0x3_ffff);
    assert VarInt(0xffff_ffff) == [0xff] + VarInt(0x1ff_ffff);
  }

  lemma HeaderUsed(src: seq<byte>)
    ensures var r := ParseVar(src, 5); r.Some? ==> r.value.1 <= |src|
  {
  }

  /** Decompress restores every byte string of up to 2^32 - 8 bytes from what Compress makes of it. */
  lemma CompressRoundTrip(src: seq<byte>)
    requires |src| <= 0xffff_fff8
    ensures Decoding32(if src == [] then [] else VarInt(|src|) + Pack(src)) == Decoded(src)
  {
    hide Pack, Unpacked, ParseVar, VarInt, Pow128, Decoding32;
    if src == [] {
      NothingDecoded();
    } else {
      HeaderNonEmpty(|src|);
      Pow128Known();
      VarIntRoundTrip(|src|, 5, Pack(src));
      SliceFront(VarInt(|src|), Pack(src));
      PackRoundTrip(src, |src|);
      DecompressedBy(VarInt(|src|) + Pack(src), |VarInt(|src|)|, src);
    }
  }

  lemma DecompressedBy(stream: seq<byte>, used: nat, bytes: seq<byte>)
    requires stream != [] && |bytes| <= 0xffff_fff8 && used <= |stream|
    requires ParseVar(stream, 5) == Some((|bytes|, used)) && Unpacked(stream[used..], |bytes|) == Some(bytes)
    ensures Decoding32(stream) == Decoded(bytes)
  {
    hide ParseVar, Unpacked, Decoding32;
    DecompressExactly(stream);
  }

  lemma NothingDecoded()
    ensures Decoding32([]) == Decoded([])
  {
  }

  lemma HeaderNonEmpty(n: nat)
    ensures VarInt(n) != []
  {
  }
}
