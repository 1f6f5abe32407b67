/**
 The word-parallel counters of the readers: Count32, Count64
 (include/protocache/access.h) and CountValidSlot (src/perfect_hash.cc).

 Words are naturals; `&` is the recursive function And and `>>` is division by
 a power of two.  Each counter is proved equal to a plain sum over the 2-bit
 fields of its argument.
 */
module Swar {

  /** Bitwise conjunction of naturals. */
  function And(x: nat, y: nat): nat {
    if x == 0 || y == 0 then 0
    else (if x % 2 == 1 && y % 2 == 1 then 1 else 0) + 2 * And(x / 2, y / 2)
  }

  function Count32(v: nat): int {
    var v := And(v, 0x3333_3333) + And(v / 4, 0x3333_3333);
    var v := v + v / 16;
    var v := And(v, 0x0f0f_0f0f) + And(v / 0x100, 0x0f0f_0f0f);
    var v := v + v / 0x1_0000;
    v % 0x100
  }

  function Count64(v: nat): int {
    var v := And(v, 0x3333_3333_3333_3333) + And(v / 4, 0x3333_3333_3333_3333);
    var v := v + v / 16;
    var v := And(v, 0x0f0f_0f0f_0f0f_0f0f) + And(v / 0x100, 0x0f0f_0f0f_0f0f_0f0f);
    var v := v + v / 0x1_0000;
    var v := v + v / 0x1_0000_0000;
    v % 0x100
  }

  function CountValidSlot(v: nat): int {
    var v := And(v, v / 2);
    var v := And(v, 0x1111_1111_1111_1111) + And(v / 4, 0x1111_1111_1111_1111);
    var v := v + v / 16;
    var v := v + v / 0x100;
    var v := And(v, 0x0f0f_0f0f_0f0f_0f0f) + And(v / 0x1_0000, 0x0f0f_0f0f_0f0f_0f0f);
    var v := v + v / 0x1_0000_0000;
    32 - v % 0x100
  }

  // ---------------------------------------------------------------------
  // Two-bit fields
  // ---------------------------------------------------------------------

  /** The lowest `k` two-bit fields of `v`. */
  function Fields(v: nat, k: nat): (r: seq<nat>)
    ensures |r| == k && forall i | 0 <= i < k :: r[i] < 4
    decreases k
  {
    if k == 0 then [] else [v % 4] + Fields(v / 4, k - 1)
  }

  function Sum(s: seq<nat>): nat {
    if s == [] then 0 else s[0] + Sum(s[1..])
  }

  /** How many fields are not `11`. */
  function CountNot3(s: seq<nat>): nat {
    if s == [] then 0 else (if s[0] != 3 then 1 else 0) + CountNot3(s[1..])
  }

  // ---------------------------------------------------------------------
  // Conjunction with a periodic mask
  // ---------------------------------------------------------------------

  lemma AndBit(a: nat, b: nat, x: nat, y: nat)
    requires a < 2 && b < 2
    ensures And(a + 2 * x, b + 2 * y) == (if a == 1 && b == 1 then 1 else 0) + 2 * And(x, y)
  {
    var p, q := a + 2 * x, b + 2 * y;
    assert p % 2 == a && p / 2 == x && q % 2 == b && q / 2 == y;
  }

  lemma AndZero()
    ensures And(0, 0) == 0
  {
  }

  lemma AndZeroRight(x: nat)
    ensures And(x, 0) == 0
  {
  }

  lemma Bits(n: nat) returns (a: nat, b: nat, c: nat, d: nat)
    requires n < 16
    ensures a < 2 && b < 2 && c < 2 && d < 2 && n == a + 2 * (b + 2 * (c + 2 * d))
  {
    a, b, c, d := n % 2, n / 2 % 2, n / 4 % 2, n / 8;
  }

  /** Conjunction works nibble by nibble. */
  lemma AndNibble(m: nat, n: nat, x: nat, y: nat)
    requires m < 16 && n < 16
    ensures And(m + 16 * x, n + 16 * y) == And(m, n) + 16 * And(x, y)
  {
    hide And;
    var a, b, c, d := Bits(m);
    var e, f, g, h := Bits(n);
    assert And(0, 0) == 0 by { AndZero(); }
    AndBit(d, h, x, y);
    AndBit(c, g, d + 2 * x, h + 2 * y);
    AndBit(b, f, c + 2 * (d + 2 * x), g + 2 * (h + 2 * y));
    AndBit(a, e, b + 2 * (c + 2 * (d + 2 * x)), f + 2 * (g + 2 * (h + 2 * y)));
    AndBit(d, h, 0, 0);
    AndBit(c, g, d, h);
    AndBit(b, f, c + 2 * d, g + 2 * h);
    AndBit(a, e, b + 2 * (c + 2 * d), f + 2 * (g + 2 * h));
  }

  lemma AndSmall(x: nat)
    requires x < 16
    ensures And(x, 1) == x % 2 && And(x, 3) == x % 4 && And(x, 15) == x
  {
    hide And;
    var a, b, c, d := Bits(x);
    AndFifteen(a, b, c, d);
    AndZeroRight(c + 2 * d);
    AndZeroRight(b + 2 * (c + 2 * d));
    AndBit(b, 1, c + 2 * d, 0);
    AndBit(a, 1, b + 2 * (c + 2 * d), 1);
    AndBit(a, 1, b + 2 * (c + 2 * d), 0);
  }

  lemma AndFifteen(a: nat, b: nat, c: nat, d: nat)
    requires a < 2 && b < 2 && c < 2 && d < 2
    ensures var x := a + 2 * (b + 2 * (c + 2 * d)); And(x, 15) == x
  {
    hide And;
    AndZero();
    AndBit(d, 1, 0, 0);
    AndBit(c, 1, d, 1);
    AndBit(b, 1, c + 2 * d, 3);
    AndBit(a, 1, b + 2 * (c + 2 * d), 7);
  }

  // ---------------------------------------------------------------------
  // Periodic masks and positional values
  // ---------------------------------------------------------------------

  /** `c` in each of `k` nibbles. */
  function Rep16(c: nat, k: nat): nat {
    if k == 0 then 0 else c + 16 * Rep16(c, k - 1)
  }

  /** `c` in each of `k` bytes. */
  function Rep256(c: nat, k: nat): nat {
    if k == 0 then 0 else c + 256 * Rep256(c, k - 1)
  }

  lemma Masks()
    ensures Rep16(3, 8) == 0x3333_3333 && Rep16(3, 16) == 0x3333_3333_3333_3333
    ensures Rep16(1, 16) == 0x1111_1111_1111_1111
    ensures Rep256(15, 4) == 0x0f0f_0f0f && Rep256(15, 8) == 0x0f0f_0f0f_0f0f_0f0f
  {
    assert Rep16(3, 4) == 0x3333;
    assert Rep16(3, 8) == 0x3333_3333;
    assert Rep16(3, 12) == 0x3333_3333_3333;
    assert Rep16(1, 4) == 0x1111;
    assert Rep16(1, 8) == 0x1111_1111;
    assert Rep16(1, 12) == 0x1111_1111_1111;
    assert Rep256(15, 4) == 0x0f0f_0f0f;
  }

  function Val16(s: seq<nat>): nat {
    if s == [] then 0 else s[0] + 16 * Val16(s[1..])
  }

  function Val256(s: seq<nat>): nat {
    if s == [] then 0 else s[0] + 256 * Val256(s[1..])
  }

  lemma ValCons(a: nat, t: seq<nat>)
    ensures Val16([a] + t) == a + 16 * Val16(t) && Val256([a] + t) == a + 256 * Val256(t)
    ensures Sum([a] + t) == a + Sum(t)
  {
    assert ([a] + t)[1..] == t;
  }

  /** Sums of adjacent two-bit fields, one per nibble. */
  function NibbleSums(v: nat, k: nat): (r: seq<nat>)
    ensures |r| == k && forall i | 0 <= i < k :: r[i] <= 6
    decreases k
  {
    if k == 0 then [] else [v % 4 + v / 4 % 4] + NibbleSums(v / 16, k - 1)
  }

  lemma TwoFields(v: nat, i: nat)
    ensures Fields(v, 2 * (i + 1)) == [v % 4] + ([v / 4 % 4] + Fields(v / 16, 2 * i))
  {
    assert v / 4 / 4 == v / 16;
    assert Fields(v, 2 * i + 2) == [v % 4] + Fields(v / 4, 2 * i + 1);
  }

  lemma {:induction false} NibbleSumsTotal(v: nat, k: nat)
    ensures Sum(NibbleSums(v, k)) == Sum(Fields(v, 2 * k))
    decreases k
  {
    if k > 0 {
      var rest, i := v / 16, k - 1;
      NibbleSumsTotal(rest, i);
      TwoFields(v, i);
      hide Fields;
      ValCons(v % 4 + v / 4 % 4, NibbleSums(rest, i));
      ValCons(v / 4 % 4, Fields(rest, 2 * i));
      ValCons(v % 4, [v / 4 % 4] + Fields(rest, 2 * i));
    }
  }

  lemma MaskFields(v: nat, k: nat)
    ensures And(v, Rep16(3, k + 1)) == v % 4 + 16 * And(v / 16, Rep16(3, k))
  {
    hide And;
    var low, rest := v % 16, v / 16;
    AndNibble(low, 3, rest, Rep16(3, k));
    AndSmall(low);
    assert low % 4 == v % 4;
  }

  /** First step of Count32 and Count64: adjacent two-bit fields are added into nibbles. */
  lemma {:induction false} AddFieldPairs(v: nat, k: nat)
    ensures And(v, Rep16(3, k)) + And(v / 4, Rep16(3, k)) == Val16(NibbleSums(v, k))
    decreases k
  {
    if k == 0 {
      AndZeroRight(v);
      AndZeroRight(v / 4);
    } else {
      hide And;
      var rest, i := v / 16, k - 1;
      AddFieldPairs(rest, i);
      MaskFields(v, i);
      MaskFields(v / 4, i);
      assert v / 4 / 16 == rest / 4;
      ValCons(v % 4 + v / 4 % 4, NibbleSums(rest, i));
    }
  }

  /** Every digit plus the digit `d` places higher. */
  function Slide(s: seq<nat>, d: nat): (r: seq<nat>)
    ensures |r| == |s|
    ensures forall i {:trigger r[i]} | 0 <= i < |s| :: r[i] == s[i] + if i + d < |s| then s[i + d] else 0
  {
    seq(|s|, i requires 0 <= i < |s| => s[i] + if i + d < |s| then s[i + d] else 0)
  }

  function Evens(s: seq<nat>): (r: seq<nat>)
    ensures |r| == |s| / 2 && forall i | 0 <= i < |r| :: r[i] == s[2 * i]
  {
    seq(|s| / 2, i requires 0 <= i < |s| / 2 => s[2 * i])
  }

  ghost predicate Below(s: seq<nat>, c: nat) {
    forall i | 0 <= i < |s| :: s[i] < c
  }

  function Low(s: seq<nat>, d: nat): nat {
    if d < |s| then s[d] else 0
  }

  /** Dropping the lowest digit. */
  lemma ShiftDigit(s: seq<nat>)
    requires Below(s, 16)
    ensures Val16(s) % 16 == Low(s, 0)
    ensures Val16(s) / 16 == if s == [] then 0 else Val16(s[1..])
  {
    if s != [] {
      ValHead(s);
      hide Val16;
      DivDigit(Val16(s), s[0], Val16(s[1..]));
    }
  }

  lemma ValHead(s: seq<nat>)
    requires s != []
    ensures Val16(s) == s[0] + 16 * Val16(s[1..])
  {
  }

  lemma DivDigit(n: nat, a: nat, T: nat)
    requires a < 16 && n == a + 16 * T
    ensures n % 16 == a && n / 16 == T
  {
  }

  lemma SlideCons(s: seq<nat>, d: nat)
    requires s != []
    ensures d > 0 ==> Slide(s, d) == [s[0] + Low(s, d)] + Slide(s[1..], d)
    ensures s == [s[0]] + s[1..]
  {
    if d > 0 {
      var a, t := Slide(s, d), s[1..];
      var rest := Slide(t, d);
      forall i | 0 <= i < |rest| ensures a[i + 1] == rest[i] {
        assert t[i] == s[i + 1];
        assert i + 1 + d < |s| ==> t[i + d] == s[i + 1 + d];
      }
      assert a == [a[0]] + rest;
    }
  }

  /** Adding a number to itself shifted by one nibble. */
  lemma {:induction false} ShiftAdd1(s: seq<nat>)
    requires Below(s, 16)
    ensures Val16(s) + Val16(s) / 16 == Val16(Slide(s, 1))
  {
    if s == [] {
      assert Slide(s, 1) == [];
    } else {
      var t := s[1..];
      ShiftAdd1(t);
      ShiftDigit(s);
      ShiftDigit(t);
      SlideCons(s, 1);
      ValCons(s[0], t);
      ValCons(s[0] + Low(s, 1), Slide(t, 1));
      hide Val16;
      var T := Val16(t);
      assert T == Low(s, 1) + 16 * (T / 16);
    }
  }

  /** Adding a number to itself shifted by two nibbles. */
  lemma {:induction false} ShiftAdd2(s: seq<nat>)
    requires Below(s, 16)
    ensures Val16(s) + Val16(s) / 256 == Val16(Slide(s, 2))
  {
    if s == [] {
      assert Slide(s, 2) == [];
    } else {
      var t := s[1..];
      ShiftAdd2(t);
      ShiftDigit(s);
      ShiftDigit(t);
      if t != [] { ShiftDigit(t[1..]); }
      SlideCons(s, 2);
      ValCons(s[0], t);
      ValCons(s[0] + Low(s, 2), Slide(t, 2));
      TwoShifts(Val16(s));
      TwoShifts(Val16(t));
      hide Val16;
      var T := Val16(t);
      assert T / 16 == Low(s, 2) + 16 * (T / 16 / 16);
    }
  }

  lemma AndByte(m: nat, n: nat, r: nat, k: nat)
    requires m < 16 && n < 16 && k > 0
    ensures And(m + 16 * (n + 16 * r), Rep256(15, k)) == m + 256 * And(r, Rep256(15, k - 1))
  {
    hide And;
    AndNibble(n, 0, r, Rep256(15, k - 1));
    AndNibble(m, 15, n + 16 * r, 16 * Rep256(15, k - 1));
    AndZeroRight(n);
    AndSmall(m);
  }

  lemma AndZeroLeft(y: nat)
    ensures And(0, y) == 0
  {
  }

  /** Masking with 0x0f0f... keeps the even nibbles as bytes. */
  lemma {:induction false} MaskBytes(s: seq<nat>, k: nat)
    requires Below(s, 16) && |s| % 2 == 0 && |s| <= 2 * k
    ensures And(Val16(s), Rep256(15, k)) == Val256(Evens(s))
    decreases |s|
  {
    if s == [] {
      AndZeroLeft(Rep256(15, k));
    } else {
      hide And;
      var t := s[2..];
      MaskBytes(t, k - 1);
      assert s[1..][1..] == t;
      assert Val16(s) == s[0] + 16 * (s[1] + 16 * Val16(t));
      AndByte(s[0], s[1], Val16(t), k);
      assert Evens(s) == [s[0]] + Evens(t);
      ValCons(s[0], Evens(t));
    }
  }

  lemma Val256Of4(t: seq<nat>)
    requires |t| == 4
    ensures Val256(t) == t[0] + 0x100 * t[1] + 0x1_0000 * t[2] + 0x100_0000 * t[3]
    ensures Val256(t[1..]) == t[1] + 0x100 * t[2] + 0x1_0000 * t[3]
  {
    assert Val256(t) == t[0] + 256 * Val256(t[1..]);
    assert Val256(t[1..]) == t[1] + 256 * Val256(t[2..]) by { assert t[1..][1..] == t[2..]; }
    assert Val256(t[2..]) == t[2] + 256 * Val256(t[3..]) by { assert t[2..][1..] == t[3..]; }
    assert Val256(t[3..]) == t[3] by { assert t[3..][1..] == []; }
  }

  /** The last steps of Count32, on four byte counters. */
  lemma FoldBytes4(a: nat, b: nat, c: nat, d: nat)
    requires a <= 12 && b <= 12 && c <= 12 && d <= 12
    ensures var w := (a + b) + 0x100 * (b + c) + 0x1_0000 * (c + d) + 0x100_0000 * d;
            (w + w / 0x1_0000) % 0x100 == a + b + c + d
  {
    var w := (a + b) + 0x100 * (b + c) + 0x1_0000 * (c + d) + 0x100_0000 * d;
    assert w / 0x1_0000 == (c + d) + 0x100 * d;
  }

  /** Byte counters of the second step: every byte holds four adjacent fields. */
  lemma ByteCounters(s: seq<nat>, k: nat) returns (t: seq<nat>)
    requires Below(s, 7) && |s| == 2 * k && k > 0
    ensures |t| == k && forall j | 0 <= j < k :: t[j] == s[2 * j] + s[2 * j + 1]
    ensures var y := Val16(s) + Val16(s) / 16;
            && And(y, Rep256(15, k)) == Val256(t)
            && And(y / 0x100, Rep256(15, k)) == Val256(t[1..])
  {
    hide And, Val16, Val256, Rep256;
    var d := Slide(s, 1);
    ShiftAdd1(s);
    MaskBytes(d, k);
    t := Evens(d);
    ShiftTwoDigits(d);
    MaskBytes(d[2..], k);
    assert Evens(d[2..]) == t[1..];
  }

  lemma ShiftTwoDigits(d: seq<nat>)
    requires Below(d, 16) && |d| >= 2
    ensures Val16(d) / 0x100 == Val16(d[2..])
  {
    ShiftDigit(d);
    ShiftDigit(d[1..]);
    assert d[1..][1..] == d[2..];
    TwoShifts(Val16(d));
  }

  lemma TwoShifts(z: nat)
    ensures z / 16 / 16 == z / 0x100 && z / 0x100 / 0x100 == z / 0x1_0000
  {
  }

  lemma {:induction false} SumPairs(s: seq<nat>, t: seq<nat>)
    requires |s| == 2 * |t| && forall j | 0 <= j < |t| :: t[j] == s[2 * j] + s[2 * j + 1]
    ensures Sum(t) == Sum(s)
    decreases |t|
  {
    if t != [] {
      SumPairs(s[2..], t[1..]);
      assert s[1..][1..] == s[2..];
      assert Sum(s) == s[0] + (s[1] + Sum(s[2..]));
    }
  }

  lemma Sum4(t: seq<nat>)
    requires |t| == 4
    ensures Sum(t) == t[0] + t[1] + t[2] + t[3]
  {
    assert t == [t[0]] + ([t[1]] + ([t[2]] + ([t[3]] + [])));
    ValCons(t[3], []);
    ValCons(t[2], [t[3]] + []);
    ValCons(t[1], [t[2]] + ([t[3]] + []));
    ValCons(t[0], [t[1]] + ([t[2]] + ([t[3]] + [])));
  }

  /** Count32 is the sum of the sixteen two-bit fields. */
  lemma Count32IsFieldSum(v: nat)
    ensures Count32(v) == Sum(Fields(v, 16))
  {
    hide And, Sum, Val16, Val256, Fields, NibbleSums, Rep16, Rep256;
    Masks();
    var s := NibbleSums(v, 8);
    AddFieldPairs(v, 8);
    NibbleSumsTotal(v, 8);
    var t := ByteCounters(s, 4);
    SumPairs(s, t);
    Sum4(t);
    Val256Of4(t);
    FoldBytes4(t[0], t[1], t[2], t[3]);
  }

  lemma SplitHalves(t: seq<nat>)
    requires |t| == 8
    ensures Val256(t) == Val256(t[..4]) + 0x1_0000_0000 * Val256(t[4..])
    ensures Sum(t) == Sum(t[..4]) + Sum(t[4..])
    ensures Val256(t[1..]) == Val256(t[..4][1..]) + 0x100_0000 * Val256(t[4..])
  {
    var hi := t[4..];
    assert t == [t[0]] + ([t[1]] + ([t[2]] + ([t[3]] + hi)));
    assert t[1..] == [t[1]] + ([t[2]] + ([t[3]] + hi));
    ValCons(t[3], hi);
    ValCons(t[2], [t[3]] + hi);
    ValCons(t[1], [t[2]] + ([t[3]] + hi));
    ValCons(t[0], [t[1]] + ([t[2]] + ([t[3]] + hi)));
    var lo := t[..4];
    Sum4(lo);
    Val256Of4(lo);
  }

  /** The last steps of Count64, on eight byte counters. */
  lemma FoldBytes8(a: nat, b: nat, c: nat, d: nat, e: nat, f: nat, g: nat, h: nat, w: nat, u: nat)
    requires a <= 12 && b <= 12 && c <= 12 && d <= 12 && e <= 12 && f <= 12 && g <= 12 && h <= 12
    requires w == (a + b) + 0x100 * (b + c) + 0x1_0000 * (c + d) + 0x100_0000 * (d + e)
                  + 0x1_0000_0000 * ((e + f) + 0x100 * (f + g) + 0x1_0000 * (g + h) + 0x100_0000 * h)
    requires u == w + w / 0x1_0000
    ensures (u + u / 0x1_0000_0000) % 0x100 == a + b + c + d + e + f + g + h
  {
    var q := (c + d) + 0x100 * (d + e)
             + 0x1_0000 * ((e + f) + 0x100 * (f + g) + 0x1_0000 * (g + h) + 0x100_0000 * h);
    assert w / 0x1_0000 == q by { High16((a + b) + 0x100 * (b + c), q); }
    var low := (a + b + c + d) + 0x100 * (b + c + d + e) + 0x1_0000 * (c + d + e + f) + 0x100_0000 * (d + e + f + g);
    var high := (e + f + g + h) + 0x100 * (f + g + h) + 0x1_0000 * (g + h) + 0x100_0000 * h;
    assert u / 0x1_0000_0000 == high by {
      assert u == low + 0x1_0000_0000 * high;
      High32(low, high);
    }
    var total := a + b + c + d + e + f + g + h;
    var rest := (b + c + d + e) + 0x100 * (c + d + e + f) + 0x1_0000 * (d + e + f + g) + 0x100_0000 * high
                + (f + g + h) + 0x100 * (g + h) + 0x1_0000 * h;
    assert u + high == total + 0x100 * rest;
    Low8(total, rest);
  }

  lemma High16(lo: nat, hi: nat)
    requires lo < 0x1_0000
    ensures (lo + 0x1_0000 * hi) / 0x1_0000 == hi
  {
  }

  lemma High32(lo: nat, hi: nat)
    requires lo < 0x1_0000_0000
    ensures (lo + 0x1_0000_0000 * hi) / 0x1_0000_0000 == hi
  {
  }

  lemma Low8(lo: nat, hi: nat)
    requires lo < 0x100
    ensures (lo + 0x100 * hi) % 0x100 == lo
  {
  }

  /** Count64 is the sum of the thirty-two two-bit fields. */
  lemma Count64IsFieldSum(v: nat)
    ensures Count64(v) == Sum(Fields(v, 32))
  {
    hide And, Sum, Val16, Val256, Fields, NibbleSums, Rep16, Rep256;
    Masks();
    var s := NibbleSums(v, 16);
    AddFieldPairs(v, 16);
    NibbleSumsTotal(v, 16);
    var t := ByteCounters(s, 8);
    SumPairs(s, t);
    SplitHalves(t);
    Sum4(t[..4]);
    Sum4(t[4..]);
    Val256Of4(t[..4]);
    Val256Of4(t[4..]);
    var w := Val256(t) + Val256(t[1..]);
    FoldBytes8(t[0], t[1], t[2], t[3], t[4], t[5], t[6], t[7], w, w + w / 0x1_0000);
  }

  // ---------------------------------------------------------------------
  // CountValidSlot
  // ---------------------------------------------------------------------

  function Is3(d: nat): nat { if d == 3 then 1 else 0 }

  /** Number of `11` fields among each adjacent pair, one per nibble. */
  function NibbleThrees(v: nat, k: nat): (r: seq<nat>)
    ensures |r| == k && forall i | 0 <= i < k :: r[i] <= 2
    decreases k
  {
    if k == 0 then [] else [Is3(v % 4) + Is3(v / 4 % 4)] + NibbleThrees(v / 16, k - 1)
  }

  lemma {:induction false} NibbleThreesTotal(v: nat, k: nat)
    ensures Sum(NibbleThrees(v, k)) + CountNot3(Fields(v, 2 * k)) == 2 * k
    decreases k
  {
    if k > 0 {
      var rest, i := v / 16, k - 1;
      NibbleThreesTotal(rest, i);
      TwoFields(v, i);
      hide Fields;
      ValCons(Is3(v % 4) + Is3(v / 4 % 4), NibbleThrees(rest, i));
      var fs := Fields(v, 2 * k);
      assert fs[1..] == [v / 4 % 4] + Fields(rest, 2 * i) && fs[1..][1..] == Fields(rest, 2 * i);
    }
  }

  lemma AndHalf(x: nat, y: nat)
    ensures And(x, y) / 2 == And(x / 2, y / 2) && And(x, y) % 2 == if x % 2 == 1 && y % 2 == 1 then 1 else 0
  {
    AndBit(x % 2, y % 2, x / 2, y / 2);
  }

  lemma AndShift4(v: nat)
    ensures And(v, v / 2) / 4 == And(v / 4, v / 4 / 2)
    ensures And(v, v / 2) / 16 == And(v / 16, v / 16 / 2)
    ensures And(v, v / 2) % 2 == Is3(v % 4)
  {
    hide And;
    AndHalf(v, v / 2);
    AndHalf(v / 2, v / 2 / 2);
    AndHalf(v / 2 / 2, v / 2 / 2 / 2);
    AndHalf(v / 2 / 2 / 2, v / 2 / 2 / 2 / 2);
    Halvings(And(v, v / 2));
    Halvings(v);
    assert v % 2 == 1 && v / 2 % 2 == 1 <==> v % 4 == 3;
  }

  lemma Halvings(a: nat)
    ensures a / 2 / 2 == a / 4 && a / 2 / 2 / 2 / 2 == a / 16
  {
    assert a / 2 / 2 == a / 4;
    assert a / 4 / 2 == a / 8;
  }

  lemma LowBit(x: nat, y: nat)
    ensures (x + 16 * y) % 2 == x % 2
  {
    assert x + 16 * y == x + 2 * (8 * y);
  }

  lemma LowNibble(a: nat, m: nat)
    ensures And(a, 1 + 16 * m) == a % 2 + 16 * And(a / 16, m)
  {
    hide And;
    var x, y := a % 16, a / 16;
    assert a == x + 16 * y;
    AndNibble(x, 1, y, m);
    AndSmall(x);
    LowBit(x, y);
  }

  lemma MaskThrees(v: nat, k: nat)
    ensures And(And(v, v / 2), Rep16(1, k + 1)) == Is3(v % 4) + 16 * And(And(v / 16, v / 16 / 2), Rep16(1, k))
  {
    hide And;
    var a, m := And(v, v / 2), Rep16(1, k);
    assert Rep16(1, k + 1) == 1 + 16 * m;
    hide And, Rep16;
    AndShift4(v);
    LowNibble(a, m);
  }

  lemma {:induction false} AddThreePairs(v: nat, k: nat)
    ensures var a := And(v, v / 2);
            And(a, Rep16(1, k)) + And(a / 4, Rep16(1, k)) == Val16(NibbleThrees(v, k))
    decreases k
  {
    var a := And(v, v / 2);
    if k == 0 {
      AndZeroRight(a);
      AndZeroRight(a / 4);
    } else {
      hide And;
      var rest, i := v / 16, k - 1;
      AddThreePairs(rest, i);
      AndShift4(v);
      AndShift4(rest);
      MaskThrees(v, i);
      MaskThrees(v / 4, i);
      assert v / 4 / 16 == rest / 4;
      ValCons(Is3(v % 4) + Is3(v / 4 % 4), NibbleThrees(rest, i));
    }
  }

  /** Digits of the two shift-and-add steps: four adjacent nibbles each. */
  lemma FourNibbles(s: seq<nat>) returns (q: seq<nat>)
    requires Below(s, 3) && |s| == 16
    ensures |q| == 16 && Below(q, 16)
    ensures forall i | 0 <= i < 16 :: q[i] == s[i] + Low(s, i + 1) + Low(s, i + 2) + Low(s, i + 3)
    ensures var y := Val16(s) + Val16(s) / 16;
            y + y / 0x100 == Val16(q)
  {
    hide Val16;
    var d := Slide(s, 1);
    assert Below(d, 5);
    q := Slide(d, 2);
    ShiftAdd1(s);
    ShiftAdd2(d);
  }

  lemma MaskFourNibbles(q: seq<nat>) returns (t: seq<nat>)
    requires |q| == 16 && Below(q, 16)
    ensures t == Evens(q)
    ensures And(Val16(q), Rep256(15, 8)) == Val256(t)
    ensures And(Val16(q) / 0x1_0000, Rep256(15, 8)) == Val256(t[2..])
  {
    hide And, Val16, Val256, Rep256;
    MaskBytes(q, 8);
    t := Evens(q);
    ShiftTwoDigits(q);
    ShiftTwoDigits(q[2..]);
    assert q[2..][2..] == q[4..];
    TwoShifts(Val16(q));
    MaskBytes(q[4..], 8);
    assert Evens(q[4..]) == t[2..];
  }

  lemma FoldHalves(b0: nat, r0: nat, b4: nat, r4: nat, w: nat)
    requires b0 <= 16 && b4 <= 16 && r0 < 0x100_0000
    requires w == b0 + 0x100 * r0 + 0x1_0000_0000 * (b4 + 0x100 * r4)
    ensures (w + w / 0x1_0000_0000) % 0x100 == b0 + b4
  {
    High32(b0 + 0x100 * r0, b4 + 0x100 * r4);
    Low8(b0 + b4, r0 + 0x100_0000 * (b4 + 0x100 * r4) + r4);
  }

  /** CountValidSlot is the number of two-bit fields that are not `11`. */
  lemma CountValidSlotCounts(v: nat)
    ensures CountValidSlot(v) == CountNot3(Fields(v, 32))
  {
    hide And, Sum, Val16, Val256, Fields, NibbleThrees, Rep16, Rep256, CountNot3;
    Masks();
    var s := NibbleThrees(v, 16);
    AddThreePairs(v, 16);
    NibbleThreesTotal(v, 16);
    var q := FourNibbles(s);
    var t := MaskFourNibbles(q);
    ThreesFolded(s, q, t);
  }

  lemma ThreesFolded(s: seq<nat>, q: seq<nat>, t: seq<nat>)
    requires Below(s, 3) && |s| == 16 && |q| == 16 && t == Evens(q)
    requires forall i | 0 <= i < 16 :: q[i] == s[i] + Low(s, i + 1) + Low(s, i + 2) + Low(s, i + 3)
    ensures var w := Val256(t) + Val256(t[2..]);
            (w + w / 0x1_0000_0000) % 0x100 == Sum(s)
  {
    hide Sum, Val256;
    EightPairs(s);
    FoldEight(t);
    assert t[0] + t[2] + t[4] + t[6] == q[0] + q[4] + q[8] + q[12];
  }

  lemma EightPairs(s: seq<nat>)
    requires |s| == 16
    ensures Sum(s) == s[0] + s[1] + s[2] + s[3] + s[4] + s[5] + s[6] + s[7]
                      + s[8] + s[9] + s[10] + s[11] + s[12] + s[13] + s[14] + s[15]
  {
    hide Sum;
    var u := [s[0] + s[1], s[2] + s[3], s[4] + s[5], s[6] + s[7], s[8] + s[9], s[10] + s[11], s[12] + s[13],
              s[14] + s[15]];
    SumPairs(s, u);
    SplitHalves(u);
    Sum4(u[..4]);
    Sum4(u[4..]);
  }

  lemma EightAndSix(t: seq<nat>)
    requires |t| == 8
    ensures Val256(t) + Val256(t[2..]) ==
              (t[0] + t[2]) + 0x100 * ((t[1] + t[3]) + 0x100 * (t[2] + t[4]) + 0x1_0000 * (t[3] + t[5]))
              + 0x1_0000_0000 * ((t[4] + t[6]) + 0x100 * ((t[5] + t[7]) + 0x100 * t[6] + 0x1_0000 * t[7]))
  {
    hide Val256;
    TrailingZeros(t[2..]);
    Val256Of8(t);
    Val256Of8(t[2..] + [0, 0]);
  }

  lemma FoldEight(t: seq<nat>)
    requires |t| == 8 && Below(t, 9)
    ensures var w := Val256(t) + Val256(t[2..]);
            (w + w / 0x1_0000_0000) % 0x100 == t[0] + t[2] + t[4] + t[6]
  {
    hide Val256;
    EightAndSix(t);
    FoldHalves(t[0] + t[2], (t[1] + t[3]) + 0x100 * (t[2] + t[4]) + 0x1_0000 * (t[3] + t[5]),
               t[4] + t[6], (t[5] + t[7]) + 0x100 * t[6] + 0x1_0000 * t[7], Val256(t) + Val256(t[2..]));
  }

  lemma Val256Of8(t: seq<nat>)
    requires |t| == 8
    ensures Val256(t) == t[0] + 0x100 * (t[1] + 0x100 * t[2] + 0x1_0000 * t[3])
                         + 0x1_0000_0000 * (t[4] + 0x100 * (t[5] + 0x100 * t[6] + 0x1_0000 * t[7]))
  {
    hide Val256;
    SplitHalves(t);
    Val256Of4(t[..4]);
    Val256Of4(t[4..]);
  }

  lemma {:induction false} TrailingZeros(t: seq<nat>)
    ensures Val256(t + [0, 0]) == Val256(t)
  {
    if t == [] {
      ValCons(0, []);
      ValCons(0, [0]);
      assert t + [0, 0] == [0] + [0];
    } else {
      TrailingZeros(t[1..]);
      assert (t + [0, 0])[1..] == t[1..] + [0, 0];
    }
  }
}
