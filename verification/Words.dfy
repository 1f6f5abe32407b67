/** Machine words and small shared types. */
module Words {
  type u32 = x: int | 0 <= x < 0x1_0000_0000
  type byte = x: int | 0 <= x < 256

  datatype Option<+T> = None | Some(value: T)

  /** A slice that lies behind the head of a concatenation. */
  lemma SliceAfter<T>(head: seq<T>, rest: seq<T>, at: nat, w: nat)
    requires at + w <= |rest|
    ensures (head + rest)[|head| + at..|head| + at + w] == rest[at..at + w]
  {
  }

  lemma SliceFront<T>(head: seq<T>, rest: seq<T>)
    ensures (head + rest)[..|head|] == head && (head + rest)[|head|..] == rest
  {
  }

  lemma SliceOfSlice<T>(s: seq<T>, a: nat, b: nat, c: nat, d: nat)
    requires a <= b <= |s| && c <= d <= b - a
    ensures s[a..b][c..d] == s[a + c..a + d]
  {
    var x, y := s[a..b][c..d], s[a + c..a + d];
    assert |x| == |y| && forall i | 0 <= i < |x| :: x[i] == y[i];
  }

  /** Slices of what lies behind the first `m` elements. */
  lemma TailSlice<T>(s: seq<T>, m: nat, a: nat, b: nat)
    requires a <= b && m + b <= |s|
    ensures s[m..][a..b] == s[m + a..m + b] && s[..m + a] == s[..m] + s[m..][..a]
  {
    var x, y := s[m..][a..b], s[m + a..m + b];
    assert |x| == |y| && forall i | 0 <= i < |x| :: x[i] == y[i];
    var p, q := s[..m + a], s[..m] + s[m..][..a];
    assert |p| == |q|;
    forall i | 0 <= i < |p| ensures p[i] == q[i] {
      if i >= m { assert q[i] == s[m..][..a][i - m]; }
    }
    assert p == q;
  }

  /** A prefix that ends inside the slice from `m` to `e`. */
  lemma PrefixInto<T>(s: seq<T>, m: nat, n: nat, e: nat)
    requires m <= n <= e <= |s|
    ensures s[..n] == s[..m] + s[m..e][..n - m]
  {
    var p, q := s[..n], s[..m] + s[m..e][..n - m];
    assert |p| == |q|;
    forall i | 0 <= i < |p| ensures p[i] == q[i] {
      if i >= m { assert q[i] == s[m..e][..n - m][i - m]; }
    }
    assert p == q;
  }

  /** The product of a small width and a count, by repeated addition. */
  function Prod(w: nat, c: nat): nat {
    if w == 0 then 0 else c + Prod(w - 1, c)
  }

  lemma {:induction false} ProdIsProduct(w: nat, c: nat)
    ensures Prod(w, c) == w * c
  {
    if w > 0 { ProdIsProduct(w - 1, c); }
  }

  lemma {:induction false} ProdNext(w: nat, c: nat)
    ensures Prod(w, c + 1) == Prod(w, c) + w
  {
    if w > 0 { ProdNext(w - 1, c); }
  }

  lemma {:induction false} ProdUpTo(w: nat, i: nat, c: nat)
    requires i <= c
    ensures Prod(w, i) <= Prod(w, c)
  {
    if w > 0 { ProdUpTo(w - 1, i, c); }
  }

  lemma Assoc<T>(a: seq<T>, b: seq<T>, c: seq<T>)
    ensures a + b + c == a + (b + c)
  {
  }
}
