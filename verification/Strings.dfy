/**
 Byte arrays: a varint header and the bytes, padded to whole words
 (WriteVarInt and Serialize of src/serialize.cc, class String of
 include/protocache/access.h, ParseBytes of typescript/wasm/decode_tape.cc).
 */
module Strings {
  import opened Words
  import opened Buffers
  import opened Units

  // ---------------------------------------------------------------------
  // Bytes inside words
  // ---------------------------------------------------------------------

  function ByteOf(w: u32, j: nat): byte
    requires j < 4
  {
    if j == 0 then w % 256 else if j == 1 then w / 0x100 % 256 else if j == 2 then w / 0x1_0000 % 256
       else w / 0x100_0000
  }

  /** The bytes of a word sequence in memory order. */
  function BytesOf(words: seq<u32>): (r: seq<byte>)
    ensures |r| == 4 * |words| && forall k | 0 <= k < |r| :: r[k] == ByteOf(words[k / 4], k % 4)
  {
    seq(4 * |words|, k requires 0 <= k < 4 * |words| => ByteOf(words[k / 4], k % 4))
  }

  function WordSize(bytes: nat): nat { (bytes + 3) / 4 }

  function ByteOr0(bytes: seq<byte>, k: nat): byte {
    if k < |bytes| then bytes[k] else 0
  }

  function WordAt(bytes: seq<byte>, i: nat): u32 {
    ByteOr0(bytes, 4 * i) + 0x100 * ByteOr0(bytes, 4 * i + 1)
      + 0x1_0000 * ByteOr0(bytes, 4 * i + 2) + 0x100_0000 * ByteOr0(bytes, 4 * i + 3)
  }

  /** Bytes copied into zero-padded words. */
  function PackWords(bytes: seq<byte>): (r: seq<u32>)
    ensures |r| == WordSize(|bytes|) && forall i | 0 <= i < |r| :: r[i] == WordAt(bytes, i)
  {
    seq(WordSize(|bytes|), i requires 0 <= i < WordSize(|bytes|) => WordAt(bytes, i))
  }

  lemma BytesOfWordAt(bytes: seq<byte>, i: nat, j: nat)
    requires j < 4
    ensures ByteOf(WordAt(bytes, i), j) == ByteOr0(bytes, 4 * i + j)
  {
    var a, b, c, d := ByteOr0(bytes, 4 * i), ByteOr0(bytes, 4 * i + 1), ByteOr0(bytes, 4 * i + 2),
                      ByteOr0(bytes, 4 * i + 3);
    Split4(a, b, c, d);
  }

  lemma Split4(a: byte, b: byte, c: byte, d: byte)
    ensures var w := a + 0x100 * b + 0x1_0000 * c + 0x100_0000 * d;
            ByteOf(w, 0) == a && ByteOf(w, 1) == b && ByteOf(w, 2) == c && ByteOf(w, 3) == d
  {
    var w := a + 0x100 * b + 0x1_0000 * c + 0x100_0000 * d;
    assert w / 0x100 == b + 0x100 * c + 0x1_0000 * d;
    assert w / 0x1_0000 == c + 0x100 * d;
    assert w / 0x100_0000 == d;
  }

  /** Reading the words back gives the bytes, followed by zeros. */
  lemma PackedBytes(bytes: seq<byte>)
    ensures |bytes| <= 4 * WordSize(|bytes|)
    ensures BytesOf(PackWords(bytes))[..|bytes|] == bytes
  {
    var r := BytesOf(PackWords(bytes));
    forall k | 0 <= k < |bytes| ensures r[k] == bytes[k] {
      BytesOfWordAt(bytes, k / 4, k % 4);
    }
  }

  lemma BytesOfSlice(words: seq<u32>, i: nat, j: nat)
    requires i <= j <= |words|
    ensures BytesOf(words[i..j]) == BytesOf(words)[4 * i..4 * j]
  {
    var x, y := BytesOf(words[i..j]), BytesOf(words)[4 * i..4 * j];
    forall k | 0 <= k < |x| ensures x[k] == y[k] {
      assert words[i..j][k / 4] == words[(4 * i + k) / 4];
    }
  }

  // ---------------------------------------------------------------------
  // Varints
  // ---------------------------------------------------------------------

  function VarInt(n: nat): (r: seq<byte>)
    ensures |r| > 0
  {
    if n < 128 then [n] else [128 + n % 128] + VarInt(n / 128)
  }

  function Pow128(k: nat): nat {
    if k == 0 then 1 else 128 * Pow128(k - 1)
  }

  /** The decoding loop: at most `k` bytes; returns the value and the bytes used. */
  function ParseVar(bytes: seq<byte>, k: nat): (r: Option<(nat, nat)>)
    ensures r.Some? ==> 0 < r.value.1 <= |bytes| && r.value.1 <= k
  {
    if k == 0 || bytes == [] then None
    else if bytes[0] < 128 then Some((bytes[0], 1))
    else
      match ParseVar(bytes[1..], k - 1)
      case None => None
      case Some((v, used)) => Some((bytes[0] - 128 + 128 * v, used + 1))
  }

  /** Every varint of at most `k` digits is read back, whatever follows it. */
  lemma {:induction false} VarIntRoundTrip(n: nat, k: nat, rest: seq<byte>)
    requires k > 0 && n < Pow128(k)
    ensures ParseVar(VarInt(n) + rest, k) == Some((n, |VarInt(n)|)) && |VarInt(n)| <= k
    decreases k
  {
    if n >= 128 {
      VarIntRoundTrip(n / 128, k - 1, rest);
      assert (VarInt(n) + rest)[1..] == VarInt(n / 128) + rest;
    }
  }

  lemma Pow128Known()
    ensures Pow128(5) == 0x8_0000_0000
  {
    assert Pow128(2) == 0x4000;
    assert Pow128(4) == 128 * (128 * Pow128(2));
  }

  /** The result of the loop when it has consumed `i` bytes. */
  function Resume(mark: nat, scale: nat, i: nat, rest: Option<(nat, nat)>): Option<(nat, nat)> {
    match rest
    case None => None
    case Some((v, used)) => Some((mark + scale * v, i + used))
  }

  lemma ParseVarStep(all: seq<byte>, i: nat)
    requires i < 5 && i <= |all|
    ensures i == |all| ==> ParseVar(all[i..], 5 - i) == None
    ensures i < |all| && all[i] < 128 ==> ParseVar(all[i..], 5 - i) == Some((all[i], 1))
    ensures i < |all| && all[i] >= 128 ==>
              ParseVar(all[i..], 5 - i) == Resume(all[i] - 128, 128, 1, ParseVar(all[i + 1..], 4 - i))
  {
    if i < |all| { assert all[i..][1..] == all[i + 1..]; }
  }

  lemma ResumeNext(mark: nat, scale: nat, i: nat, b: nat, rest: Option<(nat, nat)>)
    ensures Resume(mark, scale, i, Resume(b, 128, 1, rest))
            == Resume(mark + Scaled(b, scale), Scaled(128, scale), i + 1, rest)
  {
    if rest.Some? {
      var v := rest.value.0;
      assert scale * (b + 128 * v) == b * scale + 128 * scale * v;
    }
  }

  function Scaled(x: nat, y: nat): nat { x * y }

  lemma ResumeStart(r: Option<(nat, nat)>)
    ensures Resume(0, 1, 0, r) == r
  {
  }

  lemma ResumeNone(mark: nat, scale: nat, i: nat)
    ensures Resume(mark, scale, i, None) == None
  {
  }

  lemma ResumeLast(mark: nat, scale: nat, i: nat, b: nat)
    ensures Resume(mark, scale, i, Some((b, 1))) == Some((mark + Scaled(b, scale), i + 1))
  {
  }

  lemma NothingAfterFive(all: seq<byte>, i: nat)
    requires 5 <= i <= |all|
    ensures ParseVar(all[i..], 0) == None
  {
  }

  /** WriteVarInt. */
  method WriteVarInt(n: u32) returns (bytes: seq<byte>)
    ensures bytes == VarInt(n) && 1 <= |bytes| <= 5
  {
    bytes := [];
    var rest := n;
    while rest >= 128
      invariant 0 <= rest && VarInt(n) == bytes + VarInt(rest)
      decreases rest
    {
      bytes := bytes + [128 + rest % 128];
      rest := rest / 128;
    }
    bytes := bytes + [rest];
    Pow128Known();
    VarIntRoundTrip(n, 5, []);
  }

  // ---------------------------------------------------------------------
  // Strings
  // ---------------------------------------------------------------------

  function StringBytes(str: seq<byte>): seq<byte> {
    VarInt(4 * |str|) + str
  }

  function StringWords(str: seq<byte>): seq<u32> {
    PackWords(StringBytes(str))
  }

  /** Serialize for strings and byte arrays. */
  method SerializeString(str: seq<byte>, buf: Buffer) returns (ok: bool, unit: Unit)
    requires buf.Valid()
    modifies buf, buf.data
    ensures buf.Valid() && (buf.data == old(buf.data) || fresh(buf.data))
    ensures ok <==> |str| < 0x4000_0000
    ensures !ok ==> buf.Contents() == old(buf.Contents())
    ensures ok ==> var words := StringWords(str);
              && |words| > 0
              && (|words| == 1 ==> unit == Inline(words) && buf.Contents() == old(buf.Contents()))
              && (|words| > 1 ==> unit == Segment(buf.Size(), |words|) && buf.Contents() == words + old(buf.Contents()))
  {
    unit := Absent;
    if |str| >= 0x4000_0000 { return false, unit; }
    var header := WriteVarInt(4 * |str|);
    var words := PackWords(header + str);
    ok := true;
    if |words| == 1 {
      unit := Inline(words);
    } else {
      var last := buf.Size();
      buf.PutAll(words);
      unit := Segment(buf.Size(), buf.Size() - last);
    }
  }
}
