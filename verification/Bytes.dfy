/** Bytes, little-endian words with wrap-around arithmetic, and overwriting a slice of a byte buffer.

    Every word the library stores in a record, a string pool, an extent header or a file tail is a little-endian
    run of bytes, so all later modules share these definitions.
 */
module Bytes {

  type u8 = x: int | 0 <= x < 256

  datatype Option<+T> = None | Some(value: T)

  // ---------- little-endian words ----------

  function Pow256(n: nat): (r: nat)
    ensures r > 0
  {
    if n == 0 then 1 else 256 * Pow256(n - 1)
  }

  function Dec(b: seq<u8>): (v: nat)
    ensures v < Pow256(|b|)
  {
    if b == [] then 0 else b[0] + 256 * Dec(b[1..])
  }

  function Enc(v: nat, n: nat): (b: seq<u8>)
    ensures |b| == n
  {
    if n == 0 then [] else [v % 256] + Enc(v / 256, n - 1)
  }

  lemma {:induction false} DecEnc(v: nat, n: nat)
    requires v < Pow256(n)
    ensures Dec(Enc(v, n)) == v
  {
    if n > 0 {
      DecEnc(v / 256, n - 1);
      assert Enc(v, n)[1..] == Enc(v / 256, n - 1);
    }
  }

  lemma {:induction false} EncDec(b: seq<u8>)
    ensures Enc(Dec(b), |b|) == b
  {
    if b != [] {
      EncDec(b[1..]);
      assert Dec(b) % 256 == b[0] && Dec(b) / 256 == Dec(b[1..]);
      assert b == [b[0]] + b[1..];
    }
  }

  lemma Pow256Values()
    ensures Pow256(4) == 0x1_0000_0000
    ensures Pow256(8) == 0x1_0000_0000_0000_0000
  {
    assert Pow256(1) == 256;
    assert Pow256(2) == 0x1_0000;
    assert Pow256(3) == 0x100_0000;
    assert Pow256(4) == 0x1_0000_0000;
    assert Pow256(5) == 0x100_0000_0000;
    assert Pow256(6) == 0x1_0000_0000_0000;
    assert Pow256(7) == 0x100_0000_0000_0000;
  }

  // ---------- wrap-around arithmetic on n-byte words ----------

  function WrapAdd(v: nat, w: nat, n: nat): (r: nat)
    requires v < Pow256(n) && w < Pow256(n)
    ensures r < Pow256(n)
  {
    if v + w < Pow256(n) then v + w else v + w - Pow256(n)
  }

  function WrapSub(v: nat, w: nat, n: nat): (r: nat)
    requires v < Pow256(n) && w < Pow256(n)
    ensures r < Pow256(n)
    ensures WrapAdd(r, w, n) == v
  {
    if v >= w then v - w else v - w + Pow256(n)
  }

  // ---------- reading and overwriting slices ----------

  function Get(buf: seq<u8>, off: nat, n: nat): (b: seq<u8>)
    requires off + n <= |buf|
    ensures |b| == n
  {
    buf[off..off + n]
  }

  function Put(buf: seq<u8>, off: nat, b: seq<u8>): (r: seq<u8>)
    requires off + |b| <= |buf|
    ensures |r| == |buf|
    ensures forall i :: 0 <= i < |buf| ==> r[i] == if off <= i < off + |b| then b[i - off] else buf[i]
  {
    buf[..off] + b + buf[off + |b|..]
  }

  /** The half-open ranges [o1, o1+n1) and [o2, o2+n2) do not meet. */
  predicate Apart(o1: nat, n1: nat, o2: nat, n2: nat) {
    o1 + n1 <= o2 || o2 + n2 <= o1
  }

  lemma GetPutSame(buf: seq<u8>, off: nat, b: seq<u8>)
    requires off + |b| <= |buf|
    ensures Get(Put(buf, off, b), off, |b|) == b
  {
    var p := Put(buf, off, b)[off..off + |b|];
    assert forall i :: 0 <= i < |b| ==> p[i] == b[i];
  }

  lemma GetPutApart(buf: seq<u8>, off: nat, b: seq<u8>, o: nat, n: nat)
    requires off + |b| <= |buf| && o + n <= |buf|
    requires Apart(off, |b|, o, n)
    ensures Get(Put(buf, off, b), o, n) == Get(buf, o, n)
  {
    var p, q := Put(buf, off, b)[o..o + n], buf[o..o + n];
    assert forall i :: 0 <= i < n ==> p[i] == q[i];
  }

  lemma PutGet(buf: seq<u8>, off: nat, n: nat)
    requires off + n <= |buf|
    ensures Put(buf, off, Get(buf, off, n)) == buf
  {
  }

  lemma PutPutSame(buf: seq<u8>, off: nat, b: seq<u8>, c: seq<u8>)
    requires |b| == |c| && off + |b| <= |buf|
    ensures Put(Put(buf, off, b), off, c) == Put(buf, off, c)
  {
  }

  lemma PutPutApart(buf: seq<u8>, o1: nat, b1: seq<u8>, o2: nat, b2: seq<u8>)
    requires o1 + |b1| <= |buf| && o2 + |b2| <= |buf|
    requires Apart(o1, |b1|, o2, |b2|)
    ensures Put(Put(buf, o1, b1), o2, b2) == Put(Put(buf, o2, b2), o1, b1)
  {
  }

  /** Overwriting inside a middle part of a buffer is overwriting that part. */
  lemma PutInside(pre: seq<u8>, mid: seq<u8>, post: seq<u8>, off: nat, b: seq<u8>)
    requires off + |b| <= |mid|
    ensures Put(pre + mid + post, |pre| + off, b) == pre + Put(mid, off, b) + post
  {
  }

  function Zeros(n: nat): (z: seq<u8>)
    ensures |z| == n
    ensures forall i :: 0 <= i < n ==> z[i] == 0
  {
    seq(n, _ => 0)
  }

  /** Every byte in [lo, hi) is zero. */
  predicate AllZero(buf: seq<u8>, lo: nat, hi: nat)
    requires hi <= |buf|
  {
    forall i :: lo <= i < hi ==> buf[i] == 0
  }

  lemma ZeroSlice(buf: seq<u8>, lo: nat, hi: nat)
    requires lo <= hi <= |buf|
    ensures AllZero(buf, lo, hi) <==> buf[lo..hi] == Zeros(hi - lo)
  {
    if buf[lo..hi] == Zeros(hi - lo) {
      forall i | lo <= i < hi
        ensures buf[i] == 0
      {
        assert buf[i] == buf[lo..hi][i - lo];
      }
    }
  }

  /** Two adjacent slices join to one. */
  lemma SliceJoin(buf: seq<u8>, a: nat, b: nat, c: nat)
    requires a <= b <= c <= |buf|
    ensures buf[a..b] + buf[b..c] == buf[a..c]
  {
  }

  /** What stands behind a prefix. */
  lemma SliceBehind(p: seq<u8>, q: seq<u8>, src: seq<u8>)
    requires p + q <= src
    ensures src[|p|..|p| + |q|] == q
  {
    assert src[..|p + q|] == p + q;
    assert src[|p|..|p| + |q|] == (p + q)[|p|..];
  }

  /** A slice of a slice. */
  lemma SliceSlice(buf: seq<u8>, a: nat, c: nat, lo: nat, hi: nat)
    requires a <= c <= |buf| && lo <= hi <= c - a
    ensures buf[a..c][lo..hi] == buf[a + lo..a + hi]
  {
    var x, y := buf[a..c][lo..hi], buf[a + lo..a + hi];
    assert forall i :: 0 <= i < hi - lo ==> x[i] == y[i];
  }

  // ---------- alignment and single bits ----------

  lemma UpToFour(pos: nat)
    ensures (4 - pos % 4) % 4 == if pos % 4 == 0 then 0 else 4 - pos % 4
    ensures (pos + (4 - pos % 4) % 4) % 4 == 0
  {
    var q, r := pos / 4, pos % 4;
    assert pos == 4 * q + r;
    if r > 0 {
      assert pos + (4 - r) == 4 * (q + 1);
    }
  }

  lemma UpToEight(pos: nat)
    ensures (8 - pos % 8) % 8 == if pos % 8 == 0 then 0 else 8 - pos % 8
    ensures (pos + (8 - pos % 8) % 8) % 8 == 0
  {
    var q, r := pos / 8, pos % 8;
    assert pos == 8 * q + r;
    if r > 0 {
      assert pos + (8 - r) == 8 * (q + 1);
    }
  }

  /** The padding in front of an n-byte item at position pos, as the writers compute it. */
  function Padding(pos: nat, n: nat): (p: nat)
    requires n == 1 || n == 4 || n == 8
    ensures p < n
    ensures n == 4 ==> (pos + p) % 4 == 0 && (pos % 4 == 0 ==> p == 0)
    ensures n == 8 ==> (pos + p) % 8 == 0 && (pos % 8 == 0 ==> p == 0)
  {
    UpToFour(pos);
    UpToEight(pos);
    if n == 1 then 0 else if n == 4 then (4 - pos % 4) % 4 else (8 - pos % 8) % 8
  }

  /** The value of 2 to the power bit, for a bit position in a byte. */
  function BitMask(bit: nat): (m: nat)
    requires bit < 8
    ensures 1 <= m <= 128
  {
    [1, 2, 4, 8, 16, 32, 64, 128][bit]
  }

  predicate BitSet(b: u8, bit: nat)
    requires bit < 8
  {
    b / BitMask(bit) % 2 == 1
  }

  // ---------- in-place overwrite of an array slice ----------

  method Overwrite(a: array<u8>, off: nat, b: seq<u8>)
    requires off + |b| <= a.Length
    modifies a
    ensures a[..] == Put(old(a[..]), off, b)
  {
    for i := 0 to |b|
      invariant forall k :: 0 <= k < a.Length ==>
        a[k] == if off <= k < off + i then b[k - off] else old(a[k])
    {
      a[off + i] := b[i];
    }
  }
}
