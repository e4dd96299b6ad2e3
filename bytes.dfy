/** Byte values and the fixed-width integer encodings written by Node's Buffer
    (writeUInt16LE, writeUInt32LE, writeUInt32BE), with their decoders, and the
    concatenation of a list of buffers (Buffer.concat). */
module Bytes {

  /** An unsigned 8-bit value, as stored in one cell of a Node Buffer. */
  type byte = b: int | 0 <= b < 256

  const U16_LIMIT: nat := 0x1_0000
  const U32_LIMIT: nat := 0x1_0000_0000

  /** Two bytes, least significant first. */
  function U16LE(x: nat): (r: seq<byte>)
    requires x < U16_LIMIT
    ensures |r| == 2
  {
    [x % 256, x / 256]
  }

  function DecodeU16LE(s: seq<byte>): (x: nat)
    requires |s| == 2
    ensures x < U16_LIMIT
  {
    s[0] as int + 256 * s[1] as int
  }

  /** Four bytes, least significant first. */
  function U32LE(x: nat): (r: seq<byte>)
    requires x < U32_LIMIT
    ensures |r| == 4
  {
    [x % 256, (x / 256) % 256, (x / 0x1_0000) % 256, x / 0x100_0000]
  }

  function DecodeU32LE(s: seq<byte>): (x: nat)
    requires |s| == 4
    ensures x < U32_LIMIT
  {
    s[0] as int + 256 * s[1] as int + 0x1_0000 * s[2] as int + 0x100_0000 * s[3] as int
  }

  /** Four bytes, most significant first. */
  function U32BE(x: nat): (r: seq<byte>)
    requires x < U32_LIMIT
    ensures |r| == 4
  {
    [x / 0x100_0000, (x / 0x1_0000) % 256, (x / 256) % 256, x % 256]
  }

  function DecodeU32BE(s: seq<byte>): (x: nat)
    requires |s| == 4
    ensures x < U32_LIMIT
  {
    0x100_0000 * s[0] as int + 0x1_0000 * s[1] as int + 256 * s[2] as int + s[3] as int
  }

  lemma U16LERoundTrip(x: nat)
    requires x < U16_LIMIT
    ensures DecodeU16LE(U16LE(x)) == x
  {
  }

  lemma U16LEOfDecode(s: seq<byte>)
    requires |s| == 2
    ensures U16LE(DecodeU16LE(s)) == s
  {
  }

  lemma U32LERoundTrip(x: nat)
    requires x < U32_LIMIT
    ensures DecodeU32LE(U32LE(x)) == x
  {
    var b0, q0 := x % 256, x / 256;
    var b1, q1 := q0 % 256, q0 / 256;
    var b2, b3 := q1 % 256, q1 / 256;
    assert x / 0x1_0000 == q1;
    assert x / 0x100_0000 == b3;
    assert x == b0 + 256 * (b1 + 256 * (b2 + 256 * b3));
  }

  lemma U32LEOfDecode(s: seq<byte>)
    requires |s| == 4
    ensures U32LE(DecodeU32LE(s)) == s
  {
    var x := DecodeU32LE(s);
    var b0, b1, b2, b3: int := s[0], s[1], s[2], s[3];
    DivModUnique(x, b0, b1 + 256 * b2 + 0x1_0000 * b3, 256);
    DivModUnique(b1 + 256 * b2 + 0x1_0000 * b3, b1, b2 + 256 * b3, 256);
    DivModUnique(x, b0 + 256 * b1, b2 + 256 * b3, 0x1_0000);
    DivModUnique(b2 + 256 * b3, b2, b3, 256);
    DivModUnique(x, b0 + 256 * b1 + 0x1_0000 * b2, b3, 0x100_0000);
  }

  /** Euclidean division of lo + k * hi by k, for 0 <= lo < k. */
  lemma DivModUnique(y: int, lo: int, hi: int, k: int)
    requires 0 <= lo < k && y == lo + k * hi
    ensures y / k == hi && y % k == lo
  {
    var q, r := y / k, y % k;
    assert k * (hi - q) == r - lo;
    if hi - q >= 1 {
      MulAtLeast(k, hi - q);
    } else if hi - q <= -1 {
      MulAtLeast(k, q - hi);
    }
  }

  /** A positive multiple of k is at least k. */
  lemma MulAtLeast(k: int, m: int)
    requires k > 0 && m >= 1
    ensures k * m >= k
  {
    assert k * m == k + k * (m - 1);
  }

  lemma U32BERoundTrip(x: nat)
    requires x < U32_LIMIT
    ensures DecodeU32BE(U32BE(x)) == x
  {
    U32LERoundTrip(x);
  }

  lemma U32BEOfDecode(s: seq<byte>)
    requires |s| == 4
    ensures U32BE(DecodeU32BE(s)) == s
  {
    U32LEOfDecode([s[3], s[2], s[1], s[0]]);
  }

  /** Buffer.concat: the buffers one after another, in list order. */
  function Flatten(bufs: seq<seq<byte>>): (r: seq<byte>)
  {
    if bufs == [] then [] else bufs[0] + Flatten(bufs[1..])
  }

  /** The sum of the lengths of the buffers. */
  function TotalLength(bufs: seq<seq<byte>>): (n: nat)
  {
    if bufs == [] then 0 else |bufs[0]| + TotalLength(bufs[1..])
  }

  lemma {:induction false} FlattenLength(bufs: seq<seq<byte>>)
    ensures |Flatten(bufs)| == TotalLength(bufs)
  {
    if bufs != [] {
      FlattenLength(bufs[1..]);
    }
  }

  lemma {:induction false} FlattenAppend(a: seq<seq<byte>>, b: seq<seq<byte>>)
    ensures Flatten(a + b) == Flatten(a) + Flatten(b)
    ensures TotalLength(a + b) == TotalLength(a) + TotalLength(b)
  {
    if a == [] {
      assert a + b == b;
    } else {
      assert (a + b)[1..] == a[1..] + b;
      FlattenAppend(a[1..], b);
    }
  }

  /** Appending one buffer adds its length to the total. */
  lemma TotalLengthSnoc(bufs: seq<seq<byte>>, x: seq<byte>)
    ensures TotalLength(bufs + [x]) == TotalLength(bufs) + |x|
  {
    FlattenAppend(bufs, [x]);
    assert [x][1..] == [];
  }

  /** The lengths of the buffers before i and of those from i to j add up
      to the lengths of the buffers before j, so the prefix up to i is never
      longer than the prefix up to j. */
  lemma {:induction false} TotalLengthPrefix(bufs: seq<seq<byte>>, i: nat, j: nat)
    requires i <= j <= |bufs|
    ensures TotalLength(bufs[..i]) + TotalLength(bufs[i..j]) == TotalLength(bufs[..j])
    ensures TotalLength(bufs[..i]) <= TotalLength(bufs[..j])
  {
    assert bufs[..j] == bufs[..i] + bufs[i..j];
    FlattenAppend(bufs[..i], bufs[i..j]);
  }

  /** Buffer i of the list sits in the concatenation right after the buffers
      before it. */
  lemma FlattenAt(bufs: seq<seq<byte>>, i: nat)
    requires i < |bufs|
    ensures TotalLength(bufs[..i]) + |bufs[i]| <= TotalLength(bufs)
    ensures |Flatten(bufs)| == TotalLength(bufs)
    ensures Flatten(bufs)[TotalLength(bufs[..i]) .. TotalLength(bufs[..i]) + |bufs[i]|] == bufs[i]
  {
    var pre, one, rest := bufs[..i], [bufs[i]], bufs[i + 1..];
    assert bufs == pre + (one + rest);
    FlattenAppend(pre, one + rest);
    FlattenAppend(one, rest);
    assert one[1..] == [];
    FlattenLength(pre);
    FlattenLength(bufs);
    FlattenLength(rest);
  }

  /** Every buffer of the list has `width` bytes. */
  lemma {:induction false} TotalLengthUniform(bufs: seq<seq<byte>>, width: nat)
    requires forall k :: 0 <= k < |bufs| ==> |bufs[k]| == width
    ensures TotalLength(bufs) == width * |bufs|
  {
    if bufs != [] {
      TotalLengthUniform(bufs[1..], width);
      assert width * |bufs| == width + width * (|bufs| - 1);
    }
  }

  /** The lists f(x) of the elements x of xs, one after another, in list
      order. */
  function ConcatMap<A, B>(xs: seq<A>, f: A -> seq<B>): seq<B>
  {
    if xs == [] then [] else ConcatMap(xs[..|xs| - 1], f) + f(xs[|xs| - 1])
  }

  lemma {:induction false} ConcatMapAppend<A, B>(xs: seq<A>, ys: seq<A>, f: A -> seq<B>)
    ensures ConcatMap(xs + ys, f) == ConcatMap(xs, f) + ConcatMap(ys, f)
    decreases |ys|
  {
    if ys == [] {
      assert xs + ys == xs;
    } else {
      var init := ys[..|ys| - 1];
      assert (xs + ys)[..|xs + ys| - 1] == xs + init;
      assert (xs + ys)[|xs + ys| - 1] == ys[|ys| - 1];
      ConcatMapAppend(xs, init, f);
    }
  }

  /** A slice that lies wholly in the right operand of a concatenation. */
  lemma SliceRight<T>(a: seq<T>, b: seq<T>, lo: nat, hi: nat)
    requires |a| <= lo <= hi <= |a| + |b|
    ensures (a + b)[lo..hi] == b[lo - |a|..hi - |a|]
  {
  }

  /** A slice that lies wholly in the left operand of a concatenation. */
  lemma SliceLeft<T>(a: seq<T>, b: seq<T>, lo: nat, hi: nat)
    requires lo <= hi <= |a|
    ensures (a + b)[lo..hi] == a[lo..hi]
  {
  }

  /** The three parts of a three-way concatenation, recovered by slicing. */
  lemma ThreeParts<T>(x: seq<T>, a: seq<T>, b: seq<T>, c: seq<T>)
    requires x == a + b + c
    ensures x[..|a|] == a && x[|a|..|a| + |b|] == b && x[|a| + |b|..] == c
  {
    assert x[..|a|] == a;
    assert x[|a|..|a| + |b|] == b;
    assert x[|a| + |b|..] == c;
  }
}
