/** Anti-forensic splitting of key material, for any digest function. */
module AntiForensic {
  import opened Arithmetic
  import opened Bits
  import opened Wrappers

  datatype AfError = SplitTooShort | OutputTooSmall

  /** A digest of fixed length, 32 bytes for SHA-256 and 20 for SHA-1 in the source. */
  datatype Hash = Hash(digest: seq<byte> -> seq<byte>, len: nat)
  {
    function Blocks(keyBytes: nat): nat
      requires len != 0
    {
      (keyBytes + len - 1) / len
    }
  }

  /** Four bytes, most significant first, of the block counter cast to 32 bits. */
  function Iv(n: int): seq<byte> {
    var v := n % 0x1_0000_0000;
    [v / 0x100_0000 % 256, v / 0x1_0000 % 256, v / 0x100 % 256, v % 256]
  }

  /** The number that four bytes write, most significant first. */
  function BigEndian(w: seq<byte>): nat
    requires |w| == 4
  {
    w[0] as nat * 0x100_0000 + w[1] as nat * 0x1_0000 + w[2] as nat * 0x100 + w[3] as nat
  }

  /** The counter's bytes are the only ones that write it modulo 2^32. */
  lemma IvIs(n: nat, w: seq<byte>)
    requires |w| == 4
    ensures w == Iv(n) <==> BigEndian(w) == n % 0x1_0000_0000
  {
    var v := n % 0x1_0000_0000;
    FourDigits(v);
    if BigEndian(w) == v {
      SameDigits(w[0] as nat, w[1] as nat, w[2] as nat, w[3] as nat,
                 v / 0x100_0000, v / 0x1_0000 % 256, v / 0x100 % 256, v % 256);
      assert w == [w[0], w[1], w[2], w[3]];
    }
  }

  lemma FourDigits(v: nat)
    requires v < 0x1_0000_0000
    ensures v / 0x100_0000 < 256 && v / 0x100_0000 % 256 == v / 0x100_0000
    ensures v == v / 0x100_0000 * 0x100_0000 + v / 0x1_0000 % 256 * 0x1_0000 + v / 0x100 % 256 * 0x100 + v % 256
  {
    var a, b := v / 0x100, v / 0x1_0000;
    assert v == 0x100 * a + v % 256 && a == 0x100 * (a / 0x100) + a % 256;
    assert a / 0x100 == b && b / 0x100 == v / 0x100_0000;
  }

  lemma SameDigits(a: nat, b: nat, c: nat, d: nat, p: nat, q: nat, r: nat, s: nat)
    requires a < 256 && b < 256 && c < 256 && d < 256 && p < 256 && q < 256 && r < 256 && s < 256
    requires a * 0x100_0000 + b * 0x1_0000 + c * 0x100 + d == p * 0x100_0000 + q * 0x1_0000 + r * 0x100 + s
    ensures a == p && b == q && c == r && d == s
  {}

  function XorSeq(a: seq<byte>, b: seq<byte>): (r: seq<byte>)
    requires |a| <= |b|
    ensures |r| == |a|
  {
    seq(|a|, i requires 0 <= i < |a| => BXor(a[i], b[i]))
  }

  lemma XorSeqCancels(a: seq<byte>, b: seq<byte>)
    requires |a| == |b|
    ensures XorSeq(a, XorSeq(a, b)) == b
  {
    forall i | 0 <= i < |a|
      ensures XorSeq(a, XorSeq(a, b))[i] == b[i]
    {
      XorCancel(a[i], b[i]);
    }
  }

  /** Round `i` of diffusion: block after block, the digest of a counter and the whole buffer. */
  ghost function Diffused(h: Hash, i: nat, buf: seq<byte>): (r: seq<byte>)
    requires FixedLength(h)
    ensures |r| == |buf|
  {
    seq(|buf|, (p: nat) => h.digest(Iv(i * h.Blocks(|buf|) + p / h.len) + buf)[p % h.len])
  }

  function Zeros(n: nat): seq<byte> {
    seq(n, _ => 0)
  }

  /** The constant length of the digests. */
  ghost predicate FixedLength(h: Hash) {
    h.len != 0 && forall s :: |h.digest(s)| == h.len
  }

  // ----- what splitting and merging compute

  /** Stripe `k` of split data; zeros for a stripe past its end. */
  function Stripe(data: seq<byte>, n: nat, k: nat): (r: seq<byte>)
    ensures |r| == n
  {
    if (k + 1) * n <= |data| then
      assert (k + 1) * n == k * n + n;
      data[k * n..(k + 1) * n]
    else Zeros(n)
  }

  /** The buffer once the first `i` stripes are absorbed. */
  ghost function Absorbed(h: Hash, data: seq<byte>, n: nat, i: nat): (r: seq<byte>)
    requires FixedLength(h)
    ensures |r| == n
  {
    if i == 0 then Zeros(n)
    else Diffused(h, i - 1, XorSeq(Absorbed(h, data, n, i - 1), Stripe(data, n, i - 1)))
  }

  /** The key hidden in split data: the last stripe is not diffused. */
  ghost function Merged(h: Hash, data: seq<byte>, n: nat, stripes: nat): (r: seq<byte>)
    requires FixedLength(h)
    ensures |r| == n
  {
    if stripes == 0 then Zeros(n)
    else XorSeq(Absorbed(h, data, n, stripes - 1), Stripe(data, n, stripes - 1))
  }

  /** The bytes the splitter puts into all stripes but the last. */
  function Filler(i: nat, n: nat): seq<byte> {
    seq(n, (j: nat) => (i * 37 + j * 13 + 7) % 256)
  }

  ghost predicate IsSplit(h: Hash, data: seq<byte>, key: seq<byte>, stripes: nat)
    requires FixedLength(h) && stripes != 0
  {
    && |data| == stripes * |key|
    && (forall k | 0 <= k < stripes - 1 :: Stripe(data, |key|, k) == Filler(k, |key|))
    && Stripe(data, |key|, stripes - 1) == XorSeq(Absorbed(h, data, |key|, stripes - 1), key)
  }

  /**
   * Merging gives the key exactly when the last stripe is the key masked by what the other stripes leave in the
   * buffer, whatever those hold and whatever the digest is.
   */
  lemma MergesToKeyIff(h: Hash, data: seq<byte>, key: seq<byte>, stripes: nat)
    requires FixedLength(h) && stripes != 0
    ensures Merged(h, data, |key|, stripes) == key
      <==> Stripe(data, |key|, stripes - 1) == XorSeq(Absorbed(h, data, |key|, stripes - 1), key)
  {
    hide Absorbed, XorSeq;
    XorSeqCancels(Absorbed(h, data, |key|, stripes - 1), key);
    XorSeqCancels(Absorbed(h, data, |key|, stripes - 1), Stripe(data, |key|, stripes - 1));
  }

  lemma MergeInvertsSplit(h: Hash, data: seq<byte>, key: seq<byte>, stripes: nat)
    requires FixedLength(h) && stripes != 0 && IsSplit(h, data, key, stripes)
    ensures Merged(h, data, |key|, stripes) == key
  {
    MergesToKeyIff(h, data, key, stripes);
  }

  /** The buffer after `i` stripes depends on those stripes only. */
  lemma {:induction false} AbsorbedAgrees(h: Hash, a: seq<byte>, b: seq<byte>, n: nat, i: nat)
    requires FixedLength(h) && forall k: nat | k < i :: Stripe(a, n, k) == Stripe(b, n, k)
    ensures Absorbed(h, a, n, i) == Absorbed(h, b, n, i)
  {
    hide Diffused, XorSeq, Stripe, FixedLength;
    if i != 0 {
      AbsorbedAgrees(h, a, b, n, i - 1);
    }
  }

  // ----- the loops

  method XorInto(buf: array<byte>, src: seq<byte>)
    requires |src| == buf.Length
    modifies buf
    ensures buf[..] == XorSeq(old(buf[..]), src)
  {
    hide BXor;
    for k := 0 to buf.Length
      invariant forall p | 0 <= p < k :: buf[p] == BXor(old(buf[p]), src[p])
      invariant forall p | k <= p < buf.Length :: buf[p] == old(buf[p])
    {
      buf[k] := BXor(buf[k], src[k]);
    }
  }

  lemma BlockStart(n: nat, len: nat, block: nat)
    requires len != 0 && block < (n + len - 1) / len
    ensures block * len < n
    ensures block + 1 == (n + len - 1) / len ==> n <= block * len + len
  {
    var x := n + len - 1;
    DivModIs(x, len, x / len, x % len, x / len, x % len);
    MulMono(block + 1, x / len, len);
    assert (block + 1) * len == block * len + len;
  }

  /** The bytes of one hash block. */
  lemma BlockBytes(h: Hash, i: nat, buf: seq<byte>, block: nat, q: nat)
    requires FixedLength(h) && q < h.len && block * h.len + q < |buf|
    ensures Diffused(h, i, buf)[block * h.len + q] == h.digest(Iv(i * h.Blocks(|buf|) + block) + buf)[q]
  {
    DivModUnique(block, h.len, q);
  }

  /**
   * Byte `q` of block `block` after round `i` is that of the digest of four counter bytes and the buffer: the counter
   * goes on from round to round, and its bytes stand with the most significant first.
   */
  lemma DiffusedByte(h: Hash, i: nat, buf: seq<byte>, blocks: nat, block: nat, q: nat, w: seq<byte>)
    requires FixedLength(h) && q < h.len && block * h.len + q < |buf|
    requires (blocks - 1) * h.len < |buf| <= blocks * h.len
    requires |w| == 4 && BigEndian(w) == (i * blocks + block) % 0x1_0000_0000
    ensures Diffused(h, i, buf)[block * h.len + q] == h.digest(w + buf)[q]
  {
    BlockBytes(h, i, buf, block, q);
    IvIs(i * blocks + block, w);
    hide Diffused, Iv, FixedLength;
    assert blocks == h.Blocks(|buf|) by {
      CeilingIs(|buf|, h.len, blocks);
    }
  }

  lemma CeilingIs(n: nat, len: nat, blocks: nat)
    requires len != 0 && (blocks - 1) * len < n <= blocks * len
    ensures (n + len - 1) / len == blocks
  {
    assert blocks * len == (blocks - 1) * len + len;
    DivModUnique(blocks, len, n + len - 1 - blocks * len);
  }

  /** Fills `hashBuf` block by block; the last digest may be cut short. */
  method HashBlocks(h: Hash, i: nat, buf: array<byte>, hashBuf: array<byte>)
    requires FixedLength(h) && buf.Length == hashBuf.Length && buf != hashBuf
    modifies hashBuf
    ensures hashBuf[..] == Diffused(h, i, buf[..])
  {
    hide Diffused, Iv;
    ghost var b := buf[..];
    var keyBytes := buf.Length;
    var numBlocks := (keyBytes + h.len - 1) / h.len;
    if numBlocks == 0 {
      assert keyBytes == 0 by { DivModUnique(1, h.len, 0); }
    }
    for block := 0 to numBlocks
      invariant buf[..] == b
      invariant forall p | 0 <= p < block * h.len && p < keyBytes :: hashBuf[p] == Diffused(h, i, b)[p]
      invariant block == numBlocks ==> keyBytes <= block * h.len
    {
      var iv := Iv(i * numBlocks + block);
      BlockStart(keyBytes, h.len, block);
      var take := if keyBytes - block * h.len < h.len then keyBytes - block * h.len else h.len;
      var digest := h.digest(iv + buf[..]);
      ghost var before := hashBuf[..];
      forall q | 0 <= q < take {
        hashBuf[block * h.len + q] := digest[q];
      }
      assert (block + 1) * h.len == block * h.len + h.len;
      forall p | 0 <= p < block * h.len + h.len && p < keyBytes
        ensures hashBuf[p] == Diffused(h, i, b)[p]
      {
        if p >= block * h.len {
          BlockBytes(h, i, b, block, p - block * h.len);
          assert hashBuf[block * h.len + (p - block * h.len)] == digest[p - block * h.len];
        } else {
          assert hashBuf[p] == before[p];
        }
      }
    }
  }

  lemma StripeInside(size: nat, n: nat, stripes: nat, k: nat)
    requires size == stripes * n && k < stripes
    ensures k * n + n == (k + 1) * n <= size
  {
    MulMono(k + 1, stripes, n);
  }

  /** Writing stripe `i` leaves the others alone. */
  lemma StripeWritten(a: seq<byte>, b: seq<byte>, n: nat, i: nat, bytes: seq<byte>)
    requires |a| == |b| && (i + 1) * n <= |a| && |bytes| == n && i * n + n == (i + 1) * n
    requires forall p | 0 <= p < |a| && !(i * n <= p < i * n + n) :: b[p] == a[p]
    requires forall j | 0 <= j < n :: b[i * n + j] == bytes[j]
    ensures Stripe(b, n, i) == bytes
    ensures forall k: nat | k != i :: Stripe(b, n, k) == Stripe(a, n, k)
  {
    assert Stripe(b, n, i) == bytes;
    forall k: nat | k != i
      ensures Stripe(b, n, k) == Stripe(a, n, k)
    {
      if (k + 1) * n <= |a| {
        assert (k + 1) * n == k * n + n;
        if k < i {
          MulMono(k + 1, i, n);
        } else {
          MulMono(i + 1, k, n);
        }
        assert Stripe(b, n, k) == Stripe(a, n, k);
      }
    }
  }

  method WriteStripe(split: array<byte>, n: nat, i: nat, bytes: seq<byte>)
    requires |bytes| == n && i * n + n == (i + 1) * n <= split.Length
    modifies split
    ensures Stripe(split[..], n, i) == bytes
    ensures forall k: nat | k != i :: Stripe(split[..], n, k) == Stripe(old(split[..]), n, k)
  {
    ghost var before := split[..];
    for j := 0 to n
      invariant forall p | 0 <= p < split.Length && !(i * n <= p < i * n + j) :: split[p] == before[p]
      invariant forall j' | 0 <= j' < j :: split[i * n + j'] == bytes[j']
    {
      split[i * n + j] := bytes[j];
    }
    StripeWritten(before, split[..], n, i, bytes);
  }

  method CopyFrom(buf: array<byte>, src: array<byte>)
    requires buf.Length == src.Length && buf != src
    modifies buf
    ensures buf[..] == src[..]
  {
    for k := 0 to buf.Length
      invariant buf[..k] == src[..k]
    {
      buf[k] := src[k];
    }
  }

  /** Splits a key over `stripes` stripes. */
  method AfSplit(key: seq<byte>, stripes: nat, h: Hash) returns (splitData: array<byte>)
    requires stripes != 0 && FixedLength(h)
    ensures fresh(splitData) && IsSplit(h, splitData[..], key, stripes)
    ensures forall i, j | 0 <= i < stripes - 1 && 0 <= j < |key| ::
      Stripe(splitData[..], |key|, i)[j] == (i * 37 + j * 13 + 7) % 256
  {
    hide Absorbed, Diffused, XorSeq, Stripe, FixedLength, Filler;
    var keyBytes := |key|;
    splitData := new byte[stripes * keyBytes](_ => 0);
    var buf := new byte[keyBytes](_ => 0);
    assert buf[..] == Absorbed(h, splitData[..], keyBytes, 0) by { AbsorbedNothing(h, splitData[..], keyBytes); }

    for i := 0 to stripes - 1
      invariant forall k: nat | k < i :: Stripe(splitData[..], keyBytes, k) == Filler(k, keyBytes)
      invariant buf[..] == Absorbed(h, splitData[..], keyBytes, i)
    {
      ghost var before := splitData[..];
      StripeInside(splitData.Length, keyBytes, stripes, i);
      var chunk := seq(keyBytes, (j: nat) => (i * 37 + j * 13 + 7) % 256);
      FillerIs(i, keyBytes, chunk);
      WriteStripe(splitData, keyBytes, i, chunk);
      AbsorbedAgrees(h, before, splitData[..], keyBytes, i);
      XorInto(buf, chunk);
      var hashBuf := new byte[keyBytes](_ => 0);
      HashBlocks(h, i, buf, hashBuf);
      CopyFrom(buf, hashBuf);
      AbsorbedOneMore(h, splitData[..], keyBytes, i);
    }
    ghost var before := splitData[..];
    StripeInside(splitData.Length, keyBytes, stripes, stripes - 1);
    WriteStripe(splitData, keyBytes, stripes - 1, XorSeq(buf[..], key));
    AbsorbedAgrees(h, before, splitData[..], keyBytes, stripes - 1);
    FillerBytes(h, splitData[..], key, stripes);
  }

  lemma AbsorbedNothing(h: Hash, data: seq<byte>, n: nat)
    requires FixedLength(h)
    ensures Absorbed(h, data, n, 0) == Zeros(n)
  {}

  lemma AbsorbedOneMore(h: Hash, data: seq<byte>, n: nat, i: nat)
    requires FixedLength(h)
    ensures Absorbed(h, data, n, i + 1) == Diffused(h, i, XorSeq(Absorbed(h, data, n, i), Stripe(data, n, i)))
  {}

  lemma FillerIs(i: nat, n: nat, chunk: seq<byte>)
    requires |chunk| == n && forall j | 0 <= j < n :: chunk[j] == (i * 37 + j * 13 + 7) % 256
    ensures chunk == Filler(i, n)
  {}

  lemma FillerBytes(h: Hash, data: seq<byte>, key: seq<byte>, stripes: nat)
    requires FixedLength(h) && stripes != 0 && IsSplit(h, data, key, stripes)
    ensures forall i, j | 0 <= i < stripes - 1 && 0 <= j < |key| ::
      Stripe(data, |key|, i)[j] == (i * 37 + j * 13 + 7) % 256
  {
    hide Stripe, Absorbed, FixedLength;
  }

  lemma MergedLast(h: Hash, data: seq<byte>, n: nat, stripes: nat)
    requires FixedLength(h)
    ensures stripes == 0 ==> Merged(h, data, n, stripes) == Zeros(n)
    ensures stripes != 0 ==>
      Merged(h, data, n, stripes) == XorSeq(Absorbed(h, data, n, stripes - 1), Stripe(data, n, stripes - 1))
  {}

  /** Absorbs one stripe after the other; the last one is not diffused. */
  method MergeStripes(splitData: seq<byte>, keyBytes: nat, stripes: nat, h: Hash) returns (buf: array<byte>)
    requires FixedLength(h) && |splitData| >= stripes * keyBytes
    ensures fresh(buf) && buf[..] == Merged(h, splitData, keyBytes, stripes)
  {
    hide Absorbed, Diffused, XorSeq, FixedLength, Merged, Stripe;
    buf := new byte[keyBytes](_ => 0);
    var hashBuf := new byte[keyBytes](_ => 0);
    AbsorbedNothing(h, splitData, keyBytes);
    MergedLast(h, splitData, keyBytes, stripes);

    for i := 0 to stripes
      invariant i < stripes ==> buf[..] == Absorbed(h, splitData, keyBytes, i)
      invariant i == stripes ==> buf[..] == Merged(h, splitData, keyBytes, stripes)
    {
      StripeInside(stripes * keyBytes, keyBytes, stripes, i);
      assert Stripe(splitData, keyBytes, i) == splitData[i * keyBytes..(i + 1) * keyBytes] by {
        StripeIs(splitData, keyBytes, i);
      }
      XorInto(buf, splitData[i * keyBytes..(i + 1) * keyBytes]);
      if i + 1 < stripes {
        HashBlocks(h, i, buf, hashBuf);
        CopyFrom(buf, hashBuf);
        AbsorbedOneMore(h, splitData, keyBytes, i);
      }
    }
  }

  lemma StripeIs(data: seq<byte>, n: nat, k: nat)
    requires k * n <= (k + 1) * n <= |data|
    ensures Stripe(data, n, k) == data[k * n..(k + 1) * n]
  {}

  /** Recovers the key into the front of `outKey`. */
  method AfMerge(splitData: seq<byte>, keyBytes: nat, stripes: nat, h: Hash, outKey: array<byte>)
    returns (r: Result<(), AfError>)
    requires FixedLength(h)
    modifies outKey
    ensures |splitData| < stripes * keyBytes ==> r == Err(SplitTooShort)
    ensures |splitData| >= stripes * keyBytes && outKey.Length < keyBytes ==> r == Err(OutputTooSmall)
    ensures r.Err? ==> outKey[..] == old(outKey[..])
    ensures |splitData| >= stripes * keyBytes && outKey.Length >= keyBytes ==>
      && r.Ok? && outKey[..keyBytes] == Merged(h, splitData, keyBytes, stripes)
      && outKey[keyBytes..] == old(outKey[keyBytes..])
  {
    hide FixedLength, Merged;
    if |splitData| < stripes * keyBytes {
      return Err(SplitTooShort);
    }
    if outKey.Length < keyBytes {
      return Err(OutputTooSmall);
    }
    var buf := MergeStripes(splitData, keyBytes, stripes, h);
    for k := 0 to keyBytes
      modifies outKey
      invariant outKey[..k] == buf[..k]
      invariant outKey[keyBytes..] == old(outKey[keyBytes..])
    {
      outKey[k] := buf[k];
    }
    assert outKey[..keyBytes] == buf[..];
    r := Ok(());
  }

  /** Splitting and merging back, as the source's callers do. */
  method SplitThenMerge(key: seq<byte>, stripes: nat, h: Hash) returns (recovered: seq<byte>)
    requires stripes != 0 && FixedLength(h)
    ensures recovered == key
  {
    hide IsSplit, Merged, FixedLength;
    var splitData := AfSplit(key, stripes, h);
    var outKey := new byte[|key|](_ => 0);
    assert splitData.Length == stripes * |key| by { SplitSize(h, splitData[..], key, stripes); }
    var r := AfMerge(splitData[..], |key|, stripes, h, outKey);
    MergeInvertsSplit(h, splitData[..], key, stripes);
    recovered := outKey[..];
    assert recovered == outKey[..|key|];
  }

  lemma SplitSize(h: Hash, data: seq<byte>, key: seq<byte>, stripes: nat)
    requires FixedLength(h) && stripes != 0 && IsSplit(h, data, key, stripes)
    ensures |data| == stripes * |key|
  {}
}
