/**
 * The parity codec: `embed_secret_data` forces the parity of one coefficient per
 * payload bit, and the reading of those parities back into bytes that the
 * declared `extract_secret_data` stands for.
 */
module Codec {
  import opened ImageData

  /** A C string as it lies in memory: bytes up to and including a terminating zero byte. */
  type CString = s: seq<byte> | 0 in s witness [0]

  /** `strlen`: the number of bytes before the first zero byte. */
  function StrLen(s: CString): (n: nat)
    ensures n < |s| && s[n] == 0
    ensures forall k :: 0 <= k < n ==> s[k] != 0
  {
    if s[0] == 0 then 0
    else
      assert s == [s[0]] + s[1..];
      1 + StrLen(s[1..])
  }

  /** The bytes the embedder reads: everything before the first zero byte. */
  function Payload(s: CString): (p: seq<byte>)
    ensures |p| < |s| && s[|p|] == 0 && 0 !in p && p == s[..|p|]
  {
    s[..StrLen(s)]
  }

  /** `x >> n` for a non-negative `x`: `n` halvings. */
  function ShiftRight(x: nat, n: nat): nat
  {
    if n == 0 then x else ShiftRight(x, n - 1) / 2
  }

  /** 2 to the power `n`. */
  function Pow2(n: nat): (p: nat)
    ensures p >= 1
  {
    if n == 0 then 1 else 2 * Pow2(n - 1)
  }

  /** The low `w` bits of `x`, most significant first: bit `k` is `(x >> (w - 1 - k)) & 1`. */
  function Bits(x: nat, w: nat): (bs: seq<bit>)
    ensures |bs| == w
  {
    seq(w, k requires 0 <= k < w => ShiftRight(x, w - 1 - k) % 2)
  }

  /** The value of a bit string read most significant bit first. */
  function PackBits(bs: seq<bit>): (v: nat)
    ensures v < Pow2(|bs|)
  {
    if bs == [] then 0 else 2 * PackBits(bs[..|bs| - 1]) + bs[|bs| - 1]
  }

  /** The bit stream of a payload: its bytes in order, each split most significant bit first. */
  function MessageBits(m: seq<byte>): (bits: seq<bit>)
    ensures |bits| == 8 * |m|
  {
    seq(8 * |m|, i requires 0 <= i < 8 * |m| => Bits(m[i / 8], 8)[i % 8])
  }

  /** Bit `8n + k` of the stream is bit `k` of byte `n`, `(m[n] >> (7 - k)) & 1`. */
  lemma MessageBitAt(m: seq<byte>, n: nat, k: nat)
    requires n < |m| && k < 8
    ensures MessageBits(m)[8 * n + k] == ShiftRight(m[n], 7 - k) % 2
  {
    assert (8 * n + k) / 8 == n && (8 * n + k) % 8 == k;
  }

  /** Oddness as the C test `x % 2 != 0` decides it, for negative `x` too. */
  predicate IsOdd(x: int)
  {
    x % 2 != 0
  }

  /**
   * One step of `embed_secret_data`: give `coeff` the parity of `b` (odd for 1,
   * even for 0), decrementing an odd coefficient for a 0 bit and incrementing an
   * even one for a 1 bit.
   */
  function SetParity(coeff: int, b: bit): (r: int)
    ensures coeff - 1 <= r <= coeff + 1
  {
    if b == 0 && coeff % 2 != 0 then coeff - 1
    else if b == 1 && coeff % 2 == 0 then coeff + 1
    else coeff
  }

  /**
   * SetParity leaves the coefficient with the parity of the bit, keeps it when
   * it already has that parity, and otherwise moves it by one: down for a 0
   * bit, up for a 1 bit.
   */
  lemma SetParityMeaning(coeff: int, b: bit)
    ensures IsOdd(SetParity(coeff, b)) <==> b == 1
    ensures SetParity(coeff, b) == coeff <==> (IsOdd(coeff) <==> b == 1)
    ensures SetParity(coeff, b) == coeff - 1 <==> (b == 0 && IsOdd(coeff))
    ensures SetParity(coeff, b) == coeff + 1 <==> (b == 1 && !IsOdd(coeff))
  {
  }

  /** The coefficients after the first `|bits|` of them have had their parities set to `bits`, in order. */
  function EmbedParities(c: seq<int>, bits: seq<bit>): (r: seq<int>)
    requires |bits| <= |c|
    ensures |r| == |c|
  {
    seq(|c|, i requires 0 <= i < |c| => if i < |bits| then SetParity(c[i], bits[i]) else c[i])
  }

  /** The parity of each coefficient as a bit. */
  function ParityBits(c: seq<int>): (bs: seq<bit>)
    ensures |bs| == |c|
    ensures forall i :: 0 <= i < |c| ==> (bs[i] == 1 <==> IsOdd(c[i]))
  {
    seq(|c|, i requires 0 <= i < |c| => if IsOdd(c[i]) then 1 else 0)
  }

  /**
   * The decoder declared as `extract_secret_data`: `size` bytes, byte `n` read
   * most significant bit first from the parities of coefficients `8n .. 8n+7`.
   */
  function DecodeParities(c: seq<int>, size: nat): (m: seq<byte>)
    requires 8 * size <= |c|
    ensures |m| == size
  {
    seq(size, n requires 0 <= n < size => PackByte(ParityBits(c[8 * n .. 8 * n + 8])))
  }

  /** Eight bits read as one byte. */
  function PackByte(bs: seq<bit>): (b: byte)
    requires |bs| == 8
  {
    Pow2Byte();
    PackBits(bs)
  }

  lemma Pow2Byte()
    ensures Pow2(8) == 256
  {
  }

  /**
   * `embed_secret_data(dct_coeffs, secret_data)`: walk the string up to its first
   * zero byte; for byte `index` and bit `bitIndex` (most significant first) set the
   * parity of `dctCoeffs[index * 8 + bitIndex]` to that bit. The C code does no
   * bound check, so the caller must supply eight coefficients per payload byte.
   */
  method EmbedSecretData(dctCoeffs: array<int>, secretData: CString)
    requires 8 * StrLen(secretData) <= dctCoeffs.Length
    modifies dctCoeffs
    ensures dctCoeffs[..] == EmbedParities(old(dctCoeffs[..]), MessageBits(Payload(secretData)))
  {
    ghost var before := dctCoeffs[..];
    ghost var payload := Payload(secretData);
    ghost var bits := MessageBits(payload);
    assert |payload| == StrLen(secretData) && secretData[|payload|] == 0 && |bits| == 8 * |payload|;
    var index := 0;
    while secretData[index] != 0
      invariant 0 <= index <= |payload|
      invariant EmbeddedUpTo(dctCoeffs[..], before, bits, 8 * index)
      decreases |payload| - index
    {
      assert index < |payload|;
      var secretByte := secretData[index];
      assert secretByte == payload[index];
      var bitIndex := 0;
      while bitIndex < 8
        invariant 0 <= bitIndex <= 8
        invariant EmbeddedUpTo(dctCoeffs[..], before, bits, 8 * index + bitIndex)
      {
        ghost var n := index * 8 + bitIndex;
        var coeff := dctCoeffs[index * 8 + bitIndex];
        var b := ShiftRight(secretByte, 7 - bitIndex) % 2;
        assert coeff == before[n] && b == bits[n] by {
          MessageBitAt(payload, index, bitIndex);
        }
        if b == 0 && coeff % 2 != 0 {
          coeff := coeff - 1;
        } else if b == 1 && coeff % 2 == 0 {
          coeff := coeff + 1;
        }
        EmbedStep(dctCoeffs[..], before, bits, n);
        dctCoeffs[index * 8 + bitIndex] := coeff;
        bitIndex := bitIndex + 1;
      }
      index := index + 1;
    }
    EmbeddedAll(dctCoeffs[..], before, bits);
  }

  /** The first `n` coefficients of `a` have the parities of `bits`; the rest are as in `before`. */
  ghost predicate EmbeddedUpTo(a: seq<int>, before: seq<int>, bits: seq<bit>, n: nat)
    requires n <= |bits| <= |before| == |a|
  {
    (forall k :: 0 <= k < n ==> a[k] == SetParity(before[k], bits[k])) &&
    (forall k :: n <= k < |a| ==> a[k] == before[k])
  }

  /** Setting the parity of coefficient `n` extends the embedded prefix by one. */
  lemma EmbedStep(a: seq<int>, before: seq<int>, bits: seq<bit>, n: nat)
    requires n < |bits| <= |before| == |a| && EmbeddedUpTo(a, before, bits, n)
    ensures EmbeddedUpTo(a[n := SetParity(before[n], bits[n])], before, bits, n + 1)
  {
  }

  /** Once every bit is embedded, the coefficients are EmbedParities of the originals. */
  lemma EmbeddedAll(a: seq<int>, before: seq<int>, bits: seq<bit>)
    requires |bits| <= |before| == |a| && EmbeddedUpTo(a, before, bits, |bits|)
    ensures a == EmbedParities(before, bits)
  {
  }

  // ---------------------------------------------------------------------------
  // Properties of the embedding

  /** After embedding, coefficient `8n + k` is odd exactly when bit `k` (most significant first) of byte `n` is 1. */
  lemma EmbeddedParity(c: seq<int>, m: seq<byte>, n: nat, k: nat)
    requires 8 * |m| <= |c| && n < |m| && k < 8
    ensures IsOdd(EmbedParities(c, MessageBits(m))[8 * n + k]) <==> ShiftRight(m[n], 7 - k) % 2 == 1
  {
    MessageBitAt(m, n, k);
  }

  /**
   * Every coefficient moves by at most one: down only for a 0 bit on an odd
   * coefficient, up only for a 1 bit on an even one; coefficients past the
   * payload's bits are untouched.
   */
  lemma EmbedChangesAtMostOne(c: seq<int>, bits: seq<bit>, i: nat)
    requires |bits| <= |c| && i < |c|
    ensures -1 <= EmbedParities(c, bits)[i] - c[i] <= 1
    ensures EmbedParities(c, bits)[i] < c[i] <==> i < |bits| && bits[i] == 0 && IsOdd(c[i])
    ensures EmbedParities(c, bits)[i] > c[i] <==> i < |bits| && bits[i] == 1 && !IsOdd(c[i])
    ensures |bits| <= i ==> EmbedParities(c, bits)[i] == c[i]
  {
  }

  /** Embedding the same bits a second time changes nothing. */
  lemma {:induction false} EmbedIdempotent(c: seq<int>, bits: seq<bit>)
    requires |bits| <= |c|
    ensures EmbedParities(EmbedParities(c, bits), bits) == EmbedParities(c, bits)
  {
    var once := EmbedParities(c, bits);
    forall i | 0 <= i < |c|
      ensures EmbedParities(once, bits)[i] == once[i]
    {
      if i < |bits| {
        assert IsOdd(once[i]) <==> bits[i] == 1;
      }
    }
  }

  /** Only the bytes before the first zero byte decide what is embedded; later bytes are never read. */
  lemma PayloadIgnoresTail(s: CString, t: CString)
    requires StrLen(s) < |t| && s[..StrLen(s) + 1] == t[..StrLen(s) + 1]
    ensures Payload(t) == Payload(s)
  {
    var n := StrLen(s);
    assert forall k :: 0 <= k <= n ==> t[k] == s[k] by {
      forall k | 0 <= k <= n ensures t[k] == s[k] {
        assert t[..n + 1][k] == s[..n + 1][k];
      }
    }
    assert StrLen(t) == n;
  }

  // ---------------------------------------------------------------------------
  // Bits of a byte, and their value

  /** Halving before shifting is shifting once more. */
  lemma {:induction false} ShiftHalf(x: nat, m: nat)
    ensures ShiftRight(x / 2, m) == ShiftRight(x, m + 1)
  {
    if m > 0 {
      ShiftHalf(x, m - 1);
    }
  }

  /** All but the last of the low `w` bits of `x` are the low `w - 1` bits of `x / 2`. */
  lemma BitsHalf(x: nat, w: nat)
    requires 0 < w
    ensures Bits(x, w)[..w - 1] == Bits(x / 2, w - 1)
  {
    forall k | 0 <= k < w - 1
      ensures Bits(x, w)[k] == Bits(x / 2, w - 1)[k]
    {
      ShiftHalf(x, w - 2 - k);
    }
  }

  /** A value that fits in `w` bits is rebuilt by packing its low `w` bits. */
  lemma {:induction false} PackBitsOf(x: nat, w: nat)
    requires x < Pow2(w)
    ensures PackBits(Bits(x, w)) == x
  {
    if w > 0 {
      var bs := Bits(x, w);
      assert PackBits(bs) == 2 * PackBits(Bits(x / 2, w - 1)) + x % 2 by {
        BitsHalf(x, w);
        assert bs[w - 1] == ShiftRight(x, 0) % 2 == x % 2;
      }
      PackBitsOf(x / 2, w - 1);
    }
  }

  /** Splitting a byte into its eight bits and packing them back gives the byte. */
  lemma ByteBitsRoundTrip(b: byte)
    ensures PackByte(Bits(b, 8)) == b
  {
    Pow2Byte();
    PackBitsOf(b, 8);
  }

  /** Packing `w` bits and splitting the value back into `w` bits gives the same bits. */
  lemma {:induction false} BitsOfPack(bs: seq<bit>)
    ensures Bits(PackBits(bs), |bs|) == bs
  {
    if bs != [] {
      var w := |bs|;
      var front := bs[..w - 1];
      var v := PackBits(bs);
      assert v == 2 * PackBits(front) + bs[w - 1];
      assert v / 2 == PackBits(front) && v % 2 == bs[w - 1];
      BitsOfPack(front);
      forall k | 0 <= k < w
        ensures Bits(v, w)[k] == bs[k]
      {
        if k < w - 1 {
          ShiftHalf(v, w - 2 - k);
          assert Bits(v, w)[k] == Bits(v / 2, w - 1)[k] == front[k];
        } else {
          assert Bits(v, w)[k] == ShiftRight(v, 0) % 2 == v % 2;
        }
      }
    }
  }

  // ---------------------------------------------------------------------------
  // The decoder against the embedder

  /** Reading back the parities of the embedded coefficients yields the payload. */
  lemma DecodeEmbedded(c: seq<int>, m: seq<byte>)
    requires 8 * |m| <= |c|
    ensures DecodeParities(EmbedParities(c, MessageBits(m)), |m|) == m
  {
    var e := EmbedParities(c, MessageBits(m));
    forall n | 0 <= n < |m|
      ensures DecodeParities(e, |m|)[n] == m[n]
    {
      var slice := e[8 * n .. 8 * n + 8];
      assert ParityBits(slice) == Bits(m[n], 8) by {
        forall k | 0 <= k < 8
          ensures ParityBits(slice)[k] == Bits(m[n], 8)[k]
        {
          assert slice[k] == e[8 * n + k];
        }
      }
      ByteBitsRoundTrip(m[n]);
    }
  }

  /** Bit `i` of what the coefficients decode to is the parity of coefficient `i`. */
  lemma DecodedBitAt(c: seq<int>, size: nat, i: nat)
    requires 8 * size <= |c| && i < 8 * size
    ensures MessageBits(DecodeParities(c, size))[i] == 1 <==> IsOdd(c[i])
  {
    var n, k := i / 8, i % 8;
    var pb := ParityBits(c[8 * n .. 8 * n + 8]);
    assert MessageBits(DecodeParities(c, size))[i] == Bits(PackBits(pb), 8)[k] by {
      Pow2Byte();
    }
    assert Bits(PackBits(pb), 8) == pb by {
      BitsOfPack(pb);
    }
    assert c[8 * n .. 8 * n + 8][k] == c[i];
  }

  /** Embedding what the coefficients already decode to leaves them unchanged. */
  lemma EmbedDecoded(c: seq<int>, size: nat)
    requires 8 * size <= |c|
    ensures EmbedParities(c, MessageBits(DecodeParities(c, size))) == c
  {
    var bits := MessageBits(DecodeParities(c, size));
    forall i | 0 <= i < |c|
      ensures EmbedParities(c, bits)[i] == c[i]
    {
      if i < 8 * size {
        DecodedBitAt(c, size, i);
      }
    }
  }

  /** The embedder as a whole: the payload decodes from the array, and nothing past its bits changed. */
  lemma EmbedSecretDataRoundTrip(c: seq<int>, s: CString)
    requires 8 * StrLen(s) <= |c|
    ensures DecodeParities(EmbedParities(c, MessageBits(Payload(s))), StrLen(s)) == Payload(s)
    ensures EmbedParities(c, MessageBits(Payload(s)))[8 * StrLen(s)..] == c[8 * StrLen(s)..]
  {
    var p := Payload(s);
    var bits := MessageBits(p);
    var e := EmbedParities(c, bits);
    assert |p| == StrLen(s) && |bits| == 8 * StrLen(s);
    DecodeEmbedded(c, p);
    assert e[|bits|..] == c[|bits|..] by {
      forall i | |bits| <= i < |c|
        ensures e[i] == c[i]
      {
      }
    }
  }
}
