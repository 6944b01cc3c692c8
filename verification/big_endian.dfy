/** Fixed-width big-endian encoding, as `binary.Write(…, binary.BigEndian, x)`
    produces it; used for the remote key of an epoch. */
module BigEndian {
  import opened Ints

  /** 256 to the power `n`: the number of values `n` bytes can hold. */
  function Pow256(n: nat): (p: nat)
    ensures p > 0
  {
    if n == 0 then 1 else 256 * Pow256(n - 1)
  }

  /** The `n` low-order bytes of `u`, most significant first. */
  function EncodeUint(u: nat, n: nat): (bs: seq<byte>)
    ensures |bs| == n
  {
    if n == 0 then [] else EncodeUint(u / 256, n - 1) + [u % 256]
  }

  /** The unsigned value of a big-endian byte string. */
  function DecodeUint(bs: seq<byte>): nat
  {
    if |bs| == 0 then 0 else DecodeUint(bs[..|bs| - 1]) * 256 + bs[|bs| - 1]
  }

  /** `n` bytes hold values below `256^n`. */
  lemma {:induction false} DecodeUintBound(bs: seq<byte>)
    ensures DecodeUint(bs) < Pow256(|bs|)
  {
    if |bs| > 0 {
      DecodeUintBound(bs[..|bs| - 1]);
    }
  }

  /** Decoding undoes encoding for every value that fits in `n` bytes. */
  lemma {:induction false} DecodeEncodeUint(u: nat, n: nat)
    requires u < Pow256(n)
    ensures DecodeUint(EncodeUint(u, n)) == u
  {
    if n > 0 {
      DecodeEncodeUint(u / 256, n - 1);
      var bs := EncodeUint(u, n);
      assert bs[..n - 1] == EncodeUint(u / 256, n - 1);
    }
  }

  /** Encoding undoes decoding: every byte string is the encoding of its value. */
  lemma {:induction false} EncodeDecodeUint(bs: seq<byte>)
    ensures EncodeUint(DecodeUint(bs), |bs|) == bs
  {
    if |bs| > 0 {
      var n := |bs| - 1;
      EncodeDecodeUint(bs[..n]);
      var v := DecodeUint(bs);
      assert v / 256 == DecodeUint(bs[..n]);
      assert v % 256 == bs[n];
      assert bs == bs[..n] + [bs[n]];
    }
  }

  lemma Pow256Of8()
    ensures Pow256(7) == 0x100_0000_0000_0000
    ensures Pow256(8) == TwoTo64
  {
    assert Pow256(2) == 0x1_0000;
    assert Pow256(4) == 0x1_0000_0000;
    assert Pow256(6) == 0x1_0000_0000_0000;
  }

  /** The 8-byte big-endian two's-complement encoding of an `int64`. */
  function EncodeInt64(x: Int64): (bs: seq<byte>)
    ensures |bs| == 8
  {
    EncodeUint(Int64ToUint64(x), 8)
  }

  /** The `int64` an 8-byte big-endian two's-complement string denotes. */
  function DecodeInt64(bs: seq<byte>): Int64
    requires |bs| == 8
  {
    DecodeUintBound(bs);
    Pow256Of8();
    Uint64ToInt64(DecodeUint(bs))
  }

  /** Decoding the key of an epoch yields the epoch back; in particular
      distinct epochs get distinct keys. */
  lemma Int64RoundTrip(x: Int64)
    ensures DecodeInt64(EncodeInt64(x)) == x
  {
    Pow256Of8();
    DecodeEncodeUint(Int64ToUint64(x), 8);
  }

  /** Every 8-byte string is the key of exactly one epoch. */
  lemma Int64KeyRoundTrip(bs: seq<byte>)
    requires |bs| == 8
    ensures EncodeInt64(DecodeInt64(bs)) == bs
  {
    DecodeUintBound(bs);
    Pow256Of8();
    EncodeDecodeUint(bs);
  }

  /** The most significant bit of the key is the sign of the epoch. */
  lemma Int64KeySign(x: Int64)
    ensures EncodeInt64(x)[0] >= 128 <==> x < 0
  {
    var u := Int64ToUint64(x);
    var bs := EncodeInt64(x);
    Pow256Of8();
    DecodeEncodeUint(u, 8);
    LeadingByte(bs);
  }

  /** Decoding from the front: the first byte weighs `256^(|bs|-1)`. */
  lemma {:induction false} DecodeUintFront(bs: seq<byte>)
    requires |bs| > 0
    ensures DecodeUint(bs) == bs[0] * Pow256(|bs| - 1) + DecodeUint(bs[1..])
  {
    var n := |bs| - 1;
    if n > 0 {
      DecodeUintFront(bs[..n]);
      assert bs[..n][1..] == bs[1..][..n - 1];
      assert bs[..n][0] == bs[0];
      calc {
        DecodeUint(bs);
        DecodeUint(bs[..n]) * 256 + bs[n];
        (bs[0] * Pow256(n - 1) + DecodeUint(bs[1..][..n - 1])) * 256 + bs[n];
        bs[0] * Pow256(n) + (DecodeUint(bs[1..][..n - 1]) * 256 + bs[1..][n - 1]);
      }
    } else {
      assert bs[..0] == [];
    }
  }

  /** The leading byte of an 8-byte string is at least 128 exactly when
      the string's value has its top bit set. */
  lemma LeadingByte(bs: seq<byte>)
    requires |bs| == 8
    ensures bs[0] >= 128 <==> DecodeUint(bs) >= TwoTo63
  {
    Pow256Of8();
    var p := Pow256(7);
    var rest := DecodeUint(bs[1..]);
    DecodeUintFront(bs);
    DecodeUintBound(bs[1..]);
    assert 128 * p == TwoTo63;
    if bs[0] >= 128 {
      MulMonotonic(128, bs[0], p);
    } else {
      MulMonotonic(bs[0] + 1, 128, p);
    }
  }

  lemma MulMonotonic(a: nat, b: nat, p: nat)
    requires a <= b
    ensures a * p <= b * p
  {
    assert b * p == a * p + (b - a) * p;
  }
}
