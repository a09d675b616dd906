/**
 Bytes, optional values, results and fixed-width big-endian integers: the vocabulary
 shared by the firmware model and the Python client model.
 */
module Bytes {

  /** An unsigned 8-bit value (C `uint8_t`, one element of a Python `bytes`). */
  type byte = b: int | 0 <= b < 256

  datatype Option<+T> = None | Some(value: T)

  /** A value or the error that stopped its computation; usable with `:-`. */
  datatype Result<+T, +E> = Ok(value: T) | Err(error: E) {
    predicate IsFailure() {
      Err?
    }

    function PropagateFailure<U>(): Result<U, E>
      requires Err?
    {
      Err(error)
    }

    function Extract(): T
      requires Ok?
    {
      value
    }
  }

  /** 256 to the power n: the number of values that fit in n bytes. */
  function Pow256(n: nat): (p: nat)
    ensures p >= 1
  {
    if n == 0 then 1 else 256 * Pow256(n - 1)
  }

  /** The n-byte big-endian encoding of x (Python `x.to_bytes(n, 'big')` for an x that fits). */
  function ToBE(x: nat, n: nat): (r: seq<byte>)
    requires x < Pow256(n)
    ensures |r| == n
    decreases n
  {
    if n == 0 then []
    else
      assert x / 256 < Pow256(n - 1);
      ToBE(x / 256, n - 1) + [x % 256]
  }

  /** The unsigned big-endian value of s (Python `int.from_bytes(s, 'big')`). */
  function FromBE(s: seq<byte>): (v: nat)
    ensures v < Pow256(|s|)
  {
    if |s| == 0 then 0
    else
      var hi := FromBE(s[..|s| - 1]);
      assert hi * 256 + s[|s| - 1] < 256 * Pow256(|s| - 1) by {
        assert hi + 1 <= Pow256(|s| - 1);
        assert (hi + 1) * 256 <= Pow256(|s| - 1) * 256;
      }
      hi * 256 + s[|s| - 1]
  }

  /** Decoding an encoding gives back the number. */
  lemma {:induction false} FromToBE(x: nat, n: nat)
    requires x < Pow256(n)
    ensures FromBE(ToBE(x, n)) == x
    decreases n
  {
    if n > 0 {
      var s := ToBE(x, n);
      assert s[..n - 1] == ToBE(x / 256, n - 1);
      FromToBE(x / 256, n - 1);
    }
  }

  /** Encoding a decoded byte string at its own width gives back the bytes. */
  lemma {:induction false} ToFromBE(s: seq<byte>)
    ensures ToBE(FromBE(s), |s|) == s
  {
    if |s| > 0 {
      var pre := s[..|s| - 1];
      var v := FromBE(s);
      assert v / 256 == FromBE(pre);
      assert v % 256 == s[|s| - 1];
      ToFromBE(pre);
      assert s == pre + [s[|s| - 1]];
    }
  }
}
