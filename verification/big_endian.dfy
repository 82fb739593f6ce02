/**
  Unsigned big-endian byte strings and the arbitrary-precision integers they
  denote: the two `math/big` conversions the Base58 codec relies on,
  `(*big.Int).SetBytes` (bytes to number) and `(*big.Int).Bytes` (number to
  its shortest big-endian form, empty for zero).
 */
module BigEndian {

  /** One octet, as Go's `byte`. */
  type Byte = b: int | 0 <= b < 256

  /** `n` zero bytes. */
  function Zeros(n: nat): seq<Byte>
  {
    seq(n, _ => 0)
  }

  /** `b` to the power `e`. */
  function Pow(b: nat, e: nat): nat
  {
    if e == 0 then 1 else b * Pow(b, e - 1)
  }

  /**
    The unsigned number a big-endian byte string denotes (`SetBytes`). A
    string of n bytes denotes a number below 256^n.
   */
  function ToNat(bs: seq<Byte>): (n: nat)
    ensures n < Pow(256, |bs|)
  {
    if |bs| == 0 then 0 else
      var front := bs[..|bs| - 1];
      ScaleBelow(ToNat(front), Pow(256, |front|), bs[|bs| - 1]);
      ToNat(front) * 256 + bs[|bs| - 1]
  }

  /**
    The shortest big-endian encoding of `n` (`Bytes`): it denotes `n`, it is
    empty exactly for zero, and it never starts with a zero byte.
   */
  function FromNat(n: nat): (bs: seq<Byte>)
    ensures ToNat(bs) == n
    ensures |bs| == 0 <==> n == 0
    ensures |bs| > 0 ==> bs[0] != 0
  {
    if n == 0 then [] else
      var bs := FromNat(n / 256) + [n % 256];
      assert bs[..|bs| - 1] == FromNat(n / 256);
      bs
  }

  /**
    The number of zero bytes a byte string starts with: the loop that stops at
    the first non-zero byte.
   */
  function LeadingZeros(bs: seq<Byte>): (k: nat)
    ensures k <= |bs|
    ensures forall i | 0 <= i < k :: bs[i] == 0
    ensures k < |bs| ==> bs[k] != 0
  {
    if |bs| > 0 && bs[0] == 0 then 1 + LeadingZeros(bs[1..]) else 0
  }

  /** Every byte string is its run of leading zeros followed by the rest. */
  lemma SplitLeadingZeros(bs: seq<Byte>)
    ensures bs == Zeros(LeadingZeros(bs)) + bs[LeadingZeros(bs)..]
  {
    var k := LeadingZeros(bs);
    assert bs[..k] == Zeros(k);
    assert bs == bs[..k] + bs[k..];
  }

  /** A string of zero bytes denotes zero. */
  lemma {:induction false} ToNatZeros(n: nat)
    ensures ToNat(Zeros(n)) == 0
  {
    if n > 0 {
      assert Zeros(n)[..n - 1] == Zeros(n - 1);
      ToNatZeros(n - 1);
    }
  }

  /** Leading zero bytes do not change the value: `SetBytes` drops them. */
  lemma {:induction false} ToNatIgnoresLeadingZeros(n: nat, bs: seq<Byte>)
    ensures ToNat(Zeros(n) + bs) == ToNat(bs)
    decreases |bs|
  {
    if |bs| == 0 {
      assert Zeros(n) + bs == Zeros(n);
      ToNatZeros(n);
    } else {
      var front := bs[..|bs| - 1];
      var all := Zeros(n) + bs;
      assert all[..|all| - 1] == Zeros(n) + front;
      assert all[|all| - 1] == bs[|bs| - 1];
      ToNatIgnoresLeadingZeros(n, front);
    }
  }

  /** A byte string with a non-zero first byte denotes a positive number. */
  lemma {:induction false} ToNatPositive(bs: seq<Byte>)
    requires |bs| > 0 && bs[0] != 0
    ensures ToNat(bs) > 0
    decreases |bs|
  {
    if |bs| > 1 {
      var front := bs[..|bs| - 1];
      assert front[0] == bs[0];
      ToNatPositive(front);
    }
  }

  /**
    On byte strings without a leading zero, `Bytes` after `SetBytes` gives the
    input back.
   */
  lemma {:induction false} FromNatToNat(bs: seq<Byte>)
    requires |bs| == 0 || bs[0] != 0
    ensures FromNat(ToNat(bs)) == bs
    decreases |bs|
  {
    if |bs| > 0 {
      var front := bs[..|bs| - 1];
      ToNatPositive(bs);
      if |front| > 0 {
        assert front[0] == bs[0];
      }
      FromNatToNat(front);
      SplitByte(ToNat(front), bs[|bs| - 1]);
      assert FromNat(ToNat(bs)) == FromNat(ToNat(front)) + [bs[|bs| - 1]];
      assert bs == front + [bs[|bs| - 1]];
    }
  }

  /** Division by 256 undoes appending a byte. */
  lemma SplitByte(v: nat, d: nat)
    requires d < 256
    ensures (v * 256 + d) / 256 == v && (v * 256 + d) % 256 == d
  {
  }

  /**
    `Bytes` after `SetBytes` gives the input without its leading zero bytes:
    exactly the length information a plain integer conversion loses.
   */
  lemma StripLeadingZeros(bs: seq<Byte>)
    ensures FromNat(ToNat(bs)) == bs[LeadingZeros(bs)..]
  {
    var k := LeadingZeros(bs);
    SplitLeadingZeros(bs);
    ToNatIgnoresLeadingZeros(k, bs[k..]);
    FromNatToNat(bs[k..]);
  }

  /** Appending a byte to a number below `p` stays below `256 * p`. */
  lemma ScaleBelow(v: nat, p: nat, d: nat)
    requires v < p && d < 256
    ensures v * 256 + d < p * 256
  {
  }

  /**
    Peeling the most significant byte off: it weighs 256 to the number of
    bytes after it.
   */
  lemma {:induction false} ToNatCons(b: Byte, rest: seq<Byte>)
    ensures ToNat([b] + rest) == b * Pow(256, |rest|) + ToNat(rest)
    decreases |rest|
  {
    var s := [b] + rest;
    if |rest| > 0 {
      var front := rest[..|rest| - 1];
      assert s[..|s| - 1] == [b] + front;
      ToNatCons(b, front);
      ShiftByte(b, Pow(256, |front|), ToNat(front), rest[|rest| - 1]);
    }
  }

  /** Appending a byte to a numeral with a known leading term. */
  lemma ShiftByte(b: nat, p: nat, v: nat, last: nat)
    ensures (b * p + v) * 256 + last == b * (256 * p) + (v * 256 + last)
  {
  }

  /** Powers add their exponents. */
  lemma {:induction false} PowAdd(b: nat, m: nat, n: nat)
    ensures Pow(b, m + n) == Pow(b, m) * Pow(b, n)
    decreases n
  {
    if n > 0 {
      PowAdd(b, m, n - 1);
      assert b * (Pow(b, m) * Pow(b, n - 1)) == Pow(b, m) * (b * Pow(b, n - 1));
    }
  }

  /** The fourth power, written out. */
  lemma PowFour(b: nat)
    ensures Pow(b, 4) == b * b * b * b
  {
    assert Pow(b, 1) == b;
    assert Pow(b, 2) == b * b;
    assert Pow(b, 3) == b * b * b;
  }
}
