/**
  The Base58 encoder and decoder as the loops that compute them: repeated
  division collecting remainders, zero digits appended per leading zero byte,
  an in-place reversal; and a right-to-left digit-times-multiplier sum. Each
  is proved to compute exactly the functional `Encode` / `Decode`.
 */
module Base58Loops {
  import opened Wrappers
  import opened BigEndian
  import opened XrplBase58

  /** `s` read back to front. */
  function Reverse(s: string): string
  {
    seq(|s|, i requires 0 <= i < |s| => s[|s| - 1 - i])
  }

  lemma ReverseAppend(s: string, c: char)
    ensures Reverse(s + [c]) == [c] + Reverse(s)
  {
  }

  /**
    The encoder's first loop: divide by 58 until nothing is left, appending
    the alphabet character of each remainder. The digits come out least
    significant first, so the buffer is the reversed numeral.
   */
  method Remainders(b58: Base58, value: nat) returns (result: string)
    requires WellFormed(b58)
    ensures Reverse(result) == Digits(b58, value)
  {
    var x: nat := value;
    result := [];
    while x > 0
      invariant Digits(b58, x) + Reverse(result) == Digits(b58, value)
      decreases x
    {
      var mod := x % Base;
      var digit := b58.alphabet[mod];
      ghost var high := Digits(b58, x / Base);
      ghost var low := Reverse(result);
      DigitsUnfold(b58, x);
      ReverseAppend(result, digit);
      assert high + ([digit] + low) == (high + [digit]) + low;
      x := x / Base;
      result := result + [digit];
    }
  }

  /** The encoder's last loop: swap from both ends towards the middle. */
  method ReverseInPlace(buffer: string) returns (result: string)
    ensures result == Reverse(buffer)
  {
    result := buffer;
    var lo, hi := 0, |result| - 1;
    while lo < hi
      invariant 0 <= lo <= hi + 1 && hi == |buffer| - 1 - lo
      invariant |result| == |buffer|
      invariant forall k | 0 <= k < lo :: result[k] == buffer[|buffer| - 1 - k]
      invariant forall k | 0 <= k < lo :: result[|buffer| - 1 - k] == buffer[k]
      invariant forall k | lo <= k <= hi :: result[k] == buffer[k]
    {
      result := result[lo := result[hi]][hi := result[lo]];
      lo, hi := lo + 1, hi - 1;
    }
  }

  /**
    The whole encoder: the remainders of the value, one zero digit appended
    per leading zero byte (stopping at the first non-zero byte), and the
    buffer reversed. The result is `Encode`.
   */
  method EncodeLoop(b58: Base58, input: seq<Byte>) returns (s: string)
    requires WellFormed(b58)
    ensures s == Encode(b58, input)
  {
    var result := Remainders(b58, ToNat(input));
    ghost var digitsReversed := result;

    var i := 0;
    while i < |input|
      invariant i <= |input|
      invariant forall j | 0 <= j < i :: input[j] == 0
      invariant result == digitsReversed + ZeroSymbols(b58, i)
    {
      if input[i] != 0 {
        break;
      }
      result := result + [b58.alphabet[0]];
      i := i + 1;
    }
    assert i == LeadingZeros(input);

    s := ReverseInPlace(result);
    assert s == ZeroSymbols(b58, i) + Digits(b58, ToNat(input)) by {
      var digits := Digits(b58, ToNat(input));
      forall k | 0 <= k < |s|
        ensures s[k] == (ZeroSymbols(b58, i) + digits)[k]
      {
        if k >= i {
          assert s[k] == digitsReversed[|digitsReversed| - 1 - (k - i)];
        }
      }
    }
  }

  /**
    When every character right of position `i` is a digit and the one at `i`
    is not, `i` is the position `Decode` reports.
   */
  lemma StopsAtLastInvalid(b58: Base58, s: string, i: nat)
    requires i < |s| && s[i] !in b58.alphabetMap && Valid(b58, s[i + 1..])
    ensures !Valid(b58, s) && LastInvalid(b58, s) == i
  {
    assert forall j | i < j < |s| :: s[j] == s[i + 1..][j - i - 1];
  }

  /** One step of the right-to-left sum: the suffix grows by one digit. */
  lemma AddDigit(b58: Base58, s: string, i: nat)
    requires WellFormed(b58) && i < |s| && s[i] in b58.alphabetMap && Valid(b58, s[i + 1..])
    ensures Valid(b58, s[i..])
    ensures Value(b58, s[i..]) == b58.alphabetMap[s[i]] * Pow(Base, |s| - 1 - i) + Value(b58, s[i + 1..])
  {
    SplitAt(s, i);
    ValueOfCons(b58, s[i], s[i + 1..]);
  }

  /**
    The decoder's first loop: from the last character to the first, add the
    digit times the running power of 58, stopping at the first character
    (from the right) that is not in the alphabet. On success the sum is the
    value of the whole string.
   */
  method SumDigits(b58: Base58, input: string) returns (r: Result<nat, DecodeError>)
    requires WellFormed(b58)
    ensures r.Success? <==> Valid(b58, input)
    ensures r.Success? ==> r.value == Value(b58, input)
    ensures r.Failure? ==> r.error == InvalidCharacter(input[LastInvalid(b58, input)])
  {
    var result: nat := 0;
    var multi: nat := 1;
    var i: int := |input| - 1;
    while i >= 0
      invariant -1 <= i < |input|
      invariant Valid(b58, input[i + 1..])
      invariant result == Value(b58, input[i + 1..])
      invariant multi == Pow(Base, |input| - 1 - i)
    {
      if input[i] !in b58.alphabetMap {
        StopsAtLastInvalid(b58, input, i);
        return Failure(InvalidCharacter(input[i]));
      }
      var digit := b58.alphabetMap[input[i]];
      AddDigit(b58, input, i);
      result := result + digit * multi;
      multi := multi * Base;
      i := i - 1;
    }
    assert input[0..] == input;
    return Success(result);
  }

  /** The decoder's second loop: count the zero digits the input starts with. */
  method CountZeroSymbols(b58: Base58, input: string) returns (numZeros: nat)
    requires WellFormed(b58)
    ensures numZeros == LeadingSymbols(b58, input)
  {
    numZeros := 0;
    while numZeros < |input| && input[numZeros] == b58.alphabet[0]
      invariant numZeros <= LeadingSymbols(b58, input)
    {
      numZeros := numZeros + 1;
    }
  }

  /**
    The whole decoder: the digit sum, then as many zero bytes as there are
    leading zero digits, prepended to the shortest big-endian bytes of the
    sum. The result is `Decode`.
   */
  method DecodeLoop(b58: Base58, input: string) returns (r: Result<seq<Byte>, DecodeError>)
    requires WellFormed(b58)
    ensures r == Decode(b58, input)
  {
    var sum := SumDigits(b58, input);
    if sum.Failure? {
      return Failure(sum.error);
    }
    ghost var expected := Zeros(LeadingSymbols(b58, input)) + FromNat(Value(b58, input));
    assert Decode(b58, input) == Success(expected);
    var resultBytes := FromNat(sum.value);
    var numZeros := CountZeroSymbols(b58, input);
    if numZeros > 0 {
      resultBytes := Zeros(numZeros) + resultBytes;
    } else {
      assert resultBytes == Zeros(0) + resultBytes;
    }
    return Success(resultBytes);
  }
}
