/**
  The XRP Ledger flavour of Base58: Bitcoin-style base-58 positional notation
  over a custom alphabet whose first symbol, 'r', is the zero digit. Leading
  zero bytes and leading 'r's stand for each other one to one, so no length
  information is lost.

  The operations take the codec value `b58` as the Go methods take their
  receiver; the only codec ever built is the one `NewBase58` returns, and the
  laws below hold for every well-formed codec.
 */
module XrplBase58 {
  import opened Wrappers
  import opened BigEndian

  /** The radix. */
  const Base: nat := 58

  /**
    The XRPL alphabet, digit value = position. It is the single string
    "rpshnaf39wBUDNEGHJKLM4PQRST7VWXYZ2bcdeCg65jkm8oFqi1tuvAxyz", written as
    four literals so that the verifier can index every position.
   */
  const XrplAlphabet: string :=
    "rpshnaf39wBUDNE" + "GHJKLM4PQRST7VW" + "XYZ2bcdeCg65jk" + "m8oFqi1tuvAxyz"

  /** The codec: the alphabet, its inverse lookup table and the radix. */
  datatype Base58 = Base58(alphabet: string, alphabetMap: map<char, nat>, baseMultiple: nat)

  /** No character occurs twice in `s`. */
  predicate Distinct(s: string)
  {
    forall i, j | 0 <= i < j < |s| :: s[i] != s[j]
  }

  /**
    The lookup table built by ranging over a string and recording each
    character's position; a later occurrence overwrites an earlier one.
   */
  function IndexMap(s: string): (m: map<char, nat>)
    ensures forall c :: c in m <==> c in s
    ensures forall c | c in m :: m[c] < |s| && s[m[c]] == c
  {
    if |s| == 0 then map[] else
      var front := s[..|s| - 1];
      var m := IndexMap(front)[s[|s| - 1] := |s| - 1];
      assert forall c :: c in s <==> c in front || c == s[|s| - 1];
      m
  }

  /**
    A codec as `NewBase58` builds it: 58 distinct characters, radix 58, and
    the table the construction loop fills from the alphabet.
   */
  predicate WellFormed(b58: Base58)
  {
    && |b58.alphabet| == Base
    && b58.baseMultiple == Base
    && Distinct(b58.alphabet)
    && b58.alphabetMap == IndexMap(b58.alphabet)
  }

  /**
    In a well-formed codec the table is the exact inverse of the alphabet:
    every alphabet character maps back to its own position, every key is an
    alphabet character, and every value is a digit below the radix.
   */
  lemma TableInvertsAlphabet(b58: Base58)
    requires WellFormed(b58)
    ensures forall d | 0 <= d < Base :: b58.alphabet[d] in b58.alphabetMap && b58.alphabetMap[b58.alphabet[d]] == d
    ensures forall c | c in b58.alphabetMap :: b58.alphabetMap[c] < Base && b58.alphabet[b58.alphabetMap[c]] == c
  {
    forall d | 0 <= d < Base
      ensures b58.alphabet[d] in b58.alphabetMap && b58.alphabetMap[b58.alphabet[d]] == d
    {
      assert b58.alphabet[d] in b58.alphabet;
    }
  }

  lemma FirstChunkDistinct()
    ensures forall i, j | 0 <= j < i < 15 :: XrplAlphabet[i] != XrplAlphabet[j]
  {}

  lemma SecondChunkDistinct()
    ensures forall i, j | 0 <= j < i && 15 <= i < 30 :: XrplAlphabet[i] != XrplAlphabet[j]
  {}

  lemma ThirdChunkDistinct()
    ensures forall i, j | 0 <= j < i && 30 <= i < 44 :: XrplAlphabet[i] != XrplAlphabet[j]
  {}

  lemma FourthChunkDistinct()
    ensures forall i, j | 0 <= j < i && 44 <= i < 58 :: XrplAlphabet[i] != XrplAlphabet[j]
  {}

  /** Digit 2 of the alphabet, the leading symbol of every family seed. */
  lemma SeedSymbol()
    ensures XrplAlphabet[2] == 's'
  {
  }

  /**
    `NewBase58`: the XRPL alphabet, the table filled by ranging over it, and
    radix 58. The alphabet's 58 characters are pairwise distinct, so the
    result is well formed and 'r' is its zero digit.
   */
  function NewBase58(): (b58: Base58)
    ensures WellFormed(b58)
    ensures b58.alphabet == XrplAlphabet && b58.alphabet[0] == 'r'
  {
    FirstChunkDistinct();
    SecondChunkDistinct();
    ThirdChunkDistinct();
    FourthChunkDistinct();
    Base58(XrplAlphabet, IndexMap(XrplAlphabet), 58)
  }

  /**
    The table `NewBase58` builds maps each of the 58 alphabet characters to
    its position and has no other key.
   */
  lemma AlphabetMapIsInverse()
    ensures var b58 := NewBase58();
      && (forall i | 0 <= i < Base :: b58.alphabet[i] in b58.alphabetMap && b58.alphabetMap[b58.alphabet[i]] == i)
      && (forall c :: c in b58.alphabetMap <==> c in XrplAlphabet)
  {
    TableInvertsAlphabet(NewBase58());
  }

  /** The zero digit of a codec. */
  function ZeroSymbol(b58: Base58): char
    requires WellFormed(b58)
  {
    b58.alphabet[0]
  }

  /** The zero digit is the one character the table maps to zero. */
  lemma ZeroDigit(b58: Base58)
    requires WellFormed(b58)
    ensures ZeroSymbol(b58) in b58.alphabetMap
    ensures forall c | c in b58.alphabetMap :: b58.alphabetMap[c] == 0 <==> c == ZeroSymbol(b58)
  {
    TableInvertsAlphabet(b58);
  }

  /** Every character of `s` is a digit. */
  predicate Valid(b58: Base58, s: string)
  {
    forall i | 0 <= i < |s| :: s[i] in b58.alphabetMap
  }

  /** The number a string of digits denotes, most significant digit first. */
  function Value(b58: Base58, s: string): nat
    requires Valid(b58, s)
  {
    if |s| == 0 then 0 else Value(b58, s[..|s| - 1]) * Base + b58.alphabetMap[s[|s| - 1]]
  }

  /**
    Peeling the most significant digit off: the value is that digit times
    58^(number of digits after it) plus the value of the rest. This is the
    right-to-left digit-times-multiplier sum the decoder computes.
   */
  lemma {:induction false} ValueOfCons(b58: Base58, c: char, t: string)
    requires c in b58.alphabetMap && Valid(b58, t)
    ensures Valid(b58, [c] + t)
    ensures Value(b58, [c] + t) == b58.alphabetMap[c] * Pow(Base, |t|) + Value(b58, t)
    decreases |t|
  {
    var s := [c] + t;
    assert Valid(b58, s) by {
      forall i | 0 <= i < |s| ensures s[i] in b58.alphabetMap {
        if i > 0 { assert s[i] == t[i - 1]; }
      }
    }
    if |t| > 0 {
      var front := t[..|t| - 1];
      assert Valid(b58, front) by {
        forall i | 0 <= i < |front| ensures front[i] in b58.alphabetMap {
          assert front[i] == t[i];
        }
      }
      assert s[..|s| - 1] == [c] + front;
      ValueOfCons(b58, c, front);
      ShiftDigit(b58.alphabetMap[c], Pow(Base, |front|), Value(b58, front), b58.alphabetMap[t[|t| - 1]]);
    }
  }

  /** Appending a digit to a numeral with a known leading term. */
  lemma ShiftDigit(d: nat, p: nat, v: nat, last: nat)
    ensures (d * p + v) * Base + last == d * (Base * p) + (v * Base + last)
  {
  }

  /** `n` copies of the zero digit. */
  function ZeroSymbols(b58: Base58, n: nat): string
    requires WellFormed(b58)
  {
    seq(n, _ => ZeroSymbol(b58))
  }

  /** The number of zero digits a string starts with. */
  function LeadingSymbols(b58: Base58, s: string): (k: nat)
    requires WellFormed(b58)
    ensures k <= |s|
    ensures forall i | 0 <= i < k :: s[i] == ZeroSymbol(b58)
    ensures k < |s| ==> s[k] != ZeroSymbol(b58)
  {
    if |s| > 0 && s[0] == ZeroSymbol(b58) then 1 + LeadingSymbols(b58, s[1..]) else 0
  }

  /**
    `n` zero digits in front of a string that does not start with one are
    counted as exactly `n` leading zero digits.
   */
  lemma CountZeroSymbolsOf(b58: Base58, n: nat, t: string)
    requires WellFormed(b58) && (|t| == 0 || t[0] != ZeroSymbol(b58))
    ensures LeadingSymbols(b58, ZeroSymbols(b58, n) + t) == n
  {
    var s := ZeroSymbols(b58, n) + t;
    if n < |s| {
      assert s[n] == t[0];
    }
  }

  /** Leading zero digits contribute nothing to the value. */
  lemma {:induction false} ValueIgnoresZeroSymbols(b58: Base58, n: nat, t: string)
    requires WellFormed(b58) && Valid(b58, t)
    ensures Valid(b58, ZeroSymbols(b58, n) + t)
    ensures Value(b58, ZeroSymbols(b58, n) + t) == Value(b58, t)
  {
    if n == 0 {
      assert ZeroSymbols(b58, n) + t == t;
    } else {
      var rest := ZeroSymbols(b58, n - 1) + t;
      ValueIgnoresZeroSymbols(b58, n - 1, t);
      PrependZeroSymbol(b58, n, t);
      ZeroDigit(b58);
      ValueOfCons(b58, ZeroSymbol(b58), rest);
      assert b58.alphabetMap[ZeroSymbol(b58)] == 0;
    }
  }

  /** One more zero digit in front is one more leading zero digit. */
  lemma PrependZeroSymbol(b58: Base58, n: nat, t: string)
    requires WellFormed(b58) && n > 0
    ensures ZeroSymbols(b58, n) + t == [ZeroSymbol(b58)] + (ZeroSymbols(b58, n - 1) + t)
  {
    assert ZeroSymbols(b58, n) == [ZeroSymbol(b58)] + ZeroSymbols(b58, n - 1);
  }

  /** A digit string whose first digit is not zero denotes a positive number. */
  lemma {:induction false} ValuePositive(b58: Base58, t: string)
    requires WellFormed(b58) && Valid(b58, t) && |t| > 0 && t[0] != ZeroSymbol(b58)
    ensures Value(b58, t) > 0
    decreases |t|
  {
    ZeroDigit(b58);
    if |t| > 1 {
      var front := t[..|t| - 1];
      assert front[0] == t[0];
      ValuePositive(b58, front);
    }
  }

  /**
    The base-58 digits of `x`, most significant first: the remainders of
    repeated division by 58, reversed. Zero has no digits, and a non-empty
    result never starts with the zero digit.
   */
  function Digits(b58: Base58, x: nat): (s: string)
    requires WellFormed(b58)
    ensures Valid(b58, s)
    ensures |s| == 0 <==> x == 0
    ensures |s| > 0 ==> s[0] != ZeroSymbol(b58)
  {
    if x == 0 then "" else
      var high := Digits(b58, x / Base);
      var low := b58.alphabet[x % Base];
      TableInvertsAlphabet(b58);
      assert low in b58.alphabetMap && (x < Base ==> low != ZeroSymbol(b58));
      high + [low]
  }

  /** The digits of `x` denote `x`. */
  lemma {:induction false} DigitsDenote(b58: Base58, x: nat)
    requires WellFormed(b58)
    ensures Value(b58, Digits(b58, x)) == x
  {
    if x > 0 {
      var high := Digits(b58, x / Base);
      var s := Digits(b58, x);
      TableInvertsAlphabet(b58);
      assert s[..|s| - 1] == high;
      DigitsDenote(b58, x / Base);
    }
  }

  /**
    Digits of the value of a digit string without a leading zero digit give
    that string back: such strings are the canonical numerals.
   */
  lemma {:induction false} DigitsOfValue(b58: Base58, t: string)
    requires WellFormed(b58) && Valid(b58, t) && (|t| == 0 || t[0] != ZeroSymbol(b58))
    ensures Digits(b58, Value(b58, t)) == t
    decreases |t|
  {
    if |t| > 0 {
      var front := t[..|t| - 1];
      ValidPrefix(b58, t, |t| - 1);
      if |front| > 0 {
        assert front[0] == t[0];
        ValuePositive(b58, front);
      } else {
        ZeroDigit(b58);
      }
      DigitsOfValue(b58, front);
      DigitsOfValueStep(b58, t);
    }
  }

  /** The inductive step of `DigitsOfValue`: one more digit on the right. */
  lemma DigitsOfValueStep(b58: Base58, t: string)
    requires WellFormed(b58) && Valid(b58, t) && |t| > 0
    requires Digits(b58, Value(b58, t[..|t| - 1])) == t[..|t| - 1]
    requires Value(b58, t[..|t| - 1]) > 0 || b58.alphabetMap[t[|t| - 1]] > 0
    ensures Digits(b58, Value(b58, t)) == t
  {
    var front, last := t[..|t| - 1], t[|t| - 1];
    SplitLast(t);
    DigitOf(b58, last);
    var v, d := Value(b58, front), b58.alphabetMap[last];
    assert Value(b58, t) == v * Base + d;
    DigitsSnoc(b58, v, d);
  }

  /** The suffix from position `i` is the element there followed by the rest. */
  lemma SplitAt<T>(s: seq<T>, i: nat)
    requires i < |s|
    ensures s[i..] == [s[i]] + s[i + 1..]
  {
  }

  /** A non-empty sequence is its front followed by its last element. */
  lemma SplitLast<T>(s: seq<T>)
    requires |s| > 0
    ensures s == s[..|s| - 1] + [s[|s| - 1]]
  {
  }

  /** A digit character is the alphabet entry at its table value. */
  lemma DigitOf(b58: Base58, c: char)
    requires WellFormed(b58) && c in b58.alphabetMap
    ensures b58.alphabetMap[c] < Base && b58.alphabet[b58.alphabetMap[c]] == c
  {
    TableInvertsAlphabet(b58);
  }

  /** Appending a digit to a numeral multiplies by the radix and adds it. */
  lemma DigitsSnoc(b58: Base58, v: nat, d: nat)
    requires WellFormed(b58) && d < Base && v * Base + d > 0
    ensures Digits(b58, v * Base + d) == Digits(b58, v) + [b58.alphabet[d]]
  {
    SplitDigit(v, d);
  }

  /** A prefix of a digit string is a digit string. */
  lemma ValidPrefix(b58: Base58, s: string, n: nat)
    requires Valid(b58, s) && n <= |s|
    ensures Valid(b58, s[..n])
  {
    assert forall i | 0 <= i < n :: s[..n][i] == s[i];
  }

  /** Division by the radix undoes appending a digit. */
  lemma SplitDigit(v: nat, d: nat)
    requires d < Base
    ensures (v * Base + d) / Base == v && (v * Base + d) % Base == d
  {
  }

  /**
    `Encode`: one zero digit per leading zero byte, then the base-58 digits of
    the number the bytes denote. Every output character is in the alphabet,
    the run of leading zero digits is exactly as long as the run of leading
    zero bytes, and the digits denote the same number as the bytes.
   */
  function Encode(b58: Base58, input: seq<Byte>): (s: string)
    requires WellFormed(b58)
    ensures Valid(b58, s)
    ensures LeadingSymbols(b58, s) == LeadingZeros(input)
    ensures Value(b58, s) == ToNat(input)
    ensures |s| == 0 <==> |input| == 0
  {
    var k := LeadingZeros(input);
    var digits := Digits(b58, ToNat(input));
    var s := ZeroSymbols(b58, k) + digits;
    DigitsDenote(b58, ToNat(input));
    ValueIgnoresZeroSymbols(b58, k, digits);
    CountZeroSymbolsOf(b58, k, digits);
    assert |input| > 0 && k == 0 ==> ToNat(input) > 0 by {
      if |input| > 0 && k == 0 { ToNatPositive(input); }
    }
    s
  }

  /**
    A number whose leading base-58 digit is `d`, followed by `n` more digits,
    is written with `n + 1` characters starting with `alphabet[d]`.
   */
  lemma {:induction false} DigitsLeading(b58: Base58, x: nat, n: nat, d: nat)
    requires WellFormed(b58) && 0 < d < Base
    requires d * Pow(Base, n) <= x < (d + 1) * Pow(Base, n)
    ensures |Digits(b58, x)| == n + 1 && Digits(b58, x)[0] == b58.alphabet[d]
    decreases n
  {
    if n == 0 {
      assert Pow(Base, 0) == 1;
      SingleDigit(b58, x);
    } else {
      DigitsUnfold(b58, x);
      DivideRange(x, n, d);
      DigitsLeading(b58, x / Base, n - 1, d);
    }
  }

  /** A number below the radix is written with the one character for it. */
  lemma SingleDigit(b58: Base58, x: nat)
    requires WellFormed(b58) && 0 < x < Base
    ensures Digits(b58, x) == [b58.alphabet[x]]
  {
    DigitsUnfold(b58, x);
  }

  /** Dropping the last digit keeps the leading digit and removes one place. */
  lemma DivideRange(x: nat, n: nat, d: nat)
    requires n > 0 && d * Pow(Base, n) <= x < (d + 1) * Pow(Base, n)
    ensures d * Pow(Base, n - 1) <= x / Base < (d + 1) * Pow(Base, n - 1)
  {
    var p := Pow(Base, n - 1);
    PowScale(d, n);
    PowScale(d + 1, n);
    DivBounds(x, d * p, (d + 1) * p);
  }

  /** Dividing off the least significant digit. */
  lemma DigitsUnfold(b58: Base58, x: nat)
    requires WellFormed(b58) && x > 0
    ensures Digits(b58, x) == Digits(b58, x / Base) + [b58.alphabet[x % Base]]
  {
  }

  /** One more place multiplies by the radix. */
  lemma PowScale(d: nat, n: nat)
    requires n > 0
    ensures d * Pow(Base, n) == (d * Pow(Base, n - 1)) * Base
  {
  }

  /** Bounds on a number scaled by the radix bound its quotient. */
  lemma DivBounds(x: nat, lo: nat, hi: nat)
    requires lo * Base <= x < hi * Base
    ensures lo <= x / Base < hi
  {
  }

  /**
    The encoding of bytes without a leading zero, whose value has leading
    base-58 digit `d` and `n` more digits, is `n + 1` characters starting with
    `alphabet[d]`.
   */
  lemma EncodeLeading(b58: Base58, input: seq<Byte>, n: nat, d: nat)
    requires WellFormed(b58) && 0 < d < Base && |input| > 0 && input[0] != 0
    requires d * Pow(Base, n) <= ToNat(input) < (d + 1) * Pow(Base, n)
    ensures |Encode(b58, input)| == n + 1 && Encode(b58, input)[0] == b58.alphabet[d]
  {
    DigitsLeading(b58, ToNat(input), n, d);
    assert Encode(b58, input) == Digits(b58, ToNat(input));
  }

  /** The decoder's only error: a character outside the alphabet. */
  datatype DecodeError = InvalidCharacter(c: char)

  /** The position of the last character that is not a digit. */
  function LastInvalid(b58: Base58, s: string): (i: nat)
    requires !Valid(b58, s)
    ensures i < |s| && s[i] !in b58.alphabetMap
    ensures forall j | i < j < |s| :: s[j] in b58.alphabetMap
  {
    if s[|s| - 1] !in b58.alphabetMap then |s| - 1 else
      var front := s[..|s| - 1];
      assert !Valid(b58, front) by {
        var j :| 0 <= j < |s| && s[j] !in b58.alphabetMap;
        assert front[j] == s[j];
      }
      LastInvalid(b58, front)
  }

  /**
    `Decode`: fails, naming the offending character, exactly when some input
    character is outside the alphabet (the scan runs right to left, so it is
    the last such character). Otherwise the result has one zero byte per
    leading zero digit and denotes the digits' value; together these fix it
    as the leading zeros followed by the shortest big-endian bytes.
   */
  function Decode(b58: Base58, s: string): (r: Result<seq<Byte>, DecodeError>)
    requires WellFormed(b58)
    ensures r.Failure? <==> exists i | 0 <= i < |s| :: s[i] !in b58.alphabetMap
    ensures r.Failure? ==>
      && r.error.c !in b58.alphabetMap
      && exists i | 0 <= i < |s| :: s[i] == r.error.c && forall j | i < j < |s| :: s[j] in b58.alphabetMap
    ensures r.Success? ==> LeadingZeros(r.value) == LeadingSymbols(b58, s)
    ensures r.Success? ==> ToNat(r.value) == Value(b58, s)
  {
    if !Valid(b58, s) then
      var i := LastInvalid(b58, s);
      Failure(InvalidCharacter(s[i]))
    else
      var k := LeadingSymbols(b58, s);
      var bytes := Zeros(k) + FromNat(Value(b58, s));
      assert LeadingZeros(bytes) == k by {
        if k < |bytes| { assert bytes[k] == FromNat(Value(b58, s))[0]; }
      }
      ToNatIgnoresLeadingZeros(k, FromNat(Value(b58, s)));
      Success(bytes)
  }

  /** Decoding an encoding gives the bytes back, leading zeros included. */
  lemma DecodeEncode(b58: Base58, b: seq<Byte>)
    requires WellFormed(b58)
    ensures Decode(b58, Encode(b58, b)) == Success(b)
  {
    var k := LeadingZeros(b);
    StripLeadingZeros(b);
    SplitLeadingZeros(b);
    assert Decode(b58, Encode(b58, b)).value == Zeros(k) + FromNat(ToNat(b));
  }

  /**
    Encoding a successful decoding gives the string back: every string of
    alphabet characters is the encoding of exactly one byte string.
   */
  lemma EncodeDecode(b58: Base58, s: string)
    requires WellFormed(b58) && Decode(b58, s).Success?
    ensures Encode(b58, Decode(b58, s).value) == s
  {
    var k := LeadingSymbols(b58, s);
    var rest := s[k..];
    assert s == ZeroSymbols(b58, k) + rest;
    assert Valid(b58, rest) by {
      forall i | 0 <= i < |rest| ensures rest[i] in b58.alphabetMap {
        assert rest[i] == s[k + i];
      }
    }
    ValueIgnoresZeroSymbols(b58, k, rest);
    DigitsOfValue(b58, rest);
  }
}
