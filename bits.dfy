/** Binary digit sequences: the `binary(number, digits)` helper of
    cellular_automata.py and the arithmetic that specifies it.

    A digit sequence is most significant digit first, like the tuples the
    Python helper returns.
 */
module Bits {
  import opened Errors

  /** 2 to the power `k`. */
  function Pow2(k: nat): (r: nat)
    ensures r >= 1
  {
    if k == 0 then 1 else 2 * Pow2(k - 1)
  }

  /** Every entry of `s` is a binary digit. */
  predicate IsBits(s: seq<int>)
  {
    forall i :: 0 <= i < |s| ==> s[i] == 0 || s[i] == 1
  }

  /** The number a digit sequence denotes, most significant digit first:
      the sum of `b[k] * 2^(|b|-1-k)`. */
  function Value(b: seq<int>): (r: int)
    ensures IsBits(b) ==> 0 <= r < Pow2(|b|)
  {
    if |b| == 0 then 0 else 2 * Value(b[..|b| - 1]) + b[|b| - 1]
  }

  /** Bit `k` of `x`, counted from the least significant end. */
  function Digit(x: nat, k: nat): (r: int)
    ensures r == 0 || r == 1
  {
    if k == 0 then x % 2 else Digit(x / 2, k - 1)
  }

  /** Python's `[0] * count`: a list of zeros, empty when `count` is not positive. */
  function Zeros(count: int): (r: seq<int>)
    ensures |r| == (if count > 0 then count else 0)
    ensures forall i :: 0 <= i < |r| ==> r[i] == 0
  {
    seq(if count > 0 then count else 0, _ => 0)
  }

  /** Reference definition: the `d`-digit representation of `x`, built
      arithmetically from the least significant digit upwards. */
  function ToBits(x: nat, d: nat): (r: seq<int>)
    requires x < Pow2(d)
    ensures |r| == d && IsBits(r) && Value(r) == x
  {
    if d == 0 then [] else
      assert (ToBits(x / 2, d - 1) + [x % 2])[..d - 1] == ToBits(x / 2, d - 1);
      ToBits(x / 2, d - 1) + [x % 2]
  }

  /** `bin(x).removeprefix("0b")` as digits: the shortest representation,
      which is `[0]` for zero and starts with a 1 otherwise. */
  function BinDigits(x: nat): (r: seq<int>)
    ensures |r| >= 1 && IsBits(r) && Value(r) == x
    ensures x == 0 <==> r == [0]
    ensures x > 0 ==> r[0] == 1
  {
    if x < 2 then [x] else
      assert (BinDigits(x / 2) + [x % 2])[..|BinDigits(x / 2)|] == BinDigits(x / 2);
      BinDigits(x / 2) + [x % 2]
  }

  /** Python's `str.zfill(width)` on a digit string: pad with zeros on the
      left up to `width` entries; never truncate. */
  function ZFill(s: seq<int>, width: int): (r: seq<int>)
    ensures |r| == (if width > |s| then width else |s|)
    ensures r[|r| - |s|..] == s
    ensures forall i :: 0 <= i < |r| - |s| ==> r[i] == 0
  {
    Zeros(width - |s|) + s
  }

  /** `binary(number, digits)` (cellular_automata.py:4-17): fails unless
      `0 <= number < 2^digits`; otherwise the shortest binary digits of
      `number`, zero-padded on the left to `digits` entries. */
  function Binary(number: int, digits: nat): (r: Result<seq<int>>)
    ensures r.Ok? <==> 0 <= number < Pow2(digits)
    ensures !r.Ok? ==> r.error == InvalidArgument
    ensures r.Ok? ==> IsBits(r.value) && Value(r.value) == number
    ensures r.Ok? ==> |r.value| == (if digits == 0 then 1 else digits)
  {
    if !(0 <= number < Pow2(digits)) then Err(InvalidArgument)
    else
      BinDigitsLength(number, digits);
      ValueOfZeroPadded(digits - |BinDigits(number)|, BinDigits(number));
      assert ZFill(BinDigits(number), digits) == Zeros(digits - |BinDigits(number)|) + BinDigits(number);
      Ok(ZFill(BinDigits(number), digits))
  }

  /** Leading zeros do not change the value of a digit sequence. */
  lemma {:induction false} ValueOfZeroPadded(count: int, s: seq<int>)
    ensures Value(Zeros(count) + s) == Value(s)
    ensures IsBits(s) ==> IsBits(Zeros(count) + s)
    decreases |s|
  {
    if |s| == 0 {
      assert Zeros(count) + s == Zeros(count);
      ZerosValue(count);
    } else {
      var init := s[..|s| - 1];
      assert (Zeros(count) + s)[..|Zeros(count) + s| - 1] == Zeros(count) + init;
      ValueOfZeroPadded(count, init);
    }
  }

  /** A run of zeros denotes zero. */
  lemma {:induction false} ZerosValue(count: int)
    ensures Value(Zeros(count)) == 0
    decreases if count > 0 then count else 0
  {
    if count > 0 {
      assert Zeros(count)[..count - 1] == Zeros(count - 1);
      ZerosValue(count - 1);
    }
  }

  /** A number below `2^d` has at most `d` shortest binary digits (for `d >= 1`). */
  lemma {:induction false} BinDigitsLength(x: nat, d: nat)
    requires x < Pow2(d)
    ensures d >= 1 ==> |BinDigits(x)| <= d
  {
    if x >= 2 {
      BinDigitsLength(x / 2, d - 1);
    }
  }

  /** The zero-padded shortest representation agrees with the arithmetic
      reference whenever at least one digit is asked for. */
  lemma {:induction false} BinaryIsToBits(x: nat, d: nat)
    requires 1 <= d && x < Pow2(d)
    ensures Binary(x, d) == Ok(ToBits(x, d))
  {
    ToBitsUnique(Binary(x, d).value, ToBits(x, d));
  }

  /** Two digit sequences of the same length that denote the same number are equal. */
  lemma {:induction false} ToBitsUnique(a: seq<int>, b: seq<int>)
    requires IsBits(a) && IsBits(b) && |a| == |b| && Value(a) == Value(b)
    ensures a == b
  {
    if |a| > 0 {
      var n := |a| - 1;
      assert a[n] == Value(a) % 2 && b[n] == Value(b) % 2;
      ToBitsUnique(a[..n], b[..n]);
      assert a == a[..n] + [a[n]] && b == b[..n] + [b[n]];
    }
  }

  /** Round trip: converting the value of a digit sequence back to digits of
      the same width gives the sequence itself. */
  lemma {:induction false} BinaryOfValue(b: seq<int>)
    requires IsBits(b) && |b| >= 1
    ensures Binary(Value(b), |b|) == Ok(b)
  {
    ToBitsUnique(Binary(Value(b), |b|).value, b);
  }

  /** Digit `k` of the `d`-digit representation of `x`, counted from the most
      significant end, is bit `d-1-k` of `x`. */
  lemma {:induction false} ToBitsAt(x: nat, d: nat, k: nat)
    requires x < Pow2(d) && k < d
    ensures ToBits(x, d)[k] == Digit(x, d - 1 - k)
  {
    if k < d - 1 {
      ToBitsAt(x / 2, d - 1, k);
    }
  }

  /** `binary(5, 4) == (0, 1, 0, 1)`. */
  lemma BinaryFiveInFour()
    ensures Binary(5, 4) == Ok([0, 1, 0, 1])
  {
    assert Value([0, 1, 0, 1]) == 5 by {
      assert [0, 1, 0, 1][..3] == [0, 1, 0];
      assert [0, 1, 0][..2] == [0, 1];
      assert [0, 1][..1] == [0];
    }
    BinaryOfValue([0, 1, 0, 1]);
  }

  /** `binary(0, 1) == (0,)` and `binary(2, 1)` fails. */
  lemma BinaryOneDigit()
    ensures Binary(0, 1) == Ok([0])
    ensures Binary(2, 1) == Err(InvalidArgument)
  {
    BinaryOfValue([0]);
  }

  /** `binary(0, 0)` yields one digit, not zero: `bin(0)` is "0" and `zfill`
      never shortens its argument. */
  lemma BinaryZeroDigits()
    ensures Binary(0, 0) == Ok([0])
  {
  }
}
