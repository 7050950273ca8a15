/** The `Rule` class of cellular_automata.py: a rule number and a
    neighbourhood width `n`, decoded once into a table from every
    neighbourhood pattern to the next value of the centre cell.
 */
module Rules {
  import opened Errors
  import opened Bits

  /** A constructed rule. The table is built once and never changed, so a
      rule is a value. */
  datatype Rule = Rule(number: nat, n: nat, mapping: map<seq<int>, int>)

  /** The output the rule number gives a pattern of value `p`: the rule
      number's digits are read most significant first, so pattern `p` gets
      bit `2^n - 1 - p` of the number. */
  function Output(number: nat, n: nat, p: nat): int
    requires p < Pow2(n)
  {
    Digit(number, Pow2(n) - 1 - p)
  }

  /** `m` is the complete table of rule `number` for width `n`: its keys are
      exactly the `2^n` digit sequences of length `n`, and each key maps to
      the output the rule number gives its value. */
  ghost predicate IsTable(m: map<seq<int>, int>, number: nat, n: nat)
  {
    && (forall key :: key in m <==> |key| == n && IsBits(key))
    && (forall key :: key in m ==> m[key] == Output(number, n, Value(key)))
    && |m| == Pow2(n)
  }

  /** What `Rule.__init__` establishes (cellular_automata.py:26-31). */
  ghost predicate ValidRule(rule: Rule)
  {
    && rule.n >= 1 && rule.n % 2 == 1
    && rule.number < Pow2(Pow2(rule.n))
    && IsTable(rule.mapping, rule.number, rule.n)
  }

  /** Digit `p` of `binary(number, 2^n)` is the output of pattern `p`. */
  lemma OutputIsDigit(number: nat, n: nat, p: nat)
    requires p < Pow2(n) && number < Pow2(Pow2(n))
    ensures ToBits(number, Pow2(n))[p] == Output(number, n, p)
  {
    ToBitsAt(number, Pow2(n), p);
  }

  /** The table after the patterns of value below `count` have been entered. */
  ghost predicate PartialTable(m: map<seq<int>, int>, number: nat, n: nat, count: nat)
  {
    && (forall key :: key in m <==> |key| == n && IsBits(key) && Value(key) < count)
    && (forall key :: key in m ==> m[key] == Output(number, n, Value(key)))
    && |m| == count
  }

  /** Entering pattern `binary(count, n)` with its output extends a partial table by one. */
  lemma {:induction false} PartialTableExtend(m: map<seq<int>, int>, number: nat, n: nat, count: nat)
    requires count < Pow2(n) && PartialTable(m, number, n, count)
    ensures PartialTable(m[ToBits(count, n) := Output(number, n, count)], number, n, count + 1)
  {
    var key := ToBits(count, n);
    assert key !in m;
    forall other | |other| == n && IsBits(other) && Value(other) == count
      ensures other == key
    {
      ToBitsUnique(other, key);
    }
  }

  /** Once all `2^n` patterns are entered, the partial table is the whole table. */
  lemma PartialTableComplete(m: map<seq<int>, int>, number: nat, n: nat)
    requires PartialTable(m, number, n, Pow2(n))
    ensures IsTable(m, number, n)
  {
  }

  /** `Rule._get_mapping` (cellular_automata.py:33-39): pair the patterns
      `binary(i, n)`, for `i` in ascending order, with the digits of
      `binary(number, 2^n)`, in a loop that fills a dictionary. It fails only
      when `binary` rejects the rule number. */
  method BuildMapping(number: int, n: nat) returns (r: Result<map<seq<int>, int>>)
    requires n >= 1
    ensures r.Ok? <==> 0 <= number < Pow2(Pow2(n))
    ensures !r.Ok? ==> r.error == InvalidArgument
    ensures r.Ok? ==> IsTable(r.value, number, n)
  {
    var digits := Binary(number, Pow2(n));
    if digits.Err? {
      return Err(digits.error);
    }
    var bits := digits.value;
    BinaryIsToBits(number, Pow2(n));
    var m: map<seq<int>, int> := map[];
    var i := 0;
    while i < Pow2(n)
      invariant 0 <= i <= Pow2(n)
      invariant PartialTable(m, number, n, i)
    {
      OutputIsDigit(number, n, i);
      var key := Binary(i, n);
      BinaryIsToBits(i, n);
      PartialTableExtend(m, number, n, i);
      m := m[key.value := bits[i]];
      i := i + 1;
    }
    PartialTableComplete(m, number, n);
    return Ok(m);
  }

  /** `Rule(number, n)` (cellular_automata.py:21-31) with the rule number
      supplied by the caller. It fails when the number does not fit in
      `2^n` digits, when `n` is even, and (inside `binary`) when the number
      is negative. */
  method NewRule(number: int, n: int := 3) returns (r: Result<Rule>)
    ensures r.Ok? <==> n >= 1 && n % 2 == 1 && 0 <= number < Pow2(Pow2(n))
    ensures !r.Ok? ==> r.error == InvalidArgument
    ensures r.Ok? ==> r.value.number == number && r.value.n == n && ValidRule(r.value)
  {
    if n < 0 || number >= Pow2(Pow2(n)) || n % 2 != 1 {
      return Err(InvalidArgument);
    }
    var mapping := BuildMapping(number, n);
    if mapping.Err? {
      return Err(mapping.error);
    }
    return Ok(Rule(number, n, mapping.value));
  }

  /** `Rule.get_next_cell` (cellular_automata.py:41-51): a length-checked
      lookup in the table. A pattern of the right length misses only when it
      holds something other than 0 and 1. */
  function GetNextCell(rule: Rule, interval: seq<int>): (r: Result<int>)
    requires ValidRule(rule)
    ensures |interval| != rule.n ==> r == Err(InvalidArgument)
    ensures |interval| == rule.n && !IsBits(interval) ==> r == Err(KeyMissing)
    ensures r.Ok? <==> |interval| == rule.n && IsBits(interval)
    ensures r.Ok? ==> r.value == Output(rule.number, rule.n, Value(interval))
    ensures r.Ok? ==> r.value == 0 || r.value == 1
  {
    if |interval| != rule.n then Err(InvalidArgument)
    else if interval in rule.mapping then Ok(rule.mapping[interval])
    else Err(KeyMissing)
  }

  /** The table is total and in enumeration order: for every `i < 2^n` the
      key `binary(i, n)` is present and maps to digit `i` of
      `binary(number, 2^n)`. */
  lemma TableOrder(rule: Rule, i: nat)
    requires ValidRule(rule) && i < Pow2(rule.n)
    ensures Binary(i, rule.n).Ok? && Binary(rule.number, Pow2(rule.n)).Ok?
    ensures Binary(i, rule.n).value in rule.mapping
    ensures rule.mapping[Binary(i, rule.n).value] == Binary(rule.number, Pow2(rule.n)).value[i]
  {
    var n, number := rule.n, rule.number;
    ToBitsAt(number, Pow2(n), i);
    var key := ToBits(i, n);
    var digits := ToBits(number, Pow2(n));
    assert digits[i] == Output(number, n, i);
    BinaryIsToBits(i, n);
    BinaryIsToBits(number, Pow2(n));
    assert key in rule.mapping;
  }

  /** Every table key is the pattern `binary(i, n)` of exactly one `i < 2^n`,
      namely its own value. */
  lemma TableKeys(rule: Rule, key: seq<int>)
    requires ValidRule(rule) && key in rule.mapping
    ensures Value(key) < Pow2(rule.n) && Binary(Value(key), rule.n) == Ok(key)
    ensures forall i :: 0 <= i < Pow2(rule.n) && Binary(i, rule.n) == Ok(key) ==> i == Value(key)
  {
    BinaryOfValue(key);
  }

  /** Construction is deterministic: a rule number and a width admit exactly
      one table. */
  lemma {:induction false} TableUnique(m1: map<seq<int>, int>, m2: map<seq<int>, int>, number: nat, n: nat)
    requires IsTable(m1, number, n) && IsTable(m2, number, n)
    ensures m1 == m2
  {
    assert m1.Keys == m2.Keys;
    forall key | key in m1 ensures m1[key] == m2[key] {
    }
  }

  /** Rule 60 with `n = 3` (the Sierpinski rule) maps `(1,1,0)` to 0 and
      `(0,1,1)` to 1. */
  lemma Rule60(rule: Rule)
    requires ValidRule(rule) && rule.number == 60 && rule.n == 3
    ensures GetNextCell(rule, [1, 1, 0]) == Ok(0)
    ensures GetNextCell(rule, [0, 1, 1]) == Ok(1)
  {
    assert [1, 1, 0][..2] == [1, 1] && [1, 1][..1] == [1];
    assert [0, 1, 1][..2] == [0, 1] && [0, 1][..1] == [0];
    assert Value([1, 1, 0]) == 6 && Value([0, 1, 1]) == 3;
    assert Pow2(3) == 8;
  }
}
