/**
 * What the two FluentValidation validators share: the error entry, the
 * `NotEmpty()` rule on a nullable string, the one-rule check, and the
 * decimal rendering of an `int` that the release-year message interpolates.
 */
module Validation {
  import opened Wrappers

  /** One failure reported by a validator: the property and its message. */
  datatype ValidationError<F> = ValidationError(field: F, message: string)

  /** .NET `char.IsWhiteSpace`: the control characters U+0009..U+000D and U+0085
      and the Unicode space, line and paragraph separators. */
  predicate IsWhiteSpace(c: char) {
    || '\U{9}' <= c <= '\U{D}' || c == ' ' || c == '\U{85}' || c == '\U{A0}' || c == '\U{1680}'
    || '\U{2000}' <= c <= '\U{200A}' || c == '\U{2028}' || c == '\U{2029}' || c == '\U{202F}'
    || c == '\U{205F}' || c == '\U{3000}'
  }

  /** .NET `string.IsNullOrWhiteSpace` on a non-null string: empty or white space only. */
  predicate IsBlank(s: string) {
    s == [] || (IsWhiteSpace(s[0]) && IsBlank(s[1..]))
  }

  /** FluentValidation's `NotEmpty()` on a string: not null, and not empty or white space only. */
  predicate NotEmpty(s: Option<string>) {
    s.Some? && !IsBlank(s.value)
  }

  /** One rule: no entry when its condition holds, else one entry for its property. */
  function Check<F>(passes: bool, field: F, message: string): seq<ValidationError<F>> {
    if passes then [] else [ValidationError(field, message)]
  }

  /**
   * Runs the rules in order, each on its own (not fail-fast), and gathers one
   * entry per rule that fails.  Its properties are the lemmas below.
   */
  function Collect<F>(rules: seq<F>, passes: F -> bool, message: F -> string): seq<ValidationError<F>> {
    if rules == [] then []
    else Check(passes(rules[0]), rules[0], message(rules[0])) + Collect(rules[1..], passes, message)
  }

  /** No entry at all iff every rule passes. */
  lemma {:induction false} CollectEmptyIffAllPass<F>(rules: seq<F>, passes: F -> bool, message: F -> string)
    ensures Collect(rules, passes, message) == [] <==> forall i | 0 <= i < |rules| :: passes(rules[i])
  {
    if rules != [] {
      CollectEmptyIffAllPass(rules[1..], passes, message);
      if passes(rules[0]) && Collect(rules[1..], passes, message) == [] {
        forall i | 0 <= i < |rules| ensures passes(rules[i]) {
          if i > 0 { assert rules[i] == rules[1..][i - 1]; }
        }
      }
    }
  }

  /** Every entry is a failed rule, carrying that rule's message. */
  lemma {:induction false} CollectReportsOnlyFailures<F>(rules: seq<F>, passes: F -> bool, message: F -> string)
    ensures forall i | 0 <= i < |Collect(rules, passes, message)| ::
      var e := Collect(rules, passes, message)[i];
      e.field in rules && !passes(e.field) && e.message == message(e.field)
  {
    if rules != [] {
      CollectReportsOnlyFailures(rules[1..], passes, message);
      var errors := Collect(rules, passes, message);
      var rest := Collect(rules[1..], passes, message);
      var head := Check(passes(rules[0]), rules[0], message(rules[0]));
      assert errors == head + rest;
      forall i | 0 <= i < |errors|
        ensures errors[i].field in rules && !passes(errors[i].field) && errors[i].message == message(errors[i].field)
      {
        if i >= |head| {
          assert errors[i] == rest[i - |head|];
          assert rest[i - |head|].field in rules[1..];
        }
      }
    }
  }

  /** Entries come only from rules whose rank is at least `low`. */
  lemma {:induction false} CollectRanksAtLeast<F>(rules: seq<F>, passes: F -> bool, message: F -> string, rank: F -> int, low: int)
    requires forall k | 0 <= k < |rules| :: low <= rank(rules[k])
    ensures forall i | 0 <= i < |Collect(rules, passes, message)| :: low <= rank(Collect(rules, passes, message)[i].field)
  {
    if rules != [] {
      CollectRanksAtLeast(rules[1..], passes, message, rank, low);
    }
  }

  /** Rules listed in increasing rank give entries in increasing rank: declaration order, one per rule. */
  lemma {:induction false} CollectInOrder<F>(rules: seq<F>, passes: F -> bool, message: F -> string, rank: F -> int)
    requires forall i, j | 0 <= i < j < |rules| :: rank(rules[i]) < rank(rules[j])
    ensures forall i, j | 0 <= i < j < |Collect(rules, passes, message)| ::
      rank(Collect(rules, passes, message)[i].field) < rank(Collect(rules, passes, message)[j].field)
  {
    if rules != [] {
      var tail := rules[1..];
      CollectInOrder(tail, passes, message, rank);
      CollectRanksAtLeast(tail, passes, message, rank, rank(rules[0]) + 1);
    }
  }

  /** No failing rule is left out: validation is exhaustive, not fail-fast. */
  lemma {:induction false} CollectReportsEveryFailure<F>(rules: seq<F>, passes: F -> bool, message: F -> string)
    ensures forall i | 0 <= i < |rules| && !passes(rules[i]) ::
      ValidationError(rules[i], message(rules[i])) in Collect(rules, passes, message)
  {
    if rules != [] {
      CollectReportsEveryFailure(rules[1..], passes, message);
      var errors := Collect(rules, passes, message);
      var rest := Collect(rules[1..], passes, message);
      assert errors == Check(passes(rules[0]), rules[0], message(rules[0])) + rest;
      forall i | 0 <= i < |rules| && !passes(rules[i]) ensures ValidationError(rules[i], message(rules[i])) in errors {
        if i > 0 { assert rules[i] == rules[1..][i - 1]; }
      }
    }
  }

  /** Whether `errors` holds an entry for `field`. */
  predicate HasError<F(==)>(errors: seq<ValidationError<F>>, field: F) {
    exists i | 0 <= i < |errors| :: errors[i].field == field
  }

  predicate IsDigits(s: string) {
    forall i | 0 <= i < |s| :: '0' <= s[i] <= '9'
  }

  /** The number a string of decimal digits denotes. */
  function DecimalValue(s: string): nat
    requires IsDigits(s)
  {
    if s == [] then 0 else DecimalValue(s[..|s| - 1]) * 10 + (s[|s| - 1] as int - '0' as int)
  }

  /** `n.ToString()` for n >= 0: the shortest decimal numeral of n. */
  function NatToDecimal(n: nat): (s: string)
    ensures |s| > 0 && IsDigits(s)
    ensures DecimalValue(s) == n
    ensures s[0] == '0' ==> s == "0"
    decreases n
  {
    var last := [('0' as int + n % 10) as char];
    if n < 10 then
      last
    else
      var prefix := NatToDecimal(n / 10);
      assert (prefix + last)[..|prefix + last| - 1] == prefix;
      prefix + last
  }

  /** `n.ToString()` of a C# `int`, as `$"{n}"` renders it (invariant culture). */
  function IntToDecimal(n: int): (s: string)
    ensures n >= 0 ==> IsDigits(s) && |s| > 0 && DecimalValue(s) == n && (s[0] == '0' ==> s == "0")
    ensures n < 0 ==> |s| > 1 && s[0] == '-' && IsDigits(s[1..]) && DecimalValue(s[1..]) == -n && s[1] != '0'
  {
    if n >= 0 then NatToDecimal(n) else "-" + NatToDecimal(-n)
  }
}
