/** The plural-rule table of src/plural-rules/index.js (the same table as
    src/index.js:227-287): 18 classifiers, indexed by Mozilla's PluralForm rule
    numbers, mapping a count to the index of the plural form to use. Counts are
    integers; `%` is JavaScript's remainder, which truncates toward zero. */
module PluralRules {

  /** The number of rules in the table. */
  const RuleCount: nat := 18

  /** `isIn(x, min, max)`: both ends inclusive. */
  predicate IsIn(x: int, min: int, max: int)
  {
    min <= x && x <= max
  }

  /** JavaScript's `n % d` for a positive divisor: the remainder of the
      division truncated toward zero, so its sign follows `n`. */
  function Rem(n: int, d: int): (r: int)
    requires d > 0
    ensures -d < r < d
    ensures n >= 0 ==> r == n % d
    ensures n < 0 ==> r <= 0 && r == -((-n) % d)
  {
    if n >= 0 then n % d else -((-n) % d)
  }

  /** How many plural forms rule `rule` distinguishes. */
  function FormCount(rule: nat): (k: nat)
    requires rule < RuleCount
    ensures 1 <= k <= 6
  {
    [1, 2, 2, 3, 4, 3, 3, 3, 3, 3, 4, 5, 6, 4, 3, 2, 6, 2][rule]
  }

  function Rule3(n: int): nat
  {
    if Rem(n, 10) == 0 then 0 else if Rem(n, 10) == 1 && Rem(n, 100) != 11 then 1 else 2
  }

  function Rule4(n: int): nat
  {
    if n == 1 || n == 11 then 0
    else if n == 2 || n == 12 then 1
    else if IsIn(n, 3, 10) || IsIn(n, 13, 19) then 2
    else 3
  }

  function Rule5(n: int): nat
  {
    if n == 1 then 0 else if n == 0 || IsIn(Rem(n, 100), 1, 19) then 1 else 2
  }

  function Rule6(n: int): nat
  {
    var d1 := Rem(n, 100);
    var d2 := Rem(d1, 10);
    if d2 == 1 && d1 != 11 then 0 else if d2 == 0 || IsIn(d1, 10, 20) then 1 else 2
  }

  function Rule7(n: int): nat
  {
    var d1 := Rem(n, 100);
    var d2 := Rem(d1, 10);
    if d2 == 1 && d1 != 11 then 0 else if IsIn(d2, 2, 4) && !IsIn(d1, 12, 14) then 1 else 2
  }

  function Rule8(n: int): nat
  {
    if n == 1 then 0 else if IsIn(n, 2, 4) then 1 else 2
  }

  function Rule9(n: int): nat
  {
    if n == 1 then 0 else if IsIn(Rem(n, 10), 2, 4) && !IsIn(Rem(n, 100), 12, 14) then 1 else 2
  }

  function Rule10(n: int): nat
  {
    var d := Rem(n, 100);
    if d == 1 then 0 else if d == 2 then 1 else if d == 3 || d == 4 then 2 else 3
  }

  function Rule11(n: int): nat
  {
    if n == 1 then 0 else if n == 2 then 1 else if IsIn(n, 3, 6) then 2 else if IsIn(n, 7, 10) then 3 else 4
  }

  function Rule12(n: int): nat
  {
    var d := Rem(n, 100);
    if n == 0 then 0 else if n == 1 then 1 else if n == 2 then 2
    else if IsIn(d, 3, 10) then 3 else if IsIn(d, 11, 99) then 4 else 5
  }

  function Rule13(n: int): nat
  {
    var d := Rem(n, 100);
    if n == 1 then 0 else if n == 0 || IsIn(d, 1, 10) then 1 else if IsIn(d, 11, 19) then 2 else 3
  }

  function Rule14(n: int): nat
  {
    var d := Rem(n, 10);
    if d == 1 then 0 else if d == 2 then 1 else 2
  }

  function Rule15(n: int): nat
  {
    if Rem(n, 10) == 1 && n != 11 then 0 else 1
  }

  function Rule16(n: int): nat
  {
    if n == 1 then 0
    else
      var dd := Rem(n, 100);
      var d1 := Rem(dd, 10);
      var d2 := (dd - d1) / 10;
      var not179 := d2 != 1 && d2 != 7 && d2 != 9;
      if d1 == 1 && not179 then 1
      else if d1 == 2 && not179 then 2
      else if (d1 == 3 || d1 == 4 || d1 == 9) && not179 then 3
      else if n != 0 && Rem(n, 1000000) == 0 then 4
      else 5
  }

  /** `pluralRules[rule](n)`: the form index, always below the rule's form count. */
  function Classify(rule: nat, n: int): (form: nat)
    requires rule < RuleCount
    ensures form < FormCount(rule)
  {
    match rule
    case 0 => 0
    case 1 => if n == 1 then 0 else 1
    case 2 => if 1 < n then 1 else 0
    case 3 => Rule3(n)
    case 4 => Rule4(n)
    case 5 => Rule5(n)
    case 6 => Rule6(n)
    case 7 => Rule7(n)
    case 8 => Rule8(n)
    case 9 => Rule9(n)
    case 10 => Rule10(n)
    case 11 => Rule11(n)
    case 12 => Rule12(n)
    case 13 => Rule13(n)
    case 14 => Rule14(n)
    case 15 => Rule15(n)
    case 16 => Rule16(n)
    case 17 => if n == 0 then 0 else 1
  }

  /** `pluralRules[rule](NaN)`, what a missing or non-numeric argument gives: every
      comparison is false and every `!==` is true, so each rule falls through to
      its last branch (rule 2 and rule 16's `n !== 0` test included). */
  function ClassifyNaN(rule: nat): (form: nat)
    requires rule < RuleCount
    ensures form < FormCount(rule)
    ensures rule != 2 ==> form == FormCount(rule) - 1
    ensures rule == 2 ==> form == 0
  {
    [0, 1, 0, 2, 3, 2, 2, 2, 2, 2, 3, 4, 5, 3, 2, 1, 5, 1][rule]
  }

  // ---------------------------------------------------------------------------
  // Properties
  // ---------------------------------------------------------------------------

  lemma IsInInclusive(x: int, min: int, max: int)
    ensures IsIn(x, min, max) <==> min <= x <= max
    ensures IsIn(min, min, max) <==> min <= max
    ensures IsIn(max, min, max) <==> min <= max
  {
  }

  /** Rules 1, 2 and 17 are the two-form rules keyed on 1, on `n > 1` and on 0. */
  lemma TwoFormRules(n: int)
    ensures Classify(1, n) == (if n == 1 then 0 else 1)
    ensures Classify(2, n) == (if n > 1 then 1 else 0)
    ensures Classify(17, n) == (if n == 0 then 0 else 1)
  {
  }

  /** Rule 7 (the Slavic three-form family). */
  lemma Rule7Vectors()
    ensures Classify(7, 1) == 0 && Classify(7, 2) == 1 && Classify(7, 5) == 2
    ensures Classify(7, 11) == 2 && Classify(7, 12) == 2
    ensures Classify(7, 21) == 0 && Classify(7, 22) == 1
  {
  }

  /** Rule 12 (Arabic): six forms. */
  lemma Rule12Vectors(n: nat)
    ensures Classify(12, 0) == 0 && Classify(12, 1) == 1 && Classify(12, 2) == 2
    ensures Classify(12, 100) == 5 && Classify(12, 101) == 5 && Classify(12, 102) == 5
    ensures n > 2 && IsIn(n % 100, 3, 10) ==> Classify(12, n) == 3
    ensures n > 2 && IsIn(n % 100, 11, 99) ==> Classify(12, n) == 4
  {
  }

  /** Rule 15 compares `n` itself with 11, not `n % 100`. */
  lemma Rule15Vectors()
    ensures Classify(15, 1) == 0 && Classify(15, 11) == 1
    ensures Classify(15, 21) == 0 && Classify(15, 111) == 0
  {
  }

  /** Rule 16 (Breton). */
  lemma Rule16Vectors()
    ensures Classify(16, 1) == 0 && Classify(16, 21) == 1
    ensures Classify(16, 11) == 5 && Classify(16, 71) == 5 && Classify(16, 0) == 5
    ensures Classify(16, 1000000) == 4 && Classify(16, 2000000) == 4
  {
  }

  /** For non-negative counts, rules 6, 7 and 10 look only at the last two digits
      and rule 14 only at the last digit. */
  lemma {:induction false} LastDigitsDecide(n: nat)
    ensures Classify(6, n) == Classify(6, n % 100)
    ensures Classify(7, n) == Classify(7, n % 100)
    ensures Classify(10, n) == Classify(10, n % 100)
    ensures Classify(14, n) == Classify(14, n % 10)
  {
    var d := n % 100;
    assert d % 100 == d;
    LastDigitOfLastTwo(n);
    assert Classify(6, n) == Rule6(n) && Classify(6, d) == Rule6(d);
    assert Classify(7, n) == Rule7(n) && Classify(7, d) == Rule7(d);
    assert Classify(10, n) == Rule10(n) && Classify(10, d) == Rule10(d);
    assert Classify(14, n) == Rule14(n) && Classify(14, n % 10) == Rule14(n % 10);
  }

  /** The last digit of the last two digits is the last digit. */
  lemma {:induction false} LastDigitOfLastTwo(n: nat)
    ensures (n % 100) % 10 == n % 10 && (n % 10) % 10 == n % 10
  {
    var q, d := n / 100, n % 100;
    var a, b := d / 10, d % 10;
    assert n == 10 * (10 * q + a) + b;
    RemainderOf(n, 10 * q + a, b);
    RemainderOf(b, 0, b);
  }

  /** A number `10 * k + b` with a digit `b` leaves `b` when divided by 10. */
  lemma RemainderOf(n: int, k: int, b: int)
    requires n == 10 * k + b && 0 <= b < 10
    ensures n % 10 == b
  {
  }

  /** Every form of every rule is used by some count: the form counts are exact. */
  lemma {:induction false} EveryFormOccurs(rule: nat, form: nat)
    requires rule < RuleCount && form < FormCount(rule)
    ensures exists n: int :: Classify(rule, n) == form
  {
    var witnesses := [
      [1], [1, 2], [1, 2], [10, 1, 2], [1, 2, 3, 20],
      [1, 2, 20], [1, 10, 2], [1, 2, 5], [1, 2, 5], [1, 2, 5],
      [1, 2, 3, 5], [1, 2, 3, 7, 11], [0, 1, 2, 3, 11, 100], [1, 2, 11, 20], [1, 2, 3],
      [1, 11], [1, 21, 22, 23, 1000000, 5], [0, 1]
    ];
    var n := witnesses[rule][form];
    assert Classify(rule, n) == form;
  }
}
