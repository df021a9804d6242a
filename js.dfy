/** JavaScript values, errors and the small library operations the rest of the
    model relies on: plain objects as ordered key/value lists, number-to-string
    conversion, whitespace, and the default string sort. Strings are sequences
    of Unicode scalar values, so the sort compares code points. */
module Js {

  datatype Option<+T> = None | Some(value: T)

  /** The JavaScript values that occur as translations, parameters and table cells. */
  datatype Value = Undefined | Null | Str(str: string) | Num(num: int)

  /** The errors the core throws. */
  datatype Error =
    | NotTranslated(phrase: string, lang: string)  // code 'ENOTTRANSLATED'
    | Unused(phrase: string)                       // code 'EUNUSED'
    | InvalidPluralRule(rule: Option<int>)         // "Invalid plural rule: ..."
    | TypeError                                    // a runtime TypeError

  datatype Result<+T> = Ok(value: T) | Err(error: Error)

  /** The `code` property the source attaches to its own errors. */
  function Code(e: Error): (c: string)
    ensures e.NotTranslated? ==> c == "ENOTTRANSLATED"
    ensures e.Unused? ==> c == "EUNUSED"
  {
    match e
    case NotTranslated(_, _) => "ENOTTRANSLATED"
    case Unused(_) => "EUNUSED"
    case _ => ""
  }

  predicate NoDup<T(==)>(s: seq<T>)
  {
    forall i, j :: 0 <= i < j < |s| ==> s[i] != s[j]
  }

  // ---------------------------------------------------------------------------
  // Plain objects: an ordered list of (key, value) pairs with distinct keys.
  // ---------------------------------------------------------------------------

  function KeysOf<V>(t: seq<(string, V)>): (ks: seq<string>)
    ensures |ks| == |t|
    ensures forall i :: 0 <= i < |t| ==> ks[i] == t[i].0
  {
    if t == [] then [] else KeysOf(t[..|t| - 1]) + [t[|t| - 1].0]
  }

  predicate DistinctKeys<V>(t: seq<(string, V)>)
  {
    NoDup(KeysOf(t))
  }

  lemma DistinctKeysInit<V>(t: seq<(string, V)>)
    requires DistinctKeys(t) && t != []
    ensures KeysOf(t) == KeysOf(t[..|t| - 1]) + [t[|t| - 1].0]
    ensures DistinctKeys(t[..|t| - 1]) && t[|t| - 1].0 !in KeysOf(t[..|t| - 1])
  {
    assert KeysOf(t[..|t| - 1]) == KeysOf(t)[..|t| - 1];
  }

  /** `obj[k]` for a key that is present, or None (JavaScript's `undefined`). */
  function Lookup<V>(t: seq<(string, V)>, k: string): (r: Option<V>)
    ensures r.None? <==> k !in KeysOf(t)
    ensures r.Some? ==> exists i :: 0 <= i < |t| && t[i] == (k, r.value)
    ensures DistinctKeys(t) ==> forall i :: 0 <= i < |t| && t[i].0 == k ==> r == Some(t[i].1)
  {
    if t == [] then None
    else if t[|t| - 1].0 == k then Some(t[|t| - 1].1)
    else Lookup(t[..|t| - 1], k)
  }

  /** `obj[k] = v`: an existing key keeps its place, a new key goes last. */
  function Put<V>(t: seq<(string, V)>, k: string, v: V): (r: seq<(string, V)>)
    requires DistinctKeys(t)
    ensures DistinctKeys(r)
    ensures KeysOf(r) == if k in KeysOf(t) then KeysOf(t) else KeysOf(t) + [k]
    ensures Lookup(r, k) == Some(v)
    ensures forall j :: j != k ==> Lookup(r, j) == Lookup(t, j)
  {
    if k in KeysOf(t) then
      var i :| 0 <= i < |t| && t[i].0 == k;
      var r := t[i := (k, v)];
      assert KeysOf(r) == KeysOf(t);
      r
    else
      var r := t + [(k, v)];
      assert KeysOf(r) == KeysOf(t) + [k];
      assert r[..|r| - 1] == t;
      r
  }

  /** A map read in JavaScript style: a missing key yields `undefined`. */
  function Get(m: map<string, Value>, k: string): Value
  {
    if k in m then m[k] else Undefined
  }

  // ---------------------------------------------------------------------------
  // Numbers as text.
  // ---------------------------------------------------------------------------

  predicate IsDigit(c: char) { '0' <= c <= '9' }

  function DigitChar(d: nat): (c: char)
    requires d < 10
    ensures IsDigit(c) && c as int - '0' as int == d
  {
    ('0' as int + d) as char
  }

  /** The number a string of decimal digits denotes, most significant first
      (how a numeric literal reads back). */
  function DigitsValue(s: string): (v: int)
    requires forall i :: 0 <= i < |s| ==> IsDigit(s[i])
    ensures v >= 0
  {
    if s == [] then 0
    else
      assert IsDigit(s[|s| - 1]);
      10 * DigitsValue(s[..|s| - 1]) + (s[|s| - 1] as int - '0' as int)
  }

  /** The number a decimal integer literal, optionally preceded by `-`, denotes. */
  function IntValue(s: string): int
    requires |s| >= 1 && forall i :: 1 <= i < |s| ==> IsDigit(s[i])
    requires s[0] != '-' ==> IsDigit(s[0])
  {
    if s[0] == '-' then -DigitsValue(s[1..]) else DigitsValue(s)
  }

  /** Decimal rendering of a natural number, without leading zeros. */
  function NatToString(n: nat): (s: string)
    ensures |s| >= 1
    ensures forall i :: 0 <= i < |s| ==> IsDigit(s[i])
    ensures s[0] == '0' ==> n == 0
    ensures DigitsValue(s) == n
  {
    if n < 10 then [DigitChar(n)]
    else
      var prefix := NatToString(n / 10);
      var s := prefix + [DigitChar(n % 10)];
      assert s[..|s| - 1] == prefix;
      s
  }

  /** `String(n)` for an integer: the decimal literal that denotes `n`. */
  function IntToString(n: int): (s: string)
    ensures |s| >= 1
    ensures (s[0] == '-') <==> n < 0
    ensures forall i :: 1 <= i < |s| ==> IsDigit(s[i])
    ensures s[0] != '-' ==> IsDigit(s[0])
    ensures IntValue(s) == n
  {
    if n < 0 then
      var s := "-" + NatToString(-n);
      assert s[1..] == NatToString(-n);
      s
    else NatToString(n)
  }

  /** `String(v)`: what a replace callback's return value turns into. */
  function ToDisplay(v: Value): (s: string)
    ensures v.Str? ==> s == v.str
    ensures v.Undefined? ==> s == "undefined"
    ensures v.Null? ==> s == "null"
    ensures v.Num? ==> s == IntToString(v.num) && IntValue(s) == v.num
  {
    match v
    case Undefined => "undefined"
    case Null => "null"
    case Str(t) => t
    case Num(n) => IntToString(n)
  }

  // ---------------------------------------------------------------------------
  // Whitespace: the characters of the regular-expression class `\s`.
  // ---------------------------------------------------------------------------

  predicate IsSpace(c: char)
  {
    c == ' ' || c == '\t' || c == '\n' || c == '\r' || c == '\U{000B}' || c == '\U{000C}'
    || c == '\U{00A0}' || c == '\U{1680}' || ('\U{2000}' <= c <= '\U{200A}')
    || c == '\U{2028}' || c == '\U{2029}' || c == '\U{202F}' || c == '\U{205F}'
    || c == '\U{3000}' || c == '\U{FEFF}'
  }

  function TrimStart(s: string): (r: string)
    ensures |r| <= |s| && r == s[|s| - |r|..]
    ensures forall i :: 0 <= i < |s| - |r| ==> IsSpace(s[i])
    ensures r != [] ==> !IsSpace(r[0])
  {
    if s != [] && IsSpace(s[0]) then TrimStart(s[1..]) else s
  }

  function TrimEnd(s: string): (r: string)
    ensures |r| <= |s| && r == s[..|r|]
    ensures forall i :: |r| <= i < |s| ==> IsSpace(s[i])
    ensures r != [] ==> !IsSpace(r[|r| - 1])
  {
    if s != [] && IsSpace(s[|s| - 1]) then TrimEnd(s[..|s| - 1]) else s
  }

  // ---------------------------------------------------------------------------
  // Array.prototype.sort without a comparator, compared character by
  // character; a character here is a code point, not a UTF-16 code unit.
  // ---------------------------------------------------------------------------

  /** `a` sorts no later than `b`: `a` is a prefix of `b`, or smaller at the first difference. */
  predicate LexLe(a: string, b: string)
    decreases |a|
  {
    |a| == 0 || (|b| > 0 && (a[0] < b[0] || (a[0] == b[0] && LexLe(a[1..], b[1..]))))
  }

  lemma {:induction false} LexTotal(a: string, b: string)
    ensures LexLe(a, b) || LexLe(b, a)
    decreases |a|
  {
    if |a| > 0 && |b| > 0 && a[0] == b[0] {
      LexTotal(a[1..], b[1..]);
    }
  }

  lemma {:induction false} LexTransitive(a: string, b: string, c: string)
    requires LexLe(a, b) && LexLe(b, c)
    ensures LexLe(a, c)
    decreases |a|
  {
    if |a| > 0 && a[0] == b[0] && b[0] == c[0] {
      LexTransitive(a[1..], b[1..], c[1..]);
    }
  }

  predicate Sorted(s: seq<string>)
  {
    forall i, j :: 0 <= i < j < |s| ==> LexLe(s[i], s[j])
  }

  function Insert(x: string, s: seq<string>): (r: seq<string>)
    ensures |r| == |s| + 1
  {
    if s == [] || LexLe(x, s[0]) then [x] + s else [s[0]] + Insert(x, s[1..])
  }

  /** `Array.from(set).sort()` on the set's insertion-ordered elements. */
  function Sort(s: seq<string>): (r: seq<string>)
    ensures |r| == |s|
  {
    if s == [] then [] else Insert(s[0], Sort(s[1..]))
  }

  /** Insertion adds exactly `x`. */
  lemma {:induction false} InsertPermutes(x: string, s: seq<string>)
    ensures multiset(Insert(x, s)) == multiset(s) + multiset{x}
  {
    if !(s == [] || LexLe(x, s[0])) {
      InsertPermutes(x, s[1..]);
      assert s == [s[0]] + s[1..];
    }
  }

  /** Insertion into a sorted list keeps it sorted and adds exactly `x`. */
  lemma {:induction false} InsertSorted(x: string, s: seq<string>)
    requires Sorted(s)
    ensures Sorted(Insert(x, s))
    ensures multiset(Insert(x, s)) == multiset(s) + multiset{x}
  {
    InsertPermutes(x, s);
    if s == [] || LexLe(x, s[0]) {
      forall j | 0 <= j < |s| ensures LexLe(x, s[j]) {
        if j > 0 { LexTransitive(x, s[0], s[j]); }
      }
    } else {
      LexTotal(x, s[0]);
      InsertSorted(x, s[1..]);
      var t := Insert(x, s[1..]);
      forall k | 0 <= k < |t| ensures LexLe(s[0], t[k]) {
        assert t[k] in multiset(t);
        if t[k] != x {
          assert t[k] in multiset(s[1..]);
          var m :| 0 <= m < |s[1..]| && s[1..][m] == t[k];
          assert s[m + 1] == t[k];
        }
      }
    }
  }

  /** The sort yields a sorted permutation of its input. */
  lemma {:induction false} SortSorted(s: seq<string>)
    ensures Sorted(Sort(s))
    ensures multiset(Sort(s)) == multiset(s)
  {
    if s != [] {
      SortSorted(s[1..]);
      InsertSorted(s[0], Sort(s[1..]));
      assert s == [s[0]] + s[1..];
    }
  }
}
