/** The placeholder substitution `translate` performs (src/index.js:360-366,
    src/-translator/index.js:79-84): the text is scanned left to right for
    `/\{\{\s*([^{}\r\n]+?)\s*\}\}/g`; the captured text is split at `|` into a
    parameter name and an optional list of plural forms separated by `,`, and
    the match is replaced by the parameter's value or by the form the plural
    rule selects for it. */
module Placeholders {
  import opened Js
  import opened PluralRules

  predicate IsNewline(c: char) { c == '\r' || c == '\n' }

  predicate IsBrace(c: char) { c == '{' || c == '}' }

  predicate AllSpace(s: string) { forall k :: 0 <= k < |s| ==> IsSpace(s[k]) }

  predicate NoNewline(s: string) { forall k :: 0 <= k < |s| ==> !IsNewline(s[k]) }

  predicate NoBrace(s: string) { forall k :: 0 <= k < |s| ==> !IsBrace(s[k]) }

  /** Text without surrounding whitespace. */
  predicate Tight(s: string) { s != [] && !IsSpace(s[0]) && !IsSpace(s[|s| - 1]) }

  // ---------------------------------------------------------------------------
  // The capture group
  // ---------------------------------------------------------------------------

  /** `w[i..j]` is whitespace. */
  predicate SpaceIn(w: string, i: int, j: int)
    requires 0 <= i <= j <= |w|
  {
    forall k :: i <= k < j ==> IsSpace(w[k])
  }

  /** `w[i..j]` holds no line break. */
  predicate NoNewlineIn(w: string, i: int, j: int)
    requires 0 <= i <= j <= |w|
  {
    forall k :: i <= k < j ==> !IsNewline(w[k])
  }

  /** The regex can give its group `w[i..j]`: whitespace before it and after
      it, and no line break in it. */
  predicate GroupAt(w: string, i: int, j: int)
  {
    0 <= i < j <= |w| && SpaceIn(w, 0, i) && SpaceIn(w, j, |w|) && NoNewlineIn(w, i, j)
  }

  /** The first position at or after `from` that is not whitespace, or `|w|`. */
  function FirstSolid(w: string, from: nat): (i: nat)
    requires from <= |w|
    ensures from <= i <= |w| && (i < |w| ==> !IsSpace(w[i]))
    ensures forall k :: from <= k < i ==> IsSpace(w[k])
    decreases |w| - from
  {
    if from == |w| || !IsSpace(w[from]) then from else FirstSolid(w, from + 1)
  }

  /** The last position before `upto` that is not whitespace, or -1. */
  function LastSolid(w: string, upto: nat): (m: int)
    requires upto <= |w|
    ensures -1 <= m < upto && (m >= 0 ==> !IsSpace(w[m]))
    ensures forall k :: m < k < upto ==> IsSpace(w[k])
  {
    if upto == 0 then -1 else if !IsSpace(w[upto - 1]) then upto - 1 else LastSolid(w, upto - 1)
  }

  /** The last position of `w` that holds no line break, or -1. */
  function LastOrdinary(w: string): (m: int)
    ensures -1 <= m < |w|
    ensures m >= 0 ==> !IsNewline(w[m])
    ensures forall k :: m < k < |w| ==> IsNewline(w[k])
  {
    if w == [] then -1
    else if !IsNewline(w[|w| - 1]) then |w| - 1
    else LastOrdinary(w[..|w| - 1])
  }

  /** What `\s*([^{}\r\n]+?)\s*` captures when it has to match all of the
      brace-free text `w`: the greedy leading `\s*` leaves the text between the
      first and the last character that is not whitespace to the group, unless
      that holds a line break; text made only of whitespace leaves the group its
      last character that is not a line break. */
  function Capture(w: string): (g: Option<string>)
  {
    var i := FirstSolid(w, 0);
    if i < |w| then
      var j := LastSolid(w, |w|) + 1;
      if NoNewlineIn(w, i, j) then Some(w[i..j]) else None
    else
      var m := LastOrdinary(w);
      if m >= 0 then Some([w[m]]) else None
  }

  /** A group between whitespace holds every character that is not whitespace. */
  lemma {:induction false} GroupCoversSolid(w: string, i: int, j: int, k: int)
    requires GroupAt(w, i, j) && 0 <= k < |w| && !IsSpace(w[k])
    ensures i <= k < j
  {
  }

  /** A group starts at a character that is not a line break. */
  lemma {:induction false} GroupHasOrdinary(w: string, i: int, j: int)
    requires GroupAt(w, i, j)
    ensures LastOrdinary(w) >= i
  {
    assert !IsNewline(w[i]);
  }

  /** The group matches exactly when the text is whitespace, an acceptable
      group and whitespace; when the text has more than whitespace the group runs
      from its first to its last character that is not whitespace. */
  lemma {:induction false} CaptureSpec(w: string)
    ensures Capture(w).Some? ==> exists i, j :: GroupAt(w, i, j) && Capture(w).value == w[i..j]
    ensures (exists i, j :: GroupAt(w, i, j)) ==> Capture(w).Some?
    ensures Capture(w).Some? && FirstSolid(w, 0) < |w| ==>
      Capture(w).value == w[FirstSolid(w, 0)..LastSolid(w, |w|) + 1]
  {
    var i := FirstSolid(w, 0);
    if i < |w| {
      var j := LastSolid(w, |w|) + 1;
      if NoNewlineIn(w, i, j) {
        assert GroupAt(w, i, j);
      } else {
        forall i', j' | GroupAt(w, i', j') ensures false {
          GroupCoversSolid(w, i', j', i);
          GroupCoversSolid(w, i', j', j - 1);
        }
      }
    } else {
      var m := LastOrdinary(w);
      if m >= 0 {
        assert GroupAt(w, m, m + 1) && w[m..m + 1] == [w[m]];
      } else {
        forall i', j' | GroupAt(w, i', j') ensures false {
          GroupHasOrdinary(w, i', j');
        }
      }
    }
  }

  // ---------------------------------------------------------------------------
  // `split(/\s*X\s*/)`
  // ---------------------------------------------------------------------------

  /** The first position of `c` in `s`, or `|s|`. */
  function IndexOf(s: string, c: char): (k: nat)
    ensures k <= |s| && (k < |s| ==> s[k] == c)
    ensures forall j :: 0 <= j < k ==> s[j] != c
  {
    if s == [] || s[0] == c then 0 else 1 + IndexOf(s[1..], c)
  }

  /** The pieces of `s` between occurrences of `c`. */
  function Pieces(s: string, c: char): (ps: seq<string>)
    ensures |ps| >= 1
    decreases |s|
  {
    var k := IndexOf(s, c);
    if k == |s| then [s] else [s[..k]] + Pieces(s[k + 1..], c)
  }

  /** `s.split` on the pattern `\s*c\s*`, for a separator that is not
      whitespace: the pieces between separators, less the whitespace next to
      each separator. */
  function Split(s: string, c: char): (parts: seq<string>)
    ensures |parts| == |Pieces(s, c)|
  {
    var ps := Pieces(s, c);
    seq(|ps|, i requires 0 <= i < |ps| =>
      var p := if i < |ps| - 1 then TrimEnd(ps[i]) else ps[i];
      if i > 0 then TrimStart(p) else p)
  }

  /** `forms.join(c)`. */
  function Join(forms: seq<string>, c: char): string
    requires forms != []
  {
    if |forms| == 1 then forms[0] else forms[0] + [c] + Join(forms[1..], c)
  }

  lemma {:induction false} TightTrims(s: string)
    requires Tight(s)
    ensures TrimStart(s) == s && TrimEnd(s) == s
  {
  }

  lemma {:induction false} PiecesOfJoin(forms: seq<string>, c: char)
    requires forms != []
    requires forall i, k :: 0 <= i < |forms| && 0 <= k < |forms[i]| ==> forms[i][k] != c
    ensures Pieces(Join(forms, c), c) == forms
  {
    var s := Join(forms, c);
    if |forms| > 1 {
      var f := forms[0];
      var rest := Join(forms[1..], c);
      assert s == f + [c] + rest;
      assert s[|f|] == c;
      forall k | 0 <= k < |f| ensures s[k] != c { assert s[k] == f[k]; }
      assert IndexOf(s, c) == |f|;
      assert s[..|f|] == f && s[|f| + 1..] == rest;
      PiecesOfJoin(forms[1..], c);
      assert forms == [f] + forms[1..];
    }
  }

  /** Splitting a joined list of forms without whitespace around them gives the
      list back. */
  lemma {:induction false} SplitJoin(forms: seq<string>, c: char)
    requires forms != [] && !IsSpace(c)
    requires forall i :: 0 <= i < |forms| ==> Tight(forms[i])
    requires forall i, k :: 0 <= i < |forms| && 0 <= k < |forms[i]| ==> forms[i][k] != c
    ensures Split(Join(forms, c), c) == forms
  {
    PiecesOfJoin(forms, c);
    var parts := Split(Join(forms, c), c);
    forall i | 0 <= i < |forms| ensures parts[i] == forms[i] {
      TightTrims(forms[i]);
    }
  }

  /** Text without the separator is a single part. */
  lemma {:induction false} SplitNone(s: string, c: char)
    requires forall k :: 0 <= k < |s| ==> s[k] != c
    ensures Split(s, c) == [s]
  {
    assert IndexOf(s, c) == |s|;
  }

  // ---------------------------------------------------------------------------
  // The replacement
  // ---------------------------------------------------------------------------

  /** The rule's form for a parameter: a number is classified; any other value
      compares like `NaN` and takes each rule's last branch. */
  function PluralOf(rule: nat, v: Value): (form: nat)
    requires rule < RuleCount
    ensures form < FormCount(rule)
  {
    if v.Num? then Classify(rule, v.num) else ClassifyNaN(rule)
  }

  /** The replace callback for a captured text `g`: `params[key]`, or with a
      non-empty form list the form the plural rule picks (`undefined` past the
      list's end). Reading a parameter without `params`, or calling the plural
      function without one, is a TypeError. */
  function Substitute(g: string, params: Option<map<string, Value>>, rule: Option<nat>): (r: Result<string>)
    requires rule.Some? ==> rule.value < RuleCount
    ensures r.Err? <==> params.None? || (rule.None? && |Split(g, '|')| > 1 && Split(g, '|')[1] != [])
    ensures r.Err? ==> r.error == TypeError
  {
    var parts := Split(g, '|');
    if params.None? then Err(TypeError)
    else
      var value := Get(params.value, parts[0]);
      if |parts| > 1 && parts[1] != [] then
        if rule.None? then Err(TypeError)
        else
          var forms := Split(parts[1], ',');
          var n := PluralOf(rule.value, value);
          Ok(if n < |forms| then forms[n] else "undefined")
      else Ok(ToDisplay(value))
  }

  /** The first position at which `s` holds a brace, or `|s|`. */
  function NextBrace(s: string): (j: nat)
    ensures j <= |s| && (j < |s| ==> IsBrace(s[j]))
    ensures forall k :: 0 <= k < j ==> !IsBrace(s[k])
  {
    if s == [] || IsBrace(s[0]) then 0 else 1 + NextBrace(s[1..])
  }

  /** The match of the placeholder regex at the start of `s`, if any: the
      captured text and the length of the match. The text between `{{` and
      `}}` can hold no brace, so the match ends at the first brace after `{{`. */
  function PlaceholderAt(s: string): (m: Option<(string, nat)>)
    ensures m.Some? ==> 4 < m.value.1 <= |s|
  {
    if |s| < 2 || s[0] != '{' || s[1] != '{' then None
    else
      var rest := s[2..];
      var j := NextBrace(rest);
      if j + 1 < |rest| && rest[j] == '}' && rest[j + 1] == '}' then
        match Capture(rest[..j])
        case Some(g) => Some((g, j + 4))
        case None => None
      else None
  }

  function Prepend(a: string, r: Result<string>): Result<string>
  {
    match r
    case Ok(x) => Ok(a + x)
    case Err(e) => Err(e)
  }

  /** `s.replace(regex, callback)`: each match, left to right, is replaced by the
      callback's value and the text between matches is kept; the first callback
      that throws ends the replacement. */
  function Render(s: string, params: Option<map<string, Value>>, rule: Option<nat>): (r: Result<string>)
    requires rule.Some? ==> rule.value < RuleCount
    ensures r.Err? ==> r.error == TypeError
    decreases |s|
  {
    if s == [] then Ok([])
    else
      match PlaceholderAt(s)
      case Some((g, n)) =>
        (match Substitute(g, params, rule)
         case Err(e) => Err(e)
         case Ok(out) => Prepend(out, Render(s[n..], params, rule)))
      case None => Prepend([s[0]], Render(s[1..], params, rule))
  }

  // ---------------------------------------------------------------------------
  // Properties of the replacement
  // ---------------------------------------------------------------------------

  /** Text with no `{{` is returned unchanged, whatever the parameters. */
  lemma {:induction false} RenderPlain(s: string, params: Option<map<string, Value>>, rule: Option<nat>)
    requires rule.Some? ==> rule.value < RuleCount
    requires forall k :: 0 <= k < |s| - 1 ==> !(s[k] == '{' && s[k + 1] == '{')
    ensures Render(s, params, rule) == Ok(s)
  {
    if s != [] {
      RenderPlain(s[1..], params, rule);
      assert [s[0]] + s[1..] == s;
    }
  }

  /** Text that does not start with a placeholder loses its first character to
      the output. */
  lemma {:induction false} RenderStep(s: string, params: Option<map<string, Value>>, rule: Option<nat>)
    requires rule.Some? ==> rule.value < RuleCount
    requires s != [] && PlaceholderAt(s).None?
    ensures Render(s, params, rule) == Prepend([s[0]], Render(s[1..], params, rule))
  {
  }

  lemma {:induction false} PrependPrepend(a: string, b: string, r: Result<string>)
    ensures Prepend(a, Prepend(b, r)) == Prepend(a + b, r)
  {
    if r.Ok? {
      assert a + (b + r.value) == (a + b) + r.value;
    }
  }

  /** Text before the first `{` is copied unchanged. */
  lemma {:induction false} RenderPrefix(a: string, b: string, params: Option<map<string, Value>>, rule: Option<nat>)
    requires rule.Some? ==> rule.value < RuleCount
    requires forall k :: 0 <= k < |a| ==> a[k] != '{'
    ensures Render(a + b, params, rule) == Prepend(a, Render(b, params, rule))
  {
    if a == [] {
      assert a + b == b;
      assert Prepend(a, Render(b, params, rule)) == Render(b, params, rule) by {
        if Render(b, params, rule).Ok? { assert a + Render(b, params, rule).value == Render(b, params, rule).value; }
      }
    } else {
      var s := a + b;
      assert s[0] == a[0] && s[1..] == a[1..] + b;
      RenderStep(s, params, rule);
      RenderPrefix(a[1..], b, params, rule);
      PrependPrepend([a[0]], a[1..], Render(b, params, rule));
      assert [a[0]] + a[1..] == a;
    }
  }

  /** With parameters and a plural rule the replacement never fails. */
  lemma {:induction false} RenderTotal(s: string, params: map<string, Value>, rule: nat)
    requires rule < RuleCount
    ensures Render(s, Some(params), Some(rule)).Ok?
    decreases |s|
  {
    if s != [] {
      match PlaceholderAt(s)
      case Some((g, n)) => RenderTotal(s[n..], params, rule);
      case None => RenderTotal(s[1..], params, rule);
    }
  }

  /** Without parameters the replacement fails exactly when the text holds a
      placeholder somewhere. */
  lemma {:induction false} RenderNeedsParams(s: string, rule: Option<nat>)
    requires rule.Some? ==> rule.value < RuleCount
    ensures Render(s, None, rule).Err? <==> exists k :: 0 <= k < |s| && PlaceholderAt(s[k..]).Some?
    decreases |s|
  {
    if s != [] && PlaceholderAt(s).None? {
      RenderNeedsParams(s[1..], rule);
      if exists k :: 0 <= k < |s| && PlaceholderAt(s[k..]).Some? {
        var k :| 0 <= k < |s| && PlaceholderAt(s[k..]).Some?;
        assert k > 0 && s[1..][k - 1..] == s[k..];
      }
      if exists k :: 0 <= k < |s[1..]| && PlaceholderAt(s[1..][k..]).Some? {
        var k :| 0 <= k < |s[1..]| && PlaceholderAt(s[1..][k..]).Some?;
        assert s[1..][k..] == s[k + 1..];
      }
    } else if s != [] {
      assert s[0..] == s;
    }
  }

  /** The first brace of brace-free text followed by a brace is that brace. */
  lemma {:induction false} NextBraceAfter(w: string, tail: string)
    requires NoBrace(w) && tail != [] && IsBrace(tail[0])
    ensures NextBrace(w + tail) == |w|
  {
    assert (w + tail)[|w|] == tail[0];
  }

  lemma {:induction false} NoBraceAround(a: string, g: string, b: string)
    requires AllSpace(a) && AllSpace(b) && NoBrace(g)
    ensures NoBrace(a + g + b)
  {
    var w := a + g + b;
    forall k | 0 <= k < |w| ensures !IsBrace(w[k]) {
      if k < |a| { assert w[k] == a[k]; }
      else if k < |a| + |g| { assert w[k] == g[k - |a|]; }
      else { assert w[k] == b[k - |a| - |g|]; }
    }
  }

  /** Tight text between whitespace is what the group captures. */
  lemma {:induction false} CaptureAround(a: string, g: string, b: string)
    requires AllSpace(a) && AllSpace(b) && Tight(g) && NoNewline(g)
    ensures Capture(a + g + b) == Some(g)
  {
    var w := a + g + b;
    var n := |a| + |g|;
    assert forall k :: 0 <= k < |a| ==> w[k] == a[k];
    assert forall k :: |a| <= k < n ==> w[k] == g[k - |a|];
    assert forall k :: n <= k < |w| ==> w[k] == b[k - n];
    assert FirstSolid(w, 0) == |a| by {
      var i := FirstSolid(w, 0);
      assert w[|a|] == g[0];
    }
    assert LastSolid(w, |w|) == n - 1 by {
      assert w[n - 1] == g[|g| - 1];
    }
    assert NoNewlineIn(w, |a|, n);
    assert w[|a|..n] == g;
  }

  /** The match of a placeholder around brace-free text whose group matches. */
  lemma {:induction false} PlaceholderOf(w: string, rest: string)
    requires NoBrace(w) && Capture(w).Some?
    ensures var s := "{{" + w + "}}" + rest;
      PlaceholderAt(s) == Some((Capture(w).value, |w| + 4)) && s[|w| + 4..] == rest
  {
    var s := "{{" + w + "}}" + rest;
    var tail := "}}" + rest;
    assert s[2..] == w + tail;
    NextBraceAfter(w, tail);
    assert (w + tail)[..|w|] == w;
    assert (w + tail)[|w|] == '}' && (w + tail)[|w| + 1] == '}';
    assert s[|w| + 4..] == rest;
  }

  /** `{{ key }}` is replaced by the parameter's value, and the text after it
      is rendered on its own. */
  lemma {:induction false} RenderParameter(a: string, key: string, b: string, rest: string,
                                           params: map<string, Value>, rule: Option<nat>)
    requires rule.Some? ==> rule.value < RuleCount
    requires AllSpace(a) && AllSpace(b) && Tight(key) && NoNewline(key) && NoBrace(key)
    requires forall k :: 0 <= k < |key| ==> key[k] != '|'
    ensures Render("{{" + (a + key + b) + "}}" + rest, Some(params), rule)
         == Prepend(ToDisplay(Get(params, key)), Render(rest, Some(params), rule))
  {
    NoBraceAround(a, key, b);
    CaptureAround(a, key, b);
    PlaceholderOf(a + key + b, rest);
    SplitNone(key, '|');
    RenderAt("{{" + (a + key + b) + "}}" + rest, Some(params), rule);
  }

  /** Rendering text that starts with a placeholder: the callback's value, then
      the rest of the text. */
  lemma {:induction false} RenderAt(s: string, params: Option<map<string, Value>>, rule: Option<nat>)
    requires rule.Some? ==> rule.value < RuleCount
    requires PlaceholderAt(s).Some?
    ensures var (g, n) := PlaceholderAt(s).value;
      Render(s, params, rule) ==
        match Substitute(g, params, rule)
        case Err(e) => Err(e)
        case Ok(out) => Prepend(out, Render(s[n..], params, rule))
  {
  }

  /** Text up to the first separator, the separator, and the rest. */
  lemma {:induction false} PiecesCons(x: string, c: char, y: string)
    requires forall k :: 0 <= k < |x| ==> x[k] != c
    ensures Pieces(x + [c] + y, c) == [x] + Pieces(y, c)
  {
    var s := x + [c] + y;
    assert s[|x|] == c;
    forall k | 0 <= k < |x| ensures s[k] != c { assert s[k] == x[k]; }
    assert IndexOf(s, c) == |x|;
    assert s[..|x|] == x && s[|x| + 1..] == y;
  }

  /** Two tight pieces joined by a separator make tight text. */
  lemma {:induction false} TightConcat(x: string, c: char, y: string)
    requires Tight(x) && NoNewline(x) && NoBrace(x) && !IsNewline(c) && !IsBrace(c)
    requires Tight(y) && NoNewline(y) && NoBrace(y)
    ensures var g := x + [c] + y; Tight(g) && NoNewline(g) && NoBrace(g)
  {
    var g := x + [c] + y;
    assert g[0] == x[0] && g[|g| - 1] == y[|y| - 1];
    forall k | 0 <= k < |g| ensures !IsNewline(g[k]) && !IsBrace(g[k]) {
      if k < |x| { assert g[k] == x[k]; }
      else if k > |x| { assert g[k] == y[k - |x| - 1]; }
    }
  }

  /** The text of a plural placeholder: tight, and split at `|` into the
      parameter name and the joined forms. */
  lemma {:induction false} PluralText(key: string, forms: seq<string>)
    requires forms != []
    requires Tight(key) && NoNewline(key) && NoBrace(key)
    requires forall k :: 0 <= k < |key| ==> key[k] != '|'
    requires forall i :: 0 <= i < |forms| ==> Tight(forms[i]) && NoNewline(forms[i]) && NoBrace(forms[i])
    requires forall i, k :: 0 <= i < |forms| && 0 <= k < |forms[i]| ==> forms[i][k] != '|'
    ensures var g := key + "|" + Join(forms, ',');
      Tight(g) && NoNewline(g) && NoBrace(g) && Split(g, '|') == [key, Join(forms, ',')]
  {
    var j := Join(forms, ',');
    JoinShape(forms, ',');
    TightConcat(key, '|', j);
    PiecesCons(key, '|', j);
    assert IndexOf(j, '|') == |j|;
    TightTrims(key);
    TightTrims(j);
  }

  /** The callback on the text of a plural placeholder: the form the rule
      picks for the parameter, or `undefined` past the end of the list. */
  lemma {:induction false} PluralSubstitute(key: string, forms: seq<string>, params: map<string, Value>, rule: nat)
    requires rule < RuleCount && forms != []
    requires Tight(key) && NoNewline(key) && NoBrace(key)
    requires forall k :: 0 <= k < |key| ==> key[k] != '|'
    requires forall i :: 0 <= i < |forms| ==> Tight(forms[i]) && NoNewline(forms[i]) && NoBrace(forms[i])
    requires forall i, k :: 0 <= i < |forms| && 0 <= k < |forms[i]| ==> forms[i][k] != ',' && forms[i][k] != '|'
    ensures var n := PluralOf(rule, Get(params, key));
      Substitute(key + "|" + Join(forms, ','), Some(params), Some(rule))
        == Ok(if n < |forms| then forms[n] else "undefined")
  {
    var j := Join(forms, ',');
    PluralText(key, forms);
    JoinShape(forms, ',');
    SplitJoin(forms, ',');
    SubstituteForms(key + "|" + j, key, j, forms, params, rule);
  }

  /** The callback on a text that splits into a name and a non-empty list of forms. */
  lemma SubstituteForms(g: string, key: string, j: string, forms: seq<string>, params: map<string, Value>, rule: nat)
    requires rule < RuleCount
    requires Split(g, '|') == [key, j] && j != [] && Split(j, ',') == forms
    ensures var n := PluralOf(rule, Get(params, key));
      Substitute(g, Some(params), Some(rule)) == Ok(if n < |forms| then forms[n] else "undefined")
  {
  }

  /** `{{key|f0,f1,...}}` is replaced by the form the plural rule picks for the
      parameter, or by `undefined` past the end of the list. */
  lemma {:induction false} RenderPlural(key: string, forms: seq<string>, rest: string,
                                        params: map<string, Value>, rule: nat)
    requires rule < RuleCount && forms != []
    requires Tight(key) && NoNewline(key) && NoBrace(key)
    requires forall k :: 0 <= k < |key| ==> key[k] != '|'
    requires forall i :: 0 <= i < |forms| ==> Tight(forms[i]) && NoNewline(forms[i]) && NoBrace(forms[i])
    requires forall i, k :: 0 <= i < |forms| && 0 <= k < |forms[i]| ==> forms[i][k] != ',' && forms[i][k] != '|'
    ensures var n := PluralOf(rule, Get(params, key));
      Render("{{" + (key + "|" + Join(forms, ',')) + "}}" + rest, Some(params), Some(rule))
        == Prepend(if n < |forms| then forms[n] else "undefined", Render(rest, Some(params), Some(rule)))
  {
    var g := key + "|" + Join(forms, ',');
    var s := "{{" + g + "}}" + rest;
    PluralText(key, forms);
    CaptureAround("", g, "");
    assert "" + g + "" == g;
    PlaceholderOf(g, rest);
    assert PlaceholderAt(s) == Some((g, |g| + 4)) && s[|g| + 4..] == rest;
    PluralSubstitute(key, forms, params, rule);
    RenderAt(s, Some(params), Some(rule));
  }

  /** A joined list of tight forms is tight and carries only their characters
      and the separators. */
  lemma {:induction false} JoinShape(forms: seq<string>, c: char)
    requires forms != [] && !IsSpace(c) && !IsNewline(c) && !IsBrace(c) && c != '|'
    requires forall i :: 0 <= i < |forms| ==> Tight(forms[i]) && NoNewline(forms[i]) && NoBrace(forms[i])
    requires forall i, k :: 0 <= i < |forms| && 0 <= k < |forms[i]| ==> forms[i][k] != '|'
    ensures var j := Join(forms, c);
      Tight(j) && NoNewline(j) && NoBrace(j) && forall k :: 0 <= k < |j| ==> j[k] != '|'
  {
    if |forms| > 1 {
      JoinShape(forms[1..], c);
      var f := forms[0];
      var rest := Join(forms[1..], c);
      var j := f + [c] + rest;
      forall k | 0 <= k < |j| ensures !IsNewline(j[k]) && !IsBrace(j[k]) && j[k] != '|' {
        if k < |f| { assert j[k] == f[k]; }
        else if k > |f| { assert j[k] == rest[k - |f| - 1]; }
      }
    }
  }
}
