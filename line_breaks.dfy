/** The offset-to-line table of src/index.js:8-22 and src/-line-breaks/index.js.
    The constructor records the start offset of every `\r\n`, lone `\r` and lone
    `\n`, then an `Infinity` sentinel; `lineAt` is the 1-based line of an offset. */
module LineBreaking {

  /** An element of the table: a finite offset or the `Infinity` sentinel. */
  datatype Offset = At(pos: nat) | Infinity

  /** Offset `i` starts a match of /\r\n|\r|\n/ in a left-to-right global scan:
      every `\r` does, and a `\n` does unless it completes a `\r\n`. */
  predicate IsBreakAt(s: string, i: nat)
    requires i < |s|
  {
    s[i] == '\r' || (s[i] == '\n' && (i == 0 || s[i - 1] != '\r'))
  }

  predicate Increasing(bs: seq<nat>)
  {
    forall i, j :: 0 <= i < j < |bs| ==> bs[i] < bs[j]
  }

  /** The break offsets below `n`, in increasing order. */
  function BreaksBefore(s: string, n: nat): (bs: seq<nat>)
    requires n <= |s|
    ensures Increasing(bs)
    ensures forall i :: 0 <= i < |bs| ==> bs[i] < n
    ensures forall i: nat :: i in bs <==> i < n && IsBreakAt(s, i)
  {
    if n == 0 then []
    else
      var prev := BreaksBefore(s, n - 1);
      if IsBreakAt(s, n - 1) then prev + [n - 1] else prev
  }

  function Positions(bs: seq<nat>): (offs: seq<Offset>)
    ensures |offs| == |bs|
    ensures forall i :: 0 <= i < |bs| ==> offs[i] == At(bs[i])
  {
    if bs == [] then [] else Positions(bs[..|bs| - 1]) + [At(bs[|bs| - 1])]
  }

  /** The table the constructor builds for `source`. */
  function Table(source: string): seq<Offset>
  {
    Positions(BreaksBefore(source, |source|)) + [Infinity]
  }

  predicate Below(index: int, x: Offset)
  {
    match x
    case At(p) => index < p
    case Infinity => true
  }

  /** `Array.prototype.findIndex((x) => index < x)`. */
  function FindAbove(offs: seq<Offset>, index: int): (r: int)
    ensures -1 <= r < |offs|
    ensures r == -1 <==> forall i :: 0 <= i < |offs| ==> !Below(index, offs[i])
    ensures r >= 0 ==> Below(index, offs[r]) && forall i :: 0 <= i < r ==> !Below(index, offs[i])
  {
    if offs == [] then -1
    else if Below(index, offs[0]) then 0
    else
      var r := FindAbove(offs[1..], index);
      if r < 0 then -1 else r + 1
  }

  /** `lineAt(index)` over a table. */
  function LineOf(offs: seq<Offset>, index: int): int
  {
    FindAbove(offs, index) + 1
  }

  /** The number of break offsets at or before `index`. */
  function CountUpTo(bs: seq<nat>, index: int): (c: nat)
    ensures c <= |bs|
  {
    if bs == [] then 0 else (if bs[0] <= index then 1 else 0) + CountUpTo(bs[1..], index)
  }

  lemma {:induction false} CountNoneAbove(bs: seq<nat>, index: int)
    requires forall i :: 0 <= i < |bs| ==> index < bs[i]
    ensures CountUpTo(bs, index) == 0
  {
    if bs != [] { CountNoneAbove(bs[1..], index); }
  }

  /** `lineAt(k)` is one more than the number of break offsets `<= k`. */
  lemma {:induction false} LineIsBreaksUpTo(bs: seq<nat>, index: int)
    requires Increasing(bs)
    ensures LineOf(Positions(bs) + [Infinity], index) == 1 + CountUpTo(bs, index)
  {
    var offs := Positions(bs) + [Infinity];
    if bs == [] {
      assert offs == [Infinity];
    } else if index < bs[0] {
      assert Below(index, offs[0]);
      CountNoneAbove(bs, index);
    } else {
      assert offs[1..] == Positions(bs[1..]) + [Infinity];
      LineIsBreaksUpTo(bs[1..], index);
    }
  }

  lemma {:induction false} CountMonotone(bs: seq<nat>, a: int, b: int)
    requires a <= b
    ensures CountUpTo(bs, a) <= CountUpTo(bs, b)
  {
    if bs != [] { CountMonotone(bs[1..], a, b); }
  }

  /** The table of a text without `\r` or `\n` records no break. */
  lemma {:induction false} NoBreaksInFlatText(s: string, n: nat)
    requires n <= |s|
    requires forall i :: 0 <= i < |s| ==> s[i] != '\r' && s[i] != '\n'
    ensures BreaksBefore(s, n) == []
  {
    if n > 0 { NoBreaksInFlatText(s, n - 1); }
  }

  /** A `\r\n` pair is one break, at the `\r`. */
  lemma CrLfIsOneBreak(s: string, i: nat)
    requires i + 1 < |s| && s[i] == '\r' && s[i + 1] == '\n'
    ensures i in BreaksBefore(s, |s|) && i + 1 !in BreaksBefore(s, |s|)
  {
  }

  class LineBreaks {
    /** The recorded offsets followed by the sentinel (the class extends Array). */
    const offsets: seq<Offset>

    /** The finite break offsets of a valid table. */
    ghost const breaks: seq<nat>

    ghost predicate Valid()
    {
      Increasing(breaks) && offsets == Positions(breaks) + [Infinity]
    }

    constructor (source: string)
      ensures Valid()
      ensures breaks == BreaksBefore(source, |source|)
      ensures offsets == Table(source)
    {
      var found: seq<nat> := [];
      var i := 0;
      while i < |source|
        invariant i <= |source|
        invariant found == BreaksBefore(source, i)
        invariant 0 < i < |source| && source[i - 1] == '\r' ==> source[i] != '\n'
      {
        if source[i] == '\r' && i + 1 < |source| && source[i + 1] == '\n' {
          assert BreaksBefore(source, i + 1) == found + [i];
          found := found + [i];
          i := i + 2;
        } else if source[i] == '\r' || source[i] == '\n' {
          found := found + [i];
          i := i + 1;
        } else {
          i := i + 1;
        }
      }
      breaks := found;
      offsets := Positions(found) + [Infinity];
    }

    /** The 1-based line of offset `index`. */
    function LineAt(index: int): (line: int)
      requires Valid()
      ensures line == 1 + CountUpTo(breaks, index)
      ensures 1 <= line <= |breaks| + 1
    {
      LineIsBreaksUpTo(breaks, index);
      LineOf(offsets, index)
    }

    /** Lines never decrease as the offset grows. */
    lemma LineAtMonotone(a: int, b: int)
      requires Valid() && a <= b
      ensures LineAt(a) <= LineAt(b)
    {
      CountMonotone(breaks, a, b);
    }
  }

  /** In a text with no line break, every offset is on line 1. */
  lemma FlatTextIsOneLine(s: string, index: int)
    requires forall i :: 0 <= i < |s| ==> s[i] != '\r' && s[i] != '\n'
    ensures LineOf(Table(s), index) == 1
  {
    NoBreaksInFlatText(s, |s|);
    assert Table(s) == [Infinity];
  }
}
