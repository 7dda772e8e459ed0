/** Sequence and string operations the rest of the model is built from: filtering,
    subsequences, Python/JavaScript slicing, decimal rendering of integers and
    splitting text into lines. */
module Seqs {

  /** The elements of `xs` that satisfy `p`, in their original order: a Python
      list comprehension with an `if`, or JavaScript's `Array.prototype.filter`. */
  function Filter<T>(xs: seq<T>, p: T -> bool): (r: seq<T>)
    ensures |r| <= |xs|
    ensures forall x :: x in r ==> x in xs && p(x)
  {
    if xs == [] then [] else (if p(xs[0]) then [xs[0]] else []) + Filter(xs[1..], p)
  }

  /** `a` is obtained from `b` by deleting elements, keeping the order of the rest. */
  predicate IsSubsequence<T(==)>(a: seq<T>, b: seq<T>)
    decreases |b|
  {
    if a == [] then true
    else if b == [] then false
    else (a[0] == b[0] && IsSubsequence(a[1..], b[1..])) || IsSubsequence(a, b[1..])
  }

  lemma {:induction false} FilterMembership<T>(xs: seq<T>, p: T -> bool, x: T)
    ensures x in Filter(xs, p) <==> x in xs && p(x)
  {
    if xs != [] {
      FilterMembership(xs[1..], p, x);
      assert xs == [xs[0]] + xs[1..];
    }
  }

  lemma {:induction false} FilterSnoc<T>(xs: seq<T>, x: T, p: T -> bool)
    ensures Filter(xs + [x], p) == Filter(xs, p) + (if p(x) then [x] else [])
  {
    if xs == [] {
      assert [x][1..] == [];
    } else {
      assert (xs + [x])[0] == xs[0];
      assert (xs + [x])[1..] == xs[1..] + [x];
      FilterSnoc(xs[1..], x, p);
    }
  }

  lemma {:induction false} FilterKeepsAll<T>(xs: seq<T>, p: T -> bool)
    requires forall x :: x in xs ==> p(x)
    ensures Filter(xs, p) == xs
  {
    if xs != [] {
      assert forall x :: x in xs[1..] ==> x in xs;
      FilterKeepsAll(xs[1..], p);
    }
  }

  lemma {:induction false} FilterIsSubsequence<T>(xs: seq<T>, p: T -> bool)
    ensures IsSubsequence(Filter(xs, p), xs)
  {
    if xs != [] {
      FilterIsSubsequence(xs[1..], p);
      if p(xs[0]) {
        assert Filter(xs, p) == [xs[0]] + Filter(xs[1..], p);
      } else {
        assert Filter(xs, p) == Filter(xs[1..], p);
        SubsequenceOfTail(Filter(xs[1..], p), xs);
      }
    }
  }

  lemma SubsequenceOfTail<T>(a: seq<T>, b: seq<T>)
    requires b != [] && IsSubsequence(a, b[1..])
    ensures IsSubsequence(a, b)
  {
  }

  /** `[start, end)` is a slice of a sequence of length `n`; findings and edits
      share this bound. */
  predicate InBounds(start: int, end: int, n: int) {
    0 <= start <= end <= n
  }

  /** A slice that lies inside the left operand of a concatenation. */
  lemma SliceOfLeft<T>(a: seq<T>, b: seq<T>, i: nat, j: nat)
    requires i <= j <= |a|
    ensures (a + b)[i..j] == a[i..j]
  {
    assert forall k :: 0 <= k < j - i ==> (a + b)[i..j][k] == a[i..j][k];
  }

  lemma TakeSnoc<T>(xs: seq<T>, i: nat)
    requires i < |xs|
    ensures xs[..i + 1] == xs[..i] + [xs[i]]
  {
  }

  /** Where a slice bound lands, as in Python's `s[a:b]` and JavaScript's
      `s.slice(a, b)` (both agree for integer bounds): a negative bound counts from
      the end, and the result is clamped to `0..n`. */
  function ClampIndex(i: int, n: nat): (k: nat)
    ensures k <= n
    ensures 0 <= i <= n ==> k == i
    ensures i < 0 && 0 <= i + n ==> k == i + n
  {
    if i < 0 then (if i + n < 0 then 0 else i + n) else if i > n then n else i
  }

  /** `s[a:b]` in Python, `s.slice(a, b)` in JavaScript: never fails, and is empty
      when the normalised end does not lie after the normalised start. */
  function Slice<T>(s: seq<T>, a: int, b: int): (r: seq<T>)
    ensures |r| <= |s|
    ensures 0 <= a <= b <= |s| ==> r == s[a..b]
    ensures 0 <= b <= a ==> r == []
  {
    var lo := ClampIndex(a, |s|);
    var hi := ClampIndex(b, |s|);
    if hi <= lo then [] else s[lo..hi]
  }

  function DigitChar(d: nat): (c: char)
    requires d < 10
    ensures '0' <= c <= '9'
  {
    (48 + d) as char
  }

  predicate IsDecimalDigit(c: char) {
    '0' <= c <= '9'
  }

  /** The decimal numeral of `n`, most significant digit first, without leading zeros. */
  function NatToDecimal(n: nat): (s: string)
    ensures |s| >= 1
    ensures forall i :: 0 <= i < |s| ==> IsDecimalDigit(s[i])
  {
    if n < 10 then [DigitChar(n)] else NatToDecimal(n / 10) + [DigitChar(n % 10)]
  }

  /** How JavaScript's template interpolation `${n}` renders an integer, for
      |n| < 10^21, which covers every string offset; beyond that JavaScript
      switches to exponent form. */
  function IntToDecimal(i: int): (s: string)
    ensures '\n' !in s && ',' !in s
    ensures |s| >= 1
  {
    NoNewlineInDecimal(if i < 0 then -i else i);
    if i < 0 then "-" + NatToDecimal(-i) else NatToDecimal(i)
  }

  lemma NoNewlineInDecimal(n: nat)
    ensures '\n' !in NatToDecimal(n) && ',' !in NatToDecimal(n)
  {
    var s := NatToDecimal(n);
    assert forall i :: 0 <= i < |s| ==> s[i] != '\n' && s[i] != ',';
  }

  /** The value of a string of decimal digits (the inverse of `NatToDecimal`). */
  function DecimalValue(s: string): nat
    requires forall i :: 0 <= i < |s| ==> IsDecimalDigit(s[i])
  {
    if s == [] then 0
    else DecimalValue(s[..|s| - 1]) * 10 + DigitValue(s[|s| - 1])
  }

  function DigitValue(c: char): (d: nat)
    requires IsDecimalDigit(c)
    ensures d < 10
  {
    (c as int) - ('0' as int)
  }

  lemma {:induction false} DecimalRoundTrip(n: nat)
    ensures DecimalValue(NatToDecimal(n)) == n
  {
    if n >= 10 {
      var s := NatToDecimal(n);
      assert s[..|s| - 1] == NatToDecimal(n / 10);
      DecimalRoundTrip(n / 10);
    }
  }

  /** The index of the first '\n' in `s`, or `|s|` when there is none. */
  function IndexOfNewline(s: string): (i: nat)
    ensures i <= |s|
    ensures i < |s| ==> s[i] == '\n'
    ensures forall k :: 0 <= k < i ==> s[k] != '\n'
  {
    if s == [] || s[0] == '\n' then 0 else 1 + IndexOfNewline(s[1..])
  }

  /** The lines of `s`: the pieces before each '\n', and a last piece when `s`
      does not end with '\n'. */
  function SplitLines(s: string): seq<string>
    decreases |s|
  {
    if s == [] then []
    else
      var i := IndexOfNewline(s);
      if i == |s| then [s] else [s[..i]] + SplitLines(s[i + 1..])
  }

  lemma SplitLinesCons(line: string, rest: string)
    requires '\n' !in line
    ensures SplitLines(line + "\n" + rest) == [line] + SplitLines(rest)
  {
    var s := line + "\n" + rest;
    var i := IndexOfNewline(s);
    assert forall k :: 0 <= k < |line| ==> s[k] == line[k];
    assert s[|line|] == '\n';
    assert i == |line|;
    assert s[..i] == line;
    assert s[i + 1..] == rest;
  }

  /** The first line break of `a + b` is that of `a` when `a` has one. */
  lemma IndexOfNewlineAppend(a: string, b: string)
    requires '\n' in a
    ensures IndexOfNewline(a + b) == IndexOfNewline(a)
  {
    var i := IndexOfNewline(a);
    var k :| 0 <= k < |a| && a[k] == '\n';
    assert i <= k;
    assert forall m :: 0 <= m <= i ==> (a + b)[m] == a[m];
  }

  /** A line break added to non-empty text that does not end in one adds no line. */
  lemma {:induction false} SplitLinesTerminated(s: string)
    requires |s| > 0 && s[|s| - 1] != '\n'
    ensures SplitLines(s + "\n") == SplitLines(s)
    decreases |s|
  {
    var i := IndexOfNewline(s);
    if i == |s| {
      SplitLinesCons(s, "");
      assert s + "\n" + "" == s + "\n";
    } else {
      IndexOfNewlineAppend(s, "\n");
      assert (s + "\n")[..i] == s[..i];
      var rest := s[i + 1..];
      assert (s + "\n")[i + 1..] == rest + "\n";
      assert rest[|rest| - 1] == s[|s| - 1];
      SplitLinesTerminated(rest);
    }
  }

  /** Text that is empty or ends with a line break splits apart from what follows it. */
  lemma SplitLinesAppend(a: string, b: string)
    requires a == [] || a[|a| - 1] == '\n'
    ensures SplitLines(a + b) == SplitLines(a) + SplitLines(b)
    decreases |a|
  {
    if a == [] {
      assert a + b == b;
    } else {
      IndexOfNewlineAppend(a, b);
      var i := IndexOfNewline(a);
      assert a[..i] == (a + b)[..i];
      assert (a + b)[i + 1..] == a[i + 1..] + b;
      SplitLinesAppend(a[i + 1..], b);
    }
  }
}
