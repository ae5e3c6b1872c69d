/**
 * The string operations the front-end relies on, written out: searching for
 * the last separator, `str.split`, `str.rsplit(sep, 1)`, ASCII lower-casing,
 * and the decimal digits used when a confidence is printed.
 */
module Text {

  /** Index of the last occurrence of `c` in `s`, or -1 when there is none. */
  function LastIndexOf(s: string, c: char): (i: int)
    ensures -1 <= i < |s|
    ensures i == -1 <==> c !in s
    ensures 0 <= i ==> s[i] == c
    ensures forall j :: i < j < |s| ==> s[j] != c
  {
    LastIndexBelow(s, c, |s|)
  }

  /** The last index below `n` that holds `c`, or -1. */
  function LastIndexBelow(s: string, c: char, n: nat): (i: int)
    requires n <= |s|
    ensures -1 <= i < n
    ensures 0 <= i ==> s[i] == c
    ensures forall j :: i < j < n ==> s[j] != c
  {
    if n == 0 then -1
    else if s[n - 1] == c then n - 1
    else LastIndexBelow(s, c, n - 1)
  }

  /** The postcondition of LastIndexOf pins the index down: any occurrence
      with no later occurrence is the one it finds. */
  lemma LastIndexOfUnique(s: string, c: char, i: int)
    requires 0 <= i < |s| && s[i] == c
    requires forall j :: i < j < |s| ==> s[j] != c
    ensures LastIndexOf(s, c) == i
  {
  }

  /** Appending text that holds a `c` moves the last `c` into it. */
  lemma LastIndexOfAppendHit(a: string, b: string, c: char)
    requires c in b
    ensures LastIndexOf(a + b, c) == |a| + LastIndexOf(b, c)
  {
    var s := a + b;
    var k := LastIndexOf(b, c);
    assert forall j :: |a| + k < j < |s| ==> s[j] == b[j - |a|];
    LastIndexOfUnique(s, c, |a| + k);
  }

  /** Appending text without `c` does not move the last `c`. */
  lemma LastIndexOfAppendMiss(a: string, b: string, c: char)
    requires c !in b
    ensures LastIndexOf(a + b, c) == LastIndexOf(a, c)
  {
    var s := a + b;
    var k := LastIndexOf(a, c);
    assert forall j :: |a| <= j < |s| ==> s[j] == b[j - |a|];
    if k >= 0 {
      LastIndexOfUnique(s, c, k);
    } else {
      NotInAppend(a, b, c);
    }
  }

  /** In `a + [c] + b` with no `c` in `b`, the last `c` is the one put
      between them. */
  lemma LastIndexOfBetween(a: string, c: char, b: string)
    requires c !in b
    ensures LastIndexOf(a + [c] + b, c) == |a|
  {
    LastIndexOfAppendMiss(a + [c], b, c);
    LastIndexOfUnique(a + [c], c, |a|);
  }

  lemma ConcatAssoc(a: string, b: string, c: string)
    ensures a + (b + c) == a + b + c
  {
  }

  lemma NotInAppend(a: string, b: string, c: char)
    requires c !in a && c !in b
    ensures c !in a + b
  {
  }

  /** `s.rsplit(sep, 1)`: the whole string when `sep` does not occur,
      otherwise the text before and after the last `sep`. */
  function RSplitOnce(s: string, sep: char): (parts: seq<string>)
    ensures sep !in s ==> parts == [s]
    ensures sep in s ==> |parts| == 2 && s == parts[0] + [sep] + parts[1] && sep !in parts[1]
  {
    var i := LastIndexOf(s, sep);
    if i < 0 then [s]
    else
      assert s == s[..i] + [sep] + s[i + 1..];
      [s[..i], s[i + 1..]]
  }

  /** Splitting `a + [sep] + b` once from the right, with no `sep` in `b`,
      gives back `a` and `b`. */
  lemma RSplitOnceBetween(a: string, sep: char, b: string)
    requires sep !in b
    ensures RSplitOnce(a + [sep] + b, sep) == [a, b]
  {
    var s := a + [sep] + b;
    LastIndexOfBetween(a, sep, b);
    assert s[..|a|] == a;
    assert s[|a| + 1..] == b;
  }

  /** Python's `sep.join(parts)` for a non-empty list of parts. */
  function Join(parts: seq<string>, sep: char): string
    requires |parts| >= 1
  {
    if |parts| == 1 then parts[0]
    else Join(parts[..|parts| - 1], sep) + [sep] + parts[|parts| - 1]
  }

  /** `s.split(sep)`: the maximal runs between separators, empty runs
      included, found by splitting off the text after the last separator
      until none is left. */
  function Split(s: string, sep: char): (parts: seq<string>)
    ensures |parts| >= 1
    ensures parts[|parts| - 1] == s[LastIndexOf(s, sep) + 1..]
    decreases |s|
  {
    var i := LastIndexOf(s, sep);
    if i < 0 then [s]
    else Split(s[..i], sep) + [s[i + 1..]]
  }

  /** No part of a split holds the separator. */
  lemma {:induction false} SplitPartAvoidsSep(s: string, sep: char, k: nat)
    requires k < |Split(s, sep)|
    ensures sep !in Split(s, sep)[k]
    decreases |s|
  {
    var i := LastIndexOf(s, sep);
    if i < 0 {
      assert Split(s, sep) == [s];
    } else if k == |Split(s, sep)| - 1 {
      var tail := s[i + 1..];
      assert forall j :: 0 <= j < |tail| ==> tail[j] == s[i + 1 + j];
    } else {
      var init := Split(s[..i], sep);
      var parts := Split(s, sep);
      assert parts == init + [s[i + 1..]];
      assert parts[k] == init[k];
      SplitPartAvoidsSep(s[..i], sep, k);
    }
  }

  /** Joining the parts of a split with the same separator gives back the
      string: `sep.join(s.split(sep)) == s`. */
  lemma {:induction false} SplitJoin(s: string, sep: char)
    ensures Join(Split(s, sep), sep) == s
    decreases |s|
  {
    var i := LastIndexOf(s, sep);
    if i >= 0 {
      var before, after := s[..i], s[i + 1..];
      var init := Split(before, sep);
      calc {
        Join(Split(s, sep), sep);
        { SplitSnoc(s, sep); }
        Join(init + [after], sep);
        { JoinSnoc(init, after, sep); }
        Join(init, sep) + [sep] + after;
        { SplitJoin(before, sep); }
        before + [sep] + after;
        s;
      }
    }
  }

  lemma SplitSnoc(s: string, sep: char)
    requires sep in s
    ensures var i := LastIndexOf(s, sep);
      Split(s, sep) == Split(s[..i], sep) + [s[i + 1..]]
  {
  }

  lemma JoinSnoc(parts: seq<string>, last: string, sep: char)
    requires |parts| >= 1
    ensures Join(parts + [last], sep) == Join(parts, sep) + [sep] + last
  {
    assert (parts + [last])[..|parts|] == parts;
  }

  /** The last element of `s.split(sep)` is the tail of `s.rsplit(sep, 1)`
      when `sep` occurs, and all of `s` when it does not. */
  lemma LastPartIsRSplitTail(s: string, sep: char)
    ensures var parts := Split(s, sep);
      parts[|parts| - 1] == if sep in s then RSplitOnce(s, sep)[1] else s
  {
  }

  /** ASCII lower-casing of one character. */
  function LowerChar(c: char): char
  {
    if 'A' <= c <= 'Z' then (c as int + 32) as char else c
  }

  /** `s.lower()` restricted to ASCII letters. */
  function Lower(s: string): (r: string)
    ensures |r| == |s|
  {
    seq(|s|, i requires 0 <= i < |s| => LowerChar(s[i]))
  }

  /** Lower-casing twice is lower-casing once. */
  lemma LowerIdempotent(s: string)
    ensures Lower(Lower(s)) == Lower(s)
  {
  }

  /** Lower-casing does not move the last `.`. */
  lemma LastDotOfLower(s: string)
    ensures LastIndexOf(Lower(s), '.') == LastIndexOf(s, '.')
  {
    var low := Lower(s);
    var i := LastIndexOf(s, '.');
    assert forall j :: 0 <= j < |s| ==> (low[j] == '.' <==> s[j] == '.');
    if i >= 0 {
      LastIndexOfUnique(low, '.', i);
    }
  }

  lemma LowerSlice(s: string, i: nat)
    requires i <= |s|
    ensures Lower(s)[i..] == Lower(s[i..])
  {
  }

  // ----- decimal digits -----

  predicate IsDigit(c: char)
  {
    '0' <= c <= '9'
  }

  predicate AllDigits(s: string)
  {
    forall i :: 0 <= i < |s| ==> IsDigit(s[i])
  }

  function Digit(d: nat): char
    requires d < 10
  {
    ('0' as int + d) as char
  }

  function DigitValue(c: char): nat
    requires IsDigit(c)
  {
    c as int - '0' as int
  }

  /** The value of a string of decimal digits, most significant first. */
  function DigitsValue(s: string): nat
    requires AllDigits(s)
  {
    if s == [] then 0
    else DigitsValue(s[..|s| - 1]) * 10 + DigitValue(s[|s| - 1])
  }

  /** Python's `str(n)` for a natural number: the shortest decimal
      numeral, without leading zeros. */
  function NatToDecimal(n: nat): (s: string)
    ensures |s| >= 1 && AllDigits(s)
    ensures s[0] == '0' ==> n == 0
  {
    if n < 10 then [Digit(n)]
    else NatToDecimal(n / 10) + [Digit(n % 10)]
  }

  /** Printing a number and reading its digits back gives the number. */
  lemma {:induction false} NatToDecimalValue(n: nat)
    ensures DigitsValue(NatToDecimal(n)) == n
  {
    if n >= 10 {
      NatToDecimalValue(n / 10);
      var s := NatToDecimal(n);
      assert s[..|s| - 1] == NatToDecimal(n / 10);
    }
  }
}
