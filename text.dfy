/**
 * The pieces of Python's string formatting that the validator's messages use:
 * `str(n)` for a natural number, `repr` of a list of row numbers, and
 * `" ".join(...)`.
 */
module Text {

  predicate IsDigitChar(c: char) {
    '0' <= c <= '9'
  }

  /** `str(n)`: the decimal digits of `n`, without leading zeros. */
  function DecimalString(n: nat): (s: string)
    ensures |s| > 0
    ensures forall k :: 0 <= k < |s| ==> IsDigitChar(s[k])
    ensures n > 0 ==> s[0] != '0'
  {
    if n < 10 then [DigitChar(n)] else DecimalString(n / 10) + [DigitChar(n % 10)]
  }

  function DigitChar(d: nat): (c: char)
    requires d < 10
    ensures IsDigitChar(c) && c as int - '0' as int == d
  {
    (d + '0' as int) as char
  }

  /** The number a string of decimal digits denotes. */
  function DecimalValue(s: string): nat
    requires forall k :: 0 <= k < |s| ==> IsDigitChar(s[k])
  {
    if s == [] then 0
    else
      var last := s[|s| - 1];
      assert IsDigitChar(last);
      10 * DecimalValue(s[..|s| - 1]) + (last as int - '0' as int)
  }

  /** Reading back the digits `str(n)` prints gives `n`. */
  lemma {:induction false} DecimalRoundTrip(n: nat)
    ensures DecimalValue(DecimalString(n)) == n
  {
    if n >= 10 {
      DecimalRoundTrip(n / 10);
      var s := DecimalString(n);
      assert s[..|s| - 1] == DecimalString(n / 10);
    }
  }

  /** `", ".join(str(x) for x in xs)`. */
  function JoinNumbers(xs: seq<nat>): string {
    if xs == [] then ""
    else if |xs| == 1 then DecimalString(xs[0])
    else DecimalString(xs[0]) + ", " + JoinNumbers(xs[1..])
  }

  /** `repr(xs)` of a Python list of ints, e.g. `[2, 5]`. */
  function ListRepr(xs: seq<nat>): (r: string)
    ensures |r| >= 2 && r[0] == '[' && r[|r| - 1] == ']'
  {
    "[" + JoinNumbers(xs) + "]"
  }

  /** Where `", ".join` prints the number at position `i` of the list. */
  function NumberOffset(xs: seq<nat>, i: nat): nat
    requires i < |xs|
  {
    if i == 0 then 0 else |DecimalString(xs[0])| + 2 + NumberOffset(xs[1..], i - 1)
  }

  /**
   * `n` is printed in `j` at `at` as one whole list entry: preceded by the
   * start or a space and followed by the end or a comma.
   */
  predicate EntryAt(n: string, j: string, at: nat) {
    && OccursAt(n, j, at)
    && (at == 0 || j[at - 1] == ' ')
    && (at + |n| == |j| || j[at + |n|] == ',')
  }

  /** Every number of the list is printed in `", ".join` as a whole entry. */
  lemma {:induction false} JoinNumbersNamesEvery(xs: seq<nat>, i: nat)
    requires i < |xs|
    ensures EntryAt(DecimalString(xs[i]), JoinNumbers(xs), NumberOffset(xs, i))
  {
    var n := DecimalString(xs[i]);
    if |xs| == 1 {
      assert JoinNumbers(xs)[0..|n|] == n;
    } else {
      var rest := JoinNumbers(xs[1..]);
      assert JoinNumbers(xs) == DecimalString(xs[0]) + ", " + rest;
      if i == 0 {
        EntryFirst(n, rest);
      } else {
        JoinNumbersNamesEvery(xs[1..], i - 1);
        assert xs[1..][i - 1] == xs[i];
        EntryShift(n, DecimalString(xs[0]) + ", ", rest, NumberOffset(xs[1..], i - 1));
      }
    }
  }

  lemma {:induction false} EntryFirst(n: string, rest: string)
    ensures EntryAt(n, n + ", " + rest, 0)
  {
    var j := n + ", " + rest;
    assert j[..|n|] == n;
    assert j[|n|] == ',';
  }

  lemma {:induction false} EntryShift(n: string, head: string, rest: string, at: nat)
    requires EntryAt(n, rest, at)
    requires head != [] && head[|head| - 1] == ' '
    ensures EntryAt(n, head + rest, |head| + at)
  {
    var j := head + rest;
    assert j[|head| + at..|head| + at + |n|] == rest[at..at + |n|];
    assert j[|head| + at - 1] == if at == 0 then head[|head| - 1] else rest[at - 1];
  }

  /**
   * `n` is printed in `s` at `at` as one whole entry of a list `repr`:
   * preceded by `[` or a space and followed by `,` or `]`.
   */
  predicate ListEntryAt(n: string, s: string, at: nat) {
    && 1 <= at && OccursAt(n, s, at) && at + |n| < |s|
    && (s[at - 1] == '[' || s[at - 1] == ' ')
    && (s[at + |n|] == ',' || s[at + |n|] == ']')
  }

  /** Every number of the list is printed in its `repr` as a whole entry. */
  lemma {:induction false} ListReprNamesEvery(xs: seq<nat>, i: nat)
    requires i < |xs|
    ensures ListEntryAt(DecimalString(xs[i]), ListRepr(xs), NumberOffset(xs, i) + 1)
  {
    var j, n, at := JoinNumbers(xs), DecimalString(xs[i]), NumberOffset(xs, i);
    JoinNumbersNamesEvery(xs, i);
    EntryBracketed(n, j, at);
    assert ListRepr(xs) == "[" + j + "]";
  }

  lemma {:induction false} EntryBracketed(n: string, j: string, at: nat)
    requires EntryAt(n, j, at)
    ensures ListEntryAt(n, "[" + j + "]", at + 1)
  {
    var r := "[" + j + "]";
    assert r[at + 1..at + 1 + |n|] == j[at..at + |n|];
    assert r[at] == if at == 0 then '[' else j[at - 1];
    assert r[at + 1 + |n|] == if at + |n| == |j| then ']' else j[at + |n|];
  }

  /**
   * Where a list `repr` is printed in `s` at `at`, each number of the list is
   * printed there as a whole entry.
   */
  lemma {:induction false} ListEntryWithin(xs: seq<nat>, s: string, at: nat, i: nat)
    requires OccursAt(ListRepr(xs), s, at) && i < |xs|
    ensures ListEntryAt(DecimalString(xs[i]), s, at + (NumberOffset(xs, i) + 1))
  {
    ListReprNamesEvery(xs, i);
    EntryCarried(DecimalString(xs[i]), ListRepr(xs), s, NumberOffset(xs, i) + 1, at);
  }

  /** An entry of a list `repr` printed in `s` at `at` is an entry there too. */
  lemma {:induction false} EntryCarried(n: string, r: string, s: string, k: nat, at: nat)
    requires ListEntryAt(n, r, k) && OccursAt(r, s, at)
    ensures ListEntryAt(n, s, at + k)
  {
    OccursWithin(n, r, s, k, at);
    assert s[at..at + |r|] == r;
    assert s[at + k - 1] == r[k - 1];
    assert s[at + k + |n|] == r[k + |n|];
  }

  /** An occurrence inside an occurrence is an occurrence. */
  lemma {:induction false} OccursWithin(part: string, middle: string, s: string, i: nat, j: nat)
    requires OccursAt(part, middle, i) && OccursAt(middle, s, j)
    ensures OccursAt(part, s, j + i)
  {
    forall k | 0 <= k < |part|
      ensures s[j + i + k] == part[k]
    {
      assert s[j..j + |middle|][i + k] == middle[i + k];
    }
  }

  /** `" ".join(parts)`. */
  function JoinSpace(parts: seq<string>): string {
    if parts == [] then ""
    else if |parts| == 1 then parts[0]
    else parts[0] + " " + JoinSpace(parts[1..])
  }

  /** `part` occurs in `s` starting at `at`. */
  predicate OccursAt(part: string, s: string, at: nat) {
    at + |part| <= |s| && s[at..at + |part|] == part
  }

  /** `prefix + part + suffix`, where `part` is found right after the prefix. */
  function Wrap(prefix: string, part: string, suffix: string): (s: string)
    ensures |s| == |prefix| + |part| + |suffix|
    ensures OccursAt(part, s, |prefix|)
    ensures OccursAt(suffix, s, |prefix| + |part|)
  {
    var s := prefix + part + suffix;
    assert s[|prefix|..|prefix| + |part|] == part;
    assert s[|prefix| + |part|..] == suffix;
    s
  }

  /**
   * `prefix + first + middle + second + suffix`, where `first` is found right
   * after the prefix and `second` right after the middle.
   */
  function Wrap2(prefix: string, first: string, middle: string, second: string, suffix: string): (s: string)
    ensures OccursAt(first, s, |prefix|)
    ensures OccursAt(second, s, |prefix| + |first| + |middle|)
  {
    var rest := Wrap(middle, second, suffix);
    var s := Wrap(prefix, first, rest);
    OccursWithin(second, rest, s, |middle|, |prefix| + |first|);
    s
  }

  /** Every part of a space-joined string can be found in it. */
  lemma {:induction false} JoinSpaceContains(parts: seq<string>, i: nat)
    requires i < |parts|
    ensures exists at: nat :: OccursAt(parts[i], JoinSpace(parts), at)
  {
    var s := JoinSpace(parts);
    if |parts| == 1 {
      assert OccursAt(parts[0], s, 0);
    } else if i == 0 {
      assert s == parts[0] + (" " + JoinSpace(parts[1..]));
      assert OccursAt(parts[0], s, 0);
    } else {
      JoinSpaceContains(parts[1..], i - 1);
      var at: nat :| OccursAt(parts[1..][i - 1], JoinSpace(parts[1..]), at);
      var offset := |parts[0]| + 1;
      assert s == (parts[0] + " ") + JoinSpace(parts[1..]);
      assert s[offset + at..offset + at + |parts[i]|] == JoinSpace(parts[1..])[at..at + |parts[i]|];
      assert OccursAt(parts[i], s, offset + at);
    }
  }
}
