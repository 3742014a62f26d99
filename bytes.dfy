/**
 * The byte-string operations the validator relies on, as Python's `bytes`
 * type defines them: `splitlines()`, `split(sep)`, `strip()` and `int(b)`.
 */
module ByteStrings {

  newtype byte = x: int | 0 <= x < 256

  type Bytes = seq<byte>

  const TabByte: byte := 9
  const SemicolonByte: byte := 59
  const LF: byte := 10
  const CR: byte := 13
  const Space: byte := 32
  const Plus: byte := 43
  const Minus: byte := 45
  const Underscore: byte := 95

  /** ASCII whitespace as `bytes.strip()` and `int()` see it: space, \t, \n, \v, \f, \r. */
  predicate IsSpace(b: byte) {
    b == Space || TabByte <= b <= CR
  }

  /** The universal line boundaries of `bytes.splitlines()`: \n and \r (and \r\n as one). */
  predicate IsLineBreak(b: byte) {
    b == LF || b == CR
  }

  predicate IsDigit(b: byte) {
    48 <= b <= 57
  }

  // ---------------------------------------------------------------------
  // splitlines

  /** Index of the first line break in `s`, or `|s|` when there is none. */
  function LineEnd(s: Bytes): (j: nat)
    ensures j <= |s|
    ensures forall k :: 0 <= k < j ==> !IsLineBreak(s[k])
    ensures j < |s| ==> IsLineBreak(s[j])
  {
    if s == [] || IsLineBreak(s[0]) then 0 else 1 + LineEnd(s[1..])
  }

  /**
   * `bytes.splitlines()` (keepends=False): the lines of `s` without their
   * terminators; a final terminator does not open an empty last line.
   */
  function SplitLines(s: Bytes): (lines: seq<Bytes>)
    ensures lines == [] <==> s == []
    ensures |lines| <= |s|
    decreases |s|
  {
    if s == [] then []
    else
      var j := LineEnd(s);
      if j == |s| then [s]
      else
        var next := if s[j] == CR && j + 1 < |s| && s[j + 1] == LF then j + 2 else j + 1;
        [s[..j]] + SplitLines(s[next..])
  }

  /** True when `line` could be a line of `splitlines()`: it holds no line break. */
  predicate IsLine(line: Bytes) {
    forall k :: 0 <= k < |line| ==> !IsLineBreak(line[k])
  }

  /** No line returned by `splitlines()` holds a line break. */
  lemma {:induction false} SplitLinesAreLines(s: Bytes, i: nat)
    requires i < |SplitLines(s)|
    ensures IsLine(SplitLines(s)[i])
    decreases |s|
  {
    var j := LineEnd(s);
    if j < |s| && i > 0 {
      var next := if s[j] == CR && j + 1 < |s| && s[j + 1] == LF then j + 2 else j + 1;
      assert SplitLines(s) == [s[..j]] + SplitLines(s[next..]);
      SplitLinesAreLines(s[next..], i - 1);
    }
  }

  /** The buffer made of `lines`, each followed by \n. */
  function Terminated(lines: seq<Bytes>): Bytes {
    if lines == [] then [] else lines[0] + [LF] + Terminated(lines[1..])
  }

  /** `splitlines()` undoes terminating every line with \n. */
  lemma {:induction false} SplitLinesTerminated(lines: seq<Bytes>)
    requires forall i :: 0 <= i < |lines| ==> IsLine(lines[i])
    ensures SplitLines(Terminated(lines)) == lines
  {
    if lines != [] {
      assert Terminated(lines) == lines[0] + [LF] + Terminated(lines[1..]);
      SplitLinesAfterLF(lines[0], Terminated(lines[1..]));
      SplitLinesTerminated(lines[1..]);
      assert lines == [lines[0]] + lines[1..];
    }
  }

  /*
   * The four lemmas below, with `SplitLines([]) == []`, pin `splitlines()`
   * down on every buffer: a line ends at \n, at \r\n taken as one break,
   * or at a \r not followed by \n, and an unterminated last line is kept.
   */

  /** A line ended by \n is returned, and splitting resumes after the \n. */
  lemma SplitLinesAfterLF(line: Bytes, rest: Bytes)
    requires IsLine(line)
    ensures SplitLines(line + [LF] + rest) == [line] + SplitLines(rest)
  {
    var s := line + [LF] + rest;
    assert s == line + ([LF] + rest);
    LineEndAt(line, [LF] + rest);
    assert s[..|line|] == line && s[|line| + 1..] == rest;
  }

  /** A line ended by \r\n is returned once, and splitting resumes after the pair. */
  lemma SplitLinesAfterCRLF(line: Bytes, rest: Bytes)
    requires IsLine(line)
    ensures SplitLines(line + [CR, LF] + rest) == [line] + SplitLines(rest)
  {
    var s := line + [CR, LF] + rest;
    assert s == line + ([CR, LF] + rest);
    LineEndAt(line, [CR, LF] + rest);
    assert s[|line|] == CR && s[|line| + 1] == LF;
    assert s[..|line|] == line && s[|line| + 2..] == rest;
  }

  /** A line ended by a lone \r is returned, and splitting resumes after the \r. */
  lemma SplitLinesAfterCR(line: Bytes, rest: Bytes)
    requires IsLine(line)
    requires rest == [] || rest[0] != LF
    ensures SplitLines(line + [CR] + rest) == [line] + SplitLines(rest)
  {
    var s := line + [CR] + rest;
    assert s == line + ([CR] + rest);
    LineEndAt(line, [CR] + rest);
    assert s[|line|] == CR;
    assert |line| + 1 < |s| ==> s[|line| + 1] == rest[0];
    assert s[..|line|] == line && s[|line| + 1..] == rest;
  }

  /** A non-empty last line without a terminator is kept as the last line. */
  lemma SplitLinesUnterminated(line: Bytes)
    requires IsLine(line) && line != []
    ensures SplitLines(line) == [line]
  {
    assert LineEnd(line) == |line|;
  }

  lemma {:induction false} LineEndAt(line: Bytes, rest: Bytes)
    requires IsLine(line)
    requires rest != [] && IsLineBreak(rest[0])
    ensures LineEnd(line + rest) == |line|
  {
    if line == [] {
      assert line + rest == rest;
    } else {
      assert (line + rest)[1..] == line[1..] + rest;
      LineEndAt(line[1..], rest);
    }
  }

  // ---------------------------------------------------------------------
  // split

  /** Index of the first `d` in `s`, or `|s|` when there is none. */
  function IndexOf(s: Bytes, d: byte): (j: nat)
    ensures j <= |s|
    ensures forall k :: 0 <= k < j ==> s[k] != d
    ensures j < |s| ==> s[j] == d
  {
    if s == [] || s[0] == d then 0 else 1 + IndexOf(s[1..], d)
  }

  /** `bytes.split(sep)` for a one-byte separator: never returns an empty list. */
  function Split(s: Bytes, d: byte): (cells: seq<Bytes>)
    ensures |cells| >= 1
    decreases |s|
  {
    var j := IndexOf(s, d);
    if j == |s| then [s] else [s[..j]] + Split(s[j + 1..], d)
  }

  /** `sep.join(cells)` for a one-byte separator. */
  function Join(cells: seq<Bytes>, d: byte): Bytes
    requires |cells| >= 1
  {
    if |cells| == 1 then cells[0] else cells[0] + [d] + Join(cells[1..], d)
  }

  /** Number of occurrences of `b` in `s`. */
  function Occurrences(s: Bytes, b: byte): nat {
    if s == [] then 0 else (if s[0] == b then 1 else 0) + Occurrences(s[1..], b)
  }

  lemma {:induction false} OccurrencesAppend(s: Bytes, t: Bytes, b: byte)
    ensures Occurrences(s + t, b) == Occurrences(s, b) + Occurrences(t, b)
  {
    if s == [] {
      assert s + t == t;
    } else {
      assert (s + t)[1..] == s[1..] + t;
      OccurrencesAppend(s[1..], t, b);
    }
  }

  lemma {:induction false} NoOccurrences(s: Bytes, b: byte)
    requires forall k :: 0 <= k < |s| ==> s[k] != b
    ensures Occurrences(s, b) == 0
  {
    if s != [] {
      NoOccurrences(s[1..], b);
    }
  }

  /** Joining the cells of a split gives back the line. */
  lemma {:induction false} SplitJoin(s: Bytes, d: byte)
    ensures Join(Split(s, d), d) == s
    decreases |s|
  {
    var j := IndexOf(s, d);
    if j < |s| {
      var tail := s[j + 1..];
      SplitJoin(tail, d);
      assert Split(s, d) == [s[..j]] + Split(tail, d);
      assert s == s[..j] + [d] + tail;
    }
  }

  /** No cell of a split holds the separator. */
  lemma {:induction false} SplitCellsLackSeparator(s: Bytes, d: byte)
    ensures forall i, k :: 0 <= i < |Split(s, d)| && 0 <= k < |Split(s, d)[i]| ==> Split(s, d)[i][k] != d
    decreases |s|
  {
    var j := IndexOf(s, d);
    if j < |s| {
      SplitCellsLackSeparator(s[j + 1..], d);
    }
  }

  /** A line splits into one cell more than it holds separators. */
  lemma {:induction false} SplitCount(s: Bytes, d: byte)
    ensures |Split(s, d)| == Occurrences(s, d) + 1
    decreases |s|
  {
    var j := IndexOf(s, d);
    if j == |s| {
      NoOccurrences(s, d);
    } else {
      var tail := s[j + 1..];
      SplitCount(tail, d);
      assert s == s[..j] + ([d] + tail);
      NoOccurrences(s[..j], d);
      OccurrencesAppend(s[..j], [d] + tail, d);
      OccurrencesAppend([d], tail, d);
    }
  }

  // ---------------------------------------------------------------------
  // strip

  function StripLeading(s: Bytes): (r: Bytes)
    ensures |r| <= |s|
    ensures forall k :: 0 <= k < |s| - |r| ==> IsSpace(s[k])
    ensures r != [] ==> !IsSpace(r[0])
  {
    if s != [] && IsSpace(s[0]) then StripLeading(s[1..]) else s
  }

  function StripTrailing(s: Bytes): (r: Bytes)
    ensures |r| <= |s|
    ensures forall k :: |r| <= k < |s| ==> IsSpace(s[k])
    ensures r != [] ==> !IsSpace(r[|r| - 1])
  {
    if s != [] && IsSpace(s[|s| - 1]) then StripTrailing(s[..|s| - 1]) else s
  }

  /** What `lstrip()` keeps is a suffix of its input. */
  lemma {:induction false} StripLeadingSuffix(s: Bytes)
    ensures StripLeading(s) == s[|s| - |StripLeading(s)|..]
  {
    if s != [] && IsSpace(s[0]) {
      StripLeadingSuffix(s[1..]);
    }
  }

  /** What `rstrip()` keeps is a prefix of its input. */
  lemma {:induction false} StripTrailingPrefix(s: Bytes)
    ensures StripTrailing(s) == s[..|StripTrailing(s)|]
  {
    if s != [] && IsSpace(s[|s| - 1]) {
      StripTrailingPrefix(s[..|s| - 1]);
    }
  }

  /** `bytes.strip()`: drops ASCII whitespace at both ends. */
  function Strip(s: Bytes): (r: Bytes)
    ensures |r| <= |s|
    ensures IsTrimmed(r)
  {
    var l := StripLeading(s);
    StripTrailingPrefix(l);
    StripTrailing(l)
  }

  /** Number of whitespace bytes `strip()` drops at the front of `s`. */
  function StripOffset(s: Bytes): nat {
    |s| - |StripLeading(s)|
  }

  /**
   * What `strip()` promises: the result is the middle of the input, what it
   * dropped is whitespace, and it neither starts nor ends with whitespace.
   */
  lemma StripIsTrimmedMiddle(s: Bytes)
    ensures var r, i := Strip(s), StripOffset(s);
      && i + |r| <= |s| && r == s[i..i + |r|]
      && (forall k :: 0 <= k < i ==> IsSpace(s[k]))
      && (forall k :: i + |r| <= k < |s| ==> IsSpace(s[k]))
    ensures Strip(s) != [] ==> !IsSpace(Strip(s)[0]) && !IsSpace(Strip(s)[|Strip(s)| - 1])
  {
    var l := StripLeading(s);
    var r := Strip(s);
    var i := StripOffset(s);
    StripLeadingSuffix(s);
    StripTrailingPrefix(l);
    assert r == s[i..i + |r|];
    if r != [] {
      assert r[0] == l[0];
    }
  }

  /** True when `s` neither starts nor ends with whitespace. */
  predicate IsTrimmed(s: Bytes) {
    s == [] || (!IsSpace(s[0]) && !IsSpace(s[|s| - 1]))
  }

  /** `strip()` leaves exactly the trimmed byte strings unchanged. */
  lemma StripTrimmed(s: Bytes)
    ensures Strip(s) == s <==> IsTrimmed(s)
  {
    StripIsTrimmedMiddle(s);
    if IsTrimmed(s) && s != [] {
      assert StripLeading(s) == s;
      assert StripTrailing(s) == s;
    }
  }

  /** Stripping twice is stripping once. */
  lemma StripIdempotent(s: Bytes)
    ensures Strip(Strip(s)) == Strip(s)
  {
    StripIsTrimmedMiddle(s);
  }

  // ---------------------------------------------------------------------
  // int(b)

  /**
   * A base-10 literal as `int()` accepts it: digits, with single underscores
   * allowed between two digits.
   */
  predicate IsDecimalLiteral(t: Bytes) {
    && |t| > 0
    && IsDigit(t[0])
    && forall k :: 0 <= k < |t| ==>
         IsDigit(t[k]) || (t[k] == Underscore && k + 1 < |t| && IsDigit(t[k + 1]))
  }

  /**
   * `int(b)` succeeds: after surrounding whitespace is dropped, an optional
   * sign followed by a decimal literal.
   */
  predicate ParsesAsInt(cell: Bytes) {
    var t := Strip(cell);
    |t| > 0 &&
    IsDecimalLiteral(if t[0] == Plus || t[0] == Minus then t[1..] else t)
  }

  // ---------------------------------------------------------------------
  // decode

  /** `b.decode()` for ASCII text: one character per byte. */
  function AsText(s: Bytes): (r: string)
    ensures |r| == |s|
    ensures forall k :: 0 <= k < |s| ==> r[k] as int == s[k] as int
  {
    if s == [] then [] else [s[0] as int as char] + AsText(s[1..])
  }
}
