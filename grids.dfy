/**
 * The split data of an upload as rows of cells, and the list-building
 * operations of `DataValidator` that only read it: the header lookup, the
 * row-length map, the corrupted-row list, the required-column values and the
 * filter that builds `validated_data`.
 */
module Grids {
  import opened ByteStrings

  /** One line of the upload, split on the delimiter; cells keep their whitespace. */
  type Row = seq<Bytes>

  /** `split_data`: row 0 is the header row, the others are data rows. */
  type Grid = seq<Row>

  /** `[row.split(delimiter) for row in data.splitlines()]`. */
  function SplitGrid(data: Bytes, d: byte): (g: Grid)
    ensures |g| == |SplitLines(data)|
    ensures forall i :: 0 <= i < |g| ==> g[i] == Split(SplitLines(data)[i], d)
    ensures forall i :: 0 <= i < |g| ==> |g[i]| >= 1
  {
    var lines := SplitLines(data);
    seq(|lines|, i requires 0 <= i < |lines| => Split(lines[i], d))
  }

  /** `[header.strip() for header in row]`. */
  function StripAll(row: Row): (r: Row)
    ensures |r| == |row|
    ensures forall k :: 0 <= k < |row| ==> r[k] == Strip(row[k])
  {
    seq(|row|, k requires 0 <= k < |row| => Strip(row[k]))
  }

  // ---------------------------------------------------------------------
  // the required column in the header row

  /** `row.count(name)`. */
  function Count(row: Row, name: Bytes): (c: nat)
    ensures c <= |row|
  {
    if row == [] then 0 else (if row[0] == name then 1 else 0) + Count(row[1..], name)
  }

  /** `row.index(name)`: the first position holding `name`. */
  function FirstIndex(row: Row, name: Bytes): (k: nat)
    requires name in row
    ensures k < |row| && row[k] == name
    ensures forall j :: 0 <= j < k ==> row[j] != name
  {
    if row[0] == name then 0 else 1 + FirstIndex(row[1..], name)
  }

  /** `count` is positive exactly when `name` is present. */
  lemma {:induction false} CountPositive(row: Row, name: Bytes)
    ensures Count(row, name) > 0 <==> name in row
  {
    if row != [] {
      CountPositive(row[1..], name);
      assert row == [row[0]] + row[1..];
    }
  }

  /**
   * More than one occurrence means exactly that `name` occurs again after
   * the position `index` returns.
   */
  lemma {:induction false} CountAboveOne(row: Row, name: Bytes)
    requires name in row
    ensures Count(row, name) > 1 <==>
      exists j :: FirstIndex(row, name) < j < |row| && row[j] == name
  {
    if row[0] == name {
      CountPositive(row[1..], name);
      if name in row[1..] {
        var j :| 0 <= j < |row[1..]| && row[1..][j] == name;
        assert row[j + 1] == name;
      }
      if exists j :: 0 < j < |row| && row[j] == name {
        var j :| 0 < j < |row| && row[j] == name;
        assert row[1..][j - 1] == name;
      }
    } else {
      assert name in row[1..];
      CountAboveOne(row[1..], name);
      if exists j :: FirstIndex(row[1..], name) < j < |row[1..]| && row[1..][j] == name {
        var j :| FirstIndex(row[1..], name) < j < |row[1..]| && row[1..][j] == name;
        assert row[j + 1] == name;
      }
      if exists j :: FirstIndex(row, name) < j < |row| && row[j] == name {
        var j :| FirstIndex(row, name) < j < |row| && row[j] == name;
        assert row[1..][j - 1] == name;
      }
    }
  }

  /**
   * A name that is its own strip and is present in the raw header row is
   * present in the stripped one too, no later than in the raw one: the
   * `index` lookup on the stripped headers cannot fail.
   */
  lemma RawPresenceImpliesStripped(raw: Row, name: Bytes)
    requires IsTrimmed(name)
    requires name in raw
    ensures name in StripAll(raw)
    ensures FirstIndex(StripAll(raw), name) <= FirstIndex(raw, name)
  {
    StripTrimmed(name);
    var k := FirstIndex(raw, name);
    assert StripAll(raw)[k] == name;
  }

  /**
   * The converse fails: a header cell padded with a space matches the name
   * only once stripped, so the raw presence test rejects it.
   */
  lemma PaddedHeaderOnlyMatchesStripped(name: Bytes)
    requires IsTrimmed(name)
    ensures var raw := [[Space] + name];
      name !in raw && name in StripAll(raw)
  {
    StripTrimmed(name);
    var cell := [Space] + name;
    assert cell[1..] == name;
    assert StripLeading(cell) == StripLeading(name);
    assert |cell| != |name|;
    assert StripAll([cell])[0] == name;
  }

  // ---------------------------------------------------------------------
  // row lengths and corrupted rows

  /** `dict(enumerate(map(len, split_data)))`. */
  function RowLengths(g: Grid): (m: map<nat, nat>)
    ensures forall i: nat :: i in m <==> i < |g|
    ensures forall i: nat :: i < |g| ==> m[i] == |g[i]|
  {
    map i: nat | i < |g| :: |g[i]|
  }

  /**
   * `[i for i in row_length if row_length[i] != num_of_headers]`, keys taken
   * in insertion order 0, 1, ..., n - 1.
   */
  function CorruptedRows(lengths: map<nat, nat>, n: nat, numHeaders: nat): (r: seq<nat>)
    requires forall i: nat :: i < n ==> i in lengths
    ensures forall i: nat {:trigger i in r} :: i in r <==> i < n && lengths[i] != numHeaders
    ensures forall a, b :: 0 <= a < b < |r| ==> r[a] < r[b]
    ensures forall k :: 0 <= k < |r| ==> r[k] < n
  {
    if n == 0 then []
    else
      var earlier := CorruptedRows(lengths, n - 1, numHeaders);
      earlier + (if lengths[n - 1] != numHeaders then [n - 1] else [])
  }

  /**
   * The corrupted rows of a split: in ascending order, the rows whose cell
   * count differs from the header's; the header row itself is never one.
   */
  function Corrupted(g: Grid): (r: seq<nat>)
    requires g != []
    ensures 0 !in r
    ensures forall i: nat :: i in r <==> i < |g| && |g[i]| != |g[0]|
    ensures forall a, b :: 0 <= a < b < |r| ==> r[a] < r[b]
  {
    CorruptedRows(RowLengths(g), |g|, |g[0]|)
  }

  // ---------------------------------------------------------------------
  // validated_data

  /**
   * `[row for index, row in enumerate(g) if index not in corrupted]`.
   */
  function Filtered(g: Grid, corrupted: seq<nat>): (r: Grid)
    ensures |r| <= |g|
    ensures forall k :: 0 <= k < |r| ==> r[k] in g
  {
    if g == [] then []
    else
      var n := |g| - 1;
      Filtered(g[..n], corrupted) + (if n in corrupted then [] else [g[n]])
  }

  /** The reference definition: the rows of `g` with exactly `h` cells, in order. */
  function KeepMatching(g: Grid, h: nat): (r: Grid)
    ensures |r| <= |g|
    ensures forall k :: 0 <= k < |r| ==> |r[k]| == h && r[k] in g
  {
    if g == [] then []
    else
      var n := |g| - 1;
      KeepMatching(g[..n], h) + (if |g[n]| == h then [g[n]] else [])
  }

  /** Filtering by a list that names exactly the rows of the wrong length keeps the rows of length `h`. */
  lemma {:induction false} FilteredKeepsMatching(g: Grid, corrupted: seq<nat>, h: nat)
    requires forall i: nat :: i < |g| ==> (i in corrupted <==> |g[i]| != h)
    ensures Filtered(g, corrupted) == KeepMatching(g, h)
  {
    if g != [] {
      var n := |g| - 1;
      FilteredKeepsMatching(g[..n], corrupted, h);
    }
  }

  /** When every row has length `h`, nothing is dropped. */
  lemma {:induction false} KeepMatchingAll(g: Grid, h: nat)
    requires forall i :: 0 <= i < |g| ==> |g[i]| == h
    ensures KeepMatching(g, h) == g
  {
    if g != [] {
      var n := |g| - 1;
      KeepMatchingAll(g[..n], h);
      assert g[..n] + [g[n]] == g;
    }
  }

  /** A row of length `h` in front stays in front. */
  lemma {:induction false} KeepMatchingHead(g: Grid, h: nat)
    requires g != [] && |g[0]| == h
    ensures KeepMatching(g, h) != [] && KeepMatching(g, h)[0] == g[0]
  {
    if |g| > 1 {
      var n := |g| - 1;
      KeepMatchingHead(g[..n], h);
    }
  }

  /** One more row adds one kept row exactly when its length is `h`. */
  lemma KeepMatchingStep(g: Grid, n: nat, h: nat)
    requires 0 < n <= |g|
    ensures |KeepMatching(g[..n], h)| == |KeepMatching(g[..n - 1], h)| + (if |g[n - 1]| == h then 1 else 0)
  {
    assert g[..n][..n - 1] == g[..n - 1];
  }

  /** One more row adds one corrupted index exactly when its length is not `h`. */
  lemma CorruptedRowsStep(g: Grid, lengths: map<nat, nat>, n: nat, h: nat)
    requires 0 < n <= |g|
    requires forall i: nat :: i < |g| ==> i in lengths && lengths[i] == |g[i]|
    ensures |CorruptedRows(lengths, n, h)| == |CorruptedRows(lengths, n - 1, h)| + (if |g[n - 1]| != h then 1 else 0)
  {
  }

  /** Kept rows and corrupted indices together account for every row. */
  lemma {:induction false} KeepMatchingCount(g: Grid, lengths: map<nat, nat>, n: nat)
    requires g != [] && n <= |g|
    requires forall i: nat :: i < |g| ==> i in lengths && lengths[i] == |g[i]|
    ensures |KeepMatching(g[..n], |g[0]|)| + |CorruptedRows(lengths, n, |g[0]|)| == n
  {
    if n > 0 {
      KeepMatchingCount(g, lengths, n - 1);
      KeepMatchingStep(g, n, |g[0]|);
      CorruptedRowsStep(g, lengths, n, |g[0]|);
    }
  }

  /**
   * `validated_data`: the header row followed by every data row whose cell
   * count equals the header's, in their original order and unmodified; as
   * many rows as the split has, less the corrupted ones.
   */
  lemma CleanedData(g: Grid)
    requires g != []
    ensures var r := Filtered(g, Corrupted(g));
      && r == KeepMatching(g, |g[0]|)
      && r != [] && r[0] == g[0]
      && (forall k :: 0 <= k < |r| ==> |r[k]| == |g[0]| && r[k] in g)
      && |r| == |g| - |Corrupted(g)|
  {
    FilteredKeepsMatching(g, Corrupted(g), |g[0]|);
    KeepMatchingHead(g, |g[0]|);
    KeepMatchingCount(g, RowLengths(g), |g|);
    assert g[..|g|] == g;
  }

  /** A well-formed split with N data rows is kept whole: N + 1 rows, nothing corrupted. */
  lemma WellFormedKeptWhole(g: Grid)
    requires g != []
    requires forall i :: 0 <= i < |g| ==> |g[i]| == |g[0]|
    ensures Corrupted(g) == []
    ensures Filtered(g, Corrupted(g)) == g
  {
    KeepMatchingAll(g, |g[0]|);
    KeepMatchingCount(g, RowLengths(g), |g|);
    assert g[..|g|] == g;
    FilteredKeepsMatching(g, Corrupted(g), |g[0]|);
  }

  // ---------------------------------------------------------------------
  // the required column

  /**
   * The values `_get_required_column_data` collects: the cell at `index` of
   * every row long enough to have one, in row order; shorter rows are skipped.
   */
  function ColumnValues(rows: Grid, index: nat): (column: seq<Bytes>)
    ensures |column| <= |rows|
    ensures forall v :: v in column ==>
      exists k :: 0 <= k < |rows| && index < |rows[k]| && rows[k][index] == v
    ensures forall k :: 0 <= k < |rows| && index < |rows[k]| ==> rows[k][index] in column
  {
    if rows == [] then []
    else
      var n := |rows| - 1;
      var earlier := ColumnValues(rows[..n], index);
      assert forall k :: 0 <= k < n ==> rows[..n][k] == rows[k];
      earlier + (if index < |rows[n]| then [rows[n][index]] else [])
  }

  /** Taking one more row appends that row's cell, if it has one. */
  lemma ColumnValuesStep(rows: Grid, i: nat, index: nat)
    requires i < |rows|
    ensures ColumnValues(rows[..i + 1], index)
      == ColumnValues(rows[..i], index) + (if index < |rows[i]| then [rows[i][index]] else [])
  {
    assert rows[..i + 1][..i] == rows[..i];
  }
}
