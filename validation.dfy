/**
 * What one run of `DataValidator._do_validation` computes from the upload,
 * as a function of the bytes, the delimiter and the required column name,
 * and the properties of that run: the gate order, the numeric check, the
 * warnings and the cleaned data.
 */
module Validation {
  import opened Wrappers
  import opened ByteStrings
  import opened DataFormats
  import opened Grids
  import opened Messages

  /**
   * A name the header lookup can always resolve: `strip()` leaves it as it
   * is, because it neither starts nor ends with whitespace (the configured
   * column name `7_2009` is one).
   */
  predicate IsColumnName(name: Bytes) {
    IsTrimmed(name)
  }

  /**
   * The result of one run: the split data, the stripped headers (None when
   * the run did not get as far as assigning them), the errors and warnings it
   * appends, and `validated_data` when the run assigns it.
   */
  datatype Outcome = Outcome(
    split: Grid,
    headers: Option<Row>,
    errors: seq<Message>,
    warnings: seq<Message>,
    cleaned: Option<Grid>)

  /** Both gates passed: a header row holding the name, and at least one data row. */
  predicate GatesPass(g: Grid, name: Bytes) {
    g != [] && name in g[0] && |g| > 1
  }

  /** The position the values are taken from: the first stripped header equal to the name. */
  function ColumnIndex(g: Grid, name: Bytes): (k: nat)
    requires IsColumnName(name) && g != [] && name in g[0]
    ensures k < |g[0]| && Strip(g[0][k]) == name
    ensures forall j :: 0 <= j < k ==> Strip(g[0][j]) != name
  {
    RawPresenceImpliesStripped(g[0], name);
    var k := FirstIndex(StripAll(g[0]), name);
    k
  }

  /** Every value of the required column parses as an integer. */
  predicate AllNumeric(column: seq<Bytes>) {
    forall k :: 0 <= k < |column| ==> ParsesAsInt(column[k])
  }

  /** The outcome of `_do_validation` on `data`, split on `d`, for the column `name`. */
  function Validate(data: Bytes, d: Delimiter, name: Bytes): (o: Outcome)
    requires IsColumnName(name)
    ensures |o.split| == |SplitLines(data)|
    ensures o.errors == [EmptyFile(d)] <==> data == []
  {
    ValidateGrid(SplitGrid(data, d.Byte()), d, name)
  }

  /** The checks of `_do_validation`, in their gated order, once the data is split into `g`. */
  function ValidateGrid(g: Grid, d: Delimiter, name: Bytes): (o: Outcome)
    requires IsColumnName(name)
    ensures o.split == g
    ensures o.headers.Some? <==> g != []
    ensures o.cleaned.Some? <==> GatesPass(g, name)
    ensures !GatesPass(g, name) ==> |o.errors| == 1 && o.warnings == []
    ensures GatesPass(g, name) ==> |o.errors| <= 1 && |o.warnings| <= 2
    ensures o.errors == [EmptyFile(d)] <==> g == []
    ensures o.cleaned.Some? ==> |o.cleaned.value| <= |g|
  {
    if g == [] then
      Outcome(g, None, [EmptyFile(d)], [], None)
    else if name !in g[0] then
      Outcome(g, Some(StripAll(g[0])), [MainColumnMissing(name)], [], None)
    else if |g| <= 1 then
      Outcome(g, Some(StripAll(g[0])), [NoData], [], None)
    else
      Outcome(g, Some(StripAll(g[0])), TypeErrors(g, name),
        RepeatedWarnings(g, name) + LengthWarnings(g), Some(Filtered(g, Corrupted(g))))
  }

  /** The outcome once both gates pass, spelled out check by check. */
  lemma GatedOutcome(data: Bytes, d: Delimiter, name: Bytes)
    requires IsColumnName(name) && GatesPass(SplitGrid(data, d.Byte()), name)
    ensures var g := SplitGrid(data, d.Byte());
      Validate(data, d, name) == Outcome(g, Some(StripAll(g[0])), TypeErrors(g, name),
        RepeatedWarnings(g, name) + LengthWarnings(g), Some(Filtered(g, Corrupted(g))))
  {
  }

  /** What `_data_type_correct` appends: one error when a required value is not an integer. */
  function TypeErrors(g: Grid, name: Bytes): seq<Message>
    requires IsColumnName(name) && GatesPass(g, name)
  {
    if AllNumeric(ColumnValues(g[1..], ColumnIndex(g, name))) then [] else [NotNumeric(name)]
  }

  /** What `_get_required_data_column_index` appends: one warning when the name repeats. */
  function RepeatedWarnings(g: Grid, name: Bytes): seq<Message>
    requires g != []
  {
    if Count(StripAll(g[0]), name) > 1 then [RepeatedHeader] else []
  }

  /** What `_headers_match_columns` appends: one warning naming the corrupted rows, if any. */
  function LengthWarnings(g: Grid): seq<Message>
    requires g != []
  {
    var corrupted := Corrupted(g);
    if corrupted == [] then [] else [RowLengthMismatch(|g[0]|, corrupted)]
  }

  /**
   * An empty buffer yields exactly one error, the one naming the expected
   * separator, no warning and no cleaned data; any other buffer splits into
   * at least one row.
   */
  lemma EmptyBuffer(data: Bytes, d: Delimiter, name: Bytes)
    requires IsColumnName(name)
    ensures var o := Validate(data, d, name);
      (data == [] <==> o.split == [])
      && (data == [] ==> o.errors == [EmptyFile(d)] && o.warnings == [] && o.cleaned == None)
  {
  }

  /**
   * The checks short-circuit: a header row without the name yields only the
   * missing-column error, a lone header row only the no-data error, and the
   * cleaned data exists exactly when both gates pass.
   */
  lemma GateOrder(g: Grid, d: Delimiter, name: Bytes)
    requires IsColumnName(name)
    ensures var o := ValidateGrid(g, d, name);
      && o.split == g
      && (g != [] && name !in g[0] ==>
            o.errors == [MainColumnMissing(name)] && o.warnings == [] && o.cleaned == None)
      && (g != [] && name in g[0] && |g| == 1 ==>
            o.errors == [NoData] && o.warnings == [] && o.cleaned == None)
      && (o.cleaned.Some? <==> GatesPass(g, name))
  {
  }

  /**
   * Once the gates pass, the numeric check looks at the required cell of
   * every data row long enough to have one, corrupted rows included, and
   * reports exactly one error when any of them is not an integer.
   */
  lemma NumericCheck(g: Grid, d: Delimiter, name: Bytes)
    requires IsColumnName(name) && GatesPass(g, name)
    ensures var o := ValidateGrid(g, d, name); var k := ColumnIndex(g, name);
      && (o.errors == [] || o.errors == [NotNumeric(name)])
      && (o.errors == [NotNumeric(name)] <==>
            exists i :: 1 <= i < |g| && k < |g[i]| && !ParsesAsInt(g[i][k]))
  {
    var k := ColumnIndex(g, name);
    var rows := g[1..];
    var column := ColumnValues(rows, k);
    if exists i :: 1 <= i < |g| && k < |g[i]| && !ParsesAsInt(g[i][k]) {
      var i :| 1 <= i < |g| && k < |g[i]| && !ParsesAsInt(g[i][k]);
      assert rows[i - 1] == g[i];
      assert g[i][k] in column;
      assert !AllNumeric(column);
    }
    if !AllNumeric(column) {
      var j :| 0 <= j < |column| && !ParsesAsInt(column[j]);
      assert column[j] in column;
      var r :| 0 <= r < |rows| && k < |rows[r]| && rows[r][k] == column[j];
      assert g[r + 1] == rows[r];
    }
  }

  /**
   * Once the gates pass, the warnings are, in this order: the repeated-header
   * warning when the stripped headers hold the name more than once, then the
   * row-length warning naming the header count and the corrupted rows when
   * there are any.
   */
  lemma Warnings(g: Grid, d: Delimiter, name: Bytes)
    requires IsColumnName(name) && GatesPass(g, name)
    ensures var o := ValidateGrid(g, d, name);
      var repeated := exists j :: ColumnIndex(g, name) < j < |g[0]| && Strip(g[0][j]) == name;
      o.warnings ==
        (if repeated then [RepeatedHeader] else [])
        + (if Corrupted(g) == [] then [] else [RowLengthMismatch(|g[0]|, Corrupted(g))])
  {
    RepeatedWhenNameRecurs(g, name);
  }

  /** The repeated-header warning appears exactly when the name recurs after the chosen column. */
  lemma RepeatedWhenNameRecurs(g: Grid, name: Bytes)
    requires IsColumnName(name) && g != [] && name in g[0]
    ensures var repeated := exists j :: ColumnIndex(g, name) < j < |g[0]| && Strip(g[0][j]) == name;
      RepeatedWarnings(g, name) == if repeated then [RepeatedHeader] else []
  {
    var headers := StripAll(g[0]);
    var k := ColumnIndex(g, name);
    RawPresenceImpliesStripped(g[0], name);
    CountAboveOne(headers, name);
    assert FirstIndex(headers, name) == k;
    if exists j :: k < j < |g[0]| && Strip(g[0][j]) == name {
      var j :| k < j < |g[0]| && Strip(g[0][j]) == name;
      assert headers[j] == name;
    }
  }

  /**
   * Once the gates pass, `validated_data` is the header row followed by
   * every data row with as many cells as the header, in order and unchanged,
   * whatever the numeric check found.
   */
  lemma Cleaned(g: Grid, d: Delimiter, name: Bytes)
    requires IsColumnName(name) && GatesPass(g, name)
    ensures var o := ValidateGrid(g, d, name);
      o.cleaned.Some? &&
      var r := o.cleaned.value;
      && r == KeepMatching(g, |g[0]|)
      && r != [] && r[0] == g[0]
      && (forall k :: 0 <= k < |r| ==> |r[k]| == |g[0]| && r[k] in g)
      && |r| == |g| - |Corrupted(g)|
  {
    CleanedData(g);
  }

  /** Integers in every required cell leave the numeric check silent. */
  lemma IntegerColumnPasses(g: Grid, name: Bytes)
    requires IsColumnName(name) && GatesPass(g, name)
    requires forall i :: 1 <= i < |g| && ColumnIndex(g, name) < |g[i]| ==> ParsesAsInt(g[i][ColumnIndex(g, name)])
    ensures TypeErrors(g, name) == []
  {
    var k := ColumnIndex(g, name);
    var rows := g[1..];
    var column := ColumnValues(rows, k);
    forall j | 0 <= j < |column|
      ensures ParsesAsInt(column[j])
    {
      assert column[j] in column;
      var r :| 0 <= r < |rows| && k < |rows[r]| && rows[r][k] == column[j];
      assert rows[r] == g[r + 1];
    }
  }

  /**
   * A well-formed upload — the name once among the headers, N > 0 data rows
   * of the header's length, integers in the required column — yields no
   * error, no warning and all N + 1 rows as cleaned data.
   */
  lemma WellFormedUploadIsClean(g: Grid, d: Delimiter, name: Bytes)
    requires IsColumnName(name) && GatesPass(g, name)
    requires Count(StripAll(g[0]), name) == 1
    requires forall i :: 0 <= i < |g| ==> |g[i]| == |g[0]|
    requires forall i :: 1 <= i < |g| ==> ParsesAsInt(g[i][ColumnIndex(g, name)])
    ensures var o := ValidateGrid(g, d, name);
      o.errors == [] && o.warnings == [] && o.cleaned == Some(g)
  {
    WellFormedChecksSilent(g, name);
  }

  lemma WellFormedChecksSilent(g: Grid, name: Bytes)
    requires IsColumnName(name) && GatesPass(g, name)
    requires Count(StripAll(g[0]), name) == 1
    requires forall i :: 0 <= i < |g| ==> |g[i]| == |g[0]|
    requires forall i :: 1 <= i < |g| ==> ParsesAsInt(g[i][ColumnIndex(g, name)])
    ensures TypeErrors(g, name) == [] && RepeatedWarnings(g, name) == []
    ensures LengthWarnings(g) == [] && Filtered(g, Corrupted(g)) == g
  {
    IntegerColumnPasses(g, name);
    WellFormedKeptWhole(g);
  }
}
