/**
 * `DataValidator`: the object that runs the checks on one upload. It keeps
 * its error and warning lists and the split data as fields that `IsValid`
 * and the check methods update step by step.
 */
module Validator {
  import opened Wrappers
  import opened ByteStrings
  import opened DataFormats
  import opened Grids
  import opened Messages
  import opened Validation

  class DataValidator {
    /** The delimiter rule, as the `DataFormat` base class sets it up. */
    const format: DataFormat
    /** The uploaded bytes; never changed. */
    const data: Bytes
    /** The required column header (`DATA_COLUMN_NAME`). */
    const name: Bytes

    var errors: seq<Message>
    var warnings: seq<Message>
    var validated: bool
    /** `_split_data`: None until the first run. */
    var splitData: Option<Grid>
    /** `_headers`: the stripped header row; None until a run gets that far. */
    var headers: Option<Row>
    /** `validated_data`: None while the attribute has never been assigned. */
    var validatedData: Option<Grid>

    constructor (data: Bytes, extension: string, name: Bytes)
      requires IsColumnName(name)
      ensures format == FormatFor(extension) && this.data == data && this.name == name
      ensures errors == [] && warnings == [] && !validated
      ensures splitData == None && headers == None && validatedData == None
    {
      format := FormatFor(extension);
      this.data := data;
      this.name := name;
      errors := [];
      warnings := [];
      validated := false;
      splitData := None;
      headers := None;
      validatedData := None;
    }

    /** The `errors` property: the texts of the errors, or a usage error before any run. */
    method Errors() returns (r: Result<seq<string>, string>)
      ensures validated ==> r == Success(Texts(errors))
      ensures !validated ==> r == Failure(ErrorsBeforeValidation)
    {
      if !validated {
        return Failure(ErrorsBeforeValidation);
      }
      return Success(Texts(errors));
    }

    /** The `warnings` property: the texts of the warnings, or a usage error before any run. */
    method Warnings() returns (r: Result<seq<string>, string>)
      ensures validated ==> r == Success(Texts(warnings))
      ensures !validated ==> r == Failure(WarningsBeforeValidation)
    {
      if !validated {
        return Failure(WarningsBeforeValidation);
      }
      return Success(Texts(warnings));
    }

    /**
     * `is_valid(raise_errors)`: runs the checks once more, appending what
     * they find to the lists already there, marks the object validated, and
     * then either raises `InvalidDataFormat` with every error collected so
     * far or returns whether that list is empty.
     */
    method IsValid(raiseErrors: bool) returns (r: Result<bool, InvalidDataFormat>)
      requires IsColumnName(name)
      modifies this
      ensures var o := Validate(data, format.delimiter, name);
        && errors == old(errors) + o.errors
        && warnings == old(warnings) + o.warnings
        && splitData == Some(o.split)
        && headers == (if o.headers.Some? then o.headers else old(headers))
        && validatedData == (if o.cleaned.Some? then o.cleaned else old(validatedData))
      ensures validated
      ensures raiseErrors && errors != [] ==> r == Failure(InvalidDataFormat(Texts(errors)))
      ensures !(raiseErrors && errors != []) ==> r == Success(errors == [])
    {
      DoValidation();
      validated := true;
      if raiseErrors && errors != [] {
        return Failure(InvalidDataFormat(Texts(errors)));
      }
      return Success(errors == []);
    }

    /**
     * `_do_validation`: split, then the two gates, then the numeric and
     * length checks and the cleaned data, each only when the gates pass.
     */
    method DoValidation()
      requires IsColumnName(name)
      modifies this`errors, this`warnings, this`splitData, this`headers, this`validatedData
      ensures var o := Validate(data, format.delimiter, name);
        && errors == old(errors) + o.errors
        && warnings == old(warnings) + o.warnings
        && splitData == Some(o.split)
        && headers == (if o.headers.Some? then o.headers else old(headers))
        && validatedData == (if o.cleaned.Some? then o.cleaned else old(validatedData))
    {
      ghost var o := Validate(data, format.delimiter, name);
      ghost var initialErrors := errors;
      var _ := DataCanBeSplit();
      assert splitData == Some(o.split);
      if splitData.value != [] {
        var present := MainColumnPresent();
        if present {
          assert initialErrors + [] == initialErrors;
          var any := AnyDataToAnalyze();
          if any {
            assert errors == initialErrors;
            RunChecks();
            validatedData := Some(Filtered(splitData.value, DataCorrupted()));
            GatedOutcome(data, format.delimiter, name);
            assert errors == initialErrors + o.errors;
          } else {
            assert o.errors == [NoData];
          }
        } else {
          assert o.errors == [MainColumnMissing(name)];
        }
      } else {
        assert o.errors == [EmptyFile(format.delimiter)];
      }
    }

    /**
     * The two checks `_do_validation` runs once both gates pass: the numeric
     * check, then the length check.
     */
    method RunChecks()
      requires GatesPassed()
      modifies this`errors, this`warnings
      ensures errors == old(errors) + TypeErrors(splitData.value, name)
      ensures warnings == old(warnings) + (RepeatedWarnings(splitData.value, name) + LengthWarnings(splitData.value))
    {
      ghost var g := splitData.value;
      ghost var repeated, mismatched := RepeatedWarnings(g, name), LengthWarnings(g);
      ghost var before := warnings;
      var _ := DataTypeCorrect();
      ghost var mid := warnings;
      var _ := HeadersMatchColumns();
      assert warnings == mid + mismatched && mid == before + repeated;
      AppendAssociative(before, repeated, mismatched);
    }

    /**
     * `_data_can_be_split`: stores the split; an empty split records the
     * empty-file error and leaves the headers as they were, otherwise the
     * stripped first row becomes the headers.
     */
    method DataCanBeSplit() returns (ok: bool)
      modifies this`splitData, this`headers, this`errors
      ensures splitData == Some(SplitGrid(data, format.delimiter.Byte()))
      ensures ok <==> splitData.value != []
      ensures ok ==> headers == Some(StripAll(splitData.value[0])) && errors == old(errors)
      ensures !ok ==> headers == old(headers) && errors == old(errors) + [EmptyFile(format.delimiter)]
    {
      var g := SplitGrid(data, format.delimiter.Byte());
      splitData := Some(g);
      if g == [] {
        errors := errors + [EmptyFile(format.delimiter)];
        return false;
      }
      headers := Some(StripAll(g[0]));
      return true;
    }

    /** `_main_column_present`: the name must be one of the raw, unstripped header cells. */
    method MainColumnPresent() returns (ok: bool)
      requires splitData.Some? && splitData.value != []
      modifies this`errors
      ensures ok <==> name in splitData.value[0]
      ensures errors == old(errors) + (if ok then [] else [MainColumnMissing(name)])
    {
      if name !in splitData.value[0] {
        errors := errors + [MainColumnMissing(name)];
        return false;
      }
      return true;
    }

    /** `_any_data_to_analyze`: there must be a row besides the header row. */
    method AnyDataToAnalyze() returns (ok: bool)
      requires splitData.Some?
      modifies this`errors
      ensures ok <==> |splitData.value| > 1
      ensures errors == old(errors) + (if ok then [] else [NoData])
    {
      if |splitData.value| <= 1 {
        errors := errors + [NoData];
        return false;
      }
      return true;
    }

    /** The state the checks after the two gates run in. */
    predicate GatesPassed()
      reads this
    {
      && IsColumnName(name)
      && splitData.Some? && GatesPass(splitData.value, name)
      && headers == Some(StripAll(splitData.value[0]))
    }

    /**
     * `_data_type_correct`: every collected value must parse as an integer;
     * one error otherwise. Collecting the values may add the repeated-header
     * warning.
     */
    method DataTypeCorrect() returns (ok: bool)
      requires GatesPassed()
      modifies this`errors, this`warnings
      ensures GatesPassed()
      ensures errors == old(errors) + TypeErrors(splitData.value, name)
      ensures warnings == old(warnings) + RepeatedWarnings(splitData.value, name)
      ensures ok <==> TypeErrors(splitData.value, name) == []
    {
      var column := GetRequiredColumnData();
      if !AllNumeric(column) {
        errors := errors + [NotNumeric(name)];
        return false;
      }
      return true;
    }

    /**
     * `_get_required_column_data`: the required cell of every data row, in
     * order, skipping rows too short to have it.
     */
    method GetRequiredColumnData() returns (column: seq<Bytes>)
      requires GatesPassed()
      modifies this`warnings
      ensures GatesPassed()
      ensures column == ColumnValues(splitData.value[1..], ColumnIndex(splitData.value, name))
      ensures warnings == old(warnings) + RepeatedWarnings(splitData.value, name)
    {
      var index := GetRequiredDataColumnIndex();
      ghost var afterIndex := warnings;
      assert afterIndex == old(warnings) + RepeatedWarnings(splitData.value, name);
      var rows := splitData.value[1..];
      column := [];
      var i := 0;
      while i < |rows|
        invariant 0 <= i <= |rows|
        invariant column == ColumnValues(rows[..i], index)
        invariant warnings == afterIndex
      {
        ColumnValuesStep(rows, i, index);
        if index < |rows[i]| {
          column := column + [rows[i][index]];
        }
        i := i + 1;
      }
      assert rows[..|rows|] == rows;
    }

    /**
     * `_get_required_data_column_index`: warns when the stripped headers
     * hold the name more than once and returns its first position.
     */
    method GetRequiredDataColumnIndex() returns (index: nat)
      requires GatesPassed()
      modifies this`warnings
      ensures GatesPassed()
      ensures index == ColumnIndex(splitData.value, name)
      ensures index < |headers.value| && headers.value[index] == name
      ensures forall j :: 0 <= j < index ==> headers.value[j] != name
      ensures warnings == old(warnings) + RepeatedWarnings(splitData.value, name)
    {
      var h := headers.value;
      if Count(h, name) > 1 {
        warnings := warnings + [RepeatedHeader];
      }
      RawPresenceImpliesStripped(splitData.value[0], name);
      index := FirstIndex(h, name);
    }

    /** `_row_length`: row number to cell count, for every row of the split. */
    function RowLength(): (m: map<nat, nat>)
      reads this
      requires splitData.Some?
      ensures forall i: nat :: i in m <==> i < |splitData.value|
      ensures forall i: nat :: i in m ==> m[i] == |splitData.value[i]|
    {
      RowLengths(splitData.value)
    }

    /**
     * `__data_corrupted`: the rows whose cell count differs from the number
     * of headers, in ascending order.
     */
    function DataCorrupted(): (r: seq<nat>)
      reads this
      requires splitData.Some? && splitData.value != []
      requires headers == Some(StripAll(splitData.value[0]))
      ensures r == Corrupted(splitData.value)
    {
      CorruptedRows(RowLength(), |splitData.value|, |headers.value|)
    }

    /**
     * `_headers_match_columns`: one warning naming the header count and the
     * corrupted rows, when there are any.
     */
    method HeadersMatchColumns() returns (ok: bool)
      requires splitData.Some? && splitData.value != []
      requires headers == Some(StripAll(splitData.value[0]))
      modifies this`warnings
      ensures ok <==> Corrupted(splitData.value) == []
      ensures warnings == old(warnings) + LengthWarnings(splitData.value)
    {
      var corrupted := DataCorrupted();
      if corrupted != [] {
        warnings := warnings + [RowLengthMismatch(|headers.value|, corrupted)];
        return false;
      }
      return true;
    }
  }

  /** Appending two lists one after the other appends their concatenation. */
  lemma AppendAssociative<T>(a: seq<T>, b: seq<T>, c: seq<T>)
    ensures a + b + c == a + (b + c)
  {
  }

  /**
   * A well-formed upload: the name once among the headers, at least one data
   * row, every row as long as the header row, integers in the required
   * column. A fresh validator accepts it without raising, and afterwards
   * reports no error, no warning and every row as `validated_data`.
   */
  method WellFormedUploadPasses(data: Bytes, extension: string, name: Bytes)
    returns (r: Result<bool, InvalidDataFormat>, errors: Result<seq<string>, string>,
             warnings: Result<seq<string>, string>, cleaned: Option<Grid>)
    requires IsColumnName(name)
    requires var g := SplitGrid(data, FormatFor(extension).delimiter.Byte());
      && GatesPass(g, name)
      && Count(StripAll(g[0]), name) == 1
      && (forall i :: 0 <= i < |g| ==> |g[i]| == |g[0]|)
      && (forall i :: 1 <= i < |g| ==> ParsesAsInt(g[i][ColumnIndex(g, name)]))
    ensures r == Success(true)
    ensures errors == Success([]) && warnings == Success([])
    ensures cleaned == Some(SplitGrid(data, FormatFor(extension).delimiter.Byte()))
  {
    var v := new DataValidator(data, extension, name);
    ghost var g := SplitGrid(data, v.format.delimiter.Byte());
    WellFormedUploadIsClean(g, v.format.delimiter, name);
    r := v.IsValid(true);
    errors := v.Errors();
    warnings := v.Warnings();
    cleaned := v.validatedData;
  }

  /**
   * `is_valid` is not idempotent: a second call on the same validator runs
   * every check again and appends the same messages a second time.
   */
  method RevalidationRepeatsMessages(data: Bytes, extension: string, name: Bytes)
    returns (first: seq<Message>, second: seq<Message>)
    requires IsColumnName(name)
    ensures var o := Validate(data, FormatFor(extension).delimiter, name);
      first == o.errors && second == o.errors + o.errors
  {
    var v := new DataValidator(data, extension, name);
    var _ := v.IsValid(false);
    first := v.errors;
    var _ := v.IsValid(false);
    second := v.errors;
  }
}
