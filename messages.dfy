/**
 * The messages `DataValidator` appends to its error and warning lists. Each
 * kind is a constructor; `Text()` gives the exact string the list holds.
 */
module Messages {
  import opened ByteStrings
  import opened Text
  import opened DataFormats

  datatype Message =
    | EmptyFile(delimiter: Delimiter)               // error of `_data_can_be_split`
    | MainColumnMissing(name: Bytes)                // error of `_main_column_present`
    | NoData                                        // error of `_any_data_to_analyze`
    | NotNumeric(name: Bytes)                       // error of `_data_type_correct`
    | RepeatedHeader                                // warning of `_get_required_data_column_index`
    | RowLengthMismatch(numHeaders: nat, rows: seq<nat>)  // warning of `_headers_match_columns`
  {
    /** The string appended to the list, as `str.format` renders it. */
    function Text(): (s: string)
      ensures this.EmptyFile? ==>
        |this.delimiter.Repr()| <= |s| && OccursAt(this.delimiter.Repr(), s, |s| - |this.delimiter.Repr()|)
      ensures this.MainColumnMissing? ==> OccursAt(AsText(this.name), s, |MissingPrefix|)
      ensures this.NotNumeric? ==> OccursAt(AsText(this.name), s, |NotNumericPrefix|)
      ensures this.RowLengthMismatch? ==> OccursAt(DecimalString(this.numHeaders), s, |MismatchPrefix|)
      ensures this.RowLengthMismatch? ==>
        OccursAt(ListRepr(this.rows), s, |MismatchPrefix| + |DecimalString(this.numHeaders)| + |MismatchMiddle|)
    {
      match this
      case EmptyFile(d) =>
        Wrap(EmptyFilePrefix, d.Repr(), "")
      case MainColumnMissing(name) =>
        Wrap(MissingPrefix, AsText(name), " not found")
      case NoData =>
        "No data to analyze"
      case NotNumeric(name) =>
        Wrap(NotNumericPrefix, AsText(name), " column should be a numeric type")
      case RepeatedHeader =>
        "More than one column with required header found. "
        + "Data are going to be collected from first one"
      case RowLengthMismatch(numHeaders, rows) =>
        Wrap2(MismatchPrefix, DecimalString(numHeaders), MismatchMiddle, ListRepr(rows), MismatchSuffix)
    }
  }

  // The text each formatted message starts with, up to its first field.
  const EmptyFilePrefix := "File is empty or not allowed column separators are used. "
    + "Expected column separator for given file format: "
  const MissingPrefix := "Main column header: "
  const NotNumericPrefix := "All data in "
  const MismatchPrefix := "Number of headers: "
  const MismatchMiddle := " is not equal to number of data in each row. Rows: "
  const MismatchSuffix := " are going to be omitted"

  /**
   * The row-length warning names every corrupted row: row number `m.rows[i]`
   * is printed as a whole entry of the list, at the position its entry has
   * in the list's `repr`.
   */
  lemma {:induction false} MismatchNamesEveryRow(m: Message, i: nat)
    requires m.RowLengthMismatch? && i < |m.rows|
    ensures ListEntryAt(DecimalString(m.rows[i]), m.Text(),
      |MismatchPrefix| + |DecimalString(m.numHeaders)| + |MismatchMiddle| + (NumberOffset(m.rows, i) + 1))
  {
    ListEntryWithin(m.rows, m.Text(), |MismatchPrefix| + |DecimalString(m.numHeaders)| + |MismatchMiddle|, i);
  }

  /** The strings of a message list, in order. */
  function Texts(ms: seq<Message>): (r: seq<string>)
    ensures |r| == |ms|
    ensures forall i :: 0 <= i < |ms| ==> r[i] == ms[i].Text()
  {
    seq(|ms|, i requires 0 <= i < |ms| => ms[i].Text())
  }

  /** The usage errors of the `errors` and `warnings` properties read too early. */
  const ErrorsBeforeValidation := "You must call `.is_valid()` before accessing `.errors`."
  const WarningsBeforeValidation := "You must call `.is_valid()` before accessing `.warnings`."
}
