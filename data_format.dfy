/** The delimiter rule of `DataFormat` and the `InvalidDataFormat` exception. */
module DataFormats {
  import opened ByteStrings
  import opened Text

  /** The two column separators a data file may use. */
  datatype Delimiter = Semicolon | Tab {

    /** The separator byte: `b';'` or `b'\t'`. */
    function Byte(): byte {
      match this
      case Semicolon => SemicolonByte
      case Tab => TabByte
    }

    /** How Python's `str.format` renders the separator: `b';'` or `b'\t'`. */
    function Repr(): (r: string)
      ensures r == BytesRepr(Byte())
    {
      match this
      case Semicolon => "b';'"
      case Tab => "b'\\t'"
    }
  }

  /**
   * `repr(bytes([b]))`, which `str.format` uses for a bytes object: quoted
   * with `'` unless the byte is `'` itself; `\\`, tab, LF and CR escaped;
   * other control and non-ASCII bytes as `\xhh`; printable ASCII as is.
   */
  function BytesRepr(b: byte): string {
    if b == 39 then "b\"'\"" else "b'" + EscapedByte(b) + "'"
  }

  function EscapedByte(b: byte): string {
    if b == 92 then "\\\\"
    else if b == TabByte then "\\t"
    else if b == LF then "\\n"
    else if b == CR then "\\r"
    else if b < 32 || b >= 127 then "\\x" + [HexDigit(b as nat / 16), HexDigit(b as nat % 16)]
    else [b as int as char]
  }

  function HexDigit(n: nat): char
    requires n < 16
  {
    "0123456789abcdef"[n]
  }

  /** What `DataFormat.__init__` stores: the separator and the extension it came from. */
  datatype DataFormat = DataFormat(delimiter: Delimiter, extension: string)

  /** `DataFormat(file_extension)`: `;` for exactly ".csv", tab for anything else. */
  function FormatFor(extension: string): (f: DataFormat)
    ensures f.delimiter == Semicolon <==> extension == ".csv"
    ensures f.delimiter == Tab <==> extension != ".csv"
    ensures f.extension == extension
  {
    DataFormat(if extension == ".csv" then Semicolon else Tab, extension)
  }

  const InvalidDataPrefix := "Data could not be analyze. Following critical errors found: "

  /** The exception `is_valid` raises: it carries the whole error list. */
  datatype InvalidDataFormat = InvalidDataFormat(err: seq<string>) {

    /** `str(exc)`: the fixed prefix, then the errors joined by single spaces. */
    function Str(): (s: string)
      ensures |s| >= |InvalidDataPrefix| && s[..|InvalidDataPrefix|] == InvalidDataPrefix
    {
      InvalidDataPrefix + JoinSpace(err)
    }
  }

  /** Every error the exception carries can be read in its text. */
  lemma StrShowsEveryError(e: InvalidDataFormat, i: nat)
    requires i < |e.err|
    ensures exists at: nat :: OccursAt(e.err[i], e.Str(), at)
  {
    JoinSpaceContains(e.err, i);
    var at: nat :| OccursAt(e.err[i], JoinSpace(e.err), at);
    var n := |InvalidDataPrefix|;
    var s := e.Str();
    assert s == InvalidDataPrefix + JoinSpace(e.err);
    assert s[n + at..n + at + |e.err[i]|] == JoinSpace(e.err)[at..at + |e.err[i]|];
    assert OccursAt(e.err[i], s, n + at);
  }
}
