/**
 * The row transform of `get_data_from_csv`: the rows `csv.reader` yields for the
 * semicolon-separated quote file are taken as given; the header row is skipped
 * and the two-character escape backslash-n becomes a real line break in every field.
 */
module CsvData {
  import opened Text

  /** The escape as it is stored in the file: a backslash followed by the letter n. */
  const EscapedNewline: string := "\\n"

  /** The line break that replaces it. */
  const Newline: string := "\n"

  /** `entry.replace('\\n', '\n')`. */
  function Unescape(entry: string): string {
    Replace(entry, EscapedNewline, Newline)
  }

  lemma UnescapeIsSafe()
    ensures SafeRewrite(EscapedNewline, Newline)
  {
    assert EscapedNewline[0] == '\\' && EscapedNewline[1] == 'n';
    assert Newline[0] == '\n';
  }

  /** No escape is left in an unescaped field. */
  lemma UnescapeLeavesNoEscape(entry: string)
    ensures !Contains(Unescape(entry), EscapedNewline)
  {
    UnescapeIsSafe();
    ReplaceLeavesNone(entry, EscapedNewline, Newline);
  }

  /** A field without an escape is left untouched. */
  lemma UnescapeKeepsPlain(entry: string)
    requires !Contains(entry, EscapedNewline)
    ensures Unescape(entry) == entry
  {
    ReplaceAbsent(entry, EscapedNewline, Newline);
  }

  /** Unescaping an unescaped field again changes nothing. */
  lemma UnescapeIdempotent(entry: string)
    ensures Unescape(Unescape(entry)) == Unescape(entry)
  {
    UnescapeLeavesNoEscape(entry);
    UnescapeKeepsPlain(Unescape(entry));
  }

  /** The rows `get_data_from_csv` returns for the rows the reader produced. */
  function DataFromRows(rows: seq<seq<string>>): (data: seq<seq<string>>)
    ensures |data| == if rows == [] then 0 else |rows| - 1
    ensures forall i :: 0 <= i < |data| ==> |data[i]| == |rows[i + 1]|
    ensures forall i, j :: 0 <= i < |data| && 0 <= j < |data[i]| ==> data[i][j] == Unescape(rows[i + 1][j])
  {
    if rows == [] then []
    else
      seq(|rows| - 1, i requires 0 <= i < |rows| - 1 =>
        seq(|rows[i + 1]|, j requires 0 <= j < |rows[i + 1]| => Unescape(rows[i + 1][j])))
  }

  /** No field of the loaded data holds an escape any more. */
  lemma DataHasNoEscapes(rows: seq<seq<string>>)
    ensures var data := DataFromRows(rows);
      forall i, j :: 0 <= i < |data| && 0 <= j < |data[i]| ==> !Contains(data[i][j], EscapedNewline)
  {
    var data := DataFromRows(rows);
    forall i, j | 0 <= i < |data| && 0 <= j < |data[i]|
      ensures !Contains(data[i][j], EscapedNewline)
    {
      UnescapeLeavesNoEscape(rows[i + 1][j]);
    }
  }

  /** Loading the loaded data again, under any header row, gives the same data. */
  lemma DataReloadIsStable(header: seq<string>, rows: seq<seq<string>>)
    ensures DataFromRows([header] + DataFromRows(rows)) == DataFromRows(rows)
  {
    var data := DataFromRows(rows);
    var again := DataFromRows([header] + data);
    forall i, j | 0 <= i < |data| && 0 <= j < |data[i]|
      ensures again[i][j] == data[i][j]
    {
      assert ([header] + data)[i + 1] == data[i];
      UnescapeIdempotent(rows[i + 1][j]);
    }
    assert |again| == |data|;
    forall i | 0 <= i < |data| ensures again[i] == data[i] {
      assert ([header] + data)[i + 1] == data[i];
    }
  }
}
