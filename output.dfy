/**
 * The TSV output file of both scrapers: the header, the row of one article, the writes
 * (overwrite with the header, append one row) and the resume read of the first data row's date.
 */
module Output {
  import opened Wrappers
  import opened Calendar
  import opened Whitespace
  import opened Site

  /** The header row of a new file. */
  const Header: seq<string> := ["fecha", "titular", "contenido", "seccion", "url"]

  /** The row `process_article` writes for a news item and its article text. */
  function Row(item: NewsItem, content: string): seq<string> {
    [item.fecha, item.titular, content, item.seccion, item.url]
  }

  /** The output file: whether it exists, and its rows (cells before TSV quoting). */
  class TsvFile {
    var present: bool
    var rows: seq<seq<string>>

    /** A missing file has no rows. */
    predicate Valid()
      reads this
    {
      present || rows == []
    }

    constructor (present: bool, rows: seq<seq<string>>)
      requires present || rows == []
      ensures Valid() && this.present == present && this.rows == rows
    {
      this.present := present;
      this.rows := rows;
    }

    /** `open(output_file, 'w')` and the header row: the file now holds the header alone. */
    method Overwrite()
      modifies this
      ensures Valid() && present && rows == [Header]
    {
      present := true;
      rows := [Header];
    }

    /** `open(output_file, 'a')` and one row: creates the file if needed and adds the row at the end. */
    method Append(row: seq<string>)
      modifies this
      ensures Valid() && present && rows == old(rows) + [row]
    {
      present := true;
      rows := rows + [row];
    }
  }

  /** The position of column `name` in a header row, the first one when it repeats. */
  function ColumnOf(header: seq<string>, name: string): (k: Option<nat>)
    ensures k.Some? ==> k.value < |header| && header[k.value] == name && name !in header[..k.value]
    ensures k.None? ==> name !in header
  {
    if header == [] then None
    else if header[0] == name then Some(0)
    else
      match ColumnOf(header[1..], name)
      case None => None
      case Some(j) =>
        assert header[..j + 1] == [header[0]] + header[1..][..j];
        Some(j + 1)
  }

  /**
   * `_get_last_date_from_file`, with pandas abstracted. None when the file is missing, has no
   * header line, no `fecha` column (parse_dates fails) or no data row. Otherwise the `fecha`
   * cell of the first data row ("" when the row is short) is shown as pandas shows it
   * (`shown`, its own date parsing included); its first whitespace token goes through
   * strptime's `%Y-%m-%d`, and when there is no token or that fails, the whole text goes
   * through pd.to_datetime (`fallback`, None when it fails too).
   */
  function LastDate(present: bool, rows: seq<seq<string>>, shown: string -> string,
                    fallback: string -> Option<Day>): (r: Option<Day>)
    ensures r.Some? ==> present && |rows| >= 2 && "fecha" in rows[0]
  {
    if !present || rows == [] then None
    else
      match ColumnOf(rows[0], "fecha")
      case None => None
      case Some(k) =>
        if |rows| < 2 then None
        else
          var cell := if k < |rows[1]| then rows[1][k] else "";
          var text := shown(cell);
          match FirstToken(text)
          case Some(w) => if ParseYmd(w).Some? then ParseYmd(w) else fallback(text)
          case None => fallback(text)
  }

  /**
   * The resume round trip: when the first data row under the scrapers' own header was written
   * with `fecha` = Format(d), and pandas shows that cell as the same date text, possibly
   * followed by a time after whitespace, the date read back is d.
   */
  lemma ResumeRoundTrip(rows: seq<seq<string>>, item: NewsItem, content: string, d: Day,
                        shown: string -> string, fallback: string -> Option<Day>, suffix: string)
    requires |rows| >= 2 && rows[0] == Header && rows[1] == Row(item, content)
    requires item.fecha == Format(d)
    requires shown(Format(d)) == Format(d) + suffix && (suffix == [] || IsSpace(suffix[0]))
    ensures LastDate(true, rows, shown, fallback) == Some(d)
  {
    assert ColumnOf(rows[0], "fecha") == Some(0);
    var f := Format(d);
    FormatHasNoSpace(d);
    FirstTokenBeforeSpace(f, suffix);
    ParseFormat(d);
    LastDateOfFirstToken(rows, shown, fallback, 0, f, d);
  }

  lemma FormatHasNoSpace(d: Day)
    ensures forall i :: 0 <= i < |Format(d)| ==> !IsSpace(Format(d)[i])
  {
  }

  /** Where the first token of the shown `fecha` cell parses, that is the date read back. */
  lemma LastDateOfFirstToken(rows: seq<seq<string>>, shown: string -> string, fallback: string -> Option<Day>,
                             k: nat, w: string, d: Day)
    requires |rows| >= 2 && ColumnOf(rows[0], "fecha") == Some(k) && k < |rows[1]|
    requires FirstToken(shown(rows[1][k])) == Some(w) && ParseYmd(w) == Some(d)
    ensures LastDate(true, rows, shown, fallback) == Some(d)
  {
  }
}
