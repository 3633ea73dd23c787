/**
 * `parseCSV` (src/utils/csvParser.ts): the naive CSV splitter. The text
 * is cut at every newline, line 0 is cut at every comma to give the
 * headers, and each later line becomes one record by pairing its
 * comma-separated fields with the headers, position by position. There
 * is no quoting or escaping, so the quoted-field rules of section 2 of
 * RFC 4180 are not implemented, and values stay raw strings.
 */
module CsvParser {
  import opened Wrappers
  import opened Text

  /**
   * One parsed line: every header is a key; the value is the field at the
   * header's position, or `None` (JavaScript's `undefined`) when the line
   * is too short.
   */
  type Record = map<string, Option<string>>

  /** `values[k]` as JavaScript reads it: `undefined` past the end. */
  function Field(values: seq<string>, k: nat): Option<string>
  {
    if k < |values| then Some(values[k]) else None
  }

  /** The set of header names. */
  function HeaderSet(headers: seq<string>): set<string>
  {
    set h | h in headers
  }

  /**
   * The `reduce` over the headers: position by position, `obj[header]`
   * is set to the field at that position, so a later position overwrites
   * an earlier one with the same name.
   */
  function BuildRecord(headers: seq<string>, values: seq<string>): (rec: Record)
    ensures rec.Keys == HeaderSet(headers)
    decreases |headers|
  {
    if |headers| == 0 then map[]
    else
      var n := |headers| - 1;
      var rec := BuildRecord(headers[..n], values)[headers[n] := Field(values, n)];
      assert headers == headers[..n] + [headers[n]];
      rec
  }

  /** The lines of the text. */
  function Lines(csv: string): seq<string>
  {
    Split(csv, '\n')
  }

  /** The headers: the comma-separated fields of line 0. */
  function Headers(csv: string): seq<string>
  {
    Split(Lines(csv)[0], ',')
  }

  /** `parseCSV(csv)`: one record per line after the first, in line order. */
  function ParseCsv(csv: string): (records: seq<Record>)
    ensures |records| == |Lines(csv)| - 1
    ensures forall j :: 0 <= j < |records| ==> records[j].Keys == HeaderSet(Headers(csv))
  {
    var data := Lines(csv)[1..];
    var headers := Headers(csv);
    seq(|data|, j requires 0 <= j < |data| => BuildRecord(headers, Split(data[j], ',')))
  }

  /**
   * Record `j` is built from line `j + 1`: the value under the header at
   * position `k` is the `k`-th comma-separated field of that line
   * (`None` when the line has fewer fields), provided no later header
   * position carries the same name.
   */
  lemma RecordField(csv: string, j: nat, k: nat)
    requires j < |ParseCsv(csv)|
    requires k < |Headers(csv)|
    requires forall m :: k < m < |Headers(csv)| ==> Headers(csv)[m] != Headers(csv)[k]
    ensures ParseCsv(csv)[j][Headers(csv)[k]] == Field(Split(Lines(csv)[j + 1], ','), k)
  {
    LastWriteWins(Headers(csv), Split(Lines(csv)[j + 1], ','), k);
  }

  /**
   * The value stored under a header comes from the last position that
   * carries that header's name; with distinct headers it is simply the
   * field at the header's own position.
   */
  lemma {:induction false} LastWriteWins(headers: seq<string>, values: seq<string>, k: nat)
    requires k < |headers|
    requires forall m :: k < m < |headers| ==> headers[m] != headers[k]
    ensures BuildRecord(headers, values)[headers[k]] == Field(values, k)
    decreases |headers|
  {
    var n := |headers| - 1;
    if k < n {
      LastWriteWins(headers[..n], values, k);
    }
  }

  /** Fields beyond the header count play no part: only the first `|headers|` fields are read. */
  lemma {:induction false} ExtraFieldsDropped(headers: seq<string>, values: seq<string>, extra: seq<string>)
    requires |values| >= |headers|
    ensures BuildRecord(headers, values + extra) == BuildRecord(headers, values)
    decreases |headers|
  {
    if |headers| > 0 {
      var n := |headers| - 1;
      ExtraFieldsDropped(headers[..n], values, extra);
      assert Field(values + extra, n) == Field(values, n);
    }
  }

  /** Text without a newline is a header line alone and gives no records. */
  lemma NoNewlineNoRecords(csv: string)
    requires '\n' !in csv
    ensures ParseCsv(csv) == []
  {
    SplitFree(csv, '\n');
  }

  /**
   * A trailing newline adds exactly one record at the end, built from the
   * empty line: it holds `""` under the header at position 0 and
   * `undefined` under every header whose last position is later.
   */
  lemma TrailingNewline(csv: string)
    ensures var records := ParseCsv(csv + "\n");
      && |records| == |ParseCsv(csv)| + 1
      && records[..|records| - 1] == ParseCsv(csv)
      && records[|records| - 1] == BuildRecord(Headers(csv), [""])
  {
    SplitTrailing(csv, '\n');
    var lines := Lines(csv);
    assert Lines(csv + "\n") == lines + [""];
    assert Headers(csv + "\n") == Headers(csv);
    var records, before := ParseCsv(csv + "\n"), ParseCsv(csv);
    forall j | 0 <= j < |before|
      ensures records[j] == before[j]
    {
      assert (lines + [""])[j + 1] == lines[j + 1];
    }
    assert (lines + [""])[|lines|] == "";
    assert Split("", ',') == [""];
  }

  /** The record of an empty line: `""` under the header whose last position is 0, `undefined` under all others. */
  lemma EmptyLineRecord(headers: seq<string>, k: nat)
    requires k < |headers|
    requires forall m :: k < m < |headers| ==> headers[m] != headers[k]
    ensures BuildRecord(headers, Split("", ','))[headers[k]] == if k == 0 then Some("") else None
  {
    LastWriteWins(headers, [""], k);
  }

  /** A header line and one data line, neither holding a newline, give exactly one record. */
  lemma OneDataLine(header: string, line: string)
    requires '\n' !in header && '\n' !in line
    ensures ParseCsv(header + "\n" + line) == [BuildRecord(Split(header, ','), Split(line, ','))]
  {
    SplitPrefix(header, line, '\n');
    SplitFree(line, '\n');
    assert Lines(header + "\n" + line) == [header, line];
  }

  /**
   * Values are raw substrings: in "a,b\r\n1,2\r" (written below in its
   * pieces), a carriage return stays in the header and in the field, and
   * numeric-looking fields stay strings.
   */
  lemma RawValues()
    ensures ParseCsv(("a" + "," + "b\r") + "\n" + ("1" + "," + "2\r")) == [map["a" := Some("1"), "b\r" := Some("2\r")]]
  {
    OneDataLine("a" + "," + "b\r", "1" + "," + "2\r");
    TwoFields("a", "b\r");
    TwoFields("1", "2\r");
    var headers := ["a", "b\r"];
    assert headers[..1] == ["a"];
  }

  /** A line with exactly one comma splits into the two fields around it. */
  lemma TwoFields(x: string, y: string)
    requires ',' !in x && ',' !in y
    ensures Split(x + "," + y, ',') == [x, y]
  {
    SplitPrefix(x, y, ',');
    SplitFree(y, ',');
  }
}
