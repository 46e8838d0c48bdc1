/** `exportCSVs`, the string building only: each report is a header line
    that tells spreadsheet programs the separator, then the column names,
    then one row per map entry in the map's insertion order. Every field is
    wrapped in double quotes and nothing inside is escaped. A reader that
    splits the text back into rows and fields is given alongside, to state
    when the report can be read back. */
module Report {
  import opened Optional
  import opened JsText
  import opened JsCollections
  import opened Store

  const JsonHeader: string := "\"sep=,\"\nJson,File"
  const FilesHeader: string := "\"sep=,\"\nFile,Json"
  const ExtraHeader: string := "\"sep=,\"\nJson,Files"

  /** What separates two quoted fields of a row. */
  const FieldSep: string := "\",\""

  /** One row: `\n"f1","f2",…`. */
  function Row(fields: seq<string>): string {
    "\n" + RowText(fields)
  }

  /** A row without its line break. */
  function RowText(fields: seq<string>): string {
    "\"" + JoinWith(fields, FieldSep) + "\""
  }

  /** The rows in order, appended one after the other. */
  function RowsText(rows: seq<seq<string>>): string
    decreases |rows|
  {
    if |rows| == 0 then "" else Row(rows[0]) + RowsText(rows[1..])
  }

  /** The rows of a two-column report: one `[key, value]` per key, in the
      map's order. */
  function PairRows(m: OrderedMap<string>): (rows: seq<seq<string>>)
    requires forall k :: k in m.keys ==> k in m.items
    ensures |rows| == |m.keys|
    ensures forall i :: 0 <= i < |rows| ==> rows[i] == [m.keys[i], m.items[m.keys[i]]]
  {
    seq(|m.keys|, i requires 0 <= i < |m.keys| => [m.keys[i], m.items[m.keys[i]]])
  }

  /** The rows of the extra-files report: the sidecar, then its extra files
      joined with `","` into the second field. */
  function ExtraRows(m: OrderedMap<seq<string>>): (rows: seq<seq<string>>)
    requires forall k :: k in m.keys ==> k in m.items
    ensures |rows| == |m.keys|
    ensures forall i :: 0 <= i < |rows| ==> rows[i] == [m.keys[i], JoinWith(m.items[m.keys[i]], FieldSep)]
  {
    seq(|m.keys|, i requires 0 <= i < |m.keys| => [m.keys[i], JoinWith(m.items[m.keys[i]], FieldSep)])
  }

  /** The sidecar-to-file report. When no path holds a line break or a
      double quote it reads back as one `[sidecar, file]` row per matched
      sidecar, in insertion order. */
  function JsonCsv(s: Store): (text: string)
    requires s.jsonToFile.Valid()
    ensures StartsWith(text, JsonHeader)
    ensures PlainMap(s.jsonToFile) ==> DecodeCsv(text, JsonHeader) == Some(PairRows(s.jsonToFile))
  {
    var text := JsonHeader + RowsText(PairRows(s.jsonToFile));
    assert text[..|JsonHeader|] == JsonHeader;
    if PlainMap(s.jsonToFile) then PairCsvReads(JsonHeader, s.jsonToFile); text else text
  }

  /** The file-to-sidecar report, read back the same way. */
  function FilesCsv(s: Store): (text: string)
    requires s.fileToJson.Valid()
    ensures StartsWith(text, FilesHeader)
    ensures PlainMap(s.fileToJson) ==> DecodeCsv(text, FilesHeader) == Some(PairRows(s.fileToJson))
  {
    var text := FilesHeader + RowsText(PairRows(s.fileToJson));
    assert text[..|FilesHeader|] == FilesHeader;
    if PlainMap(s.fileToJson) then PairCsvReads(FilesHeader, s.fileToJson); text else text
  }

  /** The extra-files report: a sidecar's row holds its extra files joined
      with `","` into the second field. */
  function ExtraCsv(s: Store): (text: string)
    requires s.extras.Valid()
    ensures StartsWith(text, ExtraHeader)
    ensures |s.extras.keys| == 0 ==> text == ExtraHeader
  {
    var text := ExtraHeader + RowsText(ExtraRows(s.extras));
    assert text[..|ExtraHeader|] == ExtraHeader;
    text
  }

  /** Every key and value of a two-column map is a plain field. */
  predicate PlainMap(m: OrderedMap<string>) {
    forall k :: k in m.items ==> Plain(k) && Plain(m.items[k])
  }

  // ---------------------------------------------------------------------
  // Reading a report back

  /** A row's fields, if the line is a quoted row. */
  function ParseRow(line: string): (r: Option<seq<string>>)
  {
    if |line| >= 2 && line[0] == '"' && line[|line| - 1] == '"'
    then Some(SplitOn(line[1..|line| - 1], FieldSep))
    else None
  }

  function ParseRows(lines: seq<string>): Option<seq<seq<string>>>
    decreases |lines|
  {
    if |lines| == 0 then Some([])
    else match ParseRow(lines[0])
      case None => None
      case Some(fields) =>
        match ParseRows(lines[1..])
        case None => None
        case Some(rest) => Some([fields] + rest)
  }

  /** Read a report with the given header: the text after the header is
      split into lines, the first of which must be empty (every row starts
      with a line break). */
  function DecodeCsv(text: string, header: string): Option<seq<seq<string>>> {
    if !StartsWith(text, header) then None
    else
      var lines := SplitOn(text[|header|..], "\n");
      if lines[0] != "" then None else ParseRows(lines[1..])
  }

  /** A field the unescaped format can carry: no line break and no double
      quote. */
  predicate Plain(x: string) {
    '\n' !in x && '"' !in x
  }

  ghost predicate PlainRows(rows: seq<seq<string>>) {
    forall i, k :: 0 <= i < |rows| && 0 <= k < |rows[i]| ==> Plain(rows[i][k])
  }

  /** Splitting text that starts with a piece free of the separator's first
      character: the piece stays at the front of the first part. */
  lemma {:induction false} SplitPrefix(x: string, t: string, sep: string)
    requires |sep| > 0 && sep[0] !in x
    ensures SplitOn(x + t, sep) == [x + SplitOn(t, sep)[0]] + SplitOn(t, sep)[1..]
    decreases |x|
  {
    if |x| == 0 {
      assert x + t == t;
      var r := SplitOn(t, sep);
      assert x + r[0] == r[0];
      assert [r[0]] + r[1..] == r;
    } else {
      var s := x + t;
      assert s[0] == x[0] && s[0] != sep[0];
      assert !StartsWith(s, sep);
      assert s[1..] == x[1..] + t;
      SplitPrefix(x[1..], t, sep);
      var r := SplitOn(t, sep);
      var rest := SplitOn(s[1..], sep);
      assert rest[0] == x[1..] + r[0] && rest[1..] == r[1..];
      assert [s[0]] + rest[0] == x + r[0];
    }
  }

  /** Splitting undoes joining, when no piece holds the separator's first
      character. */
  lemma {:induction false} SplitJoin(xs: seq<string>, sep: string)
    requires |xs| >= 1 && |sep| > 0
    requires forall i :: 0 <= i < |xs| ==> sep[0] !in xs[i]
    ensures SplitOn(JoinWith(xs, sep), sep) == xs
    decreases |xs|
  {
    if |xs| == 1 {
      SplitPrefix(xs[0], "", sep);
      assert xs[0] + "" == xs[0];
    } else {
      var rest := JoinWith(xs[1..], sep);
      SplitJoin(xs[1..], sep);
      var t := sep + rest;
      assert StartsWith(t, sep);
      assert t[|sep|..] == rest;
      assert SplitOn(t, sep) == [""] + xs[1..];
      SplitPrefix(xs[0], t, sep);
      assert xs[0] + t == JoinWith(xs, sep);
      assert xs[0] + "" == xs[0];
      assert [xs[0]] + xs[1..] == xs;
    }
  }

  /** A row of plain fields reads back as those fields. */
  lemma RowReads(fields: seq<string>)
    requires |fields| >= 1
    requires forall k :: 0 <= k < |fields| ==> Plain(fields[k])
    ensures ParseRow(RowText(fields)) == Some(fields)
    ensures '\n' !in RowText(fields)
  {
    var line := RowText(fields);
    var inner := JoinWith(fields, FieldSep);
    assert line[1..|line| - 1] == inner;
    SplitJoin(fields, FieldSep);
    JoinPlain(fields);
  }

  /** Joining plain fields puts no line break in the text. */
  lemma {:induction false} JoinPlain(fields: seq<string>)
    requires forall k :: 0 <= k < |fields| ==> Plain(fields[k])
    ensures '\n' !in JoinWith(fields, FieldSep)
    decreases |fields|
  {
    if |fields| > 1 {
      JoinPlain(fields[1..]);
    }
  }

  /** The rows' lines, each without its line break. */
  function RowLines(rows: seq<seq<string>>): (lines: seq<string>)
    decreases |rows|
  {
    if |rows| == 0 then [] else [RowText(rows[0])] + RowLines(rows[1..])
  }

  /** The rows' text splits into one empty line and then the rows' own
      lines. */
  lemma {:induction false} RowsSplit(rows: seq<seq<string>>)
    requires forall i :: 0 <= i < |rows| ==> |rows[i]| >= 1
    requires PlainRows(rows)
    ensures SplitOn(RowsText(rows), "\n") == [""] + RowLines(rows)
    decreases |rows|
  {
    if |rows| > 0 {
      var rest := rows[1..];
      var t := RowText(rows[0]);
      assert '\n' !in t by {
        RowReads(rows[0]);
      }
      assert SplitOn(RowsText(rest), "\n") == [""] + RowLines(rest) by {
        RowsSplit(rest);
      }
      assert RowsText(rows) == "\n" + (t + RowsText(rest));
      SplitLineStep(t, RowsText(rest), RowLines(rest));
    }
  }

  lemma SplitLineStep(t: string, restText: string, restLines: seq<string>)
    requires '\n' !in t
    requires SplitOn(restText, "\n") == [""] + restLines
    ensures SplitOn("\n" + (t + restText), "\n") == [""] + ([t] + restLines)
  {
    var body := "\n" + (t + restText);
    assert StartsWith(body, "\n");
    assert body[1..] == t + restText;
    SplitPrefix(t, restText, "\n");
    assert t + "" == t;
  }

  lemma {:induction false} LinesParse(rows: seq<seq<string>>)
    requires forall i :: 0 <= i < |rows| ==> |rows[i]| >= 1
    requires PlainRows(rows)
    ensures ParseRows(RowLines(rows)) == Some(rows)
    decreases |rows|
  {
    if |rows| > 0 {
      var rest := rows[1..];
      assert ParseRow(RowText(rows[0])) == Some(rows[0]) by {
        RowReads(rows[0]);
      }
      assert ParseRows(RowLines(rest)) == Some(rest) by {
        LinesParse(rest);
      }
      assert [rows[0]] + rest == rows;
    }
  }

  /** Round trip: a report whose rows each have a field and whose fields
      are plain reads back as exactly those rows, in order. */
  lemma ReportReads(header: string, rows: seq<seq<string>>)
    requires forall i :: 0 <= i < |rows| ==> |rows[i]| >= 1
    requires PlainRows(rows)
    ensures DecodeCsv(header + RowsText(rows), header) == Some(rows)
  {
    var text := header + RowsText(rows);
    assert text[..|header|] == header;
    assert text[|header|..] == RowsText(rows);
    RowsSplit(rows);
    LinesParse(rows);
  }

  /** The two-column reports list every key with its value, in the order
      the keys were first set, provided no path holds a line break or a
      double quote. */
  lemma PairCsvReads(header: string, m: OrderedMap<string>)
    requires m.Valid()
    requires PlainMap(m)
    ensures DecodeCsv(header + RowsText(PairRows(m)), header) == Some(PairRows(m))
  {
    var rows := PairRows(m);
    assert PlainRows(rows) by {
      forall i, k | 0 <= i < |rows| && 0 <= k < |rows[i]| ensures Plain(rows[i][k]) {
        assert m.keys[i] in m.items;
      }
    }
    ReportReads(header, rows);
  }

  /** An extra list joined into the second field reads back as separate
      fields: the row of sidecar `j` is `j` followed by its extra files. */
  lemma JoinNested(j: string, files: seq<string>)
    requires |files| >= 1
    ensures RowText([j, JoinWith(files, FieldSep)]) == RowText([j] + files)
  {
    var xs := [j] + files;
    assert xs[1..] == files;
    assert JoinWith([j, JoinWith(files, FieldSep)], FieldSep) == j + FieldSep + JoinWith(files, FieldSep);
  }

  lemma {:induction false} RowsTextAgree(rows1: seq<seq<string>>, rows2: seq<seq<string>>)
    requires |rows1| == |rows2|
    requires forall i :: 0 <= i < |rows1| ==> RowText(rows1[i]) == RowText(rows2[i])
    ensures RowsText(rows1) == RowsText(rows2)
    decreases |rows1|
  {
    if |rows1| > 0 {
      RowsTextAgree(rows1[1..], rows2[1..]);
    }
  }

  /** The extra-files report reads back as one row per sidecar with extras,
      in insertion order: the sidecar, then its extra files in the order
      they were attached, provided no path holds a line break or a double
      quote. */
  lemma ExtraCsvReads(s: Store)
    requires s.extras.Valid()
    requires forall j :: j in s.extras.items ==> Plain(j) && |s.extras.items[j]| >= 1
    requires forall j, k :: j in s.extras.items && 0 <= k < |s.extras.items[j]| ==> Plain(s.extras.items[j][k])
    ensures var m := s.extras;
      DecodeCsv(ExtraCsv(s), ExtraHeader)
        == Some(seq(|m.keys|, i requires 0 <= i < |m.keys| && m.keys[i] in m.items => [m.keys[i]] + m.items[m.keys[i]]))
  {
    var m := s.extras;
    var rows := ExtraRows(m);
    var flat := seq(|m.keys|, i requires 0 <= i < |m.keys| && m.keys[i] in m.items => [m.keys[i]] + m.items[m.keys[i]]);
    forall i | 0 <= i < |rows| ensures RowText(rows[i]) == RowText(flat[i]) {
      JoinNested(m.keys[i], m.items[m.keys[i]]);
    }
    RowsTextAgree(rows, flat);
    assert PlainRows(flat) by {
      forall i, k | 0 <= i < |flat| && 0 <= k < |flat[i]| ensures Plain(flat[i][k]) {
        assert m.keys[i] in m.items;
        if k > 0 { assert flat[i][k] == m.items[m.keys[i]][k - 1]; }
      }
    }
    ReportReads(ExtraHeader, flat);
  }

  /** Because nothing is escaped, a quote in a path lets two different
      stores produce the same report: a sidecar `a","b` matched to `c`
      reads the same as a sidecar `a` matched to `b","c`. */
  lemma NoEscapingAmbiguity()
    ensures RowsText([["a\",\"b", "c"]]) == RowsText([["a", "b\",\"c"]])
  {
  }
}
