/** The CSV printer of the account-group export, and a parser that undoes it. */
module CsvExport {
  import opened Wrappers
  import opened Bytes

  datatype ExportError = TooLarge

  const MAX_EXPORT_BYTES := 32 * 1024 * 1024
  const BYTE_ORDER_MARK := '\U{FEFF}'

  // ------------------------------------------------------------ what is printed

  predicate Special(c: char) {
    c == ',' || c == '"' || c == '\r' || c == '\n'
  }

  predicate NeedsQuotes(field: string) {
    exists c <- field :: Special(c)
  }

  /** Every quote doubled. */
  function Escape(field: string): string {
    if field == [] then []
    else (if field[0] == '"' then ['"', '"'] else [field[0]]) + Escape(field[1..])
  }

  function PrintField(field: string): string {
    if NeedsQuotes(field) then ['"'] + Escape(field) + ['"'] else field
  }

  /** The fields of a row separated by commas. */
  function PrintFields(fields: seq<string>): string {
    if fields == [] then []
    else if |fields| == 1 then PrintField(fields[0])
    else PrintFields(fields[..|fields| - 1]) + [','] + PrintField(fields[|fields| - 1])
  }

  function PrintRow(fields: seq<string>): string {
    PrintFields(fields) + ['\r', '\n']
  }

  function PrintTable(rows: seq<seq<string>>): string {
    if rows == [] then [] else PrintTable(rows[..|rows| - 1]) + PrintRow(rows[|rows| - 1])
  }

  /** The length of a character in UTF-8. */
  function Utf8Width(c: char): nat {
    if c as int < 0x80 then 1 else if c as int < 0x800 then 2 else if c as int < 0x1_0000 then 3 else 4
  }

  function ByteLength(text: string): nat {
    if text == [] then 0 else ByteLength(text[..|text| - 1]) + Utf8Width(text[|text| - 1])
  }

  /** The length that is checked is that of the encoded text. */
  lemma {:induction false} ByteLengthIsUtf8(text: string)
    ensures ByteLength(text) == |Utf8Text(text)|
  {
    if text != [] {
      ByteLengthIsUtf8(text[1..]);
      ByteLengthAppend(text[..1], text[1..]);
      assert text == text[..1] + text[1..];
    }
  }

  lemma {:induction false} ByteLengthAppend(a: string, b: string)
    ensures ByteLength(a + b) == ByteLength(a) + ByteLength(b)
  {
    if b == [] {
      assert a + b == a;
    } else {
      ByteLengthAppend(a, b[..|b| - 1]);
      assert (a + b)[..|a + b| - 1] == a + b[..|b| - 1];
    }
  }

  lemma LongerTakesMore(a: string, b: string)
    requires a <= b
    ensures ByteLength(a) <= ByteLength(b)
  {
    ByteLengthAppend(a, b[|a|..]);
    assert b == a + b[|a|..];
  }

  lemma {:induction false} EscapeAppend(a: string, c: char)
    ensures Escape(a + [c]) == Escape(a) + (if c == '"' then ['"', '"'] else [c])
  {
    if a == [] {
      assert a + [c] == [c];
    } else {
      EscapeAppend(a[1..], c);
      assert (a + [c])[1..] == a[1..] + [c];
    }
  }

  lemma PrintFieldsAppend(fields: seq<string>, n: nat)
    requires n < |fields|
    ensures PrintFields(fields[..n + 1]) == PrintFields(fields[..n]) + ((if n == 0 then [] else [',']) + PrintField(fields[n]))
  {
    if n > 0 {
      assert fields[..n + 1][..n] == fields[..n];
    }
  }

  // --------------------------------------------------------------- the printer

  class Output {
    var text: string

    constructor (initial: string)
      ensures text == initial
    {
      text := initial;
    }

    method Push(c: char)
      modifies this
      ensures text == old(text) + [c]
    {
      text := text + [c];
    }

    method PushQuoted(field: string)
      modifies this
      ensures text == old(text) + ['"'] + Escape(field) + ['"']
    {
      Push('"');
      for i := 0 to |field|
        invariant text == old(text) + ['"'] + Escape(field[..i])
      {
        EscapeAppend(field[..i], field[i]);
        assert field[..i + 1] == field[..i] + [field[i]];
        if field[i] == '"' {
          Push('"');
        }
        Push(field[i]);
      }
      assert field[..|field|] == field;
      Push('"');
    }

    /** One field of a row, after a comma unless it is the first. */
    method PushField(field: string, first: bool)
      modifies this
      ensures text == old(text) + ((if first then [] else [',']) + PrintField(field))
    {
      hide Escape;
      if !first {
        Push(',');
      }
      ghost var before := text;
      if exists c <- field :: Special(c) {
        PushQuoted(field);
        assert text == before + (['"'] + Escape(field) + ['"']);
      } else {
        text := text + field;
      }
      assert text == before + PrintField(field);
    }

    /** `append_csv_row`: checks the size after every field. */
    method AppendRow(fields: seq<string>) returns (r: Result<(), ExportError>)
      modifies this
      ensures r.Ok? <==> fields == [] || ByteLength(old(text) + PrintFields(fields)) <= MAX_EXPORT_BYTES
      ensures r.Ok? ==> text == old(text) + PrintRow(fields) == old(text) + PrintFields(fields) + "\r\n"
    {
      hide PrintFields, PrintField, ByteLength;
      NothingPrinted();
      for i := 0 to |fields|
        invariant text == old(text) + PrintFields(fields[..i])
        invariant i > 0 ==> ByteLength(text) <= MAX_EXPORT_BYTES
      {
        ghost var soFar := PrintFields(fields[..i]);
        PushField(fields[i], i == 0);
        PrintFieldsAppend(fields, i);
        JoinAssociates(old(text), soFar, (if i == 0 then [] else [',']) + PrintField(fields[i]));
        if ByteLength(text) > MAX_EXPORT_BYTES {
          FieldsGrow(fields, i + 1);
          LongerTakesMore(text, old(text) + PrintFields(fields));
          return Err(TooLarge);
        }
      }
      assert fields[..|fields|] == fields;
      JoinAssociates(old(text), PrintFields(fields), "\r\n");
      text := text + "\r\n";
      return Ok(());
    }
  }

  lemma JoinAssociates(a: string, b: string, c: string)
    ensures (a + b) + c == a + (b + c)
  {
  }

  lemma {:induction false} FieldsGrow(fields: seq<string>, n: nat)
    requires n <= |fields|
    ensures PrintFields(fields[..n]) <= PrintFields(fields)
  {
    hide PrintField;
    if n == |fields| {
      assert fields[..n] == fields;
    } else {
      var front := fields[..|fields| - 1];
      FieldsGrow(front, n);
      assert front[..n] == fields[..n];
      assert fields[..|fields|] == fields;
      PrintFieldsAppend(fields, |fields| - 1);
    }
  }

  lemma {:induction false} TableGrows(rows: seq<seq<string>>, n: nat)
    requires n <= |rows|
    ensures PrintTable(rows[..n]) <= PrintTable(rows)
  {
    hide PrintRow;
    if n == |rows| {
      assert rows[..n] == rows;
    } else {
      var front := rows[..|rows| - 1];
      TableGrows(front, n);
      assert front[..n] == rows[..n];
    }
  }

  datatype ExportFile = ExportFile(rowCount: nat, byteSize: nat, text: string)

  /** `generate_csv`: succeeds exactly when the whole file is within the byte limit, and then a
      parser reads the header and the rows back from what follows the byte order mark. */
  method GenerateCsv(header: seq<string>, rows: seq<seq<string>>) returns (r: Result<ExportFile, ExportError>)
    ensures r.Ok? <==> |Utf8Text(['\U{FEFF}'] + PrintTable([header] + rows))| <= 33_554_432
    ensures r.Ok? ==> r.value.rowCount == |rows| && r.value.byteSize == |Utf8Text(r.value.text)|
    ensures r.Ok? ==> r.value.text == ['\U{FEFF}'] + PrintTable([header] + rows)
    ensures r.Ok? && (forall row <- [header] + rows :: row != []) ==> ParseFile(r.value.text[1..]) == Some([header] + rows)
  {
    hide ByteLength, Utf8Text, PrintRow, PrintFields, PrintTable;
    ByteLengthIsUtf8(['\U{FEFF}'] + PrintTable([header] + rows));
    ghost var table := [header] + rows;
    var output := new Output([BYTE_ORDER_MARK]);
    assert table[..0] == [] && PrintTable(table[..0]) == [] by {
      NothingPrinted();
    }
    ghost var file := [BYTE_ORDER_MARK] + PrintTable(table);
    RowOverflow(table, 0);
    assert output.text + PrintFields(header) == [BYTE_ORDER_MARK] + PrintTable(table[..0]) + PrintFields(table[0]);
    var first := output.AppendRow(header);
    if first.Err? {
      return Err(first.error);
    }
    RowPrinted(table, 0);
    for i := 0 to |rows|
      invariant output.text == [BYTE_ORDER_MARK] + PrintTable(table[..i + 1])
    {
      RowOverflow(table, i + 1);
      var next := output.AppendRow(rows[i]);
      if next.Err? {
        return Err(next.error);
      }
      RowPrinted(table, i + 1);
    }
    assert table[..|rows| + 1] == table;
    if ByteLength(output.text) > MAX_EXPORT_BYTES {
      return Err(TooLarge);
    }
    if forall row <- table :: row != [] {
      TableRoundTrip(table);
      assert output.text[1..] == PrintTable(table);
    }
    return Ok(ExportFile(|rows|, ByteLength(output.text), output.text));
  }

  lemma NothingPrinted()
    ensures PrintTable([]) == [] && PrintFields([]) == []
  {
  }

  lemma RowPrinted(table: seq<seq<string>>, n: nat)
    requires n < |table|
    ensures PrintTable(table[..n + 1]) == PrintTable(table[..n]) + PrintRow(table[n])
  {
    assert table[..n + 1][..n] == table[..n];
  }

  /** If the file is already too long after the fields of row `n`, the whole file is too long. */
  lemma RowOverflow(table: seq<seq<string>>, n: nat)
    requires n < |table|
    ensures ByteLength([BYTE_ORDER_MARK] + PrintTable(table[..n]) + PrintFields(table[n]))
            <= ByteLength([BYTE_ORDER_MARK] + PrintTable(table))
  {
    hide PrintFields, PrintTable, ByteLength;
    RowPrinted(table, n);
    TableGrows(table, n + 1);
    LongerTakesMore([BYTE_ORDER_MARK] + PrintTable(table[..n]) + PrintFields(table[n]), [BYTE_ORDER_MARK] + PrintTable(table));
  }

  // ---------------------------------------------------------------- the parser

  // A parser for section 2 of RFC 4180, with TEXTDATA widened to every character other than
  // comma, double quote, carriage return and line feed.

  /** The rest of a quoted field, after its opening quote: its value and what follows the closing quote. */
  function ParseQuoted(s: string): (r: Option<(string, string)>)
    ensures r.Some? ==> |r.value.1| < |s|
  {
    if s == [] then None
    else if s[0] != '"' then
      match ParseQuoted(s[1..]) case None => None case Some((field, rest)) => Some(([s[0]] + field, rest))
    else if |s| > 1 && s[1] == '"' then
      match ParseQuoted(s[2..]) case None => None case Some((field, rest)) => Some((['"'] + field, rest))
    else Some(([], s[1..]))
  }

  function ParseBare(s: string): (r: (string, string))
    ensures |r.1| <= |s|
  {
    if s == [] || s[0] in {',', '"', '\r', '\n'} then ([], s)
    else
      var (field, rest) := ParseBare(s[1..]);
      ([s[0]] + field, rest)
  }

  function ParseField(s: string): (r: Option<(string, string)>)
    ensures r.Some? ==> |r.value.1| <= |s|
  {
    if s != [] && s[0] == '"' then ParseQuoted(s[1..]) else Some(ParseBare(s))
  }

  /** One record and what follows its line break. */
  function ParseRecord(s: string): (r: Option<(seq<string>, string)>)
    ensures r.Some? && s != [] ==> |r.value.1| < |s|
    decreases |s|
  {
    match ParseField(s)
    case None => None
    case Some((field, rest)) =>
      if rest == [] then Some(([field], []))
      else if rest[0] == ',' then
        (match ParseRecord(rest[1..]) case None => None case Some((fields, tail)) => Some(([field] + fields, tail)))
      else if |rest| >= 2 && rest[0] == '\r' && rest[1] == '\n' then Some(([field], rest[2..]))
      else None
  }

  function ParseFile(s: string): Option<seq<seq<string>>>
    decreases |s|
  {
    if s == [] then Some([])
    else
      match ParseRecord(s)
      case None => None
      case Some((record, rest)) =>
        match ParseFile(rest) case None => None case Some(records) => Some([record] + records)
  }

  // -------------------------------------------------------------- what is quoted

  lemma {:induction false} EscapeIsNoShorter(field: string)
    ensures |Escape(field)| >= |field|
  {
    if field != [] {
      EscapeIsNoShorter(field[1..]);
    }
  }

  /** A field is quoted exactly when it has a comma, a double quote, a carriage return or a line feed;
      any other field is printed as it is. */
  lemma QuotedExactlyWhen(field: string)
    ensures PrintField(field) == field <==> ',' !in field && '"' !in field && '\r' !in field && '\n' !in field
    ensures PrintField(field) != field ==> exists inner :: PrintField(field) == ['"'] + inner + ['"']
  {
    hide Escape;
    if NeedsQuotes(field) {
      EscapeIsNoShorter(field);
      assert |PrintField(field)| > |field|;
      assert PrintField(field) == ['"'] + Escape(field) + ['"'];
    }
  }

  // ------------------------------------------------------------- the round trip

  lemma {:induction false} QuotedRoundTrip(field: string, rest: string)
    requires rest == [] || rest[0] != '"'
    ensures ParseQuoted(Escape(field) + ['"'] + rest) == Some((field, rest))
  {
    var s := Escape(field) + ['"'] + rest;
    if field == [] {
      assert s == ['"'] + rest && s[1..] == rest;
    } else {
      QuotedRoundTrip(field[1..], rest);
      var later := Escape(field[1..]) + ['"'] + rest;
      assert [field[0]] + field[1..] == field;
      if field[0] == '"' {
        assert s == ['"', '"'] + later && s[2..] == later;
      } else {
        assert s == [field[0]] + later && s[1..] == later;
      }
    }
  }

  lemma {:induction false} BareRoundTrip(field: string, rest: string)
    requires ',' !in field && '"' !in field && '\r' !in field && '\n' !in field
    requires rest == [] || rest[0] == ',' || rest[0] == '\r'
    ensures ParseBare(field + rest) == (field, rest)
  {
    if field == [] {
      assert field + rest == rest;
    } else {
      assert field[0] in field;
      assert forall c <- field[1..] :: c in field;
      BareRoundTrip(field[1..], rest);
      assert (field + rest)[1..] == field[1..] + rest;
      assert [field[0]] + field[1..] == field;
    }
  }

  /** Whatever its contents, a printed field is read back when a comma or a line break follows. */
  lemma FieldRoundTrip(field: string, rest: string)
    requires rest != [] && (rest[0] == ',' || rest[0] == '\r')
    ensures ParseField(PrintField(field) + rest) == Some((field, rest))
  {
    hide Escape, ParseQuoted, ParseBare;
    var s := PrintField(field) + rest;
    if NeedsQuotes(field) {
      assert s[0] == '"' && s[1..] == Escape(field) + ['"'] + rest;
      QuotedRoundTrip(field, rest);
    } else {
      BareRoundTrip(field, rest);
      if field == [] {
        assert s == rest;
      } else {
        assert s[0] == field[0] && field[0] in field && !Special(s[0]);
      }
    }
  }

  lemma {:induction false} PrintFieldsHead(fields: seq<string>)
    requires |fields| > 1
    ensures PrintFields(fields) == PrintField(fields[0]) + [','] + PrintFields(fields[1..])
  {
    hide PrintField;
    var front, last := fields[..|fields| - 1], fields[|fields| - 1];
    if |fields| > 2 {
      PrintFieldsHead(front);
      assert fields[1..][..|fields| - 2] == front[1..];
      assert PrintFields(fields[1..]) == PrintFields(front[1..]) + [','] + PrintField(last);
    } else {
      assert front == [fields[0]] && fields[1..] == [last];
    }
  }

  lemma PrintedRow(fields: seq<string>)
    requires fields != []
    ensures |fields| == 1 ==> PrintFields(fields) == PrintField(fields[0])
  {
  }

  lemma {:induction false} RowRoundTrip(fields: seq<string>, rest: string)
    requires fields != []
    ensures ParseRecord(PrintRow(fields) + rest) == Some((fields, rest))
    decreases |fields|
  {
    hide PrintField, ParseField, PrintFields;
    PrintedRow(fields);
    var end := ['\r', '\n'] + rest;
    var s := PrintRow(fields) + rest;
    if |fields| == 1 {
      FieldRoundTrip(fields[0], end);
      assert s == PrintField(fields[0]) + end && end[2..] == rest && fields == [fields[0]];
    } else {
      PrintFieldsHead(fields);
      PrintedRow(fields[1..]);
      var later := PrintRow(fields[1..]) + rest;
      RowRoundTrip(fields[1..], rest);
      FieldRoundTrip(fields[0], [','] + later);
      assert s == PrintField(fields[0]) + ([','] + later);
      assert ([','] + later)[1..] == later && [fields[0]] + fields[1..] == fields;
    }
  }

  /** What a table reads back as: a row without fields comes back as one empty field. */
  function Normalised(rows: seq<seq<string>>): (r: seq<seq<string>>)
    ensures |r| == |rows|
  {
    seq(|rows|, i requires 0 <= i < |rows| => if rows[i] == [] then [[]] else rows[i])
  }

  lemma EmptyRow(rest: string)
    ensures ParseRecord(PrintRow([]) + rest) == Some(([[]], rest))
  {
    assert PrintRow([]) == PrintRow([[]]);
    RowRoundTrip([[]], rest);
  }

  lemma {:induction false} PrintTableHead(rows: seq<seq<string>>)
    requires rows != []
    ensures PrintTable(rows) == PrintRow(rows[0]) + PrintTable(rows[1..])
  {
    hide PrintRow;
    var front, last := rows[..|rows| - 1], rows[|rows| - 1];
    if |rows| > 1 {
      PrintTableHead(front);
      assert rows[1..][..|rows| - 2] == front[1..];
    } else {
      assert front == [] && rows[1..] == [];
    }
  }

  lemma {:induction false} TableReadsBack(rows: seq<seq<string>>)
    ensures ParseFile(PrintTable(rows)) == Some(Normalised(rows))
    decreases |rows|
  {
    hide ParseRecord, PrintFields, PrintTable;
    if rows == [] {
      NothingPrinted();
    } else {
      TableReadsBack(rows[1..]);
      PrintTableHead(rows);
      if rows[0] == [] {
        EmptyRow(PrintTable(rows[1..]));
      } else {
        RowRoundTrip(rows[0], PrintTable(rows[1..]));
      }
      assert Normalised(rows) == [if rows[0] == [] then [[]] else rows[0]] + Normalised(rows[1..]);
    }
  }

  /** A table is read back unchanged, whatever its fields contain, exactly when every row has a field. */
  lemma TableRoundTrip(rows: seq<seq<string>>)
    ensures ParseFile(PrintTable(rows)) == Some(rows) <==> forall row <- rows :: row != []
  {
    hide ParseFile, PrintTable;
    TableReadsBack(rows);
    NormalisedIsIdentity(rows);
  }

  lemma NormalisedIsIdentity(rows: seq<seq<string>>)
    ensures Normalised(rows) == rows <==> forall row <- rows :: row != []
  {
    if Normalised(rows) == rows {
      forall i | 0 <= i < |rows|
        ensures rows[i] != []
      {
        assert Normalised(rows)[i] == rows[i];
      }
    }
    if forall row <- rows :: row != [] {
      forall i | 0 <= i < |rows|
        ensures Normalised(rows)[i] == rows[i]
      {
        assert rows[i] in rows;
      }
    }
  }
}
