/**
 * The CSV text of a sheet: the writer of the archive export and a record reader for RFC 4180
 * text.
 *
 * The writer follows section 2 of RFC 4180, rules 6 and 7: a field that contains a comma, a
 * double quote or a line feed is enclosed in double quotes, and a double quote inside it is
 * written twice. Each line ends with a line feed, as `PrintWriter.println` writes it on a
 * platform whose line separator is "\n".
 *
 * The reader takes one record per line. Outside double quotes a line ends at "\n", at "\r\n" or
 * at a lone "\r", as a line reader splits text; inside double quotes every character is taken as
 * it is and "" stands for one double quote.
 */
module Csv {

  // ---------------------------------------------------------------- writing

  /** writeSheetToCsv's test: the field contains ',', '"' or '\n'. A lone '\r' does not count. */
  predicate NeedsQuoting(v: string)
  {
    ',' in v || '"' in v || '\n' in v
  }

  /** `value.replace("\"", "\"\"")`: every double quote twice. */
  function DoubleQuotes(v: string): string
  {
    if v == [] then []
    else (if v[0] == '"' then "\"\"" else [v[0]]) + DoubleQuotes(v[1..])
  }

  /** A field as the writer emits it: quoted when it needs quoting, as it is otherwise. */
  function QuoteField(v: string): (r: string)
    ensures !NeedsQuoting(v) ==> r == v
    ensures NeedsQuoting(v) ==> |r| >= 2 && r[0] == '"' && r[|r| - 1] == '"'
  {
    if NeedsQuoting(v) then "\"" + DoubleQuotes(v) + "\"" else v
  }

  /** Fields separated by ','. */
  function JoinFields(fs: seq<string>): string
  {
    if fs == [] then ""
    else if |fs| == 1 then fs[0]
    else fs[0] + "," + JoinFields(fs[1..])
  }

  /** Every field quoted as needed. */
  function QuoteAll(values: seq<string>): (r: seq<string>)
    ensures |r| == |values|
    ensures forall i :: 0 <= i < |values| ==> r[i] == QuoteField(values[i])
  {
    seq(|values|, i requires 0 <= i < |values| => QuoteField(values[i]))
  }

  /** One line of the CSV: the fields quoted and joined, without its line end. */
  function FormatLine(values: seq<string>): string
  {
    JoinFields(QuoteAll(values))
  }

  /** The whole text: each line followed by "\n". */
  function FormatLines(lines: seq<seq<string>>): string
  {
    if lines == [] then ""
    else FormatLine(lines[0]) + "\n" + FormatLines(lines[1..])
  }

  /** Appending one field to a joined line, as the writer's inner loop does. */
  lemma {:induction false} JoinFieldsSnoc(fs: seq<string>, f: string)
    ensures JoinFields(fs + [f]) == if fs == [] then f else JoinFields(fs) + "," + f
    decreases |fs|
  {
    if |fs| > 1 {
      assert (fs + [f])[1..] == fs[1..] + [f];
      JoinFieldsSnoc(fs[1..], f);
    } else if |fs| == 1 {
      assert (fs + [f])[1..] == [f];
    }
  }

  /** Appending one line to the text, as the writer's outer loop does. */
  lemma {:induction false} FormatLinesSnoc(lines: seq<seq<string>>, line: seq<string>)
    ensures FormatLines(lines + [line]) == FormatLines(lines) + FormatLine(line) + "\n"
    decreases |lines|
  {
    if lines == [] {
      assert FormatLines([line][1..]) == "";
    } else {
      assert (lines + [line])[1..] == lines[1..] + [line];
      FormatLinesSnoc(lines[1..], line);
    }
  }

  /** A prefix one element longer is the prefix and that element. */
  lemma PrefixSnoc<T>(s: seq<T>, i: nat)
    requires i < |s|
    ensures s[..i + 1] == s[..i] + [s[i]]
  {
  }

  // ---------------------------------------------------------------- reading

  /** The characters that end an unquoted field. */
  predicate IsDelimiter(c: char)
  {
    c == ',' || c == '\n' || c == '\r'
  }

  /** An unquoted field: everything up to the next delimiter. */
  function ReadUnquoted(s: string): (r: (string, string))
    ensures r.0 + r.1 == s
    ensures forall i :: 0 <= i < |r.0| ==> !IsDelimiter(r.0[i])
    ensures r.1 == [] || IsDelimiter(r.1[0])
  {
    if s == [] || IsDelimiter(s[0]) then ([], s)
    else
      var rest := ReadUnquoted(s[1..]);
      var field := [s[0]] + rest.0;
      assert s == [s[0]] + s[1..];
      assert forall i :: 0 < i < |field| ==> field[i] == rest.0[i - 1];
      (field, rest.1)
  }

  /**
   * The inside of a quoted field, after its opening quote: up to the closing quote, with ""
   * read as one '"'. Unterminated text is read to its end.
   */
  function ReadQuoted(s: string): (r: (string, string))
    ensures |r.1| <= |s|
  {
    if s == [] then ([], [])
    else if s[0] == '"' then
      if |s| > 1 && s[1] == '"' then
        var rest := ReadQuoted(s[2..]);
        (['"'] + rest.0, rest.1)
      else ([], s[1..])
    else
      var rest := ReadQuoted(s[1..]);
      ([s[0]] + rest.0, rest.1)
  }

  /** One field. Text after a closing quote, up to the next delimiter, is kept. */
  function ReadField(s: string): (r: (string, string))
    ensures |r.1| <= |s|
    ensures r.1 == [] || IsDelimiter(r.1[0])
  {
    if s != [] && s[0] == '"' then
      var q := ReadQuoted(s[1..]);
      var u := ReadUnquoted(q.1);
      (q.0 + u.0, u.1)
    else ReadUnquoted(s)
  }

  /** One record: fields up to the end of the line, and the text after that line end. */
  function ReadRecord(s: string): (r: (seq<string>, string))
    ensures |r.0| >= 1
    ensures s != [] ==> |r.1| < |s|
    decreases |s|
  {
    var f := ReadField(s);
    var rest := f.1;
    if rest == [] then ([f.0], [])
    else if rest[0] == ',' then
      var more := ReadRecord(rest[1..]);
      ([f.0] + more.0, more.1)
    else if rest[0] == '\r' && |rest| > 1 && rest[1] == '\n' then ([f.0], rest[2..])
    else ([f.0], rest[1..])
  }

  /** CSVReader.readNext until the end: every record of the text, in order. */
  function Parse(s: string): (records: seq<seq<string>>)
    decreases |s|
  {
    if s == [] then []
    else
      var r := ReadRecord(s);
      [r.0] + Parse(r.1)
  }

  // ---------------------------------------------------------------- reading what was written

  /** A field the reader gets back: the writer quotes it, or it has no '\r'. */
  predicate Recoverable(v: string)
  {
    NeedsQuoting(v) || '\r' !in v
  }

  /** "" inside a quoted field reads as one '"'. */
  lemma ReadQuotedEscape(t: string)
    ensures ReadQuoted("\"\"" + t) == (['"'] + ReadQuoted(t).0, ReadQuoted(t).1)
  {
    assert ("\"\"" + t)[2..] == t;
  }

  /** Any other character inside a quoted field reads as itself. */
  lemma ReadQuotedChar(c: char, t: string)
    requires c != '"'
    ensures ReadQuoted([c] + t) == ([c] + ReadQuoted(t).0, ReadQuoted(t).1)
  {
    assert ([c] + t)[1..] == t;
  }

  /** A doubled-quote body followed by the closing quote reads back as the original value. */
  lemma {:induction false} ReadQuotedBack(v: string, rest: string)
    requires rest == [] || rest[0] != '"'
    ensures ReadQuoted(DoubleQuotes(v) + "\"" + rest) == (v, rest)
    decreases |v|
  {
    var s := DoubleQuotes(v) + "\"" + rest;
    if v == [] {
      assert s == "\"" + rest;
      assert s[1..] == rest;
    } else {
      var tail := DoubleQuotes(v[1..]) + "\"" + rest;
      ReadQuotedBack(v[1..], rest);
      assert v == [v[0]] + v[1..];
      if v[0] == '"' {
        assert s == "\"\"" + tail by {
          assert DoubleQuotes(v) == "\"\"" + DoubleQuotes(v[1..]);
        }
        ReadQuotedEscape(tail);
      } else {
        assert s == [v[0]] + tail by {
          assert DoubleQuotes(v) == [v[0]] + DoubleQuotes(v[1..]);
        }
        ReadQuotedChar(v[0], tail);
      }
    }
  }

  /** The reader reads a delimiter-free value up to the delimiter that follows it. */
  lemma {:induction false} ReadUnquotedBack(v: string, rest: string)
    requires forall i :: 0 <= i < |v| ==> !IsDelimiter(v[i])
    requires rest == [] || IsDelimiter(rest[0])
    ensures ReadUnquoted(v + rest) == (v, rest)
    decreases |v|
  {
    if v == [] {
      assert v + rest == rest;
    } else {
      assert (v + rest)[1..] == v[1..] + rest;
      ReadUnquotedBack(v[1..], rest);
      assert v == [v[0]] + v[1..];
    }
  }

  /** A quoted field followed by a delimiter reads back as its value. */
  lemma ReadFieldQuoted(v: string, rest: string)
    requires rest != [] && (rest[0] == ',' || rest[0] == '\n')
    ensures ReadField("\"" + DoubleQuotes(v) + "\"" + rest) == (v, rest)
  {
    var s := "\"" + DoubleQuotes(v) + "\"" + rest;
    assert s[1..] == DoubleQuotes(v) + "\"" + rest;
    ReadQuotedBack(v, rest);
    ReadUnquotedBack([], rest);
    assert [] + rest == rest;
    assert v + [] == v;
  }

  /** A field with no delimiter and no '"' followed by a delimiter reads back as itself. */
  lemma ReadFieldPlain(v: string, rest: string)
    requires '"' !in v && ',' !in v && '\n' !in v && '\r' !in v
    requires rest != [] && (rest[0] == ',' || rest[0] == '\n')
    ensures ReadField(v + rest) == (v, rest)
  {
    forall i | 0 <= i < |v|
      ensures !IsDelimiter(v[i])
    {
      assert v[i] in v;
    }
    ReadUnquotedBack(v, rest);
    if v != [] {
      assert v[0] in v;
    }
  }

  /** A written field followed by ',' or '\n' reads back as its value. */
  lemma ReadFieldBack(v: string, rest: string)
    requires Recoverable(v)
    requires rest != [] && (rest[0] == ',' || rest[0] == '\n')
    ensures ReadField(QuoteField(v) + rest) == (v, rest)
  {
    if NeedsQuoting(v) {
      ReadFieldQuoted(v, rest);
    } else {
      ReadFieldPlain(v, rest);
    }
  }

  /** A line of one field is that field, quoted as needed. */
  lemma FormatLineSingle(v: string)
    ensures FormatLine([v]) == QuoteField(v)
  {
  }

  /** A line of several fields is its first field, a ',' and the line of the rest. */
  lemma FormatLineCons(values: seq<string>)
    requires |values| > 1
    ensures FormatLine(values) == QuoteField(values[0]) + "," + FormatLine(values[1..])
  {
    assert QuoteAll(values)[1..] == QuoteAll(values[1..]);
  }

  /** A field followed by ',' continues the record. */
  lemma ReadRecordComma(s: string, v: string, after: string)
    requires ReadField(s) == (v, "," + after)
    ensures ReadRecord(s) == ([v] + ReadRecord(after).0, ReadRecord(after).1)
  {
    assert ("," + after)[1..] == after;
  }

  /** A field followed by '\n' ends the record. */
  lemma ReadRecordNewline(s: string, v: string, after: string)
    requires ReadField(s) == (v, "\n" + after)
    ensures ReadRecord(s) == ([v], after)
  {
    assert ("\n" + after)[1..] == after;
  }

  /** A one-field line followed by "\n" reads back as that field. */
  lemma ReadRecordBackOne(v: string, rest: string)
    requires Recoverable(v)
    ensures ReadRecord(FormatLine([v]) + "\n" + rest) == ([v], rest)
  {
    var s := FormatLine([v]) + "\n" + rest;
    FormatLineSingle(v);
    assert s == QuoteField(v) + ("\n" + rest);
    ReadFieldBack(v, "\n" + rest);
    ReadRecordNewline(s, v, rest);
  }

  /** A line whose first field reads back, then a ',' and a line that reads back, reads back. */
  lemma ReadRecordBackCons(values: seq<string>, rest: string)
    requires |values| > 1 && Recoverable(values[0])
    requires ReadRecord(FormatLine(values[1..]) + "\n" + rest) == (values[1..], rest)
    ensures ReadRecord(FormatLine(values) + "\n" + rest) == (values, rest)
  {
    var s := FormatLine(values) + "\n" + rest;
    FormatLineCons(values);
    var after := FormatLine(values[1..]) + "\n" + rest;
    Regroup(QuoteField(values[0]), ",", FormatLine(values[1..]), "\n", rest);
    ReadFieldBack(values[0], "," + after);
    ReadRecordComma(s, values[0], after);
    assert values == [values[0]] + values[1..];
  }

  /** Concatenation regrouped to put the first piece apart. */
  lemma Regroup<T>(a: seq<T>, b: seq<T>, c: seq<T>, d: seq<T>, e: seq<T>)
    ensures a + b + c + d + e == a + (b + (c + d + e))
  {
  }

  /** A written line followed by "\n" reads back as its fields. */
  lemma {:induction false} ReadRecordBack(values: seq<string>, rest: string)
    requires values != []
    requires forall i :: 0 <= i < |values| ==> Recoverable(values[i])
    ensures ReadRecord(FormatLine(values) + "\n" + rest) == (values, rest)
    decreases |values|
  {
    if |values| == 1 {
      ReadRecordBackOne(values[0], rest);
      assert values == [values[0]];
    } else {
      assert forall i :: 0 <= i < |values| - 1 ==> values[1..][i] == values[i + 1];
      ReadRecordBack(values[1..], rest);
      ReadRecordBackCons(values, rest);
    }
  }

  /** Text made of written lines, none of them empty of fields, reads back as those lines. */
  lemma {:induction false} ParseFormatLines(lines: seq<seq<string>>)
    requires forall k :: 0 <= k < |lines| ==> lines[k] != []
    requires forall k, i :: 0 <= k < |lines| && 0 <= i < |lines[k]| ==> Recoverable(lines[k][i])
    ensures Parse(FormatLines(lines)) == lines
    decreases |lines|
  {
    if lines != [] {
      var rest := FormatLines(lines[1..]);
      ReadRecordBack(lines[0], rest);
      ParseFormatLines(lines[1..]);
      assert lines == [lines[0]] + lines[1..];
    }
  }

  /** Without quoting, a '\r' inside a value ends the line early: "a\rb" reads back as two records. */
  lemma CarriageReturnSplitsRecord()
    ensures FormatLines([["a\rb"]]) == "a\rb\n"
    ensures Parse(FormatLines([["a\rb"]])) == [["a"], ["b"]]
  {
    CarriageReturnIsWrittenPlain();
    CarriageReturnEndsRecord();
    LastRecord();
  }

  /** "a\rb" needs no quotes, so it is written as it is. */
  lemma CarriageReturnIsWrittenPlain()
    ensures FormatLines([["a\rb"]]) == "a\rb\n"
  {
    assert !NeedsQuoting("a\rb");
    assert QuoteAll(["a\rb"]) == ["a\rb"];
    assert FormatLine(["a\rb"]) == "a\rb";
  }

  /** The reader ends the first record at the '\r'. */
  lemma CarriageReturnEndsRecord()
    ensures ReadRecord("a\rb\n") == (["a"], "b\n")
  {
    var s := "a\rb\n";
    assert ReadUnquoted(s) == ("a", "\rb\n") by {
      ReadUnquotedBack("a", "\rb\n");
      assert "a" + "\rb\n" == s;
    }
  }

  /** "b\n" is one last record. */
  lemma LastRecord()
    ensures ReadRecord("b\n") == (["b"], "")
  {
    assert ReadUnquoted("b\n") == ("b", "\n") by {
      ReadUnquotedBack("b", "\n");
      assert "b" + "\n" == "b\n";
    }
  }
}
