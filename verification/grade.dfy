/** The grade-file loader: `parseGradeCsv` (app.js:379-403) turns the text of
    one grade's CSV file into questions, and `makeId` (app.js:337-342) names a
    question in the set of memorised questions.

    The file's first line is a header and is skipped. Every later line that is
    not blank is split into cells; the first cell is the problem, the second
    the answer, both trimmed, and later cells are ignored. A line yields a
    question when both trimmed cells are non-empty. `encodeURIComponent`, which
    builds the storage key, is a parameter `encode` of every member that needs it. */
module Grade {
  import opened Strings
  import opened Csv
  import opened Problem

  /** The grades the drill offers (app.js:2). */
  const Grades: seq<string> := ["1", "2", "3", "4", "5", "6"]

  /** One question as the drill keeps it: the problem as markup, the expected
      answer, and the key under which it is remembered. */
  datatype Question = Question(promptHtml: string, answer: string, storageKey: string)

  // ---------------------------------------------------------------------
  // Lines

  /** A piece in front of a line feed loses one carriage return, the `\r?`
      of the pattern `/\r?\n/`. */
  function DropReturn(s: string): string
  {
    if |s| > 0 && s[|s| - 1] == '\r' then s[..|s| - 1] else s
  }

  /** Every piece but the last was followed by a line feed. */
  function DropReturns(parts: seq<string>): seq<string>
  {
    if |parts| <= 1 then parts else [DropReturn(parts[0])] + DropReturns(parts[1..])
  }

  lemma {:induction false} DropReturnsShape(parts: seq<string>)
    ensures |DropReturns(parts)| == |parts|
    ensures forall i :: 0 <= i < |parts| ==> DropReturns(parts)[i] <= parts[i]
  {
    if |parts| > 1 {
      DropReturnsShape(parts[1..]);
      var rest := DropReturns(parts[1..]);
      assert DropReturns(parts) == [DropReturn(parts[0])] + rest;
      forall i | 0 <= i < |parts|
        ensures DropReturns(parts)[i] <= parts[i]
      {
        if i > 0 {
          assert DropReturns(parts)[i] == rest[i - 1];
        }
      }
    }
  }

  /** A prefix of a string without `c` has no `c` either. */
  lemma PrefixKeeps(p: string, s: string, c: char)
    requires p <= s && c !in s
    ensures c !in p
  {
  }

  /** `text.split(/\r?\n/)`: one line per line feed plus one, none holding a
      line feed, a carriage return dropped from in front of each line feed. */
  function Lines(text: string): (lines: seq<string>)
    ensures |lines| == Count(text, '\n') + 1
    ensures forall i :: 0 <= i < |lines| ==> '\n' !in lines[i]
  {
    var parts := Split(text, '\n');
    DropReturnsShape(parts);
    assert forall i :: 0 <= i < |parts| ==> DropReturns(parts)[i] <= parts[i] && '\n' !in parts[i];
    forall i | 0 <= i < |parts|
      ensures '\n' !in DropReturns(parts)[i]
    {
      PrefixKeeps(DropReturns(parts)[i], parts[i], '\n');
    }
    DropReturns(parts)
  }

  /** A line without a line feed followed by one starts the lines of the text. */
  lemma FirstLine(first: string, rest: string)
    requires '\n' !in first
    ensures Lines(first + "\n" + rest) == [DropReturn(first)] + Lines(rest)
  {
    SplitAfterPiece(first, rest, '\n');
    var parts := Split(rest, '\n');
    assert ([first] + parts)[1..] == parts;
  }

  /** A file written with CRLF line ends splits into the lines it was written from. */
  lemma {:induction false} LinesOfCrlf(ls: seq<string>)
    requires |ls| >= 1
    requires forall i :: 0 <= i < |ls| ==> '\n' !in ls[i]
    ensures Lines(Join(ls, "\r\n")) == ls
  {
    if |ls| == 1 {
      SplitNoSeparator(ls[0], '\n');
    } else {
      assert [ls[0]] + ls[1..] == ls;
      LinesOfCrlf(ls[1..]);
      CrlfLine(ls[0], Join(ls[1..], "\r\n"));
    }
  }

  /** A line ended by CRLF starts the lines of the text, without its carriage return. */
  lemma CrlfLine(line: string, rest: string)
    requires '\n' !in line
    ensures Lines(line + "\r\n" + rest) == [line] + Lines(rest)
  {
    var first := line + ['\r'];
    assert line + "\r\n" + rest == first + "\n" + rest;
    FirstLine(first, rest);
    assert DropReturn(first) == line;
  }

  /** A file written with LF line ends splits into the lines it was written
      from, as long as no line but the last ends with a carriage return. */
  lemma {:induction false} LinesOfLf(ls: seq<string>)
    requires |ls| >= 1
    requires forall i :: 0 <= i < |ls| ==> '\n' !in ls[i]
    requires forall i :: 0 <= i < |ls| - 1 ==> DropReturn(ls[i]) == ls[i]
    ensures Lines(Join(ls, "\n")) == ls
  {
    if |ls| == 1 {
      SplitNoSeparator(ls[0], '\n');
    } else {
      LinesOfLf(ls[1..]);
      FirstLine(ls[0], Join(ls[1..], "\n"));
      assert [ls[0]] + ls[1..] == ls;
    }
  }

  // ---------------------------------------------------------------------
  // Rows

  /** `encodeStorageKey(problem + "|" + answer)` (app.js:398, app.js:496-498). */
  function StorageKey(problem: string, answer: string, encode: string -> string): string
  {
    encode(problem + "|" + answer)
  }

  /** The question built from a trimmed problem and answer (app.js:395-399). */
  function MakeQuestion(problem: string, answer: string, encode: string -> string): Question
  {
    Question(ProblemHtml(problem), answer, StorageKey(problem, answer, encode))
  }

  /** A problem and its answer as read from one line, before the question is built. */
  datatype Entry = Entry(problem: string, answer: string)

  /** A cell as it reaches a question, trimmed and non-empty: it starts and
      ends with a character that is not whitespace. */
  predicate IsCellText(s: string)
  {
    |s| > 0 && !IsWhitespace(s[0]) && !IsWhitespace(s[|s| - 1])
  }

  /** A cell that trims to something trims to cell text, and cell text is its own trim. */
  lemma TrimmedCell(cell: string)
    requires |Trim(cell)| > 0
    ensures IsCellText(Trim(cell)) && Trim(Trim(cell)) == Trim(cell)
  {
    TrimEndpoints(cell);
    TrimOfTrimmed(Trim(cell));
  }

  /** Both cells of an entry trimmed and non-empty. */
  predicate WellFormedEntry(e: Entry)
  {
    IsCellText(e.problem) && IsCellText(e.answer)
  }

  /** The entry of a problem cell and an answer cell: one when both trim to
      something, none otherwise (app.js:391-393). */
  function CellsEntries(problemCell: string, answerCell: string): (es: seq<Entry>)
    ensures |es| <= 1
    ensures |es| == 1 <==> |Trim(problemCell)| > 0 && |Trim(answerCell)| > 0
    ensures |es| == 1 ==> WellFormedEntry(es[0])
    ensures |es| == 1 ==> es[0] == Entry(Trim(problemCell), Trim(answerCell))
  {
    var problem := Trim(problemCell);
    var answer := Trim(answerCell);
    if |problem| == 0 || |answer| == 0 then []
    else
      TrimmedCell(problemCell);
      TrimmedCell(answerCell);
      [Entry(problem, answer)]
  }

  /** The entries one data line yields (app.js:384-393): none for a blank line
      or a line of fewer than two cells, otherwise those of its first two cells. */
  function RowEntries(line: string): (es: seq<Entry>)
    ensures |es| <= 1
    ensures |es| == 1 ==> WellFormedEntry(es[0])
  {
    if |line| == 0 || |Trim(line)| == 0 then []
    else
      var cells := Fields(line);
      if |cells| < 2 then [] else CellsEntries(cells[0], cells[1])
  }

  /** The entries of consecutive data lines, in line order. */
  function Entries(lines: seq<string>): seq<Entry>
  {
    if |lines| == 0 then [] else RowEntries(lines[0]) + Entries(lines[1..])
  }

  /** Every entry of `es` is well formed. */
  predicate AllWellFormedEntries(es: seq<Entry>)
  {
    forall i :: 0 <= i < |es| ==> WellFormedEntry(es[i])
  }

  lemma WellFormedConcat(a: seq<Entry>, b: seq<Entry>)
    requires AllWellFormedEntries(a) && AllWellFormedEntries(b)
    ensures AllWellFormedEntries(a + b)
  {
    forall i | 0 <= i < |a + b|
      ensures WellFormedEntry((a + b)[i])
    {
      if i >= |a| {
        assert (a + b)[i] == b[i - |a|];
      }
    }
  }

  /** At most one entry per line. */
  lemma {:induction false} EntriesLength(lines: seq<string>)
    ensures |Entries(lines)| <= |lines|
  {
    if |lines| > 0 {
      EntriesLength(lines[1..]);
    }
  }

  /** A line yields only well-formed entries. */
  lemma RowWellFormed(line: string)
    ensures AllWellFormedEntries(RowEntries(line))
  {
  }

  /** Every entry of a run of lines is well formed. */
  lemma {:induction false} EntriesWellFormed(lines: seq<string>)
    ensures AllWellFormedEntries(Entries(lines))
  {
    if |lines| > 0 {
      EntriesWellFormed(lines[1..]);
      RowWellFormed(lines[0]);
      WellFormedConcat(RowEntries(lines[0]), Entries(lines[1..]));
    }
  }

  /** The entries of two runs of lines are those of the first run followed by
      those of the second. */
  lemma {:induction false} EntriesConcat(a: seq<string>, b: seq<string>)
    ensures Entries(a + b) == Entries(a) + Entries(b)
  {
    if |a| == 0 {
      assert a + b == b;
    } else {
      var ab := a + b;
      assert ab[0] == a[0] && ab[1..] == a[1..] + b;
      EntriesConcat(a[1..], b);
      ConcatAssoc(RowEntries(a[0]), Entries(a[1..]), Entries(b));
    }
  }

  /** One more line adds its entries at the end. */
  lemma EntriesStep(lines: seq<string>, index: nat)
    requires 1 <= index < |lines|
    ensures Entries(lines[1..index + 1]) == Entries(lines[1..index]) + RowEntries(lines[index])
  {
    var run := lines[1..index];
    var line := lines[index];
    assert lines[1..index + 1] == run + [line];
    EntriesConcat(run, [line]);
    EntriesOfOne(line);
  }

  /** A single line gives its own entries. */
  lemma EntriesOfOne(line: string)
    ensures Entries([line]) == RowEntries(line)
  {
    assert [line][1..] == [];
    assert RowEntries(line) + [] == RowEntries(line);
  }

  /** The entries of a grade file: none for a text of at most one line,
      otherwise those of every line after the first (app.js:380-401). */
  function GradeEntries(text: string): (es: seq<Entry>)
    ensures '\n' !in text ==> es == []
    ensures |es| <= Count(text, '\n')
    ensures AllWellFormedEntries(es)
  {
    var lines := Lines(text);
    if |lines| <= 1 then []
    else
      EntriesLength(lines[1..]);
      EntriesWellFormed(lines[1..]);
      Entries(lines[1..])
  }

  /** The questions the entries stand for, in order. */
  function Questions(entries: seq<Entry>, encode: string -> string): seq<Question>
  {
    if |entries| == 0 then []
    else [MakeQuestion(entries[0].problem, entries[0].answer, encode)] + Questions(entries[1..], encode)
  }

  /** One question per entry, each built from its entry. */
  lemma {:induction false} QuestionsShape(entries: seq<Entry>, encode: string -> string)
    ensures |Questions(entries, encode)| == |entries|
    ensures forall i :: 0 <= i < |entries| ==>
      Questions(entries, encode)[i] == MakeQuestion(entries[i].problem, entries[i].answer, encode)
  {
    if |entries| > 0 {
      QuestionsShape(entries[1..], encode);
    }
  }

  /** `parseGradeCsv(csvText)` (app.js:379-403): the question of each entry of
      the file, in line order. Each question's answer and the problem its
      markup and key are built from are trimmed and non-empty, and there is at
      most one question per line after the first. */
  function ParseGradeCsv(text: string, encode: string -> string): (items: seq<Question>)
    ensures |items| == |GradeEntries(text)|
    ensures forall i :: 0 <= i < |items| ==>
      items[i] == MakeQuestion(GradeEntries(text)[i].problem, GradeEntries(text)[i].answer, encode)
  {
    QuestionsShape(GradeEntries(text), encode);
    Questions(GradeEntries(text), encode)
  }

  /** Cell text is non-empty and its own trim. */
  lemma CellTextTrimmed(s: string)
    requires IsCellText(s)
    ensures |s| > 0 && Trim(s) == s
  {
    TrimOfTrimmed(s);
  }

  /** Every answer `parseGradeCsv` returns is trimmed and non-empty, and there
      are no answers at all for a text of one line (app.js:381, 392-393). */
  lemma TrimmedAnswers(text: string, encode: string -> string)
    ensures '\n' !in text ==> |ParseGradeCsv(text, encode)| == 0
    ensures |ParseGradeCsv(text, encode)| <= Count(text, '\n')
    ensures forall i :: 0 <= i < |ParseGradeCsv(text, encode)| ==>
      |ParseGradeCsv(text, encode)[i].answer| > 0
      && Trim(ParseGradeCsv(text, encode)[i].answer) == ParseGradeCsv(text, encode)[i].answer
  {
    var items := ParseGradeCsv(text, encode);
    var es := GradeEntries(text);
    forall i | 0 <= i < |items|
      ensures |items[i].answer| > 0 && Trim(items[i].answer) == items[i].answer
    {
      assert WellFormedEntry(es[i]);
      assert items[i].answer == es[i].answer;
      CellTextTrimmed(es[i].answer);
    }
  }

  /** Every question `parseGradeCsv` returns has the markup and key of a
      trimmed, non-empty problem (app.js:391-398). */
  lemma TrimmedProblems(text: string, encode: string -> string, i: nat)
    requires i < |ParseGradeCsv(text, encode)|
    ensures var problem := GradeEntries(text)[i].problem;
      var q := ParseGradeCsv(text, encode)[i];
      |problem| > 0 && Trim(problem) == problem
      && q.promptHtml == ProblemHtml(problem) && q.storageKey == StorageKey(problem, q.answer, encode)
  {
    var e := GradeEntries(text)[i];
    assert WellFormedEntry(e);
    CellTextTrimmed(e.problem);
  }

  /** The body of the loop of `parseGradeCsv` for one line (app.js:385-399),
      each `continue` an early return with nothing. */
  method ReadRow(line: string, encode: string -> string) returns (row: seq<Question>)
    ensures row == Questions(RowEntries(line), encode)
  {
    if |line| == 0 || |Trim(line)| == 0 {
      return [];
    }
    var cells := SplitCsvLine(line);
    if |cells| < 2 {
      return [];
    }
    var problem := Trim(cells[0]);
    var answer := Trim(cells[1]);
    if |problem| == 0 || |answer| == 0 {
      return [];
    }
    var promptHtml := ConvertProblemToHtml(problem);
    row := [Question(promptHtml, answer, StorageKey(problem, answer, encode))];
    assert RowEntries(line) == [Entry(problem, answer)];
    QuestionOfEntry(Entry(problem, answer), encode);
  }

  /** One entry makes one question. */
  lemma QuestionOfEntry(e: Entry, encode: string -> string)
    ensures Questions([e], encode) == [MakeQuestion(e.problem, e.answer, encode)]
  {
    assert [e][1..] == [];
  }

  /** Building questions commutes with concatenating entries. */
  lemma {:induction false} QuestionsConcat(a: seq<Entry>, b: seq<Entry>, encode: string -> string)
    ensures Questions(a + b, encode) == Questions(a, encode) + Questions(b, encode)
  {
    if |a| == 0 {
      assert a + b == b;
    } else {
      assert (a + b)[1..] == a[1..] + b;
      QuestionsConcat(a[1..], b, encode);
    }
  }

  /** The questions of a file in terms of its lines: none for at most one
      line, otherwise those of the lines after the first. */
  lemma QuestionsOfLines(text: string, encode: string -> string)
    ensures |Lines(text)| <= 1 ==> ParseGradeCsv(text, encode) == []
    ensures |Lines(text)| > 1 ==> ParseGradeCsv(text, encode) == Questions(Entries(Lines(text)[1..]), encode)
  {
  }

  /** One more line adds its questions at the end. */
  lemma QuestionsStep(lines: seq<string>, index: nat, encode: string -> string)
    requires 1 <= index < |lines|
    ensures Questions(Entries(lines[1..index + 1]), encode)
         == Questions(Entries(lines[1..index]), encode) + Questions(RowEntries(lines[index]), encode)
  {
    EntriesStep(lines, index);
    QuestionsConcat(Entries(lines[1..index]), RowEntries(lines[index]), encode);
  }

  /** The loop of `parseGradeCsv` over the lines after the header (app.js:383-400). */
  method ReadRows(lines: seq<string>, encode: string -> string) returns (items: seq<Question>)
    requires |lines| >= 1
    ensures items == Questions(Entries(lines[1..]), encode)
  {
    items := [];
    var index := 1;
    while index < |lines|
      invariant 1 <= index <= |lines|
      invariant items == Questions(Entries(lines[1..index]), encode)
    {
      var row := ReadRow(lines[index], encode);
      QuestionsStep(lines, index, encode);
      items := items + row;
      index := index + 1;
    }
    assert lines[1..index] == lines[1..];
  }

  /** `parseGradeCsv` as written (app.js:379-403). */
  method ParseGradeCsvLines(csvText: string, encode: string -> string) returns (items: seq<Question>)
    ensures items == ParseGradeCsv(csvText, encode)
  {
    QuestionsOfLines(csvText, encode);
    var lines := Lines(csvText);
    if |lines| <= 1 {
      return [];
    }
    items := ReadRows(lines, encode);
  }

  // ---------------------------------------------------------------------
  // Properties of the loader

  /** The header line never contributes, whatever it holds. */
  lemma HeaderIgnored(header: string, body: string)
    requires '\n' !in header
    ensures GradeEntries(header + "\n" + body) == Entries(Lines(body))
  {
    FirstLine(header, body);
    assert ([DropReturn(header)] + Lines(body))[1..] == Lines(body);
  }

  /** Two files that differ only in their header give the same questions. */
  lemma AnyHeader(h1: string, h2: string, body: string, encode: string -> string)
    requires '\n' !in h1 && '\n' !in h2
    ensures ParseGradeCsv(h1 + "\n" + body, encode) == ParseGradeCsv(h2 + "\n" + body, encode)
  {
    HeaderIgnored(h1, body);
    HeaderIgnored(h2, body);
  }

  /** A data line without quotes or commas is one cell and yields nothing. */
  lemma OneCellSkipped(line: string)
    requires Quote !in line && Comma !in line
    ensures RowEntries(line) == []
  {
    FieldsWithoutQuotes(line);
  }

  /** A quoted line whose first character is `"` is never blank. */
  lemma QuotedNotBlank(cells: seq<string>)
    requires |cells| >= 1
    ensures |Trim(JoinQuoted(cells))| > 0
  {
    var line := JoinQuoted(cells);
    JoinQuotedStarts(cells);
    TrimEmpty(line);
    assert !IsWhitespace(line[0]);
  }

  /** A line written with its cells quoted yields the entry of its first two
      cells; cells beyond the second are ignored. */
  lemma QuotedRow(cells: seq<string>)
    requires |cells| >= 2
    ensures RowEntries(JoinQuoted(cells)) == CellsEntries(cells[0], cells[1])
  {
    QuotedRoundTrip(cells);
    QuotedNotBlank(cells);
  }

  /** A line gives the entry of its first two fields, or nothing when it has
      fewer than two. The blank-line test (app.js:386) never decides on its
      own: a blank line has no quote or comma, so it is a single field. */
  lemma RowOfFields(line: string)
    ensures RowEntries(line) == if |Fields(line)| >= 2 then CellsEntries(Fields(line)[0], Fields(line)[1]) else []
  {
    if |line| == 0 || |Trim(line)| == 0 {
      TrimEmpty(line);
      assert Quote !in line && Comma !in line by {
        assert forall k :: 0 <= k < |line| ==> IsWhitespace(line[k]);
        assert !IsWhitespace(Quote) && !IsWhitespace(Comma);
      }
      FieldsWithoutQuotes(line);
      assert Count(line, Comma) == 0;
    }
  }

  /** Cells after the answer change nothing: two lines whose first two fields
      agree give the same entries, whatever follows. */
  lemma ExtraCellsIgnored(line1: string, line2: string)
    requires |Fields(line1)| >= 2 && |Fields(line2)| >= 2
    requires Fields(line1)[0] == Fields(line2)[0] && Fields(line1)[1] == Fields(line2)[1]
    ensures RowEntries(line1) == RowEntries(line2)
  {
    RowOfFields(line1);
    RowOfFields(line2);
  }

  /** An unquoted line `problem,answer,extra` gives the entry of `problem,answer`. */
  lemma PlainExtraCellsIgnored(problemCell: string, answerCell: string, extra: string)
    requires Quote !in problemCell && Quote !in answerCell && Quote !in extra
    requires Comma !in problemCell && Comma !in answerCell
    ensures RowEntries(problemCell + [Comma] + answerCell + [Comma] + extra)
         == RowEntries(problemCell + [Comma] + answerCell)
  {
    var long := problemCell + [Comma] + answerCell + [Comma] + extra;
    var short := problemCell + [Comma] + answerCell;
    assert long == problemCell + [Comma] + (answerCell + [Comma] + extra);
    FieldsWithoutQuotes(long);
    FieldsWithoutQuotes(short);
    SplitAfterPiece(problemCell, answerCell + [Comma] + extra, Comma);
    SplitAfterPiece(answerCell, extra, Comma);
    SplitAfterPiece(problemCell, answerCell, Comma);
    SplitNoSeparator(answerCell, Comma);
    ExtraCellsIgnored(long, short);
  }

  /** A quoted record with extra cells gives the entry of its first two cells. */
  lemma ExtraQuotedCellsIgnored(problemCell: string, answerCell: string, extra: seq<string>)
    ensures RowEntries(JoinQuoted([problemCell, answerCell] + extra))
         == RowEntries(JoinQuoted([problemCell, answerCell]))
  {
    QuotedRow([problemCell, answerCell] + extra);
    QuotedRow([problemCell, answerCell]);
  }

  // ---------------------------------------------------------------------
  // Round trip with a file writer

  /** The entries a grade file can hold: both cells trimmed, non-empty and on one line. */
  predicate Writable(e: Entry)
  {
    WellFormedEntry(e) && '\n' !in e.problem && '\n' !in e.answer
  }

  /** Each entry written as one quoted record. */
  function Records(entries: seq<Entry>): (records: seq<string>)
    ensures |records| == |entries|
  {
    if |entries| == 0 then []
    else [JoinQuoted([entries[0].problem, entries[0].answer])] + Records(entries[1..])
  }

  /** A grade file: the header, then one record per entry, CRLF line ends. */
  function GradeFile(header: string, entries: seq<Entry>): string
  {
    Join([header] + Records(entries), "\r\n")
  }

  /** No record of writable entries holds a line feed. */
  lemma {:induction false} RecordsOneLine(entries: seq<Entry>)
    requires forall i :: 0 <= i < |entries| ==> Writable(entries[i])
    ensures forall i :: 0 <= i < |Records(entries)| ==> '\n' !in Records(entries)[i]
  {
    if |entries| > 0 {
      var e := entries[0];
      assert Writable(e);
      JoinQuotedKeeps([e.problem, e.answer], '\n');
      RecordsOneLine(entries[1..]);
      assert Records(entries) == [JoinQuoted([e.problem, e.answer])] + Records(entries[1..]);
    }
  }

  /** The record of a writable entry reads back as that entry. */
  lemma RecordEntry(e: Entry)
    requires WellFormedEntry(e)
    ensures RowEntries(JoinQuoted([e.problem, e.answer])) == [e]
  {
    QuotedRow([e.problem, e.answer]);
  }

  /** The records of writable entries read back as the entries. */
  lemma {:induction false} EntriesOfRecords(entries: seq<Entry>)
    requires forall i :: 0 <= i < |entries| ==> Writable(entries[i])
    ensures Entries(Records(entries)) == entries
  {
    if |entries| > 0 {
      assert [entries[0]] + entries[1..] == entries;
      var e := entries[0];
      assert Writable(e);
      var records := Records(entries);
      assert records[0] == JoinQuoted([e.problem, e.answer]) && records[1..] == Records(entries[1..]);
      EntriesOfRecords(entries[1..]);
      RecordEntry(e);
    }
  }

  /** Reading back a grade file gives the entries it was written from. */
  lemma FileEntries(header: string, entries: seq<Entry>)
    requires '\n' !in header
    requires forall i :: 0 <= i < |entries| ==> Writable(entries[i])
    ensures GradeEntries(GradeFile(header, entries)) == entries
  {
    var records := Records(entries);
    var ls := [header] + records;
    assert ls[0] == header && ls[1..] == records;
    RecordsOneLine(entries);
    assert forall i :: 0 <= i < |ls| ==> '\n' !in ls[i] by {
      forall i | 0 <= i < |ls|
        ensures '\n' !in ls[i]
      {
        if i > 0 {
          assert ls[i] == records[i - 1];
        }
      }
    }
    LinesOfCrlf(ls);
    EntriesOfRecords(entries);
  }

  /** Reading back a grade file gives the questions of the entries it was written from. */
  lemma FileRoundTrip(header: string, entries: seq<Entry>, encode: string -> string)
    requires '\n' !in header
    requires forall i :: 0 <= i < |entries| ==> Writable(entries[i])
    ensures ParseGradeCsv(GradeFile(header, entries), encode) == Questions(entries, encode)
  {
    FileEntries(header, entries);
  }

  // ---------------------------------------------------------------------
  // Storage keys and ids

  /** With an injective encoder, problems without `|` keep apart the keys of
      different rows. */
  lemma KeyInjective(p1: string, a1: string, p2: string, a2: string, encode: string -> string)
    requires forall x, y :: encode(x) == encode(y) ==> x == y
    requires '|' !in p1 && '|' !in p2
    requires StorageKey(p1, a1, encode) == StorageKey(p2, a2, encode)
    ensures p1 == p2 && a1 == a2
  {
    SeparatedPairs(p1, a1, p2, a2, '|');
  }

  /** A `|` inside a problem lets two different rows share a key, whatever the encoder. */
  lemma KeyCollision(encode: string -> string)
    ensures StorageKey("a|b", "c", encode) == StorageKey("a", "b|c", encode)
  {
    assert "a|b" + "|" + "c" == "a" + "|" + "b|c";
  }

  /** An item as `makeId` sees it: a question with its storage key, or an
      older record holding a kanji and its reading. Missing properties are `None`. */
  datatype Item = Item(storageKey: Option<string>, kanji: Option<string>, reading: Option<string>)

  /** `value ?? ""`. */
  function OrEmpty(v: Option<string>): string
  {
    if v.Some? then v.value else []
  }

  /** The key of an item: its storage key when present, even when empty, else
      the encoded kanji and reading (app.js:338-340). */
  function BaseKey(item: Item, encode: string -> string): string
  {
    if item.storageKey.Some? then item.storageKey.value
    else encode(OrEmpty(item.kanji) + "|" + OrEmpty(item.reading))
  }

  /** `makeId(grade, item)` (app.js:337-342): the grade, a dash, then the key. */
  function MakeId(grade: string, item: Item, encode: string -> string): (id: string)
    ensures |id| == |grade| + 1 + |BaseKey(item, encode)|
    ensures id[..|grade|] == grade && id[|grade|] == '-'
    ensures id[|grade| + 1..] == BaseKey(item, encode)
  {
    grade + "-" + BaseKey(item, encode)
  }

  /** The item a parsed question is stored as. */
  function ItemOf(q: Question): Item
  {
    Item(Some(q.storageKey), None, None)
  }

  /** The id of a question read from a file is the grade, a dash and the
      encoded `problem|answer`. */
  lemma IdOfQuestion(grade: string, problem: string, answer: string, encode: string -> string)
    ensures MakeId(grade, ItemOf(MakeQuestion(problem, answer, encode)), encode)
         == grade + "-" + encode(problem + "|" + answer)
  {
  }

  /** `??` keeps an empty storage key: the id is then the grade and a dash. */
  lemma EmptyKeyKept(grade: string, kanji: Option<string>, reading: Option<string>, encode: string -> string)
    ensures MakeId(grade, Item(Some([]), kanji, reading), encode) == grade + "-"
  {
  }

  /** An item with neither a storage key nor a kanji nor a reading gets the
      encoded `|`. */
  lemma BareItem(grade: string, encode: string -> string)
    ensures MakeId(grade, Item(None, None, None), encode) == grade + "-" + encode("|")
  {
    assert OrEmpty(None) + "|" + OrEmpty(None) == "|";
  }

  /** No grade name holds a dash. */
  lemma GradesWithoutDash()
    ensures forall i :: 0 <= i < |Grades| ==> '-' !in Grades[i]
  {
  }

  /** Ids of grades without a dash determine the grade and the key: items of
      different grades never share an id. */
  lemma IdInjective(g1: string, i1: Item, g2: string, i2: Item, encode: string -> string)
    requires '-' !in g1 && '-' !in g2
    requires MakeId(g1, i1, encode) == MakeId(g2, i2, encode)
    ensures g1 == g2 && BaseKey(i1, encode) == BaseKey(i2, encode)
  {
    SeparatedPairs(g1, BaseKey(i1, encode), g2, BaseKey(i2, encode), '-');
  }

  /** Two questions of the drill's grades share an id only within one grade. */
  lemma GradeIdsApart(i: nat, j: nat, q1: Question, q2: Question, encode: string -> string)
    requires i < |Grades| && j < |Grades| && i != j
    ensures MakeId(Grades[i], ItemOf(q1), encode) != MakeId(Grades[j], ItemOf(q2), encode)
  {
    GradesWithoutDash();
    assert Grades[i] != Grades[j];
    if MakeId(Grades[i], ItemOf(q1), encode) == MakeId(Grades[j], ItemOf(q2), encode) {
      IdInjective(Grades[i], ItemOf(q1), Grades[j], ItemOf(q2), encode);
      assert false;
    }
  }
}
