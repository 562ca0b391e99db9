# Kanji drill: text pipeline model

A Dafny model of the text pipeline of the kanji reading drill (`app.js`). The
pipeline turns the text of one grade's CSV file into questions, and turns each
problem string into markup. It has five parts:

- `splitCsvLine` splits one line into fields. It is a quote-aware state machine
  with one flag, `inQuotes`.
- `parseGradeCsv` splits the file into lines and drops the header line. Each
  line with a non-blank problem cell and a non-blank answer cell becomes a
  question `{promptHtml, answer, storageKey}`.
- `convertProblemToHtml` scans a problem for `<reading>` annotations. The text
  in front of each annotation is cut at its first `□` into a plain prefix and a
  ruby base.
- `escapeHtml` and `renderTextWithSquares` escape the five markup-special
  characters and replace each `□` with a placeholder `<span>`.
- `makeId` names a question `grade-key`. `encodeStorageKey` builds that key.

Modules follow the program's parts:

- `Strings` holds the JavaScript string operations the pipeline uses: `indexOf`,
  `split` on one character and `trim`, with `Join` as the inverse of `split`.
- `Html` holds escaping and placeholder rendering, with a decoder as their inverse.
- `Csv` holds the line splitter and an RFC 4180 record writer as its inverse.
- `Problem` holds the annotation scanner. It reads a problem into segments and
  writes them as markup.
- `Grade` holds the file loader, the question builder and the ids.

Each scanner loop of the source is also written out as a `method` with the
source's own variables. Each method is proved equal to the functional model.

`encodeURIComponent` is a parameter `encode: string -> string` of every member
that builds a key. Properties that need it to be injective say so in their `requires`.

The annotation rule follows the code. `basePart` starts out as the whole text in
front of the `<`. So text with no `□` in front of a reading still becomes a ruby
base: `abc<reading>` renders as `<ruby>abc<rt>reading</rt></ruby>`. The
full-width parentheses `（reading）` appear only when nothing stands in front of
the `<`. See `Problem.RubyOverText` and `Problem.ReadingWithoutBase`.

## Model

| member | source | states |
|---|---|---|
| Grade.GradesWithoutDash | app.js:2 | None of the six grade names contains a dash, so the dash in an id separates grade from key. |
| Grade.GradeIdsApart | app.js:2 | Questions of two different grades never get the same id, whatever their keys. |
| Grade.MakeId | app.js:337-342 | The id is the grade, then `-`, then exactly the base key. Its length is the sum of those parts. |
| Grade.IdOfQuestion | app.js:337-341 | A parsed question's id is the grade, `-`, then the encoded problem, bar and answer. |
| Grade.EmptyKeyKept | app.js:338-339 | `??` keeps a present but empty storage key: the id is then just the grade and `-`. |
| Grade.BareItem | app.js:338-340 | An item with no storage key, kanji or reading gets the encoded lone bar as its key. |
| Grade.IdInjective | app.js:341 | For grades without a dash, equal ids mean equal grades and equal base keys. |
| Grade.Lines | app.js:380 | Splitting on `\r?\n` gives one line more than there are line feeds, and no line holds a line feed. |
| Grade.DropReturns | app.js:380 | Definition, no contract: one trailing carriage return is removed from every piece but the last, the `\r?` of the line split. `Grade.Lines`, `Grade.LinesOfCrlf` and `Grade.LinesOfLf` state its properties. |
| Grade.LinesOfCrlf | app.js:380 | A file written with CRLF line ends splits back into exactly the lines it was written from. |
| Grade.LinesOfLf | app.js:380 | The same for LF line ends, when no line but the last ends in a carriage return. |
| Grade.HeaderIgnored | app.js:380-384 | The first line never contributes: the entries of `header\nbody` are those of the lines of `body`. |
| Grade.AnyHeader | app.js:384 | Two files that differ only in their header give the same questions. |
| Grade.GradeEntries | app.js:380-401 | A text with no line feed gives nothing. There is at most one entry per line after the first, and every entry is trimmed and non-empty. |
| Grade.CellsEntries | app.js:391-393 | Two cells give exactly one entry if and only if both trim to something non-empty. That entry is the pair of trimmed cells, and it is well formed. |
| Grade.RowEntries | app.js:384-393 | A line gives at most one entry, and any entry it gives is well formed. |
| Grade.RowOfFields | app.js:386-393 | A line gives the entry of its first two fields, or nothing when it has fewer than two. The blank-line test never decides on its own, because a blank line is a single field. |
| Grade.Entries | app.js:384-400 | Definition, no contract: the entries of each line in turn, in line order. `Grade.EntriesLength`, `Grade.EntriesWellFormed` and `Grade.EntriesConcat` state its properties. |
| Grade.EntriesLength | app.js:384-400 | A run of lines gives at most one entry per line. |
| Grade.EntriesWellFormed | app.js:391-393 | Every entry of a run of lines has a trimmed, non-empty problem and answer. |
| Grade.EntriesConcat | app.js:384-400 | Entries come in line order: the entries of two runs of lines are those of the first run, then those of the second. |
| Grade.OneCellSkipped | app.js:388-389 | A line without quotes or commas is a single cell and gives nothing. |
| Grade.QuotedRow | app.js:388-393 | A line of quoted cells gives the entry of its first two cells. |
| Grade.ExtraCellsIgnored | app.js:388-393 | Cells after the second change nothing: two lines whose first two fields agree give the same entries. |
| Grade.PlainExtraCellsIgnored | app.js:388-393 | The unquoted line `problem,answer,extra` gives the same entry as `problem,answer`. |
| Grade.ExtraQuotedCellsIgnored | app.js:388-393 | A quoted record with extra cells gives the same entry as the record of its first two cells. |
| Grade.StorageKey | app.js:398 | Definition, no contract: the encoded problem, bar and answer. `Grade.KeyInjective` and `Grade.KeyCollision` state its properties. |
| Grade.MakeQuestion | app.js:395-399 | Definition, no contract: the problem's markup, the answer and the storage key. `Grade.ParseGradeCsv` and `Grade.TrimmedProblems` state what it is applied to. |
| Grade.Questions | app.js:395-399 | Definition, no contract: one question per entry, in order, each built by `Grade.MakeQuestion`. `Grade.ParseGradeCsv`, `Grade.ReadRows` and `Grade.FileRoundTrip` state what it is applied to. |
| Grade.BaseKey | app.js:338-340 | Definition, no contract: the storage key when present, even when empty, else the encoded kanji and reading. `Grade.EmptyKeyKept`, `Grade.BareItem` and `Grade.IdInjective` state its properties. |
| Grade.OrEmpty | app.js:340 | Definition, no contract: the value of a present property, else the empty string, as `?? ""` gives. `Grade.BareItem` states its use. |
| Grade.ParseGradeCsv | app.js:379-403 | There is one question per entry, in order. Each has the markup of its problem, its answer, and the encoded problem, bar and answer as its key. |
| Grade.TrimmedAnswers | app.js:381-393 | A one-line text gives no questions. There are at most as many questions as line feeds. Every answer is non-empty and its own trim. |
| Grade.TrimmedProblems | app.js:391-398 | Every question's markup and key come from a problem that is non-empty and its own trim. |
| Grade.ReadRow | app.js:385-399 | One pass of the loop body, with its early `continue`s, gives the questions of that line's entries. |
| Grade.ReadRows | app.js:383-400 | The loop over the lines after the header gives the questions of those lines' entries, in line order. |
| Grade.ParseGradeCsvLines | app.js:379-403 | The loop as written gives the same questions as the functional model. |
| Grade.FileRoundTrip | app.js:379-403 | Take a header and entries whose cells are trimmed, non-empty and on one line. Write them as a CRLF file of quoted records. Parsing that file gives back the questions of those entries. |
| Grade.KeyInjective | app.js:398 | For an injective encoder, two rows whose problems contain no bar character get equal keys only if both cells are equal. |
| Grade.KeyCollision | app.js:398 | A bar character inside a problem lets different rows share a key: problem `a`, bar, `b` with answer `c` collides with problem `a` and answer `b`, bar, `c`, for every encoder. |
| Csv.Scan | app.js:410-433 | Definition, no contract: the splitter's state machine over the rest of the line. `Csv.ScanLength` and the quote lemmas below state its properties. |
| Csv.ScanLength | app.js:423-432 | The splitter keeps the finished fields in front. It adds one field per comma met outside quotes, plus the last field. |
| Csv.Fields | app.js:405-434 | A line has at least one field. It has exactly one more field than the commas met outside quotes. |
| Csv.SplitCsvLine | app.js:405-434 | The loop as written computes exactly the fields of the state machine. |
| Csv.FieldsWithoutQuotes | app.js:423-429 | A line with no `"` splits into exactly its comma-separated pieces. No field holds a comma, and joining the fields with `,` gives back the line. |
| Csv.ScanDoubledQuote | app.js:414-416 | Inside quotes, `""` appends one `"` and consumes both characters. |
| Csv.ScanOpeningQuote | app.js:417-419 | Outside quotes, a `"` only enters a quoted section and is not copied. |
| Csv.ScanClosingQuote | app.js:417-419 | Inside quotes, a `"` not followed by another `"` only leaves the quoted section. |
| Csv.SingleQuotesNeverCopied | app.js:413-420 | On a line with no `""`, no field contains a `"`: every quote only toggles the state. |
| Csv.UnterminatedQuote | app.js:413-432 | A quote outside quotes with no quote after it opens a section to the end of the line. The rest of the line, commas included, goes into the last field, and the quote is dropped. |
| Csv.UnterminatedQuoteLine | app.js:405-434 | A line that starts with `"` and has no other quote is one field: the rest of the line, commas included. |
| Csv.QuotedRoundTrip | app.js:405-434 | Write any fields as RFC 4180 quoted fields, with inner quotes doubled, separated by commas. Splitting that line gives back exactly those fields. |
| Problem.ProblemHtml | app.js:436-475 | Definition, no contract: the markup of the problem's segments. `Problem.ConvertProblemToHtml` is proved equal to it, and `Problem.NoBracket`, `Problem.UnclosedBracket` and `Problem.GroupMarkup` state its cases. |
| Problem.Segments | app.js:440-472 | Definition, no contract: the scan of the loop, one plain segment and one annotation per group, and the literal rest when no group is left. `Problem.SegmentsWellFormed` and `Problem.SegmentsCoverInput` state its properties. |
| Problem.Group | app.js:455-469 | Definition, no contract: the plain part and the annotation cut from the text before a `<`. `Problem.SplitAtSquare` and `Problem.GroupMarkup` state its properties. |
| Problem.AnnotationMarkup | app.js:465-469 | Definition, no contract: a ruby over a non-empty base, else the reading in full-width parentheses. `Problem.ReadingWithoutBase`, `Problem.RubyOverText` and `Problem.RubyFromFirstSquare` state its cases. |
| Problem.FirstGroup | app.js:441-451 | A group found lies within the rest: `<` comes before `>`, and both are inside it. |
| Problem.FirstGroupDelimits | app.js:441-454 | A group is delimited by the first `<` and the first `>` after it. The text before holds no `<`, and the reading holds no `>`. |
| Problem.FirstGroupUnclosed | app.js:441-451 | No group is found exactly when there is no `<`, or no `>` after the first `<`. |
| Problem.SplitAtSquare | app.js:455-462 | The plain part and the base together make up the text before the `<`. The plain part holds no `□`. The base starts at the first `□`, or is all of the text when there is none. |
| Problem.SegmentsWellFormed | app.js:440-472 | Every ruby base the scanner produces is non-empty, holds no `<` and starts at its first `□`. No reading holds a `>`. |
| Problem.SegmentsCoverInput | app.js:440-472 | Nothing is lost or reordered: writing the segments back as source text gives the problem. |
| Problem.NoBracket | app.js:441-445 | A problem without `<` renders as `renderTextWithSquares(problem)`. |
| Problem.UnclosedBracket | app.js:447-451 | A `<` with no `>` after it renders the whole rest literally, the `<` included. |
| Problem.GroupMarkup | app.js:453-471 | For `before<reading>rest`: the plain part of `before`, then the annotation of its base, then the markup of `rest`. |
| Problem.ReadingWithoutBase | app.js:465-469 | A reading with nothing before it renders as `（` + escaped reading + `）`. |
| Problem.RubyOverText | app.js:456-466 | Non-empty text with no `□` before a reading is the whole ruby base. It is never shown in parentheses. |
| Problem.RubyFromFirstSquare | app.js:459-466 | Text before the first `□` is plain. The ruby base runs from that `□` to the `<`, and the reading is escaped. |
| Problem.GroupHtml | app.js:453-470 | The loop body's markup for one group equals the markup of the group's segments. |
| Problem.ConvertProblemToHtml | app.js:436-475 | The loop as written ends and returns exactly the markup of the problem's segments. |
| Html.EscapeHtml | app.js:477-494 | The output has no `<`, `>`, `"` or `'`. It has one `&` per special character of the input. Input without special characters is returned unchanged. |
| Html.EscapeChar | app.js:479-492 | Definition, no contract: the entity of each of the five special characters, any other character kept. `Html.EscapeCharFacts` and `Html.EscapeRoundTrip` state its properties. |
| Html.EscapeCharFacts | app.js:479-492 | Each special character becomes an entity that starts with its one `&`. Every other character stays as it is. |
| Html.EscapeConcat | app.js:478 | Escaping works character by character: escaping a concatenation concatenates the escapes. |
| Html.EscapeRoundTrip | app.js:477-494 | Escaping loses nothing: decoding the entities gives back the text. |
| Html.EscapeWithoutSquares | app.js:594-596 | For text without `□`, plain escaping is the character-by-character rendering. |
| Html.JoinEscaped | app.js:599-605 | Definition, no contract: the escaped parts with the placeholder between consecutive parts. `Html.SplitRendering` states what it computes. |
| Html.SplitRendering | app.js:598-605 | Splitting at `□`, escaping the parts and joining them with the placeholder gives the character-by-character rendering. |
| Html.RenderTextWithSquares | app.js:592-607 | All three branches give the character-by-character rendering: each `□` becomes the placeholder and every other character is escaped. |
| Html.RenderedText | app.js:592-607 | The output holds one placeholder element per `□` of the input, and decodes back to the input. |
| Strings.IndexOf | app.js:441 | `indexOf` gives -1 exactly when the character is absent. Otherwise it gives a position holding the character, with none before it. |
| Strings.IndexOfFrom | app.js:448 | The search from a start position gives -1 exactly when the character does not occur at or after the start. Otherwise it gives a position at or after the start. |
| Strings.IndexOfFromFound | app.js:448 | A character found from a start position on is the first one there. |
| Strings.Split | app.js:598 | `split` gives one piece more than there are separators, and no piece holds the separator. |
| Strings.JoinSplit | app.js:598 | Joining the pieces of a split with the separator gives back the string. |
| Strings.Trim | app.js:386 | Definition, no contract: leading whitespace removed, then trailing whitespace. `Strings.TrimSlice`, `Strings.TrimEndpoints`, `Strings.TrimEmpty` and `Strings.TrimIdempotent` state its properties. |
| Strings.IsWhitespace | app.js:386 | Definition, no contract: the ECMAScript WhiteSpace and LineTerminator characters that `trim` removes. `Strings.TrimSlice`, `Strings.TrimEndpoints` and `Strings.TrimEmpty` state what `trim` does with them. |
| Strings.TrimSlice | app.js:386 | `trim` keeps one contiguous slice of the string, and everything it cuts off at either end is whitespace. |
| Strings.TrimEndpoints | app.js:386 | A non-empty trimmed string starts and ends with a character that is not whitespace. |
| Strings.TrimEmpty | app.js:386 | A string trims to nothing exactly when every character is whitespace. |
| Strings.TrimIdempotent | app.js:391-392 | Trimming twice is trimming once. |

## Left out

- DOM and UI wiring are left out: element lookups, event listeners, `innerHTML` and visibility toggles. This is presentation only.
- `fetch` and the asynchronous loading of all grades are left out. They are network I/O and concurrency.
- `localStorage` and the JSON persistence of memorised ids are left out. They are browser storage I/O.
- `shuffleArray` is left out. It depends on `Math.random`.
- `encodeURIComponent` is not modelled. It is the parameter `encode`, and nothing is assumed about it except where a `requires` states injectivity.
- Grade.KeyInjective: assumes an injective encoder. `encodeURIComponent` throws on lone surrogates instead of returning a value, and the model has no such failure.
- Strings are sequences of Unicode scalar values, while JavaScript strings are UTF-16 code units. No step of the pipeline treats a surrogate specially, so the results agree. Positions and lengths are counted in characters, not code units.
- Strings.IsWhitespace lists the ECMAScript WhiteSpace and LineTerminator characters that `trim` removes. It is fixed to the current Unicode space separators.
- Grade.Lines: `split(/\r?\n/)` is modelled as a split on line feeds, with one carriage return dropped from the end of every piece but the last. This is the same result the regular expression gives.
- Grade.ParseGradeCsv: the model builds entries first, then questions. The loop builds each question directly. `Grade.ParseGradeCsvLines` proves the two agree.
- Concrete examples on literal problem strings (such as `□□<あい>`) are not stated as lemmas. They are instances of `Problem.RubyFromFirstSquare`, `Problem.RubyOverText` and `Problem.ReadingWithoutBase`.
