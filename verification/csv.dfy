/** The quote-aware field splitter `splitCsvLine` (app.js:405-434).

    The splitter is a left-to-right state machine over one line. Its state is
    whether it is inside a quoted section, the field being built, and the
    fields already finished. It follows the quoting convention of section 2 of
    RFC 4180 (a field may be enclosed in double quotes, and a double quote
    inside such a field is written twice), but only within one line. */
module Csv {
  import opened Strings

  /** The field separator. */
  const Comma: char := ','

  /** The quote character. */
  const Quote: char := '"'

  /** Number of commas the splitter meets outside a quoted section while it
      reads `s`, starting inside quotes when `inQuotes` holds. A doubled quote
      inside a quoted section is one literal quote and does not change the state. */
  function UnquotedCommas(s: string, inQuotes: bool): nat
    decreases |s|
  {
    if |s| == 0 then 0
    else if s[0] == Quote then
      if inQuotes && |s| > 1 && s[1] == Quote then UnquotedCommas(s[2..], inQuotes)
      else UnquotedCommas(s[1..], !inQuotes)
    else if s[0] == Comma && !inQuotes then 1 + UnquotedCommas(s[1..], inQuotes)
    else UnquotedCommas(s[1..], inQuotes)
  }

  /** The splitter reading the rest `s` of a line from the state
      (`inQuotes`, `current`, `done`): the finished fields are kept in front,
      and one field is finished per comma met outside quotes plus the last one. */
  function Scan(s: string, inQuotes: bool, current: string, done: seq<string>): seq<string>
    decreases |s|
  {
    if |s| == 0 then done + [current]
    else if s[0] == Quote then
      if inQuotes && |s| > 1 && s[1] == Quote then Scan(s[2..], inQuotes, current + [Quote], done)
      else Scan(s[1..], !inQuotes, current, done)
    else if s[0] == Comma && !inQuotes then Scan(s[1..], inQuotes, [], done + [current])
    else Scan(s[1..], inQuotes, current + [s[0]], done)
  }

  /** The finished fields are kept in front, and one field is added per comma
      met outside quotes, plus the last one. */
  lemma {:induction false} ScanLength(s: string, inQuotes: bool, current: string, done: seq<string>)
    ensures |Scan(s, inQuotes, current, done)| == |done| + 1 + UnquotedCommas(s, inQuotes)
    ensures Scan(s, inQuotes, current, done)[..|done|] == done
    decreases |s|
  {
    if |s| > 0 {
      if s[0] == Quote {
        if inQuotes && |s| > 1 && s[1] == Quote {
          ScanLength(s[2..], inQuotes, current + [Quote], done);
        } else {
          ScanLength(s[1..], !inQuotes, current, done);
        }
      } else if s[0] == Comma && !inQuotes {
        ScanLength(s[1..], inQuotes, [], done + [current]);
        var fields := Scan(s[1..], inQuotes, [], done + [current]);
        assert fields[..|done|] == fields[..|done| + 1][..|done|];
      } else {
        ScanLength(s[1..], inQuotes, current + [s[0]], done);
      }
    }
  }

  /** `splitCsvLine(line)`: the fields of one line. */
  function Fields(line: string): (fields: seq<string>)
    ensures |fields| >= 1
    ensures |fields| == 1 + UnquotedCommas(line, false)
  {
    ScanLength(line, false, [], []);
    Scan(line, false, [], [])
  }

  /** The loop of app.js:410-433 as written, with `i`, `inQuotes`, `current`
      and `result`: it computes exactly the fields of the state machine. */
  method SplitCsvLine(line: string) returns (result: seq<string>)
    ensures result == Fields(line)
    ensures |result| == 1 + UnquotedCommas(line, false)
  {
    result := [];
    var current: string := [];
    var inQuotes := false;
    var i := 0;
    while i < |line|
      invariant 0 <= i <= |line|
      invariant Scan(line[i..], inQuotes, current, result) == Fields(line)
      decreases |line| - i
    {
      var c := line[i];
      if c == Quote {
        if inQuotes && i + 1 < |line| && line[i + 1] == Quote {
          current := current + [Quote];
          i := i + 1;
        } else {
          inQuotes := !inQuotes;
        }
        assert line[i + 1..] == line[i..][1..];
        i := i + 1;
        continue;
      }
      if c == Comma && !inQuotes {
        result := result + [current];
        current := [];
        i := i + 1;
        continue;
      }
      current := current + [c];
      i := i + 1;
    }
    result := result + [current];
  }

  // ---------------------------------------------------------------------
  // Lines without quotes

  /** Outside quotes, a quote-free rest of the line is cut at every comma. */
  lemma {:induction false} ScanWithoutQuotes(s: string, current: string, done: seq<string>)
    requires Quote !in s
    ensures var parts := Split(s, Comma);
      Scan(s, false, current, done) == done + [current + parts[0]] + parts[1..]
  {
    if |s| == 0 {
      assert current + [] == current;
    } else {
      assert Quote !in s[1..];
      if s[0] == Comma {
        ScanWithoutQuotes(s[1..], [], done + [current]);
        CommaWithoutQuotes(s, current, done);
      } else {
        ScanWithoutQuotes(s[1..], current + [s[0]], done);
        CharWithoutQuotes(s, current, done);
      }
    }
  }

  lemma CommaWithoutQuotes(s: string, current: string, done: seq<string>)
    requires |s| > 0 && s[0] == Comma
    requires var rest := Split(s[1..], Comma);
      Scan(s[1..], false, [], done + [current]) == done + [current] + [[] + rest[0]] + rest[1..]
    ensures var parts := Split(s, Comma);
      Scan(s, false, current, done) == done + [current + parts[0]] + parts[1..]
  {
    var rest := Split(s[1..], Comma);
    var parts := Split(s, Comma);
    assert parts[0] == [] && parts[1..] == rest by {
      assert parts == [[]] + rest;
    }
    assert [] + rest[0] == rest[0];
    assert current + [] == current;
    assert [rest[0]] + rest[1..] == rest;
    ConcatAssoc(done + [current], [rest[0]], rest[1..]);
  }

  lemma CharWithoutQuotes(s: string, current: string, done: seq<string>)
    requires |s| > 0 && s[0] != Comma && s[0] != Quote
    requires var rest := Split(s[1..], Comma);
      Scan(s[1..], false, current + [s[0]], done) == done + [current + [s[0]] + rest[0]] + rest[1..]
    ensures var parts := Split(s, Comma);
      Scan(s, false, current, done) == done + [current + parts[0]] + parts[1..]
  {
    var rest := Split(s[1..], Comma);
    assert Split(s, Comma) == [[s[0]] + rest[0]] + rest[1..];
    assert current + [s[0]] + rest[0] == current + ([s[0]] + rest[0]);
  }

  /** A line without `"` splits into exactly its comma-separated pieces: no
      field holds a comma, and joining the fields with commas gives the line back. */
  lemma FieldsWithoutQuotes(line: string)
    requires Quote !in line
    ensures Fields(line) == Split(line, Comma)
    ensures forall i :: 0 <= i < |Fields(line)| ==> Comma !in Fields(line)[i]
    ensures Join(Fields(line), [Comma]) == line
  {
    ScanWithoutQuotes(line, [], []);
    var parts := Split(line, Comma);
    assert [] + parts[0] == parts[0];
    assert [parts[0]] + parts[1..] == parts;
    JoinSplit(line, Comma);
  }

  // ---------------------------------------------------------------------
  // Unterminated quotes

  /** Inside a quoted section that is never closed, every remaining character,
      commas included, goes into the current field. */
  lemma {:induction false} ScanInsideOpenQuote(s: string, current: string, done: seq<string>)
    requires Quote !in s
    ensures Scan(s, true, current, done) == done + [current + s]
  {
    if |s| > 0 {
      ScanInsideOpenQuote(s[1..], current + [s[0]], done);
      assert current + [s[0]] + s[1..] == current + s;
    } else {
      assert current + s == current;
    }
  }

  /** A quote met outside quotes with no quote after it opens a section that
      runs to the end of the line: the rest of the line, commas included, ends
      up in the last field and the quote itself is dropped. */
  lemma UnterminatedQuote(s: string, current: string, done: seq<string>)
    requires Quote !in s
    ensures Scan([Quote] + s, false, current, done) == done + [current + s]
  {
    assert ([Quote] + s)[1..] == s;
    ScanInsideOpenQuote(s, current, done);
  }

  /** The line-level case: `"abc,def` is the one field `abc,def`. */
  lemma UnterminatedQuoteLine(s: string)
    requires Quote !in s
    ensures Fields([Quote] + s) == [s]
  {
    UnterminatedQuote(s, [], []);
    assert [] + s == s;
  }

  // ---------------------------------------------------------------------
  // Quote characters in the fields

  /** No two consecutive characters of `s` are both quotes. */
  predicate NoDoubledQuote(s: string)
  {
    forall i :: 0 <= i < |s| - 1 ==> !(s[i] == Quote && s[i + 1] == Quote)
  }

  /** A quote character reaches a field only through a doubled quote: on a
      line without `""` every quote just opens or closes a section. */
  lemma {:induction false} ScanDropsSingleQuotes(s: string, inQuotes: bool, current: string, done: seq<string>)
    requires NoDoubledQuote(s)
    requires Quote !in current
    requires forall i :: 0 <= i < |done| ==> Quote !in done[i]
    ensures forall i :: 0 <= i < |Scan(s, inQuotes, current, done)| ==> Quote !in Scan(s, inQuotes, current, done)[i]
    decreases |s|
  {
    if |s| > 0 {
      assert NoDoubledQuote(s[1..]) by {
        forall i | 0 <= i < |s[1..]| - 1
          ensures !(s[1..][i] == Quote && s[1..][i + 1] == Quote)
        {
          assert s[1..][i] == s[i + 1] && s[1..][i + 1] == s[i + 2];
        }
      }
      if s[0] == Quote {
        ScanDropsSingleQuotes(s[1..], !inQuotes, current, done);
      } else if s[0] == Comma && !inQuotes {
        ScanDropsSingleQuotes(s[1..], inQuotes, [], done + [current]);
      } else {
        ScanDropsSingleQuotes(s[1..], inQuotes, current + [s[0]], done);
      }
    }
  }

  lemma SingleQuotesNeverCopied(line: string)
    requires NoDoubledQuote(line)
    ensures forall i :: 0 <= i < |Fields(line)| ==> Quote !in Fields(line)[i]
  {
    ScanDropsSingleQuotes(line, false, [], []);
  }

  // ---------------------------------------------------------------------
  // Round trip with RFC 4180 quoting

  /** `f` with each quote written twice. */
  function DoubleQuotes(f: string): string
  {
    if |f| == 0 then []
    else (if f[0] == Quote then [Quote, Quote] else [f[0]]) + DoubleQuotes(f[1..])
  }

  /** A field written as section 2 of RFC 4180 allows: enclosed in quotes,
      inner quotes doubled. */
  function QuoteField(f: string): string
  {
    [Quote] + DoubleQuotes(f) + [Quote]
  }

  /** A record written with every field quoted, fields separated by commas. */
  function JoinQuoted(fields: seq<string>): string
    requires |fields| >= 1
  {
    if |fields| == 1 then QuoteField(fields[0])
    else QuoteField(fields[0]) + [Comma] + JoinQuoted(fields[1..])
  }

  /** Inside quotes, a doubled quote is one literal quote. */
  lemma ScanDoubledQuote(tail: string, current: string, done: seq<string>)
    ensures Scan([Quote, Quote] + tail, true, current, done) == Scan(tail, true, current + [Quote], done)
  {
    var s := [Quote, Quote] + tail;
    assert s[0] == Quote && s[1] == Quote && s[2..] == tail;
  }

  /** Inside quotes, any character but a quote is copied. */
  lemma ScanQuotedChar(c: char, tail: string, current: string, done: seq<string>)
    requires c != Quote
    ensures Scan([c] + tail, true, current, done) == Scan(tail, true, current + [c], done)
  {
    var s := [c] + tail;
    assert s[0] == c && s[1..] == tail;
  }

  /** Outside quotes, a quote opens a section and is not copied. */
  lemma ScanOpeningQuote(rest: string, current: string, done: seq<string>)
    ensures Scan([Quote] + rest, false, current, done) == Scan(rest, true, current, done)
  {
    var s := [Quote] + rest;
    assert s[0] == Quote && s[1..] == rest;
  }

  /** A quote not followed by another quote closes the section. */
  lemma ScanClosingQuote(rest: string, current: string, done: seq<string>)
    requires |rest| == 0 || rest[0] != Quote
    ensures Scan([Quote] + rest, true, current, done) == Scan(rest, false, current, done)
  {
    var s := [Quote] + rest;
    assert s[0] == Quote && s[1..] == rest;
  }

  /** The first character of a quoted body is copied, a quote from its doubled form. */
  lemma ScanBodyHead(f: string, rest: string, current: string, done: seq<string>)
    requires |f| > 0
    ensures Scan(DoubleQuotes(f) + [Quote] + rest, true, current, done)
         == Scan(DoubleQuotes(f[1..]) + [Quote] + rest, true, current + [f[0]], done)
  {
    var tail := DoubleQuotes(f[1..]) + [Quote] + rest;
    if f[0] == Quote {
      assert DoubleQuotes(f) + [Quote] + rest == [Quote, Quote] + tail;
      ScanDoubledQuote(tail, current, done);
    } else {
      assert DoubleQuotes(f) + [Quote] + rest == [f[0]] + tail;
      ScanQuotedChar(f[0], tail, current, done);
    }
  }

  /** Inside a quoted section, the body of a quoted field is read back as the
      field, and the closing quote leaves the section. */
  lemma {:induction false} ScanQuotedBody(f: string, rest: string, current: string, done: seq<string>)
    requires |rest| == 0 || rest[0] != Quote
    ensures Scan(DoubleQuotes(f) + [Quote] + rest, true, current, done) == Scan(rest, false, current + f, done)
  {
    if |f| == 0 {
      assert DoubleQuotes(f) + [Quote] + rest == [Quote] + rest;
      ScanClosingQuote(rest, current, done);
      assert current + f == current;
    } else {
      ScanBodyHead(f, rest, current, done);
      ScanQuotedBody(f[1..], rest, current + [f[0]], done);
      assert current + [f[0]] + f[1..] == current + f;
    }
  }

  /** A quoted field followed by the end of the line or a comma is read back as that field. */
  lemma QuotedFieldScan(f: string, rest: string, done: seq<string>)
    requires |rest| == 0 || rest[0] != Quote
    ensures Scan(QuoteField(f) + rest, false, [], done) == Scan(rest, false, f, done)
  {
    var s := QuoteField(f) + rest;
    assert s == [Quote] + (DoubleQuotes(f) + [Quote] + rest);
    assert s[1..] == DoubleQuotes(f) + [Quote] + rest;
    ScanQuotedBody(f, rest, [], done);
    assert [] + f == f;
  }

  /** A quoted record is read back field by field after the fields already finished. */
  lemma {:induction false} ScanJoinQuoted(fields: seq<string>, done: seq<string>)
    requires |fields| >= 1
    ensures Scan(JoinQuoted(fields), false, [], done) == done + fields
  {
    if |fields| == 1 {
      QuotedFieldScan(fields[0], [], done);
      assert QuoteField(fields[0]) + [] == QuoteField(fields[0]);
    } else {
      var rest := JoinQuoted(fields[1..]);
      var tail := [Comma] + rest;
      assert JoinQuoted(fields) == QuoteField(fields[0]) + tail;
      QuotedFieldScan(fields[0], tail, done);
      assert tail[1..] == rest;
      ScanJoinQuoted(fields[1..], done + [fields[0]]);
      assert done + [fields[0]] + fields[1..] == done + fields;
    }
  }

  /** Doubling quotes adds no character other than `"`. */
  lemma {:induction false} DoubleQuotesKeeps(f: string, c: char)
    requires c != Quote && c !in f
    ensures c !in DoubleQuotes(f)
  {
    if |f| > 0 {
      DoubleQuotesKeeps(f[1..], c);
    }
  }

  /** A quoted record holds no character that none of its fields holds,
      other than `"` and `,`. */
  lemma {:induction false} JoinQuotedKeeps(fields: seq<string>, c: char)
    requires |fields| >= 1
    requires c != Quote && c != Comma
    requires forall i :: 0 <= i < |fields| ==> c !in fields[i]
    ensures c !in JoinQuoted(fields)
  {
    DoubleQuotesKeeps(fields[0], c);
    if |fields| > 1 {
      JoinQuotedKeeps(fields[1..], c);
    }
  }

  /** A quoted record begins with `"`. */
  lemma JoinQuotedStarts(fields: seq<string>)
    requires |fields| >= 1
    ensures |JoinQuoted(fields)| > 0 && JoinQuoted(fields)[0] == Quote
  {
  }

  /** Splitting a record written with quoted fields gives back exactly the
      fields, whatever commas and quotes they hold. */
  lemma QuotedRoundTrip(fields: seq<string>)
    requires |fields| >= 1
    ensures Fields(JoinQuoted(fields)) == fields
  {
    ScanJoinQuoted(fields, []);
  }
}
