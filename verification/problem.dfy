/** The problem-to-markup converter `convertProblemToHtml` (app.js:436-475).

    A problem is plain text in which `<reading>` attaches a reading to the text
    before it and `□` marks a blank. The converter scans the text from left to
    right. Each `<` that has a `>` after it closes a group: the text before the
    `<`, cut at its first `□`, gives a plain prefix and a ruby base, and the text
    between the brackets is the reading. Here the scan is split in two: `Segments`
    reads the problem into a list of segments and `RenderAll` writes them as
    markup; `ConvertProblemToHtml` is the loop as written, proved equal to both. */
module Problem {
  import opened Strings
  import opened Html

  const Open: char := '<'
  const Close: char := '>'

  /** One piece of a problem, in document order. */
  datatype Segment =
    | Plain(text: string)                 // literal text, each □ shown as a placeholder
    | Ruby(base: string, reading: string) // a ruby base with its reading attached
    | Parenthesized(reading: string)      // a reading with no text before it: （reading）

  /** What the scanner guarantees of a segment it produces: a ruby base is
      non-empty, holds no `<`, and starts at its first `□` if it has one;
      readings hold no `>`. */
  predicate WellFormed(seg: Segment)
  {
    match seg
    case Plain(_) => true
    case Ruby(b, r) => |b| > 0 && Open !in b && Close !in r && (Square in b ==> b[0] == Square)
    case Parenthesized(r) => Close !in r
  }

  /** Every segment of `segs` is well formed. */
  predicate AllWellFormed(segs: seq<Segment>)
  {
    |segs| == 0 || (WellFormed(segs[0]) && AllWellFormed(segs[1..]))
  }

  /** The text before a `<` cut at its first placeholder glyph (app.js:455-462). */
  datatype Cut = Cut(plain: string, base: string)

  /** The plain text in front of the first glyph and the base from the glyph
      on; without a glyph the plain part is empty and all of `before` is the
      base. */
  function SplitAtSquare(before: string): (r: Cut)
    ensures r.plain + r.base == before
    ensures Square !in r.plain
    ensures Square in before ==> |r.base| > 0 && r.base[0] == Square
    ensures Square !in before ==> |r.plain| == 0
  {
    var i := IndexOf(before, Square);
    if i == -1 then Cut([], before)
    else
      assert before[..i] + before[i..] == before;
      Cut(before[..i], before[i..])
  }

  /** One group: the plain prefix of `before`, then the reading attached to the
      base, or parenthesized when the base is empty (app.js:455-469). */
  function Group(before: string, reading: string): seq<Segment>
  {
    var cut := SplitAtSquare(before);
    [Plain(cut.plain), Annotation(cut.base, reading)]
  }

  /** The segment a reading makes with the base in front of it. */
  function Annotation(base: string, reading: string): Segment
  {
    if |base| > 0 then Ruby(base, reading) else Parenthesized(reading)
  }

  /** The result of looking for the next group: the positions of the first
      `<` and of the first `>` after it, or none when there is no `<` or that
      `<` is never closed. */
  datatype Search = Unclosed | GroupAt(lt: nat, gt: nat)

  /** Where the first group of `remaining` ends (app.js:441-451). */
  function FirstGroup(remaining: string): (r: Search)
    ensures r.GroupAt? ==> r.lt < r.gt < |remaining|
  {
    var lt := IndexOf(remaining, Open);
    if lt == -1 then Unclosed
    else
      var gt := IndexOfFrom(remaining, Close, lt + 1);
      if gt == -1 then Unclosed
      else GroupAt(lt, gt)
  }

  /** The segments of the unconsumed rest of a problem, one loop iteration of
      app.js:440-472 per group; a rest with no `<`, or whose first `<` has no
      `>` after it, is one plain segment. */
  function Segments(remaining: string): seq<Segment>
    decreases |remaining|
  {
    if |remaining| == 0 then []
    else
      match FirstGroup(remaining)
      case Unclosed => [Plain(remaining)]
      case GroupAt(lt, gt) =>
        Group(remaining[..lt], remaining[lt + 1..gt]) + Segments(remaining[gt + 1..])
  }

  /** The markup app.js:465-469 emits for a reading: a ruby over a non-empty
      base, or the reading in full-width parentheses when the base is empty. */
  function AnnotationMarkup(base: string, reading: string): string
  {
    if |base| > 0 then "<ruby>" + RenderTextWithSquares(base) + "<rt>" + EscapeHtml(reading) + "</rt></ruby>"
    else "（" + EscapeHtml(reading) + "）"
  }

  /** The markup of one segment (app.js:443, 450, 464-469). */
  function RenderSegment(seg: Segment): string
  {
    match seg
    case Plain(t) => RenderTextWithSquares(t)
    case Ruby(b, r) => AnnotationMarkup(b, r)
    case Parenthesized(r) => AnnotationMarkup([], r)
  }

  /** The markup of a list of segments, in order. */
  function RenderAll(segs: seq<Segment>): string
  {
    if |segs| == 0 then [] else RenderSegment(segs[0]) + RenderAll(segs[1..])
  }

  /** The markup `convertProblemToHtml` returns for `problem`. */
  function ProblemHtml(problem: string): string
  {
    RenderAll(Segments(problem))
  }

  /** The problem text a segment was read from. */
  function SourceText(seg: Segment): string
  {
    match seg
    case Plain(t) => t
    case Ruby(b, r) => b + [Open] + r + [Close]
    case Parenthesized(r) => [Open] + r + [Close]
  }

  /** The problem text a list of segments was read from. */
  function SourceOf(segs: seq<Segment>): string
  {
    if |segs| == 0 then [] else SourceText(segs[0]) + SourceOf(segs[1..])
  }

  // ---------------------------------------------------------------------
  // Finding the next group

  /** A group found is delimited by the first `<` and the first `>` after it:
      the text before it holds no `<` and the reading holds no `>`. */
  lemma FirstGroupDelimits(remaining: string)
    requires FirstGroup(remaining).GroupAt?
    ensures var r := FirstGroup(remaining);
      remaining[r.lt] == Open && remaining[r.gt] == Close
      && Open !in remaining[..r.lt] && Close !in remaining[r.lt + 1..r.gt]
  {
    IndexOfFromFound(remaining, Close, IndexOf(remaining, Open) + 1);
  }

  /** No group is found exactly when there is no `<`, or no `>` after the first `<`. */
  lemma FirstGroupUnclosed(remaining: string)
    ensures FirstGroup(remaining).Unclosed?
      <==> Open !in remaining || Close !in remaining[IndexOf(remaining, Open) + 1..]
  {
  }

  /** The two searches of one loop iteration locate the first group. */
  lemma FirstGroupFound(remaining: string, lt: nat, gt: int)
    requires lt < |remaining|
    requires IndexOf(remaining, Open) == lt
    requires IndexOfFrom(remaining, Close, lt + 1) == gt
    requires gt != -1
    ensures FirstGroup(remaining) == GroupAt(lt, gt)
  {
  }

  /** Where the parts of `before + "<" + reading + ">" + rest` sit. */
  lemma BracketSlices(before: string, reading: string, rest: string)
    ensures var s := before + [Open] + reading + [Close] + rest;
      s[..|before|] == before
      && s[|before| + 1..] == reading + [Close] + rest
      && s[|before| + 1..|before| + 1 + |reading|] == reading
      && s[|before| + 1 + |reading| + 1..] == rest
  {
  }

  /** In `before + "<" + reading + ">" + rest` with no `<` in `before` and no
      `>` in `reading`, the first group is the bracketed reading. */
  lemma FirstGroupOfBracket(before: string, reading: string, rest: string)
    requires Open !in before && Close !in reading
    ensures FirstGroup(before + [Open] + reading + [Close] + rest) == GroupAt(|before|, |before| + 1 + |reading|)
  {
    BracketOpens(before, reading, rest);
    BracketCloses(before, reading, rest);
    FirstGroupFound(before + [Open] + reading + [Close] + rest, |before|, |before| + 1 + |reading|);
  }

  /** The first `<` of `before + "<" + reading + ">" + rest` is the one after `before`. */
  lemma BracketOpens(before: string, reading: string, rest: string)
    requires Open !in before
    ensures IndexOf(before + [Open] + reading + [Close] + rest, Open) == |before|
  {
    assert before + [Open] + reading + [Close] + rest == before + [Open] + (reading + [Close] + rest);
    FirstSeparator(before, reading + [Close] + rest, Open);
  }

  /** The first `>` after that `<` is the one after `reading`. */
  lemma BracketCloses(before: string, reading: string, rest: string)
    requires Close !in reading
    ensures IndexOfFrom(before + [Open] + reading + [Close] + rest, Close, |before| + 1) == |before| + 1 + |reading|
  {
    BracketSlices(before, reading, rest);
    FirstSeparator(reading, rest, Close);
    IndexOfSuffix(before + [Open] + reading + [Close] + rest, Close, |before| + 1, reading + [Close] + rest);
  }

  // ---------------------------------------------------------------------
  // The segments

  /** The segments of a rest whose first group ends at `gt`: that group, then
      the segments of what follows. */
  lemma SegmentsStep(remaining: string, lt: nat, gt: nat)
    requires FirstGroup(remaining) == GroupAt(lt, gt)
    ensures Segments(remaining) == Group(remaining[..lt], remaining[lt + 1..gt]) + Segments(remaining[gt + 1..])
  {
  }

  /** The segments of a rest whose first group is `before<reading>`. */
  lemma SegmentsAfterGroup(remaining: string, lt: nat, gt: nat, before: string, reading: string, rest: string)
    requires FirstGroup(remaining) == GroupAt(lt, gt)
    requires remaining[..lt] == before && remaining[lt + 1..gt] == reading && remaining[gt + 1..] == rest
    ensures Segments(remaining) == Group(before, reading) + Segments(rest)
  {
    SegmentsStep(remaining, lt, gt);
  }

  /** A bracketed reading after text without `<` is one group, followed by
      the segments of the rest. */
  lemma SegmentsOfBracket(before: string, reading: string, rest: string)
    requires Open !in before && Close !in reading
    ensures Segments(before + [Open] + reading + [Close] + rest) == Group(before, reading) + Segments(rest)
  {
    BracketSlices(before, reading, rest);
    FirstGroupOfBracket(before, reading, rest);
    SegmentsAfterGroup(before + [Open] + reading + [Close] + rest, |before|, |before| + 1 + |reading|, before, reading, rest);
  }

  /** A rest without a `<`, or whose first `<` has no `>` after it, is one
      plain segment. */
  lemma SegmentsLiteralRest(remaining: string)
    requires |remaining| > 0 && FirstGroup(remaining).Unclosed?
    ensures Segments(remaining) == [Plain(remaining)]
  {
  }

  lemma WellFormedPair(x: Segment, y: Segment)
    requires WellFormed(x) && WellFormed(y)
    ensures AllWellFormed([x, y])
  {
    assert [x, y][1..] == [y];
    assert [y][1..] == [];
  }

  /** The segments of a group are well formed when `before` holds no `<` and
      the reading no `>`. */
  lemma GroupWellFormed(before: string, reading: string)
    requires Open !in before && Close !in reading
    ensures AllWellFormed(Group(before, reading))
  {
    var cut := SplitAtSquare(before);
    assert Open !in cut.base by {
      assert forall c :: c in cut.base ==> c in before;
    }
    WellFormedPair(Plain(cut.plain), Annotation(cut.base, reading));
  }

  lemma {:induction false} AllWellFormedConcat(a: seq<Segment>, b: seq<Segment>)
    requires AllWellFormed(a) && AllWellFormed(b)
    ensures AllWellFormed(a + b)
  {
    if |a| > 0 {
      assert (a + b)[1..] == a[1..] + b;
      AllWellFormedConcat(a[1..], b);
    } else {
      assert a + b == b;
    }
  }

  /** Every segment the scanner produces is well formed: ruby bases are
      non-empty, free of `<` and start at their first `□`; readings hold no `>`. */
  lemma {:induction false} SegmentsWellFormed(remaining: string)
    ensures AllWellFormed(Segments(remaining))
    decreases |remaining|
  {
    if |remaining| > 0 {
      match FirstGroup(remaining)
      case Unclosed =>
        SegmentsLiteralRest(remaining);
      case GroupAt(lt, gt) =>
        SegmentsStep(remaining, lt, gt);
        FirstGroupDelimits(remaining);
        GroupWellFormed(remaining[..lt], remaining[lt + 1..gt]);
        SegmentsWellFormed(remaining[gt + 1..]);
        AllWellFormedConcat(Group(remaining[..lt], remaining[lt + 1..gt]), Segments(remaining[gt + 1..]));
    }
  }

  lemma {:induction false} SourceConcat(a: seq<Segment>, b: seq<Segment>)
    ensures SourceOf(a + b) == SourceOf(a) + SourceOf(b)
  {
    if |a| == 0 {
      assert a + b == b;
    } else {
      assert (a + b)[1..] == a[1..] + b;
      SourceConcat(a[1..], b);
      ConcatAssoc(SourceText(a[0]), SourceOf(a[1..]), SourceOf(b));
    }
  }

  lemma SourcePair(x: Segment, y: Segment)
    ensures SourceOf([x, y]) == SourceText(x) + SourceText(y)
  {
    assert [x, y][1..] == [y];
    assert [y][1..] == [];
    assert SourceOf([y]) == SourceText(y) + [];
  }

  /** An annotation is read from its base, then the bracketed reading. */
  lemma AnnotationSource(base: string, reading: string)
    ensures SourceText(Annotation(base, reading)) == base + ([Open] + reading + [Close])
  {
    if |base| == 0 {
      assert base + ([Open] + reading + [Close]) == [Open] + reading + [Close];
    } else {
      assert base + [Open] + reading + [Close] == base + ([Open] + reading + [Close]);
    }
  }

  /** A group is read from the text before the `<`, then the bracketed reading. */
  lemma GroupSource(before: string, reading: string)
    ensures SourceOf(Group(before, reading)) == before + [Open] + reading + [Close]
  {
    var cut := SplitAtSquare(before);
    var bracket := [Open] + reading + [Close];
    assert before + [Open] + reading + [Close] == before + bracket;
    assert SourceOf(Group(before, reading)) == cut.plain + SourceText(Annotation(cut.base, reading)) by {
      SourcePair(Plain(cut.plain), Annotation(cut.base, reading));
    }
    AnnotationSource(cut.base, reading);
    ConcatAssoc(cut.plain, cut.base, bracket);
  }

  /** Cutting at one group, reading it and what follows it gives back the rest. */
  lemma StepSource(remaining: string, lt: nat, gt: nat)
    requires lt < gt < |remaining| && remaining[lt] == Open && remaining[gt] == Close
    ensures remaining[..lt] + [Open] + remaining[lt + 1..gt] + [Close] + remaining[gt + 1..] == remaining
  {
  }

  /** Nothing is lost or reordered: the segments read back to the problem. */
  lemma {:induction false} SegmentsCoverInput(remaining: string)
    ensures SourceOf(Segments(remaining)) == remaining
    decreases |remaining|
  {
    if |remaining| > 0 {
      match FirstGroup(remaining)
      case Unclosed =>
        SegmentsLiteralRest(remaining);
        assert SourceOf([Plain(remaining)]) == remaining + [];
      case GroupAt(lt, gt) =>
        var g := Group(remaining[..lt], remaining[lt + 1..gt]);
        SegmentsStep(remaining, lt, gt);
        SourceConcat(g, Segments(remaining[gt + 1..]));
        GroupSource(remaining[..lt], remaining[lt + 1..gt]);
        SegmentsCoverInput(remaining[gt + 1..]);
        FirstGroupDelimits(remaining);
        StepSource(remaining, lt, gt);
    }
  }

  // ---------------------------------------------------------------------
  // The markup

  lemma {:induction false} RenderConcat(a: seq<Segment>, b: seq<Segment>)
    ensures RenderAll(a + b) == RenderAll(a) + RenderAll(b)
  {
    if |a| == 0 {
      assert a + b == b;
    } else {
      assert (a + b)[1..] == a[1..] + b;
      RenderConcat(a[1..], b);
      ConcatAssoc(RenderSegment(a[0]), RenderAll(a[1..]), RenderAll(b));
    }
  }

  lemma RenderPair(x: Segment, y: Segment)
    ensures RenderAll([x, y]) == RenderSegment(x) + RenderSegment(y)
  {
    assert [x, y][1..] == [y];
    assert [y][1..] == [];
    assert RenderAll([y]) == RenderSegment(y) + [];
  }

  /** The markup of one group is its plain prefix followed by its annotation. */
  lemma RenderGroup(before: string, reading: string)
    ensures var cut := SplitAtSquare(before);
      RenderAll(Group(before, reading)) == RenderTextWithSquares(cut.plain) + AnnotationMarkup(cut.base, reading)
  {
    var cut := SplitAtSquare(before);
    RenderPair(Plain(cut.plain), Annotation(cut.base, reading));
  }

  /** One iteration of the loop of app.js:440-472 in terms of markup. */
  lemma MarkupStep(remaining: string, lt: nat, gt: nat)
    requires FirstGroup(remaining) == GroupAt(lt, gt)
    ensures ProblemHtml(remaining)
      == RenderAll(Group(remaining[..lt], remaining[lt + 1..gt])) + ProblemHtml(remaining[gt + 1..])
  {
    SegmentsStep(remaining, lt, gt);
    RenderConcat(Group(remaining[..lt], remaining[lt + 1..gt]), Segments(remaining[gt + 1..]));
  }

  /** A rest without a `<`, or whose first `<` has no `>` after it, is rendered
      literally. */
  lemma MarkupLiteralRest(remaining: string)
    requires |remaining| > 0 && FirstGroup(remaining).Unclosed?
    ensures ProblemHtml(remaining) == RenderTextWithSquares(remaining)
  {
    SegmentsLiteralRest(remaining);
    assert [Plain(remaining)][1..] == [];
    assert RenderAll([Plain(remaining)]) == RenderTextWithSquares(remaining) + [];
  }

  // ---------------------------------------------------------------------
  // What the converter produces

  /** A problem without `<` is rendered as literal text (app.js:441-445). */
  lemma NoBracket(problem: string)
    requires Open !in problem
    ensures ProblemHtml(problem) == RenderTextWithSquares(problem)
  {
    if |problem| > 0 {
      MarkupLiteralRest(problem);
    }
  }

  /** A `<` with no `>` after it turns the whole rest into literal text, the
      `<` included (app.js:447-451). */
  lemma UnclosedBracket(before: string, after: string)
    requires Open !in before && Close !in after
    ensures ProblemHtml(before + [Open] + after) == RenderTextWithSquares(before + [Open] + after)
  {
    var s := before + [Open] + after;
    FirstSeparator(before, after, Open);
    assert s[|before| + 1..] == after;
    MarkupLiteralRest(s);
  }

  /** A bracketed reading after text without `<`: the text cut at its first
      `□`, the plain part rendered literally, the annotation after it, then the
      rest of the problem. */
  lemma GroupMarkup(before: string, reading: string, rest: string)
    requires Open !in before && Close !in reading
    ensures var cut := SplitAtSquare(before);
      ProblemHtml(before + [Open] + reading + [Close] + rest)
      == RenderTextWithSquares(cut.plain) + AnnotationMarkup(cut.base, reading) + ProblemHtml(rest)
  {
    SegmentsOfBracket(before, reading, rest);
    RenderConcat(Group(before, reading), Segments(rest));
    RenderGroup(before, reading);
  }

  /** A reading with nothing before it is shown in full-width parentheses
      (app.js:467-468). */
  lemma ReadingWithoutBase(reading: string, rest: string)
    requires Close !in reading
    ensures ProblemHtml([Open] + reading + [Close] + rest)
      == "（" + EscapeHtml(reading) + "）" + ProblemHtml(rest)
  {
    assert [] + [Open] == [Open];
    GroupMarkup([], reading, rest);
    assert RenderTextWithSquares([]) + AnnotationMarkup([], reading) == AnnotationMarkup([], reading);
  }

  /** Text without `□` before a reading is the ruby base as a whole; it is never
      shown in parentheses (app.js:457, 465-466). */
  lemma RubyOverText(base: string, reading: string, rest: string)
    requires |base| > 0 && Open !in base && Square !in base && Close !in reading
    ensures ProblemHtml(base + [Open] + reading + [Close] + rest)
      == "<ruby>" + EscapeHtml(base) + "<rt>" + EscapeHtml(reading) + "</rt></ruby>" + ProblemHtml(rest)
  {
    GroupMarkup(base, reading, rest);
    var cut := SplitAtSquare(base);
    assert cut.plain == [] && cut.base == base;
    assert RenderTextWithSquares(base) == EscapeHtml(base);
    assert RenderTextWithSquares([]) + AnnotationMarkup(base, reading) == AnnotationMarkup(base, reading);
  }

  /** Text before the first `□` is plain; the ruby base runs from that `□` to
      the `<` (app.js:459-462, 464-466). */
  lemma RubyFromFirstSquare(plain: string, tail: string, reading: string, rest: string)
    requires Square !in plain && Open !in plain && Open !in tail && Close !in reading
    ensures ProblemHtml(plain + [Square] + tail + [Open] + reading + [Close] + rest)
      == RenderTextWithSquares(plain)
         + ("<ruby>" + RenderTextWithSquares([Square] + tail) + "<rt>" + EscapeHtml(reading) + "</rt></ruby>")
         + ProblemHtml(rest)
  {
    var before := plain + [Square] + tail;
    assert Open !in before;
    FirstSeparator(plain, tail, Square);
    assert before[..|plain|] == plain && before[|plain|..] == [Square] + tail;
    GroupMarkup(before, reading, rest);
  }

  /** The markup of one group as the loop body writes it (app.js:453-470):
      the text before the first `□` of `before` as literal text, then the rest
      of `before` as a ruby base carrying the reading, or the reading in
      parentheses when that rest is empty. */
  method GroupHtml(before: string, reading: string) returns (out: string)
    ensures out == RenderAll(Group(before, reading))
  {
    var firstSquareIndex := IndexOf(before, Square);
    var plainPart: string := [];
    var basePart := before;
    if firstSquareIndex >= 0 {
      plainPart := before[..firstSquareIndex];
      basePart := before[firstSquareIndex..];
    }
    var piece: string;
    if |basePart| > 0 {
      piece := "<ruby>" + RenderTextWithSquares(basePart) + "<rt>" + EscapeHtml(reading) + "</rt></ruby>";
    } else {
      piece := "（" + EscapeHtml(reading) + "）";
    }
    out := RenderTextWithSquares(plainPart) + piece;
    assert Cut(plainPart, basePart) == SplitAtSquare(before);
    assert piece == AnnotationMarkup(basePart, reading);
    RenderGroup(before, reading);
  }

  /** The loop of app.js:437-474 as written. It ends because every iteration
      either stops or drops at least the `<` and `>` of a group. */
  method ConvertProblemToHtml(problem: string) returns (html: string)
    ensures html == ProblemHtml(problem)
  {
    html := [];
    var remaining := problem;
    while |remaining| > 0
      invariant html + ProblemHtml(remaining) == ProblemHtml(problem)
      decreases |remaining|
    {
      var ltIndex := IndexOf(remaining, Open);
      if ltIndex == -1 {
        MarkupLiteralRest(remaining);
        html := html + RenderTextWithSquares(remaining);
        break;
      }
      var before := remaining[..ltIndex];
      var gtIndex := IndexOfFrom(remaining, Close, ltIndex + 1);
      if gtIndex == -1 {
        MarkupLiteralRest(remaining);
        html := html + RenderTextWithSquares(remaining);
        break;
      }
      var reading := remaining[ltIndex + 1..gtIndex];
      var piece := GroupHtml(before, reading);
      FirstGroupFound(remaining, ltIndex, gtIndex);
      MarkupStep(remaining, ltIndex, gtIndex);
      ConcatAssoc(html, piece, ProblemHtml(remaining[gtIndex + 1..]));
      html := html + piece;
      remaining := remaining[gtIndex + 1..];
    }
  }
}
