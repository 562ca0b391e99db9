/** Literal text as markup: `escapeHtml` (app.js:477-494) and
    `renderTextWithSquares` (app.js:592-607), with a decoder that reads the
    text back from the markup they produce. */
module Html {
  import opened Strings

  /** The placeholder glyph U+25A1 WHITE SQUARE that marks a blank in a problem. */
  const Square: char := '□'

  /** The element that stands in for each placeholder glyph. */
  const SquareSpan: string := "<span class=\"placeholder-square\"" + " aria-hidden=\"true\"></span>"

  /** The five characters that have meaning in markup. */
  predicate IsMarkupSpecial(c: char)
  {
    c == '&' || c == '<' || c == '>' || c == '"' || c == '\''
  }

  /** What the replacement callback of `escapeHtml` returns for one character. */
  function EscapeChar(c: char): string
  {
    if c == '&' then "&amp;"
    else if c == '<' then "&lt;"
    else if c == '>' then "&gt;"
    else if c == '"' then "&quot;"
    else if c == '\'' then "&#39;"
    else [c]
  }

  /** The characters that may follow the `&` of an entity: lower-case letters,
      digits, `#` and the closing `;`. */
  predicate IsEntityChar(c: char)
  {
    ('a' <= c <= 'z') || ('0' <= c <= '9') || c == '#' || c == ';'
  }

  /** A string that is `&` followed by entity characters holds exactly one `&`
      and none of the other four markup-special characters. */
  lemma EntityFacts(e: string)
    requires |e| > 0 && e[0] == '&'
    requires forall i :: 1 <= i < |e| ==> IsEntityChar(e[i])
    ensures '<' !in e && '>' !in e && '"' !in e && '\'' !in e
    ensures Count(e, '&') == 1
  {
    assert '&' !in e[1..];
  }

  /** Each entity begins with the one `&` it holds and has no other markup-special character. */
  lemma EscapeCharFacts(c: char)
    ensures '<' !in EscapeChar(c) && '>' !in EscapeChar(c)
    ensures '"' !in EscapeChar(c) && '\'' !in EscapeChar(c)
    ensures Count(EscapeChar(c), '&') == if IsMarkupSpecial(c) then 1 else 0
    ensures IsMarkupSpecial(c) ==> EscapeChar(c)[0] == '&'
    ensures !IsMarkupSpecial(c) ==> EscapeChar(c) == [c]
  {
    if IsMarkupSpecial(c) {
      EntityFacts(EscapeChar(c));
    }
  }

  /** Number of markup-special characters in `s`. */
  function CountSpecial(s: string): (n: nat)
    ensures n <= |s|
  {
    if |s| == 0 then 0 else (if IsMarkupSpecial(s[0]) then 1 else 0) + CountSpecial(s[1..])
  }

  /** `escapeHtml(value)`: every markup-special character replaced by its entity,
      every other character kept. The result never contains `<`, `>`, `"` or `'`,
      carries one `&` per special character of the input (each entity has exactly
      one), and is the input itself when the input has no special character. */
  function EscapeHtml(s: string): (r: string)
    ensures '<' !in r && '>' !in r && '"' !in r && '\'' !in r
    ensures Count(r, '&') == CountSpecial(s)
    ensures CountSpecial(s) == 0 ==> r == s
  {
    if |s| == 0 then []
    else
      EscapeCharFacts(s[0]);
      CountConcat(EscapeChar(s[0]), EscapeHtml(s[1..]), '&');
      assert CountSpecial(s) == 0 ==> [s[0]] + s[1..] == s;
      EscapeChar(s[0]) + EscapeHtml(s[1..])
  }

  lemma {:induction false} EscapeConcat(a: string, b: string)
    ensures EscapeHtml(a + b) == EscapeHtml(a) + EscapeHtml(b)
  {
    if |a| == 0 {
      assert a + b == b;
    } else {
      assert (a + b)[1..] == a[1..] + b;
      EscapeConcat(a[1..], b);
    }
  }

  /** One character of plain text as it appears in markup. */
  function RenderChar(c: char): string
  {
    if c == Square then SquareSpan else EscapeChar(c)
  }

  /** Character-by-character rendering: the reference the split-and-join of
      `renderTextWithSquares` is proved equal to. */
  function RenderChars(s: string): string
  {
    if |s| == 0 then [] else RenderChar(s[0]) + RenderChars(s[1..])
  }

  /** The loop of app.js:599-605: each part escaped, `between` (the
      placeholder element) put between consecutive parts. */
  function JoinEscaped(parts: seq<string>, between: string): string
  {
    if |parts| == 0 then []
    else if |parts| == 1 then EscapeHtml(parts[0])
    else EscapeHtml(parts[0]) + between + JoinEscaped(parts[1..], between)
  }

  /** `renderTextWithSquares(text)`: empty text renders as nothing, text
      without a placeholder glyph is just escaped, and otherwise the text is
      split at the glyphs and the escaped parts are joined with the placeholder
      element. The result is the character-by-character rendering. */
  function RenderTextWithSquares(text: string): (r: string)
    ensures r == RenderChars(text)
  {
    if |text| == 0 then []
    else if Square !in text then
      EscapeWithoutSquares(text);
      EscapeHtml(text)
    else
      SplitRendering(text);
      JoinEscaped(Split(text, Square), SquareSpan)
  }

  lemma {:induction false} EscapeWithoutSquares(s: string)
    requires Square !in s
    ensures EscapeHtml(s) == RenderChars(s)
  {
    if |s| > 0 {
      EscapeWithoutSquares(s[1..]);
    }
  }

  /** Escaping the parts and putting a placeholder between them renders every
      character of the split text in turn. */
  lemma {:induction false} SplitRendering(s: string)
    ensures JoinEscaped(Split(s, Square), SquareSpan) == RenderChars(s)
  {
    if |s| > 0 {
      var rest := Split(s[1..], Square);
      SplitRendering(s[1..]);
      if s[0] == Square {
        assert Split(s, Square) == [[]] + rest;
        JoinAfterEmptyPart(rest, SquareSpan);
      } else {
        assert Split(s, Square) == [[s[0]] + rest[0]] + rest[1..];
        JoinAfterChar(s[0], rest, SquareSpan);
      }
    }
  }

  /** Escaping works one character at a time from the front. */
  lemma EscapeCons(c: char, s: string)
    ensures EscapeHtml([c] + s) == EscapeChar(c) + EscapeHtml(s)
  {
    var t := [c] + s;
    assert t[0] == c && t[1..] == s;
  }

  /** The first part of a join, escaped, then the rest of the join. */
  lemma JoinFirst(parts: seq<string>, between: string)
    requires |parts| >= 1
    ensures JoinEscaped(parts, between)
      == EscapeHtml(parts[0]) + (if |parts| == 1 then [] else between + JoinEscaped(parts[1..], between))
  {
    if |parts| == 1 {
      assert EscapeHtml(parts[0]) + [] == EscapeHtml(parts[0]);
    } else {
      ConcatAssoc(EscapeHtml(parts[0]), between, JoinEscaped(parts[1..], between));
    }
  }

  lemma JoinAfterEmptyPart(parts: seq<string>, between: string)
    requires |parts| >= 1
    ensures JoinEscaped([[]] + parts, between) == between + JoinEscaped(parts, between)
  {
    var ps := [[]] + parts;
    JoinFirst(ps, between);
    assert ps[1..] == parts;
    var tail := between + JoinEscaped(parts, between);
    assert EscapeHtml(ps[0]) + tail == [] + tail;
    assert [] + tail == tail;
  }

  lemma JoinAfterChar(c: char, parts: seq<string>, between: string)
    requires |parts| >= 1
    ensures JoinEscaped([[c] + parts[0]] + parts[1..], between) == EscapeChar(c) + JoinEscaped(parts, between)
  {
    var ps := [[c] + parts[0]] + parts[1..];
    JoinFirst(ps, between);
    JoinFirst(parts, between);
    assert ps[0] == [c] + parts[0] && ps[1..] == parts[1..];
    EscapeCons(c, parts[0]);
    var tail := if |parts| == 1 then [] else between + JoinEscaped(parts[1..], between);
    ConcatAssoc(EscapeChar(c), EscapeHtml(parts[0]), tail);
  }

  /** The character a markup prefix stands for and how long that prefix is:
      the placeholder element, one of the five entities, or a single character. */
  function DecodeStep(s: string): (r: (char, nat))
    requires |s| > 0
    ensures 1 <= r.1 <= |s|
  {
    if StartsWith(s, SquareSpan) then (Square, |SquareSpan|)
    else if StartsWith(s, "&amp;") then ('&', 5)
    else if StartsWith(s, "&lt;") then ('<', 4)
    else if StartsWith(s, "&gt;") then ('>', 4)
    else if StartsWith(s, "&quot;") then ('"', 6)
    else if StartsWith(s, "&#39;") then ('\'', 5)
    else (s[0], 1)
  }

  /** The text a run of rendered markup displays: the inverse of rendering. */
  function DecodeText(s: string): string
    decreases |s|
  {
    if |s| == 0 then []
    else
      var (c, n) := DecodeStep(s);
      [c] + DecodeText(s[n..])
  }

  /** A prefix is absent when some position within both strings differs. */
  lemma NotStartsWith(s: string, prefix: string, k: nat)
    requires k < |s| && k < |prefix| && s[k] != prefix[k]
    ensures !StartsWith(s, prefix)
  {
  }


  lemma DecodePlainChar(c: char, rest: string)
    requires c != '<' && c != '&'
    ensures DecodeText([c] + rest) == [c] + DecodeText(rest)
  {
    var s := [c] + rest;
    NotStartsWith(s, SquareSpan, 0);
    NotStartsWith(s, "&amp;", 0);
    NotStartsWith(s, "&lt;", 0);
    NotStartsWith(s, "&gt;", 0);
    NotStartsWith(s, "&quot;", 0);
    NotStartsWith(s, "&#39;", 0);
    assert s[1..] == rest;
  }

  lemma DecodeSpan(rest: string)
    ensures DecodeText(SquareSpan + rest) == [Square] + DecodeText(rest)
  {
    var s := SquareSpan + rest;
    assert s[..|SquareSpan|] == SquareSpan;
    assert s[|SquareSpan|..] == rest;
  }

  lemma DecodeEntity(c: char, rest: string)
    requires IsMarkupSpecial(c)
    ensures DecodeText(EscapeChar(c) + rest) == [c] + DecodeText(rest)
  {
    var e := EscapeChar(c);
    var s := e + rest;
    assert s[..|e|] == e;
    assert s[|e|..] == rest;
    NotStartsWith(s, SquareSpan, 0);
    if c != '&' {
      NotStartsWith(s, "&amp;", 1);
      if c != '<' {
        NotStartsWith(s, "&lt;", 1);
        if c != '>' {
          NotStartsWith(s, "&gt;", 1);
          if c != '"' {
            NotStartsWith(s, "&quot;", 1);
          }
        }
      }
    }
  }

  /** Decoding reads back exactly the character an escaped character came from. */
  lemma DecodeEscapedChar(c: char, rest: string)
    ensures DecodeText(EscapeChar(c) + rest) == [c] + DecodeText(rest)
  {
    if IsMarkupSpecial(c) {
      DecodeEntity(c, rest);
    } else {
      DecodePlainChar(c, rest);
    }
  }

  /** Decoding reads back exactly the character a rendered character came from. */
  lemma DecodeRenderedChar(c: char, rest: string)
    ensures DecodeText(RenderChar(c) + rest) == [c] + DecodeText(rest)
  {
    if c == Square {
      DecodeSpan(rest);
    } else {
      DecodeEscapedChar(c, rest);
    }
  }

  lemma {:induction false} RenderedDecodes(s: string)
    ensures DecodeText(RenderChars(s)) == s
  {
    if |s| > 0 {
      RenderedDecodes(s[1..]);
      DecodeRenderedChar(s[0], RenderChars(s[1..]));
    }
  }

  /** Escaping loses nothing: decoding the escaped text gives the text back. */
  lemma {:induction false} EscapeRoundTrip(s: string)
    ensures DecodeText(EscapeHtml(s)) == s
  {
    if |s| > 0 {
      EscapeRoundTrip(s[1..]);
      DecodeEscapedChar(s[0], EscapeHtml(s[1..]));
    }
  }

  /** Number of placeholder elements in a run of rendered markup. */
  function CountSpans(s: string): nat
    decreases |s|
  {
    if |s| == 0 then 0
    else if StartsWith(s, SquareSpan) then 1 + CountSpans(s[|SquareSpan|..])
    else CountSpans(s[1..])
  }

  /** Text without `<` holds no placeholder element, wherever it stands. */
  lemma {:induction false} SpansAfterPlainText(p: string, rest: string)
    requires '<' !in p
    ensures CountSpans(p + rest) == CountSpans(rest)
  {
    if |p| > 0 {
      NotStartsWith(p + rest, SquareSpan, 0);
      assert (p + rest)[1..] == p[1..] + rest;
      SpansAfterPlainText(p[1..], rest);
    } else {
      assert p + rest == rest;
    }
  }

  /** A placeholder element in front counts once. */
  lemma SpansAfterSpan(rest: string)
    ensures CountSpans(SquareSpan + rest) == 1 + CountSpans(rest)
  {
    var s := SquareSpan + rest;
    assert s[..|SquareSpan|] == SquareSpan;
    assert s[|SquareSpan|..] == rest;
  }

  lemma {:induction false} RenderedSpans(s: string)
    ensures CountSpans(RenderChars(s)) == Count(s, Square)
  {
    if |s| > 0 {
      RenderedSpans(s[1..]);
      if s[0] == Square {
        SpansAfterSpan(RenderChars(s[1..]));
      } else {
        EscapeCharFacts(s[0]);
        SpansAfterPlainText(RenderChar(s[0]), RenderChars(s[1..]));
      }
    }
  }

  /** The rendering of a text holds one placeholder element per glyph and
      decodes back to the text. */
  lemma RenderedText(text: string)
    ensures CountSpans(RenderTextWithSquares(text)) == Count(text, Square)
    ensures DecodeText(RenderTextWithSquares(text)) == text
  {
    RenderedSpans(text);
    RenderedDecodes(text);
  }
}
