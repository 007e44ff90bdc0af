/** Word wrap of the PDF export: greedy, with hard splits, under any additive glyph widths. */
module TextLayout {
  import opened Prelude

  /** Glyph widths at one font size, and the width of the text area. */
  datatype Sheet = Sheet(glyph: char -> real, max: real)

  /** A string is as wide as its glyphs together. */
  function Width(p: Sheet, s: string): real {
    if s == "" then 0.0 else Width(p, s[..|s| - 1]) + p.glyph(s[|s| - 1])
  }

  predicate Fits(p: Sheet, s: string) {
    Width(p, s) <= p.max
  }

  // ----- splitting and joining -----

  function Split(s: string, sep: char): (parts: seq<string>)
    ensures parts != []
  {
    if s == "" then [""]
    else
      var rest := Split(s[1..], sep);
      if s[0] == sep then [""] + rest else [[s[0]] + rest[0]] + rest[1..]
  }

  function Join(parts: seq<string>, sep: char): string {
    if parts == [] then ""
    else if |parts| == 1 then parts[0]
    else parts[0] + [sep] + Join(parts[1..], sep)
  }

  function Concat(parts: seq<string>): string {
    if parts == [] then "" else parts[0] + Concat(parts[1..])
  }

  function Without(s: string, c: char): string {
    if s == "" then "" else (if s[0] == c then "" else [s[0]]) + Without(s[1..], c)
  }

  lemma {:induction false} WithoutApart(a: string, b: string, c: char)
    ensures Without(a + b, c) == Without(a, c) + Without(b, c)
  {
    if a == "" {
      assert a + b == b;
    } else {
      assert (a + b)[1..] == a[1..] + b;
      WithoutApart(a[1..], b, c);
    }
  }

  lemma {:induction false} SplitOfPlain(s: string, sep: char)
    requires sep !in s
    ensures Split(s, sep) == [s]
  {
    if s != "" {
      SplitOfPlain(s[1..], sep);
      assert [s[0]] + s[1..] == s;
    }
  }

  lemma {:induction false} SplitOfPrefixed(s: string, rest: string, sep: char)
    requires sep !in s
    ensures Split(s + [sep] + rest, sep) == [s] + Split(rest, sep)
  {
    var all := s + [sep] + rest;
    if s == "" {
      assert all[1..] == rest;
    } else {
      assert all[1..] == s[1..] + [sep] + rest;
      SplitOfPrefixed(s[1..], rest, sep);
      assert [s[0]] + s[1..] == s;
    }
  }

  lemma {:induction false} SplitOfJoin(parts: seq<string>, sep: char)
    requires parts != [] && forall i :: 0 <= i < |parts| ==> sep !in parts[i]
    ensures Split(Join(parts, sep), sep) == parts
  {
    if |parts| == 1 {
      SplitOfPlain(parts[0], sep);
    } else {
      SplitOfJoin(parts[1..], sep);
      SplitOfPrefixed(parts[0], Join(parts[1..], sep), sep);
    }
  }

  // ----- the greedy wrap -----

  /** The longest fitting prefix of at most n characters, or one character. */
  function Cut(p: Sheet, word: string, n: nat): (cut: nat)
    requires 1 <= n <= |word|
    ensures 1 <= cut <= n
    ensures cut == 1 || Fits(p, word[..cut])
    ensures forall k :: cut < k <= n ==> !Fits(p, word[..k])
    ensures n > 1 && !Fits(p, word[..n]) ==> cut < n
  {
    if n > 1 && !Fits(p, word[..n]) then Cut(p, word, n - 1) else n
  }

  /** A word cut to the width; the last piece is what is left to continue with. */
  function Pieces(p: Sheet, word: string): (r: seq<string>)
    ensures r != []
  {
    if !Fits(p, word) && |word| > 1 then
      var cut := Cut(p, word, |word|);
      [word[..cut]] + Pieces(p, word[cut..])
    else [word]
  }

  function Candidate(current: string, word: string): string {
    if current == "" then word else current + " " + word
  }

  function Flushed(current: string): seq<string> {
    if current == "" then [] else [current]
  }

  function Greedy(p: Sheet, words: seq<string>, current: string): seq<string> {
    if words == [] then [current]
    else if Fits(p, Candidate(current, words[0])) then
      Greedy(p, words[1..], Candidate(current, words[0]))
    else
      var r := Pieces(p, words[0]);
      Flushed(current) + r[..|r| - 1] + Greedy(p, words[1..], r[|r| - 1])
  }

  function WrappedAll(p: Sheet, paragraphs: seq<string>): seq<string> {
    if paragraphs == [] then []
    else Greedy(p, Split(paragraphs[0], ' '), "") + WrappedAll(p, paragraphs[1..])
  }

  function Wrapped(p: Sheet, text: string): seq<string> {
    WrappedAll(p, Split(text, '\n'))
  }

  method HardSplit(p: Sheet, word: string) returns (pieces: seq<string>, rest: string)
    ensures pieces + [rest] == Pieces(p, word)
  {
    pieces, rest := [], word;
    while !Fits(p, rest) && |rest| > 1
      invariant pieces + Pieces(p, rest) == Pieces(p, word)
      decreases |rest|
    {
      var cut := |rest|;
      while cut > 1 && !Fits(p, rest[..cut])
        invariant 1 <= cut <= |rest|
        invariant Cut(p, rest, cut) == Cut(p, rest, |rest|)
      {
        cut := cut - 1;
      }
      ghost var after := Pieces(p, rest[cut..]);
      assert pieces + ([rest[..cut]] + after) == pieces + [rest[..cut]] + after;
      pieces := pieces + [rest[..cut]];
      rest := rest[cut..];
    }
  }

  method WrapParagraph(p: Sheet, words: seq<string>) returns (lines: seq<string>)
    ensures lines == Greedy(p, words, "")
  {
    lines := [];
    var current := "";
    for i := 0 to |words|
      invariant lines + Greedy(p, words[i..], current) == Greedy(p, words, "")
    {
      GreedyContinues(p, words, i, current);
      var candidate := if current == "" then words[i] else current + " " + words[i];
      if Fits(p, candidate) {
        current := candidate;
      } else {
        var pieces, rest := HardSplit(p, words[i]);
        GreedyBreaks(p, words, i, current, pieces, rest);
        GreedyWritten(lines, current, pieces, Greedy(p, words[i + 1..], rest));
        if current != "" {
          lines := lines + [current];
          current := "";
        }
        lines := lines + pieces;
        current := rest;
      }
    }
    lines := lines + [current];
  }

  lemma GreedyContinues(p: Sheet, words: seq<string>, i: nat, current: string)
    requires i < |words|
    ensures Fits(p, Candidate(current, words[i])) ==>
      Greedy(p, words[i..], current) == Greedy(p, words[i + 1..], Candidate(current, words[i]))
  {
    assert words[i..][1..] == words[i + 1..];
  }

  lemma GreedyBreaks(p: Sheet, words: seq<string>, i: nat, current: string, pieces: seq<string>, rest: string)
    requires i < |words| && !Fits(p, Candidate(current, words[i]))
    requires pieces + [rest] == Pieces(p, words[i])
    ensures Greedy(p, words[i..], current) == Flushed(current) + pieces + Greedy(p, words[i + 1..], rest)
  {
    assert words[i..][1..] == words[i + 1..];
    var r := Pieces(p, words[i]);
    assert r[..|r| - 1] == pieces && r[|r| - 1] == rest;
  }

  lemma GreedyWritten(lines: seq<string>, current: string, pieces: seq<string>, after: seq<string>)
    ensures lines + (Flushed(current) + pieces + after) ==
      (if current == "" then lines else lines + [current]) + pieces + after
  {
  }

  method PdfWrap(p: Sheet, text: string) returns (lines: seq<string>)
    ensures lines == Wrapped(p, text)
  {
    lines := [];
    var paragraphs := Split(text, '\n');
    for i := 0 to |paragraphs|
      invariant lines + WrappedAll(p, paragraphs[i..]) == Wrapped(p, text)
    {
      assert paragraphs[i..][1..] == paragraphs[i + 1..];
      var wrapped := WrapParagraph(p, Split(paragraphs[i], ' '));
      lines := lines + wrapped;
    }
  }

  // ----- no line runs off the page -----

  predicate Narrow(p: Sheet, line: string) {
    Fits(p, line) || |line| <= 1
  }

  ghost predicate AllNarrow(p: Sheet, lines: seq<string>) {
    forall i :: 0 <= i < |lines| ==> Narrow(p, lines[i])
  }

  lemma {:induction false} PiecesAreNarrow(p: Sheet, word: string)
    ensures AllNarrow(p, Pieces(p, word))
  {
    if !Fits(p, word) && |word| > 1 {
      PiecesAreNarrow(p, word[Cut(p, word, |word|)..]);
    }
  }

  lemma {:induction false} PiecesAreSomething(p: Sheet, word: string)
    requires word != ""
    ensures Pieces(p, word)[0] != "" && Pieces(p, word)[0][0] == word[0]
    ensures forall i :: 0 <= i < |Pieces(p, word)| ==> Pieces(p, word)[i] != ""
  {
    assert word[..|word|] == word;
    if !Fits(p, word) && |word| > 1 {
      PiecesAreSomething(p, word[Cut(p, word, |word|)..]);
    }
  }

  /** A piece of a hard-split word would not fit with one more character of the next. */
  lemma {:induction false} PiecesAreLongest(p: Sheet, word: string, i: nat)
    requires i + 1 < |Pieces(p, word)|
    ensures var r := Pieces(p, word);
      r[i] != "" && r[i + 1] != "" && !Fits(p, r[i] + r[i + 1][..1])
  {
    assert word[..|word|] == word;
    var cut := Cut(p, word, |word|);
    var rest := word[cut..];
    assert Pieces(p, word)[1..] == Pieces(p, rest);
    if i == 0 {
      PiecesAreSomething(p, rest);
      assert word[..cut] + rest[..1] == word[..cut + 1];
    } else {
      PiecesAreLongest(p, rest, i - 1);
    }
  }

  lemma {:induction false} GreedyIsNarrow(p: Sheet, words: seq<string>, current: string)
    requires Narrow(p, current)
    ensures AllNarrow(p, Greedy(p, words, current))
  {
    if words != [] {
      var r := Pieces(p, words[0]);
      PiecesAreNarrow(p, words[0]);
      if Fits(p, Candidate(current, words[0])) {
        GreedyIsNarrow(p, words[1..], Candidate(current, words[0]));
      } else {
        GreedyIsNarrow(p, words[1..], r[|r| - 1]);
      }
    }
  }

  lemma {:induction false} WrappedAllIsNarrow(p: Sheet, paragraphs: seq<string>)
    ensures AllNarrow(p, WrappedAll(p, paragraphs))
  {
    if paragraphs != [] {
      GreedyIsNarrow(p, Split(paragraphs[0], ' '), "");
      WrappedAllIsNarrow(p, paragraphs[1..]);
    }
  }

  /** Every line fits the width or is a single character at most. */
  lemma EveryLineFits(p: Sheet, text: string)
    ensures forall i :: 0 <= i < |Wrapped(p, text)| ==> Narrow(p, Wrapped(p, text)[i])
  {
    WrappedAllIsNarrow(p, Split(text, '\n'));
  }

  // ----- no text is lost -----

  /** What the lines show: their characters in order, spaces aside. */
  function Ink(lines: seq<string>): string {
    if lines == [] then "" else Without(lines[0], ' ') + Ink(lines[1..])
  }

  lemma {:induction false} InkApart(a: seq<string>, b: seq<string>)
    ensures Ink(a + b) == Ink(a) + Ink(b)
  {
    if a == [] {
      assert a + b == b;
    } else {
      assert (a + b)[1..] == a[1..] + b;
      InkApart(a[1..], b);
    }
  }

  lemma InkOfOne(line: string)
    ensures Ink([line]) == Without(line, ' ')
  {
    assert [line][1..] == [];
  }

  lemma {:induction false} InkOfConcat(lines: seq<string>)
    ensures Ink(lines) == Without(Concat(lines), ' ')
  {
    if lines != [] {
      InkOfConcat(lines[1..]);
      WithoutApart(lines[0], Concat(lines[1..]), ' ');
    }
  }

  lemma {:induction false} InkOfPieces(p: Sheet, word: string)
    ensures Ink(Pieces(p, word)) == Without(word, ' ')
  {
    if !Fits(p, word) && |word| > 1 {
      var cut := Cut(p, word, |word|);
      InkOfPieces(p, word[cut..]);
      InkApart([word[..cut]], Pieces(p, word[cut..]));
      InkOfOne(word[..cut]);
      WithoutApart(word[..cut], word[cut..], ' ');
      assert word[..cut] + word[cut..] == word;
    } else {
      InkOfOne(word);
    }
  }

  lemma InkOfCandidate(current: string, word: string)
    ensures Without(Candidate(current, word), ' ') == Without(current, ' ') + Without(word, ' ')
  {
    WithoutApart(current + " ", word, ' ');
    WithoutApart(current, " ", ' ');
    assert Without(" ", ' ') == "";
  }

  lemma {:induction false} GreedyKeepsInk(p: Sheet, words: seq<string>, current: string)
    ensures Ink(Greedy(p, words, current)) == Without(current, ' ') + Ink(words)
  {
    if words == [] {
      InkOfOne(current);
    } else if Fits(p, Candidate(current, words[0])) {
      InkOfCandidate(current, words[0]);
      GreedyKeepsInk(p, words[1..], Candidate(current, words[0]));
      Regroup(Without(current, ' '), Without(words[0], ' '), Ink(words[1..]));
    } else {
      var r := Pieces(p, words[0]);
      GreedyKeepsInk(p, words[1..], r[|r| - 1]);
      InkOfPieces(p, words[0]);
      BreakKeepsInk(current, r, Greedy(p, words[1..], r[|r| - 1]), Ink(words[1..]));
    }
  }

  lemma BreakKeepsInk(current: string, pieces: seq<string>, lines: seq<string>, after: string)
    requires pieces != [] && Ink(lines) == Without(pieces[|pieces| - 1], ' ') + after
    ensures Ink(Flushed(current) + pieces[..|pieces| - 1] + lines) == Without(current, ' ') + (Ink(pieces) + after)
  {
    var front, last := pieces[..|pieces| - 1], pieces[|pieces| - 1];
    assert pieces == front + [last];
    InkApart(Flushed(current) + front, lines);
    InkApart(Flushed(current), front);
    InkApart(front, [last]);
    InkOfOne(last);
    InkOfOne(current);
    assert Ink(Flushed(current)) == Without(current, ' ');
    Regroup(Without(current, ' '), Ink(front), Without(last, ' ') + after);
    Regroup(Ink(front), Without(last, ' '), after);
  }

  /** Splitting loses the separators and nothing else. */
  lemma {:induction false} InkOfWords(s: string)
    ensures Ink(Split(s, ' ')) == Without(s, ' ')
  {
    if s == "" {
      InkOfOne("");
    } else {
      var rest := Split(s[1..], ' ');
      InkOfWords(s[1..]);
      if s[0] == ' ' {
        InkApart([""], rest);
        InkOfOne("");
      } else {
        WithoutApart([s[0]], rest[0], ' ');
        assert [s[0]][1..] == "";
        assert ([[s[0]] + rest[0]] + rest[1..])[1..] == rest[1..];
      }
    }
  }

  lemma {:induction false} SplitLosesSeparators(s: string, sep: char)
    ensures Concat(Split(s, sep)) == Without(s, sep)
  {
    if s != "" {
      var rest := Split(s[1..], sep);
      SplitLosesSeparators(s[1..], sep);
      if s[0] == sep {
        assert ([""] + rest)[1..] == rest;
      } else {
        assert ([[s[0]] + rest[0]] + rest[1..])[1..] == rest[1..];
      }
    }
  }

  lemma {:induction false} WrappedAllKeepsInk(p: Sheet, paragraphs: seq<string>)
    ensures Ink(WrappedAll(p, paragraphs)) == Ink(paragraphs)
  {
    if paragraphs != [] {
      WrappedAllKeepsInk(p, paragraphs[1..]);
      GreedyKeepsInk(p, Split(paragraphs[0], ' '), "");
      InkOfWords(paragraphs[0]);
      InkApart(Greedy(p, Split(paragraphs[0], ' '), ""), WrappedAll(p, paragraphs[1..]));
    }
  }

  /** The lines together, spaces aside, are the text, spaces and line ends aside. */
  lemma NoTextIsLost(p: Sheet, text: string)
    ensures Without(Concat(Wrapped(p, text)), ' ') == Without(Without(text, '\n'), ' ')
  {
    InkOfConcat(Wrapped(p, text));
    WrappedAllKeepsInk(p, Split(text, '\n'));
    InkOfConcat(Split(text, '\n'));
    SplitLosesSeparators(text, '\n');
  }

  /** Paragraphs are wrapped apart, and a blank paragraph stays one blank line. */
  lemma ParagraphsApart(p: Sheet, paragraph: string, text: string)
    requires '\n' !in paragraph
    ensures Wrapped(p, paragraph + "\n" + text) == Wrapped(p, paragraph) + Wrapped(p, text)
    ensures Wrapped(p, paragraph) != [] && (paragraph == "" && 0.0 <= p.max ==> Wrapped(p, paragraph) == [""])
  {
    SplitOfPrefixed(paragraph, text, '\n');
    SplitOfPlain(paragraph, '\n');
    GreedyIsSomething(p, Split(paragraph, ' '), "");
    assert WrappedAll(p, [paragraph]) == Greedy(p, Split(paragraph, ' '), "");
  }

  lemma {:induction false} GreedyIsSomething(p: Sheet, words: seq<string>, current: string)
    ensures Greedy(p, words, current) != []
  {
    if words != [] {
      if Fits(p, Candidate(current, words[0])) {
        GreedyIsSomething(p, words[1..], Candidate(current, words[0]));
      } else {
        GreedyIsSomething(p, words[1..], Pieces(p, words[0])[|Pieces(p, words[0])| - 1]);
      }
    }
  }

  // ----- no breaking has fewer lines -----

  /** Words that never need a hard split. */
  ghost predicate Ordinary(p: Sheet, words: seq<string>) {
    forall i :: 0 <= i < |words| ==> words[i] != "" && Fits(p, words[i]) && ' ' !in words[i] && '\n' !in words[i]
  }

  ghost predicate NoNegativeGlyph(p: Sheet) {
    forall c :: p.glyph(c) >= 0.0
  }

  function Flat(groups: seq<seq<string>>): seq<string> {
    if groups == [] then [] else groups[0] + Flat(groups[1..])
  }

  /** A way to break the words into lines that all fit. */
  ghost predicate Breaking(p: Sheet, words: seq<string>, groups: seq<seq<string>>) {
    Flat(groups) == words &&
    forall i :: 0 <= i < |groups| ==> groups[i] != [] && Fits(p, Join(groups[i], ' '))
  }

  /** How many lines greedy still writes after a line already x wide. */
  function Count(p: Sheet, x: real, words: seq<string>): nat
    decreases |words|
  {
    if words == [] then 1
    else if x + Step(p, words[0]) <= p.max then Count(p, x + Step(p, words[0]), words[1..])
    else 1 + Count(p, Width(p, words[0]), words[1..])
  }

  function Step(p: Sheet, word: string): real {
    p.glyph(' ') + Width(p, word)
  }

  lemma {:induction false} WidthApart(p: Sheet, a: string, b: string)
    ensures Width(p, a + b) == Width(p, a) + Width(p, b)
  {
    if b == "" {
      assert a + b == a;
    } else {
      assert (a + b)[..|a + b| - 1] == a + b[..|b| - 1];
      WidthApart(p, a, b[..|b| - 1]);
    }
  }

  lemma {:induction false} WidthIsNatural(p: Sheet, s: string)
    requires NoNegativeGlyph(p)
    ensures Width(p, s) >= 0.0
  {
    if s != "" {
      WidthIsNatural(p, s[..|s| - 1]);
      assert p.glyph(s[|s| - 1]) >= 0.0;
    }
  }

  lemma WidthOfCandidate(p: Sheet, current: string, word: string)
    requires current != ""
    ensures Width(p, Candidate(current, word)) == Width(p, current) + Step(p, word)
  {
    WidthApart(p, current + " ", word);
    WidthApart(p, current, " ");
    assert Width(p, " ") == Width(p, "") + p.glyph(' ') by { assert " "[..0] == ""; }
  }

  lemma {:induction false} GreedyCounts(p: Sheet, words: seq<string>, current: string)
    requires Ordinary(p, words) && current != ""
    ensures |Greedy(p, words, current)| == Count(p, Width(p, current), words)
  {
    if words != [] {
      WidthOfCandidate(p, current, words[0]);
      assert Pieces(p, words[0]) == [words[0]];
      if Fits(p, Candidate(current, words[0])) {
        GreedyCounts(p, words[1..], Candidate(current, words[0]));
      } else {
        GreedyCounts(p, words[1..], words[0]);
      }
    }
  }

  /** A narrower start never costs lines, and starting afresh costs at most one. */
  lemma {:induction false} GreedyStaysAhead(p: Sheet, x: real, y: real, words: seq<string>)
    requires NoNegativeGlyph(p) && 0.0 <= x && 0.0 <= y
    ensures x <= y ==> Count(p, x, words) <= Count(p, y, words)
    ensures Count(p, y, words) <= 1 + Count(p, x, words)
    decreases |words|
  {
    if words != [] {
      var step, anew, rest := Step(p, words[0]), Width(p, words[0]), words[1..];
      WidthIsNatural(p, words[0]);
      assert p.glyph(' ') >= 0.0;
      GreedyStaysAhead(p, x + step, y + step, rest);
      GreedyStaysAhead(p, anew, x + step, rest);
      GreedyStaysAhead(p, anew, y + step, rest);
    }
  }

  /** Width of words that follow others on a line. */
  function Following(p: Sheet, words: seq<string>): real {
    if words == [] then 0.0 else Step(p, words[0]) + Following(p, words[1..])
  }

  lemma {:induction false} FollowingIsNatural(p: Sheet, words: seq<string>)
    requires NoNegativeGlyph(p)
    ensures Following(p, words) >= 0.0
  {
    if words != [] {
      FollowingIsNatural(p, words[1..]);
      WidthIsNatural(p, words[0]);
      assert p.glyph(' ') >= 0.0;
    }
  }

  lemma {:induction false} JoinWidth(p: Sheet, words: seq<string>)
    requires words != []
    ensures Width(p, Join(words, ' ')) == Width(p, words[0]) + Following(p, words[1..])
  {
    if |words| > 1 {
      JoinWidth(p, words[1..]);
      WidthApart(p, words[0] + [' '], Join(words[1..], ' '));
      WidthApart(p, words[0], [' ']);
      assert Width(p, [' ']) == p.glyph(' ') by { assert [' '][..0] == ""; }
    }
  }

  lemma {:induction false} OneLine(p: Sheet, x: real, words: seq<string>, rest: seq<string>)
    requires NoNegativeGlyph(p) && x + Following(p, words) <= p.max
    ensures Count(p, x, words + rest) == Count(p, x + Following(p, words), rest)
    decreases |words|
  {
    if words == [] {
      assert words + rest == rest;
    } else {
      assert (words + rest)[1..] == words[1..] + rest;
      FollowingIsNatural(p, words[1..]);
      OneLine(p, x + Step(p, words[0]), words[1..], rest);
    }
  }

  lemma {:induction false} AnyBreakingCounts(p: Sheet, groups: seq<seq<string>>)
    requires NoNegativeGlyph(p) && groups != []
    requires forall i :: 0 <= i < |groups| ==> groups[i] != [] && Fits(p, Join(groups[i], ' '))
    ensures Flat(groups) != []
    ensures Count(p, Width(p, Flat(groups)[0]), Flat(groups)[1..]) <= |groups|
  {
    var g, rest := groups[0], Flat(groups[1..]);
    assert Flat(groups) == g + rest;
    if |groups| > 1 {
      AnyBreakingCounts(p, groups[1..]);
    }
    LineThenRest(p, g, rest);
  }

  lemma LineThenRest(p: Sheet, g: seq<string>, rest: seq<string>)
    requires NoNegativeGlyph(p) && g != [] && Fits(p, Join(g, ' '))
    ensures var all := g + rest;
      Count(p, Width(p, all[0]), all[1..]) <=
      1 + if rest == [] then 0 else Count(p, Width(p, rest[0]), rest[1..])
  {
    assert (g + rest)[0] == g[0] && (g + rest)[1..] == g[1..] + rest;
    JoinWidth(p, g);
    WidthIsNatural(p, g[0]);
    TailThenRest(p, Width(p, g[0]), g[1..], rest);
  }

  lemma TailThenRest(p: Sheet, x: real, tail: seq<string>, rest: seq<string>)
    requires NoNegativeGlyph(p) && 0.0 <= x && x + Following(p, tail) <= p.max
    ensures Count(p, x, tail + rest) <= 1 + if rest == [] then 0 else Count(p, Width(p, rest[0]), rest[1..])
  {
    OneLine(p, x, tail, rest);
    FollowingIsNatural(p, tail);
    if rest != [] { StartingAfresh(p, x + Following(p, tail), rest); }
  }

  lemma StartingAfresh(p: Sheet, x: real, words: seq<string>)
    requires NoNegativeGlyph(p) && 0.0 <= x && words != []
    ensures Count(p, x, words) <= 1 + Count(p, Width(p, words[0]), words[1..])
  {
    WidthIsNatural(p, words[0]);
    assert p.glyph(' ') >= 0.0;
    GreedyStaysAhead(p, Width(p, words[0]), x + Step(p, words[0]), words[1..]);
  }

  /** The groups of words that greedy puts on its lines, the first line already holding some. */
  function Groups(p: Sheet, words: seq<string>, line: seq<string>): seq<seq<string>> {
    if words == [] then [line]
    else if Fits(p, Join(line + [words[0]], ' ')) then Groups(p, words[1..], line + [words[0]])
    else [line] + Groups(p, words[1..], [words[0]])
  }

  function Joined(groups: seq<seq<string>>): seq<string> {
    if groups == [] then [] else [Join(groups[0], ' ')] + Joined(groups[1..])
  }

  lemma {:induction false} JoinLast(line: seq<string>, word: string, sep: char)
    requires line != []
    ensures Join(line + [word], sep) == Join(line, sep) + [sep] + word
  {
    if |line| == 1 {
      assert (line + [word])[1..] == [word];
    } else {
      assert (line + [word])[1..] == line[1..] + [word];
      JoinLast(line[1..], word, sep);
    }
  }

  lemma {:induction false} GroupsBreak(p: Sheet, words: seq<string>, line: seq<string>)
    requires Ordinary(p, words) && line != [] && Fits(p, Join(line, ' '))
    ensures Breaking(p, line + words, Groups(p, words, line))
  {
    if words == [] {
      assert Flat([line]) == line + words by { assert [line][1..] == []; }
    } else {
      var word, rest := words[0], words[1..];
      if Fits(p, Join(line + [word], ' ')) {
        assert line + [word] + rest == line + words;
        GroupsBreak(p, rest, line + [word]);
      } else {
        GroupsBreak(p, rest, [word]);
        OneLineMore(p, line, [word] + rest, Groups(p, rest, [word]));
        assert line + ([word] + rest) == line + words;
      }
    }
  }

  lemma OneLineMore(p: Sheet, line: seq<string>, words: seq<string>, groups: seq<seq<string>>)
    requires line != [] && Fits(p, Join(line, ' ')) && Breaking(p, words, groups)
    ensures Breaking(p, line + words, [line] + groups)
  {
    assert ([line] + groups)[1..] == groups;
  }

  lemma {:induction false} GreedyWritesGroups(p: Sheet, words: seq<string>, line: seq<string>)
    requires Ordinary(p, words) && line != [] && Join(line, ' ') != ""
    ensures Greedy(p, words, Join(line, ' ')) == Joined(Groups(p, words, line))
  {
    if words == [] {
      assert [line][1..] == [];
    } else {
      var word, rest := words[0], words[1..];
      JoinLast(line, word, ' ');
      assert Join(line, ' ') + [' '] + word == Candidate(Join(line, ' '), word);
      if Fits(p, Join(line + [word], ' ')) {
        GreedyWritesGroups(p, rest, line + [word]);
      } else {
        assert Pieces(p, word) == [word];
        GreedyWritesGroups(p, rest, [word]);
        assert ([line] + Groups(p, rest, [word]))[1..] == Groups(p, rest, [word]);
      }
    }
  }

  lemma WrappedParagraph(p: Sheet, words: seq<string>)
    requires words != [] && Ordinary(p, words)
    ensures Wrapped(p, Join(words, ' ')) == Greedy(p, words[1..], words[0])
  {
    var text := Join(words, ' ');
    JoinHolds(words, ' ', '\n');
    SplitOfPlain(text, '\n');
    SplitOfJoin(words, ' ');
    assert [text][1..] == [];
    assert WrappedAll(p, []) == [];
    assert WrappedAll(p, [text]) == Greedy(p, words, "") + [];
  }

  lemma {:induction false} JoinHolds(words: seq<string>, sep: char, c: char)
    requires c != sep && forall i :: 0 <= i < |words| ==> c !in words[i]
    ensures c !in Join(words, sep)
  {
    if |words| > 1 { JoinHolds(words[1..], sep, c); }
  }

  /** Greedy is a breaking at spaces whose lines all fit, and no such breaking has fewer lines. */
  lemma GreedyIsMinimal(p: Sheet, words: seq<string>, groups: seq<seq<string>>)
    requires NoNegativeGlyph(p) && words != [] && Ordinary(p, words)
    ensures exists own :: Breaking(p, words, own) && Wrapped(p, Join(words, ' ')) == Joined(own)
    ensures Breaking(p, words, groups) ==> |Wrapped(p, Join(words, ' '))| <= |groups|
  {
    WrappedParagraph(p, words);
    assert Join([words[0]], ' ') == words[0];
    GroupsBreak(p, words[1..], [words[0]]);
    GreedyWritesGroups(p, words[1..], [words[0]]);
    assert [words[0]] + words[1..] == words;
    if Breaking(p, words, groups) {
      GreedyCounts(p, words[1..], words[0]);
      AnyBreakingCounts(p, groups);
    }
  }
}
