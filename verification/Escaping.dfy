/** HTML escaping as the exports use it, and reading it back. */
module Escaping {
  import opened Prelude

  /** Every occurrence of a character replaced. */
  function Replaced(s: string, c: char, sub: string): string {
    if s == "" then "" else (if s[0] == c then sub else [s[0]]) + Replaced(s[1..], c, sub)
  }

  /** The ampersand first, or it would escape the other escapes. */
  function Escape(s: string, quote: bool): string {
    Angles(Replaced(s, '&', "&amp;"), quote)
  }

  function Angles(s: string, quote: bool): string {
    Quotes(Replaced(Replaced(s, '<', "&lt;"), '>', "&gt;"), quote)
  }

  function Quotes(s: string, quote: bool): string {
    if quote then Replaced(Replaced(s, '"', "&quot;"), '\'', "&#x27;") else s
  }

  function Escaped(c: char, quote: bool): string {
    if c == '&' then "&amp;"
    else if c == '<' then "&lt;"
    else if c == '>' then "&gt;"
    else if quote && c == '"' then "&quot;"
    else if quote && c == '\'' then "&#x27;"
    else [c]
  }

  lemma {:induction false} ReplacedApart(a: string, b: string, c: char, sub: string)
    ensures Replaced(a + b, c, sub) == Replaced(a, c, sub) + Replaced(b, c, sub)
  {
    if a == "" {
      assert a + b == b;
    } else {
      assert (a + b)[1..] == a[1..] + b;
      ReplacedApart(a[1..], b, c, sub);
    }
  }

  lemma {:induction false} ReplacedAbsent(s: string, c: char, sub: string)
    requires c !in s
    ensures Replaced(s, c, sub) == s
  {
    if s != "" {
      ReplacedAbsent(s[1..], c, sub);
      assert [s[0]] + s[1..] == s;
    }
  }

  lemma EscapeApart(a: string, b: string, quote: bool)
    ensures Escape(a + b, quote) == Escape(a, quote) + Escape(b, quote)
  {
    ReplacedApart(a, b, '&', "&amp;");
    var a1, b1 := Replaced(a, '&', "&amp;"), Replaced(b, '&', "&amp;");
    ReplacedApart(a1, b1, '<', "&lt;");
    var a2, b2 := Replaced(a1, '<', "&lt;"), Replaced(b1, '<', "&lt;");
    ReplacedApart(a2, b2, '>', "&gt;");
    var a3, b3 := Replaced(a2, '>', "&gt;"), Replaced(b2, '>', "&gt;");
    ReplacedApart(a3, b3, '"', "&quot;");
    ReplacedApart(Replaced(a3, '"', "&quot;"), Replaced(b3, '"', "&quot;"), '\'', "&#x27;");
  }

  lemma ReplacedOne(c: char, d: char, sub: string)
    ensures Replaced([c], d, sub) == if c == d then sub else [c]
  {
    assert [c][1..] == "";
  }

  lemma QuotesAbsent(s: string, quote: bool)
    requires quote ==> '"' !in s && '\'' !in s
    ensures Quotes(s, quote) == s
  {
    if quote {
      ReplacedAbsent(s, '"', "&quot;");
      ReplacedAbsent(s, '\'', "&#x27;");
    }
  }

  lemma QuotesOne(c: char, quote: bool)
    requires c !in ['&', '<', '>']
    ensures Quotes([c], quote) == Escaped(c, quote)
  {
    if quote {
      ReplacedOne(c, '"', "&quot;");
      if c == '"' {
        ReplacedAbsent("&quot;", '\'', "&#x27;");
      } else {
        ReplacedOne(c, '\'', "&#x27;");
      }
    }
  }

  lemma AnglesOne(c: char, quote: bool)
    requires c != '&'
    ensures Angles([c], quote) == Escaped(c, quote)
  {
    ReplacedOne(c, '<', "&lt;");
    if c == '<' {
      ReplacedAbsent("&lt;", '>', "&gt;");
      QuotesAbsent("&lt;", quote);
    } else {
      ReplacedOne(c, '>', "&gt;");
      if c == '>' { QuotesAbsent("&gt;", quote); } else { QuotesOne(c, quote); }
    }
  }

  lemma AnglesAbsent(s: string, quote: bool)
    requires Inert(s, true)
    ensures Angles(s, quote) == s
  {
    ReplacedAbsent(s, '<', "&lt;");
    ReplacedAbsent(s, '>', "&gt;");
    QuotesAbsent(s, quote);
  }

  lemma EscapeOne(c: char, quote: bool)
    ensures Escape([c], quote) == Escaped(c, quote)
  {
    ReplacedOne(c, '&', "&amp;");
    if c == '&' {
      AnglesAbsent(Replaced([c], '&', "&amp;"), quote);
    } else {
      AnglesOne(c, quote);
    }
  }

  predicate Inert(s: string, quote: bool) {
    '<' !in s && '>' !in s && (quote ==> '"' !in s && '\'' !in s)
  }

  lemma EscapedIsInert(c: char, quote: bool)
    ensures Inert(Escaped(c, quote), quote)
  {
  }

  lemma InertApart(a: string, b: string, quote: bool)
    requires Inert(a, quote) && Inert(b, quote)
    ensures Inert(a + b, quote)
  {
  }

  /** No character that could open or close a tag, or end a quoted attribute, comes out. */
  lemma {:induction false} EscapeIsInert(s: string, quote: bool)
    ensures Inert(Escape(s, quote), quote)
  {
    if s != "" {
      assert s == [s[0]] + s[1..];
      EscapeApart([s[0]], s[1..], quote);
      EscapeOne(s[0], quote);
      EscapedIsInert(s[0], quote);
      EscapeIsInert(s[1..], quote);
      InertApart(Escaped(s[0], quote), Escape(s[1..], quote), quote);
    }
  }

  /** A reader of the five character references that escaping writes. */
  function Unescape(s: string): string
    decreases |s|
  {
    if s == "" then ""
    else if StartsWith(s, "&amp;") then "&" + Unescape(s[5..])
    else if StartsWith(s, "&lt;") then "<" + Unescape(s[4..])
    else if StartsWith(s, "&gt;") then ">" + Unescape(s[4..])
    else if StartsWith(s, "&quot;") then "\"" + Unescape(s[6..])
    else if StartsWith(s, "&#x27;") then "'" + Unescape(s[6..])
    else [s[0]] + Unescape(s[1..])
  }

  lemma UnescapeOne(c: char, rest: string, quote: bool)
    ensures Unescape(Escaped(c, quote) + rest) == [c] + Unescape(rest)
  {
    var s := Escaped(c, quote) + rest;
    assert s[|Escaped(c, quote)|..] == rest && s[..|Escaped(c, quote)|] == Escaped(c, quote);
    if c == '&' {
    } else if c == '<' {
      assert s[1] == 'l';
      StartsApart(s, "&amp;", 1);
    } else if c == '>' {
      assert s[1] == 'g';
      StartsApart(s, "&amp;", 1);
      StartsApart(s, "&lt;", 1);
    } else if quote && c == '"' {
      assert s[1] == 'q';
      StartsApart(s, "&amp;", 1);
      StartsApart(s, "&lt;", 1);
      StartsApart(s, "&gt;", 1);
    } else if quote && c == '\'' {
      assert s[1] == '#';
      StartsApart(s, "&amp;", 1);
      StartsApart(s, "&lt;", 1);
      StartsApart(s, "&gt;", 1);
      StartsApart(s, "&quot;", 1);
    } else {
      assert s[0] == c;
      StartsApart(s, "&amp;", 0);
      StartsApart(s, "&lt;", 0);
      StartsApart(s, "&gt;", 0);
      StartsApart(s, "&quot;", 0);
      StartsApart(s, "&#x27;", 0);
    }
  }

  /** Reading back what was escaped gives the text that went in. */
  lemma {:induction false} UnescapeOfEscape(s: string, quote: bool)
    ensures Unescape(Escape(s, quote)) == s
  {
    if s != "" {
      assert s == [s[0]] + s[1..];
      EscapeApart([s[0]], s[1..], quote);
      EscapeOne(s[0], quote);
      UnescapeOne(s[0], Escape(s[1..], quote), quote);
      UnescapeOfEscape(s[1..], quote);
    }
  }
}
