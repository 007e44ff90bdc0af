/** Reading rendered HTML back: a reader of the tags, attributes and texts that the sanitiser writes,
    and that reading what it wrote and sanitising it again changes nothing. */
module HtmlReader {
  import opened Prelude
  import opened Sanitizer
  import Escaping

  /** The first of the characters that end a tag name. */
  function NameEnd(s: string): (i: nat)
    ensures i <= |s| && forall j :: 0 <= j < i ==> s[j] !in {' ', '/', '>'}
  {
    if s == "" || s[0] in {' ', '/', '>'} then 0 else 1 + NameEnd(s[1..])
  }

  /** One attribute with a quoted value, after a space, and what follows. */
  function ReadAttribute(s: string): (r: Option<(Attribute, string)>)
    ensures r.Some? ==> |r.value.1| < |s|
  {
    if !StartsWith(s, " ") || |s| < 2 then None
    else
      var i := Find(s[2..], '=');
      var value := s[2 + i..];
      if !StartsWith(value, "=\"") then None
      else
        var j := Find(value[2..], '"');
        if 2 + j == |value| then None
        else Some((Attribute(s[1..2 + i], Some(Escaping.Unescape(value[2..2 + j]))), value[3 + j..]))
  }

  /** The attributes up to the end of a tag, whether it closes itself, and what follows. */
  function ReadAttributes(s: string): (r: (seq<Attribute>, bool, string))
    ensures |r.2| <= |s|
    decreases |s|
  {
    if StartsWith(s, "/>") then ([], true, s[2..])
    else if StartsWith(s, ">") then ([], false, s[1..])
    else
      match ReadAttribute(s)
      case None => ([], false, "")
      case Some((attribute, more)) =>
        var (rest, closed, after) := ReadAttributes(more);
        ([attribute] + rest, closed, after)
  }

  /** The events of a text: end tags, start tags, and what stands between tags. */
  function Read(s: string): seq<Event>
    decreases |s|
  {
    if s == "" then []
    else if s[0] != '<' then
      var i := Find(s, '<');
      [Data(Escaping.Unescape(s[..i]))] + Read(s[i..])
    else if StartsWith(s, "</") then
      var i := Find(s, '>');
      if i == |s| then [] else [End(s[2..i])] + Read(s[i + 1..])
    else
      var i := NameEnd(s[1..]);
      var (attrs, closed, after) := ReadAttributes(s[1 + i..]);
      [Start(s[1..1 + i], attrs)] + (if closed then [End(s[1..1 + i])] else []) + Read(after)
  }

  // ----- names as the lexer delivers them -----

  /** No white space, slash, closing bracket, or equals sign but as the first character. */
  predicate LexedName(name: string) {
    && name != ""
    && (forall i :: 0 <= i < |name| ==> !IsSpace(name[i]) && name[i] !in {'/', '>'})
    && forall i :: 0 < i < |name| ==> name[i] != '='
  }

  predicate LexedNames(attrs: seq<Attribute>) {
    forall i :: 0 <= i < |attrs| ==> LexedName(attrs[i].name)
  }

  /** A tag name ends where a space, a slash or a bracket follows. */
  predicate TagName(tag: string) {
    tag != "" && forall i :: 0 <= i < |tag| ==> tag[i] !in {' ', '/', '>'}
  }

  predicate Lexed(e: Event) {
    match e
    case Start(tag, attrs) => TagName(tag) && LexedNames(attrs)
    case End(tag) => TagName(tag)
    case Data(_) => true
  }

  /** A piece whose text can be read back. */
  predicate Readable(piece: Piece) {
    match piece
    case Open(tag, attrs) => TagName(tag) && forall i :: 0 <= i < |attrs| ==> LexedName(attrs[i].name)
    case Close(tag) => TagName(tag)
    case Text(text) => text != ""
  }

  lemma {:induction false} LowerIsPointwise(s: string)
    ensures |Lower(s)| == |s| && forall i :: 0 <= i < |s| ==> Lower(s)[i] == LowerChar(s[i])
  {
    if s != "" { LowerIsPointwise(s[1..]); }
  }

  lemma LowerIsLexed(name: string)
    ensures LexedName(name) ==> LexedName(Lower(name))
    ensures TagName(name) ==> TagName(Lower(name))
  {
    LowerIsPointwise(name);
  }

  lemma {:induction false} CleanedIsLexed(attrs: seq<Attribute>)
    requires LexedNames(attrs)
    ensures forall i :: 0 <= i < |CleanAll(attrs)| ==> LexedName(CleanAll(attrs)[i].name)
  {
    if attrs != [] {
      var last := attrs[|attrs| - 1];
      CleanedIsLexed(attrs[..|attrs| - 1]);
      LowerIsLexed(last.name);
      assert Clean(last).Some? ==> Clean(last).value.name == Lower(last.name);
    }
  }

  ghost predicate AllReadable(pieces: seq<Piece>) {
    pieces != [] ==> Readable(pieces[0]) && AllReadable(pieces[1..])
  }

  lemma {:induction false} ReadableMore(pieces: seq<Piece>, piece: Piece)
    ensures AllReadable(pieces + [piece]) <==> AllReadable(pieces) && Readable(piece)
  {
    if pieces == [] {
      assert pieces + [piece] == [piece] && [piece][1..] == [];
    } else {
      assert (pieces + [piece])[1..] == pieces[1..] + [piece];
      ReadableMore(pieces[1..], piece);
    }
  }

  lemma StepIsReadable(s: State, e: Event)
    requires AllReadable(s.out) && Lexed(e)
    ensures AllReadable(Step(s, e).out)
  {
    if !e.Data? { LowerIsLexed(e.tag); }
    if e.Start? {
      CleanedIsLexed(e.attrs);
      ReadableMore(s.out, Open(TagOf(e), CleanAll(e.attrs)));
    } else if e.End? {
      ReadableMore(s.out, Close(TagOf(e)));
    } else {
      ReadableMore(s.out, Text(e.text));
    }
  }

  lemma {:induction false} OutputIsReadable(events: seq<Event>)
    requires forall i :: 0 <= i < |events| ==> Lexed(events[i])
    ensures AllReadable(Run(events).out)
  {
    if events != [] {
      OutputIsReadable(events[..|events| - 1]);
      StepIsReadable(Run(events[..|events| - 1]), events[|events| - 1]);
    }
  }

  lemma {:induction false} MergedIsReadable(pieces: seq<Piece>)
    requires AllReadable(pieces)
    ensures AllReadable(Merged(pieces))
  {
    if pieces != [] {
      var front, last := pieces[..|pieces| - 1], pieces[|pieces| - 1];
      assert pieces == front + [last];
      ReadableMore(front, last);
      MergedIsReadable(front);
      var before := Merged(front);
      if last.Text? && before != [] && before[|before| - 1].Text? {
        var most := before[..|before| - 1];
        assert before == most + [before[|before| - 1]];
        ReadableMore(most, before[|before| - 1]);
        ReadableMore(most, Text(before[|before| - 1].text + last.text));
      } else {
        ReadableMore(before, last);
      }
    }
  }

  // ----- from the front -----

  ghost predicate Alternates(pieces: seq<Piece>) {
    forall i :: 0 < i < |pieces| ==> !(pieces[i - 1].Text? && pieces[i].Text?)
  }

  lemma {:induction false} MergedAlternates(pieces: seq<Piece>)
    ensures Alternates(Merged(pieces))
  {
    if pieces != [] { MergedAlternates(pieces[..|pieces| - 1]); }
  }

  lemma {:induction false} RenderedApart(a: seq<Piece>, b: seq<Piece>)
    ensures RenderedAll(a + b) == RenderedAll(a) + RenderedAll(b)
  {
    if b == [] {
      assert a + b == a;
    } else {
      var front, last := b[..|b| - 1], b[|b| - 1];
      assert a + b == (a + front) + [last];
      RenderedApart(a, front);
      RenderedMore(a + front, last);
      Regroup(RenderedAll(a), RenderedAll(front), Rendered(last));
    }
  }

  lemma RenderedOne(piece: Piece)
    ensures RenderedAll([piece]) == Rendered(piece)
  {
    RenderedMore([], piece);
    assert [] + [piece] == [piece];
    EmptyFirst(Rendered(piece));
  }

  lemma EmptyFirst(s: string)
    ensures "" + s == s
  {
  }

  lemma RenderedFirst(pieces: seq<Piece>)
    requires pieces != []
    ensures RenderedAll(pieces) == Rendered(pieces[0]) + RenderedAll(pieces[1..])
  {
    var one, rest := [pieces[0]], pieces[1..];
    RenderedOne(pieces[0]);
    RenderedApart(one, rest);
    assert one + rest == pieces;
  }

  lemma {:induction false} RereadFirst(pieces: seq<Piece>)
    requires pieces != []
    ensures RereadAll(pieces) == Reread(pieces[0]) + RereadAll(pieces[1..])
  {
    var front, last := pieces[..|pieces| - 1], pieces[|pieces| - 1];
    if front == [] {
      assert pieces[1..] == [] && RereadAll(front) == [];
    } else {
      RereadFirst(front);
      assert pieces[1..][..|pieces| - 2] == front[1..];
      RegroupEvents(Reread(front[0]), RereadAll(front[1..]), Reread(last));
    }
  }

  lemma RegroupEvents(a: seq<Event>, b: seq<Event>, c: seq<Event>)
    ensures a + b + c == a + (b + c)
  {
  }

  lemma {:induction false} PairsFirst(pairs: seq<Pair>)
    requires pairs != []
    ensures RenderedPairs(pairs) == RenderedPair(pairs[0]) + RenderedPairs(pairs[1..])
    ensures Attributes(pairs) == [Attribute(pairs[0].name, Some(pairs[0].value))] + Attributes(pairs[1..])
  {
    var front, last := pairs[..|pairs| - 1], pairs[|pairs| - 1];
    if front == [] {
      assert pairs[1..] == [];
    } else {
      PairsFirst(front);
      assert pairs[1..][..|pairs| - 2] == front[1..];
      Regroup(RenderedPair(front[0]), RenderedPairs(front[1..]), RenderedPair(last));
    }
  }

  // ----- reading one piece -----

  lemma {:induction false} FindAfter(s: string, c: char, rest: string)
    requires c !in s
    ensures Find(s + [c] + rest, c) == |s|
  {
    var t := s + [c] + rest;
    if s == "" {
      assert t[0] == c;
    } else {
      assert t[1..] == s[1..] + [c] + rest;
      FindAfter(s[1..], c, rest);
    }
  }

  lemma {:induction false} NameEndAfter(s: string, c: char, rest: string)
    requires c in {' ', '/', '>'} && forall i :: 0 <= i < |s| ==> s[i] !in {' ', '/', '>'}
    ensures NameEnd(s + [c] + rest) == |s|
  {
    var t := s + [c] + rest;
    if s == "" {
      assert t[0] == c;
    } else {
      assert t[1..] == s[1..] + [c] + rest;
      NameEndAfter(s[1..], c, rest);
    }
  }

  /** The text starts with this attribute, and the rest of it is that. */
  ghost predicate Leads(s: string, name: string, escaped: string, rest: string) {
    && StartsWith(s, " ") && |s| >= 2 && 2 + Find(s[2..], '=') == 1 + |name| < |s| && s[1..1 + |name|] == name
    && var value := s[1 + |name|..];
       StartsWith(value, "=\"") && Find(value[2..], '"') == |escaped| && 2 + |escaped| < |value|
       && value[2..2 + |escaped|] == escaped && value[3 + |escaped|..] == rest
  }

  lemma AttributeLeads(name: string, escaped: string, rest: string)
    requires name != "" && '=' !in name[1..] && '"' !in escaped
    ensures Leads(" " + name + "=\"" + escaped + "\"" + rest, name, escaped, rest)
  {
    var s, value := " " + name + "=\"" + escaped + "\"" + rest, "=\"" + escaped + "\"" + rest;
    assert s[2..] == name[1..] + ['='] + ("\"" + escaped + "\"" + rest);
    FindAfter(name[1..], '=', "\"" + escaped + "\"" + rest);
    assert s[1 + |name|..] == value && s[1..1 + |name|] == name && s[..1] == " ";
    assert value[2..] == escaped + ['"'] + rest && value[..2] == "=\"";
    FindAfter(escaped, '"', rest);
  }

  lemma LeadingIsRead(s: string, name: string, escaped: string, rest: string)
    requires Leads(s, name, escaped, rest)
    ensures var (attrs, closed, after) := ReadAttributes(rest);
      ReadAttributes(s) == ([Attribute(name, Some(Escaping.Unescape(escaped)))] + attrs, closed, after)
  {
    assert s[0] == ' ' by { assert s[..1][0] == s[0]; }
    StartsApart(s, "/>", 0);
    StartsApart(s, ">", 0);
    assert ReadAttribute(s) == Some((Attribute(name, Some(Escaping.Unescape(escaped))), rest));
  }

  lemma AttributeRead(pair: Pair, rest: string)
    requires LexedName(pair.name)
    ensures var (attrs, closed, after) := ReadAttributes(rest);
      ReadAttributes(RenderedPair(pair) + rest)
      == ([Attribute(pair.name, Some(pair.value))] + attrs, closed, after)
  {
    Escaping.EscapeIsInert(pair.value, true);
    Escaping.UnescapeOfEscape(pair.value, true);
    AttributeLeads(pair.name, Escaping.Escape(pair.value, true), rest);
    LeadingIsRead(RenderedPair(pair) + rest, pair.name, Escaping.Escape(pair.value, true), rest);
  }

  lemma {:induction false} AttributesRead(pairs: seq<Pair>, closing: string, rest: string)
    requires forall i :: 0 <= i < |pairs| ==> LexedName(pairs[i].name)
    requires closing in {"/>", ">"}
    ensures ReadAttributes(RenderedPairs(pairs) + (closing + rest)) == (Attributes(pairs), closing == "/>", rest)
  {
    if pairs == [] {
      var s := closing + rest;
      assert RenderedPairs(pairs) + s == s && s[..|closing|] == closing && s[|closing|..] == rest;
      if closing == ">" { StartsApart(s, "/>", 0); }
    } else {
      PairsFirst(pairs);
      AttributesRead(pairs[1..], closing, rest);
      Regroup(RenderedPair(pairs[0]), RenderedPairs(pairs[1..]), closing + rest);
      AttributeRead(pairs[0], RenderedPairs(pairs[1..]) + (closing + rest));
    }
  }

  lemma TagStep(tag: string, tail: string)
    requires TagName(tag) && tail != "" && tail[0] in {' ', '/', '>'}
    ensures var (attrs, closed, after) := ReadAttributes(tail);
      Read("<" + tag + tail) == [Start(tag, attrs)] + (if closed then [End(tag)] else []) + Read(after)
  {
    var s := "<" + tag + tail;
    assert s[0] == '<' && s[1] == tag[0];
    StartsApart(s, "</", 1);
    assert s[1..] == tag + [tail[0]] + tail[1..];
    NameEndAfter(tag, tail[0], tail[1..]);
    assert s[1..1 + |tag|] == tag && s[1 + |tag|..] == tail;
  }

  function Closing(tag: string): string {
    if tag in VOID then "/>" else ">"
  }

  lemma OpenShape(tag: string, pairs: seq<Pair>, rest: string)
    ensures Rendered(Open(tag, pairs)) + rest == "<" + tag + (RenderedPairs(pairs) + (Closing(tag) + rest))
  {
    Regroup("<" + tag + RenderedPairs(pairs), Closing(tag), rest);
    Regroup("<" + tag, RenderedPairs(pairs), Closing(tag) + rest);
  }

  lemma OpenRead(tag: string, pairs: seq<Pair>, rest: string)
    requires TagName(tag) && forall i :: 0 <= i < |pairs| ==> LexedName(pairs[i].name)
    ensures Read(Rendered(Open(tag, pairs)) + rest) == Reread(Open(tag, pairs)) + Read(rest)
  {
    OpenShape(tag, pairs, rest);
    TailStarts(pairs, Closing(tag), rest);
    TagStep(tag, RenderedPairs(pairs) + (Closing(tag) + rest));
    AttributesRead(pairs, Closing(tag), rest);
  }

  lemma TailStarts(pairs: seq<Pair>, closing: string, rest: string)
    requires closing in {"/>", ">"}
    ensures var tail := RenderedPairs(pairs) + (closing + rest); tail != "" && tail[0] in {' ', '/', '>'}
  {
    if pairs == [] {
      assert RenderedPairs(pairs) + (closing + rest) == closing + rest;
      assert closing[0] in {'/', '>'};
    } else {
      PairsFirst(pairs);
      assert RenderedPair(pairs[0])[0] == ' ';
    }
  }

  lemma CloseRead(tag: string, rest: string)
    requires TagName(tag)
    ensures Read(Rendered(Close(tag)) + rest) == [End(tag)] + Read(rest)
  {
    var s := Rendered(Close(tag)) + rest;
    assert s == "</" + tag + ['>'] + rest && s[..2] == "</";
    FindAfter("</" + tag, '>', rest);
    assert s[2..2 + |tag|] == tag && s[3 + |tag|..] == rest;
  }

  lemma TextStep(s: string, i: nat, text: string, rest: string)
    requires s != "" && s[0] != '<' && Find(s, '<') == i && Escaping.Unescape(s[..i]) == text && s[i..] == rest
    ensures Read(s) == [Data(text)] + Read(rest)
  {
  }

  lemma TextEnds(escaped: string, rest: string)
    requires '<' !in escaped && escaped != "" && (rest == "" || rest[0] == '<')
    ensures var s := escaped + rest;
      s[0] != '<' && Find(s, '<') == |escaped| && s[..|escaped|] == escaped && s[|escaped|..] == rest
  {
    if rest == "" {
      assert escaped + rest == escaped;
      FindNone(escaped, '<');
    } else {
      assert escaped + rest == escaped + ['<'] + rest[1..];
      FindAfter(escaped, '<', rest[1..]);
    }
  }

  lemma TextRead(text: string, rest: string)
    requires text != "" && (rest == "" || rest[0] == '<')
    ensures Read(Rendered(Text(text)) + rest) == [Data(text)] + Read(rest)
  {
    var escaped := Escaping.Escape(text, false);
    Escaping.EscapeIsInert(text, false);
    Escaping.UnescapeOfEscape(text, false);
    assert Escaping.Unescape("") == "";
    TextEnds(escaped, rest);
    TextStep(escaped + rest, |escaped|, text, rest);
  }

  lemma FindNone(s: string, c: char)
    requires c !in s
    ensures Find(s, c) == |s|
  {
  }

  lemma StartsWithTag(pieces: seq<Piece>)
    requires pieces != [] ==> !pieces[0].Text?
    ensures RenderedAll(pieces) == "" || RenderedAll(pieces)[0] == '<'
  {
    if pieces != [] {
      RenderedFirst(pieces);
      assert Rendered(pieces[0])[0] == '<';
    }
  }

  // ----- reading everything -----

  lemma {:induction false} PiecesRead(pieces: seq<Piece>)
    requires AllReadable(pieces) && Alternates(pieces)
    ensures Read(RenderedAll(pieces)) == RereadAll(pieces)
  {
    if pieces != [] {
      var rest := pieces[1..];
      PiecesRead(rest);
      RenderedFirst(pieces);
      RereadFirst(pieces);
      match pieces[0] {
        case Open(tag, pairs) => OpenRead(tag, pairs, RenderedAll(rest));
        case Close(tag) => CloseRead(tag, RenderedAll(rest));
        case Text(text) =>
          StartsWithTag(rest);
          TextRead(text, RenderedAll(rest));
      }
    }
  }

  /** What the sanitiser wrote reads as the pieces it wrote, neighbouring texts run together. */
  lemma OutputReads(events: seq<Event>)
    requires forall i :: 0 <= i < |events| ==> Lexed(events[i])
    ensures Read(Sanitized(events)) == RereadAll(Merged(Run(events).out))
  {
    var out := Run(events).out;
    OutputIsReadable(events);
    MergedIsReadable(out);
    MergedAlternates(out);
    MergedRendersAlike(out);
    PiecesRead(Merged(out));
  }

  /** Sanitising the text that the sanitiser wrote changes not a character of it. */
  lemma SanitizingTheText(events: seq<Event>)
    requires forall i :: 0 <= i < |events| ==> Lexed(events[i])
    ensures Sanitized(Read(Sanitized(events))) == Sanitized(events)
  {
    OutputReads(events);
    SanitizingTwice(events);
  }
}
