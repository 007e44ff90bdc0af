/** The allow-list sanitiser of the HTML export, as a transducer over parser events. */
module Sanitizer {
  import opened Prelude
  import SafeUrl
  import Escaping

  const ALLOWED: set<string> := {
    "a", "abbr", "b", "blockquote", "br", "caption", "code", "col", "colgroup", "dd", "del", "div", "dl", "dt",
    "em", "figcaption", "figure", "h1", "h2", "h3", "h4", "h5", "h6", "hr", "i", "img", "ins", "kbd", "li",
    "mark", "ol", "p", "pre", "q", "s", "small", "span", "strong", "sub", "sup", "table", "tbody", "td",
    "tfoot", "th", "thead", "tr", "u", "ul"
  }

  const VOID: set<string> := {"br", "col", "hr", "img"}

  const DROP_CONTENT: set<string> := {"script", "style", "iframe", "object", "embed", "noscript", "template"}

  datatype Attribute = Attribute(name: string, value: Option<string>)

  datatype Event = Start(tag: string, attrs: seq<Attribute>) | End(tag: string) | Data(text: string)

  datatype Pair = Pair(name: string, value: string)

  datatype Piece = Open(tag: string, attrs: seq<Pair>) | Close(tag: string) | Text(text: string)

  // ----- one event -----

  predicate Tolerated(name: string) {
    !StartsWith(name, "on") && name != "style" && name != "formaction"
  }

  predicate IsUrl(name: string) {
    name == "href" || name == "src"
  }

  function Clean(a: Attribute): Option<Pair> {
    var name := Lower(a.name);
    if !Tolerated(name) || a.value.None? then None
    else if !IsUrl(name) then Some(Pair(name, a.value.value))
    else
      match SafeUrl.Checked(a.value.value)
      case None => None
      case Some(url) => Some(Pair(name, url))
  }

  /** Exactly which attributes survive, and as what: those that are no event handler, style or formaction
      and have a value; an href or src only if its URL is accepted, and without junk. */
  lemma AttributeSurvives(a: Attribute, name: string, value: string)
    ensures Clean(a) == Some(Pair(name, value)) <==>
      && name == Lower(a.name) && !("on" <= name) && name != "style" && name != "formaction"
      && a.value.Some?
      && (if name == "href" || name == "src" then SafeUrl.Checked(a.value.value) == Some(value)
          else value == a.value.value)
  {
  }

  function CleanAll(attrs: seq<Attribute>): seq<Pair> {
    if attrs == [] then []
    else
      CleanAll(attrs[..|attrs| - 1]) +
        match Clean(attrs[|attrs| - 1]) case None => [] case Some(pair) => [pair]
  }

  lemma {:induction false} SurvivorIsThere(attrs: seq<Attribute>, i: nat, pair: Pair)
    requires i < |attrs| && Clean(attrs[i]) == Some(pair)
    ensures pair in CleanAll(attrs)
  {
    if i < |attrs| - 1 { SurvivorIsThere(attrs[..|attrs| - 1], i, pair); }
  }

  lemma {:induction false} OnlySurvivors(attrs: seq<Attribute>, pair: Pair) returns (i: nat)
    requires pair in CleanAll(attrs)
    ensures i < |attrs| && Clean(attrs[i]) == Some(pair)
  {
    var n := |attrs| - 1;
    if Clean(attrs[n]) == Some(pair) { i := n; } else { i := OnlySurvivors(attrs[..n], pair); }
  }

  /** An attribute comes out exactly when one of those given survives as it. */
  lemma SurvivorsExactly(attrs: seq<Attribute>, pair: Pair)
    ensures pair in CleanAll(attrs) <==> exists i :: 0 <= i < |attrs| && Clean(attrs[i]) == Some(pair)
  {
    if pair in CleanAll(attrs) {
      var i := OnlySurvivors(attrs, pair);
    }
    if i :| 0 <= i < |attrs| && Clean(attrs[i]) == Some(pair) { SurvivorIsThere(attrs, i, pair); }
  }

  function TagOf(e: Event): string
    requires !e.Data?
  {
    Lower(e.tag)
  }

  /** How an event moves the drop depth, if it is not at the bottom already. */
  function Shift(e: Event): int {
    if e.Data? || TagOf(e) !in DROP_CONTENT then 0
    else if e.End? then -1
    else if TagOf(e) in VOID then 0 else 1
  }

  predicate DropsContent(tag: string) {
    || tag == "script" || tag == "style" || tag == "iframe" || tag == "object" || tag == "embed"
    || tag == "noscript" || tag == "template"
  }

  predicate Childless(tag: string) {
    tag == "br" || tag == "col" || tag == "hr" || tag == "img"
  }

  /** Only elements whose content is dropped count: one more when one is opened, one less when it is
      closed. */
  lemma ShiftMeans(e: Event)
    ensures Shift(e) == if e.Data? || !DropsContent(Lower(e.tag)) then 0 else if e.Start? then 1 else -1
  {
    if !e.Data? && Lower(e.tag) in DROP_CONTENT { DroppedIsNotVoid(Lower(e.tag)); }
  }

  lemma DroppedIsNotVoid(tag: string)
    requires tag in DROP_CONTENT
    ensures tag !in VOID
  {
  }

  /** What an event writes when nothing is being dropped. */
  function Written(e: Event): seq<Piece> {
    match e
    case Data(text) => if text == "" then [] else [Text(text)]
    case Start(_, attrs) =>
      if TagOf(e) in DROP_CONTENT || TagOf(e) !in ALLOWED then [] else [Open(TagOf(e), CleanAll(attrs))]
    case End(_) =>
      if TagOf(e) in DROP_CONTENT || TagOf(e) !in ALLOWED || TagOf(e) in VOID then [] else [Close(TagOf(e))]
  }

  datatype State = State(out: seq<Piece>, depth: nat)

  function Step(s: State, e: Event): State {
    match e
    case Start(_, attrs) =>
      var tag := TagOf(e);
      if tag in DROP_CONTENT then (if tag !in VOID then s.(depth := s.depth + 1) else s)
      else if s.depth > 0 then s
      else if tag !in ALLOWED then s
      else s.(out := s.out + [Open(tag, CleanAll(attrs))])
    case End(_) =>
      var tag := TagOf(e);
      if tag in DROP_CONTENT then (if s.depth > 0 then s.(depth := s.depth - 1) else s)
      else if s.depth > 0 then s
      else if tag in ALLOWED && tag !in VOID then s.(out := s.out + [Close(tag)])
      else s
    case Data(text) =>
      if s.depth > 0 || text == "" then s else s.(out := s.out + [Text(text)])
  }

  /** Where nothing is being dropped, an allowed tag comes out with exactly the attributes that survive. */
  lemma TagComesOut(s: State, tag: string, attrs: seq<Attribute>)
    requires s.depth == 0 && Lower(tag) in ALLOWED && !DropsContent(Lower(tag))
    ensures Step(s, Start(tag, attrs)).out == s.out + [Open(Lower(tag), CleanAll(attrs))]
  {
  }

  /** Nor does anything else get lost there: an allowed tag is closed unless it is void, and text comes out
      as it is. */
  lemma RestComesOut(s: State, tag: string, text: string)
    requires s.depth == 0
    ensures Lower(tag) in ALLOWED && !DropsContent(Lower(tag)) ==>
      Step(s, End(tag)) == if Childless(Lower(tag)) then s else s.(out := s.out + [Close(Lower(tag))])
    ensures text != "" ==> Step(s, Data(text)) == s.(out := s.out + [Text(text)])
  {
  }

  lemma LinkSurvives(a: Attribute, name: string, url: string)
    requires Lower(a.name) == name && (name == "href" || name == "src")
    requires a.value.Some? && SafeUrl.Checked(a.value.value) == Some(url)
    ensures Clean(a) == Some(Pair(name, url))
  {
    StartsApart(name, "on", 0);
  }

  /** So an allowed tag keeps a link or an image source that is accepted. */
  lemma LinkIsKept(s: State, tag: string, attrs: seq<Attribute>, i: nat, name: string, url: string)
    requires s.depth == 0 && Lower(tag) in ALLOWED && !DropsContent(Lower(tag))
    requires i < |attrs| && Lower(attrs[i].name) == name && (name == "href" || name == "src")
    requires attrs[i].value.Some? && SafeUrl.Checked(attrs[i].value.value) == Some(url)
    ensures var out := Step(s, Start(tag, attrs)).out;
      |out| == |s.out| + 1 && out[|s.out|].Open? && Pair(name, url) in out[|s.out|].attrs
  {
    TagComesOut(s, tag, attrs);
    LinkSurvives(attrs[i], name, url);
    SurvivorIsThere(attrs, i, Pair(name, url));
  }

  function Run(events: seq<Event>): State {
    if events == [] then State([], 0) else Step(Run(events[..|events| - 1]), events[|events| - 1])
  }

  // ----- what is shown: a definition without a counter -----

  function Balance(events: seq<Event>): int {
    if events == [] then 0 else Balance(events[..|events| - 1]) + Shift(events[|events| - 1])
  }

  /** However far back one looks, the past closed as many dropped elements as it opened. */
  ghost predicate Quiet(past: seq<Event>) {
    forall k :: 0 <= k <= |past| ==> Balance(past[k..]) <= 0
  }

  /** What the events write at their quiet moments. */
  ghost function QuietlyWritten(events: seq<Event>): seq<Piece> {
    if events == [] then []
    else
      var past, e := events[..|events| - 1], events[|events| - 1];
      QuietlyWritten(past) + if Quiet(past) then Written(e) else []
  }

  lemma BalanceOfSuffix(events: seq<Event>, k: nat)
    requires k < |events|
    ensures Balance(events[k..]) == Balance(events[..|events| - 1][k..]) + Shift(events[|events| - 1])
  {
    var past := events[..|events| - 1];
    assert events[k..][..|events[k..]| - 1] == past[k..];
    assert events[k..][|events[k..]| - 1] == events[|events| - 1];
  }

  ghost predicate DepthBounds(events: seq<Event>, depth: nat) {
    (forall k :: 0 <= k <= |events| ==> Balance(events[k..]) <= depth)
    && exists k :: 0 <= k <= |events| && Balance(events[k..]) == depth
  }

  /** The counter is the largest balance of any recent past. */
  lemma {:induction false} DepthIsLargestBalance(events: seq<Event>)
    ensures DepthBounds(events, Run(events).depth)
  {
    if events == [] {
      assert events[0..] == [] && Balance(events[0..]) == 0;
    } else {
      var past, e := events[..|events| - 1], events[|events| - 1];
      DepthIsLargestBalance(past);
      var depth := Run(events).depth;
      assert events[|events|..] == [] && Balance(events[|events|..]) == 0;
      forall k | 0 <= k <= |events| ensures Balance(events[k..]) <= depth {
        if k < |events| { BalanceOfSuffix(events, k); }
      }
      var j :| 0 <= j <= |past| && Balance(past[j..]) == Run(past).depth;
      BalanceOfSuffix(events, j);
      assert Balance(events[j..]) == depth || (depth == 0 && Balance(events[|events|..]) == 0);
    }
  }

  lemma QuietIsDepthZero(past: seq<Event>)
    ensures Quiet(past) <==> Run(past).depth == 0
  {
    DepthIsLargestBalance(past);
  }

  /** The output is what the events wrote at their quiet moments, in order, and nothing else. */
  lemma {:induction false} OutputIsQuietlyWritten(events: seq<Event>)
    ensures Run(events).out == QuietlyWritten(events)
  {
    if events != [] {
      var past := events[..|events| - 1];
      OutputIsQuietlyWritten(past);
      QuietIsDepthZero(past);
    }
  }

  /** The text of the output. */
  function TextOf(pieces: seq<Piece>): string {
    if pieces == [] then ""
    else
      var n := |pieces| - 1;
      TextOf(pieces[..n]) + if pieces[n].Text? then pieces[n].text else ""
  }

  /** The text seen at quiet moments. */
  ghost function QuietText(events: seq<Event>): string {
    if events == [] then ""
    else
      var past, e := events[..|events| - 1], events[|events| - 1];
      QuietText(past) + if e.Data? && Quiet(past) then e.text else ""
  }

  lemma TextOfMore(pieces: seq<Piece>, piece: Piece)
    ensures TextOf(pieces + [piece]) == TextOf(pieces) + if piece.Text? then piece.text else ""
  {
    assert (pieces + [piece])[..|pieces|] == pieces;
  }

  lemma StepText(s: State, e: Event)
    ensures TextOf(Step(s, e).out) == TextOf(s.out) + if e.Data? && s.depth == 0 then e.text else ""
  {
    match e {
      case Start(_, attrs) => TextOfMore(s.out, Open(TagOf(e), CleanAll(attrs)));
      case End(_) => TextOfMore(s.out, Close(TagOf(e)));
      case Data(text) => TextOfMore(s.out, Text(text));
    }
  }

  /** The text of the output is exactly the data seen at quiet moments, in order. */
  lemma {:induction false} TextIsQuietData(events: seq<Event>)
    ensures TextOf(Run(events).out) == QuietText(events)
  {
    if events != [] {
      var past, e := events[..|events| - 1], events[|events| - 1];
      TextIsQuietData(past);
      QuietIsDepthZero(past);
      StepText(Run(past), e);
    }
  }

  // ----- what can come out at all -----

  ghost predicate ProperPair(pair: Pair) {
    && Lower(pair.name) == pair.name && Tolerated(pair.name)
    && (IsUrl(pair.name) ==> SafeUrl.Checked(pair.value) == Some(pair.value))
  }

  ghost predicate ProperTag(tag: string) {
    tag in ALLOWED && tag !in DROP_CONTENT && Lower(tag) == tag
  }

  ghost predicate Proper(piece: Piece) {
    match piece
    case Open(tag, attrs) => ProperTag(tag) && forall i :: 0 <= i < |attrs| ==> ProperPair(attrs[i])
    case Close(tag) => ProperTag(tag) && tag !in VOID
    case Text(text) => text != ""
  }

  lemma {:induction false} CleanedAreProper(attrs: seq<Attribute>)
    ensures forall i :: 0 <= i < |CleanAll(attrs)| ==> ProperPair(CleanAll(attrs)[i])
  {
    if attrs != [] {
      var a := attrs[|attrs| - 1];
      CleanedAreProper(attrs[..|attrs| - 1]);
      LowerTwice(a.name);
      if Clean(a).Some? && IsUrl(Lower(a.name)) { SafeUrl.AcceptedIsSafe(a.value.value); }
    }
  }

  lemma WrittenIsProper(e: Event)
    ensures forall i :: 0 <= i < |Written(e)| ==> Proper(Written(e)[i])
  {
    if !e.Data? { LowerTwice(e.tag); }
    if e.Start? { CleanedAreProper(e.attrs); }
  }

  ghost predicate AllProper(pieces: seq<Piece>) {
    pieces != [] ==> AllProper(pieces[..|pieces| - 1]) && Proper(pieces[|pieces| - 1])
  }

  lemma ProperMore(pieces: seq<Piece>, piece: Piece)
    requires AllProper(pieces) && Proper(piece)
    ensures AllProper(pieces + [piece])
  {
    assert (pieces + [piece])[..|pieces|] == pieces;
  }

  lemma StepIsProper(s: State, e: Event)
    requires AllProper(s.out)
    ensures AllProper(Step(s, e).out)
  {
    WrittenIsProper(e);
    if Step(s, e).out != s.out {
      assert Step(s, e).out == s.out + [Written(e)[0]];
      ProperMore(s.out, Written(e)[0]);
    }
  }

  /** Only allowed tags come out, with no event handler, no style, and only accepted URLs. */
  lemma {:induction false} OnlyAllowedComesOut(events: seq<Event>)
    ensures AllProper(Run(events).out)
  {
    if events != [] {
      OnlyAllowedComesOut(events[..|events| - 1]);
      StepIsProper(Run(events[..|events| - 1]), events[|events| - 1]);
    }
  }

  // ----- sanitising the output again -----

  function Attributes(pairs: seq<Pair>): seq<Attribute> {
    if pairs == [] then []
    else
      var n := |pairs| - 1;
      Attributes(pairs[..n]) + [Attribute(pairs[n].name, Some(pairs[n].value))]
  }

  /** The events of one rendered piece: a void tag reads as a start and an end. */
  function Reread(piece: Piece): seq<Event> {
    match piece
    case Open(tag, attrs) => [Start(tag, Attributes(attrs))] + if tag in VOID then [End(tag)] else []
    case Close(tag) => [End(tag)]
    case Text(text) => [Data(text)]
  }

  function RereadAll(pieces: seq<Piece>): seq<Event> {
    if pieces == [] then [] else RereadAll(pieces[..|pieces| - 1]) + Reread(pieces[|pieces| - 1])
  }

  lemma CleanPair(pair: Pair)
    requires ProperPair(pair)
    ensures Clean(Attribute(pair.name, Some(pair.value))) == Some(pair)
  {
  }

  lemma {:induction false} CleanAgain(pairs: seq<Pair>)
    requires forall i :: 0 <= i < |pairs| ==> ProperPair(pairs[i])
    ensures CleanAll(Attributes(pairs)) == pairs
  {
    if pairs != [] {
      var front, last := pairs[..|pairs| - 1], pairs[|pairs| - 1];
      CleanAgain(front);
      CleanPair(last);
      CleanMore(Attributes(front), Attribute(last.name, Some(last.value)));
      assert front + [last] == pairs;
    }
  }

  lemma CleanMore(attrs: seq<Attribute>, a: Attribute)
    ensures CleanAll(attrs + [a]) == CleanAll(attrs) + match Clean(a) case None => [] case Some(pair) => [pair]
  {
    assert (attrs + [a])[..|attrs|] == attrs;
  }

  lemma RunOneMore(events: seq<Event>, e: Event)
    ensures Run(events + [e]) == Step(Run(events), e)
  {
    assert (events + [e])[..|events|] == events;
  }

  lemma RereadPiece(events: seq<Event>, out: seq<Piece>, piece: Piece)
    requires Proper(piece) && Run(events) == State(out, 0)
    ensures Run(events + Reread(piece)) == State(out + [piece], 0)
  {
    match piece {
      case Open(tag, attrs) =>
        var start := Start(tag, Attributes(attrs));
        CleanAgain(attrs);
        RunOneMore(events, start);
        if tag in VOID {
          RunOneMore(events + [start], End(tag));
          assert events + Reread(piece) == events + [start] + [End(tag)];
        } else {
          assert events + Reread(piece) == events + [start];
        }
      case Close(tag) => RunOneMore(events, End(tag));
      case Text(text) => RunOneMore(events, Data(text));
    }
  }

  lemma RereadLast(front: seq<Piece>, last: Piece)
    ensures RereadAll(front + [last]) == RereadAll(front) + Reread(last)
  {
    assert (front + [last])[..|front|] == front;
  }

  lemma {:induction false} RereadIsKept(pieces: seq<Piece>)
    requires AllProper(pieces)
    ensures Run(RereadAll(pieces)) == State(pieces, 0)
  {
    if pieces != [] {
      var front, last := pieces[..|pieces| - 1], pieces[|pieces| - 1];
      RereadIsKept(front);
      RereadPiece(RereadAll(front), front, last);
      RereadLast(front, last);
      assert front + [last] == pieces;
    }
  }

  // ----- the rendered text -----

  function RenderedPairs(pairs: seq<Pair>): string {
    if pairs == [] then ""
    else
      var n := |pairs| - 1;
      RenderedPairs(pairs[..n]) + RenderedPair(pairs[n])
  }

  function RenderedPair(pair: Pair): string {
    " " + pair.name + "=\"" + Escaping.Escape(pair.value, true) + "\""
  }

  function Rendered(piece: Piece): string {
    match piece
    case Open(tag, attrs) => "<" + tag + RenderedPairs(attrs) + if tag in VOID then "/>" else ">"
    case Close(tag) => "</" + tag + ">"
    case Text(text) => Escaping.Escape(text, false)
  }

  function RenderedAll(pieces: seq<Piece>): string {
    if pieces == [] then "" else RenderedAll(pieces[..|pieces| - 1]) + Rendered(pieces[|pieces| - 1])
  }

  /** Neighbouring texts run together, as a parser of the rendered text sees them. */
  function Merged(pieces: seq<Piece>): seq<Piece> {
    if pieces == [] then []
    else
      var before, last := Merged(pieces[..|pieces| - 1]), pieces[|pieces| - 1];
      if last.Text? && before != [] && before[|before| - 1].Text? then
        before[..|before| - 1] + [Text(before[|before| - 1].text + last.text)]
      else before + [last]
  }

  lemma {:induction false} MergedIsProper(pieces: seq<Piece>)
    requires AllProper(pieces)
    ensures AllProper(Merged(pieces))
  {
    if pieces != [] {
      var before, last := Merged(pieces[..|pieces| - 1]), pieces[|pieces| - 1];
      MergedIsProper(pieces[..|pieces| - 1]);
      if last.Text? && before != [] && before[|before| - 1].Text? {
        ProperMore(before[..|before| - 1], Text(before[|before| - 1].text + last.text));
      } else {
        ProperMore(before, last);
      }
    }
  }

  lemma RenderedMore(pieces: seq<Piece>, piece: Piece)
    ensures RenderedAll(pieces + [piece]) == RenderedAll(pieces) + Rendered(piece)
  {
    assert (pieces + [piece])[..|pieces|] == pieces;
  }

  lemma MergedTextRendersAlike(front: seq<Piece>, a: string, b: string)
    ensures RenderedAll(front + [Text(a + b)]) == RenderedAll(front + [Text(a)]) + Rendered(Text(b))
  {
    RenderedMore(front, Text(a));
    RenderedMore(front, Text(a + b));
    Escaping.EscapeApart(a, b, false);
    Regroup(RenderedAll(front), Rendered(Text(a)), Rendered(Text(b)));
  }

  lemma {:induction false} MergedRendersAlike(pieces: seq<Piece>)
    ensures RenderedAll(Merged(pieces)) == RenderedAll(pieces)
  {
    if pieces != [] {
      var before, last := Merged(pieces[..|pieces| - 1]), pieces[|pieces| - 1];
      MergedRendersAlike(pieces[..|pieces| - 1]);
      if last.Text? && before != [] && before[|before| - 1].Text? {
        var front, text := before[..|before| - 1], before[|before| - 1].text;
        assert before == front + [Text(text)];
        MergedTextRendersAlike(front, text, last.text);
      } else {
        RenderedMore(before, last);
      }
    }
  }

  function Sanitized(events: seq<Event>): string {
    RenderedAll(Run(events).out)
  }

  /** Sanitising what the sanitiser wrote, read again by a parser, changes not a character. */
  lemma SanitizingTwice(events: seq<Event>)
    ensures Sanitized(RereadAll(Merged(Run(events).out))) == Sanitized(events)
  {
    var out := Run(events).out;
    OnlyAllowedComesOut(events);
    MergedIsProper(out);
    RereadIsKept(Merged(out));
    MergedRendersAlike(out);
  }

  // ----- the object -----

  class AllowlistHtmlSanitizer {
    var output: seq<string>
    var dropDepth: nat
    ghost var seen: seq<Event>

    ghost predicate Valid()
      reads this
    {
      Joined(output) == Sanitized(seen) && dropDepth == Run(seen).depth
    }

    constructor ()
      ensures Valid() && seen == []
    {
      output, dropDepth, seen := [], 0, [];
    }

    method Write(text: string)
      modifies this`output
      ensures Joined(output) == Joined(old(output)) + text
    {
      output := output + [text];
      assert output[..|output| - 1] == old(output);
    }

    method HandleStarttag(tag0: string, attrs: seq<Attribute>)
      requires Valid()
      modifies this
      ensures Valid() && seen == old(seen) + [Start(tag0, attrs)]
    {
      RunOneMore(seen, Start(tag0, attrs));
      seen := seen + [Start(tag0, attrs)];
      var tag := Lower(tag0);
      if tag in DROP_CONTENT {
        if tag !in VOID {
          dropDepth := dropDepth + 1;
        }
        return;
      }
      if dropDepth > 0 || tag !in ALLOWED {
        return;
      }
      RenderedMore(Run(old(seen)).out, Open(tag, CleanAll(attrs)));
      var rendered := RenderTag(tag, attrs);
      Write(rendered);
    }

    method HandleEndtag(tag0: string)
      requires Valid()
      modifies this
      ensures Valid() && seen == old(seen) + [End(tag0)]
    {
      RunOneMore(seen, End(tag0));
      seen := seen + [End(tag0)];
      var tag := Lower(tag0);
      if tag in DROP_CONTENT {
        if dropDepth > 0 {
          dropDepth := dropDepth - 1;
        }
        return;
      }
      if dropDepth > 0 {
        return;
      }
      if tag in ALLOWED && tag !in VOID {
        RenderedMore(Run(old(seen)).out, Close(tag));
        Write("</" + tag + ">");
      }
    }

    method HandleData(data: string)
      requires Valid()
      modifies this
      ensures Valid() && seen == old(seen) + [Data(data)]
    {
      RunOneMore(seen, Data(data));
      seen := seen + [Data(data)];
      if dropDepth > 0 || data == "" {
        return;
      }
      RenderedMore(Run(old(seen)).out, Text(data));
      Write(Escaping.Escape(data, false));
    }

    method Handle(e: Event)
      requires Valid()
      modifies this
      ensures Valid() && seen == old(seen) + [e]
    {
      match e {
        case Start(tag, attrs) => HandleStarttag(tag, attrs);
        case End(tag) => HandleEndtag(tag);
        case Data(text) => HandleData(text);
      }
    }

    method Feed(events: seq<Event>)
      requires Valid()
      modifies this
      ensures Valid() && seen == old(seen) + events
    {
      ghost var before := seen;
      for i := 0 to |events|
        invariant Valid()
        invariant seen == FedTo(before, events, i)
      {
        FedMore(before, events, i);
        Handle(events[i]);
      }
      FedAll(before, events);
    }

    method Result() returns (html: string)
      requires Valid()
      ensures html == Sanitized(seen)
    {
      html := Joined(output);
    }
  }

  function FedTo(before: seq<Event>, events: seq<Event>, i: nat): seq<Event>
    requires i <= |events|
  {
    before + events[..i]
  }

  lemma FedMore(before: seq<Event>, events: seq<Event>, i: nat)
    requires i < |events|
    ensures FedTo(before, events, i) + [events[i]] == FedTo(before, events, i + 1)
  {
  }

  lemma FedAll(before: seq<Event>, events: seq<Event>)
    ensures FedTo(before, events, 0) == before
    ensures FedTo(before, events, |events|) == before + events
  {
  }

  function Joined(parts: seq<string>): string {
    if parts == [] then "" else Joined(parts[..|parts| - 1]) + parts[|parts| - 1]
  }

  method RenderTag(tag: string, attrs: seq<Attribute>) returns (rendered: string)
    ensures rendered == Rendered(Open(tag, CleanAll(attrs)))
  {
    var parts := RenderAttributes(attrs);
    rendered := "<" + tag + parts + if tag in VOID then "/>" else ">";
  }

  method RenderAttributes(attrs: seq<Attribute>) returns (parts: string)
    ensures parts == RenderedPairs(CleanAll(attrs))
  {
    parts := "";
    for i := 0 to |attrs|
      invariant parts == RenderedPairs(CleanAll(attrs[..i]))
    {
      assert attrs[..i + 1][..i] == attrs[..i];
      RenderedPairsMore(CleanAll(attrs[..i]), Clean(attrs[i]));
      var name := Lower(attrs[i].name);
      if StartsWith(name, "on") || name == "style" || name == "formaction" {
        continue;
      }
      if attrs[i].value.None? {
        continue;
      }
      var value := attrs[i].value.value;
      if IsUrl(name) {
        var safe := SafeUrl.Checked(value);
        if safe.None? {
          continue;
        }
        value := safe.value;
      }
      parts := parts + (" " + name + "=\"" + Escaping.Escape(value, true) + "\"");
    }
    assert attrs[..|attrs|] == attrs;
  }

  lemma RenderedPairsMore(pairs: seq<Pair>, more: Option<Pair>)
    ensures RenderedPairs(pairs + match more case None => [] case Some(pair) => [pair]) ==
      RenderedPairs(pairs) +
        match more
        case None => ""
        case Some(pair) => " " + pair.name + "=\"" + Escaping.Escape(pair.value, true) + "\""
  {
    match more {
      case None => assert pairs + [] == pairs;
      case Some(pair) => assert (pairs + [pair])[..|pairs|] == pairs;
    }
  }

  /** The whole export step; a fragment that no parser can read is escaped as plain text. */
  method SanitizeRichHtml(value: string, parsed: Option<seq<Event>>) returns (html: string)
    ensures html ==
      if value == "" then ""
      else if parsed.None? then Escaping.Escape(value, false)
      else Sanitized(parsed.value)
  {
    if value == "" {
      return "";
    }
    if parsed.None? {
      return Escaping.Escape(value, false);
    }
    var events := parsed.value;
    var sanitizer := new AllowlistHtmlSanitizer();
    sanitizer.Feed(events);
    assert [] + events == events;
    html := sanitizer.Result();
  }
}
