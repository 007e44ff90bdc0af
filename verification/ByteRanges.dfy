/** The two parsers of the HTTP Range header, on text as it arrives, and what RFC 7233 says the
    ranges they accept mean. */
module ByteRanges {
  import opened Prelude

  // ----- integers as the parsers read them -----

  /** Digits with single underscores between them. */
  function IntBody(t: string): Option<nat>
    decreases |t|
  {
    if t == "" || !IsDigit(t[|t| - 1]) then None
    else
      var digit, rest := DigitValue(t[|t| - 1]), t[..|t| - 1];
      if rest == "" then Some(digit)
      else
        match IntBody(if rest[|rest| - 1] == '_' then rest[..|rest| - 1] else rest)
        case None => None
        case Some(n) => Some(10 * n + digit)
  }

  function DigitCount(t: string): nat {
    if t == "" then 0 else DigitCount(t[..|t| - 1]) + if IsDigit(t[|t| - 1]) then 1 else 0
  }

  /** Python refuses to convert longer numerals. */
  const MAX_DIGITS := 4300

  function ReadNat(t: string): Option<nat> {
    if DigitCount(t) > MAX_DIGITS then None else IntBody(t)
  }

  /** White space around, a sign, digits; None where the conversion raises. */
  function ReadInt(s: string): Option<int> {
    var t := Strip(s);
    if t != "" && t[0] == '-' then
      (match ReadNat(t[1..]) case None => None case Some(n) => Some(-(n as int)))
    else
      match ReadNat(if t != "" && t[0] == '+' then t[1..] else t)
      case None => None
      case Some(n) => Some(n)
  }

  function Before(s: string, c: char): string {
    if s == "" || s[0] == c then "" else [s[0]] + Before(s[1..], c)
  }

  function Behind(s: string, c: char): string {
    if s == "" then "" else if s[0] == c then s[1..] else Behind(s[1..], c)
  }

  // ----- the same, said of the text -----

  predicate Joins(t: string, i: nat)
    requires i < |t|
  {
    t[i] == '_' && 0 < i < |t| - 1 && IsDigit(t[i - 1]) && IsDigit(t[i + 1])
  }

  /** Digits, and underscores each of which has a digit on either side. */
  predicate Grouped(t: string) {
    t != "" && forall i :: 0 <= i < |t| ==> IsDigit(t[i]) || Joins(t, i)
  }

  /** The digits of a text, in the order they stand there. */
  function OnlyDigits(t: string): (d: string)
    ensures IsDigits(d)
  {
    if t == "" then ""
    else if IsDigit(t[0]) then [t[0]] + OnlyDigits(t[1..])
    else OnlyDigits(t[1..])
  }

  lemma {:induction false} OnlyDigitsMore(t: string, c: char)
    ensures OnlyDigits(t + [c]) == OnlyDigits(t) + if IsDigit(c) then [c] else ""
  {
    if t == "" {
      assert (t + [c])[1..] == "";
    } else {
      assert (t + [c])[1..] == t[1..] + [c];
      OnlyDigitsMore(t[1..], c);
    }
  }

  lemma ValueOfMore(s: string, d: char)
    requires IsDigits(s) && IsDigit(d)
    ensures ValueOf(s + [d]) == ValueOf(s) * 10 + DigitValue(d)
  {
    assert (s + [d])[..|s|] == s;
  }

  lemma GroupedEnds(t: string)
    requires Grouped(t)
    ensures IsDigit(t[0]) && IsDigit(t[|t| - 1])
  {
    assert !Joins(t, 0) && !Joins(t, |t| - 1);
  }

  lemma GroupedMore(front: string, mid: string, d: char)
    requires Grouped(front) && (mid == "" || mid == "_") && IsDigit(d)
    ensures Grouped(front + mid + [d])
  {
    GroupedEnds(front);
    var t := front + mid + [d];
    forall i | 0 <= i < |t|
      ensures IsDigit(t[i]) || Joins(t, i)
    {
      if i < |front| { assert t[i] == front[i] && (IsDigit(front[i]) || Joins(front, i)); }
    }
  }

  lemma GroupedLess(front: string, mid: string, d: char)
    requires front != "" && (mid == "_" || (mid == "" && front[|front| - 1] != '_'))
    requires Grouped(front + mid + [d])
    ensures Grouped(front)
  {
    var t, last := front + mid + [d], |front| - 1;
    assert t[last] == front[last] && (IsDigit(t[last]) || Joins(t, last));
    if mid == "_" { assert t[|front|] == '_' && (IsDigit(t[|front|]) || Joins(t, |front|)); }
    forall i | 0 <= i < |front|
      ensures IsDigit(front[i]) || Joins(front, i)
    {
      assert front[i] == t[i] && (IsDigit(t[i]) || Joins(t, i));
    }
  }

  lemma OneDigit(d: char)
    requires IsDigit(d)
    ensures IntBody([d]) == Some(DigitValue(d)) && Grouped([d])
    ensures OnlyDigits([d]) == [d] && ValueOf([d]) == DigitValue(d)
  {
    assert [d][1..] == "" && [d][..0] == "";
  }

  /** What the reader takes off the end: a digit, and the underscore before it if there is one. */
  lemma GroupedStep(front: string, mid: string, d: char)
    requires (mid == "" && front != "" && front[|front| - 1] != '_') || mid == "_"
    requires IsDigit(d)
    ensures Grouped(front + mid + [d]) <==> Grouped(front)
    ensures OnlyDigits(front + mid + [d]) == OnlyDigits(front) + [d]
    ensures ValueOf(OnlyDigits(front) + [d]) == ValueOf(OnlyDigits(front)) * 10 + DigitValue(d)
  {
    var t := front + mid + [d];
    if Grouped(front) { GroupedMore(front, mid, d); }
    if Grouped(t) {
      GroupedEnds(t);
      if front != "" { GroupedLess(front, mid, d); }
    }
    OnlyDigitsMore(front + mid, d);
    if mid == "_" { OnlyDigitsMore(front, '_'); } else { assert front + mid == front; }
    ValueOfMore(OnlyDigits(front), d);
  }

  lemma IntBodyStep(front: string, mid: string, d: char)
    requires (mid == "" && front != "" && front[|front| - 1] != '_') || mid == "_"
    requires IsDigit(d)
    ensures IntBody(front + mid + [d]) ==
      match IntBody(front) case None => None case Some(n) => Some(10 * n + DigitValue(d))
  {
    var t, rest := front + mid + [d], front + mid;
    assert t[|t| - 1] == d && t[..|t| - 1] == rest;
    if mid == "_" { assert rest[..|rest| - 1] == front; } else { assert rest == front; }
  }

  /** Exactly which texts are numbers, digits with single underscores between them, and which number
      each of them is. */
  lemma {:induction false} IntBodyExactly(t: string)
    ensures IntBody(t) == if Grouped(t) then Some(ValueOf(OnlyDigits(t))) else None
    decreases |t|
  {
    if t != "" && !IsDigit(t[|t| - 1]) {
      if Grouped(t) { GroupedEnds(t); }
    } else if |t| == 1 {
      OneDigit(t[0]);
      assert t == [t[0]];
    } else if t != "" {
      var d, rest := t[|t| - 1], t[..|t| - 1];
      var front := if rest[|rest| - 1] == '_' then rest[..|rest| - 1] else rest;
      var mid := rest[|front|..];
      assert t == front + mid + [d];
      GroupedStep(front, mid, d);
      IntBodyStep(front, mid, d);
      IntBodyExactly(front);
    }
  }

  lemma {:induction false} DigitCountMeans(t: string)
    ensures DigitCount(t) == |OnlyDigits(t)|
  {
    if t != "" {
      var rest := t[..|t| - 1];
      DigitCountMeans(rest);
      OnlyDigitsMore(rest, t[|t| - 1]);
      assert t == rest + [t[|t| - 1]];
    }
  }

  predicate IsSign(sign: string) {
    sign == "" || sign == "+" || sign == "-"
  }

  /** The text of a number: white space around a sign, if any, and digits in groups, at most as many
      as Python converts. */
  ghost predicate NumberText(s: string, left: string, sign: string, body: string, right: string) {
    && s == left + (sign + body) + right && Blank(left) && Blank(right) && IsSign(sign)
    && Grouped(body) && |OnlyDigits(body)| <= 4300
  }

  function Signed(sign: string, body: string): int {
    var n: int := ValueOf(OnlyDigits(body));
    if sign == "-" then -n else n
  }

  lemma SignedIsTrimmed(sign: string, body: string)
    requires IsSign(sign) && Grouped(body)
    ensures Strip(sign + body) == sign + body
  {
    var t, end := sign + body, |body| - 1;
    GroupedEnds(body);
    assert t[0] == (if sign == "" then body[0] else sign[0]) && t[|t| - 1] == body[end];
  }

  lemma GroupedIsNat(body: string)
    requires Grouped(body) && |OnlyDigits(body)| <= MAX_DIGITS
    ensures ReadNat(body) == Some(ValueOf(OnlyDigits(body)))
  {
    IntBodyExactly(body);
    DigitCountMeans(body);
  }

  lemma SignedIsRead(sign: string, body: string)
    requires IsSign(sign) && Grouped(body) && |OnlyDigits(body)| <= MAX_DIGITS
    ensures ReadInt(sign + body) == Some(Signed(sign, body))
  {
    SignedIsTrimmed(sign, body);
    GroupedIsNat(body);
    GroupedEnds(body);
    if sign == "" {
      assert sign + body == body;
    } else {
      assert (sign + body)[0] == sign[0] && (sign + body)[1..] == body;
    }
  }

  lemma NumberIsRead(s: string, left: string, sign: string, body: string, right: string)
    requires NumberText(s, left, sign, body, right)
    ensures ReadInt(s) == Some(Signed(sign, body))
  {
    SignedIsRead(sign, body);
    ReadAround(left, sign + body, right);
  }

  lemma NatIsGrouped(body: string)
    requires ReadNat(body).Some?
    ensures Grouped(body) && |OnlyDigits(body)| <= MAX_DIGITS
  {
    IntBodyExactly(body);
    DigitCountMeans(body);
  }

  lemma ReadIsNumber(s: string) returns (left: string, sign: string, body: string, right: string)
    requires ReadInt(s).Some?
    ensures NumberText(s, left, sign, body, right)
  {
    left, right := StripParts(s);
    var t := Strip(s);
    if t != "" && (t[0] == '-' || t[0] == '+') {
      sign, body := [t[0]], t[1..];
    } else {
      sign, body := "", t;
    }
    NatIsGrouped(body);
    assert sign + body == t;
  }

  /** Exactly which texts are read as which integer. */
  lemma ReadIntExactly(s: string, n: int)
    ensures ReadInt(s) == Some(n) <==>
      exists left, sign, body, right :: NumberText(s, left, sign, body, right) && n == Signed(sign, body)
  {
    if ReadInt(s) == Some(n) {
      var left, sign, body, right := ReadIsNumber(s);
      NumberIsRead(s, left, sign, body, right);
    }
    if left, sign, body, right :| NumberText(s, left, sign, body, right) && n == Signed(sign, body) {
      NumberIsRead(s, left, sign, body, right);
    }
  }

  // ----- the parsers -----

  datatype Range = Range(start: int, end: int, partial: bool)

  datatype Verdict = Verdict(range: Range, unsatisfiable: bool)

  function Full(size: int): Range {
    Range(0, size - 1, false)
  }

  function Min(a: int, b: int): int {
    if a < b then a else b
  }

  function Max(a: int, b: int): int {
    if a > b then a else b
  }

  function ReadOr(s: string, absent: int): Option<int> {
    if s == "" then Some(absent) else ReadInt(s)
  }

  /** src/api/media_serving.py: everything it cannot serve becomes the full body. */
  function ParseByteRange(header: Option<string>, size: int): Range {
    if header.None? || !StartsWith(header.value, "bytes=") then Full(size)
    else
      var spec := Strip(header.value[6..]);
      if ',' in spec then Full(size)
      else if StartsWith(spec, "-") then
        match ReadInt(spec[1..])
        case None => Full(size)
        case Some(n) => if n <= 0 || size <= 0 then Full(size) else Range(Max(0, size - n), size - 1, true)
      else
        match ReadOr(Before(spec, '-'), 0)
        case None => Full(size)
        case Some(start) =>
          match ReadOr(Behind(spec, '-'), size - 1)
          case None => Full(size)
          case Some(last) =>
            var end := Min(last, size - 1);
            if start <= end then Range(start, end, true) else Full(size)
  }

  /** src/static_client/router.py: an unserviceable range is answered with 416. */
  function ParseRange(spec: string, size: int): Verdict {
    if ',' in spec then Verdict(Full(size), false)
    else if StartsWith(spec, "-") then
      match ReadInt(spec[1..])
      case None => Verdict(Full(size), true)
      case Some(n) =>
        if n <= 0 then Verdict(Full(size), true)
        else if size <= 0 then Verdict(Full(size), false)
        else Verdict(Range(Max(0, size - n), size - 1, true), false)
    else
      match ReadOr(Before(spec, '-'), 0)
      case None => Verdict(Full(size), true)
      case Some(start) =>
        match ReadOr(Behind(spec, '-'), size - 1)
        case None => Verdict(Full(size), true)
        case Some(last) =>
          var end := Min(last, size - 1);
          if start > end || start >= size then Verdict(Full(size), true)
          else Verdict(Range(start, end, true), false)
  }

  // ----- agreement and bounds -----

  /** The media parser is the router's on trimmed text: the same range, and the full body both where
      the router says so and where it answers 416. */
  lemma MediaTrims(spec: string, size: int)
    ensures ParseByteRange(Some("bytes=" + spec), size) == ParseRange(Strip(spec), size).range
    ensures ParseRange(spec, size).unsatisfiable ==> ParseRange(spec, size).range == Full(size)
  {
    assert ("bytes=" + spec)[6..] == spec;
  }

  predicate Blank(s: string) {
    forall i :: 0 <= i < |s| ==> IsSpace(s[i])
  }

  lemma {:induction false} StripLeftParts(s: string) returns (left: string)
    ensures Blank(left) && s == left + StripLeft(s)
    ensures StripLeft(s) != "" ==> !IsSpace(StripLeft(s)[0])
  {
    left := "";
    if s != "" && IsSpace(s[0]) {
      left := StripLeftParts(s[1..]);
      left := [s[0]] + left;
    }
  }

  lemma {:induction false} StripRightParts(s: string) returns (right: string)
    ensures Blank(right) && s == StripRight(s) + right
    ensures StripRight(s) != "" ==> !IsSpace(StripRight(s)[|StripRight(s)| - 1])
  {
    right := "";
    if s != "" && IsSpace(s[|s| - 1]) {
      right := StripRightParts(s[..|s| - 1]);
      right := right + [s[|s| - 1]];
    }
  }

  /** What stripping takes off. */
  lemma StripParts(s: string) returns (left: string, right: string)
    ensures Blank(left) && Blank(right) && s == left + Strip(s) + right
    ensures Strip(s) != "" ==> !IsSpace(Strip(s)[0]) && !IsSpace(Strip(s)[|Strip(s)| - 1])
  {
    left := StripLeftParts(s);
    right := StripRightParts(StripLeft(s));
    if Strip(s) != "" { assert Strip(s)[0] == StripLeft(s)[0]; }
  }

  lemma {:induction false} StripLeftAround(left: string, x: string)
    requires Blank(left)
    ensures StripLeft(left + x) == StripLeft(x)
  {
    if left == "" {
      assert left + x == x;
    } else {
      assert (left + x)[1..] == left[1..] + x;
      StripLeftAround(left[1..], x);
    }
  }

  lemma {:induction false} StripRightAround(x: string, right: string)
    requires Blank(right)
    ensures StripRight(x + right) == StripRight(x)
  {
    if right == "" {
      assert x + right == x;
    } else {
      assert (x + right)[..|x + right| - 1] == x + right[..|right| - 1];
      StripRightAround(x, right[..|right| - 1]);
    }
  }

  lemma {:induction false} StripLeftThrough(x: string, right: string)
    requires Blank(right)
    ensures StripRight(StripLeft(x + right)) == StripRight(StripLeft(x))
  {
    if x == "" {
      assert x + right == right + "";
      StripLeftAround(right, "");
    } else if IsSpace(x[0]) {
      assert (x + right)[1..] == x[1..] + right;
      StripLeftThrough(x[1..], right);
    } else {
      StripRightAround(x, right);
    }
  }

  /** White space around a number does not matter. */
  lemma ReadAround(left: string, x: string, right: string)
    requires Blank(left) && Blank(right)
    ensures ReadInt(left + x + right) == ReadInt(x)
  {
    StripLeftThrough(left + x, right);
    StripLeftAround(left, x);
  }

  lemma BlankIsNoNumber(s: string)
    requires Blank(s)
    ensures ReadInt(s) == None
  {
    StripLeftAround(s, "");
    assert s + "" == s;
  }

  lemma {:induction false} CutAtDash(left: string, u: string)
    requires '-' !in left
    ensures Before(left + u, '-') == left + Before(u, '-') && Behind(left + u, '-') == Behind(u, '-')
  {
    if left == "" {
      assert left + u == u;
    } else {
      assert (left + u)[1..] == left[1..] + u;
      CutAtDash(left[1..], u);
      assert [left[0]] + (left[1..] + Before(u, '-')) == left + Before(u, '-');
    }
  }

  lemma {:induction false} CutBeforeRest(u: string, right: string)
    requires '-' in u
    ensures Before(u + right, '-') == Before(u, '-') && Behind(u + right, '-') == Behind(u, '-') + right
  {
    if u[0] == '-' {
      assert (u + right)[1..] == u[1..] + right;
    } else {
      assert (u + right)[1..] == u[1..] + right;
      CutBeforeRest(u[1..], right);
    }
  }

  lemma {:induction false} NoDashToCut(u: string)
    requires '-' !in u
    ensures Before(u, '-') == u && Behind(u, '-') == ""
  {
    if u != "" {
      NoDashToCut(u[1..]);
      assert [u[0]] + u[1..] == u;
    }
  }

  /** White space that stands alone where the router looks for a dash or for an absent number, in a
      text that names a range once it is trimmed: blank altogether, before the dash of a suffix, or
      after a closing dash. */
  predicate BlankStandsAlone(spec: string, size: int) {
    var t := Strip(spec);
    spec != "" && ',' !in spec &&
    if t == "" then size > 0
    else if StartsWith(t, "-") then
      IsSpace(spec[0]) && size > 0 && ReadInt(t[1..]).Some? && ReadInt(t[1..]).value > 0
    else
      IsSpace(spec[|spec| - 1]) && '-' in t && Behind(t, '-') == ""
      && ReadInt(Before(t, '-')).Some? && ReadInt(Before(t, '-')).value < size
  }

  lemma BlankSpecDiffers(spec: string, size: int)
    requires Strip(spec) == "" && spec != ""
    ensures ParseRange("", size).range != ParseRange(spec, size).range <==> BlankStandsAlone(spec, size)
  {
    var left, right := StripParts(spec);
    assert Blank(spec);
    NoDashToCut(spec);
    StartsApart(spec, "-", 0);
    BlankIsNoNumber(spec);
  }

  lemma SuffixSpecDiffers(left: string, t: string, right: string, size: int)
    requires Blank(left) && Blank(right) && StartsWith(t, "-") && Strip(left + t + right) == t
    ensures var spec := left + t + right;
      ParseRange(t, size).range != ParseRange(spec, size).range <==> BlankStandsAlone(spec, size)
  {
    var spec := left + t + right;
    assert ',' in spec <==> ',' in t;
    assert t[0] == '-';
    if left == "" {
      assert spec == t + right && spec[0] == '-' && spec[1..] == "" + t[1..] + right;
      ReadAround("", t[1..], right);
      assert spec[..1] == "-";
    } else {
      assert spec[0] == left[0];
      StartsApart(spec, "-", 0);
      assert spec == left + (t + right);
      CutAtDash(left, t + right);
      assert Before(t + right, '-') == "" && left + "" == left;
      BlankIsNoNumber(left);
    }
  }

  lemma FirstNumberAlike(left: string, t: string, right: string)
    requires Blank(left) && Blank(right) && t != "" && t[0] != '-'
    ensures var spec := left + t + right;
      ReadOr(Before(spec, '-'), 0) == ReadOr(Before(t, '-'), 0) == ReadInt(Before(t, '-'))
  {
    assert left + t + right == left + (t + right);
    CutAtDash(left, t + right);
    assert Before(t, '-') != "";
    if '-' in t {
      CutBeforeRest(t, right);
      ReadAround(left, Before(t, '-'), "");
      assert left + Before(t, '-') + "" == left + Before(t, '-');
    } else {
      NoDashToCut(t);
      NoDashToCut(t + right);
      ReadAround(left, t, right);
    }
  }

  lemma LastNumberAlike(left: string, t: string, right: string, absent: int)
    requires Blank(left) && Blank(right) && t != ""
    ensures var spec := left + t + right;
      if '-' in t && Behind(t, '-') == "" then Behind(spec, '-') == right
      else ReadOr(Behind(spec, '-'), absent) == ReadOr(Behind(t, '-'), absent)
  {
    assert left + t + right == left + (t + right);
    CutAtDash(left, t + right);
    if '-' in t {
      CutBeforeRest(t, right);
      ReadAround("", Behind(t, '-'), right);
      assert "" + Behind(t, '-') + right == Behind(t, '-') + right;
    } else {
      NoDashToCut(t);
      NoDashToCut(t + right);
    }
  }

  lemma PlainSpecDiffers(left: string, t: string, right: string, size: int)
    requires Blank(left) && Blank(right) && t != "" && t[0] != '-' && !IsSpace(t[|t| - 1])
    requires Strip(left + t + right) == t
    ensures var spec := left + t + right;
      ParseRange(t, size).range != ParseRange(spec, size).range <==> BlankStandsAlone(spec, size)
  {
    var spec := left + t + right;
    assert ',' in spec <==> ',' in t;
    assert spec[0] == if left == "" then t[0] else left[0];
    assert spec[|spec| - 1] == if right == "" then t[|t| - 1] else right[|right| - 1];
    StartsApart(spec, "-", 0);
    StartsApart(t, "-", 0);
    FirstNumberAlike(left, t, right);
    LastNumberAlike(left, t, right, size - 1);
    BlankIsNoNumber(right);
  }

  /** The two parsers differ on the same text exactly when white space stands alone in it; so they
      agree on all trimmed text. */
  lemma ParsersDiffer(spec: string, size: int)
    ensures ParseByteRange(Some("bytes=" + spec), size) != ParseRange(spec, size).range
            <==> BlankStandsAlone(spec, size)
    ensures Strip(spec) == spec ==> ParseByteRange(Some("bytes=" + spec), size) == ParseRange(spec, size).range
  {
    MediaTrims(spec, size);
    var left, right := StripParts(spec);
    var t := Strip(spec);
    if spec == "" {
    } else if t == "" {
      BlankSpecDiffers(spec, size);
    } else if t[0] == '-' {
      assert t[..1] == "-";
      SuffixSpecDiffers(left, t, right, size);
    } else {
      PlainSpecDiffers(left, t, right, size);
    }
  }

  /** The router does not trim what it is given: one header can be a range for the one parser and an
      error for the other. */
  lemma TrimmingMatters()
    ensures ParseByteRange(Some("bytes= -5"), 10) != ParseRange(" -5", 10).range
  {
    var spec := " -5";
    assert "bytes=" + spec == "bytes= -5";
    assert spec[1..] == "-5" && StripLeft(spec) == "-5" && Strip(spec) == "-5";
    assert "-5"[1..] == "5" && Strip("5") == "5";
    assert ReadNat("5") == Some(5) by { assert "5"[..0] == ""; }
    ParsersDiffer(spec, 10);
  }

  /** A list of ranges is not served by either parser, and is no error for either. */
  lemma SeveralRangesAreIgnored(spec: string, size: int)
    requires ',' in spec
    ensures ParseRange(spec, size) == Verdict(Full(size), false)
    ensures ParseByteRange(Some("bytes=" + spec), size) == Full(size)
  {
    var left, right := StripParts(spec);
    MediaTrims(spec, size);
    assert ',' in Strip(spec);
  }

  /** Every text that begins with a dash: 416 unless a positive number follows it. */
  lemma SuffixInParts(b: string, size: int)
    requires ',' !in b
    ensures var v := ParseRange("-" + b, size);
      && (v.unsatisfiable <==> !exists n :: n > 0 && ReadInt(b) == Some(n))
      && (v.range.partial <==> size > 0 && !v.unsatisfiable)
      && (v.range.partial ==> v.range.end == size - 1)
      && forall n :: v.range.partial && ReadInt(b) == Some(n) ==> v.range.start == if n < size then size - n else 0
  {
    var spec := "-" + b;
    assert spec[..1] == "-" && spec[1..] == b;
    assert ParseRange(spec, size).unsatisfiable || ReadInt(b) == Some(ReadInt(b).value);
  }

  /** The number that a text stands for, where an absent one has a value of its own. */
  predicate Stands(s: string, absent: int, n: int) {
    if s == "" then n == absent else ReadInt(s) == Some(n)
  }

  /** Every other text: 416 unless the numbers before and after the first dash can be read and name a
      position of the body. */
  lemma BoundedInParts(a: string, dash: string, b: string, size: int)
    requires '-' !in a && ',' !in a && ',' !in b
    requires (a != "" && dash == "-") || dash == b == ""
    ensures var v, top := ParseRange(a + dash + b, size), size - 1;
      && (v.unsatisfiable <==> !v.range.partial)
      && (v.range.partial <==>
          exists first, last :: Stands(a, 0, first) && Stands(b, top, last) && first <= last && first < size)
      && (v.range.partial ==> Stands(a, 0, v.range.start))
      && forall last :: v.range.partial && Stands(b, top, last) ==> v.range.end == if last < size then last else top
  {
    var spec := a + dash + b;
    CutAtDash(a, dash + b);
    assert spec == a + (dash + b);
    assert dash == "-" ==> (dash + b)[1..] == b;
    if a != "" { StartsApart(spec, "-", 0); }
    assert Before(spec, '-') == a && Behind(spec, '-') == b;
    var v := ParseRange(spec, size);
    if v.range.partial {
      var first, last := ReadOr(a, 0).value, ReadOr(b, size - 1).value;
      assert Stands(a, 0, first) && Stands(b, size - 1, last);
    }
  }

  lemma {:induction false} BeforeLacks(s: string, c: char)
    ensures c !in Before(s, c)
  {
    if s != "" && s[0] != c { BeforeLacks(s[1..], c); }
  }

  lemma {:induction false} StripLacks(s: string, c: char)
    requires c !in s
    ensures c !in StripLeft(s) && c !in StripRight(s)
  {
    if s != "" {
      if IsSpace(s[0]) { StripLacks(s[1..], c); }
      if IsSpace(s[|s| - 1]) { StripLacks(s[..|s| - 1], c); }
    }
  }

  lemma UnsignedIsNatural(s: string)
    requires '-' !in s && ReadInt(s).Some?
    ensures ReadInt(s).value >= 0
  {
    StripLacks(s, '-');
    StripLacks(StripLeft(s), '-');
  }

  /** A partial answer always names bytes that exist. */
  lemma PartialIsInside(spec: string, size: int)
    requires ParseRange(spec, size).range.partial
    ensures var r := ParseRange(spec, size).range; 0 <= r.start <= r.end < size
  {
    if !StartsWith(spec, "-") {
      BeforeLacks(spec, '-');
      if Before(spec, '-') != "" { UnsignedIsNatural(Before(spec, '-')); }
    }
  }

  /** The media parser likewise; and it serves only ranges of the unit bytes. */
  lemma PartialIsInsideMedia(header: Option<string>, size: int)
    requires ParseByteRange(header, size).partial
    ensures header.Some? && "bytes=" <= header.value
    ensures var r := ParseByteRange(header, size); 0 <= r.start <= r.end < size
  {
    var spec := Strip(header.value[6..]);
    if !StartsWith(spec, "-") {
      BeforeLacks(spec, '-');
      if Before(spec, '-') != "" { UnsignedIsNatural(Before(spec, '-')); }
    }
  }

  // ----- section 2.1 of RFC 7233 -----

  datatype ByteRangeSpec = From(first: nat) | Between(first: nat, last: nat) | Suffix(length: nat)

  function Text(r: ByteRangeSpec): string {
    match r
    case From(first) => Numeral(first) + "-"
    case Between(first, last) => Numeral(first) + "-" + Numeral(last)
    case Suffix(length) => "-" + Numeral(length)
  }

  /** The positions a range asks for. */
  predicate Asks(r: ByteRangeSpec, size: nat, at: nat) {
    match r
    case From(first) => first <= at < size
    case Between(first, last) => first <= at <= last && at < size
    case Suffix(length) => at < size && size <= at + length
  }

  lemma {:induction false} DigitsRead(s: string)
    requires s != "" && IsDigits(s)
    ensures IntBody(s) == Some(ValueOf(s))
  {
    var rest := s[..|s| - 1];
    if rest == "" {
      assert ValueOf(rest) == 0;
    } else {
      assert IsDigit(rest[|rest| - 1]);
      DigitsRead(rest);
    }
  }

  lemma DigitsStripped(s: string)
    requires s != "" && IsDigits(s)
    ensures Strip(s) == s
  {
  }

  /** A numeral short enough to be converted. */
  predicate Short(n: nat) {
    |Numeral(n)| <= MAX_DIGITS
  }

  lemma {:induction false} DigitsCount(s: string)
    requires IsDigits(s)
    ensures DigitCount(s) == |s|
  {
    if s != "" { DigitsCount(s[..|s| - 1]); }
  }

  lemma NumeralRead(n: nat)
    ensures ReadInt(Numeral(n)) == (if Short(n) then Some(n) else None)
    ensures Numeral(n) != "" && IsDigits(Numeral(n))
  {
    NumeralDenotes(n);
    DigitsRead(Numeral(n));
    DigitsCount(Numeral(n));
    DigitsStripped(Numeral(n));
    assert IsDigit(Numeral(n)[0]);
  }

  lemma {:induction false} SplitAtDash(first: string, last: string)
    requires IsDigits(first)
    ensures Before(first + "-" + last, '-') == first && Behind(first + "-" + last, '-') == last
  {
    var s := first + "-" + last;
    if first == "" {
      assert s[1..] == last;
    } else {
      assert s[1..] == first[1..] + "-" + last;
      SplitAtDash(first[1..], last);
      assert [first[0]] + first[1..] == first;
    }
  }

  /** Every number in the range is short enough to be converted. */
  predicate AllShort(r: ByteRangeSpec) {
    match r
    case From(first) => Short(first)
    case Between(first, last) => Short(first) && Short(last)
    case Suffix(length) => Short(length)
  }

  function IfShort(n: nat): Option<int> {
    if Short(n) then Some(n) else None
  }

  lemma SuffixParts(n: nat)
    ensures var s := Text(Suffix(n));
      ',' !in s && StartsWith(s, "-") && ReadInt(s[1..]) == IfShort(n)
  {
    NumeralRead(n);
    assert Text(Suffix(n))[1..] == Numeral(n);
  }

  lemma BoundedParts(first: nat, last: string)
    requires IsDigits(last)
    ensures var s := Numeral(first) + "-" + last;
      && ',' !in s && !StartsWith(s, "-")
      && ReadOr(Before(s, '-'), 0) == IfShort(first) && Behind(s, '-') == last
  {
    NumeralRead(first);
    SplitAtDash(Numeral(first), last);
    StartsApart(Numeral(first) + "-" + last, "-", 0);
  }

  lemma TextParts(r: ByteRangeSpec)
    ensures ',' !in Text(r) && (StartsWith(Text(r), "-") <==> r.Suffix?)
    ensures r.Suffix? ==> ReadInt(Text(r)[1..]) == IfShort(r.length)
    ensures !r.Suffix? ==> ReadOr(Before(Text(r), '-'), 0) == IfShort(r.first)
    ensures r.From? ==> Behind(Text(r), '-') == ""
    ensures r.Between? ==> Behind(Text(r), '-') != "" && ReadInt(Behind(Text(r), '-')) == IfShort(r.last)
  {
    match r {
      case Suffix(length) => SuffixParts(length);
      case From(first) =>
        BoundedParts(first, "");
        assert Text(r) == Numeral(first) + "-" + "";
      case Between(first, last) =>
        NumeralRead(last);
        BoundedParts(first, Numeral(last));
    }
  }

  /** Every well-formed range is served as section 2.1 of RFC 7233 defines it: the bytes served are
      exactly the positions asked for, if any; otherwise the answer is 416, save that a suffix of an
      empty body is the empty body.  A number too long to be converted always gets 416. */
  lemma RangeMeansItsPositions(r: ByteRangeSpec, size: nat)
    ensures var v := ParseRange(Text(r), size);
      if !AllShort(r) then v == Verdict(Full(size), true)
      else
        && (v.range.partial <==> exists at: nat :: Asks(r, size, at))
        && (v.range.partial ==> forall at: nat :: Asks(r, size, at) <==> v.range.start <= at <= v.range.end)
        && (v.unsatisfiable <==> !v.range.partial && !(r.Suffix? && r.length > 0))
  {
    TextParts(r);
    var v := ParseRange(Text(r), size);
    if v.range.partial {
      PartialIsInside(Text(r), size);
      assert Asks(r, size, v.range.start);
    }
  }

  lemma TextIsTrimmed(r: ByteRangeSpec)
    ensures Strip(Text(r)) == Text(r)
  {
    var t := Text(r);
    match r {
      case Suffix(length) => NumeralRead(length); assert t[|t| - 1] == Numeral(length)[|Numeral(length)| - 1];
      case From(first) => NumeralRead(first); assert t[0] == Numeral(first)[0] && t[|t| - 1] == '-';
      case Between(first, last) =>
        NumeralRead(first);
        NumeralRead(last);
        assert t[0] == Numeral(first)[0] && t[|t| - 1] == Numeral(last)[|Numeral(last)| - 1];
    }
  }

  /** The media parser serves the same positions, and the full body where there are none or a number
      is too long. */
  lemma MediaRangeMeansItsPositions(r: ByteRangeSpec, size: nat)
    ensures var m := ParseByteRange(Some("bytes=" + Text(r)), size);
      if AllShort(r) && exists at: nat :: Asks(r, size, at)
      then m.partial && forall at: nat :: Asks(r, size, at) <==> m.start <= at <= m.end
      else m == Full(size)
  {
    TextIsTrimmed(r);
    MediaTrims(Text(r), size);
    RangeMeansItsPositions(r, size);
  }
}
