/** Version tags such as a.1.0-60: parsing, formatting, comparing. */
module VersionTags {
  import opened Prelude
  import opened StringOrder

  datatype Stage = Alpha | Beta | Candidate | Release

  datatype Version = Version(stage: Stage, major: nat, minor: nat, build: nat) {
    predicate Valid() {
      major >= 1 && build >= 1
    }
  }

  function Letter(s: Stage): char {
    match s
    case Alpha => 'a'
    case Beta => 'b'
    case Candidate => 'c'
    case Release => 'r'
  }

  function StageOf(c: char): Option<Stage> {
    if c == 'a' then Some(Alpha)
    else if c == 'b' then Some(Beta)
    else if c == 'c' then Some(Candidate)
    else if c == 'r' then Some(Release)
    else None
  }

  predicate IsNumber(s: string) {
    s != "" && IsDigits(s)
  }

  /** major.minor-build, once the stage letter and its dot are off. */
  function ParseNumbers(stage: Stage, s: string): Option<Version> {
    var i := Find(s, '.');
    if i == |s| then None else
      var t := s[i + 1..];
      var j := Find(t, '-');
      if j == |t| then None else
        var major, minor, build := s[..i], t[..j], t[j + 1..];
        if IsNumber(major) && IsNumber(minor) && IsNumber(build)
           && ValueOf(major) >= 1 && ValueOf(build) >= 1
        then Some(Version(stage, ValueOf(major), ValueOf(minor), ValueOf(build)))
        else None
  }

  function Parse(s: string): Option<Version> {
    if s == "" || '\r' in s || '\n' in s || '\0' in s then None else
      var t := Lower(Strip(s));
      if |t| < 2 || t[1] != '.' || StageOf(t[0]) == None then None
      else ParseNumbers(StageOf(t[0]).value, t[2..])
  }

  function Numbers(v: Version): string {
    Numeral(v.major) + "." + (Numeral(v.minor) + "-" + Numeral(v.build))
  }

  function Format(v: Version): string {
    [Letter(v.stage), '.'] + Numbers(v)
  }

  // ----- formatting and parsing are inverse -----

  lemma {:induction false} FindAfterDigits(s: string, c: char, rest: string)
    requires IsDigits(s) && !IsDigit(c)
    ensures Find(s + [c] + rest, c) == |s|
  {
    var t := s + [c] + rest;
    if s == "" {
      assert t == [c] + rest;
    } else {
      assert t[1..] == s[1..] + [c] + rest;
      FindAfterDigits(s[1..], c, rest);
    }
  }

  predicate TagChar(c: char) {
    IsDigit(c) || c == '.' || c == '-' || 'a' <= c <= 'z'
  }

  predicate TagChars(s: string) {
    forall i :: 0 <= i < |s| ==> TagChar(s[i])
  }

  lemma TagCharsArePlain(s: string)
    requires TagChars(s) && s != ""
    ensures Lower(Strip(s)) == s
  {
    assert TagChar(s[0]) && TagChar(s[|s| - 1]);
    assert Strip(s) == s;
    LowerOfPlain(s);
  }

  /** Nothing to strip and nothing to lower in a formatted tag. */
  lemma FormatIsPlain(v: Version)
    ensures TagChars(Format(v))
    ensures Lower(Strip(Format(v))) == Format(v)
  {
    NumeralDenotes(v.major);
    NumeralDenotes(v.minor);
    NumeralDenotes(v.build);
    TagCharsArePlain(Format(v));
  }

  /** Splitting at the first separator after a number gives the number and the rest. */
  lemma SplitAt(a: string, c: char, rest: string)
    requires IsDigits(a) && !IsDigit(c)
    ensures var s := a + [c] + rest;
      Find(s, c) == |a| && |a| < |s| && s[..|a|] == a && s[|a| + 1..] == rest
  {
    FindAfterDigits(a, c, rest);
  }

  lemma ParseThreeNumbers(stage: Stage, a: string, b: string, c: string)
    requires IsNumber(a) && IsNumber(b) && IsNumber(c) && ValueOf(a) >= 1 && ValueOf(c) >= 1
    ensures ParseNumbers(stage, a + ['.'] + (b + ['-'] + c))
         == Some(Version(stage, ValueOf(a), ValueOf(b), ValueOf(c)))
  {
    SplitAt(a, '.', b + ['-'] + c);
    SplitAt(b, '-', c);
  }

  lemma PlainHead(s: string, t: string)
    requires |s| >= 2 && Lower(Strip(s)) == s && s[1] == '.' && StageOf(s[0]).Some? && s[2..] == t
    requires '\r' !in s && '\n' !in s && '\0' !in s
    ensures Parse(s) == ParseNumbers(StageOf(s[0]).value, t)
  {
  }

  lemma PlainHasNoBreaks(s: string)
    requires TagChars(s)
    ensures '\r' !in s && '\n' !in s && '\0' !in s
  {
  }

  lemma ParseNumbersOfNumbers(v: Version)
    requires v.Valid()
    ensures ParseNumbers(v.stage, Numbers(v)) == Some(v)
  {
    var a, b, c := Numeral(v.major), Numeral(v.minor), Numeral(v.build);
    NumeralDenotes(v.major);
    NumeralDenotes(v.minor);
    NumeralDenotes(v.build);
    ParseThreeNumbers(v.stage, a, b, c);
    assert Numbers(v) == a + ['.'] + (b + ['-'] + c);
  }

  lemma HeadOfFormat(v: Version)
    ensures var s := Format(v);
      |s| >= 2 && StageOf(s[0]) == Some(v.stage) && s[1] == '.' && s[2..] == Numbers(v)
  {
  }

  lemma PlainTag(s: string, numbers: string, v: Version)
    requires |s| >= 2 && StageOf(s[0]) == Some(v.stage) && s[1] == '.' && s[2..] == numbers
    requires TagChars(s) && ParseNumbers(v.stage, numbers) == Some(v)
    ensures Parse(s) == Some(v)
  {
    TagCharsArePlain(s);
    PlainHasNoBreaks(s);
    PlainHead(s, numbers);
  }

  lemma ParseOfFormat(v: Version)
    requires v.Valid()
    ensures Parse(Format(v)) == Some(v)
  {
    FormatIsPlain(v);
    HeadOfFormat(v);
    ParseNumbersOfNumbers(v);
    PlainTag(Format(v), Numbers(v), v);
  }

  lemma FormatInjective(v: Version, w: Version)
    requires v.Valid() && w.Valid() && Format(v) == Format(w)
    ensures v == w
  {
    ParseOfFormat(v);
    ParseOfFormat(w);
  }

  lemma NumbersParsed(stage: Stage, s: string) returns (a: string, b: string, c: string)
    requires ParseNumbers(stage, s).Some?
    ensures IsNumber(a) && IsNumber(b) && IsNumber(c) && s == a + ['.'] + (b + ['-'] + c)
    ensures ParseNumbers(stage, s) == Some(Version(stage, ValueOf(a), ValueOf(b), ValueOf(c)))
    ensures ValueOf(a) >= 1 && ValueOf(c) >= 1
  {
    var i := Find(s, '.');
    var t := s[i + 1..];
    var j := Find(t, '-');
    a, b, c := s[..i], t[..j], t[j + 1..];
    assert t == b + ['-'] + c;
    assert s == a + ['.'] + t;
  }

  /** The letter, a dot, and three numbers, of which the first and the last are not zero. */
  predicate Spells(t: string, v: Version, a: string, b: string, c: string) {
    && a != "" && b != "" && c != "" && IsDigits(a) && IsDigits(b) && IsDigits(c)
    && |t| >= 2 && t[1] == '.' && t[2..] == a + ['.'] + (b + ['-'] + c)
    && (v.stage.Alpha? <==> t[0] == 'a') && (v.stage.Beta? <==> t[0] == 'b')
    && (v.stage.Candidate? <==> t[0] == 'c') && (v.stage.Release? <==> t[0] == 'r')
    && ValueOf(a) == v.major >= 1 && ValueOf(b) == v.minor && ValueOf(c) == v.build >= 1
  }

  /** Exactly which texts are versions, and which version they are: without line ends and NULs, and in
      small letters without the white space around, a letter, a dot, and digits with a dot and a dash. */
  lemma ParseExactly(s: string, v: Version)
    ensures Parse(s) == Some(v) <==>
      && '\r' !in s && '\n' !in s && '\0' !in s
      && exists a, b, c :: Spells(Lower(Strip(s)), v, a, b, c)
  {
    var t := Lower(Strip(s));
    if Parse(s) == Some(v) {
      var a, b, c := NumbersParsed(StageOf(t[0]).value, t[2..]);
      assert Spells(t, v, a, b, c);
    }
    if a, b, c :| '\r' !in s && '\n' !in s && '\0' !in s && Spells(t, v, a, b, c) {
      ParseThreeNumbers(v.stage, a, b, c);
      assert s == "" ==> t == "";
    }
  }

  /** A tag as the manager writes it.  Other spellings of a version exist. */
  predicate Canonical(s: string) {
    Parse(s).Some? && Format(Parse(s).value) == s
  }

  lemma FormatIsCanonical(v: Version)
    requires v.Valid()
    ensures Canonical(Format(v))
  {
    ParseOfFormat(v);
  }

  // ----- comparing -----

  function StageOrder(s: Stage): nat {
    match s
    case Alpha => 0
    case Beta => 1
    case Candidate => 2
    case Release => 3
  }

  function Sign(a: int, b: int): int {
    if a > b then 1 else if a < b then -1 else 0
  }

  /** -1, 0 or 1: stage first, then major, minor, build. */
  function Compare(v: Version, w: Version): int {
    if v.stage != w.stage then Sign(StageOrder(v.stage), StageOrder(w.stage))
    else if v.major != w.major then Sign(v.major, w.major)
    else if v.minor != w.minor then Sign(v.minor, w.minor)
    else Sign(v.build, w.build)
  }

  lemma CompareIsTotalOrder(u: Version, v: Version, w: Version)
    ensures Compare(u, v) == 0 <==> u == v
    ensures Compare(v, u) == -Compare(u, v)
    ensures Compare(u, v) <= 0 && Compare(v, w) <= 0 ==> Compare(u, w) <= 0
  {
  }

  // ----- the string order of tags, against the version order -----

  /** What is left of a number when its numeral is cut down to k digits. */
  function LeadingDigits(n: nat, k: nat): nat
    requires 1 <= k <= |Numeral(n)|
    decreases n
  {
    if k == |Numeral(n)| then n else LeadingDigits(n / 10, k)
  }

  lemma {:induction false} LeadingDigitsNumeral(n: nat, k: nat)
    requires 1 <= k <= |Numeral(n)|
    ensures |Numeral(LeadingDigits(n, k))| == k
    ensures exists more :: Numeral(n) == Numeral(LeadingDigits(n, k)) + more
              && (k < |Numeral(n)| ==> more != "")
    decreases n
  {
    if k == |Numeral(n)| {
      assert Numeral(n) == Numeral(n) + "";
    } else {
      LeadingDigitsNumeral(n / 10, k);
      var more :| Numeral(n / 10) == Numeral(LeadingDigits(n / 10, k)) + more;
      assert Numeral(n) == Numeral(LeadingDigits(n, k)) + (more + [Digit(n % 10)]);
    }
  }

  lemma {:induction false} SameLengthOrder(a: nat, b: nat)
    requires |Numeral(a)| == |Numeral(b)|
    ensures Less(Numeral(a), Numeral(b)) <==> a < b
  {
    if a >= 10 {
      SameLengthOrder(a / 10, b / 10);
      LessAppend(Numeral(a / 10), Numeral(b / 10), Digit(a % 10), Digit(b % 10));
      if Numeral(a / 10) == Numeral(b / 10) {
        NumeralInjective(a / 10, b / 10);
      }
      assert Digit(a % 10) < Digit(b % 10) <==> a % 10 < b % 10;
    }
  }

  /** The string order compares the shorter number with the leading digits of the longer one,
      and puts the shorter first on a tie. */
  predicate ComesFirst(a: nat, b: nat) {
    var m, n := |Numeral(a)|, |Numeral(b)|;
    if m == n then a < b
    else if m < n then 1 <= m && a <= LeadingDigits(b, m)
    else 1 <= n && LeadingDigits(a, n) < b
  }

  lemma NumeralOrder(a: nat, b: nat)
    ensures Less(Numeral(a), Numeral(b)) <==> ComesFirst(a, b)
  {
    NumeralDenotes(a);
    NumeralDenotes(b);
    var m, n := |Numeral(a)|, |Numeral(b)|;
    if m == n {
      SameLengthOrder(a, b);
    } else if m < n {
      var c := LeadingDigits(b, m);
      LeadingDigitsNumeral(b, m);
      var more :| Numeral(b) == Numeral(c) + more && more != "";
      LessLonger(Numeral(a), Numeral(c), more);
      SameLengthOrder(a, c);
      if Numeral(a) == Numeral(c) {
        NumeralInjective(a, c);
      }
    } else {
      var c := LeadingDigits(a, n);
      LeadingDigitsNumeral(a, n);
      var more :| Numeral(a) == Numeral(c) + more && more != "";
      LessLonger(Numeral(b), Numeral(c), more);
      SameLengthOrder(c, b);
    }
  }

  /** A separator below the digits does not interfere: two different digit strings decide. */
  lemma {:induction false} DigitsDecide(s: string, t: string, sep: char, x: string, y: string)
    requires IsDigits(s) && IsDigits(t) && s != t && sep < '0'
    ensures Less(s + [sep] + x, t + [sep] + y) <==> Less(s, t)
  {
    if s == "" {
      assert (s + [sep] + x)[0] == sep && (t + [sep] + y)[0] == t[0];
    } else if t == "" {
      assert (s + [sep] + x)[0] == s[0] && (t + [sep] + y)[0] == sep;
    } else {
      assert (s + [sep] + x)[1..] == s[1..] + [sep] + x && (t + [sep] + y)[1..] == t[1..] + [sep] + y;
      assert s == [s[0]] + s[1..] && t == [t[0]] + t[1..];
      if s[0] == t[0] { DigitsDecide(s[1..], t[1..], sep, x, y); }
    }
  }

  lemma NumbersDecide(a: nat, b: nat, sep: char, x: string, y: string)
    requires sep < '0'
    ensures a != b ==> (Less(Numeral(a) + [sep] + x, Numeral(b) + [sep] + y) <==> ComesFirst(a, b))
    ensures a == b ==> (Less(Numeral(a) + [sep] + x, Numeral(b) + [sep] + y) <==> Less(x, y))
  {
    if a == b {
      LessAfterPrefix(Numeral(a) + [sep], x, y);
    } else {
      NumeralDenotes(a);
      NumeralDenotes(b);
      if Numeral(a) == Numeral(b) { NumeralInjective(a, b); }
      DigitsDecide(Numeral(a), Numeral(b), sep, x, y);
      NumeralOrder(a, b);
    }
  }

  /** The first number in which two versions of one stage differ. */
  function FirstDifference(v: Version, w: Version): (nat, nat) {
    if v.major != w.major then (v.major, w.major)
    else if v.minor != w.minor then (v.minor, w.minor)
    else (v.build, w.build)
  }

  lemma NumbersOrder(v: Version, w: Version)
    ensures var (a, b) := FirstDifference(v, w);
      Less(Numbers(v), Numbers(w)) <==> ComesFirst(a, b)
  {
    var tailV, tailW := Numeral(v.minor) + ['-'] + Numeral(v.build), Numeral(w.minor) + ['-'] + Numeral(w.build);
    assert Numbers(v) == Numeral(v.major) + ['.'] + tailV && Numbers(w) == Numeral(w.major) + ['.'] + tailW;
    NumbersDecide(v.major, w.major, '.', tailV, tailW);
    NumbersDecide(v.minor, w.minor, '-', Numeral(v.build), Numeral(w.build));
    NumeralOrder(v.build, w.build);
  }

  /** Where the string order puts one tag before another: by stage, and within a stage by the
      first number that differs, compared digit by digit from the front. */
  lemma TagOrder(v: Version, w: Version)
    ensures var (a, b) := FirstDifference(v, w);
      Less(Format(v), Format(w)) <==>
        if v.stage != w.stage then StageOrder(v.stage) < StageOrder(w.stage) else ComesFirst(a, b)
  {
    if v.stage == w.stage {
      LessAfterPrefix([Letter(v.stage), '.'], Numbers(v), Numbers(w));
      NumbersOrder(v, w);
    } else {
      assert Format(v)[0] == Letter(v.stage) && Format(w)[0] == Letter(w.stage);
    }
  }

  /** The string order is not the version order: build 99 sorts above build 170, and minor 9 above
      minor 10. */
  lemma StringOrderWitness()
    ensures var older, recent := Version(Alpha, 1, 0, 99), Version(Alpha, 1, 0, 170);
      Compare(older, recent) < 0 && Less(Format(recent), Format(older))
    ensures var older, recent := Version(Alpha, 1, 9, 1), Version(Alpha, 1, 10, 1);
      Compare(older, recent) < 0 && Less(Format(recent), Format(older))
  {
    assert Numeral(9) == [Digit(9)] && Numeral(99) == Numeral(9) + [Digit(9)];
    assert Numeral(1) == [Digit(1)] && Numeral(17) == Numeral(1) + [Digit(7)];
    assert Numeral(170) == Numeral(17) + [Digit(0)];
    assert Numeral(10) == Numeral(1) + [Digit(0)];
    TagOrder(Version(Alpha, 1, 0, 170), Version(Alpha, 1, 0, 99));
    TagOrder(Version(Alpha, 1, 10, 1), Version(Alpha, 1, 9, 1));
  }

  lemma {:induction false} FewerDigitsIsLess(a: nat, b: nat)
    requires |Numeral(a)| < |Numeral(b)|
    ensures a < b
  {
    if a >= 10 {
      FewerDigitsIsLess(a / 10, b / 10);
    }
  }

  /** Of two versions of one stage, the first number that differs has no more digits in the first. */
  predicate NoMoreDigits(v: Version, w: Version) {
    var (a, b) := FirstDifference(v, w);
    v.stage != w.stage || |Numeral(a)| <= |Numeral(b)|
  }

  /** When a tag sorts below another, it is the older of the two exactly when they differ in stage
      or the first number that differs has no more digits in it. */
  lemma SortedBelowIsOlder(v: Version, w: Version)
    requires Less(Format(v), Format(w))
    ensures Compare(v, w) < 0 <==> NoMoreDigits(v, w)
  {
    TagOrder(v, w);
    var (a, b) := FirstDifference(v, w);
    if v == w {
      LessIrreflexive(Format(v));
    }
    if |Numeral(a)| < |Numeral(b)| {
      FewerDigitsIsLess(a, b);
    } else if |Numeral(a)| > |Numeral(b)| {
      FewerDigitsIsLess(b, a);
    }
  }

  // ----- other spellings -----

  function PaddedNumbers(v: Version): string {
    Numeral(v.major) + "." + (Numeral(v.minor) + "-" + ("0" + Numeral(v.build)))
  }

  lemma {:induction false} LeadingZero(s: string)
    requires IsDigits(s)
    ensures IsDigits("0" + s) && ValueOf("0" + s) == ValueOf(s)
  {
    if s == "" {
      assert "0" + s == "0" && "0"[..0] == "";
    } else {
      LeadingZero(s[..|s| - 1]);
      assert ("0" + s)[..|s|] == "0" + s[..|s| - 1];
    }
  }

  lemma PaddedNumbersParse(v: Version)
    requires v.Valid()
    ensures ParseNumbers(v.stage, PaddedNumbers(v)) == Some(v)
  {
    var a, b, c := Numeral(v.major), Numeral(v.minor), "0" + Numeral(v.build);
    NumeralDenotes(v.major);
    NumeralDenotes(v.minor);
    NumeralDenotes(v.build);
    LeadingZero(Numeral(v.build));
    ParseThreeNumbers(v.stage, a, b, c);
    assert PaddedNumbers(v) == a + ['.'] + (b + ['-'] + c);
  }

  /** Another spelling of a version, with a zero before the build number. */
  function Padded(v: Version): string {
    [Letter(v.stage), '.'] + PaddedNumbers(v)
  }

  lemma PaddedIsTag(v: Version)
    ensures TagChars(Padded(v))
  {
    NumeralDenotes(v.major);
    NumeralDenotes(v.minor);
    NumeralDenotes(v.build);
  }

  /** Every version has a tag that parses to it and is not the one the manager writes. */
  lemma EveryVersionHasAnotherSpelling(v: Version)
    requires v.Valid()
    ensures Parse(Padded(v)) == Some(v) && !Canonical(Padded(v)) && Padded(v) != Format(v)
  {
    PaddedNumbersParse(v);
    PaddedIsTag(v);
    PlainTag(Padded(v), PaddedNumbers(v), v);
    assert |Padded(v)| == |Format(v)| + 1;
  }
}
