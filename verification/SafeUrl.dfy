/** The URL check of the HTML export: control characters out, then the scheme. */
module SafeUrl {
  import opened Prelude

  predicate Contains(s: string, part: string) {
    StartsWith(s, part) || (s != "" && Contains(s[1..], part))
  }

  /** C0 controls, the space and DEL: what browsers ignore inside a URL. */
  predicate IsJunk(c: char) {
    c <= ' ' || c == '\U{7f}'
  }

  function Cleaned(s: string): string {
    if s == "" then "" else (if IsJunk(s[0]) then "" else [s[0]]) + Cleaned(s[1..])
  }

  predicate Dangerous(lowered: string) {
    StartsWith(lowered, "javascript:") || StartsWith(lowered, "vbscript:")
    || StartsWith(lowered, "data:") || StartsWith(lowered, "file:")
  }

  predicate Welcome(lowered: string) {
    StartsWith(lowered, "http:") || StartsWith(lowered, "https:") || StartsWith(lowered, "mailto:")
  }

  function Checked(value: string): Option<string> {
    var candidate := Cleaned(value);
    var lowered := Lower(candidate);
    if Dangerous(lowered) then None
    else if !Contains(candidate, "://") && !StartsWith(lowered, "mailto:") && !StartsWith(candidate, "#") then
      Some(candidate)
    else if Welcome(lowered) then Some(candidate)
    else None
  }

  lemma {:induction false} CleanedIsClean(s: string)
    ensures forall i :: 0 <= i < |Cleaned(s)| ==> !IsJunk(Cleaned(s)[i])
  {
    if s != "" { CleanedIsClean(s[1..]); }
  }

  lemma {:induction false} CleanedOfClean(s: string)
    requires forall i :: 0 <= i < |s| ==> !IsJunk(s[i])
    ensures Cleaned(s) == s
  {
    if s != "" {
      CleanedOfClean(s[1..]);
      assert [s[0]] + s[1..] == s;
    }
  }

  lemma {:induction false} CleanedApart(a: string, b: string)
    ensures Cleaned(a + b) == Cleaned(a) + Cleaned(b)
  {
    if a == "" {
      assert a + b == b;
    } else {
      assert (a + b)[1..] == a[1..] + b;
      CleanedApart(a[1..], b);
    }
  }

  /** Every character is looked at by itself: C0 controls, spaces and DEL go, the others stay in order. */
  lemma CleanedCharByChar(s: string, c: char)
    ensures Cleaned(s + [c]) == Cleaned(s) + if c as int <= 0x20 || c as int == 0x7f then "" else [c]
    ensures Cleaned("") == ""
  {
    CleanedApart(s, [c]);
    assert [c][1..] == "";
  }

  lemma ContainsMore(s: string, part: string, a: string, b: string)
    requires s != "" && s[1..] == a + part + b
    ensures s == ([s[0]] + a) + part + b
  {
    assert s == [s[0]] + s[1..];
  }

  lemma {:induction false} ContainsParts(s: string, part: string) returns (a: string, b: string)
    requires Contains(s, part)
    ensures s == a + part + b
  {
    if StartsWith(s, part) {
      a, b := "", s[|part|..];
    } else {
      a, b := ContainsParts(s[1..], part);
      ContainsMore(s, part, a, b);
      a := [s[0]] + a;
    }
  }

  lemma {:induction false} ContainsPart(a: string, part: string, b: string)
    ensures Contains(a + part + b, part)
  {
    var s := a + part + b;
    if a == "" {
      assert s[..|part|] == part;
    } else {
      assert s[1..] == a[1..] + part + b;
      ContainsPart(a[1..], part, b);
    }
  }

  lemma ContainsMeans(s: string, part: string)
    ensures Contains(s, part) <==> exists a, b :: s == a + part + b
  {
    if Contains(s, part) {
      var a, b := ContainsParts(s, part);
    }
    if a, b :| s == a + part + b { ContainsPart(a, part, b); }
  }

  lemma PrefixMeans(s: string, prefix: string)
    ensures StartsWith(s, prefix) <==> prefix <= s
  {
  }

  lemma HashIsNoScheme(u: string)
    requires StartsWith(u, "#")
    ensures !Welcome(Lower(u))
  {
    LowerMeans(u);
    assert u[0] == "#"[0] && Lower(u)[0] == '#';
    StartsApart(Lower(u), "http:", 0);
    StartsApart(Lower(u), "https:", 0);
    StartsApart(Lower(u), "mailto:", 0);
  }

  /** Exactly which URLs are accepted, and as what: as they are without controls, spaces and DEL; unless
      they begin, in whatever case, with one of four schemes; and if they begin with one of three
      others, or are relative, that is, without "://" and no bare fragment. */
  lemma AcceptedExactly(value: string)
    ensures var u := Cleaned(value);
      var l := Lower(u);
      && Checked(value) in {None, Some(u)}
      && (Checked(value).Some? <==>
            && !("javascript:" <= l) && !("vbscript:" <= l) && !("data:" <= l) && !("file:" <= l)
            && ("http:" <= l || "https:" <= l || "mailto:" <= l
                || (!(exists a, b :: u == a + "://" + b) && !("#" <= u))))
  {
    var u := Cleaned(value);
    var l := Lower(u);
    ContainsMeans(u, "://");
    PrefixMeans(l, "javascript:");
    PrefixMeans(l, "vbscript:");
    PrefixMeans(l, "data:");
    PrefixMeans(l, "file:");
    PrefixMeans(l, "http:");
    PrefixMeans(l, "https:");
    PrefixMeans(l, "mailto:");
    PrefixMeans(u, "#");
    if StartsWith(u, "#") { HashIsNoScheme(u); }
  }

  /** What an accepted URL is: free of junk, of a harmless scheme, and accepted again unchanged. */
  lemma AcceptedIsSafe(value: string)
    requires Checked(value).Some?
    ensures var url := Checked(value).value;
      && (forall i :: 0 <= i < |url| ==> !IsJunk(url[i]))
      && !Dangerous(Lower(url))
      && (Contains(url, "://") ==> Welcome(Lower(url)))
      && Checked(url) == Some(url)
  {
    CleanedIsClean(value);
    CleanedOfClean(Cleaned(value));
  }

  /** Junk hidden anywhere in a URL changes nothing: a scheme cannot be smuggled past the check. */
  lemma JunkChangesNothing(a: string, junk: string, b: string)
    requires forall i :: 0 <= i < |junk| ==> IsJunk(junk[i])
    ensures Checked(a + junk + b) == Checked(a + b)
  {
    CleanedApart(a + junk, b);
    CleanedApart(a, junk);
    CleanedApart(a, b);
    CleanedOfJunk(junk);
    assert Cleaned(a + junk + b) == Cleaned(a + b);
  }

  lemma {:induction false} CleanedOfJunk(s: string)
    requires forall i :: 0 <= i < |s| ==> IsJunk(s[i])
    ensures Cleaned(s) == ""
  {
    if s != "" { CleanedOfJunk(s[1..]); }
  }

  /** Without "://" the check accepts everything but the four schemes and bare fragments. */
  lemma RelativeIsAccepted(value: string)
    requires !Contains(Cleaned(value), "://")
    ensures Checked(value).Some? <==> !Dangerous(Lower(Cleaned(value))) && !StartsWith(Cleaned(value), "#")
  {
    var lowered := Lower(Cleaned(value));
    if StartsWith(Cleaned(value), "#") {
      assert Cleaned(value)[0] == "#"[0] && lowered[0] == '#';
      StartsApart(lowered, "http:", 0);
      StartsApart(lowered, "https:", 0);
      StartsApart(lowered, "mailto:", 0);
    }
  }
}
