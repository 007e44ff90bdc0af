/** The order in which Python sorts strings, and sorting a set of them. */
module StringOrder {
  import opened Prelude

  predicate Less(s: string, t: string) {
    t != "" && (s == "" || s[0] < t[0] || (s[0] == t[0] && Less(s[1..], t[1..])))
  }

  predicate AtMost(s: string, t: string) {
    s == t || Less(s, t)
  }

  lemma {:induction false} LessIrreflexive(s: string)
    ensures !Less(s, s)
  {
    if s != "" {
      LessIrreflexive(s[1..]);
    }
  }

  lemma {:induction false} LessTotal(s: string, t: string)
    ensures Less(s, t) || s == t || Less(t, s)
  {
    if s != "" && t != "" && s[0] == t[0] {
      LessTotal(s[1..], t[1..]);
      assert s == [s[0]] + s[1..] && t == [t[0]] + t[1..];
    }
  }

  lemma {:induction false} LessTransitive(s: string, t: string, u: string)
    requires Less(s, t) && Less(t, u)
    ensures Less(s, u)
  {
    if s != "" && s[0] == t[0] == u[0] {
      LessTransitive(s[1..], t[1..], u[1..]);
    }
  }

  /** A common beginning does not matter. */
  lemma {:induction false} LessAfterPrefix(p: string, s: string, t: string)
    ensures Less(p + s, p + t) <==> Less(s, t)
  {
    if p == "" {
      assert p + s == s && p + t == t;
    } else {
      assert (p + s)[1..] == p[1..] + s && (p + t)[1..] == p[1..] + t;
      LessAfterPrefix(p[1..], s, t);
    }
  }

  /** Strings of one length compare by their beginnings first. */
  lemma {:induction false} LessAppend(s: string, t: string, c: char, d: char)
    requires |s| == |t|
    ensures Less(s + [c], t + [d]) <==> Less(s, t) || (s == t && c < d)
  {
    if s == "" {
      assert s + [c] == [c] && t + [d] == [d];
    } else {
      assert (s + [c])[1..] == s[1..] + [c] && (t + [d])[1..] == t[1..] + [d];
      assert s == [s[0]] + s[1..] && t == [t[0]] + t[1..];
      LessAppend(s[1..], t[1..], c, d);
    }
  }

  /** A longer string against a shorter one: only the beginning counts, and on a tie the
      shorter comes first. */
  lemma {:induction false} LessLonger(s: string, t: string, more: string)
    requires |s| == |t| && more != ""
    ensures Less(s, t + more) <==> AtMost(s, t)
    ensures Less(t + more, s) <==> Less(t, s)
  {
    if s == "" {
      assert t + more == more;
    } else {
      assert (t + more)[1..] == t[1..] + more;
      assert s == [s[0]] + s[1..] && t == [t[0]] + t[1..];
      LessLonger(s[1..], t[1..], more);
    }
  }

  // ----- sorting -----

  ghost predicate IsLeast(s: set<string>, x: string) {
    x in s && forall y :: y in s ==> AtMost(x, y)
  }

  lemma {:induction false} LeastExists(s: set<string>)
    requires s != {}
    ensures exists x :: IsLeast(s, x)
    decreases s
  {
    var x :| x in s;
    if s == {x} {
      assert IsLeast(s, x);
    } else {
      LeastExists(s - {x});
      var y :| IsLeast(s - {x}, y);
      LessTotal(x, y);
      if Less(y, x) {
        assert IsLeast(s, y);
      } else {
        forall z | z in s
          ensures AtMost(x, z)
        {
          if z != x {
            assert z in s - {x} && AtMost(y, z);
            if Less(y, z) {
              LessTransitive(x, y, z);
            }
          }
        }
        assert IsLeast(s, x);
      }
    }
  }

  ghost function Least(s: set<string>): (x: string)
    requires s != {}
    ensures IsLeast(s, x)
  {
    LeastExists(s);
    var x :| IsLeast(s, x);
    x
  }

  /** The elements of a set in ascending order. */
  ghost function Sorted(s: set<string>): seq<string> {
    if s == {} then [] else [Least(s)] + Sorted(s - {Least(s)})
  }

  ghost predicate Ascending(q: seq<string>) {
    forall i, j :: 0 <= i < j < |q| ==> Less(q[i], q[j])
  }

  function Elements(q: seq<string>): set<string> {
    set x | x in q
  }

  lemma AscendingCons(x: string, q: seq<string>)
    requires Ascending(q) && forall y :: y in q ==> Less(x, y)
    ensures Ascending([x] + q)
  {
  }

  lemma ElementsCons(x: string, q: seq<string>)
    ensures Elements([x] + q) == {x} + Elements(q)
  {
  }

  lemma {:induction false} SortedIsSorted(s: set<string>)
    ensures Ascending(Sorted(s)) && Elements(Sorted(s)) == s
  {
    if s != {} {
      var x, q := Least(s), Sorted(s - {Least(s)});
      SortedIsSorted(s - {x});
      forall y | y in q
        ensures Less(x, y)
      {
        assert y in Elements(q);
      }
      AscendingCons(x, q);
      ElementsCons(x, q);
    }
  }

  lemma LeastIsUnique(s: set<string>, x: string)
    requires IsLeast(s, x)
    ensures x == Least(s)
  {
    var y := Least(s);
    if x != y {
      LessTransitive(x, y, x);
      LessIrreflexive(x);
    }
  }

  method FindLeast(s: set<string>) returns (x: string)
    requires s != {}
    ensures x == Least(s)
  {
    x :| x in s;
    var rest := s - {x};
    while rest != {}
      invariant rest <= s && IsLeast(s - rest, x)
      decreases rest
    {
      var y :| y in rest;
      LessTotal(x, y);
      if Less(y, x) {
        forall z | z in s - rest
          ensures AtMost(y, z)
        {
          if z != x {
            LessTransitive(y, x, z);
          }
        }
        x := y;
      }
      rest := rest - {y};
    }
    assert s - rest == s;
    LeastIsUnique(s, x);
  }

  method Sort(s: set<string>) returns (q: seq<string>)
    ensures q == Sorted(s)
  {
    q := [];
    var rest := s;
    while rest != {}
      invariant q + Sorted(rest) == Sorted(s)
      decreases rest
    {
      var x := FindLeast(rest);
      q, rest := q + [x], rest - {x};
    }
  }
}
