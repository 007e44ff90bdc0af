/** Which names a number of passes finds, said of the statements alone: a name is found by the
    chains of statements that derive it, and what counts is how often a chain turns back. */
module Chains {
  import opened Fixpoint

  /** Every rule needs one known name at most: what a statement adds, it adds unasked or because of a
      single name. */
  ghost predicate Additive<Node(!new)>(r: Rules<Node>) {
    && (forall node, known, x {:trigger Adds(r.listings, node, known, x)} ::
          x in r.listings(node, known) <==> Adds(r.listings, node, known, x))
    && (forall node, known, x {:trigger Adds(r.rows, node, known, x)} ::
          x in r.rows(node, known) <==> Adds(r.rows, node, known, x))
  }

  ghost predicate Adds<Node(!new)>(f: (Node, set<string>) -> set<string>, node: Node, known: set<string>, x: string) {
    x in f(node, {}) || exists y :: y in known && x in f(node, {y})
  }

  lemma AdditiveIsMonotone<Node(!new)>(r: Rules<Node>)
    requires Additive(r)
    ensures Monotone(r)
  {
    forall node, a: set<string>, b: set<string> | a <= b
      ensures r.listings(node, a) <= r.listings(node, b) && r.rows(node, a) <= r.rows(node, b)
    {
      forall x | x in r.listings(node, a) ensures x in r.listings(node, b) {
        assert Adds(r.listings, node, a, x);
        assert Adds(r.listings, node, b, x);
      }
      forall x | x in r.rows(node, a) ensures x in r.rows(node, b) {
        assert Adds(r.rows, node, a, x);
        assert Adds(r.rows, node, b, x);
      }
    }
  }

  // ----- chains -----

  /** The statement at this place yields this name. */
  datatype Hop = Hop(at: nat, name: string)

  function Last(c: seq<Hop>): Hop
    requires c != []
  {
    c[|c| - 1]
  }

  /** What the last hop goes by: the name before it, if any. */
  function Before(c: seq<Hop>): set<string>
    requires c != []
  {
    if |c| == 1 then {} else {c[|c| - 2].name}
  }

  /** Each statement of the chain makes its name a listing, the first unasked, the others because of
      the name before. */
  predicate Chain<Node>(r: Rules<Node>, nodes: seq<Node>, c: seq<Hop>) {
    c == [] ||
    (Chain(r, nodes, c[..|c| - 1]) && Last(c).at < |nodes|
     && Last(c).name in r.listings(nodes[Last(c).at], Before(c)))
  }

  /** The same, but the last statement makes its name a row. */
  predicate RowChain<Node>(r: Rules<Node>, nodes: seq<Node>, c: seq<Hop>) {
    c != [] && Chain(r, nodes, c[..|c| - 1]) && Last(c).at < |nodes|
    && Last(c).name in r.rows(nodes[Last(c).at], Before(c))
  }

  /** How often the next statement of a chain stands no later than the one before it. */
  function Descents(c: seq<Hop>): nat {
    if |c| <= 1 then 0
    else Descents(c[..|c| - 1]) + if Last(c).at <= c[|c| - 2].at then 1 else 0
  }

  predicate Leads<Node>(r: Rules<Node>, nodes: seq<Node>, c: seq<Hop>, x: string) {
    c != [] && Chain(r, nodes, c) && Last(c).name == x
  }

  predicate LeadsToRow<Node>(r: Rules<Node>, nodes: seq<Node>, c: seq<Hop>, x: string) {
    RowChain(r, nodes, c) && Last(c).name == x
  }

  /** Some chain leads to the name and turns back fewer than so many times. */
  ghost predicate Near<Node(!new)>(r: Rules<Node>, nodes: seq<Node>, x: string, turns: nat) {
    exists c :: Leads(r, nodes, c, x) && Descents(c) < turns
  }

  ghost predicate NearRow<Node(!new)>(r: Rules<Node>, nodes: seq<Node>, x: string, turns: nat) {
    exists c :: LeadsToRow(r, nodes, c, x) && Descents(c) < turns
  }

  lemma OneHopMore(c: seq<Hop>, h: Hop)
    ensures Last(c + [h]) == h && (c + [h])[..|c|] == c
    ensures c == [] ==> Before(c + [h]) == {} && Descents(c + [h]) == 0
    ensures c != [] ==> Before(c + [h]) == {Last(c).name}
    ensures c != [] ==> Descents(c + [h]) == Descents(c) + if h.at <= Last(c).at then 1 else 0
  {
  }

  lemma ChainMore<Node(!new)>(r: Rules<Node>, nodes: seq<Node>, c: seq<Hop>, h: Hop)
    requires Chain(r, nodes, c) && h.at < |nodes|
    requires h.name in r.listings(nodes[h.at], if c == [] then {} else {Last(c).name})
    ensures Leads(r, nodes, c + [h], h.name)
  {
    OneHopMore(c, h);
  }

  // ----- a chain is followed -----

  lemma {:induction false} PrefixGrows<Node(!new)>(r: Rules<Node>, nodes: seq<Node>, n: Names, i: nat, j: nat)
    requires i <= j <= |nodes|
    ensures Within(Pass(r, nodes[..i], n), Pass(r, nodes[..j], n))
  {
    if i < j {
      PrefixGrows(r, nodes, n, i, j - 1);
      PassUpTo(r, nodes, n, j - 1);
    }
  }

  /** The names known when the statement at a place is visited, in the pass after so many. */
  function Known<Node>(r: Rules<Node>, nodes: seq<Node>, passes: nat, at: nat): set<string>
    requires at <= |nodes|
  {
    Pass(r, nodes[..at], Passes(r, nodes, passes)).collections
  }

  lemma KnownFirst<Node(!new)>(r: Rules<Node>, nodes: seq<Node>, passes: nat)
    ensures Known(r, nodes, passes, 0) == Passes(r, nodes, passes).collections
  {
    assert nodes[..0] == [];
  }

  lemma KnownLast<Node(!new)>(r: Rules<Node>, nodes: seq<Node>, passes: nat)
    ensures Known(r, nodes, passes, |nodes|) == Passes(r, nodes, passes + 1).collections
  {
    assert nodes[..|nodes|] == nodes;
  }

  lemma KnownNext<Node(!new)>(r: Rules<Node>, nodes: seq<Node>, passes: nat, at: nat)
    requires at < |nodes|
    ensures Known(r, nodes, passes, at + 1)
         == Known(r, nodes, passes, at) + r.listings(nodes[at], Known(r, nodes, passes, at))
  {
    PassUpTo(r, nodes, Passes(r, nodes, passes), at);
  }

  lemma KnownGrows<Node(!new)>(r: Rules<Node>, nodes: seq<Node>, passes: nat, i: nat, j: nat)
    requires i <= j <= |nodes|
    ensures Known(r, nodes, passes, i) <= Known(r, nodes, passes, j)
  {
    PrefixGrows(r, nodes, Passes(r, nodes, passes), i, j);
  }

  /** The name at the end of a chain is known as soon as the passes have turned back as often as the
      chain, and have come to its last statement. */
  lemma {:induction false} ChainIsFollowed<Node(!new)>(r: Rules<Node>, nodes: seq<Node>, c: seq<Hop>)
    requires Monotone(r) && c != [] && Chain(r, nodes, c)
    ensures Last(c).name in Known(r, nodes, Descents(c), Last(c).at + 1)
    decreases |c|, 1
  {
    BeforeIsKnown(r, nodes, c);
    MoreListings(r, nodes[Last(c).at], Before(c), Known(r, nodes, Descents(c), Last(c).at));
    KnownNext(r, nodes, Descents(c), Last(c).at);
  }

  /** What the last hop goes by is known when its statement is visited. */
  lemma {:induction false} BeforeIsKnown<Node(!new)>(r: Rules<Node>, nodes: seq<Node>, c: seq<Hop>)
    requires Monotone(r) && c != [] && Chain(r, nodes, c[..|c| - 1]) && Last(c).at < |nodes|
    ensures Before(c) <= Known(r, nodes, Descents(c), Last(c).at)
    decreases |c|, 0
  {
    if |c| > 1 {
      var front, i := c[..|c| - 1], Last(c).at;
      ChainIsFollowed(r, nodes, front);
      assert Last(front) == c[|c| - 2];
      if i <= Last(front).at {
        KnownGrows(r, nodes, Descents(front), Last(front).at + 1, |nodes|);
        KnownLast(r, nodes, Descents(front));
        KnownFirst(r, nodes, Descents(c));
        KnownGrows(r, nodes, Descents(c), 0, i);
      } else {
        KnownGrows(r, nodes, Descents(c), Last(front).at + 1, i);
      }
    }
  }

  // ----- what is known has a chain -----

  /** The chain got there in time: in an earlier pass, or in this one at an earlier statement. */
  predicate InTime(c: seq<Hop>, passes: nat, at: nat)
    requires c != []
  {
    Descents(c) < passes || (Descents(c) == passes && Last(c).at < at)
  }

  lemma {:induction false} KnownHasChain<Node(!new)>(r: Rules<Node>, nodes: seq<Node>, passes: nat, at: nat, x: string)
    returns (c: seq<Hop>)
    requires Additive(r) && at <= |nodes| && x in Known(r, nodes, passes, at)
    ensures Leads(r, nodes, c, x) && InTime(c, passes, at)
    decreases passes, at
  {
    if at == 0 {
      KnownFirst(r, nodes, passes);
      KnownLast(r, nodes, passes - 1);
      c := KnownHasChain(r, nodes, passes - 1, |nodes|, x);
    } else {
      KnownNext(r, nodes, passes, at - 1);
      if x in Known(r, nodes, passes, at - 1) {
        c := KnownHasChain(r, nodes, passes, at - 1, x);
      } else {
        var known := Known(r, nodes, passes, at - 1);
        assert Adds(r.listings, nodes[at - 1], known, x);
        var before := [];
        if x !in r.listings(nodes[at - 1], {}) {
          var y :| y in known && x in r.listings(nodes[at - 1], {y});
          before := KnownHasChain(r, nodes, passes, at - 1, y);
        }
        OneHopMore(before, Hop(at - 1, x));
        ChainMore(r, nodes, before, Hop(at - 1, x));
        c := before + [Hop(at - 1, x)];
      }
    }
  }

  /** A row comes of the names known when its statement was visited. */
  lemma {:induction false} RowIsAdded<Node(!new)>(r: Rules<Node>, nodes: seq<Node>, passes: nat, at: nat, x: string)
    returns (when: nat, i: nat)
    requires at <= |nodes| && x in Pass(r, nodes[..at], Passes(r, nodes, passes)).rows
    ensures when <= passes && i < |nodes| && (when == passes ==> i < at)
    ensures x in r.rows(nodes[i], Known(r, nodes, when, i))
    decreases passes, at
  {
    if at == 0 {
      assert nodes[..0] == [] && nodes[..|nodes|] == nodes;
      when, i := RowIsAdded(r, nodes, passes - 1, |nodes|, x);
    } else {
      PassUpTo(r, nodes, Passes(r, nodes, passes), at - 1);
      if x in Pass(r, nodes[..at - 1], Passes(r, nodes, passes)).rows {
        when, i := RowIsAdded(r, nodes, passes, at - 1, x);
      } else {
        when, i := passes, at - 1;
      }
    }
  }

  lemma RowHasChain<Node(!new)>(r: Rules<Node>, nodes: seq<Node>, passes: nat, x: string) returns (c: seq<Hop>)
    requires Additive(r) && x in Passes(r, nodes, passes).rows
    ensures LeadsToRow(r, nodes, c, x) && Descents(c) < passes
  {
    assert nodes[..|nodes|] == nodes;
    var when, i := RowIsAdded(r, nodes, passes - 1, |nodes|, x);
    var known := Known(r, nodes, when, i);
    assert Adds(r.rows, nodes[i], known, x);
    var before := [];
    if x !in r.rows(nodes[i], {}) {
      var y :| y in known && x in r.rows(nodes[i], {y});
      before := KnownHasChain(r, nodes, when, i, y);
    }
    OneHopMore(before, Hop(i, x));
    c := before + [Hop(i, x)];
  }

  lemma RowIsFollowed<Node(!new)>(r: Rules<Node>, nodes: seq<Node>, c: seq<Hop>)
    requires Monotone(r) && RowChain(r, nodes, c)
    ensures Last(c).name in Passes(r, nodes, Descents(c) + 1).rows
  {
    var n, i := Passes(r, nodes, Descents(c)), Last(c).at;
    BeforeIsKnown(r, nodes, c);
    MoreListings(r, nodes[i], Before(c), Known(r, nodes, Descents(c), i));
    PassUpTo(r, nodes, n, i);
    PrefixGrows(r, nodes, n, i + 1, |nodes|);
    assert nodes[..|nodes|] == nodes;
  }

  // ----- exactly what is found -----

  lemma NearIsFound<Node(!new)>(r: Rules<Node>, nodes: seq<Node>, passes: nat, c: seq<Hop>)
    requires Monotone(r) && c != [] && Chain(r, nodes, c) && Descents(c) < passes
    ensures Last(c).name in Passes(r, nodes, passes).collections
  {
    var turns, i := Descents(c), Last(c).at;
    ChainIsFollowed(r, nodes, c);
    KnownGrows(r, nodes, turns, i + 1, |nodes|);
    KnownLast(r, nodes, turns);
    PassesGrow(r, nodes, turns + 1, passes);
  }

  lemma NearRowIsFound<Node(!new)>(r: Rules<Node>, nodes: seq<Node>, passes: nat, c: seq<Hop>)
    requires Monotone(r) && RowChain(r, nodes, c) && Descents(c) < passes
    ensures Last(c).name in Passes(r, nodes, passes).rows
  {
    RowIsFollowed(r, nodes, c);
    PassesGrow(r, nodes, Descents(c) + 1, passes);
  }

  /** A name is found in so many passes exactly when some chain of statements that leads to it turns
      back fewer times. */
  lemma FoundExactly<Node(!new)>(r: Rules<Node>, nodes: seq<Node>, passes: nat, x: string)
    requires Additive(r)
    ensures x in Passes(r, nodes, passes).collections <==> Near(r, nodes, x, passes)
  {
    AdditiveIsMonotone(r);
    KnownFirst(r, nodes, passes);
    if x in Passes(r, nodes, passes).collections {
      var c := KnownHasChain(r, nodes, passes, 0, x);
    }
    if Near(r, nodes, x, passes) {
      var c :| Leads(r, nodes, c, x) && Descents(c) < passes;
      NearIsFound(r, nodes, passes, c);
    }
  }

  lemma RowFoundExactly<Node(!new)>(r: Rules<Node>, nodes: seq<Node>, passes: nat, x: string)
    requires Additive(r)
    ensures x in Passes(r, nodes, passes).rows <==> NearRow(r, nodes, x, passes)
  {
    AdditiveIsMonotone(r);
    if x in Passes(r, nodes, passes).rows {
      var c := RowHasChain(r, nodes, passes, x);
    }
    if NearRow(r, nodes, x, passes) {
      var c :| LeadsToRow(r, nodes, c, x) && Descents(c) < passes;
      NearRowIsFound(r, nodes, passes, c);
    }
  }

  /** No name is only to be had by turning back so often. */
  ghost predicate AllNear<Node(!new)>(r: Rules<Node>, nodes: seq<Node>, turns: nat) {
    && (forall c :: c != [] && Chain(r, nodes, c) ==> Near(r, nodes, Last(c).name, turns))
    && (forall c :: RowChain(r, nodes, c) ==> NearRow(r, nodes, Last(c).name, turns))
  }

  lemma NearIsSettled<Node(!new)>(r: Rules<Node>, nodes: seq<Node>, passes: nat)
    requires Additive(r) && AllNear(r, nodes, passes)
    ensures Passes(r, nodes, passes + 1) == Passes(r, nodes, passes)
  {
    PassesGrow(r, nodes, passes, passes + 1);
    forall x | x in Passes(r, nodes, passes + 1).collections ensures x in Passes(r, nodes, passes).collections {
      FoundExactly(r, nodes, passes + 1, x);
      FoundExactly(r, nodes, passes, x);
    }
    forall x | x in Passes(r, nodes, passes + 1).rows ensures x in Passes(r, nodes, passes).rows {
      RowFoundExactly(r, nodes, passes + 1, x);
      RowFoundExactly(r, nodes, passes, x);
    }
  }

  lemma SettledIsEverything<Node(!new)>(r: Rules<Node>, nodes: seq<Node>, passes: nat, later: nat)
    requires Passes(r, nodes, passes + 1) == Passes(r, nodes, passes)
    ensures Within(Passes(r, nodes, later), Passes(r, nodes, passes))
  {
    if later <= passes { PassesGrow(r, nodes, later, passes); } else { SettledStays(r, nodes, passes, later); }
  }

  lemma SettledIsNear<Node(!new)>(r: Rules<Node>, nodes: seq<Node>, passes: nat)
    requires Additive(r) && Passes(r, nodes, passes + 1) == Passes(r, nodes, passes)
    ensures AllNear(r, nodes, passes)
  {
    forall c | c != [] && Chain(r, nodes, c) ensures Near(r, nodes, Last(c).name, passes) {
      var x, later := Last(c).name, Descents(c) + 1;
      assert Leads(r, nodes, c, x);
      FoundExactly(r, nodes, later, x);
      SettledIsEverything(r, nodes, passes, later);
      FoundExactly(r, nodes, passes, x);
    }
    forall c | RowChain(r, nodes, c) ensures NearRow(r, nodes, Last(c).name, passes) {
      var x, later := Last(c).name, Descents(c) + 1;
      assert LeadsToRow(r, nodes, c, x);
      RowFoundExactly(r, nodes, later, x);
      SettledIsEverything(r, nodes, passes, later);
      RowFoundExactly(r, nodes, passes, x);
    }
  }

  /** So many passes reach the least fixpoint exactly when every name that any chain leads to has a
      chain that turns back fewer times. */
  lemma EnoughPasses<Node(!new)>(r: Rules<Node>, nodes: seq<Node>, passes: nat)
    requires Additive(r)
    ensures LeastFixpoint(r, nodes, Passes(r, nodes, passes)) <==> AllNear(r, nodes, passes)
  {
    AdditiveIsMonotone(r);
    SettledIsLeastFixpoint(r, nodes, passes);
    if AllNear(r, nodes, passes) { NearIsSettled(r, nodes, passes); }
    if Passes(r, nodes, passes + 1) == Passes(r, nodes, passes) { SettledIsNear(r, nodes, passes); }
  }

  // ----- hops and turns -----

  lemma {:induction false} FewerTurnsThanHops(c: seq<Hop>)
    requires c != []
    ensures Descents(c) < |c|
  {
    if |c| > 1 { FewerTurnsThanHops(c[..|c| - 1]); }
  }

  /** Derivable in so many hops: by a chain of at most so many. */
  lemma {:induction false} DerivableByChain<Node(!new)>(r: Rules<Node>, nodes: seq<Node>, hops: nat, x: string)
    requires Additive(r)
    ensures x in Derivable(r, nodes, hops) <==> exists c :: Leads(r, nodes, c, x) && |c| <= hops
  {
    if x in Derivable(r, nodes, hops) {
      var c := DerivationAsChain(r, nodes, hops, x);
    }
    if c :| Leads(r, nodes, c, x) && |c| <= hops {
      AdditiveIsMonotone(r);
      ChainIsDerivation(r, nodes, c);
      DerivableGrows(r, nodes, |c|, hops);
    }
  }

  lemma Cause<Node(!new)>(r: Rules<Node>, nodes: seq<Node>, known: set<string>, x: string)
    returns (i: nat, due: seq<string>)
    requires Additive(r) && x in AllListings(r, nodes, known)
    ensures i < |nodes| && |due| <= 1
    ensures due == [] ==> x in r.listings(nodes[i], {})
    ensures due != [] ==> due[0] in known && x in r.listings(nodes[i], {due[0]})
  {
    i := SomeListings(r, nodes, known, x);
    assert Adds(r.listings, nodes[i], known, x);
    due := [];
    if x !in r.listings(nodes[i], {}) {
      var y :| y in known && x in r.listings(nodes[i], {y});
      due := [y];
    }
  }

  lemma LastRound<Node(!new)>(r: Rules<Node>, nodes: seq<Node>, hops: nat, x: string)
    requires x in Derivable(r, nodes, hops)
    ensures hops > 0
    ensures x in Derivable(r, nodes, hops - 1) || x in AllListings(r, nodes, Derivable(r, nodes, hops - 1))
  {
  }

  lemma {:induction false} DerivationAsChain<Node(!new)>(r: Rules<Node>, nodes: seq<Node>, hops: nat, x: string)
    returns (c: seq<Hop>)
    requires Additive(r) && x in Derivable(r, nodes, hops)
    ensures Leads(r, nodes, c, x) && |c| <= hops
  {
    LastRound(r, nodes, hops, x);
    var known := Derivable(r, nodes, hops - 1);
    if x in known {
      c := DerivationAsChain(r, nodes, hops - 1, x);
    } else {
      var i, due := Cause(r, nodes, known, x);
      var before := [];
      if due != [] {
        before := DerivationAsChain(r, nodes, hops - 1, due[0]);
      }
      ChainMore(r, nodes, before, Hop(i, x));
      c := before + [Hop(i, x)];
    }
  }

  lemma {:induction false} ChainIsDerivation<Node(!new)>(r: Rules<Node>, nodes: seq<Node>, c: seq<Hop>)
    requires Monotone(r) && c != [] && Chain(r, nodes, c)
    ensures Last(c).name in Derivable(r, nodes, |c|)
  {
    var front, known := c[..|c| - 1], Derivable(r, nodes, |c| - 1);
    if |c| > 1 {
      ChainIsDerivation(r, nodes, front);
      assert Last(front) == c[|c| - 2];
    }
    MoreListings(r, nodes[Last(c).at], Before(c), known);
    AllOfNode(r, nodes, Last(c).at, known);
  }
}
