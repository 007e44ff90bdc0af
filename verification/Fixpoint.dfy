/** Passes over a list of statements that grow two sets of names by monotone rules: what any number
    of passes finds, against derivations counted in hops and against the least closed sets. */
module Fixpoint {
  /** What a statement adds to the listings and to the rows, given the listings so far. */
  datatype Rules<!Node> = Rules(
    listings: (Node, set<string>) -> set<string>,
    rows: (Node, set<string>) -> set<string>
  )

  ghost predicate Monotone<Node(!new)>(r: Rules<Node>) {
    forall node, a, b :: a <= b ==>
      r.listings(node, a) <= r.listings(node, b) && r.rows(node, a) <= r.rows(node, b)
  }

  // ----- passes -----

  datatype Names = Names(collections: set<string>, rows: set<string>)

  function Visit<Node>(r: Rules<Node>, node: Node, n: Names): Names {
    Names(n.collections + r.listings(node, n.collections), n.rows + r.rows(node, n.collections))
  }

  function Pass<Node>(r: Rules<Node>, nodes: seq<Node>, n: Names): Names {
    if nodes == [] then n else Visit(r, nodes[|nodes| - 1], Pass(r, nodes[..|nodes| - 1], n))
  }

  function Passes<Node>(r: Rules<Node>, nodes: seq<Node>, count: nat): Names {
    if count == 0 then Names({}, {}) else Pass(r, nodes, Passes(r, nodes, count - 1))
  }

  ghost predicate Within(a: Names, b: Names) {
    a.collections <= b.collections && a.rows <= b.rows
  }

  lemma VisitGrows<Node(!new)>(r: Rules<Node>, node: Node, n: Names)
    ensures Within(n, Visit(r, node, n))
  {
  }

  lemma {:induction false} PassGrows<Node(!new)>(r: Rules<Node>, nodes: seq<Node>, n: Names)
    ensures Within(n, Pass(r, nodes, n))
  {
    if nodes != [] { PassGrows(r, nodes[..|nodes| - 1], n); }
  }

  /** The names only grow from pass to pass. */
  lemma {:induction false} PassesGrow<Node(!new)>(r: Rules<Node>, nodes: seq<Node>, few: nat, many: nat)
    requires few <= many
    ensures Within(Passes(r, nodes, few), Passes(r, nodes, many))
  {
    if few < many {
      PassesGrow(r, nodes, few, many - 1);
      PassGrows(r, nodes, Passes(r, nodes, many - 1));
    }
  }

  lemma {:induction false} SettledStays<Node(!new)>(r: Rules<Node>, nodes: seq<Node>, count: nat, later: nat)
    requires count <= later && Pass(r, nodes, Passes(r, nodes, count)) == Passes(r, nodes, count)
    ensures Passes(r, nodes, later) == Passes(r, nodes, count)
  {
    if count < later { SettledStays(r, nodes, count, later - 1); }
  }

  // ----- derivations: an order-free definition -----

  /** What some statement makes a listing, given that these names are. */
  function AllListings<Node>(r: Rules<Node>, nodes: seq<Node>, collections: set<string>): set<string> {
    if nodes == [] then {}
    else AllListings(r, nodes[..|nodes| - 1], collections) + r.listings(nodes[|nodes| - 1], collections)
  }

  function AllRows<Node>(r: Rules<Node>, nodes: seq<Node>, collections: set<string>): set<string> {
    if nodes == [] then {}
    else AllRows(r, nodes[..|nodes| - 1], collections) + r.rows(nodes[|nodes| - 1], collections)
  }

  /** Listings derivable in at most so many hops, whatever the order of the statements. */
  function Derivable<Node>(r: Rules<Node>, nodes: seq<Node>, hops: nat): set<string> {
    if hops == 0 then {}
    else Derivable(r, nodes, hops - 1) + AllListings(r, nodes, Derivable(r, nodes, hops - 1))
  }

  function DerivableRows<Node>(r: Rules<Node>, nodes: seq<Node>, hops: nat): set<string> {
    if hops == 0 then {} else AllRows(r, nodes, Derivable(r, nodes, hops - 1))
  }

  lemma MoreListings<Node(!new)>(r: Rules<Node>, node: Node, a: set<string>, b: set<string>)
    requires Monotone(r) && a <= b
    ensures r.listings(node, a) <= r.listings(node, b) && r.rows(node, a) <= r.rows(node, b)
  {
  }

  lemma {:induction false} MoreAll<Node(!new)>(r: Rules<Node>, nodes: seq<Node>, a: set<string>, b: set<string>)
    requires Monotone(r)
    requires a <= b
    ensures AllListings(r, nodes, a) <= AllListings(r, nodes, b) && AllRows(r, nodes, a) <= AllRows(r, nodes, b)
  {
    if nodes != [] {
      MoreAll(r, nodes[..|nodes| - 1], a, b);
      MoreListings(r, nodes[|nodes| - 1], a, b);
    }
  }

  lemma {:induction false} AllOfNode<Node(!new)>(r: Rules<Node>, nodes: seq<Node>, i: nat, collections: set<string>)
    requires i < |nodes|
    ensures r.listings(nodes[i], collections) <= AllListings(r, nodes, collections)
    ensures r.rows(nodes[i], collections) <= AllRows(r, nodes, collections)
  {
    if i < |nodes| - 1 { AllOfNode(r, nodes[..|nodes| - 1], i, collections); }
  }

  /** One pass finds everything one hop away, and more if the order helps. */
  lemma {:induction false} PassReaches<Node(!new)>(r: Rules<Node>, nodes: seq<Node>, n: Names)
    requires Monotone(r)
    ensures AllListings(r, nodes, n.collections) <= Pass(r, nodes, n).collections
    ensures AllRows(r, nodes, n.collections) <= Pass(r, nodes, n).rows
  {
    if nodes != [] {
      var before := Pass(r, nodes[..|nodes| - 1], n);
      PassReaches(r, nodes[..|nodes| - 1], n);
      PassGrows(r, nodes[..|nodes| - 1], n);
      MoreListings(r, nodes[|nodes| - 1], n.collections, before.collections);
    }
  }

  /** Everything derivable in so many hops is found in as many passes, whatever the order. */
  lemma {:induction false} ShortDerivationsAreFound<Node(!new)>(r: Rules<Node>, nodes: seq<Node>, hops: nat)
    requires Monotone(r)
    ensures Derivable(r, nodes, hops) <= Passes(r, nodes, hops).collections
    ensures DerivableRows(r, nodes, hops) <= Passes(r, nodes, hops).rows
  {
    if hops > 0 {
      var d, c := Derivable(r, nodes, hops - 1), Passes(r, nodes, hops - 1);
      ShortDerivationsAreFound(r, nodes, hops - 1);
      PassReaches(r, nodes, c);
      PassGrows(r, nodes, c);
      MoreAll(r, nodes, d, c.collections);
    }
  }

  lemma {:induction false} DerivableGrows<Node(!new)>(r: Rules<Node>, nodes: seq<Node>, few: nat, many: nat)
    requires few <= many
    ensures Derivable(r, nodes, few) <= Derivable(r, nodes, many)
  {
    if few < many { DerivableGrows(r, nodes, few, many - 1); }
  }

  lemma {:induction false} DerivableRowsGrow<Node(!new)>(r: Rules<Node>, nodes: seq<Node>, few: nat, many: nat)
    requires Monotone(r)
    requires few <= many
    ensures DerivableRows(r, nodes, few) <= DerivableRows(r, nodes, many)
  {
    if 0 < few {
      DerivableGrows(r, nodes, few - 1, many - 1);
      MoreAll(r, nodes, Derivable(r, nodes, few - 1), Derivable(r, nodes, many - 1));
    }
  }

  ghost predicate Derived<Node(!new)>(r: Rules<Node>, nodes: seq<Node>, n: Names, hops: nat) {
    n.collections <= Derivable(r, nodes, hops) && n.rows <= DerivableRows(r, nodes, hops)
  }

  lemma VisitIsDerived<Node(!new)>(r: Rules<Node>, nodes: seq<Node>, i: nat, n: Names, hops: nat)
    requires Monotone(r)
    requires i < |nodes| && Derived(r, nodes, n, hops)
    ensures Derived(r, nodes, Visit(r, nodes[i], n), hops + 1)
  {
    var d := Derivable(r, nodes, hops);
    MoreListings(r, nodes[i], n.collections, d);
    AllOfNode(r, nodes, i, d);
    DerivableRowsGrow(r, nodes, hops, hops + 1);
  }

  lemma {:induction false} PassIsDerived<Node(!new)>(r: Rules<Node>, nodes: seq<Node>, front: seq<Node>, n: Names,
                                                         hops: nat)
    requires Monotone(r)
    requires front <= nodes && Derived(r, nodes, n, hops)
    ensures Derived(r, nodes, Pass(r, front, n), hops + |front|)
  {
    if front != [] {
      var i := |front| - 1;
      PassIsDerived(r, nodes, front[..i], n, hops);
      assert front[i] == nodes[i];
      VisitIsDerived(r, nodes, i, Pass(r, front[..i], n), hops + i);
    }
  }

  lemma PassUpTo<Node(!new)>(r: Rules<Node>, nodes: seq<Node>, n: Names, i: nat)
    requires i < |nodes|
    ensures Pass(r, nodes[..i + 1], n) == Visit(r, nodes[i], Pass(r, nodes[..i], n))
  {
    assert nodes[..i + 1][..i] == nodes[..i];
  }

  /** Every name found has a derivation. */
  lemma {:induction false} EveryNameIsDerived<Node(!new)>(r: Rules<Node>, nodes: seq<Node>, count: nat)
    requires Monotone(r)
    ensures Derived(r, nodes, Passes(r, nodes, count), count * |nodes|)
  {
    if count > 0 {
      EveryNameIsDerived(r, nodes, count - 1);
      PassIsDerived(r, nodes, nodes, Passes(r, nodes, count - 1), (count - 1) * |nodes|);
      assert (count - 1) * |nodes| + |nodes| == count * |nodes|;
    }
  }

  // ----- the least fixpoint -----

  /** Closed under every rule. */
  ghost predicate Closed<Node(!new)>(r: Rules<Node>, nodes: seq<Node>, n: Names) {
    AllListings(r, nodes, n.collections) <= n.collections && AllRows(r, nodes, n.collections) <= n.rows
  }

  lemma {:induction false} DerivableInClosed<Node(!new)>(r: Rules<Node>, nodes: seq<Node>, n: Names, hops: nat)
    requires Monotone(r)
    requires Closed(r, nodes, n)
    ensures Derivable(r, nodes, hops) <= n.collections && DerivableRows(r, nodes, hops) <= n.rows
  {
    if hops > 0 {
      DerivableInClosed(r, nodes, n, hops - 1);
      MoreAll(r, nodes, Derivable(r, nodes, hops - 1), n.collections);
    }
  }

  ghost predicate LeastFixpoint<Node(!new)>(r: Rules<Node>, nodes: seq<Node>, n: Names) {
    Closed(r, nodes, n) && forall m: Names :: Closed(r, nodes, m) ==> Within(n, m)
  }

  lemma PassesAreLeast<Node(!new)>(r: Rules<Node>, nodes: seq<Node>, count: nat, m: Names)
    requires Monotone(r)
    requires Closed(r, nodes, m)
    ensures Within(Passes(r, nodes, count), m)
  {
    EveryNameIsDerived(r, nodes, count);
    DerivableInClosed(r, nodes, m, count * |nodes|);
  }

  lemma SettledIsClosed<Node(!new)>(r: Rules<Node>, nodes: seq<Node>, n: Names)
    requires Monotone(r)
    requires Pass(r, nodes, n) == n
    ensures Closed(r, nodes, n)
  {
    PassReaches(r, nodes, n);
  }

  /** The result is the least fixpoint exactly when one more pass would change nothing. */
  lemma SettledIsLeastFixpoint<Node(!new)>(r: Rules<Node>, nodes: seq<Node>, count: nat)
    requires Monotone(r)
    ensures LeastFixpoint(r, nodes, Passes(r, nodes, count)) <==>
      Passes(r, nodes, count + 1) == Passes(r, nodes, count)
  {
    var n := Passes(r, nodes, count);
    forall m | Closed(r, nodes, m) ensures Within(n, m) {
      PassesAreLeast(r, nodes, count, m);
    }
    if Passes(r, nodes, count + 1) == n {
      SettledIsClosed(r, nodes, n);
    }
    if Closed(r, nodes, n) {
      PassesAreLeast(r, nodes, count + 1, n);
      PassGrows(r, nodes, n);
    }
  }

  /** A pass that changes nothing leaves the least fixpoint. */
  lemma BreakingEarlyIsExact<Node(!new)>(r: Rules<Node>, nodes: seq<Node>, count: nat, most: nat)
    requires Monotone(r)
    requires count <= most && Passes(r, nodes, count + 1) == Passes(r, nodes, count)
    ensures LeastFixpoint(r, nodes, Passes(r, nodes, most))
  {
    SettledStays(r, nodes, count, most);
    SettledIsLeastFixpoint(r, nodes, most);
  }

  lemma {:induction false} SomeListings<Node(!new)>(r: Rules<Node>, nodes: seq<Node>, names: set<string>, x: string)
    returns (i: nat)
    requires x in AllListings(r, nodes, names)
    ensures i < |nodes| && x in r.listings(nodes[i], names)
  {
    i := |nodes| - 1;
    if x !in r.listings(nodes[i], names) { i := SomeListings(r, nodes[..i], names, x); }
  }

  lemma {:induction false} SomeRows<Node(!new)>(r: Rules<Node>, nodes: seq<Node>, names: set<string>, x: string)
    returns (i: nat)
    requires x in AllRows(r, nodes, names)
    ensures i < |nodes| && x in r.rows(nodes[i], names)
  {
    i := |nodes| - 1;
    if x !in r.rows(nodes[i], names) { i := SomeRows(r, nodes[..i], names, x); }
  }

  /** The same statements in another order, both settled: the same names. */
  lemma OrderDoesNotMatter<Node(!new)>(r: Rules<Node>, a: seq<Node>, b: seq<Node>, most: nat)
    requires Monotone(r)
    requires forall node :: node in a <==> node in b
    requires Passes(r, a, most + 1) == Passes(r, a, most)
    requires Passes(r, b, most + 1) == Passes(r, b, most)
    ensures Passes(r, a, most) == Passes(r, b, most)
  {
    SettledIsLeastFixpoint(r, a, most);
    SettledIsLeastFixpoint(r, b, most);
    ClosedAlike(r, a, b, Passes(r, b, most));
    ClosedAlike(r, b, a, Passes(r, a, most));
  }

  lemma ClosedAlike<Node(!new)>(r: Rules<Node>, a: seq<Node>, b: seq<Node>, n: Names)
    requires (forall node :: node in a ==> node in b) && Closed(r, b, n)
    ensures Closed(r, a, n)
  {
    forall x | x in AllListings(r, a, n.collections) ensures x in n.collections {
      var i := SomeListings(r, a, n.collections, x);
      assert a[i] in b;
      var j :| 0 <= j < |b| && b[j] == a[i];
      AllOfNode(r, b, j, n.collections);
    }
    forall x | x in AllRows(r, a, n.collections) ensures x in n.rows {
      var i := SomeRows(r, a, n.collections, x);
      assert a[i] in b;
      var j :| 0 <= j < |b| && b[j] == a[i];
      AllOfNode(r, b, j, n.collections);
    }
  }
}
