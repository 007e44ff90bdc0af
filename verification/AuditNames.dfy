/** The dataflow of the fail-open audit: which names of a function hold a fetched listing, and
    which a row of one. A few passes over the statements in walk order, against derivations. */
module AuditNames {
  import opened Prelude
  import opened Fixpoint
  import opened Chains

  datatype Expr =
    | Name(id: string, load: bool)
    | Await(value: Expr)
    | Call(func: Expr, args: seq<Expr>)
    | Attribute(value: Expr, attr: string)
    | Subscript(value: Expr, index: Expr)
    | Comprehension(parts: seq<Expr>)
    | Display(parts: seq<Expr>)
    | Other(parts: seq<Expr>)

  /** The nodes of a function that bind names, in walk order. A loop lists the calls in its body. */
  datatype Node =
    | Assign(targets: seq<string>, value: Expr)
    | Loop(target: Expr, iter: Expr, calls: seq<Expr>)

  const READERS: set<string> :=
    {"fetch_all", "fetchall", "fetch_many", "query_all", "query_many", "select", "select_all", "search"}

  const READER_PREFIXES: set<string> := {"list_", "get_all", "get_many", "find_all", "load_all"}

  const FLAGS: set<string> := {"any", "all", "len", "bool", "sum", "count"}

  const GROWERS: set<string> := {"append", "add", "update", "extend"}

  // ----- reading expressions -----

  /** Names read anywhere inside. */
  function Reads(e: Expr): set<string> {
    match e
    case Name(id, load) => if load then {id} else {}
    case Await(value) => Reads(value)
    case Call(func, args) => Reads(func) + ReadsOfAll(args)
    case Attribute(value, _) => Reads(value)
    case Subscript(value, index) => Reads(value) + Reads(index)
    case Comprehension(parts) => ReadsOfAll(parts)
    case Display(parts) => ReadsOfAll(parts)
    case Other(parts) => ReadsOfAll(parts)
  }

  function ReadsOfAll(es: seq<Expr>): set<string> {
    if es == [] then {} else Reads(es[0]) + ReadsOfAll(es[1..])
  }

  function Unwrapped(e: Expr): Expr {
    if e.Await? then Unwrapped(e.value) else e
  }

  function CallName(e: Expr): string {
    var call := Unwrapped(e);
    if !call.Call? then ""
    else if call.func.Attribute? then call.func.attr
    else if call.func.Name? then call.func.id
    else ""
  }

  predicate IsReader(e: Expr) {
    var name := CallName(e);
    name != "" && (name in READERS || HasReaderPrefix(name))
  }

  predicate HasReaderPrefix(name: string) {
    exists prefix :: prefix in READER_PREFIXES && StartsWith(name, prefix)
  }

  predicate Touches(e: Expr, names: set<string>) {
    Reads(e) * names != {}
  }

  // ----- what one node binds -----

  /** The value is a listing, given which names already are. */
  predicate IsListing(value: Expr, collections: set<string>) {
    if IsReader(value) || (value.Comprehension? && Touches(value, collections)) then true
    else if CallName(value) in FLAGS then Touches(value, collections)
    else Touches(value, collections) && (value.Comprehension? || value.Display?)
  }

  predicate IsRow(value: Expr, collections: set<string>) {
    if value.Subscript? then Touches(value.value, collections)
    else CallName(value) == "next" && Touches(value, collections)
  }

  function SetOf(names: seq<string>): set<string> {
    set i | 0 <= i < |names| :: names[i]
  }

  function Accumulator(call: Expr): seq<string> {
    if call.Call? && call.func.Attribute? && call.func.attr in GROWERS && call.func.value.Name?
    then [call.func.value.id] else []
  }

  function Accumulators(calls: seq<Expr>): seq<string> {
    if calls == [] then []
    else Accumulators(calls[..|calls| - 1]) + Accumulator(calls[|calls| - 1])
  }

  function Listings(node: Node, collections: set<string>): set<string> {
    match node
    case Assign(targets, value) =>
      if IsListing(Unwrapped(value), collections) then SetOf(targets) else {}
    case Loop(_, iter, calls) =>
      if Touches(iter, collections) then SetOf(Accumulators(calls)) else {}
  }

  function Rows(node: Node, collections: set<string>): set<string> {
    match node
    case Assign(targets, value) =>
      if IsRow(Unwrapped(value), collections) then SetOf(targets) else {}
    case Loop(target, iter, _) =>
      if Touches(iter, collections) && target.Name? then {target.id} else {}
  }

  // ----- the same rules, said of the text of a statement -----

  /** What stands directly inside an expression. */
  function Parts(e: Expr): seq<Expr> {
    match e
    case Name(_, _) => []
    case Await(value) => [value]
    case Call(func, args) => [func] + args
    case Attribute(value, _) => [value]
    case Subscript(value, index) => [value, index]
    case Comprehension(parts) => parts
    case Display(parts) => parts
    case Other(parts) => parts
  }

  /** From an expression down to something inside it, one level at a time. */
  ghost predicate WayDown(way: seq<Expr>, e: Expr, inner: Expr) {
    && way != [] && way[0] == e && way[|way| - 1] == inner
    && forall i :: 0 < i < |way| ==> way[i] in Parts(way[i - 1])
  }

  lemma {:induction false} ReadByOneOf(es: seq<Expr>, x: string)
    ensures x in ReadsOfAll(es) <==> exists e :: e in es && x in Reads(e)
  {
    if es != [] {
      ReadByOneOf(es[1..], x);
      assert es[0] in es && forall e :: e in es[1..] ==> e in es;
    }
  }

  lemma ReadByAPart(e: Expr, x: string)
    ensures x in Reads(e) <==> e == Name(x, true) || exists part :: part in Parts(e) && x in Reads(part)
  {
    match e {
      case Name(_, _) =>
      case Await(value) => assert value in Parts(e);
      case Attribute(value, _) => assert value in Parts(e);
      case Subscript(value, index) => assert value in Parts(e) && index in Parts(e);
      case Call(func, args) =>
        ReadByOneOf(args, x);
        assert Parts(e) == [func] + args;
        assert func in [func] && forall part :: part in Parts(e) <==> part in [func] || part in args;
      case Comprehension(parts) => ReadByOneOf(parts, x);
      case Display(parts) => ReadByOneOf(parts, x);
      case Other(parts) => ReadByOneOf(parts, x);
    }
  }

  lemma {:induction false} WayToName(e: Expr, x: string) returns (way: seq<Expr>)
    requires x in Reads(e)
    ensures WayDown(way, e, Name(x, true))
    decreases e
  {
    ReadByAPart(e, x);
    if e == Name(x, true) {
      way := [e];
    } else {
      var part :| part in Parts(e) && x in Reads(part);
      way := WayToName(part, x);
      way := [e] + way;
    }
  }

  lemma {:induction false} NameOnTheWay(way: seq<Expr>, e: Expr, x: string)
    requires WayDown(way, e, Name(x, true))
    ensures x in Reads(e)
    decreases |way|
  {
    ReadByAPart(e, x);
    if |way| > 1 {
      assert way[1] in Parts(way[0]);
      assert forall i :: 0 < i < |way[1..]| ==> way[1..][i] == way[i + 1] && way[i + 1] in Parts(way[i]);
      NameOnTheWay(way[1..], way[1], x);
    }
  }

  /** The names an expression reads: exactly those that are loaded somewhere inside it. */
  lemma ReadsExactly(e: Expr, x: string)
    ensures x in Reads(e) <==> exists way :: WayDown(way, e, Name(x, true))
  {
    if x in Reads(e) { var way := WayToName(e, x); }
    if way :| WayDown(way, e, Name(x, true)) { NameOnTheWay(way, e, x); }
  }

  /** A call of a function or of a method of that name. */
  predicate Calls(e: Expr, name: string) {
    e.Call? && ((e.func.Name? && e.func.id == name) || (e.func.Attribute? && e.func.attr == name))
  }

  lemma CallNameMeans(v: Expr, name: string)
    requires !v.Await? && name != ""
    ensures CallName(v) == name <==> Calls(v, name)
  {
  }

  predicate FetchesByName(name: string) {
    || name == "fetch_all" || name == "fetchall" || name == "fetch_many" || name == "query_all"
    || name == "query_many" || name == "select" || name == "select_all" || name == "search"
  }

  predicate FetchesByPrefix(name: string) {
    "list_" <= name || "get_all" <= name || "get_many" <= name || "find_all" <= name || "load_all" <= name
  }

  lemma FetchesMeans(v: Expr)
    requires !v.Await?
    ensures IsReader(v) <==> exists name :: Calls(v, name) && (FetchesByName(name) || FetchesByPrefix(name))
  {
    var name := CallName(v);
    PrefixesMean(name);
    if n :| Calls(v, n) && (FetchesByName(n) || FetchesByPrefix(n)) { CallNameMeans(v, n); }
    if IsReader(v) { CallNameMeans(v, name); }
  }

  lemma PrefixesMean(name: string)
    ensures HasReaderPrefix(name) <==> FetchesByPrefix(name)
  {
    if FetchesByPrefix(name) {
      var prefix :| prefix in READER_PREFIXES && prefix <= name;
      assert StartsWith(name, prefix);
    }
    if prefix :| prefix in READER_PREFIXES && StartsWith(name, prefix) { assert prefix <= name; }
  }

  /** The names a node knows to hold a listing and an expression reads. */
  ghost predicate ReadsKnown(e: Expr, known: set<string>) {
    exists y :: y in known && y in Reads(e)
  }

  lemma TouchesMeans(e: Expr, known: set<string>)
    ensures Touches(e, known) <==> ReadsKnown(e, known)
  {
    if Touches(e, known) { var y :| y in Reads(e) * known; }
    if y :| y in known && y in Reads(e) { assert y in Reads(e) * known; }
  }

  predicate Folds(name: string) {
    name == "any" || name == "all" || name == "len" || name == "bool" || name == "sum" || name == "count"
  }

  lemma InTargets(targets: seq<string>, x: string)
    ensures x in SetOf(targets) <==> x in targets
  {
    if x in targets { var i :| 0 <= i < |targets| && targets[i] == x; }
  }

  /** The targets of an assignment hold a listing exactly when the value is fetched, or reads a listing
      and is a comprehension, a display or a fold of it. */
  lemma AssignedListings(targets: seq<string>, v: Expr, known: set<string>, x: string)
    requires !v.Await?
    ensures x in Listings(Assign(targets, v), known) <==>
      && x in targets
      && (|| (exists name :: Calls(v, name) && (FetchesByName(name) || FetchesByPrefix(name)))
          || (ReadsKnown(v, known)
              && (v.Comprehension? || v.Display? || exists name :: Calls(v, name) && Folds(name))))
  {
    InTargets(targets, x);
    FetchesMeans(v);
    TouchesMeans(v, known);
    if n :| Calls(v, n) && Folds(n) { CallNameMeans(v, n); }
    if CallName(v) in FLAGS { CallNameMeans(v, CallName(v)); assert Folds(CallName(v)); }
  }

  /** And a row of one exactly when it is an element of what reads a listing, or the next of it. */
  lemma AssignedRows(targets: seq<string>, v: Expr, known: set<string>, x: string)
    requires !v.Await?
    ensures x in Rows(Assign(targets, v), known) <==>
      x in targets
      && ((v.Subscript? && ReadsKnown(v.value, known)) || (Calls(v, "next") && ReadsKnown(v, known)))
  {
    InTargets(targets, x);
    TouchesMeans(v, known);
    if v.Subscript? { TouchesMeans(v.value, known); }
    CallNameMeans(v, "next");
  }

  /** Awaiting a value changes nothing. */
  lemma AwaitedAlike(targets: seq<string>, v: Expr, known: set<string>)
    ensures Listings(Assign(targets, Await(v)), known) == Listings(Assign(targets, v), known)
    ensures Rows(Assign(targets, Await(v)), known) == Rows(Assign(targets, v), known)
  {
  }

  /** A call that makes the name a longer list: out.append(..) and its like. */
  ghost predicate Grown(call: Expr, x: string) {
    exists args, grower, load :: call == Call(Attribute(Name(x, load), grower), args)
      && (grower == "append" || grower == "add" || grower == "update" || grower == "extend")
  }

  lemma AccumulatorMeans(call: Expr, x: string)
    ensures x in Accumulator(call) <==> Grown(call, x)
  {
    if x in Accumulator(call) {
      assert call == Call(Attribute(Name(x, call.func.value.load), call.func.attr), call.args);
    }
  }

  lemma {:induction false} AccumulatorsMean(calls: seq<Expr>, x: string)
    ensures x in Accumulators(calls) <==> exists call :: call in calls && Grown(call, x)
  {
    if calls != [] {
      var front, last := calls[..|calls| - 1], calls[|calls| - 1];
      AccumulatorsMean(front, x);
      AccumulatorMeans(last, x);
      assert calls == front + [last];
    }
  }

  /** A loop over what reads a listing: its target is a row, and what its calls append to is a listing;
      a loop over anything else binds nothing. */
  lemma LoopBinds(target: Expr, iter: Expr, calls: seq<Expr>, known: set<string>, x: string)
    ensures x in Listings(Loop(target, iter, calls), known) <==>
      ReadsKnown(iter, known) && exists call :: call in calls && Grown(call, x)
    ensures x in Rows(Loop(target, iter, calls), known) <==>
      ReadsKnown(iter, known) && target.Name? && target.id == x
  {
    TouchesMeans(iter, known);
    InTargets(Accumulators(calls), x);
    AccumulatorsMean(calls, x);
  }

  // ----- the passes -----

  const BINDING: Rules<Node> := Rules(Listings, Rows)

  const MAX_PASSES := 5

  method Grow(names: set<string>, more: seq<string>) returns (grown: set<string>, changed: bool)
    ensures grown == names + SetOf(more)
    ensures changed <==> grown != names
  {
    grown, changed := names, false;
    for i := 0 to |more|
      invariant grown == names + SetOf(more[..i])
      invariant changed <==> grown != names
    {
      SetOfMore(more[..i], more[i]);
      assert more[..i + 1] == more[..i] + [more[i]];
      if more[i] !in grown {
        grown := grown + {more[i]};
        changed := true;
      }
    }
    assert more[..|more|] == more;
  }

  lemma SetOfMore(names: seq<string>, name: string)
    ensures SetOf(names + [name]) == SetOf(names) + {name}
  {
    var all := names + [name];
    assert all[|names|] == name;
    forall x | x in SetOf(names) ensures x in SetOf(all) {
      var i :| 0 <= i < |names| && names[i] == x;
      assert all[i] == x;
    }
  }

  lemma {:induction false} UnwrappedIsBare(e: Expr)
    ensures !Unwrapped(e).Await?
  {
    if e.Await? { UnwrappedIsBare(e.value); }
  }

  lemma NextIsNoReader(value: Expr)
    requires CallName(value) == "next"
    ensures !IsReader(value) && CallName(value) !in FLAGS
  {
    var name := CallName(value);
    assert name[0] == 'n';
    forall prefix | prefix in READER_PREFIXES ensures !StartsWith(name, prefix) {
      StartsApart(name, prefix, 0);
    }
  }

  /** A value is never both: its rows may be looked up before or after its listings. */
  lemma ListingIsNoRow(value: Expr, collections: set<string>, more: set<string>)
    requires IsListing(value, collections) && !value.Await?
    ensures !IsRow(value, more)
  {
    if CallName(value) == "next" { NextIsNoReader(value); }
  }

  method VisitAssign(targets: seq<string>, value0: Expr, n: Names) returns (r: Names, changed: bool)
    ensures r == Visit(BINDING, Assign(targets, value0), n)
    ensures changed <==> r != n
  {
    r, changed := n, false;
    var value := Unwrapped(value0);
    UnwrappedIsBare(value0);
    if targets != [] {
      var grown := false;
      var collections, rows := n.collections, n.rows;
      if IsListing(value, collections) {
        ListingIsNoRow(value, n.collections, n.collections);
        collections, changed := Grow(collections, targets);
        ListingIsNoRow(value, n.collections, collections);
      }
      if IsRow(value, collections) {
        rows, grown := Grow(rows, targets);
      }
      r := Names(collections, rows);
      changed := changed || grown;
    }
  }

  method VisitLoop(target: Expr, iter: Expr, calls: seq<Expr>, n: Names) returns (r: Names, changed: bool)
    ensures r == Visit(BINDING, Loop(target, iter, calls), n)
    ensures changed <==> r != n
  {
    r, changed := n, false;
    if Touches(iter, n.collections) {
      var collections, rows := n.collections, n.rows;
      if target.Name? && target.id !in rows {
        rows := rows + {target.id};
        changed := true;
      }
      var grown;
      var accumulators := [];
      for i := 0 to |calls|
        invariant accumulators == Accumulators(calls[..i])
      {
        assert calls[..i + 1][..i] == calls[..i];
        accumulators := accumulators + Accumulator(calls[i]);
      }
      assert calls[..|calls|] == calls;
      collections, grown := Grow(collections, accumulators);
      r := Names(collections, rows);
      changed := changed || grown;
    }
  }

  /** One node, as the source works through it. */
  method VisitNode(node: Node, n: Names) returns (r: Names, changed: bool)
    ensures r == Visit(BINDING, node, n)
    ensures changed <==> r != n
  {
    match node {
      case Assign(targets, value) => r, changed := VisitAssign(targets, value, n);
      case Loop(target, iter, calls) => r, changed := VisitLoop(target, iter, calls, n);
    }
  }

  method OnePass(nodes: seq<Node>, n: Names) returns (r: Names, changed: bool)
    ensures r == Pass(BINDING, nodes, n)
    ensures changed <==> r != n
  {
    r, changed := n, false;
    for i := 0 to |nodes|
      invariant r == Pass(BINDING, nodes[..i], n)
      invariant changed <==> r != n
    {
      PassUpTo(BINDING, nodes, n, i);
      PassGrows(BINDING, nodes[..i], n);
      VisitGrows(BINDING, nodes[i], r);
      var more: bool;
      r, more := VisitNode(nodes[i], r);
      changed := changed || more;
    }
    assert nodes[..|nodes|] == nodes;
  }

  /** At most so many passes, fewer when one changes nothing: the names all of them would find. */
  method Settle(nodes: seq<Node>, most: nat) returns (r: Names)
    ensures r == Passes(BINDING, nodes, most)
  {
    r := Names({}, {});
    for count := 0 to most
      invariant r == Passes(BINDING, nodes, count)
    {
      var changed: bool;
      r, changed := OnePass(nodes, r);
      if !changed {
        SettledStays(BINDING, nodes, count, most);
        return;
      }
    }
  }

  method CollectionAndRowNames(nodes: seq<Node>) returns (r: Names)
    ensures r == Passes(BINDING, nodes, 5)
  {
    r := Settle(nodes, MAX_PASSES);
  }

  lemma MoreTouches(e: Expr, a: set<string>, b: set<string>)
    requires a <= b && Touches(e, a)
    ensures Touches(e, b)
  {
    var x :| x in Reads(e) * a;
    assert x in Reads(e) * b;
  }

  lemma ListingsGrow(node: Node, a: set<string>, b: set<string>)
    requires a <= b
    ensures Listings(node, a) <= Listings(node, b) && Rows(node, a) <= Rows(node, b)
  {
    match node {
      case Assign(targets, value) =>
        var v := Unwrapped(value);
        if Touches(v, a) { MoreTouches(v, a, b); }
        if v.Subscript? && Touches(v.value, a) { MoreTouches(v.value, a, b); }
      case Loop(target, iter, calls) =>
        if Touches(iter, a) { MoreTouches(iter, a, b); }
    }
  }

  lemma BindingIsMonotone()
    ensures Monotone(BINDING)
  {
    forall node, a, b | a <= b
      ensures BINDING.listings(node, a) <= BINDING.listings(node, b) && BINDING.rows(node, a) <= BINDING.rows(node, b)
    {
      ListingsGrow(node, a, b);
    }
  }

  lemma TouchesByOne(e: Expr, names: set<string>)
    ensures Touches(e, names) <==> exists y :: y in names && Touches(e, {y})
    ensures !Touches(e, {})
  {
    if Touches(e, names) {
      var y :| y in Reads(e) * names;
      assert y in Reads(e) * {y};
    }
    if y :| y in names && Touches(e, {y}) { MoreTouches(e, {y}, names); }
  }

  lemma ListingByOne(value: Expr, names: set<string>)
    ensures IsListing(value, names) <==> IsListing(value, {}) || exists y :: y in names && IsListing(value, {y})
  {
    TouchesByOne(value, names);
    if y :| y in names && Touches(value, {y}) { assert IsListing(value, {y}) || !IsListing(value, names); }
    if y :| y in names && IsListing(value, {y}) { assert IsListing(value, {}) || Touches(value, {y}); }
  }

  lemma RowByOne(value: Expr, names: set<string>)
    ensures IsRow(value, names) <==> exists y :: y in names && IsRow(value, {y})
    ensures !IsRow(value, {})
  {
    TouchesByOne(value, names);
    if value.Subscript? { TouchesByOne(value.value, names); }
    if y :| y in names && IsRow(value, {y}) {
      assert Touches(if value.Subscript? then value.value else value, {y});
    }
    if IsRow(value, names) {
      var y :| y in names && Touches(if value.Subscript? then value.value else value, {y});
      assert IsRow(value, {y});
    }
  }

  lemma ListingsByOne(node: Node, names: set<string>, x: string)
    ensures x in Listings(node, names) <==>
      x in Listings(node, {}) || exists y :: y in names && x in Listings(node, {y})
  {
    match node {
      case Assign(targets, value) =>
        var v := Unwrapped(value);
        ListingByOne(v, names);
        if y :| y in names && IsListing(v, {y}) { assert Listings(node, {y}) == SetOf(targets); }
      case Loop(_, iter, calls) =>
        TouchesByOne(iter, names);
        if y :| y in names && Touches(iter, {y}) { assert Listings(node, {y}) == SetOf(Accumulators(calls)); }
    }
  }

  lemma RowsByOne(node: Node, names: set<string>, x: string)
    ensures x in Rows(node, names) <==> x in Rows(node, {}) || exists y :: y in names && x in Rows(node, {y})
  {
    match node {
      case Assign(targets, value) =>
        var v := Unwrapped(value);
        RowByOne(v, names);
        if y :| y in names && IsRow(v, {y}) { assert Rows(node, {y}) == SetOf(targets); }
      case Loop(_, iter, _) =>
        TouchesByOne(iter, names);
        if y :| y in names && Touches(iter, {y}) { assert Rows(node, {y}) == Rows(node, names); }
    }
  }

  /** Every rule of the audit fires unasked or because of one name that is read. */
  lemma BindingIsAdditive()
    ensures Additive(BINDING)
  {
    forall node, known, x
      ensures x in BINDING.listings(node, known) <==> Adds(BINDING.listings, node, known, x)
      ensures x in BINDING.rows(node, known) <==> Adds(BINDING.rows, node, known, x)
    {
      ListingsByOne(node, known, x);
      RowsByOne(node, known, x);
    }
  }

  lemma FoundBy(nodes: seq<Node>, passes: nat)
    ensures var found := Passes(BINDING, nodes, passes);
      && (forall x :: x in found.collections <==> Near(BINDING, nodes, x, passes))
      && (forall x :: x in found.rows <==> NearRow(BINDING, nodes, x, passes))
      && (LeastFixpoint(BINDING, nodes, found) <==> AllNear(BINDING, nodes, passes))
  {
    BindingIsAdditive();
    forall x ensures x in Passes(BINDING, nodes, passes).collections <==> Near(BINDING, nodes, x, passes) {
      FoundExactly(BINDING, nodes, passes, x);
    }
    forall x ensures x in Passes(BINDING, nodes, passes).rows <==> NearRow(BINDING, nodes, x, passes) {
      RowFoundExactly(BINDING, nodes, passes, x);
    }
    EnoughPasses(BINDING, nodes, passes);
  }

  /** What the audit finds: exactly the names, listings and rows, that a chain of statements leads to
      in which fewer than five stand no later than the statement before; and all there are to find
      exactly when no name needs a chain that turns back more often. */
  lemma WhatIsFound(nodes: seq<Node>)
    ensures var found := Passes(BINDING, nodes, 5);
      && (forall x :: x in found.collections <==> Near(BINDING, nodes, x, 5))
      && (forall x :: x in found.rows <==> NearRow(BINDING, nodes, x, 5))
      && (LeastFixpoint(BINDING, nodes, found) <==> AllNear(BINDING, nodes, 5))
  {
    FoundBy(nodes, MAX_PASSES);
  }

  lemma ShortIsNear(nodes: seq<Node>, hops: nat, x: string)
    requires x in Derivable(BINDING, nodes, hops)
    ensures Near(BINDING, nodes, x, hops) && x in Passes(BINDING, nodes, hops).collections
  {
    BindingIsAdditive();
    DerivableByChain(BINDING, nodes, hops, x);
    var c :| Leads(BINDING, nodes, c, x) && |c| <= hops;
    FewerTurnsThanHops(c);
    FoundExactly(BINDING, nodes, hops, x);
  }

  /** So five hops are safe in any order, since a chain turns back fewer times than it has hops; and
      nothing is found that is not derivable. */
  lemma FiveHopsAreFound(nodes: seq<Node>)
    ensures var found := Passes(BINDING, nodes, 5);
      && Derivable(BINDING, nodes, 5) <= found.collections
      && DerivableRows(BINDING, nodes, 5) <= found.rows
      && Derived(BINDING, nodes, found, 5 * |nodes|)
  {
    BindingIsMonotone();
    ShortDerivationsAreFound(BINDING, nodes, MAX_PASSES);
    EveryNameIsDerived(BINDING, nodes, MAX_PASSES);
  }

  // ----- five passes are not always enough -----

  function Var(i: nat): string {
    "a" + Numeral(i)
  }

  lemma VarInjective(i: nat, j: nat)
    requires Var(i) == Var(j)
    ensures i == j
  {
    assert Var(i)[1..] == Numeral(i) && Var(j)[1..] == Numeral(j);
    NumeralInjective(i, j);
  }

  /** The statement that fetches the first name, or rebuilds the next out of the one before. */
  function Link(i: nat): Node {
    if i == 0 then Assign([Var(0)], Call(Name("fetch_all", true), []))
    else Assign([Var(i)], Comprehension([Name(Var(i - 1), true)]))
  }

  /** A chain of n hops written last hop first. */
  function Backwards(n: nat): seq<Node> {
    if n == 0 then [Link(0)] else [Link(n)] + Backwards(n - 1)
  }

  /** The same chain written first hop first. */
  function Forwards(n: nat): seq<Node> {
    if n == 0 then [Link(0)] else Forwards(n - 1) + [Link(n)]
  }

  function Vars(n: nat): set<string> {
    if n == 0 then {} else Vars(n - 1) + {Var(n - 1)}
  }

  lemma {:induction false} VarInVars(i: nat, n: nat)
    ensures Var(i) in Vars(n) <==> i < n
  {
    if n > 0 {
      VarInVars(i, n - 1);
      if Var(i) == Var(n - 1) { VarInjective(i, n - 1); }
    }
  }

  lemma RebuiltReads(x: string, c: set<string>)
    ensures var e := Comprehension([Name(x, true)]);
      CallName(e) == "" && Unwrapped(e) == e && (Touches(e, c) <==> x in c)
  {
    var parts := [Name(x, true)];
    assert ReadsOfAll(parts) == {x} by { assert parts[1..] == []; }
    assert Reads(Comprehension(parts)) * c == {x} * c;
    if x in c { assert x in {x} * c; }
  }

  lemma LinkStep(i: nat, c: set<string>)
    ensures Listings(Link(i), c) == if i == 0 || Var(i - 1) in c then {Var(i)} else {}
    ensures Rows(Link(i), c) == {}
  {
    var node := Link(i);
    assert SetOf([Var(i)]) == {Var(i)} by { assert [Var(i)][0] == Var(i); }
    if i == 0 {
      assert CallName(node.value) == "fetch_all";
    } else {
      RebuiltReads(Var(i - 1), c);
    }
  }

  lemma {:induction false} PassApart(a: seq<Node>, b: seq<Node>, n: Names)
    ensures Pass(BINDING, a + b, n) == Pass(BINDING, b, Pass(BINDING, a, n))
  {
    if b == [] {
      assert a + b == a;
    } else {
      assert (a + b)[..|a + b| - 1] == a + b[..|b| - 1];
      PassApart(a, b[..|b| - 1], n);
    }
  }

  lemma PassOne(node: Node, n: Names)
    ensures Pass(BINDING, [node], n) == Visit(BINDING, node, n)
  {
    assert [node][..0] == [];
  }

  lemma BackwardsFirst(n: nat, m: Names)
    requires n > 0
    ensures Pass(BINDING, Backwards(n), m) == Pass(BINDING, Backwards(n - 1), Visit(BINDING, Link(n), m))
  {
    PassApart([Link(n)], Backwards(n - 1), m);
    PassOne(Link(n), m);
  }

  /** One link finds its name exactly when the name before it is known. */
  lemma LinkVisit(i: nat, known: nat)
    ensures Visit(BINDING, Link(i), Names(Vars(known), {})) ==
      Names(Vars(if i == known then known + 1 else known), {})
  {
    LinkStep(i, Vars(known));
    VarInVars(i, known);
    if i > 0 { VarInVars(i - 1, known); }
  }

  /** Backwards, one pass gains one name. */
  lemma {:induction false} BackwardsPass(n: nat, known: nat)
    ensures Pass(BINDING, Backwards(n), Names(Vars(known), {})) ==
      Names(Vars(if known <= n then known + 1 else known), {})
  {
    LinkVisit(n, known);
    if n == 0 {
      PassOne(Link(0), Names(Vars(known), {}));
    } else {
      BackwardsFirst(n, Names(Vars(known), {}));
      BackwardsPass(n - 1, if n == known then known + 1 else known);
    }
  }

  lemma {:induction false} OneNameAPass(nodes: seq<Node>, count: nat)
    requires forall k: nat :: k < count ==> Pass(BINDING, nodes, Names(Vars(k), {})) == Names(Vars(k + 1), {})
    ensures Passes(BINDING, nodes, count) == Names(Vars(count), {})
  {
    if count > 0 { OneNameAPass(nodes, count - 1); }
  }

  /** Forwards, one pass gains every name. */
  lemma {:induction false} ForwardsPass(n: nat)
    ensures Pass(BINDING, Forwards(n), Names({}, {})) == Names(Vars(n + 1), {})
  {
    if n == 0 {
      PassOne(Link(0), Names({}, {}));
      LinkVisit(0, 0);
    } else {
      ForwardsPass(n - 1);
      PassApart(Forwards(n - 1), [Link(n)], Names({}, {}));
      PassOne(Link(n), Names(Vars(n), {}));
      LinkVisit(n, n);
    }
  }

  lemma {:induction false} LinkIsThere(i: nat, n: nat) returns (at: nat)
    requires i <= n
    ensures at < |Backwards(n)| && Backwards(n)[at] == Link(i)
  {
    if i == n {
      at := 0;
    } else {
      at := LinkIsThere(i, n - 1);
      at := at + 1;
    }
  }

  lemma {:induction false} ChainIsDerivable(i: nat, n: nat)
    requires i <= n
    ensures Var(i) in Derivable(BINDING, Backwards(n), i + 1)
  {
    var at := LinkIsThere(i, n);
    if i > 0 { ChainIsDerivable(i - 1, n); }
    AllOfNode(BINDING, Backwards(n), at, Derivable(BINDING, Backwards(n), i));
    LinkStep(i, Derivable(BINDING, Backwards(n), i));
  }

  /** No fixed number of passes is enough: written backwards, a chain gives up exactly one name a
      pass, though one pass finds the whole chain written forwards. */
  lemma LongChainIsMissed(passes: nat, n: nat)
    requires passes <= n
    ensures Var(passes) in Derivable(BINDING, Backwards(n), passes + 1)
    ensures Passes(BINDING, Backwards(n), passes).collections == Vars(passes)
    ensures Var(passes) !in Passes(BINDING, Backwards(n), passes).collections
    ensures Var(passes) in Passes(BINDING, Forwards(n), 1).collections
  {
    ChainIsDerivable(passes, n);
    forall k: nat | k < passes ensures Pass(BINDING, Backwards(n), Names(Vars(k), {})) == Names(Vars(k + 1), {}) {
      BackwardsPass(n, k);
    }
    OneNameAPass(Backwards(n), passes);
    VarInVars(passes, passes);
    ForwardsPass(n);
    VarInVars(passes, n + 1);
    assert Passes(BINDING, Forwards(n), 0) == Names({}, {});
  }

  /** Its last name needs a chain that turns back at every hop; so the passes stop short of the least
      fixpoint. */
  lemma LongChainTurnsBack(passes: nat, n: nat)
    requires passes <= n
    ensures Near(BINDING, Backwards(n), Var(passes), passes + 1)
    ensures !Near(BINDING, Backwards(n), Var(passes), passes)
    ensures !LeastFixpoint(BINDING, Backwards(n), Passes(BINDING, Backwards(n), passes))
  {
    var nodes, x := Backwards(n), Var(passes);
    LongChainIsMissed(passes, n);
    ShortIsNear(nodes, passes + 1, x);
    BindingIsAdditive();
    FoundExactly(BINDING, nodes, passes, x);
    EnoughPasses(BINDING, nodes, passes);
    var c :| Leads(BINDING, nodes, c, x) && Descents(c) < passes + 1;
  }
}
