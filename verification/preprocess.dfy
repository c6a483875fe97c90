/** Target-profile conditional compilation: a declaration annotated
    `@Config(P)`, where `P` is a recognised profile name, is removed unless the
    active profile is `P`; every other declaration is kept, including one whose
    `Config` argument names no known profile or is not a parenthesised path.
    The pass records which callable and type names it kept and which it
    removed, so that later diagnostics can tell "removed for this profile"
    from "never declared".

    The profile type is a type parameter `P`, and parsing a profile name is a
    parameter `parse` of that type's parser: which names are recognised is
    decided outside this pass. */
module Preprocess {

  import opened Wrappers
  import opened Seqs
  import opened Ast

  /** The reserved attribute name that restricts a declaration to one profile. */
  const ConfigTag: string := "Config"

  /** A declaration identified by its simple name and its namespace's name. */
  datatype TrackedName = TrackedName(name: string, namespace: string)

  /** The pass state: the active profile and two append-only logs. */
  datatype Conditional<P> = Conditional(
    target: P,
    droppedNames: seq<TrackedName>,
    includedNames: seq<TrackedName>)

  function New<P>(target: P): Conditional<P>
  {
    Conditional(target, [], [])
  }

  // ---------------------------------------------------------------------
  // Attribute matching
  // ---------------------------------------------------------------------

  /** The one way an attribute can rule a declaration out: it is a `Config`
      attribute whose argument is a parenthesised path naming a profile that
      parses and is not the active one. */
  predicate Violates<P(==)>(a: Attr, target: P, parse: string -> Option<P>)
  {
    && a.name == ConfigTag
    && a.arg.Paren?
    && a.arg.inner.Path?
    && parse(a.arg.inner.name).Some?
    && parse(a.arg.inner.name).value != target
  }

  /** The verdict on one attribute, following the shape checks in order:
      tag, parentheses, path, parse. Anything that does not get all the way to
      a parsed profile is satisfied. */
  function AttrSatisfied<P(==)>(a: Attr, target: P, parse: string -> Option<P>): (r: bool)
    ensures r <==> !Violates(a, target, parse)
  {
    if a.name == ConfigTag then
      match a.arg
      case Paren(inner) =>
        (match inner
         case Path(name) =>
           (match parse(name)
            case Some(t) => t == target
            case None => true)
         case _ => true)
      case _ => true
    else
      true
  }

  /** A declaration matches the active profile when none of its attributes
      violates it; in particular an empty attribute list matches. */
  function MatchesTarget<P(==)>(attrs: seq<Attr>, target: P, parse: string -> Option<P>): (r: bool)
    ensures r <==> forall i :: 0 <= i < |attrs| ==> !Violates(attrs[i], target, parse)
    decreases |attrs|
  {
    if attrs == [] then true
    else
      var rest := MatchesTarget(attrs[1..], target, parse);
      assert forall i :: 1 <= i < |attrs| ==> attrs[i] == attrs[1..][i - 1];
      AttrSatisfied(attrs[0], target, parse) && rest
  }

  // ---------------------------------------------------------------------
  // Pruning one namespace
  // ---------------------------------------------------------------------

  /** The items that survive under `target`, in their original order. */
  function Kept<P(==)>(items: seq<Item>, target: P, parse: string -> Option<P>): (r: seq<Item>)
    ensures forall it :: it in r <==> it in items && MatchesTarget(it.attrs, target, parse)
    ensures forall it :: multiset(r)[it] == if MatchesTarget(it.attrs, target, parse) then multiset(items)[it] else 0
    ensures IsSubsequence(r, items)
  {
    Filter(items, (it: Item) => MatchesTarget(it.attrs, target, parse))
  }

  /** The items that are removed under `target`, in their original order. */
  function Dropped<P(==)>(items: seq<Item>, target: P, parse: string -> Option<P>): (r: seq<Item>)
    ensures forall it :: it in r <==> it in items && !MatchesTarget(it.attrs, target, parse)
    ensures forall it :: multiset(r)[it] == if MatchesTarget(it.attrs, target, parse) then 0 else multiset(items)[it]
    ensures IsSubsequence(r, items)
  {
    Filter(items, (it: Item) => !MatchesTarget(it.attrs, target, parse))
  }

  /** `item` is a callable or a type called `name`. */
  predicate Declares(item: Item, name: string)
  {
    !item.kind.OtherItem? && item.kind.name == name
  }

  /** The log entry an item contributes: one for a callable or a type, none
      for any other kind. */
  function TrackedOf(item: Item, ns: string): (r: seq<TrackedName>)
    ensures |r| <= 1
    ensures forall name :: TrackedName(name, ns) in r <==> Declares(item, name)
    ensures forall name :: multiset(r)[TrackedName(name, ns)] == if Declares(item, name) then 1 else 0
    ensures forall n :: n in r ==> n.namespace == ns
  {
    match item.kind
    case Callable(name) => [TrackedName(name, ns)]
    case Ty(name) => [TrackedName(name, ns)]
    case OtherItem => []
  }

  /** The number of callables and types among `items`. */
  function NamedCount(items: seq<Item>): nat
    decreases |items|
  {
    if items == [] then 0
    else (if items[0].kind.OtherItem? then 0 else 1) + NamedCount(items[1..])
  }

  /** The number of items of `items` that declare `name`. */
  function DeclCount(items: seq<Item>, name: string): nat
    decreases |items|
  {
    if items == [] then 0
    else (if Declares(items[0], name) then 1 else 0) + DeclCount(items[1..], name)
  }

  /** The log entries of `items`: exactly one per callable or type, each
      carrying the namespace `ns`; a name is logged exactly when some item
      declares it, and as many times as items declare it. That the entries
      follow the order of the items is `NamesOfConcat`. */
  function NamesOf(items: seq<Item>, ns: string): (r: seq<TrackedName>)
    ensures |r| == NamedCount(items)
    ensures forall n :: n in r ==> n.namespace == ns
    ensures forall name :: TrackedName(name, ns) in r <==> exists it :: it in items && Declares(it, name)
    ensures forall name :: multiset(r)[TrackedName(name, ns)] == DeclCount(items, name)
    decreases |items|
  {
    if items == [] then []
    else
      var rest := NamesOf(items[1..], ns);
      assert forall it :: it in items <==> it == items[0] || it in items[1..];
      TrackedOf(items[0], ns) + rest
  }

  /** A single item contributes exactly its own entry. */
  lemma NamesOfSingleton(x: Item, ns: string)
    ensures NamesOf([x], ns) == TrackedOf(x, ns)
  {
    assert [x][1..] == [];
  }

  /** The entries of a concatenation are the entries of the first part
      followed by those of the second; with `NamesOfSingleton` this fixes the
      log to one push per item, in item order. */
  lemma {:induction false} NamesOfConcat(xs: seq<Item>, ys: seq<Item>, ns: string)
    ensures NamesOf(xs + ys, ns) == NamesOf(xs, ns) + NamesOf(ys, ns)
    decreases |xs|
  {
    if xs == [] {
      assert xs + ys == ys;
    } else {
      assert (xs + ys)[1..] == xs[1..] + ys;
      NamesOfConcat(xs[1..], ys, ns);
    }
  }

  /** One step of each filter: the first item goes to exactly one side. */
  lemma KeptDroppedUnfold<P>(items: seq<Item>, target: P, parse: string -> Option<P>)
    requires items != []
    ensures MatchesTarget(items[0].attrs, target, parse) ==>
      && Kept(items, target, parse) == [items[0]] + Kept(items[1..], target, parse)
      && Dropped(items, target, parse) == Dropped(items[1..], target, parse)
    ensures !MatchesTarget(items[0].attrs, target, parse) ==>
      && Kept(items, target, parse) == Kept(items[1..], target, parse)
      && Dropped(items, target, parse) == [items[0]] + Dropped(items[1..], target, parse)
  {
  }

  /** Appending one item's entry and then the rest's entries is appending the
      entries of the item followed by the rest. */
  lemma AppendNamesOfCons(log: seq<TrackedName>, item: Item, rest: seq<Item>, ns: string)
    ensures (log + TrackedOf(item, ns)) + NamesOf(rest, ns) == log + NamesOf([item] + rest, ns)
  {
    NamesOfSingleton(item, ns);
    NamesOfConcat([item], rest, ns);
  }

  /** The filter of a namespace's items, one item at a time from the front,
      appending to the included log for each surviving callable or type and
      to the dropped log for each removed one. Its result is the batch
      description: the surviving items, the included log extended by their
      names, the dropped log extended by the names of the removed items. */
  function VisitItems<P(==)>(c: Conditional<P>, ns: string, items: seq<Item>, parse: string -> Option<P>)
    : (res: (Conditional<P>, seq<Item>))
    ensures res.0.target == c.target
    ensures res.1 == Kept(items, c.target, parse)
    ensures res.0.includedNames == c.includedNames + NamesOf(res.1, ns)
    ensures res.0.droppedNames == c.droppedNames + NamesOf(Dropped(items, c.target, parse), ns)
    decreases |items|
  {
    if items == [] then (c, [])
    else
      var item := items[0];
      KeptDroppedUnfold(items, c.target, parse);
      if MatchesTarget(item.attrs, c.target, parse) then
        var c1 := c.(includedNames := c.includedNames + TrackedOf(item, ns));
        var (c2, rest) := VisitItems(c1, ns, items[1..], parse);
        AppendNamesOfCons(c.includedNames, item, rest, ns);
        (c2, [item] + rest)
      else
        var c1 := c.(droppedNames := c.droppedNames + TrackedOf(item, ns));
        var (c2, rest) := VisitItems(c1, ns, items[1..], parse);
        var dropped := Dropped(items[1..], c.target, parse);
        AppendNamesOfCons(c.droppedNames, item, dropped, ns);
        (c2, rest)
  }

  /** Prune one namespace under the pass's active profile. The namespace keeps
      its name; its items become the survivors; the logs grow by the names of
      the surviving and the removed callables and types respectively. */
  function VisitNamespace<P(==)>(c: Conditional<P>, ns: Namespace, parse: string -> Option<P>)
    : (res: (Conditional<P>, Namespace))
    ensures res.0.target == c.target
    ensures res.1.name == ns.name
    ensures forall it :: it in res.1.items <==> it in ns.items && MatchesTarget(it.attrs, c.target, parse)
    ensures IsSubsequence(res.1.items, ns.items)
    ensures res.1.items == Kept(ns.items, c.target, parse)
    ensures res.0.includedNames == c.includedNames + NamesOf(res.1.items, ns.name)
    ensures res.0.droppedNames == c.droppedNames + NamesOf(Dropped(ns.items, c.target, parse), ns.name)
  {
    var (c', items) := VisitItems(c, ns.name, ns.items, parse);
    (c', ns.(items := items))
  }

  // ---------------------------------------------------------------------
  // Finalising
  // ---------------------------------------------------------------------

  /** The names that are unavailable under the active profile: every dropped
      entry that was never also included, in log order, repeats kept. */
  function IntoNames<P>(c: Conditional<P>): (r: seq<TrackedName>)
    ensures forall n :: n in r <==> n in c.droppedNames && n !in c.includedNames
    ensures forall n :: multiset(r)[n] == if n in c.includedNames then 0 else multiset(c.droppedNames)[n]
    ensures IsSubsequence(r, c.droppedNames)
  {
    Filter(c.droppedNames, (n: TrackedName) => n !in c.includedNames)
  }

}
