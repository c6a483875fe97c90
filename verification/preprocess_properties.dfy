/** Properties of the conditional-compilation pass that relate several calls
    or single out the cases its design singles out. */
module PreprocessProperties {

  import opened Wrappers
  import opened Ast
  import opened Preprocess

  /** `@Config(name)`, the one argument shape the matcher looks into. */
  function ConfigAttr(name: string): Attr
  {
    Attr(ConfigTag, Paren(Path(name)))
  }

  // ---------------------------------------------------------------------
  // Attribute matching
  // ---------------------------------------------------------------------

  /** Without a `Config` attribute a declaration is kept under every profile;
      in particular a declaration without attributes is. */
  lemma NoConfigAttrMatches<P>(attrs: seq<Attr>, target: P, parse: string -> Option<P>)
    requires forall i :: 0 <= i < |attrs| ==> attrs[i].name != ConfigTag
    ensures MatchesTarget(attrs, target, parse)
  {
  }

  /** A declaration whose only `Config` attribute is `@Config(name)`, with
      `name` parsing to profile `t`, is kept exactly when `t` is the active
      profile, whatever other attributes surround it. */
  lemma SingleConfigAttr<P>(
    before: seq<Attr>, name: string, after: seq<Attr>, t: P, target: P, parse: string -> Option<P>)
    requires forall i :: 0 <= i < |before| ==> before[i].name != ConfigTag
    requires forall i :: 0 <= i < |after| ==> after[i].name != ConfigTag
    requires parse(name) == Some(t)
    ensures MatchesTarget(before + [ConfigAttr(name)] + after, target, parse) <==> t == target
  {
    MatchesConcat(before + [ConfigAttr(name)], after, target, parse);
    MatchesConcat(before, [ConfigAttr(name)], target, parse);
    NoConfigAttrMatches(before, target, parse);
    NoConfigAttrMatches(after, target, parse);
    assert [ConfigAttr(name)][0] == ConfigAttr(name);
  }

  /** A `Config` attribute that does not reach a parsed profile (its argument
      is not parenthesised, or the parenthesised expression is not a path, or
      the path names no known profile) has no effect wherever it appears in an
      attribute list. */
  lemma {:induction false} InertConfigAttr<P>(
    before: seq<Attr>, a: Attr, after: seq<Attr>, target: P, parse: string -> Option<P>)
    requires a.name == ConfigTag
    requires !a.arg.Paren? || !a.arg.inner.Path? || parse(a.arg.inner.name).None?
    ensures MatchesTarget(before + [a] + after, target, parse) == MatchesTarget(before + after, target, parse)
  {
    MatchesConcat(before + [a], after, target, parse);
    MatchesConcat(before, [a], target, parse);
    MatchesConcat(before, after, target, parse);
    assert [a][0] == a;
  }

  /** The verdict on a list is the conjunction of the verdicts on its parts. */
  lemma {:induction false} MatchesConcat<P>(xs: seq<Attr>, ys: seq<Attr>, target: P, parse: string -> Option<P>)
    ensures MatchesTarget(xs + ys, target, parse) <==> MatchesTarget(xs, target, parse) && MatchesTarget(ys, target, parse)
  {
    var zs := xs + ys;
    assert forall i :: 0 <= i < |xs| ==> zs[i] == xs[i];
    assert forall j :: 0 <= j < |ys| ==> zs[|xs| + j] == ys[j];
  }

  /** Two `Config` attributes naming different known profiles can never both
      be satisfied, so their declaration is dropped under every profile. */
  lemma DistinctConfigsNeverMatch<P>(
    attrs: seq<Attr>, i: nat, j: nat, t1: P, t2: P, target: P, parse: string -> Option<P>)
    requires i < |attrs| && j < |attrs|
    requires attrs[i].name == ConfigTag && attrs[i].arg.Paren? && attrs[i].arg.inner.Path?
    requires attrs[j].name == ConfigTag && attrs[j].arg.Paren? && attrs[j].arg.inner.Path?
    requires parse(attrs[i].arg.inner.name) == Some(t1)
    requires parse(attrs[j].arg.inner.name) == Some(t2)
    requires t1 != t2
    ensures !MatchesTarget(attrs, target, parse)
  {
  }

  // ---------------------------------------------------------------------
  // Pruning one namespace
  // ---------------------------------------------------------------------

  /** The logs only grow: whatever they held before a visit is a prefix of
      what they hold after it. */
  lemma VisitLogsGrow<P>(c: Conditional<P>, ns: Namespace, parse: string -> Option<P>)
    ensures var c' := VisitNamespace(c, ns, parse).0;
      && c.includedNames <= c'.includedNames
      && c.droppedNames <= c'.droppedNames
  {
  }

  /** The callables and types of a list are those of its survivors plus those
      of its removed items. */
  lemma {:induction false} NamedCountSplit<P>(items: seq<Item>, target: P, parse: string -> Option<P>)
    ensures NamedCount(Kept(items, target, parse)) + NamedCount(Dropped(items, target, parse)) == NamedCount(items)
    decreases |items|
  {
    if items != [] {
      KeptDroppedUnfold(items, target, parse);
      NamedCountSplit(items[1..], target, parse);
      var k := Kept(items[1..], target, parse);
      var d := Dropped(items[1..], target, parse);
      assert ([items[0]] + k)[1..] == k;
      assert ([items[0]] + d)[1..] == d;
    }
  }

  /** A visit logs exactly one entry per callable or type of the namespace,
      and nothing for any other item. */
  lemma VisitLogsOnePerNamedItem<P>(c: Conditional<P>, ns: Namespace, parse: string -> Option<P>)
    ensures var c' := VisitNamespace(c, ns, parse).0;
      |c'.includedNames| - |c.includedNames| + |c'.droppedNames| - |c.droppedNames| == NamedCount(ns.items)
  {
    NamedCountSplit(ns.items, c.target, parse);
  }

  /** Every entry a visit appends is qualified by the visited namespace's name. */
  lemma VisitLogsQualified<P>(c: Conditional<P>, ns: Namespace, parse: string -> Option<P>)
    ensures var c' := VisitNamespace(c, ns, parse).0;
      && (forall k :: |c.includedNames| <= k < |c'.includedNames| ==> c'.includedNames[k].namespace == ns.name)
      && (forall k :: |c.droppedNames| <= k < |c'.droppedNames| ==> c'.droppedNames[k].namespace == ns.name)
  {
  }

  /** Visiting a namespace of one item: a kept callable or type appends its
      name to the included log only, a removed one to the dropped log only,
      and any other item leaves both logs as they were. */
  lemma VisitSingleItem<P>(c: Conditional<P>, nsName: string, item: Item, parse: string -> Option<P>)
    ensures var (c', ns') := VisitNamespace(c, Namespace(nsName, [item]), parse);
      var keep := MatchesTarget(item.attrs, c.target, parse);
      var entry := if item.kind.OtherItem? then [] else [TrackedName(item.kind.name, nsName)];
      && ns'.items == (if keep then [item] else [])
      && c'.includedNames == c.includedNames + (if keep then entry else [])
      && c'.droppedNames == c.droppedNames + (if keep then [] else entry)
  {
  }

  // ---------------------------------------------------------------------
  // Finalising
  // ---------------------------------------------------------------------

  /** A callable or type that survived a visit is never reported as
      unavailable, however many of its overloads were removed. */
  lemma KeptNameNeverReported<P>(c: Conditional<P>, ns: Namespace, parse: string -> Option<P>, item: Item)
    requires item in ns.items && !item.kind.OtherItem?
    requires MatchesTarget(item.attrs, c.target, parse)
    ensures TrackedName(item.kind.name, ns.name) !in IntoNames(VisitNamespace(c, ns, parse).0)
  {
  }

  /** For a fresh pass over one namespace, a name is reported unavailable
      exactly when some item of the namespace declares it and every item
      declaring it was removed; every report names that namespace. */
  lemma FreshRunReportsExactly<P>(target: P, ns: Namespace, parse: string -> Option<P>, name: string)
    ensures var r := IntoNames(VisitNamespace(New(target), ns, parse).0);
      && (forall n :: n in r ==> n.namespace == ns.name)
      && (TrackedName(name, ns.name) in r <==>
            && (exists it :: it in ns.items && Declares(it, name))
            && (forall it :: it in ns.items && Declares(it, name) ==> !MatchesTarget(it.attrs, target, parse)))
  {
    var c' := VisitNamespace(New(target), ns, parse).0;
    var kept := Kept(ns.items, target, parse);
    var dropped := Dropped(ns.items, target, parse);
    assert c'.includedNames == NamesOf(kept, ns.name);
    assert c'.droppedNames == NamesOf(dropped, ns.name);
    var tn := TrackedName(name, ns.name);
    if forall it :: it in ns.items && Declares(it, name) ==> !MatchesTarget(it.attrs, target, parse) {
      assert tn !in c'.includedNames;
      if it :| it in ns.items && Declares(it, name) {
        assert it in dropped;
        assert tn in c'.droppedNames;
      }
    } else {
      var it :| it in ns.items && Declares(it, name) && MatchesTarget(it.attrs, target, parse);
      assert it in kept;
      assert tn in c'.includedNames;
    }
  }

  /** The declarations of a name among the survivors and among the removed
      items add up to its declarations in the namespace. */
  lemma {:induction false} DeclCountSplit<P>(items: seq<Item>, target: P, parse: string -> Option<P>, name: string)
    ensures DeclCount(Kept(items, target, parse), name) + DeclCount(Dropped(items, target, parse), name)
      == DeclCount(items, name)
    decreases |items|
  {
    if items != [] {
      KeptDroppedUnfold(items, target, parse);
      DeclCountSplit(items[1..], target, parse, name);
      var k := Kept(items[1..], target, parse);
      var d := Dropped(items[1..], target, parse);
      assert ([items[0]] + k)[1..] == k;
      assert ([items[0]] + d)[1..] == d;
    }
  }

  /** For a fresh pass over one namespace, a name whose every declaration was
      removed is reported once per declaration, and otherwise not at all. */
  lemma FreshRunReportCount<P>(target: P, ns: Namespace, parse: string -> Option<P>, name: string)
    ensures var r := IntoNames(VisitNamespace(New(target), ns, parse).0);
      multiset(r)[TrackedName(name, ns.name)] ==
        if forall it :: it in ns.items && Declares(it, name) ==> !MatchesTarget(it.attrs, target, parse)
        then DeclCount(ns.items, name) else 0
  {
    var c' := VisitNamespace(New(target), ns, parse).0;
    var kept := Kept(ns.items, target, parse);
    var dropped := Dropped(ns.items, target, parse);
    var tn := TrackedName(name, ns.name);
    assert c'.includedNames == NamesOf(kept, ns.name);
    assert c'.droppedNames == NamesOf(dropped, ns.name);
    DeclCountSplit(ns.items, target, parse, name);
    if forall it :: it in ns.items && Declares(it, name) ==> !MatchesTarget(it.attrs, target, parse) {
      assert tn !in c'.includedNames;
      assert multiset(NamesOf(kept, ns.name))[tn] == 0;
    } else {
      var it :| it in ns.items && Declares(it, name) && MatchesTarget(it.attrs, target, parse);
      assert it in kept;
      assert tn in c'.includedNames;
    }
  }

  /** A fresh pass over a namespace whose every item matches reports nothing. */
  lemma FreshRunAllKeptReportsNothing<P>(target: P, ns: Namespace, parse: string -> Option<P>)
    requires forall it :: it in ns.items ==> MatchesTarget(it.attrs, target, parse)
    ensures IntoNames(VisitNamespace(New(target), ns, parse).0) == []
  {
  }

}
