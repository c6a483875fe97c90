/** Worked examples of the pass over an illustrative two-profile enumeration,
    in which only the names "Base" and "Full" parse. */
module Scenarios {

  import opened Wrappers
  import opened Ast
  import opened Preprocess

  datatype Profile = Base | Full

  function ParseProfile(s: string): Option<Profile>
  {
    if s == "Base" then Some(Base)
    else if s == "Full" then Some(Full)
    else None
  }

  function ConfigFor(profile: string): seq<Attr>
  {
    [Attr(ConfigTag, Paren(Path(profile)))]
  }

  /** Two overloads of `A`, one per profile, and a `B` for the full profile. */
  function OverloadItems(): seq<Item>
  {
    [Item(ConfigFor("Base"), Callable("A")),
     Item(ConfigFor("Full"), Callable("A")),
     Item(ConfigFor("Full"), Callable("B"))]
  }

  /** Under the base profile only the first overload matches. */
  lemma OverloadVerdicts()
    ensures MatchesTarget(OverloadItems()[0].attrs, Base, ParseProfile)
    ensures !MatchesTarget(OverloadItems()[1].attrs, Base, ParseProfile)
    ensures !MatchesTarget(OverloadItems()[2].attrs, Base, ParseProfile)
  {
  }

  /** Filtering three items of which only the first matches. */
  lemma PartitionFirstOfThree<P>(x: Item, y: Item, z: Item, target: P, parse: string -> Option<P>)
    requires MatchesTarget(x.attrs, target, parse)
    requires !MatchesTarget(y.attrs, target, parse) && !MatchesTarget(z.attrs, target, parse)
    ensures Kept([x, y, z], target, parse) == [x]
    ensures Dropped([x, y, z], target, parse) == [y, z]
  {
    KeptDroppedUnfold([z], target, parse);
    assert [z][1..] == [];
    KeptDroppedUnfold([y, z], target, parse);
    assert [y, z][1..] == [z];
    KeptDroppedUnfold([x, y, z], target, parse);
    assert [x, y, z][1..] == [y, z];
  }

  /** The log entries of one- and two-item lists. */
  lemma NamesOfOneAndTwo(x: Item, y: Item, ns: string)
    ensures NamesOf([x], ns) == TrackedOf(x, ns)
    ensures NamesOf([x, y], ns) == TrackedOf(x, ns) + TrackedOf(y, ns)
  {
  }

  /** Pruned for the base profile, the base overload of `A` survives; `A` is
      both included and dropped and so is not reported, while `B` is. */
  lemma OverloadScenario()
    ensures
      var (c', ns') := VisitNamespace(New(Base), Namespace("Ns", OverloadItems()), ParseProfile);
      && ns' == Namespace("Ns", OverloadItems()[..1])
      && c'.includedNames == [TrackedName("A", "Ns")]
      && c'.droppedNames == [TrackedName("A", "Ns"), TrackedName("B", "Ns")]
      && IntoNames(c') == [TrackedName("B", "Ns")]
  {
    OverloadLogs();
    ReportsOnlyB();
  }

  /** A fresh visit of three items of which only the first matches. */
  lemma VisitFirstOfThree<P>(target: P, parse: string -> Option<P>, ns: string, x: Item, y: Item, z: Item)
    requires MatchesTarget(x.attrs, target, parse)
    requires !MatchesTarget(y.attrs, target, parse) && !MatchesTarget(z.attrs, target, parse)
    ensures VisitNamespace(New(target), Namespace(ns, [x, y, z]), parse)
      == (Conditional(target, TrackedOf(y, ns) + TrackedOf(z, ns), TrackedOf(x, ns)), Namespace(ns, [x]))
  {
    var res := VisitNamespace(New(target), Namespace(ns, [x, y, z]), parse);
    PartitionFirstOfThree(x, y, z, target, parse);
    assert res.1.items == [x];
    assert res.0.includedNames == TrackedOf(x, ns) by {
      NamesOfOneAndTwo(x, z, ns);
    }
    assert res.0.droppedNames == TrackedOf(y, ns) + TrackedOf(z, ns) by {
      NamesOfOneAndTwo(y, z, ns);
    }
  }

  /** The surviving items and both logs after pruning the overloads. */
  lemma OverloadLogs()
    ensures
      var (c', ns') := VisitNamespace(New(Base), Namespace("Ns", OverloadItems()), ParseProfile);
      && ns' == Namespace("Ns", OverloadItems()[..1])
      && c' == Conditional(Base, [TrackedName("A", "Ns"), TrackedName("B", "Ns")], [TrackedName("A", "Ns")])
  {
    var items := OverloadItems();
    var a1, a2, b := items[0], items[1], items[2];
    assert items[..1] == [a1];
    assert VisitNamespace(New(Base), Namespace("Ns", items), ParseProfile)
      == (Conditional(Base, [TrackedName("A", "Ns"), TrackedName("B", "Ns")], [TrackedName("A", "Ns")]), Namespace("Ns", [a1])) by {
      assert items == [a1, a2, b];
      assert TrackedOf(a1, "Ns") == [TrackedName("A", "Ns")];
      assert TrackedOf(a2, "Ns") == [TrackedName("A", "Ns")];
      assert TrackedOf(b, "Ns") == [TrackedName("B", "Ns")];
      assert [TrackedName("A", "Ns")] + [TrackedName("B", "Ns")] == [TrackedName("A", "Ns"), TrackedName("B", "Ns")];
      OverloadVerdicts();
      VisitFirstOfThree(Base, ParseProfile, "Ns", a1, a2, b);
    }
  }

  /** Finalising those logs reports `B` only. */
  lemma ReportsOnlyB()
    ensures
      var c := Conditional(Base, [TrackedName("A", "Ns"), TrackedName("B", "Ns")], [TrackedName("A", "Ns")]);
      IntoNames(c) == [TrackedName("B", "Ns")]
  {
  }

  /** A `Config` attribute naming an unknown profile keeps its declaration
      under every profile, and the declaration is logged as included only. */
  lemma UnknownProfileScenario(target: Profile)
    ensures
      var it := Item(ConfigFor("Unrestricted"), Callable("C"));
      var (c', ns') := VisitNamespace(New(target), Namespace("Ns", [it]), ParseProfile);
      && ns'.items == [it]
      && c'.includedNames == [TrackedName("C", "Ns")]
      && c'.droppedNames == []
  {
  }

}
