# Target-profile conditional compilation, modelled in Dafny

This project models the conditional-compilation pass of the Q# compiler front
end (`compiler/qsc_frontend/src/compile/preprocess.rs`). A top-level
declaration annotated `@Config(P)`, where `P` is a recognised profile name, is
removed unless `P` is the compilation's target profile. Every other
declaration is kept. That includes a declaration whose `Config` argument names
no known profile or is not a parenthesised path, and one whose attributes are
not `Config` at all. The pass keeps two logs: the callables and types it kept,
and the ones it removed, each identified by name and namespace. When the pass
is finished, the logs are reduced to the names that were removed and never
kept. Name resolution uses that list to explain a missing name as "not
available for this target".

Files:

- `ast.dfy` (`Ast`): the part of the syntax tree the pass reads. This is
  namespaces, items (callable, type, or other), attributes, and the
  attribute-argument shapes `Paren`, `Path` and "anything else".
- `preprocess.dfy` (`Preprocess`): `TrackedName`, the pass state
  `Conditional`, the attribute matcher `MatchesTarget`, the namespace visitor
  `VisitNamespace` and the finaliser `IntoNames`.
- `preprocess_properties.dfy` (`PreprocessProperties`): lemmas that relate
  several calls, such as the overload rule and the logging discipline.
- `scenarios.dfy` (`Scenarios`): two worked examples over an illustrative
  two-profile enumeration.
- `seqs.dfy` (`Seqs`), `wrappers.dfy` (`Wrappers`): an order-preserving
  filter with its characterisation, and `Option`.

The profile type is a type parameter `P` with equality. Parsing a profile name
(`TargetProfile::from_str`) is a parameter `parse: string -> Option<P>`, so no
statement depends on which names are recognised. The pass mutates the
namespace in place and updates its state through `&mut self`. Here it is a
function from (state, namespace) to (state', namespace'). `VisitItems` processes
the items one at a time from the front, which is the order in which the
source's `filter_map` pushes to the logs. Its contract equates that fold with a
batch description: the items that match, the included log extended by their
names, and the dropped log extended by the names of the items that do not
match.

`Conditional::new` is the function `Preprocess.New`: the target and two empty
logs. What that start state implies is stated by the fresh-run lemmas.

## Model

| member | source | states |
|---|---|---|
| Preprocess.AttrSatisfied | compiler/qsc_frontend/src/compile/preprocess.rs:87-103 | One attribute is satisfied exactly when it is not a `Config` attribute whose argument is a parenthesised path naming a profile that parses and differs from the target. |
| Preprocess.MatchesTarget | compiler/qsc_frontend/src/compile/preprocess.rs:85-105 | A declaration matches exactly when no attribute in its list violates the target. |
| PreprocessProperties.NoConfigAttrMatches | compiler/qsc_frontend/src/compile/preprocess.rs:86-103 | An attribute list without a `Config` attribute matches every target. This includes the empty list. |
| PreprocessProperties.SingleConfigAttr | compiler/qsc_frontend/src/compile/preprocess.rs:86-103 | A declaration whose only `Config` attribute is `Config(name)`, with `name` parsing to `t`, matches exactly when `t` is the target, whatever non-`Config` attributes precede or follow it. |
| PreprocessProperties.InertConfigAttr | compiler/qsc_frontend/src/compile/preprocess.rs:93-99 | A `Config` attribute has no effect anywhere in the list when its argument is not parenthesised, its inner expression is not a path, or its name does not parse. |
| PreprocessProperties.MatchesConcat | compiler/qsc_frontend/src/compile/preprocess.rs:86 | The verdict on a concatenation of attribute lists is the conjunction of the verdicts on the parts. |
| PreprocessProperties.DistinctConfigsNeverMatch | compiler/qsc_frontend/src/compile/preprocess.rs:86-92 | Two `Config` attributes naming different known profiles make the declaration fail under every target. |
| Preprocess.Kept | compiler/qsc_frontend/src/compile/preprocess.rs:44-81 | The survivors are exactly the matching items. Every occurrence of a matching item is kept. The original relative order is preserved, which is stated as a subsequence. |
| Preprocess.Dropped | compiler/qsc_frontend/src/compile/preprocess.rs:63-78 | The removed items are exactly the non-matching ones, with every occurrence, in their original order. |
| Preprocess.TrackedOf | compiler/qsc_frontend/src/compile/preprocess.rs:49-61 | An item yields at most one log entry. That entry is qualified by the namespace. A name is logged exactly when the item is a callable or type of that name. |
| Preprocess.NamesOf | compiler/qsc_frontend/src/compile/preprocess.rs:49-76 | A list of items yields one entry per callable or type, each qualified by the namespace. A name is logged exactly when some item declares it, and as many times as items declare it. |
| Preprocess.NamesOfSingleton | compiler/qsc_frontend/src/compile/preprocess.rs:49-61 | One item contributes exactly its own entry. |
| Preprocess.NamesOfConcat | compiler/qsc_frontend/src/compile/preprocess.rs:44-76 | The entries of a concatenation are the entries of the first part followed by those of the second, so the log holds one push per item in item order. |
| Preprocess.VisitItems | compiler/qsc_frontend/src/compile/preprocess.rs:44-81 | The item-by-item fold keeps the target unchanged. It returns the matching items. It extends the included log by their names and the dropped log by the names of the non-matching items. |
| Preprocess.VisitNamespace | compiler/qsc_frontend/src/compile/preprocess.rs:43-82 | The namespace keeps its name. Its items become the subsequence of matching items. The logs grow by the names of the kept items and of the removed items, respectively. |
| PreprocessProperties.VisitLogsGrow | compiler/qsc_frontend/src/compile/preprocess.rs:49-76 | A visit only appends to the logs. The old logs are prefixes of the new ones. |
| PreprocessProperties.NamedCountSplit | compiler/qsc_frontend/src/compile/preprocess.rs:47-78 | The number of callables and types among the survivors plus the number among the removed items equals the number among the input items. |
| PreprocessProperties.DeclCountSplit | compiler/qsc_frontend/src/compile/preprocess.rs:47-78 | The declarations of a name among the survivors plus those among the removed items equal its declarations among the input items. |
| PreprocessProperties.VisitLogsOnePerNamedItem | compiler/qsc_frontend/src/compile/preprocess.rs:49-76 | A visit appends exactly as many entries, across both logs, as the namespace has callables and types. Other item kinds add nothing. |
| PreprocessProperties.VisitLogsQualified | compiler/qsc_frontend/src/compile/preprocess.rs:51-74 | Every entry a visit appends carries the visited namespace's name. |
| PreprocessProperties.VisitSingleItem | compiler/qsc_frontend/src/compile/preprocess.rs:48-78 | For one item: a kept callable or type is appended to the included log only, a removed one to the dropped log only, and any other item leaves both logs unchanged. |
| Preprocess.IntoNames | compiler/qsc_frontend/src/compile/preprocess.rs:34-39 | The result is the dropped entries that are not in the included log. It is a subsequence of the dropped log, and each such entry keeps its number of occurrences. |
| PreprocessProperties.KeptNameNeverReported | compiler/qsc_frontend/src/compile/preprocess.rs:34-61 | A callable or type that survives a visit is never reported, whatever happened to its overloads. |
| PreprocessProperties.FreshRunReportsExactly | compiler/qsc_frontend/src/compile/preprocess.rs:26-82 | For a fresh pass over one namespace, a name is reported exactly when some item declares it and every item declaring it was removed. Every report names that namespace. |
| PreprocessProperties.FreshRunReportCount | compiler/qsc_frontend/src/compile/preprocess.rs:26-82 | For a fresh pass over one namespace, a name whose every declaration was removed is reported once per declaration. Any other name is not reported. |
| PreprocessProperties.FreshRunAllKeptReportsNothing | compiler/qsc_frontend/src/compile/preprocess.rs:26-39 | A fresh pass starts with empty logs. Over a namespace whose every item matches, it reports nothing. |
| Scenarios.OverloadScenario | compiler/qsc_frontend/src/compile/preprocess.rs:43-82 | Overloads `A`@Base and `A`@Full plus `B`@Full, pruned for Base: only the first `A` survives. The included log is `[A]`, the dropped log is `[A, B]`, and only `B` is reported. |
| Scenarios.UnknownProfileScenario | compiler/qsc_frontend/src/compile/preprocess.rs:91-93 | A declaration configured for an unrecognised profile name is kept under every target. It is logged only as included. |

## Left out

- The generic syntax-tree walk that calls `visit_namespace` once per namespace is not modelled. The model covers one visit, and several visits compose by threading the state. The walk lives in the external `mut_visit` module.
- `TargetProfile` and `TargetProfile::from_str` are defined outside `preprocess.rs`. The model uses a type parameter and a parser parameter instead. The profile set in `scenarios.dfy` is illustrative only.
- Paths are represented by their final identifier only. The matcher reads only `path.name`, so any other part of a path is not represented.
- Spans, node ids, callable bodies and type definitions are not modelled. The same goes for `Rc`/`Box` sharing and the `Hash`/`Debug` derives. The pass never reads them.
- Move-once finalisation (`into_names(self)`) has no counterpart. Dafny values are immutable, so finishing a state cannot invalidate it.
- The editor integration and the benchmark harness in this repository are not part of this model. They contain no logic of the pass.
