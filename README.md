# ContentViewTreeItemStructure rule — a Dafny model

Accessibility Insights for Windows checks a captured UI element tree against a
library of diagnostic rules. Each rule has an identifier, metadata (a
description, a how-to-fix text and an accessibility-criterion tag), an
applicability condition, and an evaluation function that maps an element to an
evaluation code.

This project models one rule of that library, `ContentViewTreeItemStructure`:

- it applies to elements that are TreeItem controls;
- it evaluates to `Pass` when the element matches the content-view tree-item
  structure condition, and to `Note` otherwise;
- it rejects a null element with an `ArgumentException`.

Layout:

- `wrappers.dfy` (module `Wrappers`): `Option` (a possibly-null reference) and
  `Result` (a returned value or a thrown exception).
- `rules.dfy` (module `Rules`): the vocabulary rules are written in. It holds
  the opaque `Element`, `Condition` (a predicate plus the text its `ToString`
  gives), `EvaluationCode`, `RuleId`, `A11yCriteriaId`, the texts' templates,
  `RuleInfo`, `Exception` and the `Rule` record. It also holds `Outcomes`, the
  set of codes a rule gives to some element.
- `tree_item.dfy` (module `ContentViewTreeItem`): the rule itself and the
  lemmas about it.

The two library conditions the rule uses, `ContentView.TreeItemStructure` and
`ControlType.TreeItem`, are defined in files this model does not include. They
are passed in as a `ConditionLibrary` value. The model assumes only that each
is a total, side-effect-free predicate: `Matches` never throws and gives the
same answer for the same element. Beyond that nothing is assumed, so every
lemma holds for any two such predicates.

Null handling: the source calls `new ArgumentException(nameof(e))`. That puts
`"e"` in the exception's message, not in its parameter name. The model keeps
exactly that: `ArgumentException("e")`.

The definition of `EvaluationCode` is not part of this model's sources. The
model uses five codes. Only Pass and Note occur in the source; Fail,
NotApplicable and Error are assumed, and no lemma depends on them (the
lemmas only use membership in {Pass, Note}). `RuleId` and `A11yCriteriaId`
hold the one value this rule uses plus a few others. The extra values are
there so that the identifier and tag the rule carries are not the only
values of their types. `Template` lists only the two templates this rule
uses.

The one proof Dafny cannot do unaided is `OutcomesOf`, which needs explicit
witness elements. `PassIff`, `NoteOtherwise`, `NullRejected`, `OnlyPassOrNote`,
`AppliesIff` and `DependsOnlyOnStructure` are the contracts of `Evaluate`,
`CreateCondition` and `Create`, restated for the registered rule record.
Dafny proves them without a body; they are named statements of the rule's
properties, not separate proof work.

## Model

| member | source | states |
|---|---|---|
| ContentViewTreeItem.Info | src/AccessibilityInsights.Rules/Library/Structure/ContentView/TreeItem.cs:13-20 | The id is ContentViewTreeItemStructure. The description and how-to-fix are the two Structure templates, each filled with the same single argument: the structure condition's text. The standard is InfoAndRelationships. |
| ContentViewTreeItem.Evaluate | src/AccessibilityInsights.Rules/Library/Structure/ContentView/TreeItem.cs:23-28 | Throws exactly when the element is null, and then with ArgumentException("e"). Otherwise the code is Pass iff the structure condition matches, and Note iff it does not. |
| ContentViewTreeItem.CreateCondition | src/AccessibilityInsights.Rules/Library/Structure/ContentView/TreeItem.cs:30-33 | The applicability condition matches the same elements as the TreeItem control-type condition and prints the same text. |
| ContentViewTreeItem.Create | src/AccessibilityInsights.Rules/Library/Structure/ContentView/TreeItem.cs:13-33 | The rule record carries Info's metadata, applies exactly to TreeItem elements, and evaluates as Evaluate does. |
| ContentViewTreeItem.PassIff | src/AccessibilityInsights.Rules/Library/Structure/ContentView/TreeItem.cs:27 | The rule passes a non-null element iff it matches the tree-item structure condition (both directions). |
| ContentViewTreeItem.NoteOtherwise | src/AccessibilityInsights.Rules/Library/Structure/ContentView/TreeItem.cs:27 | A non-null element without the tree-item structure gets Note. |
| ContentViewTreeItem.OnlyPassOrNote | src/AccessibilityInsights.Rules/Library/Structure/ContentView/TreeItem.cs:25-27 | A non-null element never makes the rule throw, and its code is Pass or Note, never Fail, NotApplicable or Error. |
| ContentViewTreeItem.NullRejected | src/AccessibilityInsights.Rules/Library/Structure/ContentView/TreeItem.cs:25 | A null element yields ArgumentException("e") and no evaluation code. |
| ContentViewTreeItem.AppliesIff | src/AccessibilityInsights.Rules/Library/Structure/ContentView/TreeItem.cs:30-33 | The rule applies to an element iff that element is a TreeItem control. |
| ContentViewTreeItem.DependsOnlyOnStructure | src/AccessibilityInsights.Rules/Library/Structure/ContentView/TreeItem.cs:23-28 | Two evaluations give the same result whenever the structure condition has the same verdict on both elements. The applicability condition plays no part. So the same element always gets the same code. |
| ContentViewTreeItem.OutcomesOf | src/AccessibilityInsights.Rules/Library/Structure/ContentView/TreeItem.cs:27 | Over all elements, the rule's codes lie within {Pass, Note}. Pass occurs iff some element has the structure, and Note occurs iff some element lacks it. |

## Left out

- `Matches` of the two library conditions: modelled as total, side-effect-free predicates. An exception thrown inside `Matches` would escape `Evaluate` (TreeItem.cs:27), and the model does not capture it.
- OnlyPassOrNote: its "never throws on a non-null element" rests on `Matches` not throwing; the source promises that only if the structure condition's `Matches` does not throw.
- DependsOnlyOnStructure: its "same element, same code" rests on `Matches` being deterministic, which is a property of a condition defined outside this model.

- The definitions of `ContentView.TreeItemStructure` and `ControlType.TreeItem`: they live in files outside this model, so they stay uninterpreted parameters.
- The `Rule` and `Condition` base classes, and how `RuleInfo`'s attribute sets the id in the base class: not part of this model. The rule record is built directly with its id.
- `string.Format` and the localized template texts: each text is kept as a symbolic template plus its argument list, and the text is never rendered.
- Whether the scan driver checks applicability before it calls `Evaluate`: the rule itself does not check it, and the model has it evaluate any non-null element.
- Bug filing, connection settings, the GitHub configuration control, the rule-result view model and the tests of other rules: these are UI, I/O and telemetry code, or tests of rules whose sources are not part of this model.
