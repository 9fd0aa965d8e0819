# The go-mnd "argument" check, modelled in Dafny

go-mnd is a Go linter that reports magic numbers. Its "argument" check
(`checks/argument.go`) is handed every call expression of a file. For each one it:

- skips the whole call when the call target is one of the excluded
  `package.Function` selectors (only `time.Date`);
- otherwise walks the arguments from left to right;
- reports every literal argument that the shared magic-number predicate
  flags;
- reports each immediate literal operand of a binary-expression argument,
  left operand first;
- ignores every other argument shape.

Files:

- `ast.dfy` (module `Ast`): the syntax-tree shapes the check tells apart. These
  are basic literals, binary expressions, selectors, identifiers and calls.
  `Other` stands for every other node.
- `argument.dfy` (module `Argument`): the exclusion table, `NodeFilter` and
  `IsExcluded` as functions, and the specification functions `CheckReports`,
  `ArgsReports`, `ArgReports`, `BinaryReports` and `OperandReports`. It also
  holds the lemmas about these functions, and the class `ArgumentAnalyzer`.
  That class holds the diagnostic sink as a `diagnostics` sequence. Its
  methods `Check` and `CheckBinaryExpr` append to that sequence and are proved
  against the specification functions.
- `seqs.dfy` (module `Seqs`): `Concat`, which concatenates in order what a
  function gives for each element of a sequence, with its lemmas.
- `scenarios.dfy` (module `Scenarios`): concrete calls checked with a
  predicate that flags every numeric literal other than 0 and 1.

The magic-number predicate is a parameter `isMagic: BasicLit -> bool`
everywhere, so every property holds for any such predicate. A diagnostic
records the literal's position, its raw text and the check identifier
`"argument"`.

`IsExcluded` follows the code, not a two-string lookup `(object, member)`. It
takes the selector. A receiver that is not an identifier is looked up under the
empty name, and so it is never excluded. `ExclusionIsExactPair` proves this
for the compiled table.

## Model

| member | source | states |
|---|---|---|
| `Argument.NodeFilter` | checks/argument.go:27-31 | the filter has one kind, and a node passes it exactly when it is a call expression |
| `Argument.IsExcluded` | checks/argument.go:56-69 | a selector is excluded exactly when its receiver is a plain identifier that is a key of the table and its member is the value mapped to that key |
| `Argument.ExclusionIsExactPair` | checks/argument.go:12-15 | with the compiled table, exclusion holds exactly for receiver identifier `time` with member `Date`; a receiver that is not an identifier is never excluded |
| `Argument.NonCallSilent` | checks/argument.go:33-37 | a node that is not a call expression reports nothing |
| `Argument.FilteredNodesSilent` | checks/argument.go:27-37 | a node the filter would keep from the rule reports nothing even if delivered |
| `Argument.ExcludedCallSilent` | checks/argument.go:39-42 | a `time.Date(...)` call reports nothing, for every argument list and every predicate |
| `Argument.ArgReportsExposed` | checks/argument.go:45-52 | one argument reports at most two diagnostics; a diagnostic is among them exactly when it is the report of a magic literal that is the argument itself or an immediate operand of a binary argument |
| `Argument.ArgsReportsExposed` | checks/argument.go:44-53 | the same if-and-only-if, over a whole argument list |
| `Argument.CheckReportsExposed` | checks/argument.go:44-53 | for a call that is not excluded, a diagnostic is reported exactly when some argument exposes a magic literal whose report it is; every report has check id "argument" |
| `Argument.CheckReportsTagged` | checks/argument.go:48 | every diagnostic Check produces carries the check identifier "argument" |
| `Argument.ArgsReportsSplit` | checks/argument.go:44-53 | the reports of an argument list are those of the arguments before `i`, then those of argument `i`, then those of the arguments after it |
| `Argument.ArgsReportsBound` | checks/argument.go:44-53 | an argument list reports at most two diagnostics per argument |
| `Argument.CheckReportsBound` | checks/argument.go:44-53 | a call reports at most twice as many diagnostics as it has arguments |
| `Argument.LiteralArgument` | checks/argument.go:46-49 | a literal argument adds exactly one diagnostic in its place (its position, its raw value, "argument") when the predicate flags it, and none otherwise |
| `Argument.BinaryArgument` | checks/argument.go:71-85 | a binary argument adds, in its place, the left operand's report and then the right operand's, each exactly when that operand is a flagged literal |
| `Argument.IgnoredArgument` | checks/argument.go:44-53 | an argument of any other shape, such as an identifier or a nested call, can be removed without changing the reports |
| `Argument.NoDeduplication` | checks/argument.go:44-53 | two flagged literal arguments give two diagnostics in argument order, even when they are equal |
| `Argument.OneLevelOnly` | checks/argument.go:71-85 | erasing everything below an argument's immediate operands changes no report, so nested calls and deeper binary chains are never inspected |
| `Argument.ArgumentAnalyzer.constructor` | checks/argument.go:21-25 | a new analyzer has an empty sink and the given predicate |
| `Argument.ArgumentAnalyzer.Reportf` | checks/argument.go:48 | reporting a literal appends its diagnostic to the sink and changes nothing else |
| `Argument.ArgumentAnalyzer.Check` | checks/argument.go:33-54 | the sink becomes the old sink followed by `CheckReports` of the node, and is unchanged for a node that is not a call; the invariant that every recorded diagnostic has check id "argument" is kept |
| `Argument.ArgumentAnalyzer.CheckBinaryExpr` | checks/argument.go:71-85 | the sink becomes the old sink followed by the left operand's report and then the right operand's |
| `Scenarios.SingleLiteral` | checks/argument.go:44-49 | `foo(42)` reports "42" once |
| `Scenarios.TimeDateExcluded` | checks/argument.go:39-42 | `time.Date(2021, 1, 1, 0, 0, 0, 0, loc)` reports nothing |
| `Scenarios.BinaryOperands` | checks/argument.go:71-85 | `foo(a + 5)` reports "5"; `foo(5 + 6)` reports "5" then "6" |
| `Scenarios.IgnoredShapes` | checks/argument.go:45-52 | `foo("text")`, `foo(bar(5))` and `foo((a + 5) + b)` report nothing |
| `Scenarios.RepeatedLiteral` | checks/argument.go:44-53 | `foo(7, 7)` reports "7" twice |

## Left out

- The `go/ast` and `golang.org/x/tools/go/analysis` machinery is not modelled. That covers the `analysis.Pass`, the tree traversal and node delivery. Nodes are the `Ast.Expr` datatype, the sink is the `diagnostics` field, and every node kind the check does not tell apart is `Other`.
- The body of `isMagicNumber` is defined outside `checks/argument.go` and is not part of this model. It is the parameter `isMagic`.
- The text of `reportMsg` and the message formatting of `Reportf` are not part of this model. A diagnostic keeps the formatting arguments: the position, the raw value and the check id.
- Positions are abstract integers, not `token.Pos` values.
- `Argument.ArgumentAnalyzer.constructor` takes the magic-number predicate in place of the `*analysis.Pass` that `NewArgumentAnalyzer` receives.
- `NodeFilter` returns a list of node kinds, not typed nil pointers.
- Running several analyzers concurrently over different files is not modelled. Nothing in the check is concurrent.
