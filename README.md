# dmnemec/dag in Dafny

A model of the DAG builder in `structs.go`. The builder reads declarations of the form
`"name: p1, p2, ..."` in order and adds each node to a `DAG` object. A parent must already be
present when it is named. Once all declarations are in, the builder finds the "bisectors".
Three queries read the result: the ancestors of a node, the leaves, and the bisectors.

Modules:

- `Wrappers` (`wrappers.dfy`): `Option` and `Result`.
- `GoStrings` (`go_strings.dfy`): `strings.TrimSpace`, with `unicode.IsSpace`'s set of white-space
  characters, and `strings.Split`/`strings.Join` with a one-character separator.
  - Proved: split and join undo each other.
  - Proved: a trimmed string is the unique infix surrounded by white space that has no white space
    at either end.
- `DagModel` (`dag_model.dfy`): the value-level model.
  - Data: the node record, and `Store`, which holds the `nodes` map and the leaf names.
  - Functions: the declaration parser `ParseDecl`; `Link` and `Add`, the parent loop and one
    ingestion step (`addNode`); `Build`, the fold over all nodes with a stop at the first error
    (`NewDAG`'s loop); `Min` and the bisector score.
  - The lemmas say what these functions mean.
- `DagBuilder` (`dag_builder.dfy`): the imperative code.
  - `NewNode` builds the parent list in a loop.
  - `Dag` is a class with the fields `nodes`, `leaves`, `bisectors` and `bisectorMin`.
    - `AddNode` updates `nodes` and `leaves` in place.
    - `FindBisectors` is the loop with the running minimum. It visits the nodes in an arbitrary
      order, as Go's map iteration does.
    - `GetAncestors`, `GetLeaves` and `GetBisectors` are the three queries.
  - `NewDag` is the constructor.
  - Each method is proved against the functions of `DagModel`.
- `Quirks` (`quirks.dfy`): the code's behaviour where it departs from what its names suggest, on
  names `a`, `b` that have no white space at either end and no `:` or `,`.
- `Driver` (`driver.dfy`): the run in `main.go`. From `["A:", "B: A", "C: A", "D: B, C"]` it
  yields:
  - ancestors of C = {C};
  - leaves = {D};
  - bisectors = {A, B, C, D} with minimum 1.

The model follows the code where the names suggest something else:

- `addNode` writes `d.nodes[parent].ancestors[parent] = n` (`structs.go:72`). The key is the
  parent's own name, so every `ancestors` map keeps exactly one key: the node's own name. No
  transitive ancestor set is ever computed.
  - Consequently every node scores `min(1, N-1)`.
  - `findBisectors` then returns no bisectors and minimum 0 for N = 0.
  - It returns the single node and minimum 0 for N = 1.
  - It returns every node and minimum 1 for N ≥ 2 (`BisectorTable`).
- A node is stored before its parents are checked (`structs.go:62-63`), so `"a: a"` is accepted.
- A name declared twice replaces the earlier node. This happens even when the later step fails.
  - A parent declared again after being named becomes a leaf again.
  - So "leaves are the names never used as a parent" holds whenever no name is declared twice
    (`LeavesWhenDistinct`). A name declared again after some node names it as a parent breaks it
    (`Quirks.RedeclaredParentIsLeafAgain`).
- An empty parent piece is kept: `"a: "` has the parents `[""]`. Text after a second `:` is
  ignored.

## Model

| member | source | states |
|---|---|---|
| GoStrings.IsSpace | structs.go:45 | no contract of its own: the White_Space characters that `unicode.IsSpace` tests, which `strings.TrimSpace` cuts; TrimSpaceInfix and TrimSpaceUnique give its role |
| GoStrings.TrimSpace | structs.go:45 | the result is no longer than the input and has no white space (Unicode White_Space) at either end |
| GoStrings.TrimSpaceInfix | structs.go:45 | the trimmed string is an infix of the input with only white space before and after it |
| GoStrings.TrimSpaceUnique | structs.go:45 | any infix with only white space around it and none at its ends is the trimmed string, so the contract determines TrimSpace |
| GoStrings.Split | structs.go:44 | splitting always yields at least one piece |
| GoStrings.SplitPieces | structs.go:44 | no piece of a split contains the separator |
| GoStrings.JoinSplit | structs.go:44 | joining the pieces of a split with the separator gives back the original string |
| GoStrings.SplitJoin | structs.go:47 | splitting a join of separator-free pieces gives back exactly those pieces, so Split is the only such cut |
| GoStrings.JoinExcludes | structs.go:47 | a character that is neither the separator nor in any piece is not in the join |
| DagModel.ParseDecl | structs.go:42-55 | `newNode`: the node's ancestors map has the node's own name as its only key; the rest of its meaning is stated by ParseDeclFields and ParseDeclaration |
| DagModel.ParseAll | structs.go:30-31 | one parsed node per declaration; ParseAllFresh and ParseAllPrefix state the rest |
| DagModel.TrimEach | structs.go:48-50 | one entry per piece, in order, each the trimmed piece |
| DagModel.ParseDeclFields | structs.go:42-55 | the name is the trimmed text before the first ':'; there are no parents when there is no ':' or nothing follows it before the next ':'; otherwise one trimmed parent per comma piece of that text, in order, empty pieces kept; the ancestors map's only key is the node's own name |
| DagModel.ExtraFieldIgnored | structs.go:44-47 | in a declaration that already has a ':', anything appended after a further ':' does not change the parsed node |
| DagModel.ParseDeclaration | structs.go:42-55 | parsing the text "name: p1, p2, ..." written from a name and parents (no white space at their ends, no ':' or ',') gives back that name, those parents in order and the ancestors map {name: name} |
| DagModel.ParseNoParents | structs.go:44-46 | "name:" parses to a node without parents |
| DagModel.ParseOneParent | structs.go:44-50 | "name: p" parses to a node whose only parent is p |
| DagModel.ParseTwoParents | structs.go:44-50 | "name: p, q" parses to a node with parents p then q |
| DagModel.ParseAllFresh | structs.go:52-53 | every parsed node's ancestors map has its own name as the only key |
| DagModel.BuildSnoc | structs.go:30-36 | the unfolding of one step of `NewDAG`'s loop, for use by the other lemmas: one more node is added unless an earlier step failed, in which case nothing changes |
| DagModel.Link | structs.go:68-81 | the parent loop of `addNode`: it never adds or removes a node name and never adds a leaf; LinkShape and LinkNodes state where it stops and what it writes |
| DagModel.Add | structs.go:61-83 | `addNode`: the node names grow by exactly the new name and the leaves by at most the new name; AddStep states the rest |
| DagModel.Build | structs.go:30-36 | `NewDAG`'s loop: the leaves are always among the nodes; BuildSucceeds, BuildLeaves and BuildError state when it succeeds, what the leaves are and where it fails |
| DagModel.LinkShape | structs.go:68-81 | the parent loop stops at the first parent missing from the nodes, with an error naming the child and that parent, or at the end; the set of node names is unchanged; exactly the parents before the stop leave the leaves |
| DagModel.LinkNodes | structs.go:70-72 | on well-formed nodes each linked parent's ancestors map becomes {parent: child}, its key still the parent's own name; every other node is untouched; the nodes stay well formed |
| DagModel.LinkOne | structs.go:72 | linking one present parent keeps the nodes well formed and sets that parent's ancestors map to {parent: child} |
| DagModel.AddStep | structs.go:61-83 | the node is stored under its name and becomes a leaf before any parent is checked, replacing a same-name node even if the step fails; a node whose ancestors map is {name: name}, as `newNode` builds it, is stored unchanged; the step fails exactly when some parent is neither already present nor the node itself, naming the first such parent; the parents before it leave the leaves and get the ancestors map {parent: node}; every other node is unchanged; the graph stays consistent |
| DagModel.BuildSucceeds | structs.go:30-36 | building from parsed nodes succeeds exactly when each declaration names only parents declared before it or itself; then the nodes are exactly the declared names and the graph is consistent |
| DagModel.ParsedConsistent | structs.go:30-36 | a successful build from declarations leaves a consistent graph: nodes keyed by name, one ancestors key each, leaves among the nodes |
| DagModel.BuildLeaves | structs.go:30-36 | after a successful build a name is a leaf exactly when it is declared at a point after which no declaration names it as a parent |
| DagModel.LeavesWhenDistinct | structs.go:63 | with no name declared twice, the leaves are the declared names that no declaration lists as a parent |
| DagModel.BuildError | structs.go:30-35 | a failed build's error comes from the first declaration naming a parent not declared by then; all earlier declarations were fine; the error names that node and the first such parent |
| DagModel.BuildErrorSticks | structs.go:33-35 | once a prefix of the declarations has failed, the rest is never looked at: the result is the prefix's |
| DagModel.Min | structs.go:136-141 | the result is at most both arguments and equal to one of them |
| DagModel.Score | structs.go:123-126 | a node's score min(A, N - A) is at most half the node count; IsBisection and BisectorTable state what the scan makes of it |
| DagModel.ScanStep | structs.go:124-133 | one visited node keeps the scan's invariant: a lower score restarts the bisectors with that node, an equal score adds it, a higher one changes nothing |
| DagModel.ScanFromCount | structs.go:37-38 | a scan that starts from minimum N (the node count) with no bisectors ends with the least score (0 on an empty graph) and every node attaining it |
| DagModel.ScoreBelowCount | structs.go:125-126 | every score is below the node count, so starting at N the minimum always drops on a non-empty graph |
| DagModel.BisectionUnique | structs.go:124 | the minimum and the bisectors are determined by the nodes alone, whatever the map's iteration order |
| DagModel.BisectorTable | structs.go:122-134 | on well-formed nodes the bisectors are all the nodes, and the minimum is 1 when there are two or more nodes and 0 otherwise |
| DagBuilder.NewNode | structs.go:42-55 | the node built by the appending loop is the parse of the declaration |
| DagBuilder.AppendTrimmed | structs.go:48-50 | the list the loop appends to is every comma piece, trimmed, in order |
| DagBuilder.Dag.constructor | structs.go:26-29 | all maps start empty and the graph is consistent |
| DagBuilder.Dag.AddNode | structs.go:61-83 | the new nodes and leaves, and the error returned, are those of one ingestion step on the old ones; a consistent graph stays consistent when the node is freshly parsed |
| DagBuilder.Dag.FindBisectors | structs.go:122-134 | starting from any minimum and bisector set, the minimum ends at the least of the old one and all scores; if it dropped, the bisectors are exactly the nodes attaining it; otherwise the nodes scoring the old minimum are added |
| DagBuilder.Dag.AddDecls | structs.go:30-36 | parsing and adding the declarations in order on an empty graph leaves the state and error of the fold over them, stopping at the first error; the graph is consistent afterwards, even after an error |
| DagBuilder.Dag.ScanBisectors | structs.go:37-38 | the minimum ends as the least score and the bisectors as every node attaining it |
| DagBuilder.Dag.GetAncestors | structs.go:87-98 | fails with NodeNotFound exactly when the name is not a node; otherwise gives the key set of that node's ancestors map, which in a consistent graph is just the name |
| DagBuilder.Dag.GetLeaves | structs.go:101-109 | the leaf names, all of them nodes in a consistent graph |
| DagBuilder.Dag.GetBisectors | structs.go:112-120 | the bisector names, all of them nodes once the scan has run |
| DagBuilder.NewDag | structs.go:25-40 | fails exactly when the fold over the parsed declarations fails, with its error; otherwise a new consistent graph with the fold's nodes and leaves, the least score as minimum and every node attaining it as bisectors |
| Quirks.SelfParentAccepted | structs.go:62-72 | "a: a" is accepted: one node a, and no leaves |
| Quirks.MissingParentRejected | structs.go:68-76 | "b: a" on its own fails with the error naming b and a |
| Quirks.RedeclaredParses | structs.go:42-55 | "a:", "b: a", "a:" parse to a without parents, b with parent a, and a again |
| Quirks.EmptyPieceKept | structs.go:46-50 | "a: " has the parents [""] |
| Quirks.RedeclaredParentIsLeafAgain | structs.go:62-63 | after "a:", "b: a", "a:" the build succeeds; a's node is the fresh one; b still lists a as a parent; both a and b are leaves |
| Driver.ExampleParses | main.go:6 | the four declarations parse to A with no parents, B and C with parent A, D with parents B, C |
| Driver.ExampleNames | main.go:6 | the names are A, B, C, D, all distinct; A, B, C are named as parents; only D is not |
| Driver.ExampleBuild | main.go:7 | adding the four nodes succeeds with nodes A, B, C, D and the single leaf D |
| Driver.ExampleOutcome | main.go:7 | building from the four declarations succeeds with nodes A, B, C, D and leaves {D} |
| Driver.ExampleBisection | main.go:13 | with these four well-formed nodes the bisectors are all four, with minimum 1 |
| Driver.RunExample | main.go:6-13 | the ancestors of C are {C}, the leaves {D}, the bisectors {A, B, C, D} with minimum 1 |

## Left out

- Pointer identity of `*Node` values. `nodes` maps a name to the node's data, and `leaves` and
  `bisectors` are sets of names. An `ancestors` entry holds the name of the node the Go pointer
  points to. The model does not capture aliasing through those pointers: for example, the old
  node object that a redeclared name leaves behind in a map is not modelled.
- The strings the queries return. `GetAncestors`, `GetLeaves` and `GetBisectors` return sets.
  - The prefixes "Ancestors of ...", "Leaves: " and "Bisectors: " are not modelled.
  - `strings.Join` is not modelled.
  - The key order of Go's map iteration is not modelled.
- The text of the `fmt.Errorf` messages. Errors are values that carry the child and parent names
  (`UnknownParent`) or the queried name (`NodeNotFound`).
- Bytes and invalid UTF-8. Strings are sequences of Unicode scalar values, so `strings.Split` on
  `":"` and `","` and `strings.TrimSpace` are modelled on characters.
- `getName`: a field read, written as `.name`.
- The printing in `main.go`, including how it prints an error. On an error, `main.go` would go on
  and use a nil DAG. The driver models only the successful run its input leads to.
- DagBuilder.Dag.FindBisectors: requires that every node be stored under its own name. `addNode`
  keeps that true in every DAG it builds. Without it, the loop's uses of `v.getName()` and of the
  map key would have to be told apart.
- DagBuilder.Dag.AddDecls, DagBuilder.Dag.ScanBisectors: `NewDAG`'s loop and its final scan are
  separate methods that `NewDag` calls in turn.
- DagBuilder.Dag.GetLeaves, DagBuilder.Dag.GetBisectors: their contracts only say that the names
  are nodes. What the names are is stated by `BuildLeaves`, `LeavesWhenDistinct` and
  `IsBisection` (through `NewDag`).
