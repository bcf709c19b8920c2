# smart-docs code analyzer — a Dafny model

This project models the core of `analyze_file` in the smart-docs analyzer.
The analyzer runs a tree-sitter query over a source file. It turns the
query's captures into a per-file summary with these parts:

- its definitions ("containers": functions, methods, classes, structs and so on);
- for each function and method, a cyclomatic-complexity estimate;
- the calls made inside each function or method;
- the bases each class extends;
- the imports.

The model follows the program's four steps, one module each:

- **Complexity** (`complexity.dfy`, with `syntax_tree.dfy`).
  `calculate_complexity` walks a node's subtree with a tree-sitter cursor.
  It counts the nodes whose type is a branch type and whose name also
  contains "statement" or "clause". The cursor is the class
  `SyntaxTree.TreeCursor`, and the walk is the loop of the method
  `Complexity.CalculateComplexity`. The method is proved to return
  `Score(node)`, which is 1 plus a recursive count. The nodes it tests are
  proved to be every node of the subtree, each exactly once, in post-order.
- **Captures** (`captures.dfy`, with `text.dfy`). The capture loop sorts each
  `(node, tag)` pair by its tag's prefix (`startswith`) into one of four
  groups:
  - a container, whose kind is the second dot-separated segment of the tag;
  - a call reference;
  - an inheritance reference;
  - an import.

  A pair whose tag has none of the four prefixes, such as a bare `name` tag,
  is skipped.

  `Captures.Collect` is the loop, proved equal to the recursive
  `Captures.Extract`.
- **Attribution** (`attribution.dfy`). Each inheritance reference goes to the
  first class, in capture order, whose lines contain it. Each call goes to
  the function or method of least span that contains it, and a tie goes to
  the earliest. References with no target are dropped. The two passes update
  an `array` of containers in place. Each is proved against a per-container
  specification (`ExtendsFor`, `CallsFor`), and the choice of target is
  characterised by lemmas.
- **Shaping** (`shaping.dfy`). This step lists each container's call set:
  - more than 50 calls are cut to 50, followed by `"...truncated..."`;
  - classes, structs and interfaces go to `classes`, everything else to
    `functions`;
  - the imports are cut to 100.

  `Shaping.Analyze` chains the steps from the captures to the report.

`scenario.dfy` works one small file through the whole pipeline:

- a class `Repo`;
- a method `load` that contains an `if` and a call to `helper`;
- a function `helper`.

The tree-sitter parse and the query are not modelled. Their output, the list
of captures, is the input of the model. Each capture carries the captured
node's subtree, so the complexity walk has the tree it needs. The file name,
the language name and the line count are passed to `Shaping.Analyze` as
parameters.

## Model

| member | source | states |
|---|---|---|
| SyntaxTree.TreeCursor.constructor | skills/smart-docs-Gemini/smart-docs/tools/analyze_code.py:32 | `node.walk()` gives a cursor on the node itself, confined to its subtree |
| SyntaxTree.TreeCursor.GotoFirstChild | skills/smart-docs-Gemini/smart-docs/tools/analyze_code.py:49 | moves to the first child exactly when the current node has children; otherwise the cursor stays put |
| SyntaxTree.TreeCursor.GotoNextSibling | skills/smart-docs-Gemini/smart-docs/tools/analyze_code.py:42 | moves to the next sibling exactly when there is one below the cursor's root; at the root it fails and the cursor stays put |
| SyntaxTree.TreeCursor.GotoParent | skills/smart-docs-Gemini/smart-docs/tools/analyze_code.py:44 | moves to the parent exactly when the cursor is below its root; at the root it fails |
| SyntaxTree.StartStep | skills/smart-docs-Gemini/smart-docs/tools/analyze_code.py:32-33 | the walk starts at the root having tested nothing |
| SyntaxTree.FirstChildStep | skills/smart-docs-Gemini/smart-docs/tools/analyze_code.py:48-52 | descending to a first child tests nothing; a leaf is next left with nothing new tested |
| SyntaxTree.NextSiblingStep | skills/smart-docs-Gemini/smart-docs/tools/analyze_code.py:42-43 | after a node is tested and left, moving to its next sibling leaves exactly that node newly tested |
| SyntaxTree.ParentStep | skills/smart-docs-Gemini/smart-docs/tools/analyze_code.py:44-45 | after the last child is tested, returning to the parent leaves the parent's whole subtree tested except the parent |
| SyntaxTree.RootStep | skills/smart-docs-Gemini/smart-docs/tools/analyze_code.py:46-47 | when the walk stops at the root, the nodes tested are the full post-order of the tree |
| SyntaxTree.PostOrderEnumerates | skills/smart-docs-Gemini/smart-docs/tools/analyze_code.py:32-53 | the order in which the walk tests nodes holds every node of the subtree exactly once, and each node comes after all of its descendants |
| Complexity.CalculateComplexity | skills/smart-docs-Gemini/smart-docs/tools/analyze_code.py:19-53 | the cursor loop returns `Score(node)`, which is 1 plus the number of counted nodes in the subtree, and the nodes it tests are the subtree's post-order |
| Complexity.TallyWalk | skills/smart-docs-Gemini/smart-docs/tools/analyze_code.py:34-40 | counting the matches along the walk's order gives the recursive count over the tree |
| Complexity.IncrementsExactly | skills/smart-docs-Gemini/smart-docs/tools/analyze_code.py:26-30 | a node adds one exactly when its type is one of the five statement or clause types of `branch_types`: `if_statement`, `for_statement`, `while_statement`, `case_statement` and `catch_clause`; the conditional, binary and boolean expressions are listed but never pass the substring test |
| Complexity.NoCountedNodeScoresOne | skills/smart-docs-Gemini/smart-docs/tools/analyze_code.py:24 | a subtree with no counted node scores the base value 1 |
| Complexity.AddChildAddsItsBranches | skills/smart-docs-Gemini/smart-docs/tools/analyze_code.py:34-40 | adding a child subtree adds exactly that subtree's counted nodes to the score |
| Complexity.CountedLeafAddsOne | skills/smart-docs-Gemini/smart-docs/tools/analyze_code.py:36-40 | one more counted leaf raises the score by one |
| Complexity.CountedLeavesAddN | skills/smart-docs-Gemini/smart-docs/tools/analyze_code.py:36-40 | n more counted leaves raise the score by n |
| Complexity.GraftAddsItsBranches | skills/smart-docs-Gemini/smart-docs/tools/analyze_code.py:32-53 | adding a subtree below any node of the tree, at any valid path, raises the score by exactly that subtree's counted nodes |
| Complexity.CountedLeafAnywhereAddsOne | skills/smart-docs-Gemini/smart-docs/tools/analyze_code.py:36-40 | a counted leaf added below any node raises the score by one |
| Complexity.ExpressionsNeverCount | skills/smart-docs-Gemini/smart-docs/tools/analyze_code.py:37-39 | a subtree made only of conditional, binary and boolean expressions leaves the score unchanged |
| Complexity.ExpressionWrapperNeutral | skills/smart-docs-Gemini/smart-docs/tools/analyze_code.py:36-40 | wrapping any subtree in a conditional, binary or boolean expression node leaves its score unchanged |
| Text.IndexOf | skills/smart-docs-Gemini/smart-docs/tools/analyze_code.py:85 | the first position of a character: none exactly when the character is absent, otherwise a position holding it with no earlier occurrence |
| Text.SecondSegment | skills/smart-docs-Gemini/smart-docs/tools/analyze_code.py:85 | `split(".")[1]` exists exactly when the tag contains a dot, and it contains no dot |
| Text.SecondSegmentOf | skills/smart-docs-Gemini/smart-docs/tools/analyze_code.py:85 | for `head.kind`, or `head.kind` followed by further segments, the second segment is `kind` |
| Captures.Collect | skills/smart-docs-Gemini/smart-docs/tools/analyze_code.py:74-106 | the capture loop returns `Extract` of the captures, and a definition tag without a kind fails the whole file |
| Captures.CollectOne | skills/smart-docs-Gemini/smart-docs/tools/analyze_code.py:80-106 | one iteration adds exactly what `Collected` says for the capture's category |
| Captures.OpenContainer | skills/smart-docs-Gemini/smart-docs/tools/analyze_code.py:86-100 | the container a definition opens is `NewContainer`: the cursor walk's complexity for functions and methods, 0 for every other kind |
| Captures.FailureStops | skills/smart-docs-Gemini/smart-docs/tools/analyze_code.py:85 | once a prefix of the captures fails, the whole extraction fails with that same error |
| Captures.ExtractAppend | skills/smart-docs-Gemini/smart-docs/tools/analyze_code.py:79-106 | extracting `a + b` joins the two extractions in order, and the first failure wins |
| Captures.CollectedJoin | skills/smart-docs-Gemini/smart-docs/tools/analyze_code.py:79-106 | what one capture adds does not depend on what was collected before it |
| Captures.SingleCapture | skills/smart-docs-Gemini/smart-docs/tools/analyze_code.py:79-106 | a single capture contributes exactly its `Collected` step |
| Captures.ClassifyDefinition | skills/smart-docs-Gemini/smart-docs/tools/analyze_code.py:84-85 | a tag `definition.kind` is a definition of kind `kind` |
| Captures.DefinitionCapture | skills/smart-docs-Gemini/smart-docs/tools/analyze_code.py:81-100 | a definition capture opens one container: the node's text as name, its rows plus one as lines, the complexity estimate for functions and methods and 0 for all other kinds, and no calls or bases |
| Captures.OneContainer | skills/smart-docs-Gemini/smart-docs/tools/analyze_code.py:84-100 | a definition capture yields exactly the container `NewContainer` and nothing else |
| Captures.CallCapture | skills/smart-docs-Gemini/smart-docs/tools/analyze_code.py:101-102 | a `reference.call` capture yields just a call reference: the node's text at its 1-based start line |
| Captures.ExtendsCapture | skills/smart-docs-Gemini/smart-docs/tools/analyze_code.py:103-104 | a `reference.extends` capture yields just an inheritance reference: the node's text at its 1-based start line |
| Captures.ImportCapture | skills/smart-docs-Gemini/smart-docs/tools/analyze_code.py:105-106 | a `reference.import` capture yields just the import text |
| Captures.MalformedCapture | skills/smart-docs-Gemini/smart-docs/tools/analyze_code.py:84-85 | a tag that starts with `definition` but has no dot fails with `MissingKind` |
| Captures.UnusedCapture | skills/smart-docs-Gemini/smart-docs/tools/analyze_code.py:84-106 | a capture whose tag starts with none of `definition`, `reference.call`, `reference.extends` and `reference.import` adds nothing: the `if/elif` chain has no `else` |
| Attribution.ExtendsTarget | skills/smart-docs-Gemini/smart-docs/tools/analyze_code.py:110-114 | the target class of an inheritance reference, when there is one, is a container index |
| Attribution.CallTarget | skills/smart-docs-Gemini/smart-docs/tools/analyze_code.py:117-126 | the target of a call, when there is one, is a container index |
| Attribution.ExtendsTargetFirst | skills/smart-docs-Gemini/smart-docs/tools/analyze_code.py:110-114 | there is no target exactly when no class contains the line; otherwise the target is a class containing the line and no earlier class does |
| Attribution.CallTargetLeastSpan | skills/smart-docs-Gemini/smart-docs/tools/analyze_code.py:118-126 | there is no target exactly when no function or method contains the line; otherwise the target contains it, no containing candidate spans less, and every earlier containing candidate spans strictly more |
| Attribution.CallTargetStep | skills/smart-docs-Gemini/smart-docs/tools/analyze_code.py:120-126 | one more container replaces the target only if it is a containing candidate whose span is strictly below the current minimum, with none treated as infinite |
| Attribution.ExtendsTargetUnique | skills/smart-docs-Gemini/smart-docs/tools/analyze_code.py:110-114 | the first containing class is the target |
| Attribution.CallTargetUnique | skills/smart-docs-Gemini/smart-docs/tools/analyze_code.py:120-126 | the earliest containing candidate of least span is the target |
| Attribution.ExtendsTargetShape | skills/smart-docs-Gemini/smart-docs/tools/analyze_code.py:109-114 | the target depends only on kinds and lines, so updating bases or calls in place does not change later targets |
| Attribution.CallTargetShape | skills/smart-docs-Gemini/smart-docs/tools/analyze_code.py:117-126 | the target depends only on kinds and lines, so the extends pass does not change call targets |
| Attribution.ExtendsForMembers | skills/smart-docs-Gemini/smart-docs/tools/analyze_code.py:109-114 | a name is among a container's new bases exactly when some inheritance reference with that name targets it |
| Attribution.ExtendsForSound | skills/smart-docs-Gemini/smart-docs/tools/analyze_code.py:113 | every new base of a container comes from a reference that targets it |
| Attribution.ExtendsForComplete | skills/smart-docs-Gemini/smart-docs/tools/analyze_code.py:113 | every reference that targets a container adds its name to that container's bases |
| Attribution.CallsForMembers | skills/smart-docs-Gemini/smart-docs/tools/analyze_code.py:117-128 | a name is among a container's new calls exactly when some call with that name targets it |
| Attribution.CallsForSound | skills/smart-docs-Gemini/smart-docs/tools/analyze_code.py:127-128 | every new call of a container comes from a call that targets it |
| Attribution.CallsForComplete | skills/smart-docs-Gemini/smart-docs/tools/analyze_code.py:127-128 | every call that targets a container adds its name to that container's calls |
| Attribution.OnlyClassesExtend | skills/smart-docs-Gemini/smart-docs/tools/analyze_code.py:111 | a container that is not a class gains no bases |
| Attribution.OnlyCallablesCall | skills/smart-docs-Gemini/smart-docs/tools/analyze_code.py:121 | a container that is not a function or method gains no calls |
| Attribution.ExtendsConserved | skills/smart-docs-Gemini/smart-docs/tools/analyze_code.py:109-114 | the number of references delivered across all containers equals the number that have a target: each goes to exactly one container |
| Attribution.ExtendsForStep | skills/smart-docs-Gemini/smart-docs/tools/analyze_code.py:109-114 | one more reference appends its name to a container's bases exactly when that container is its target |
| Attribution.CallsForStep | skills/smart-docs-Gemini/smart-docs/tools/analyze_code.py:117-128 | one more call adds its name to a container's calls exactly when that container is its target |
| Attribution.ExtendsApply | skills/smart-docs-Gemini/smart-docs/tools/analyze_code.py:113 | updating the target's record in place keeps the running array equal to the specification |
| Attribution.CallsApply | skills/smart-docs-Gemini/smart-docs/tools/analyze_code.py:127-128 | updating the target's record in place keeps the running array equal to the specification |
| Attribution.AttributeExtends | skills/smart-docs-Gemini/smart-docs/tools/analyze_code.py:109-114 | after the pass, each container is its old self with the names of the references that target it appended to its bases, in reference order |
| Attribution.FindExtendsTarget | skills/smart-docs-Gemini/smart-docs/tools/analyze_code.py:110-114 | the inner loop with its `break` finds `ExtendsTarget` |
| Attribution.FindCallTarget | skills/smart-docs-Gemini/smart-docs/tools/analyze_code.py:118-126 | the inner loop with `min_len` finds `CallTarget` |
| Attribution.AttributeCalls | skills/smart-docs-Gemini/smart-docs/tools/analyze_code.py:117-128 | after the pass, each container is its old self with the names of the calls that target it added to its call set |
| Attribution.ExtendsForShape | skills/smart-docs-Gemini/smart-docs/tools/analyze_code.py:109-114 | what a container receives depends only on kinds and lines |
| Attribution.CallsForShape | skills/smart-docs-Gemini/smart-docs/tools/analyze_code.py:117-128 | the calls pass, run after the extends pass, gives what it would give on the captured containers |
| Attribution.DroppedCall | skills/smart-docs-Gemini/smart-docs/tools/analyze_code.py:127 | a call that no function or method contains changes no container |
| Attribution.DroppedExtends | skills/smart-docs-Gemini/smart-docs/tools/analyze_code.py:111-112 | an inheritance reference that no class contains changes no container |
| Attribution.InvertedNeverReceives | skills/smart-docs-Gemini/smart-docs/tools/analyze_code.py:109-128 | a container whose start line is after its end line encloses no line, so it receives no calls and no bases |
| Attribution.NestedClassesFirstMatch | skills/smart-docs-Gemini/smart-docs/tools/analyze_code.py:110-114 | with a class nested in another, a reference inside both goes to whichever comes first in capture order, not to the innermost |
| Attribution.NestedFunctionsLeastSpan | skills/smart-docs-Gemini/smart-docs/tools/analyze_code.py:120-126 | with a function nested in another, a call inside the inner one goes to the inner one in either order, and a call outside it goes to the outer one |
| Attribution.EqualSpansFirstWins | skills/smart-docs-Gemini/smart-docs/tools/analyze_code.py:124 | between two candidates of equal span, the strict comparison gives the call to the first |
| Attribution.Attributed | skills/smart-docs-Gemini/smart-docs/tools/analyze_code.py:108-128 | the reference definition of both passes: each container keeps its fields and gets its bases extended by `ExtendsFor`, the names of the inheritance references that target it in reference order, and its calls joined with `CallsFor`, the names of the calls that target it; the number of containers is unchanged |
| Shaping.ListOf | skills/smart-docs-Gemini/smart-docs/tools/analyze_code.py:135 | `list(set)` lists each member of the set exactly once |
| Shaping.Capped | skills/smart-docs-Gemini/smart-docs/tools/analyze_code.py:136-137 | up to 50 calls are kept as they are; more are cut to their first 50 followed by `"...truncated..."` |
| Shaping.CappedBounds | skills/smart-docs-Gemini/smart-docs/tools/analyze_code.py:136-137 | at most 51 names come out, each either an original call or the marker, and, when no call is itself the marker, the marker appears exactly when there were more than 50 calls |
| Shaping.SixtyCallsGiveFiftyOne | skills/smart-docs-Gemini/smart-docs/tools/analyze_code.py:135-137 | a container with 60 distinct calls lists 50 of them and then the marker |
| Shaping.RenderAll | skills/smart-docs-Gemini/smart-docs/tools/analyze_code.py:134-138 | the reference rendering: each container becomes `Rendered` with its listing of calls capped by `Capped`, all other fields unchanged, one entry per container in order |
| Shaping.ClassesFunctionsPartition | skills/smart-docs-Gemini/smart-docs/tools/analyze_code.py:140-143 | classes and functions together are exactly the entries, as a multiset |
| Shaping.SortedMultiset | skills/smart-docs-Gemini/smart-docs/tools/analyze_code.py:140-143 | each entry lands in exactly one of the two lists |
| Shaping.SortOne | skills/smart-docs-Gemini/smart-docs/tools/analyze_code.py:140-143 | one more entry goes to the end of `classes` if it is a class, struct or interface, and to the end of `functions` otherwise |
| Shaping.ClassesMembers | skills/smart-docs-Gemini/smart-docs/tools/analyze_code.py:140-143 | an entry is among the classes exactly when it is an entry of class, struct or interface kind, and among the functions exactly when it is an entry of any other kind |
| Shaping.ClassesAppend | skills/smart-docs-Gemini/smart-docs/tools/analyze_code.py:134-143 | sorting keeps capture order: sorting a concatenation concatenates the sorted parts |
| Shaping.CappedImports | skills/smart-docs-Gemini/smart-docs/tools/analyze_code.py:149 | the first `min(n, 100)` imports, in order |
| Shaping.Format | skills/smart-docs-Gemini/smart-docs/tools/analyze_code.py:131-143 | the formatting loop also returns the listing of each container's call set it used, each member once; classes and functions are the containers rendered with those listings capped, sorted by kind in capture order |
| Shaping.RenderAllSnoc | skills/smart-docs-Gemini/smart-docs/tools/analyze_code.py:134-138 | rendering one more container appends its entry |
| Shaping.BothPasses | skills/smart-docs-Gemini/smart-docs/tools/analyze_code.py:108-128 | running the extends pass and then the calls pass gives `Attributed` of what was collected |
| Shaping.Analyze | skills/smart-docs-Gemini/smart-docs/tools/analyze_code.py:74-154 | the whole pipeline fails exactly when extraction fails, with that error; otherwise it returns the report built from the attributed containers, listed by the returned listings, and the capped imports |
| Scenario.MethodScoresTwo | skills/smart-docs-Gemini/smart-docs/tools/analyze_code.py:24-40 | a method whose body holds one `if_statement` scores 2 |
| Scenario.FunctionScoresOne | skills/smart-docs-Gemini/smart-docs/tools/analyze_code.py:24 | a function with no branches scores 1 |
| Scenario.ScenarioExtract | skills/smart-docs-Gemini/smart-docs/tools/analyze_code.py:79-106 | the four captures of the sample file give the class, the method and the function, and one call at line 3 |
| Scenario.AttributedThree | skills/smart-docs-Gemini/smart-docs/tools/analyze_code.py:117-128 | the call inside the method goes to the method alone |
| Scenario.SortedThree | skills/smart-docs-Gemini/smart-docs/tools/analyze_code.py:140-143 | the class goes to `classes`, and the method and the function stay in order in `functions` |
| Scenario.ScenarioReport | skills/smart-docs-Gemini/smart-docs/tools/analyze_code.py:74-154 | for the sample file, extraction succeeds and the listings fit its containers; the report holds class `Repo` with complexity 0, then method `load` with complexity 2 calling `helper`, then function `helper` with complexity 1 |

## Left out

- File handling is not modelled. This covers the extension-to-language table
  (lines 6-11 and 56-58), loading the query file (lines 13-17), reading and
  parsing the file, and the error reports of lines 58, 67 and 71-72. The
  captures are the model's input, and file, language and line count are
  parameters.
- The tree-sitter parser, query engine and `node.text` decoding are not
  modelled. A capture holds the node's type tree, its text as a string and
  its rows; decoding with `errors="ignore"` is outside the model.
- `json.dumps` and the command-line entry point (lines 145-158) are not
  modelled. The report is the `Shaping.Report` value that would be
  serialised.
- `float("inf")` as the starting `min_len` is modelled as `None`, meaning no
  candidate yet. Every finite span is below it, which is how the source uses
  it.
- A `definition` tag without a dot makes `tag.split(".")[1]` raise outside the
  `try`, so the program stops. The model returns `Failure(MissingKind(tag))`
  for the whole file instead.
- Containers are Python dicts that are changed in place. The model keeps them
  as records in an `array<Container>` that the passes overwrite one slot at a
  time. No two slots share a record, which matches the source: each dict is
  created once and appended once. `Format` builds new `Entry` values rather
  than overwriting the `calls` field of the dict.
- Shaping.ListOf: the order in which `list()` lists a set is left open. The
  model lists each member exactly once, in an unspecified order. Python's
  hash order is not modelled.
- Shaping.Format: its `calls` lists are capped listings of the call sets in an
  unspecified order. It also returns the listings it used, which the source
  does not, so that its contract can name them.
- Shaping.Analyze: the report is fixed up to the order of each call list. It
  returns the listings as `Shaping.Format` does.
- Attribution.ExtendsTarget: its own `ensures` states only that the target is
  an index. The first-enclosing-class property is the lemma
  `Attribution.ExtendsTargetFirst`.
- Attribution.CallTarget: its own `ensures` states only that the target is an
  index. The least-span, earliest-on-ties property is the lemma
  `Attribution.CallTargetLeastSpan`.
