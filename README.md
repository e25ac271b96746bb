# Binary-tree validator: a verified model

The program reads one line of parent/child pairs such as `(A,B) (A,C) (B,G)`, separated by single spaces.
From those pairs it builds a binary tree and prints it as a nested S-expression, e.g. `(A(B(G))(C))`.
If the input is not a valid tree, it prints the code of the most severe error instead:

| code | error |
|---|---|
| E1 | invalid input |
| E2 | duplicate pair |
| E3 | more than two children |
| E4 | cycle, or a child given a second parent |
| E5 | several roots |

This project models that program in Dafny:

- **ErrorReporting** (`Errors.dfy`) models the error levels, their codes and the reporter.
  - The reporter keeps the most severe level reported so far.
  - Reporting an invalid input aborts the run with `E1`. That abort is the exception the source throws.
- **Parsing** (`Parsing.dfy`) models the input check, the split on spaces and the per-token extraction.
  - A token is accepted when it contains a `(U,U)` window anywhere, where each `U` is an upper-case letter.
  - The values are then read at positions 1 and 3 of the token, as the source does.
- **Forest** and **TreeBuilder** (`Forest.dfy`, `TreeBuilder.dfy`) model the node registry as a value.
  - The registry is a set of registered characters plus three maps: parent, left child and right child.
  - Each step of adding a pair is a function: registering the parent, the reparenting guard, the cycle walk on the tentative link, filling and ordering the slots, registering the child.
  - Invariants preserved by every pair:
    - the maps stay inside the registry;
    - the parent links are acyclic;
    - the slots agree with the parent links and stay lexicographically ordered.
- **Serializer** (`Serializer.dfy`) models the recursive `Wrap`.
  - It proves the length of the output, its balance, and a read-back parser that recovers the tree's shape.
- **Validation** (`Validation.dfy`) composes these into the output of one run.
  - Its lemmas state what the output is for every input: `E1` exactly for malformed input, the code of the most severe report otherwise when any was made, and the serialization of the single root when none was.
- **GraphModel** (`GraphModel.dfy`) is the `Graph` class with the fields and methods the source gives it, running the corrected program: `Build` rejects with E1 every token that is not exactly five characters long (see "## Findings").
  - Its fields are updated in place through the same private methods, with a shared `ErrorsReporter`.
  - `Build` uses the corrected token check from "## Findings".
  - `GuardAgainstDeathLoop` and `IsRootDetermined` are loops.
  - Each method is proved to produce exactly the state and error level given by the functions above. `Build` is proved to return the output those functions define.
- **Scenarios** (`Scenarios.dfy`) proves the output for concrete input lines: one per error code, plus a successful run.

The code has these quirks, and the model keeps them:

- A pair rejected by `ConnectNodes` still registers its parent if that parent was new.
- A rejected third child still receives its parent link and is registered, but it sits in no slot of that parent.
- A pair whose child already sits in one of the parent's slots reports both `DuplicatePair` and `CycleDetected`, and on its own that gives `E2`, because `E2` is more severe. A repeated pair does not always end in `E2`: after `(A,B) (C,B)` the child `B` sits under `A`, so a second `(C,B)` is only a reparenting (`E4`), and after `(A,B) (A,C) (A,D)` the child `D` is in no slot, so a second `(A,D)` reports `TooManyChildren` (`E3`).
- A token such as `x)(A,B)` is accepted, and its values are `)` and `A`. See "## Findings".

## Model

| member | source | states |
|---|---|---|
| ErrorReporting.Code | GraphValidator.cs:84-91 | the code of an error is two characters, `E` followed by the digit of its numeric level |
| ErrorReporting.CodeIdentifiesError | GraphValidator.cs:84-91 | distinct errors have distinct codes, so the printed code identifies the error |
| ErrorReporting.Record | GraphValidator.cs:103-107 | reporting keeps either the current level or the new one, whichever is more severe (lower) |
| ErrorReporting.RecordAllIsMostSevere | GraphValidator.cs:95-108 | after a run of reports the level is the initial level or one of the reports, and it is at least as severe as every report |
| ErrorReporting.RecordAllOrderIndependent | GraphValidator.cs:103-107 | the final level does not depend on the order in which errors were reported |
| ErrorReporting.RecordAllKeepsSeverity | GraphValidator.cs:103-107 | once a real error is reported, the level never returns to NoErrors or to a less severe error |
| ErrorReporting.RecordAllAppend | GraphValidator.cs:95-108 | reporting two runs one after the other is the same as reporting their concatenation |
| ErrorReporting.ErrorsReporter.constructor | GraphValidator.cs:93 | a new reporter starts at NoErrors |
| ErrorReporting.ErrorsReporter.Report | GraphValidator.cs:95-108 | InvalidInput aborts with E1 and leaves the level unchanged; any other error lowers the level to it when it is more severe |
| ErrorReporting.ErrorsReporter.ErrorsOccurred | GraphValidator.cs:110-122 | reports an error exactly when the level is not NoErrors, and then returns that level's code; otherwise returns the empty string |
| Parsing.ExtractValues | GraphValidator.cs:47-65 | a token is accepted exactly when it contains a `(U,U)` window of upper-case letters; the values are the token's characters 1 and 3; a rejected token gives InvalidInput |
| Parsing.ExtractFormat | GraphValidator.cs:47-65 | extracting from the text `(p,c)` of two upper-case letters gives back `(p, c)` |
| Parsing.ExtractAll | GraphValidator.cs:25-37 | the line's pairs are accepted exactly when every token is; then there is one pair per token, in order, with that token's characters 1 and 3 |
| Parsing.Split | GraphValidator.cs:39-42 | splitting on spaces gives at least one token and no token contains a space |
| Parsing.JoinSplit | GraphValidator.cs:39-42 | joining the tokens with single spaces gives back the line |
| Parsing.SplitJoin | GraphValidator.cs:39-42 | splitting a space-joined sequence of space-free tokens gives back the tokens |
| Parsing.ParseInput | GraphValidator.cs:152-155 | a parse failure is always InvalidInput; a successful parse gives one pair per token |
| Parsing.ParseInputFailsIffMalformed | GraphValidator.cs:189-195 | parsing fails exactly when the line is empty, starts or ends with a space, or has a blank token or a token without a `(U,U)` window |
| Parsing.ExtractValuesExact | GraphValidator.cs:55-62 | corrected extraction: accepts exactly a five-character token of the form `(U,U)` and returns its two letters |
| Parsing.ExactAgreesOnFiveCharacters | GraphValidator.cs:16 | on five-character tokens the unanchored and the exact extraction agree |
| Parsing.UnanchoredTokenYieldsBracket | GraphValidator.cs:61-62 | the token `x)(A,B)` is accepted by the source's extraction with values `)` and `A`, and rejected by the exact one |
| Forest.EmptyIsValid | GraphValidator.cs:158 | the freshly created register satisfies every registry invariant |
| Forest.TheRoot | GraphValidator.cs:336-345 | with at most one parentless node, the root found is that node, or none when there is none |
| Forest.RootExists | GraphValidator.cs:331-355 | a non-empty acyclic register always has a parentless node, so IsRootDetermined never finds zero roots for a non-empty register |
| Forest.SingleRootIsAncestorOfAll | GraphValidator.cs:331-355 | when exactly one node is parentless, it is an ancestor of every registered node |
| TreeBuilder.ClosesCycleIffAncestor | GraphValidator.cs:218-235 | the walk up from the parent on the tentatively linked map meets the child exactly when the child is already an ancestor of the parent, or is the parent |
| TreeBuilder.AttachKeepsAcyclic | GraphValidator.cs:295-302 | attaching a parentless child under a parent it does not dominate keeps the parent links acyclic |
| TreeBuilder.AttachKeepsValid | GraphValidator.cs:303-325 | filling the first empty slot, ordering the slots and registering the child keeps every registry invariant |
| TreeBuilder.AttachFillsRight | GraphValidator.cs:306-321 | a second child goes to the right slot and the two children are swapped when needed: the parent's slots then hold exactly the old left child and the new child, left stays below right, and both point back to the parent |
| TreeBuilder.FullParentReports | GraphValidator.cs:251-256 | a parent with both slots taken, offered a child that has no parent yet, reports TooManyChildren |
| TreeBuilder.AttachKeepsSlotted | GraphValidator.cs:306-313 | attaching to a node with a free slot puts the child in a slot, so every child stays in its parent's slots |
| TreeBuilder.RegisterParentKeepsValid | GraphValidator.cs:240-270 | registering the parent keeps the invariants, puts the parent in the register and changes no link or slot |
| TreeBuilder.AddPairKeepsValid | GraphValidator.cs:161-165 | adding one pair keeps the registry invariants (closed maps, acyclic links, consistent ordered slots) |
| TreeBuilder.AddPairsKeepsValid | GraphValidator.cs:161-165 | adding a whole sequence of pairs keeps the registry invariants |
| TreeBuilder.ReparentingRejected | GraphValidator.cs:200-213 | a pair whose child already has a parent reports CycleDetected and changes no link or slot; only a new parent is registered |
| TreeBuilder.CycleRejected | GraphValidator.cs:295-302 | a pair whose child is an ancestor of (or equal to) the parent reports CycleDetected, and the link is reverted |
| TreeBuilder.SelfPairRejected | GraphValidator.cs:218-235 | a pair `(A,A)` reports CycleDetected and changes no link or slot |
| TreeBuilder.DuplicateBeforeTooMany | GraphValidator.cs:243-259 | a pair whose child already sits in one of the parent's slots reports DuplicatePair then CycleDetected, leaves the registry unchanged, and is recorded as DuplicatePair |
| TreeBuilder.ThirdChildRejected | GraphValidator.cs:251-256 | a third distinct child of a full parent reports TooManyChildren first and changes neither slot |
| TreeBuilder.ChildrenKept | GraphValidator.cs:306-321 | adding a pair never removes a child from any node's slots |
| TreeBuilder.AddPairKeepsSlotted | GraphValidator.cs:306-313 | without TooManyChildren, every node with a parent stays in one of its parent's slots |
| TreeBuilder.AddPairKeepsLinks | GraphValidator.cs:295-302 | existing parent links are never changed, and without CycleDetected the pair's link child -> parent is in place |
| TreeBuilder.AddPairRegistersBoth | GraphValidator.cs:272-278 | without CycleDetected both values of the pair end up registered |
| TreeBuilder.AddPairsReportKinds | GraphValidator.cs:161-165 | building the registry only reports DuplicatePair, TooManyChildren or CycleDetected |
| TreeBuilder.AddPairsSlotted | GraphValidator.cs:161-165 | without TooManyChildren, after all pairs every child sits in its parent's slots |
| TreeBuilder.AddPairsRegistersAll | GraphValidator.cs:161-165 | without CycleDetected the register holds exactly the letters that occur in the pairs |
| Serializer.Wrap | GraphValidator.cs:363-373 | no node gives the empty string; a node gives a string that starts with `(` and its value and ends with `)` |
| Serializer.WrapLength | GraphValidator.cs:363-373 | the serialization of a node has three characters per node of its subtree |
| Serializer.WrapBalanced | GraphValidator.cs:363-373 | when no value is a bracket, the serialization has balanced parentheses |
| Serializer.ReadWrap | GraphValidator.cs:363-373 | reading the serialization back gives exactly the subtree's shape (value, left, right) and consumes exactly its characters |
| Serializer.SiblingSubtreesDisjoint | GraphValidator.cs:372 | the subtrees printed for the left and the right child share no node, so no node is printed twice |
| Validation.Registry | GraphValidator.cs:158-165 | the register after all pairs satisfies the registry invariants |
| Validation.ReportsAreRecoverable | GraphValidator.cs:161-176 | after a successful parse, every report of a run is DuplicatePair, TooManyChildren, CycleDetected or MultipleRoots |
| Validation.E1IffMalformed | GraphValidator.cs:147-184 | the output is E1 exactly when the line fails the input check or a token fails extraction |
| Validation.OutcomeOnError | GraphValidator.cs:175-178 | when any error was recorded, the output is the code of the recorded level |
| Validation.OutcomeOnSuccess | GraphValidator.cs:167-178 | when no error was recorded, there is at most one root and the output is its serialization |
| Validation.MostSevereWins | GraphValidator.cs:175-178 | if anything was reported for a well-formed line, the output is the code of a reported error at least as severe as every other report |
| Validation.CycleOutranksMultipleRoots | GraphValidator.cs:175-178 | once CycleDetected is reported the output is E2, E3 or E4, never E5 |
| Validation.PairsBecomeLinks | GraphValidator.cs:161-165 | without CycleDetected, every pair's child has that pair's parent as its parent |
| Validation.RootSubtreeIsRegistry | GraphValidator.cs:331-373 | with one root and every child slotted, the tree printed from the root contains every registered node |
| Validation.SuccessfulOutcome | GraphValidator.cs:167-178 | with no report, the register has exactly one root, the output is its serialization of three characters per letter, every pair is a parent-child slot, and reading the output back gives the tree |
| Validation.SuccessfulRun | GraphValidator.cs:147-184 | the same for a whole input line that parses and draws no report |
| Validation.ParseInputExactAccepts | GraphValidator.cs:189-195 | the corrected parse accepts exactly the lines that pass the input check and whose every token is exactly `(U,U)` |
| Validation.ParseInputExactValues | GraphValidator.cs:25-37 | the corrected parse gives one pair of upper-case letters per token, and each token is exactly that pair's text |
| Validation.ExactOutputBalanced | GraphValidator.cs:363-373 | with the corrected parse, every output of the program has balanced parentheses: error codes have none, and a serialization of upper-case letters is balanced |
| Validation.ExactRefinesAsWritten | GraphValidator.cs:55-62 | the corrected program prints what the program as written prints, except that a line with a token that is not five characters long prints E1 |
| Validation.NoErrorsMeansNoReports | GraphValidator.cs:110-122 | when the reporter ends at NoErrors, nothing at all was reported during the run |
| Validation.BracketTokenParses | GraphValidator.cs:47-65 | the line `x)(A,B)` parses to the single pair `(')', 'A')`, and the corrected parse rejects it |
| Validation.BracketValueUnbalances | GraphValidator.cs:16 | the line `x)(A,B)` makes the program print `()(A))`, which is not balanced; with the corrected parse it prints E1 |
| GraphModel.Graph.constructor | GraphValidator.cs:141-145 | a new graph shares the given reporter and has an empty register |
| GraphModel.Graph.GuardAgainstInvalidInput | GraphValidator.cs:189-195 | aborts with E1 exactly when the line is empty or starts or ends with a space |
| GraphModel.Graph.TryRegisterParent | GraphValidator.cs:240-270 | the register and the level after the call are those of the registry function: DuplicatePair before TooManyChildren, and a new parent registered |
| GraphModel.Graph.GuardAgainstReassigningParent | GraphValidator.cs:200-213 | rejects exactly a registered child that has a parent, and reports CycleDetected then |
| GraphModel.Graph.GuardAgainstDeathLoop | GraphValidator.cs:218-235 | the walk up from the parent finds the child exactly when the child is a proper ancestor of the parent on the tentatively linked map, and reports CycleDetected then |
| GraphModel.Graph.TryRegisterChild | GraphValidator.cs:272-278 | the child is in the register afterwards, and no link or slot changes |
| GraphModel.Graph.ConnectNodes | GraphValidator.cs:283-326 | the register and the level after the call are those of the connect function: a rejected child leaves the links unchanged, and an accepted one is slotted in order and registered |
| GraphModel.Graph.AddPair | GraphValidator.cs:163-164 | one iteration of the loop keeps the registry invariants and produces the state and level of adding that pair |
| GraphModel.Graph.CountRoots | GraphValidator.cs:336-345 | the scan over the register counts exactly the parentless nodes, and when there is one, keeps that node |
| GraphModel.Graph.IsRootDetermined | GraphValidator.cs:331-355 | succeeds exactly when at most one registered node is parentless, returns that node, and otherwise reports MultipleRoots |
| GraphModel.Graph.AddPairs | GraphValidator.cs:161-165 | the loop over the pairs leaves exactly the register built by the pairs in order, with every report recorded |
| GraphModel.Graph.Build | GraphValidator.cs:147-184 | the output is the one the run defines from the reporter's starting level, with the corrected token check: E1, the most severe code, or the root's serialization; after a line that parses, the registry is the one the pairs build and the reporter's level folds in every report of the run; after a line that is rejected, the registry and the level are unchanged |
| GraphModel.Run | GraphValidator.cs:397-408 | a fresh reporter and graph turn an input line into exactly the output of the corrected program; that output is balanced, equals the output of the program as written when every token is five characters long, and is E1 otherwise |
| Scenarios.TwoChildrenOutput | GraphValidator.cs:147-184 | `(A,B) (A,C)` prints `(A(B)(C))` |
| Scenarios.ReverseLinkOutput | GraphValidator.cs:283-302 | `(A,B) (B,A)` prints E4 |
| Scenarios.RepeatedPairOutput | GraphValidator.cs:243-250 | `(A,B) (A,B)` prints E2 |
| Scenarios.TwoRootsOutput | GraphValidator.cs:347-352 | `(A,B) (C,D)` prints E5 |
| Scenarios.ThirdChildOutput | GraphValidator.cs:251-256 | `(A,B) (A,C) (A,D)` prints E3 |
| Scenarios.MalformedOutputs | GraphValidator.cs:189-195 | `(A,1)` and ` (A,B)` print E1 |

## Left out

- Console input and output in `Main` are not modelled. `Run` takes the line as a parameter and returns the text that would be printed.
- A null input line (end of input on the console) is not modelled. The input is always a string.
- The catch-all `catch (Exception)` in `Build` is modelled only for the one exception the code can raise, the E1 abort from `Report`. An index out of range cannot occur: an accepted token has at least five characters.
- The .NET regular-expression engine is not modelled. The pattern is modelled as the predicate "some window of five characters is `(`, an upper-case letter, `,`, an upper-case letter, `)`". `[A-Z]` is read as the ASCII capitals, and `IsNullOrWhiteSpace` as a test against a fixed set of whitespace characters.
- Node objects are represented by their characters. The register maps each character to exactly one node, so there is no aliasing to model.
- The order in which the dictionary is enumerated is not modelled. `IsRootDetermined` visits the register in an arbitrary order. It is only proved correct when the root is unique, which is the only case in which the source uses its result.
- The capacity hint given to the dictionary constructor, and the complexity comments, have no behaviour to model.
- `GraphSide` is declared but never used, so it is not modelled.
- Strings are sequences of Unicode scalar values (Dafny `char`), whereas C# indexes UTF-16 code units. `Parsing.ExtractValues` therefore does not model a token with a character outside the Basic Multilingual Plane: in C# such a character is two code units, which shifts the positions the values are read from (for `😀(A,B)` the source reads the low surrogate and `A`, the model `(` and `,`) and can yield a lone surrogate as a value. The corrected parse accepts only tokens of five characters whose values are `A`-`Z`, where code units and scalar values coincide. Apart from that only the comparison `>` that orders the two children matters, and it agrees on both readings for those values.

## Findings

| source | as written | input that shows it | evidently intended | confidence | as-written member | corrected member |
|---|---|---|---|---|---|---|
| GraphValidator.cs:16 | the pattern is not anchored, so a token only has to contain `(U,U)` somewhere, yet the values are then read at positions 1 and 3 of the token | `x)(A,B)` is accepted with the pair `(')', 'A')` and prints `()(A))` | a token must be exactly `(U,U)` (as the comment at lines 55-60 states), so the line prints E1 | not executed | Validation.BracketValueUnbalances | Validation.ExactOutputBalanced |

`Validation.BuildSpec` is the program as written, with the unanchored extraction. Every lemma stated about `BuildSpec` describes the code as it stands.
`Validation.BuildExact` is the same pipeline with the exact token check. The class `GraphModel.Graph` uses that check in `Build`: it rejects a token that is not five characters long.
`Validation.ExactRefinesAsWritten` shows that this is the only difference between the two.
