/** What Graph.Build returns, as a function of its input: validation and parsing, the registry built pair by
    pair, root determination, serialization and the error code that overrides it. */
module Validation {
  import opened ErrorReporting
  import opened Parsing
  import opened Forest
  import opened TreeBuilder
  import opened Serializer

  /** The registry after all pairs, in input order; it keeps every invariant. */
  ghost function Registry(pairs: seq<(char, char)>): (f: Forest)
    ensures Valid(f)
  {
    EmptyIsValid();
    AddPairsKeepsValid(Empty, pairs);
    AddPairs(Empty, pairs).0
  }

  /** The recoverable errors of a run, in the order they are reported: those of the pairs, then
      MultipleRoots when root determination finds more than one root. */
  ghost function Reports(pairs: seq<(char, char)>): seq<Error>
  {
    AddPairs(Empty, pairs).1 + (if |Roots(Registry(pairs))| > 1 then [MultipleRoots] else [])
  }

  /** Build after the input has been parsed: E1 for a parse failure; otherwise the serialization of the only
      root (empty when root determination fails), overridden by the code of the most severe error. */
  ghost function Outcome(level0: Error, parsed: Result<seq<(char, char)>>): string
  {
    match parsed
    case Fail(_) => Code(InvalidInput)
    case Ok(pairs) =>
      var f := Registry(pairs);
      var sequence := if |Roots(f)| <= 1 then Wrap(f, TheRoot(f)) else "";
      var level := RecordAll(level0, Reports(pairs));
      if level != NoErrors then Code(level) else sequence
  }

  /** Graph.Build on an input, starting from the reporter's level level0. */
  ghost function BuildFrom(level0: Error, input: string): string
  {
    Outcome(level0, ParseInput(input))
  }

  /** The program's output for one input line: Build with a fresh reporter. */
  ghost function BuildSpec(input: string): string
  {
    BuildFrom(NoErrors, input)
  }

  // ---------------------------------------------------------------------------------------------
  // Error codes
  // ---------------------------------------------------------------------------------------------

  /** The recoverable reports are never InvalidInput. */
  lemma ReportsAreRecoverable(pairs: seq<(char, char)>)
    ensures forall e :: e in Reports(pairs) ==> e in {DuplicatePair, TooManyChildren, CycleDetected, MultipleRoots}
  {
    AddPairsReportKinds(Empty, pairs);
  }

  /** The output is E1 exactly when the input is malformed. */
  lemma E1IffMalformed(input: string)
    ensures BuildSpec(input) == "E1" <==> ParseInput(input).Fail?
  {
    if ParseInput(input).Ok? {
      var pairs := ParseInput(input).value;
      var f := Registry(pairs);
      var level := RecordAll(NoErrors, Reports(pairs));
      ReportsAreRecoverable(pairs);
      RecordAllIsMostSevere(NoErrors, Reports(pairs));
      if level != NoErrors {
        assert Level(level) != 1;
        assert Code(level)[1] as int - '0' as int != 1;
      } else if |Roots(f)| <= 1 && TheRoot(f).Some? {
        assert Wrap(f, TheRoot(f))[0] == '(';
      }
    }
  }

  /** Once an error has been recorded, Build prints its code. */
  lemma OutcomeOnError(level0: Error, pairs: seq<(char, char)>)
    requires RecordAll(level0, Reports(pairs)) != NoErrors
    ensures Outcome(level0, Ok(pairs)) == Code(RecordAll(level0, Reports(pairs)))
  {
  }

  /** With no error recorded there is at most one root, and Build prints the serialization of that root. */
  lemma OutcomeOnSuccess(level0: Error, pairs: seq<(char, char)>)
    requires RecordAll(level0, Reports(pairs)) == NoErrors
    ensures |Roots(Registry(pairs))| <= 1
    ensures Outcome(level0, Ok(pairs)) == Wrap(Registry(pairs), TheRoot(Registry(pairs)))
  {
    RecordAllAppend(level0, AddPairs(Empty, pairs).1, [MultipleRoots]);
  }

  /** After a successful parse, Build's output is the outcome of the parsed pairs. */
  lemma BuildSpecParsed(input: string, pairs: seq<(char, char)>)
    requires ParseInput(input) == Ok(pairs)
    ensures BuildSpec(input) == Outcome(NoErrors, Ok(pairs))
  {
  }

  /** When any recoverable error is reported, the output is the code of the most severe one, whatever the
      order of the reports. */
  lemma MostSevereWins(input: string, pairs: seq<(char, char)>, e: Error)
    requires ParseInput(input) == Ok(pairs) && e in Reports(pairs)
    ensures RecordAll(NoErrors, Reports(pairs)) != NoErrors
    ensures RecordAll(NoErrors, Reports(pairs)) in Reports(pairs)
    ensures Level(RecordAll(NoErrors, Reports(pairs))) <= Level(e)
    ensures BuildSpec(input) == Code(RecordAll(NoErrors, Reports(pairs)))
  {
    WorstReport(pairs, e);
    OutcomeOnError(NoErrors, pairs);
    BuildSpecParsed(input, pairs);
  }

  /** The level a fresh reporter ends with is one of the reports, at least as severe as each of them. */
  lemma WorstReport(pairs: seq<(char, char)>, e: Error)
    requires e in Reports(pairs)
    ensures RecordAll(NoErrors, Reports(pairs)) != NoErrors
    ensures RecordAll(NoErrors, Reports(pairs)) in Reports(pairs)
    ensures Level(RecordAll(NoErrors, Reports(pairs))) <= Level(e)
  {
    ReportsAreRecoverable(pairs);
    RecordAllKeepsSeverity(NoErrors, Reports(pairs), e);
    RecordAllIsMostSevere(NoErrors, Reports(pairs));
  }

  /** A cycle outranks multiple roots: with CycleDetected among the reports the output is E2, E3 or E4,
      never E5. */
  lemma CycleOutranksMultipleRoots(input: string)
    requires ParseInput(input).Ok? && CycleDetected in Reports(ParseInput(input).value)
    ensures BuildSpec(input) in {"E2", "E3", "E4"}
  {
    MostSevereWins(input, ParseInput(input).value, CycleDetected);
    ReportsAreRecoverable(ParseInput(input).value);
  }

  // ---------------------------------------------------------------------------------------------
  // The serialization of a run without errors
  // ---------------------------------------------------------------------------------------------

  /** When every node with a parent sits in a slot, the subtree of the only root is the whole registry. */
  lemma {:induction false} SlottedSubtreeCovers(f: Forest, r: char, x: char, n: nat)
    requires Valid(f) && Slotted(f) && r in f.nodes && x in f.nodes && Up(f.parent, x, n) == Some(r)
    ensures x in Subtree(f, Some(r))
    decreases n
  {
    if x != r {
      var y := f.parent[x];
      SlottedSubtreeCovers(f, r, y, n - 1);
      SubtreeMonotone(f, r, y);
      assert x in Subtree(f, Some(y)) by {
        ChildrenShrink(f, y);
        assert x in Children(f, y);
      }
    }
  }

  /** The subtree of a node contains the subtree of every node in it. */
  lemma {:induction false} SubtreeMonotone(f: Forest, r: char, y: char)
    requires Valid(f) && r in f.nodes && y in Subtree(f, Some(r))
    ensures y in f.nodes && Subtree(f, Some(y)) <= Subtree(f, Some(r))
    decreases Below(f, Some(r))
  {
    ChildrenShrink(f, r);
    if y != r {
      if r in f.left && y in Subtree(f, Some(f.left[r])) {
        SubtreeMonotone(f, f.left[r], y);
      } else {
        assert y in Subtree(f, Get(f.right, r));
        SubtreeMonotone(f, f.right[r], y);
      }
    }
  }

  /** Every pair of a run without CycleDetected ends up as a parent link of the registry. */
  lemma {:induction false} PairsBecomeLinks(pairs: seq<(char, char)>)
    requires CycleDetected !in AddPairs(Empty, pairs).1
    ensures forall i :: 0 <= i < |pairs| ==>
      pairs[i].1 in AddPairs(Empty, pairs).0.parent && AddPairs(Empty, pairs).0.parent[pairs[i].1] == pairs[i].0
  {
    if pairs != [] {
      var init := pairs[..|pairs| - 1];
      PairsBecomeLinks(init);
      var f := AddPairs(Empty, init).0;
      var g := AddPairs(Empty, pairs).0;
      assert Valid(f) by {
        EmptyIsValid();
        AddPairsKeepsValid(Empty, init);
      }
      AddPairKeepsLinks(f, pairs[|pairs| - 1]);
      forall i | 0 <= i < |pairs|
        ensures pairs[i].1 in g.parent && g.parent[pairs[i].1] == pairs[i].0
      {
        if i < |init| {
          assert pairs[i] == init[i];
        }
      }
    }
  }

  /** When every node with a parent sits in a slot and r is the only root, the subtree of r is the whole
      registry. */
  lemma RootSubtreeIsRegistry(f: Forest, r: char)
    requires Valid(f) && Slotted(f) && Roots(f) == {r}
    ensures Subtree(f, Some(r)) == f.nodes
  {
    forall x | x in f.nodes
      ensures x in Subtree(f, Some(r))
    {
      SingleRootIsAncestorOfAll(f, r, x);
      var n: nat :| Up(f.parent, x, n) == Some(r);
      SlottedSubtreeCovers(f, r, x, n);
    }
    forall x | x in Subtree(f, Some(r))
      ensures x in f.nodes
    {
      SubtreeMonotone(f, r, x);
    }
  }

  /** Pairs that report no error give the serialization of their only root: one bracket pair per distinct
      character, every pair (p, c) placed as a child of p, and reading the text back gives the tree of the
      registry with nothing left over. */
  lemma SuccessfulOutcome(pairs: seq<(char, char)>)
    requires pairs != [] && Reports(pairs) == []
    ensures var f := Registry(pairs);
      var out := Outcome(NoErrors, Ok(pairs));
      && |Roots(f)| == 1 && TheRoot(f).Some?
      && out == Wrap(f, TheRoot(f))
      && |out| == 3 * |Symbols(pairs)|
      && (forall i :: 0 <= i < |pairs| ==> pairs[i].1 in Children(f, pairs[i].0))
      && ReadNode(out) == Some((Shape(f, TheRoot(f)).value, ""))
  {
    var f := Registry(pairs);
    assert AddPairs(Empty, pairs).1 == [];
    OutcomeOnSuccess(NoErrors, pairs);
    AddPairsRegistersAll(pairs);
    AddPairsSlotted(pairs);
    PairsBecomeLinks(pairs);
    SymbolsContains(pairs, 0);
    RootExists(f);
    var r := TheRoot(f).value;
    RootSubtreeIsRegistry(f, r);
    WrapLength(f, Some(r));
    ReadWrap(f, r, "");
    assert Wrap(f, Some(r)) + "" == Wrap(f, Some(r));
  }

  /** A run that reports no error prints the serialization of its only root (see SuccessfulOutcome). */
  lemma SuccessfulRun(input: string, pairs: seq<(char, char)>)
    requires ParseInput(input) == Ok(pairs) && Reports(pairs) == []
    ensures var f := Registry(pairs);
      && |Roots(f)| == 1 && TheRoot(f).Some?
      && BuildSpec(input) == Wrap(f, TheRoot(f))
      && |BuildSpec(input)| == 3 * |Symbols(pairs)|
      && (forall i :: 0 <= i < |pairs| ==> pairs[i].1 in Children(f, pairs[i].0))
      && ReadNode(BuildSpec(input)) == Some((Shape(f, TheRoot(f)).value, ""))
  {
    SuccessfulOutcome(pairs);
    BuildSpecParsed(input, pairs);
  }

  /** Both characters of every pair are among the symbols. */
  lemma {:induction false} SymbolsContains(pairs: seq<(char, char)>, i: nat)
    requires i < |pairs|
    ensures pairs[i].0 in Symbols(pairs) && pairs[i].1 in Symbols(pairs)
  {
    if i < |pairs| - 1 {
      SymbolsContains(pairs[..|pairs| - 1], i);
    }
  }

  // ---------------------------------------------------------------------------------------------
  // The token check as intended: the whole token is the pair
  // ---------------------------------------------------------------------------------------------

  /** GuardAgainstInvalidInput and ExtractData with the pair pattern anchored to the whole token. */
  function ParseInputExact(input: string): Result<seq<(char, char)>>
  {
    if InputShapeOk(input) && forall i :: 0 <= i < |Split(input)| ==> |Split(input)[i]| == 5 then ParseInput(input)
    else Fail(InvalidInput)
  }

  /** The anchored parser accepts exactly the inputs whose every token is a pair token. */
  lemma ParseInputExactAccepts(input: string)
    ensures ParseInputExact(input).Ok? ==>
      InputShapeOk(input) && forall i :: 0 <= i < |Split(input)| ==> ExtractValuesExact(Split(input)[i]).Ok?
    ensures InputShapeOk(input) && (forall i :: 0 <= i < |Split(input)| ==> ExtractValuesExact(Split(input)[i]).Ok?) ==>
      ParseInputExact(input).Ok?
  {
    var tokens := Split(input);
    if InputShapeOk(input) && forall i :: 0 <= i < |tokens| ==> ExtractValuesExact(tokens[i]).Ok? {
      forall i | 0 <= i < |tokens|
        ensures |tokens[i]| == 5 && ContainsPair(tokens[i])
      {
        ExactAgreesOnFiveCharacters(tokens[i]);
      }
      assert ExtractAll(tokens).Ok?;
    }
    if ParseInputExact(input).Ok? {
      assert ExtractAll(tokens).Ok?;
      forall i | 0 <= i < |tokens|
        ensures ExtractValuesExact(tokens[i]).Ok?
      {
        assert |tokens[i]| == 5 && ContainsPair(tokens[i]);
        ExactAgreesOnFiveCharacters(tokens[i]);
      }
    }
  }

  /** The anchored parser returns, token by token, the uppercase letters each token encodes. */
  lemma ParseInputExactValues(input: string)
    requires ParseInputExact(input).Ok?
    ensures var pairs := ParseInputExact(input).value;
      && |pairs| == |Split(input)|
      && forall i :: 0 <= i < |pairs| ==>
           IsUpper(pairs[i].0) && IsUpper(pairs[i].1) && Split(input)[i] == Format(pairs[i].0, pairs[i].1)
  {
    var tokens := Split(input);
    var pairs := ParseInputExact(input).value;
    forall i | 0 <= i < |pairs|
      ensures IsUpper(pairs[i].0) && IsUpper(pairs[i].1) && tokens[i] == Format(pairs[i].0, pairs[i].1)
    {
      ExactAgreesOnFiveCharacters(tokens[i]);
      assert ExtractValuesExact(tokens[i]) == Ok(pairs[i]);
    }
  }

  /** Graph.Build with the anchored token check, starting from the reporter's level level0. */
  ghost function BuildFromExact(level0: Error, input: string): string
  {
    Outcome(level0, ParseInputExact(input))
  }

  /** The program's output with the anchored token check. */
  ghost function BuildExact(input: string): string
  {
    BuildFromExact(NoErrors, input)
  }

  /** The anchored check changes the output only for lines with a token that is not five characters long,
      and those print E1. */
  lemma ExactRefinesAsWritten(input: string)
    ensures BuildExact(input) ==
      if forall i :: 0 <= i < |Split(input)| ==> |Split(input)[i]| == 5 then BuildSpec(input) else "E1"
  {
  }

  /** An error code holds no bracket. */
  lemma CodeBalanced(e: Error)
    requires e != NoErrors
    ensures Balanced(Code(e))
  {
    var code := Code(e);
    assert 1 <= Level(e) <= 5;
    assert code[0] != '(' && code[0] != ')' && code[1] != '(' && code[1] != ')';
    assert code[1..][1..] == [];
    assert Nesting(code[1..], 0) == Nesting(code[1..][1..], 0);
  }

  /** A run that records no error reported nothing at all. */
  lemma NoErrorsMeansNoReports(pairs: seq<(char, char)>)
    ensures RecordAll(NoErrors, Reports(pairs)) == NoErrors ==> Reports(pairs) == []
  {
    if Reports(pairs) != [] {
      ReportsAreRecoverable(pairs);
      RecordAllKeepsSeverity(NoErrors, Reports(pairs), Reports(pairs)[0]);
    }
  }

  /** Symbols of uppercase pairs are uppercase letters. */
  lemma {:induction false} SymbolsUpper(pairs: seq<(char, char)>)
    requires forall i :: 0 <= i < |pairs| ==> IsUpper(pairs[i].0) && IsUpper(pairs[i].1)
    ensures forall x :: x in Symbols(pairs) ==> IsUpper(x)
  {
    if pairs != [] {
      SymbolsUpper(pairs[..|pairs| - 1]);
    }
  }

  /** With the anchored check, every output has balanced brackets: an error code has none, and a
      serialization is made of uppercase letters and brackets. */
  lemma ExactOutputBalanced(input: string)
    ensures Balanced(BuildExact(input))
  {
    match ParseInputExact(input)
    case Fail(_) =>
      CodeBalanced(InvalidInput);
    case Ok(pairs) =>
      var level := RecordAll(NoErrors, Reports(pairs));
      if level != NoErrors {
        CodeBalanced(level);
      } else {
        NoErrorsMeansNoReports(pairs);
        var f := Registry(pairs);
        ParseInputExactValues(input);
        SymbolsUpper(pairs);
        assert AddPairs(Empty, pairs).1 == [];
        AddPairsRegistersAll(pairs);
        OutcomeOnSuccess(NoErrors, pairs);
        WrapBalanced(f, TheRoot(f));
      }
  }

  /** The token "x)(A,B)" parses, as written, to the single pair (")", "A"); the anchored check rejects it. */
  lemma BracketTokenParses()
    ensures ParseInput("x)(A,B)") == Ok([(')', 'A')])
    ensures ParseInputExact("x)(A,B)") == Fail(InvalidInput)
  {
    var input := "x)(A,B)";
    assert Split(input) == [input] by {
      assert forall i :: 0 <= i < |input| ==> input[i] != ' ';
      SplitJoin([input]);
    }
    UnanchoredTokenYieldsBracket();
    assert InputShapeOk(input);
    assert [input][0] == input && [input][1..] == [];
    assert ExtractAll([]) == Ok([]);
    assert [(')', 'A')] + [] == [(')', 'A')];
  }

  /** The first pair of a run, with two different characters, builds the two-node tree p -> c and reports
      nothing. */
  lemma FirstPair(p: char, c: char)
    requires p != c
    ensures AddPair(Empty, (p, c)) == (Forest({p, c}, map[c := p], map[p := c], map[]), [])
  {
    var f1 := Forest({p}, map[], map[], map[]);
    assert Empty.nodes + {p} == {p};
    assert RegisterParent(Empty, p, c) == (f1, []);
    assert !ClosesCycle(f1.parent, p, c) by {
      ClosesCycleIffAncestor(f1.parent, p, c);
      forall n: nat ensures Up(f1.parent, p, n) != Some(c) { }
    }
    var f := Forest({p, c}, map[c := p], map[p := c], map[]);
    assert ConnectNodes(f1, p, c) == (Attach(f1, p, c), []);
    assert Attach(f1, p, c) == f by {
      assert f1.nodes + {c} == {p, c};
    }
    assert AddPair(Empty, (p, c)).0 == f;
    assert AddPair(Empty, (p, c)).1 == [];
  }

  /** A run of one pair is that pair added to the empty registry. */
  lemma OnePair(x: (char, char))
    ensures AddPairs(Empty, [x]) == AddPair(Empty, x)
  {
    assert [x][..0] == [];
    assert AddPairs(Empty, []) == (Empty, []);
    assert [] + AddPair(Empty, x).1 == AddPair(Empty, x).1;
  }

  /** The pair (")", "A") builds a two-node registry with root ")" and reports nothing. */
  lemma BracketPairRegistry()
    ensures Registry([(')', 'A')]) == Forest({')', 'A'}, map['A' := ')'], map[')' := 'A'], map[])
    ensures Reports([(')', 'A')]) == []
  {
    FirstPair(')', 'A');
    OnePair((')', 'A'));
    assert Roots(Forest({')', 'A'}, map['A' := ')'], map[')' := 'A'], map[])) == {')'};
  }

  /** The registry of the pair (")", "A") serializes to "()(A))". */
  lemma BracketPairOutput()
    ensures Outcome(NoErrors, Ok([(')', 'A')])) == "()(A))"
  {
    var pairs := [(')', 'A')];
    BracketPairRegistry();
    var f := Registry(pairs);
    OutcomeOnSuccess(NoErrors, pairs);
    assert TheRoot(f) == Some(')');
    assert Get(f.left, ')') == Some('A') && Get(f.right, ')') == None;
    var leaf := Wrap(f, Some('A'));
    assert leaf == "(A)";
    assert Wrap(f, Some(')')) == "(" + [')'] + leaf + "" + ")";
  }

  /** As written, the input "x)(A,B)" is accepted and the program prints "()(A))", whose brackets do not
      balance; with the anchored check the same input gives E1. */
  lemma BracketValueUnbalances()
    ensures BuildSpec("x)(A,B)") == "()(A))"
    ensures !Balanced("()(A))")
    ensures BuildExact("x)(A,B)") == "E1"
  {
    BracketTokenParses();
    BracketPairOutput();
    BuildSpecParsed("x)(A,B)", [(')', 'A')]);
    BracketOutputUnbalanced();
  }

  /** In "()(A))" the last ")" closes nothing. */
  lemma BracketOutputUnbalanced()
    ensures Nesting("()(A))", 0) == None
  {
    var s := "()(A))";
    assert s[1..] == ")(A))" && s[1..][1..] == "(A))";
    assert Nesting("(A))", 0) == Nesting("A))", 1) == Nesting("))", 1) == Nesting(")", 0) == None;
  }
}
