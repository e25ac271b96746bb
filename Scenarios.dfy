/** Concrete runs of the program: each input line with the output it produces. */
module Scenarios {
  import opened ErrorReporting
  import opened Parsing
  import opened Forest
  import opened TreeBuilder
  import opened Serializer
  import opened Validation

  // ---------------------------------------------------------------------------------------------
  // Parsing well-formed lines
  // ---------------------------------------------------------------------------------------------

  /** A single valid token extracts to its pair. */
  lemma ExtractOne(t: string, v: (char, char))
    requires ExtractValues(t) == Ok(v)
    ensures ExtractAll([t]) == Ok([v])
  {
    assert [t][0] == t && [t][1..] == [];
    assert ExtractAll([]) == Ok([]);
    assert [v] + [] == [v];
  }

  /** A valid token in front of valid tokens extracts to its pair in front of theirs. */
  lemma ExtractCons(t: string, rest: seq<string>, v: (char, char), vs: seq<(char, char)>)
    requires ExtractValues(t) == Ok(v) && ExtractAll(rest) == Ok(vs)
    ensures ExtractAll([t] + rest) == Ok([v] + vs)
  {
    assert ([t] + rest)[0] == t && ([t] + rest)[1..] == rest;
  }

  /** A line of two pair tokens parses to those two pairs. */
  lemma ParseTwo(p1: char, c1: char, p2: char, c2: char)
    requires IsUpper(p1) && IsUpper(c1) && IsUpper(p2) && IsUpper(c2)
    ensures ParseInput(Format(p1, c1) + " " + Format(p2, c2)) == Ok([(p1, c1), (p2, c2)])
  {
    var a, b := Format(p1, c1), Format(p2, c2);
    SplitTwo(a, b);
    ExtractFormat(p1, c1);
    ExtractFormat(p2, c2);
    ExtractOne(b, (p2, c2));
    ExtractCons(a, [b], (p1, c1), [(p2, c2)]);
    assert [a] + [b] == [a, b] && [(p1, c1)] + [(p2, c2)] == [(p1, c1), (p2, c2)];
    var input := a + " " + b;
    assert input[0] == '(' && input[|input| - 1] == ')';
  }

  /** A line of three pair tokens parses to those three pairs. */
  lemma ParseThree(p1: char, c1: char, p2: char, c2: char, p3: char, c3: char)
    requires IsUpper(p1) && IsUpper(c1) && IsUpper(p2) && IsUpper(c2) && IsUpper(p3) && IsUpper(c3)
    ensures ParseInput(Format(p1, c1) + " " + Format(p2, c2) + " " + Format(p3, c3))
      == Ok([(p1, c1), (p2, c2), (p3, c3)])
  {
    var a, b, c := Format(p1, c1), Format(p2, c2), Format(p3, c3);
    SplitThree(a, b, c);
    ExtractFormat(p1, c1);
    ExtractFormat(p2, c2);
    ExtractFormat(p3, c3);
    ExtractOne(c, (p3, c3));
    ExtractCons(b, [c], (p2, c2), [(p3, c3)]);
    assert [b] + [c] == [b, c] && [(p2, c2)] + [(p3, c3)] == [(p2, c2), (p3, c3)];
    ExtractCons(a, [b, c], (p1, c1), [(p2, c2), (p3, c3)]);
    assert [a] + [b, c] == [a, b, c] && [(p1, c1)] + [(p2, c2), (p3, c3)] == [(p1, c1), (p2, c2), (p3, c3)];
    var input := a + " " + b + " " + c;
    assert input[0] == '(' && input[|input| - 1] == ')';
  }

  // ---------------------------------------------------------------------------------------------
  // Building registries
  // ---------------------------------------------------------------------------------------------

  /** A run of two pairs is the second pair added to the registry of the first. */
  lemma TwoPairs(x: (char, char), y: (char, char))
    ensures var (g, r) := AddPair(Empty, x);
      AddPairs(Empty, [x, y]) == (AddPair(g, y).0, r + AddPair(g, y).1)
  {
    AddPairsSnoc(Empty, [x, y], 1);
    assert [x, y][..1] == [x] && [x, y][..2] == [x, y];
    OnePair(x);
  }

  /** A run of three pairs is the third pair added to the registry of the first two. */
  lemma ThreePairs(x: (char, char), y: (char, char), z: (char, char))
    ensures var (g, r) := AddPairs(Empty, [x, y]);
      AddPairs(Empty, [x, y, z]) == (AddPair(g, z).0, r + AddPair(g, z).1)
  {
    AddPairsSnoc(Empty, [x, y, z], 2);
    assert [x, y, z][..2] == [x, y] && [x, y, z][..3] == [x, y, z];
  }

  /** Linking a parentless child below a root cannot close a cycle. */
  lemma BelowRootNoCycle(parent: map<char, char>, p: char, c: char)
    requires p !in parent && c !in parent && p != c
    ensures !ClosesCycle(parent, p, c)
  {
    ClosesCycleIffAncestor(parent, p, c);
    forall n: nat
      ensures Up(parent, p, n) != Some(c)
    {
    }
  }

  /** The tree A -> B built by the pair (A,B). */
  const AB := Forest({'A', 'B'}, map['B' := 'A'], map['A' := 'B'], map[])

  /** The tree A -> B, C built by the pairs (A,B) and (A,C). */
  const ABC := Forest({'A', 'B', 'C'}, map['B' := 'A', 'C' := 'A'], map['A' := 'B'], map['A' := 'C'])

  /** (A,C) after (A,B) fills the right slot of A. */
  lemma SecondChild()
    ensures AddPairs(Empty, [('A', 'B'), ('A', 'C')]) == (ABC, [])
  {
    FirstPair('A', 'B');
    TwoPairs(('A', 'B'), ('A', 'C'));
    assert RegisterParent(AB, 'A', 'C') == (AB, []);
    BelowRootNoCycle(AB.parent, 'A', 'C');
    assert ConnectNodes(AB, 'A', 'C') == (Attach(AB, 'A', 'C'), []);
    assert Attach(AB, 'A', 'C') == ABC by {
      assert AB.nodes + {'C'} == ABC.nodes;
    }
  }

  /** (B,A) after (A,B) would close the cycle A -> B -> A and is reverted with CycleDetected. */
  lemma ReverseLink()
    ensures AddPairs(Empty, [('A', 'B'), ('B', 'A')]) == (AB, [CycleDetected])
  {
    FirstPair('A', 'B');
    TwoPairs(('A', 'B'), ('B', 'A'));
    assert RegisterParent(AB, 'B', 'A') == (AB, []);
    assert ClosesCycle(AB.parent, 'B', 'A') by {
      assert Up(AB.parent['A' := 'B'], 'B', 1) == Some('A');
    }
    assert ConnectNodes(AB, 'B', 'A') == (AB, [CycleDetected]);
    assert AddPair(AB, ('B', 'A')) == (AB, [] + [CycleDetected]);
    assert [] + ([] + [CycleDetected]) == [CycleDetected];
  }

  /** (A,B) repeated reports DuplicatePair, then CycleDetected from the re-parenting guard. */
  lemma RepeatedPair()
    ensures AddPairs(Empty, [('A', 'B'), ('A', 'B')]) == (AB, [DuplicatePair, CycleDetected])
  {
    FirstPair('A', 'B');
    TwoPairs(('A', 'B'), ('A', 'B'));
    assert Valid(AB) by {
      EmptyIsValid();
      AddPairKeepsValid(Empty, ('A', 'B'));
    }
    assert 'B' in Children(AB, 'A');
    DuplicateBeforeTooMany(AB, 'A', 'B');
    assert [] + [DuplicatePair, CycleDetected] == [DuplicatePair, CycleDetected];
  }

  /** (C,D) after (A,B) builds a second, separate tree. */
  lemma DisjointPairs()
    ensures AddPairs(Empty, [('A', 'B'), ('C', 'D')]).1 == []
    ensures Roots(AddPairs(Empty, [('A', 'B'), ('C', 'D')]).0) == {'A', 'C'}
  {
    FirstPair('A', 'B');
    TwoPairs(('A', 'B'), ('C', 'D'));
    var f1 := AB.(nodes := AB.nodes + {'C'});
    assert RegisterParent(AB, 'C', 'D') == (f1, []);
    BelowRootNoCycle(f1.parent, 'C', 'D');
    var f2 := Forest({'A', 'B', 'C', 'D'}, map['B' := 'A', 'D' := 'C'], map['A' := 'B', 'C' := 'D'], map[]);
    assert ConnectNodes(f1, 'C', 'D') == (Attach(f1, 'C', 'D'), []);
    assert Attach(f1, 'C', 'D') == f2 by {
      assert f1.nodes + {'D'} == f2.nodes;
    }
    assert Roots(f2) == {'A', 'C'};
  }

  /** (A,D) after (A,B) and (A,C) is a third child: TooManyChildren, and A's slots stay B and C. */
  lemma ThirdChild()
    ensures AddPairs(Empty, [('A', 'B'), ('A', 'C'), ('A', 'D')]).1 == [TooManyChildren]
    ensures Roots(AddPairs(Empty, [('A', 'B'), ('A', 'C'), ('A', 'D')]).0) == {'A'}
  {
    SecondChild();
    ThreePairs(('A', 'B'), ('A', 'C'), ('A', 'D'));
    assert RegisterParent(ABC, 'A', 'D') == (ABC, [TooManyChildren]);
    BelowRootNoCycle(ABC.parent, 'A', 'D');
    var g := Attach(ABC, 'A', 'D');
    assert ConnectNodes(ABC, 'A', 'D') == (g, []);
    assert g.parent == ABC.parent['D' := 'A'] && g.nodes == ABC.nodes + {'D'};
    assert Roots(g) == {'A'};
  }

  // ---------------------------------------------------------------------------------------------
  // Outputs
  // ---------------------------------------------------------------------------------------------

  /** The tree A -> B, C serializes to "(A(B)(C))". */
  lemma TwoChildrenWrap()
    ensures Registry([('A', 'B'), ('A', 'C')]) == ABC
    ensures Wrap(Registry([('A', 'B'), ('A', 'C')]), Some('A')) == "(A(B)(C))"
  {
    SecondChild();
    var f := Registry([('A', 'B'), ('A', 'C')]);
    assert Get(f.left, 'A') == Some('B') && Get(f.right, 'A') == Some('C');
    var wb, wc := Wrap(f, Some('B')), Wrap(f, Some('C'));
    assert wb == "(B)" && wc == "(C)";
    assert Wrap(f, Some('A')) == "(" + ['A'] + wb + wc + ")";
  }

  /** "(A,B) (A,C)" prints "(A(B)(C))". */
  lemma TwoChildrenOutput()
    ensures BuildSpec("(A,B) (A,C)") == "(A(B)(C))"
  {
    var pairs := [('A', 'B'), ('A', 'C')];
    ParseTwo('A', 'B', 'A', 'C');
    assert "(A,B) (A,C)" == Format('A', 'B') + " " + Format('A', 'C');
    SecondChild();
    TwoChildrenWrap();
    assert Roots(ABC) == {'A'};
    assert Reports(pairs) == [];
    OutcomeOnSuccess(NoErrors, pairs);
    BuildSpecParsed("(A,B) (A,C)", pairs);
    assert TheRoot(Registry(pairs)) == Some('A');
  }

  /** A well-formed line whose run records the error e prints e's code. */
  lemma ErrorOutput(input: string, pairs: seq<(char, char)>, e: Error)
    requires ParseInput(input) == Ok(pairs) && e != NoErrors && RecordAll(NoErrors, Reports(pairs)) == e
    ensures BuildSpec(input) == Code(e)
  {
    OutcomeOnError(NoErrors, pairs);
    BuildSpecParsed(input, pairs);
  }

  /** A single report is the recorded error. */
  lemma OneReport(e: Error)
    ensures RecordAll(NoErrors, [e]) == Record(NoErrors, e)
  {
    assert [e][..0] == [];
  }

  lemma ReverseLinkReports()
    ensures Reports([('A', 'B'), ('B', 'A')]) == [CycleDetected]
  {
    ReverseLink();
    assert Roots(AB) == {'A'};
    assert [CycleDetected] + [] == [CycleDetected];
  }

  /** "(A,B) (B,A)" prints "E4". */
  lemma ReverseLinkOutput()
    ensures BuildSpec("(A,B) (B,A)") == "E4"
  {
    ParseTwo('A', 'B', 'B', 'A');
    assert "(A,B) (B,A)" == Format('A', 'B') + " " + Format('B', 'A');
    ReverseLinkReports();
    OneReport(CycleDetected);
    ErrorOutput("(A,B) (B,A)", [('A', 'B'), ('B', 'A')], CycleDetected);
  }

  lemma RepeatedPairReports()
    ensures Reports([('A', 'B'), ('A', 'B')]) == [DuplicatePair, CycleDetected]
    ensures RecordAll(NoErrors, [DuplicatePair, CycleDetected]) == DuplicatePair
  {
    RepeatedPair();
    assert Roots(AB) == {'A'};
    assert [DuplicatePair, CycleDetected] + [] == [DuplicatePair, CycleDetected];
    assert [DuplicatePair, CycleDetected][..1] == [DuplicatePair];
    OneReport(DuplicatePair);
  }

  /** "(A,B) (A,B)" prints "E2", not the "E4" its re-parenting guard also reports. */
  lemma RepeatedPairOutput()
    ensures BuildSpec("(A,B) (A,B)") == "E2"
  {
    ParseTwo('A', 'B', 'A', 'B');
    assert "(A,B) (A,B)" == Format('A', 'B') + " " + Format('A', 'B');
    RepeatedPairReports();
    ErrorOutput("(A,B) (A,B)", [('A', 'B'), ('A', 'B')], DuplicatePair);
  }

  lemma TwoRootsReports()
    ensures Reports([('A', 'B'), ('C', 'D')]) == [MultipleRoots]
  {
    var pairs := [('A', 'B'), ('C', 'D')];
    DisjointPairs();
    var f := Registry(pairs);
    assert Roots(f) == {'A', 'C'};
    assert |{'A', 'C'}| == 2 by {
      assert {'A', 'C'} == {'A'} + {'C'};
    }
    assert AddPairs(Empty, pairs).1 + [MultipleRoots] == [MultipleRoots];
  }

  /** "(A,B) (C,D)" has two roots and prints "E5". */
  lemma TwoRootsOutput()
    ensures BuildSpec("(A,B) (C,D)") == "E5"
  {
    ParseTwo('A', 'B', 'C', 'D');
    assert "(A,B) (C,D)" == Format('A', 'B') + " " + Format('C', 'D');
    TwoRootsReports();
    OneReport(MultipleRoots);
    ErrorOutput("(A,B) (C,D)", [('A', 'B'), ('C', 'D')], MultipleRoots);
  }

  lemma ThirdChildReports()
    ensures Reports([('A', 'B'), ('A', 'C'), ('A', 'D')]) == [TooManyChildren]
  {
    ThirdChild();
    assert [TooManyChildren] + [] == [TooManyChildren];
  }

  /** "(A,B) (A,C) (A,D)" prints "E3". */
  lemma ThirdChildOutput()
    ensures BuildSpec("(A,B) (A,C) (A,D)") == "E3"
  {
    ParseThree('A', 'B', 'A', 'C', 'A', 'D');
    assert "(A,B) (A,C) (A,D)" == Format('A', 'B') + " " + Format('A', 'C') + " " + Format('A', 'D');
    ThirdChildReports();
    OneReport(TooManyChildren);
    ErrorOutput("(A,B) (A,C) (A,D)", [('A', 'B'), ('A', 'C'), ('A', 'D')], TooManyChildren);
  }

  /** A digit where a letter belongs, or a leading space, prints "E1". */
  lemma MalformedOutputs()
    ensures BuildSpec("(A,1)") == "E1"
    ensures BuildSpec(" (A,B)") == "E1"
  {
    var token := "(A,1)";
    assert Split(token) == [token] by {
      assert forall i :: 0 <= i < |token| ==> token[i] != ' ';
      SplitJoin([token]);
    }
    assert !ContainsPair(token) by {
      forall i: nat | i + 5 <= |token|
        ensures !PairAt(token, i)
      {
        assert i == 0;
      }
    }
    assert ParseInput(token).Fail?;
    E1IffMalformed(token);
    assert !InputShapeOk(" (A,B)");
    E1IffMalformed(" (A,B)");
  }
}
