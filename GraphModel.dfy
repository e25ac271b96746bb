/** Graph: the node registry updated in place, pair by pair, with every error going to a shared ErrorsReporter.
    A Node object is represented by its character: its Parent, LeftChild and RightChild are the entries for
    that character in the maps parent, left and right, and the register holds the characters in nodes. */
module GraphModel {
  import opened ErrorReporting
  import opened Parsing
  import opened Forest
  import opened TreeBuilder
  import opened Serializer
  import opened Validation

  class Graph {
    const reporter: ErrorsReporter
    var nodes: set<char>
    var parent: map<char, char>
    var left: map<char, char>
    var right: map<char, char>

    /** The registry as a value. */
    function State(): Forest
      reads this
    {
      Forest(nodes, parent, left, right)
    }

    constructor (reporter: ErrorsReporter)
      ensures this.reporter == reporter && State() == Empty
    {
      this.reporter := reporter;
      nodes, parent, left, right := {}, map[], map[], map[];
    }

    /** GuardAgainstInvalidInput: an empty input, or one that starts or ends with a space, aborts with E1. */
    method GuardAgainstInvalidInput(input: string) returns (abort: Option<string>)
      modifies reporter
      ensures abort.Some? <==> !InputShapeOk(input)
      ensures abort.Some? ==> abort.value == Code(InvalidInput)
      ensures reporter.level == old(reporter.level)
    {
      abort := None;
      if |input| == 0 || input[0] == ' ' || input[|input| - 1] == ' ' {
        abort := reporter.Report(InvalidInput);
      }
    }

    /** TryRegisterParent: checks an existing parent for a duplicate pair, then for two full slots;
        registers a new parent. */
    method TryRegisterParent(p: char, c: char)
      modifies this, reporter
      ensures State() == RegisterParent(old(State()), p, c).0
      ensures reporter.level == RecordAll(old(reporter.level), RegisterParent(old(State()), p, c).1)
    {
      if p in nodes {
        if (p in left && left[p] == c) || (p in right && right[p] == c) {
          var _ := reporter.Report(DuplicatePair);
        } else if p in left && p in right {
          var _ := reporter.Report(TooManyChildren);
        }
      } else {
        nodes := nodes + {p};
      }
    }

    /** GuardAgainstReassigningParent: a registered child that already has a parent is rejected with
        CycleDetected. */
    method GuardAgainstReassigningParent(c: char) returns (rejected: bool)
      modifies reporter
      ensures rejected <==> c in nodes && c in parent
      ensures reporter.level == if rejected then Record(old(reporter.level), CycleDetected) else old(reporter.level)
    {
      rejected := false;
      if c in nodes && c in parent {
        var _ := reporter.Report(CycleDetected);
        rejected := true;
      }
    }

    /** GuardAgainstDeathLoop: walks up from the parent's own parent, on the links as they are once the
        tentative link c -> p is in place, and reports CycleDetected if the walk meets the child. The links
        without the tentative one are acyclic, which bounds the walk. */
    method GuardAgainstDeathLoop(p: char, c: char, ghost before: map<char, char>) returns (hit: bool)
      requires parent == before[c := p] && c !in before && Acyclic(before)
      modifies reporter
      ensures hit <==> ProperAncestor(parent, c, p)
      ensures reporter.level == if hit then Record(old(reporter.level), CycleDetected) else old(reporter.level)
    {
      ghost var rank :| Ranked(before, rank);
      var cur := Get(parent, p);
      ghost var k: nat := 1;
      while cur.Some?
        invariant k >= 1 && cur == Up(parent, p, k)
        invariant forall j: nat :: 1 <= j < k ==> Up(parent, p, j) != Some(c)
        invariant reporter.level == old(reporter.level)
        decreases if cur.Some? then (if cur.value in rank then rank[cur.value] + 2 else 1) else 0
      {
        if cur.value == c {
          var _ := reporter.Report(CycleDetected);
          return true;
        }
        UpAdd(parent, p, k, 1);
        cur := Get(parent, cur.value);
        k := k + 1;
      }
      forall n: nat | n >= 1
        ensures Up(parent, p, n) != Some(c)
      {
        if n >= k {
          UpEnded(parent, p, k, n);
        }
      }
      return false;
    }

    /** TryRegisterChild: adds the child to the register unless it is there already. */
    method TryRegisterChild(c: char)
      modifies this
      ensures nodes == old(nodes) + {c}
      ensures parent == old(parent) && left == old(left) && right == old(right)
    {
      if c !in nodes {
        nodes := nodes + {c};
      }
    }

    /** ConnectNodes: rejects a child that already has a parent; links the child tentatively, reverts the link
        if it closes a cycle, and otherwise fills the first empty slot, orders the two children and registers
        the child. */
    method ConnectNodes(p: char, c: char)
      requires Valid(State()) && p in nodes
      modifies this, reporter
      ensures State() == TreeBuilder.ConnectNodes(old(State()), p, c).0
      ensures reporter.level == RecordAll(old(reporter.level), TreeBuilder.ConnectNodes(old(State()), p, c).1)
    {
      var rejected := GuardAgainstReassigningParent(c);
      if rejected {
        return;
      }
      ghost var before := parent;
      parent := parent[c := p];
      var cycle := GuardAgainstDeathLoop(p, c, before);
      if cycle {
        parent := parent - {c};
        assert parent == before;
        return;
      }
      if p !in left {
        left := left[p := c];
      } else if p !in right {
        right := right[p := c];
      }
      if p in left && p in right && left[p] > right[p] {
        left, right := left[p := right[p]], right[p := left[p]];
      }
      TryRegisterChild(c);
    }

    /** One iteration of the loop of Build. */
    method AddPair(p: char, c: char)
      requires Valid(State())
      modifies this, reporter
      ensures Valid(State())
      ensures State() == TreeBuilder.AddPair(old(State()), (p, c)).0
      ensures reporter.level == RecordAll(old(reporter.level), TreeBuilder.AddPair(old(State()), (p, c)).1)
    {
      ghost var f := State();
      ghost var level := reporter.level;
      TryRegisterParent(p, c);
      RegisterParentKeepsValid(f, p, c);
      ConnectNodes(p, c);
      RecordAllAppend(level, RegisterParent(f, p, c).1, TreeBuilder.ConnectNodes(RegisterParent(f, p, c).0, p, c).1);
      AddPairKeepsValid(f, (p, c));
    }

    /** The foreach loop of IsRootDetermined: counts the registered nodes without a parent and keeps the last
        one found. */
    method CountRoots() returns (count: nat, root: Option<char>)
      ensures count == |Roots(State())|
      ensures root.None? <==> count == 0
      ensures count == 1 ==> root == TheRoot(State())
    {
      ghost var f := State();
      root := None;
      count := 0;
      var rest := nodes;
      ghost var seen: set<char> := {};
      while rest != {}
        invariant rest <= f.nodes
        invariant seen == Roots(f) - rest
        invariant count == |seen|
        invariant root.None? <==> count == 0
        invariant root.Some? ==> root.value in seen
        decreases rest
      {
        var x :| x in rest;
        RootScanStep(f, rest, seen, x);
        if x !in parent {
          root := Some(x);
          count := count + 1;
          seen := seen + {x};
        }
        rest := rest - {x};
      }
      assert seen == Roots(f);
      if count == 1 {
        OnlyMember(seen, root.value);
      }
    }

    /** IsRootDetermined: more than one parentless node reports MultipleRoots and gives no root. */
    method IsRootDetermined() returns (determined: bool, root: Option<char>)
      modifies reporter
      ensures determined <==> |Roots(State())| <= 1
      ensures determined ==> root == TheRoot(State())
      ensures reporter.level == if determined then old(reporter.level) else Record(old(reporter.level), MultipleRoots)
    {
      var count;
      count, root := CountRoots();
      if count > 1 {
        var _ := reporter.Report(MultipleRoots);
        return false, root;
      }
      return true, root;
    }

    /** The foreach loop of Build: every pair in input order, starting from an empty register. */
    method AddPairs(pairs: seq<(char, char)>)
      requires State() == Empty
      modifies this, reporter
      ensures State() == Registry(pairs)
      ensures reporter.level == RecordAll(old(reporter.level), TreeBuilder.AddPairs(Empty, pairs).1)
    {
      EmptyIsValid();
      var i := 0;
      while i < |pairs|
        invariant 0 <= i <= |pairs|
        invariant State() == TreeBuilder.AddPairs(Empty, pairs[..i]).0
        invariant reporter.level == RecordAll(old(reporter.level), TreeBuilder.AddPairs(Empty, pairs[..i]).1)
      {
        ghost var before := TreeBuilder.AddPairs(Empty, pairs[..i]);
        ghost var step := TreeBuilder.AddPair(before.0, pairs[i]);
        assert pairs[i] == (pairs[i].0, pairs[i].1);
        AddPairsKeepsValid(Empty, pairs[..i]);
        AddPair(pairs[i].0, pairs[i].1);
        assert State() == step.0;
        AddPairsSnoc(Empty, pairs, i);
        RecordAllAppend(old(reporter.level), before.1, step.1);
        i := i + 1;
      }
      assert pairs[..|pairs|] == pairs;
    }

    /** Build: validates and parses the input, resets the register, adds the pairs in order, determines the
        root and returns the code of the most severe error, or else the serialization of the root. A token
        is accepted only when it is exactly a pair, as the extraction intends (see BracketValueUnbalances). */
    method Build(input: string) returns (output: string)
      modifies this, reporter
      ensures output == BuildFromExact(old(reporter.level), input)
      ensures ParseInputExact(input).Ok? ==>
        State() == Registry(ParseInputExact(input).value) &&
        reporter.level == RecordAll(old(reporter.level), Reports(ParseInputExact(input).value))
      ensures ParseInputExact(input).Fail? ==> State() == old(State()) && reporter.level == old(reporter.level)
    {
      var abort := GuardAgainstInvalidInput(input);
      if abort.Some? {
        return abort.value;
      }
      var tokens := Split(input);
      var parsed := ExtractAll(tokens);
      if parsed.Fail? || exists i :: 0 <= i < |tokens| && |tokens[i]| != 5 {
        abort := reporter.Report(InvalidInput);
        return abort.value;
      }
      var pairs := parsed.value;
      assert ParseInputExact(input) == Ok(pairs);
      ghost var level0 := reporter.level;
      nodes, parent, left, right := {}, map[], map[], map[];
      AddPairs(pairs);
      var determined, root := IsRootDetermined();
      var sequence := "";
      if determined {
        sequence := Wrap(State(), root);
      }
      ghost var reports := TreeBuilder.AddPairs(Empty, pairs).1;
      if determined {
        assert Reports(pairs) == reports + [];
        assert reports + [] == reports;
      } else {
        assert Reports(pairs) == reports + [MultipleRoots];
        RecordAllSnoc(level0, reports, MultipleRoots);
      }
      var occurred, code := reporter.ErrorsOccurred();
      output := if occurred then code else sequence;
    }
  }

  /** One step of the scan in IsRootDetermined: visiting x moves it from the unvisited nodes to the roots
      seen exactly when it has no parent. */
  lemma RootScanStep(f: Forest, rest: set<char>, seen: set<char>, x: char)
    requires x in rest && rest <= f.nodes && seen == Roots(f) - rest
    ensures x !in seen
    ensures x !in f.parent ==> seen + {x} == Roots(f) - (rest - {x})
    ensures x in f.parent ==> seen == Roots(f) - (rest - {x})
  {
  }

  /** A set of one element that contains x is {x}. */
  lemma OnlyMember(s: set<char>, x: char)
    requires x in s && |s| == 1
    ensures s == {x}
  {
    assert |s - {x}| == |s| - 1 == 0;
    assert s - {x} == {};
  }

  /** Main without the console: a fresh reporter and graph, one Build. */
  method Run(input: string) returns (output: string)
    ensures output == BuildExact(input)
    ensures Balanced(output)
    ensures (forall i :: 0 <= i < |Split(input)| ==> |Split(input)[i]| == 5) ==> output == BuildSpec(input)
    ensures (exists i :: 0 <= i < |Split(input)| && |Split(input)[i]| != 5) ==> output == "E1"
  {
    var reporter := new ErrorsReporter();
    var graph := new Graph(reporter);
    output := graph.Build(input);
    ExactOutputBalanced(input);
    ExactRefinesAsWritten(input);
  }
}
