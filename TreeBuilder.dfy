/** The per-pair steps of Graph.Build as functions on the registry: TryRegisterParent, then ConnectNodes
    (GuardAgainstReassigningParent, the tentative link, GuardAgainstDeathLoop, the slots, TryRegisterChild). */
module TreeBuilder {
  import opened ErrorReporting
  import opened Forest

  /** TryRegisterParent: an existing parent is checked for a duplicate pair first and for a full pair of
      slots second; a new parent is registered. */
  function RegisterParent(f: Forest, p: char, c: char): (Forest, seq<Error>)
  {
    if p in f.nodes then
      if (p in f.left && f.left[p] == c) || (p in f.right && f.right[p] == c) then (f, [DuplicatePair])
      else if p in f.left && p in f.right then (f, [TooManyChildren])
      else (f, [])
    else (f.(nodes := f.nodes + {p}), [])
  }

  /** GuardAgainstDeathLoop, on the links as they are once child.Parent = parent has been set: walking up
      from the parent's own parent reaches the child. */
  ghost predicate ClosesCycle(parent: map<char, char>, p: char, c: char)
  {
    ProperAncestor(parent[c := p], c, p)
  }

  /** The successful end of ConnectNodes: the link child -> parent, the first empty slot (left, else right;
      a full node keeps its slots), the swap that orders the two children, and TryRegisterChild. */
  function Attach(f: Forest, p: char, c: char): Forest
  {
    var placed :=
      if p !in f.left then f.(left := f.left[p := c])
      else if p !in f.right then f.(right := f.right[p := c])
      else f;
    var ordered :=
      if p in placed.left && p in placed.right && placed.left[p] > placed.right[p]
      then placed.(left := placed.left[p := placed.right[p]], right := placed.right[p := placed.left[p]])
      else placed;
    ordered.(nodes := ordered.nodes + {c}, parent := ordered.parent[c := p])
  }

  /** ConnectNodes: a child that already has a parent is rejected; a link that would close a cycle is
      reverted; otherwise the child is attached. Both rejections report CycleDetected. */
  ghost function ConnectNodes(f: Forest, p: char, c: char): (Forest, seq<Error>)
  {
    if c in f.nodes && c in f.parent then (f, [CycleDetected])
    else if ClosesCycle(f.parent, p, c) then (f, [CycleDetected])
    else (Attach(f, p, c), [])
  }

  /** One iteration of the loop of Graph.Build: the registry after the pair and the errors it reported. */
  ghost function AddPair(f: Forest, pair: (char, char)): (Forest, seq<Error>)
  {
    var (f1, r1) := RegisterParent(f, pair.0, pair.1);
    var (f2, r2) := ConnectNodes(f1, pair.0, pair.1);
    (f2, r1 + r2)
  }

  /** The whole loop of Graph.Build, pair by pair in input order. */
  ghost function AddPairs(f: Forest, pairs: seq<(char, char)>): (Forest, seq<Error>)
  {
    if pairs == [] then (f, [])
    else
      var (g, rs) := AddPairs(f, pairs[..|pairs| - 1]);
      var (h, r) := AddPair(g, pairs[|pairs| - 1]);
      (h, rs + r)
  }

  /** The characters named by the pairs. */
  function Symbols(pairs: seq<(char, char)>): set<char>
  {
    if pairs == [] then {}
    else Symbols(pairs[..|pairs| - 1]) + {pairs[|pairs| - 1].0, pairs[|pairs| - 1].1}
  }

  // ---------------------------------------------------------------------------------------------
  // Cycles
  // ---------------------------------------------------------------------------------------------

  /** Adding the link c -> p does not change chains that reach the root c before using c's link. */
  lemma {:induction false} UpKeepsPathToRoot(parent: map<char, char>, c: char, p: char, x: char, n: nat)
    requires c !in parent && Up(parent, x, n) == Some(c)
    ensures Up(parent[c := p], x, n) == Some(c)
    decreases n
  {
    if n > 0 {
      UpKeepsPathToRoot(parent, c, p, parent[x], n - 1);
    }
  }

  /** When the child has no parent yet, the walk finds it exactly when it is the parent or one of the
      parent's ancestors. */
  lemma ClosesCycleIffAncestor(parent: map<char, char>, p: char, c: char)
    requires c !in parent
    ensures ClosesCycle(parent, p, c) <==> AncestorOrSelf(parent, c, p)
  {
    if AncestorOrSelf(parent, c, p) {
      var m: nat :| Up(parent, p, m) == Some(c);
      if m == 0 {
        assert Up(parent[c := p], p, 1) == Some(c);
      } else {
        UpKeepsPathToRoot(parent, c, p, p, m);
      }
    }
    if ClosesCycle(parent, p, c) {
      var n: nat :| n >= 1 && Up(parent[c := p], p, n) == Some(c);
      var k := FirstVisit(parent, c, p, p, n);
    }
  }

  /** A walk on the extended links that reaches c first reaches c along the old links. */
  lemma {:induction false} FirstVisit(parent: map<char, char>, c: char, p: char, x: char, n: nat) returns (k: nat)
    requires c !in parent && Up(parent[c := p], x, n) == Some(c)
    ensures k <= n && Up(parent, x, k) == Some(c)
    decreases n
  {
    if x == c {
      k := 0;
    } else {
      var k' := FirstVisit(parent, c, p, parent[x], n - 1);
      k := k' + 1;
    }
  }

  /** Attaching a parentless child below a parent it is not an ancestor of keeps the links acyclic:
      nodes on the parent's chain keep their rank, every other node is lifted above it. */
  lemma AttachKeepsAcyclic(f: Forest, p: char, c: char)
    requires Closed(f) && Acyclic(f.parent) && p in f.nodes && c !in f.parent
    requires !AncestorOrSelf(f.parent, c, p)
    ensures Acyclic(f.parent[c := p])
  {
    var rank :| Ranked(f.parent, rank);
    var k := (if p in rank then rank[p] else 0) + 1;
    var rank' := map y | y in rank.Keys + {c, p} ::
      if AncestorOrSelf(f.parent, y, p) then (if y in rank then rank[y] else 0)
      else (if y in rank then rank[y] else 0) + k;
    var parent' := f.parent[c := p];
    assert Up(f.parent, p, 0) == Some(p);
    forall x | x in parent'
      ensures x in rank' && parent'[x] in rank' && rank'[parent'[x]] < rank'[x]
    {
      if x != c {
        var z := f.parent[x];
        if AncestorOrSelf(f.parent, x, p) {
          var n: nat :| Up(f.parent, p, n) == Some(x);
          UpAdd(f.parent, p, n, 1);
          assert Up(f.parent, p, n + 1) == Some(z);
        }
      }
    }
    assert Ranked(parent', rank');
  }

  /** Attach keeps every invariant of the registry. */
  lemma AttachKeepsValid(f: Forest, p: char, c: char)
    requires Valid(f) && p in f.nodes && c !in f.parent && !ClosesCycle(f.parent, p, c)
    ensures Valid(Attach(f, p, c))
  {
    ClosesCycleIffAncestor(f.parent, p, c);
    AttachKeepsAcyclic(f, p, c);
    AttachKeepsSlots(f, p, c);
  }

  /** Attach keeps the maps inside the registry and the slots ordered and consistent with the links. */
  lemma AttachKeepsSlots(f: Forest, p: char, c: char)
    requires Closed(f) && SlotsOrdered(f) && p in f.nodes && c !in f.parent
    ensures var g := Attach(f, p, c);
      Closed(g) && SlotsOrdered(g) && g.parent == f.parent[c := p]
  {
    if p !in f.left {
      AttachFillsLeft(f, p, c);
    } else if p !in f.right {
      AttachFillsRight(f, p, c);
    } else {
      AttachFull(f, p, c);
    }
  }

  /** An empty parent takes the child in its left slot. */
  lemma AttachFillsLeft(f: Forest, p: char, c: char)
    requires Closed(f) && SlotsOrdered(f) && p in f.nodes && c !in f.parent && p !in f.left
    ensures var g := Attach(f, p, c);
      Closed(g) && SlotsOrdered(g) && g.parent == f.parent[c := p]
    ensures var g := Attach(f, p, c);
      p in g.left && g.left[p] == c && p !in g.right
  {
    var g := f.(left := f.left[p := c], nodes := f.nodes + {c}, parent := f.parent[c := p]);
    assert p !in f.right;
    assert Attach(f, p, c) == g;
    forall x | x in f.left ensures f.left[x] != c { }
    forall x | x in f.right ensures f.right[x] != c { }
  }

  /** A parent with a left child only takes the child in its right slot, swapping the two when the new
      child is the smaller. */
  lemma AttachFillsRight(f: Forest, p: char, c: char)
    requires Closed(f) && SlotsOrdered(f) && p in f.nodes && c !in f.parent && p in f.left && p !in f.right
    ensures var g := Attach(f, p, c);
      Closed(g) && SlotsOrdered(g) && g.parent == f.parent[c := p]
    ensures var g := Attach(f, p, c);
      p in g.left && p in g.right && Children(g, p) == {f.left[p], c}
  {
    var l := f.left[p];
    assert l != c;
    var g := if l > c
      then f.(left := f.left[p := c], right := f.right[p := l], nodes := f.nodes + {c}, parent := f.parent[c := p])
      else f.(right := f.right[p := c], nodes := f.nodes + {c}, parent := f.parent[c := p]);
    assert Attach(f, p, c) == g;
    forall x | x in f.left ensures f.left[x] != c { }
    forall x | x in f.right ensures f.right[x] != c { }
  }

  /** A parent with both slots taken keeps them; only the link and the registration change. */
  lemma AttachFull(f: Forest, p: char, c: char)
    requires Closed(f) && SlotsOrdered(f) && p in f.nodes && c !in f.parent && p in f.left && p in f.right
    ensures var g := Attach(f, p, c);
      Closed(g) && SlotsOrdered(g) && g.parent == f.parent[c := p]
    ensures var g := Attach(f, p, c);
      g.left == f.left && g.right == f.right
  {
    assert Attach(f, p, c) == f.(nodes := f.nodes + {c}, parent := f.parent[c := p]);
    forall x | x in f.left ensures f.left[x] != c { }
    forall x | x in f.right ensures f.right[x] != c { }
  }

  /** TryRegisterParent keeps the invariants, and afterwards the parent is registered. */
  lemma RegisterParentKeepsValid(f: Forest, p: char, c: char)
    requires Valid(f)
    ensures var g := RegisterParent(f, p, c).0;
      Valid(g) && p in g.nodes && g.parent == f.parent && g.left == f.left && g.right == f.right
  {
    var g := RegisterParent(f, p, c).0;
    assert g.parent == f.parent && g.left == f.left && g.right == f.right;
    assert g.nodes == f.nodes + {p};
    assert Acyclic(g.parent);
  }

  /** The registry invariants hold after every pair. */
  lemma AddPairKeepsValid(f: Forest, pair: (char, char))
    requires Valid(f)
    ensures Valid(AddPair(f, pair).0)
  {
    var (p, c) := pair;
    var f1 := RegisterParent(f, p, c).0;
    RegisterParentKeepsValid(f, p, c);
    if !(c in f1.nodes && c in f1.parent) && !ClosesCycle(f1.parent, p, c) {
      AttachKeepsValid(f1, p, c);
    }
  }

  /** The registry invariants hold after every prefix of the input. */
  lemma {:induction false} AddPairsKeepsValid(f: Forest, pairs: seq<(char, char)>)
    requires Valid(f)
    ensures Valid(AddPairs(f, pairs).0)
  {
    if pairs != [] {
      AddPairsKeepsValid(f, pairs[..|pairs| - 1]);
      AddPairKeepsValid(AddPairs(f, pairs[..|pairs| - 1]).0, pairs[|pairs| - 1]);
    }
  }

  // ---------------------------------------------------------------------------------------------
  // What one pair does
  // ---------------------------------------------------------------------------------------------

  /** A child that already has a parent is never re-parented: the pair reports CycleDetected and leaves
      every link and slot as it was; at most the parent gets registered. */
  lemma ReparentingRejected(f: Forest, p: char, c: char)
    requires Closed(f) && c in f.parent
    ensures var (g, reports) := AddPair(f, (p, c));
      && CycleDetected in reports
      && g.parent == f.parent && g.left == f.left && g.right == f.right
      && g.nodes == f.nodes + {p}
  {
  }

  /** A pair whose child is the parent itself or one of its ancestors reports CycleDetected and the
      tentative link is undone: the links and slots are unchanged. */
  lemma CycleRejected(f: Forest, p: char, c: char)
    requires Closed(f) && AncestorOrSelf(f.parent, c, p)
    ensures var (g, reports) := AddPair(f, (p, c));
      && CycleDetected in reports
      && g.parent == f.parent && g.left == f.left && g.right == f.right
      && g.nodes == f.nodes + {p}
  {
    var f1 := RegisterParent(f, p, c).0;
    if c !in f1.parent {
      ClosesCycleIffAncestor(f1.parent, p, c);
    }
  }

  /** A self-pair (A,A) is always rejected as a cycle. */
  lemma SelfPairRejected(f: Forest, a: char)
    requires Closed(f)
    ensures var (g, reports) := AddPair(f, (a, a));
      CycleDetected in reports && g.parent == f.parent && g.left == f.left && g.right == f.right
  {
    assert Up(f.parent, a, 0) == Some(a);
    CycleRejected(f, a, a);
  }

  /** A repeated pair reports DuplicatePair and never TooManyChildren, whatever the slots hold. */
  lemma DuplicateBeforeTooMany(f: Forest, p: char, c: char)
    requires Valid(f) && p in f.nodes && c in Children(f, p)
    ensures var (g, reports) := AddPair(f, (p, c));
      && reports == [DuplicatePair, CycleDetected]
      && RecordAll(NoErrors, reports) == DuplicatePair
      && g == f
  {
  }

  /** A third distinct child reports TooManyChildren (or CycleDetected, if it already has a parent) and the
      parent's slots are not touched. */
  lemma ThirdChildRejected(f: Forest, p: char, c: char)
    requires Valid(f) && p in f.left && p in f.right && c !in Children(f, p)
    ensures var (g, reports) := AddPair(f, (p, c));
      && reports[0] == TooManyChildren
      && g.left == f.left && g.right == f.right
  {
  }

  /** No slot is ever overwritten: the children a node holds stay its children after any pair. */
  lemma ChildrenKept(f: Forest, pair: (char, char), x: char)
    requires Valid(f)
    ensures Children(f, x) <= Children(AddPair(f, pair).0, x)
  {
  }

  /** Attaching to a node with a free slot adds the child to that node's children and changes no other
      node's children. */
  lemma AttachChildren(f: Forest, p: char, c: char, x: char)
    requires !(p in f.left && p in f.right)
    ensures Children(Attach(f, p, c), x) == if x == p then Children(f, p) + {c} else Children(f, x)
  {
  }

  /** A parent whose two slots are full, offered a child without a parent, reports TooManyChildren. */
  lemma FullParentReports(f: Forest, p: char, c: char)
    requires Valid(f) && !(c in f.nodes && c in f.parent)
    ensures p in f.left && p in f.right ==> TooManyChildren in RegisterParent(f, p, c).1
  {
    if p in f.left && p in f.right {
      assert f.left[p] in f.parent && f.right[p] in f.parent;
      assert p in f.nodes;
    }
  }

  /** Attaching to a node with a free slot keeps every child in its parent's slots. */
  lemma AttachKeepsSlotted(f: Forest, p: char, c: char)
    requires Slotted(f) && !(p in f.left && p in f.right)
    ensures Slotted(Attach(f, p, c))
  {
    var g := Attach(f, p, c);
    forall x | x in g.parent
      ensures x in Children(g, g.parent[x])
    {
      if x == c {
        AttachChildren(f, p, c, p);
      } else {
        AttachChildren(f, p, c, f.parent[x]);
      }
    }
  }

  /** A pair that reports no TooManyChildren places an attached child in a slot, so every node with a parent
      stays in one of its parent's slots. */
  lemma AddPairKeepsSlotted(f: Forest, pair: (char, char))
    requires Valid(f) && Slotted(f)
    requires TooManyChildren !in AddPair(f, pair).1
    ensures Slotted(AddPair(f, pair).0)
  {
    var (p, c) := pair;
    var (f1, r1) := RegisterParent(f, p, c);
    RegisterParentKeepsValid(f, p, c);
    assert Slotted(f1) by {
      forall x | x in f1.parent
        ensures x in Children(f1, f1.parent[x])
      {
        assert Children(f1, f.parent[x]) == Children(f, f.parent[x]);
      }
    }
    if !((c in f1.nodes && c in f1.parent) || ClosesCycle(f1.parent, p, c)) {
      FullParentReports(f, p, c);
      assert TooManyChildren !in r1;
      AttachKeepsSlotted(f1, p, c);
    }
  }

  /** No pair changes a parent link that is already set; a pair that reports no CycleDetected links its
      child to its parent. */
  lemma AddPairKeepsLinks(f: Forest, pair: (char, char))
    requires Closed(f)
    ensures var g := AddPair(f, pair).0;
      forall x :: x in f.parent ==> x in g.parent && g.parent[x] == f.parent[x]
    ensures CycleDetected !in AddPair(f, pair).1 ==>
      pair.1 in AddPair(f, pair).0.parent && AddPair(f, pair).0.parent[pair.1] == pair.0
  {
  }

  /** A pair that reports no CycleDetected registers both of its nodes. */
  lemma AddPairRegistersBoth(f: Forest, pair: (char, char))
    requires CycleDetected !in AddPair(f, pair).1
    ensures AddPair(f, pair).0.nodes == f.nodes + {pair.0, pair.1}
  {
  }

  // ---------------------------------------------------------------------------------------------
  // The whole loop
  // ---------------------------------------------------------------------------------------------

  /** One more pair of the input: the registry and the reports of the prefix it extends. */
  lemma AddPairsSnoc(f: Forest, pairs: seq<(char, char)>, i: nat)
    requires i < |pairs|
    ensures var (g, rs) := AddPairs(f, pairs[..i]);
      AddPairs(f, pairs[..i + 1]) == (AddPair(g, pairs[i]).0, rs + AddPair(g, pairs[i]).1)
  {
    assert pairs[..i + 1][..i] == pairs[..i];
  }

  /** Building the registry only ever reports DuplicatePair, TooManyChildren or CycleDetected. */
  lemma {:induction false} AddPairsReportKinds(f: Forest, pairs: seq<(char, char)>)
    ensures forall e :: e in AddPairs(f, pairs).1 ==> e in {DuplicatePair, TooManyChildren, CycleDetected}
  {
    if pairs != [] {
      AddPairsReportKinds(f, pairs[..|pairs| - 1]);
    }
  }

  /** When no TooManyChildren was reported, every node with a parent sits in its parent's slot. */
  lemma {:induction false} AddPairsSlotted(pairs: seq<(char, char)>)
    requires TooManyChildren !in AddPairs(Empty, pairs).1
    ensures Slotted(AddPairs(Empty, pairs).0)
  {
    if pairs != [] {
      var init := pairs[..|pairs| - 1];
      AddPairsSlotted(init);
      EmptyIsValid();
      AddPairsKeepsValid(Empty, init);
      AddPairKeepsSlotted(AddPairs(Empty, init).0, pairs[|pairs| - 1]);
    }
  }

  /** When no CycleDetected was reported, the registry holds exactly the characters of the pairs. */
  lemma {:induction false} AddPairsRegistersAll(pairs: seq<(char, char)>)
    requires CycleDetected !in AddPairs(Empty, pairs).1
    ensures AddPairs(Empty, pairs).0.nodes == Symbols(pairs)
  {
    if pairs != [] {
      var init := pairs[..|pairs| - 1];
      var last := pairs[|pairs| - 1];
      AddPairsRegistersAll(init);
      AddPairRegistersBoth(AddPairs(Empty, init).0, last);
    }
  }
}
