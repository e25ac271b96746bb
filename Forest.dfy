/** The node registry as a value: one node per character, with its parent link and its two child slots.
    Node.Parent, Node.LeftChild and Node.RightChild become three maps keyed by the node's character. */
module Forest {
  import opened ErrorReporting

  datatype Forest = Forest(
    nodes: set<char>,            // the keys of the registry
    parent: map<char, char>,     // Node.Parent, for nodes that have one
    left: map<char, char>,       // Node.LeftChild
    right: map<char, char>)      // Node.RightChild

  const Empty := Forest({}, map[], map[], map[])

  function Get(m: map<char, char>, x: char): Option<char>
  {
    if x in m then Some(m[x]) else None
  }

  /** The node n steps up the parent chain from x (x itself for n = 0); None once the chain has ended. */
  function Up(parent: map<char, char>, x: char, n: nat): Option<char>
    decreases n
  {
    if n == 0 then Some(x)
    else if x in parent then Up(parent, parent[x], n - 1)
    else None
  }

  /** a lies on the parent chain of x, x included. */
  ghost predicate AncestorOrSelf(parent: map<char, char>, a: char, x: char)
  {
    exists n: nat :: Up(parent, x, n) == Some(a)
  }

  /** a lies on the parent chain of x, x excluded. */
  ghost predicate ProperAncestor(parent: map<char, char>, a: char, x: char)
  {
    exists n: nat :: n >= 1 && Up(parent, x, n) == Some(a)
  }

  /** A rank that strictly decreases along every parent link. */
  ghost predicate Ranked(parent: map<char, char>, rank: map<char, nat>)
  {
    forall x :: x in parent ==> x in rank && parent[x] in rank && rank[parent[x]] < rank[x]
  }

  /** The parent links form no cycle: some rank decreases along all of them. */
  ghost predicate Acyclic(parent: map<char, char>)
  {
    exists rank :: Ranked(parent, rank)
  }

  /** Every link points between registered nodes. */
  ghost predicate Closed(f: Forest)
  {
    && f.parent.Keys <= f.nodes
    && f.parent.Values <= f.nodes
    && f.left.Keys <= f.nodes
  }

  /** The slot invariants kept by ConnectNodes: a right child only next to a left child, left value below
      right value, and a child in a slot has that node as its parent. */
  ghost predicate SlotsOrdered(f: Forest)
  {
    && f.right.Keys <= f.left.Keys
    && (forall x :: x in f.left ==> f.left[x] in f.parent && f.parent[f.left[x]] == x)
    && (forall x :: x in f.right ==> f.right[x] in f.parent && f.parent[f.right[x]] == x && f.left[x] < f.right[x])
  }

  ghost predicate Valid(f: Forest)
  {
    Closed(f) && SlotsOrdered(f) && Acyclic(f.parent)
  }

  /** The empty registry satisfies every invariant. */
  lemma EmptyIsValid()
    ensures Valid(Empty)
  {
    assert Ranked(Empty.parent, map[]);
  }

  /** The children a node holds in its two slots. */
  function Children(f: Forest, x: char): set<char>
  {
    (if x in f.left then {f.left[x]} else {}) + (if x in f.right then {f.right[x]} else {})
  }

  /** Every node that has a parent sits in one of that parent's slots. */
  ghost predicate Slotted(f: Forest)
  {
    forall x :: x in f.parent ==> x in Children(f, f.parent[x])
  }

  /** Node.IsRoot over the registry: the registered nodes without a parent. */
  function Roots(f: Forest): set<char>
  {
    set x | x in f.nodes && x !in f.parent
  }

  /** The root handed to serialization when there is at most one: none, or the only one. */
  ghost function TheRoot(f: Forest): (root: Option<char>)
    requires |Roots(f)| <= 1
    ensures root.None? <==> Roots(f) == {}
    ensures root.Some? ==> Roots(f) == {root.value}
  {
    if Roots(f) == {} then None
    else
      var r :| r in Roots(f);
      assert Roots(f) == {r} by {
        assert |Roots(f) - {r}| == |Roots(f)| - 1 == 0;
        assert Roots(f) - {r} == {};
      }
      Some(r)
  }

  /** Walking a + b steps is walking a steps and then b more. */
  lemma {:induction false} UpAdd(parent: map<char, char>, x: char, a: nat, b: nat)
    ensures Up(parent, x, a + b) == match Up(parent, x, a) case None => None case Some(y) => Up(parent, y, b)
    decreases a
  {
    if a > 0 && x in parent {
      UpAdd(parent, parent[x], a - 1, b);
    }
  }

  /** Once the chain has ended it stays ended. */
  lemma UpEnded(parent: map<char, char>, x: char, a: nat, b: nat)
    requires Up(parent, x, a) == None && a <= b
    ensures Up(parent, x, b) == None
  {
    UpAdd(parent, x, a, b - a);
  }

  /** Every step up the chain lowers the rank. */
  lemma {:induction false} UpLowersRank(parent: map<char, char>, rank: map<char, nat>, x: char, n: nat)
    requires Ranked(parent, rank) && n >= 1 && Up(parent, x, n).Some?
    ensures x in rank && Up(parent, x, n).value in rank && rank[Up(parent, x, n).value] < rank[x]
    decreases n
  {
    if n > 1 {
      UpLowersRank(parent, rank, parent[x], n - 1);
    }
  }

  /** No node is its own proper ancestor. */
  lemma NoCycle(parent: map<char, char>, x: char, n: nat)
    requires Acyclic(parent) && n >= 1
    ensures Up(parent, x, n) != Some(x)
  {
    var rank :| Ranked(parent, rank);
    if Up(parent, x, n).Some? {
      UpLowersRank(parent, rank, x, n);
    }
  }

  /** Following the parent links from a registered node ends at a root. */
  lemma {:induction false} ReachesRoot(f: Forest, rank: map<char, nat>, x: char) returns (n: nat)
    requires Closed(f) && Ranked(f.parent, rank) && x in f.nodes
    ensures Up(f.parent, x, n).Some? && Up(f.parent, x, n).value in Roots(f)
    decreases if x in rank then rank[x] else 0
  {
    if x !in f.parent {
      n := 0;
    } else {
      var m := ReachesRoot(f, rank, f.parent[x]);
      n := m + 1;
    }
  }

  /** A non-empty acyclic registry has a root, so "zero roots" only happens for an empty registry. */
  lemma RootExists(f: Forest)
    requires Closed(f) && Acyclic(f.parent) && f.nodes != {}
    ensures Roots(f) != {}
  {
    var rank :| Ranked(f.parent, rank);
    var x :| x in f.nodes;
    var n := ReachesRoot(f, rank, x);
  }

  /** With a single root, every registered node has that root on its parent chain. */
  lemma SingleRootIsAncestorOfAll(f: Forest, r: char, x: char)
    requires Closed(f) && Acyclic(f.parent) && Roots(f) == {r} && x in f.nodes
    ensures AncestorOrSelf(f.parent, r, x)
  {
    var rank :| Ranked(f.parent, rank);
    var n := ReachesRoot(f, rank, x);
  }
}
