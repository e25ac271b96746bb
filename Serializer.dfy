/** ProduceSequenceOutput / Wrap: the nested-bracket serialization of the tree below a node. */
module Serializer {
  import opened ErrorReporting
  import opened Forest

  /** The registered nodes that are not on the chain from x up to its root. Moving from a node to one of
      its children removes that child from this set, which bounds the recursion of Wrap. */
  ghost function Below(f: Forest, node: Option<char>): set<char>
  {
    match node
    case None => {}
    case Some(x) => set y | y in f.nodes && !AncestorOrSelf(f.parent, y, x)
  }

  /** A child's Below set is a strict subset of its parent's. */
  lemma ChildShrinks(f: Forest, x: char, c: char)
    requires Valid(f) && c in f.parent && f.parent[c] == x
    ensures Below(f, Some(c)) < Below(f, Some(x))
  {
    forall y | AncestorOrSelf(f.parent, y, x)
      ensures AncestorOrSelf(f.parent, y, c)
    {
      var n: nat :| Up(f.parent, x, n) == Some(y);
      assert Up(f.parent, c, n + 1) == Some(y);
    }
    assert Up(f.parent, c, 0) == Some(c);
    ChildNotAboveParent(f, x, c);
    assert c in Below(f, Some(x)) && c !in Below(f, Some(c));
  }

  /** A child is not on the parent chain of its own parent. */
  lemma ChildNotAboveParent(f: Forest, x: char, c: char)
    requires Valid(f) && c in f.parent && f.parent[c] == x
    ensures !AncestorOrSelf(f.parent, c, x)
  {
    forall n: nat
      ensures Up(f.parent, x, n) != Some(c)
    {
      NoCycle(f.parent, c, n + 1);
      assert Up(f.parent, c, n + 1) == Up(f.parent, x, n);
    }
  }

  /** Both slot children of a registered node are registered and have a smaller Below set. */
  lemma ChildrenShrink(f: Forest, x: char)
    requires Valid(f) && x in f.nodes
    ensures forall c :: c in Children(f, x) ==> c in f.nodes && Below(f, Some(c)) < Below(f, Some(x))
  {
    forall c | c in Children(f, x)
      ensures c in f.nodes && Below(f, Some(c)) < Below(f, Some(x))
    {
      ChildShrinks(f, x, c);
    }
  }

  /** Wrap: "" for no node, "(v)" for a childless node, otherwise "(v" + Wrap(left) + Wrap(right) + ")". */
  function Wrap(f: Forest, node: Option<char>): (s: string)
    requires Valid(f) && (node.Some? ==> node.value in f.nodes)
    ensures node.None? <==> s == []
    ensures node.Some? ==> |s| >= 3 && s[0] == '(' && s[1] == node.value && s[|s| - 1] == ')'
    decreases Below(f, node), if node.Some? then 1 else 0
  {
    match node
    case None => ""
    case Some(x) =>
      if x !in f.left && x !in f.right then "(" + [x] + ")"
      else
        ChildrenShrink(f, x);
        "(" + [x] + Wrap(f, Get(f.left, x)) + Wrap(f, Get(f.right, x)) + ")"
  }

  /** The nodes reachable from a node through the child slots, itself included. */
  ghost function Subtree(f: Forest, node: Option<char>): set<char>
    requires Valid(f) && (node.Some? ==> node.value in f.nodes)
    decreases Below(f, node), if node.Some? then 1 else 0
  {
    match node
    case None => {}
    case Some(x) =>
      ChildrenShrink(f, x);
      {x} + Subtree(f, Get(f.left, x)) + Subtree(f, Get(f.right, x))
  }

  /** Every node of the subtree of x has x on its parent chain. */
  lemma SubtreeBelowNode(f: Forest, x: char, y: char)
    requires Valid(f) && x in f.nodes
    ensures y in Subtree(f, Some(x)) ==> AncestorOrSelf(f.parent, x, y)
    decreases Below(f, Some(x))
  {
    if y == x {
      assert Up(f.parent, y, 0) == Some(x);
    } else if y in Subtree(f, Some(x)) {
      ChildrenShrink(f, x);
      var c: char;
      if x in f.left && y in Subtree(f, Some(f.left[x])) {
        c := f.left[x];
      } else {
        assert y in Subtree(f, Get(f.right, x));
        c := f.right[x];
      }
      SubtreeBelowNode(f, c, y);
      var n: nat :| Up(f.parent, y, n) == Some(c);
      UpAdd(f.parent, y, n, 1);
      assert Up(f.parent, y, n + 1) == Some(x);
    }
  }

  /** Two different children of one node never both lie on one parent chain. */
  lemma SiblingsApart(f: Forest, x: char, u: char, v: char, y: char, a: nat, b: nat)
    requires Valid(f) && u in f.parent && v in f.parent && f.parent[u] == x && f.parent[v] == x && u != v
    requires a <= b
    ensures !(Up(f.parent, y, a) == Some(u) && Up(f.parent, y, b) == Some(v))
  {
    UpAdd(f.parent, y, a, b - a);
    var d := b - a;
    if d >= 1 {
      NoCycle(f.parent, v, d);
      assert Up(f.parent, u, d) == Up(f.parent, x, d - 1) == Up(f.parent, v, d);
    }
  }

  /** Two different children of one node have disjoint subtrees. */
  lemma SiblingSubtreesDisjoint(f: Forest, x: char, c1: char, c2: char)
    requires Valid(f) && c1 in f.parent && c2 in f.parent && f.parent[c1] == x && f.parent[c2] == x && c1 != c2
    ensures Subtree(f, Some(c1)) !! Subtree(f, Some(c2))
  {
    forall y | y in Subtree(f, Some(c1))
      ensures y !in Subtree(f, Some(c2))
    {
      SubtreeBelowNode(f, c1, y);
      SubtreeBelowNode(f, c2, y);
      var a: nat :| Up(f.parent, y, a) == Some(c1);
      forall b: nat
        ensures Up(f.parent, y, b) != Some(c2)
      {
        if a <= b {
          SiblingsApart(f, x, c1, c2, y, a, b);
        } else {
          SiblingsApart(f, x, c2, c1, y, b, a);
        }
      }
    }
  }

  /** A node is not in the subtree of its own child. */
  lemma NodeNotBelowChild(f: Forest, x: char, c: char)
    requires Valid(f) && c in f.parent && f.parent[c] == x
    ensures x !in Subtree(f, Some(c))
  {
    SubtreeBelowNode(f, c, x);
    ChildNotAboveParent(f, x, c);
  }

  /** One bracket pair per node: the serialization has three characters, "(", the value and ")", for each
      node of the subtree. */
  lemma {:induction false} WrapLength(f: Forest, node: Option<char>)
    requires Valid(f) && (node.Some? ==> node.value in f.nodes)
    ensures |Wrap(f, node)| == 3 * |Subtree(f, node)|
    decreases Below(f, node), if node.Some? then 1 else 0
  {
    match node
    case None =>
    case Some(x) =>
      ChildrenShrink(f, x);
      var l, r := Get(f.left, x), Get(f.right, x);
      WrapLength(f, l);
      WrapLength(f, r);
      if l.Some? { NodeNotBelowChild(f, x, l.value); }
      if r.Some? { NodeNotBelowChild(f, x, r.value); }
      if l.Some? && r.Some? { SiblingSubtreesDisjoint(f, x, l.value, r.value); }
      assert Subtree(f, l) !! Subtree(f, r);
      assert |Subtree(f, node)| == 1 + |Subtree(f, l)| + |Subtree(f, r)|;
  }

  // ---------------------------------------------------------------------------------------------
  // Balanced brackets
  // ---------------------------------------------------------------------------------------------

  /** Reads s from nesting depth d: the depth at the end, or None if a ")" closes nothing. */
  function Nesting(s: string, d: nat): Option<nat>
  {
    if s == [] then Some(d)
    else if s[0] == '(' then Nesting(s[1..], d + 1)
    else if s[0] == ')' then (if d == 0 then None else Nesting(s[1..], d - 1))
    else Nesting(s[1..], d)
  }

  /** Every ")" closes an earlier "(" and every "(" is closed. */
  predicate Balanced(s: string)
  {
    Nesting(s, 0) == Some(0)
  }

  lemma {:induction false} NestingAppend(a: string, b: string, d: nat)
    ensures Nesting(a + b, d) == match Nesting(a, d) case None => None case Some(e) => Nesting(b, e)
  {
    if a == [] {
      assert a + b == b;
    } else {
      assert (a + b)[1..] == a[1..] + b;
      if a[0] == '(' {
        NestingAppend(a[1..], b, d + 1);
      } else if a[0] == ')' {
        if d > 0 { NestingAppend(a[1..], b, d - 1); }
      } else {
        NestingAppend(a[1..], b, d);
      }
    }
  }

  /** Reading from a deeper start ends exactly that much deeper. */
  lemma {:induction false} NestingShift(s: string, d: nat, k: nat, e: nat)
    requires Nesting(s, d) == Some(e)
    ensures Nesting(s, d + k) == Some(e + k)
  {
    if s != [] {
      if s[0] == '(' {
        NestingShift(s[1..], d + 1, k, e);
      } else if s[0] == ')' {
        NestingShift(s[1..], d - 1, k, e);
      } else {
        NestingShift(s[1..], d, k, e);
      }
    }
  }

  /** No node value is a bracket character. */
  ghost predicate NoBracketValues(f: Forest)
  {
    forall x :: x in f.nodes ==> x != '(' && x != ')'
  }

  /** A node whose value is not a bracket, around two balanced renderings, is balanced. */
  lemma BalancedNode(x: char, wl: string, wr: string)
    requires x != '(' && x != ')' && Balanced(wl) && Balanced(wr)
    ensures Balanced("(" + [x] + wl + wr + ")")
  {
    NestingShift(wl, 0, 1, 0);
    NestingShift(wr, 0, 1, 0);
    var s := "(" + [x] + wl + wr + ")";
    assert s == "(" + ([x] + (wl + (wr + ")")));
    NestingAppend("(", [x] + (wl + (wr + ")")), 0);
    NestingAppend([x], wl + (wr + ")"), 1);
    NestingAppend(wl, wr + ")", 1);
    NestingAppend(wr, ")", 1);
  }

  /** With no bracket characters among the values, every serialization is balanced. */
  lemma {:induction false} WrapBalanced(f: Forest, node: Option<char>)
    requires Valid(f) && (node.Some? ==> node.value in f.nodes) && NoBracketValues(f)
    ensures Balanced(Wrap(f, node))
    decreases Below(f, node), if node.Some? then 1 else 0
  {
    match node
    case None =>
    case Some(x) =>
      ChildrenShrink(f, x);
      var l, r := Get(f.left, x), Get(f.right, x);
      WrapBalanced(f, l);
      WrapBalanced(f, r);
      BalancedNode(x, Wrap(f, l), Wrap(f, r));
      if x !in f.left && x !in f.right {
        assert "(" + [x] + "" + "" + ")" == "(" + [x] + ")";
      }
  }

  // ---------------------------------------------------------------------------------------------
  // Reading a serialization back
  // ---------------------------------------------------------------------------------------------

  /** A binary tree as a value: the shape a serialization describes. */
  datatype Tree = Node(value: char, left: Option<Tree>, right: Option<Tree>)

  /** The tree hanging from a node of the registry. */
  ghost function Shape(f: Forest, node: Option<char>): (t: Option<Tree>)
    requires Valid(f) && (node.Some? ==> node.value in f.nodes)
    ensures t.Some? <==> node.Some?
    decreases Below(f, node), if node.Some? then 1 else 0
  {
    match node
    case None => None
    case Some(x) =>
      ChildrenShrink(f, x);
      Some(Node(x, Shape(f, Get(f.left, x)), Shape(f, Get(f.right, x))))
  }

  /** Reads one node "(v" child child ")" (zero, one or two children) from the front of s and returns it
      with the rest of s. */
  function ReadNode(s: string): (r: Option<(Tree, string)>)
    ensures r.Some? ==> |r.value.1| < |s|
    decreases |s|
  {
    if |s| < 3 || s[0] != '(' then None
    else
      var v := s[1];
      var rest := s[2..];
      if rest[0] == ')' then Some((Node(v, None, None), rest[1..]))
      else
        match ReadNode(rest)
        case None => None
        case Some((l, rest1)) =>
          if rest1 == [] then None
          else if rest1[0] == ')' then Some((Node(v, Some(l), None), rest1[1..]))
          else
            match ReadNode(rest1)
            case None => None
            case Some((r, rest2)) =>
              if rest2 != [] && rest2[0] == ')' then Some((Node(v, Some(l), Some(r)), rest2[1..]))
              else None
  }

  /** Reading "(v)" gives a leaf. */
  lemma ReadLeaf(v: char, rest: string)
    ensures ReadNode("(" + [v] + ")" + rest) == Some((Node(v, None, None), rest))
  {
    var s := "(" + [v] + ")" + rest;
    assert s[2..] == [')'] + rest;
  }

  /** Reading "(v", one node and ")" gives a node with a left child only. */
  lemma ReadOneChild(s: string, v: char, l: Tree, rest1: string, rest: string)
    requires |s| >= 3 && s[0] == '(' && s[1] == v && s[2] != ')'
    requires ReadNode(s[2..]) == Some((l, rest1))
    requires rest1 != [] && rest1[0] == ')' && rest1[1..] == rest
    ensures ReadNode(s) == Some((Node(v, Some(l), None), rest))
  {
  }

  /** Reading "(v", two nodes and ")" gives a node with both children. */
  lemma ReadTwoChildren(s: string, v: char, l: Tree, r: Tree, rest1: string, rest2: string, rest: string)
    requires |s| >= 3 && s[0] == '(' && s[1] == v && s[2] != ')'
    requires ReadNode(s[2..]) == Some((l, rest1)) && rest1 != [] && rest1[0] != ')'
    requires ReadNode(rest1) == Some((r, rest2))
    requires rest2 != [] && rest2[0] == ')' && rest2[1..] == rest
    ensures ReadNode(s) == Some((Node(v, Some(l), Some(r)), rest))
  {
  }

  /** The serialization of a node with two children, followed by rest: "(", the value, then the two
      children's serializations and ")" + rest. */
  lemma WrapSplitTwo(f: Forest, x: char, rest: string)
    requires Valid(f) && x in f.nodes && x in f.left && x in f.right
    ensures var s := Wrap(f, Some(x)) + rest;
      var wl := Wrap(f, Some(f.left[x]));
      var wr := Wrap(f, Some(f.right[x]));
      |s| >= 3 && s[0] == '(' && s[1] == x && s[2] != ')' && s[2..] == wl + (wr + (")" + rest))
  {
    ChildrenShrink(f, x);
    var s := Wrap(f, Some(x)) + rest;
    var wl, wr := Wrap(f, Some(f.left[x])), Wrap(f, Some(f.right[x]));
    assert s == "(" + [x] + (wl + (wr + (")" + rest)));
  }

  /** The serialization of a node with a left child only, followed by rest. */
  lemma WrapSplitOne(f: Forest, x: char, rest: string)
    requires Valid(f) && x in f.nodes && x in f.left && x !in f.right
    ensures var s := Wrap(f, Some(x)) + rest;
      var wl := Wrap(f, Some(f.left[x]));
      |s| >= 3 && s[0] == '(' && s[1] == x && s[2] != ')' && s[2..] == wl + (")" + rest)
  {
    ChildrenShrink(f, x);
    var s := Wrap(f, Some(x)) + rest;
    var wl := Wrap(f, Some(f.left[x]));
    assert s == "(" + [x] + (wl + (")" + rest));
  }

  /** Reading a serialization back recovers the tree it was produced from, whatever follows it. */
  lemma {:induction false} ReadWrap(f: Forest, x: char, rest: string)
    requires Valid(f) && x in f.nodes
    ensures ReadNode(Wrap(f, Some(x)) + rest) == Some((Shape(f, Some(x)).value, rest))
    decreases Below(f, Some(x))
  {
    ChildrenShrink(f, x);
    var s := Wrap(f, Some(x)) + rest;
    assert (")" + rest)[1..] == rest;
    if x !in f.left && x !in f.right {
      ReadLeaf(x, rest);
    } else if x in f.right {
      var l, r := f.left[x], f.right[x];
      WrapSplitTwo(f, x, rest);
      ReadWrap(f, l, Wrap(f, Some(r)) + (")" + rest));
      ReadWrap(f, r, ")" + rest);
      ReadTwoChildren(s, x, Shape(f, Some(l)).value, Shape(f, Some(r)).value,
        Wrap(f, Some(r)) + (")" + rest), ")" + rest, rest);
    } else {
      var l := f.left[x];
      WrapSplitOne(f, x, rest);
      ReadWrap(f, l, ")" + rest);
      ReadOneChild(s, x, Shape(f, Some(l)).value, ")" + rest, rest);
    }
  }
}
