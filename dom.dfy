/** The part of the document tree that an outside-click filter looks at: every node's
    `parentNode` link, and the element argument a caller passes as the "inside" boundary. */
module Dom {

  /** Identity of a DOM node (the `===` of the source compares these). */
  type NodeId = nat

  /** Parent links of the document. A node with no entry in `parentNode` has a null
      `parentNode` (the document node itself, or a detached node). `depth` is a rank that
      strictly drops along every link, which is what makes the tree acyclic; a node with
      no entry has depth 0. */
  datatype DomTree = DomTree(parentNode: map<NodeId, NodeId>, depth: map<NodeId, nat>)
  {
    function Depth(n: NodeId): nat {
      if n in depth then depth[n] else 0
    }

    predicate Acyclic() {
      forall n :: n in parentNode ==> Depth(parentNode[n]) < Depth(n)
    }
  }

  /** A well-formed document tree. */
  type Tree = t: DomTree | t.Acyclic() witness DomTree(map[], map[])

  /** `c` lists `t` and then its ancestors, one `parentNode` link at a time, up to a node
      whose `parentNode` is null. */
  ghost predicate IsPathToRoot(tree: Tree, t: NodeId, c: seq<NodeId>) {
    && |c| >= 1
    && c[0] == t
    && c[|c| - 1] !in tree.parentNode
    && (forall i :: 0 <= i < |c| - 1 ==> c[i] in tree.parentNode && tree.parentNode[c[i]] == c[i + 1])
  }

  /** The node `t` followed by all of its ancestors: the nodes the click filter's walk
      compares with the boundary element. */
  function Chain(tree: Tree, t: NodeId): seq<NodeId>
    decreases tree.Depth(t)
  {
    if t in tree.parentNode then [t] + Chain(tree, tree.parentNode[t]) else [t]
  }

  /** Chain follows the `parentNode` links from `t` and stops at the first null link. */
  lemma {:induction false} ChainIsPathToRoot(tree: Tree, t: NodeId)
    ensures IsPathToRoot(tree, t, Chain(tree, t))
    decreases tree.Depth(t)
  {
    if t in tree.parentNode {
      ChainIsPathToRoot(tree, tree.parentNode[t]);
    }
  }

  /** `t` is the node `b` or one of its descendants: `b` is met on the way up from `t`. */
  predicate Within(tree: Tree, t: NodeId, b: NodeId)
    decreases tree.Depth(t)
  {
    t == b || (t in tree.parentNode && Within(tree, tree.parentNode[t], b))
  }

  /** Being inside `b` is having `b` on the chain of ancestors. */
  lemma {:induction false} WithinChain(tree: Tree, t: NodeId, b: NodeId)
    ensures Within(tree, t, b) <==> b in Chain(tree, t)
    decreases tree.Depth(t)
  {
    if t in tree.parentNode {
      WithinChain(tree, tree.parentNode[t], b);
    }
  }

  /** The path to the root is unique: Chain is the only sequence that follows the
      parent links from `t` to a root. */
  lemma {:induction false} ChainUnique(tree: Tree, t: NodeId, c: seq<NodeId>)
    requires IsPathToRoot(tree, t, c)
    ensures c == Chain(tree, t)
    decreases tree.Depth(t)
  {
    if t in tree.parentNode {
      assert |c| > 1;
      var p := tree.parentNode[t];
      assert IsPathToRoot(tree, p, c[1..]) by {
        forall i | 0 <= i < |c[1..]| - 1
          ensures c[1..][i] in tree.parentNode && tree.parentNode[c[1..][i]] == c[1..][i + 1]
        {
          assert c[1..][i] == c[i + 1];
        }
      }
      ChainUnique(tree, p, c[1..]);
      assert c == [t] + c[1..];
    } else {
      assert |c| == 1;
    }
  }

  /** No node on the chain lies deeper than its start. */
  lemma {:induction false} ChainDepthBound(tree: Tree, t: NodeId)
    ensures forall x :: x in Chain(tree, t) ==> tree.Depth(x) <= tree.Depth(t)
    decreases tree.Depth(t)
  {
    if t in tree.parentNode {
      ChainDepthBound(tree, tree.parentNode[t]);
    }
  }

  /** The parent of the boundary is not inside it (a click on the boundary's own parent
      counts as outside). */
  lemma ParentIsOutside(tree: Tree, b: NodeId)
    requires b in tree.parentNode
    ensures !Within(tree, tree.parentNode[b], b)
  {
    WithinChain(tree, tree.parentNode[b], b);
    ChainDepthBound(tree, tree.parentNode[b]);
  }

  /** Inside-ness is transitive: a descendant of a descendant of `b` is a descendant of `b`. */
  lemma {:induction false} WithinTransitive(tree: Tree, a: NodeId, m: NodeId, b: NodeId)
    requires Within(tree, a, m) && Within(tree, m, b)
    ensures Within(tree, a, b)
    decreases tree.Depth(a)
  {
    if a != m {
      assert a in tree.parentNode;
      WithinTransitive(tree, tree.parentNode[a], m, b);
    }
  }

  /** A sibling of the boundary is outside it. */
  lemma SiblingIsOutside(tree: Tree, x: NodeId, b: NodeId)
    requires x != b && x in tree.parentNode && b in tree.parentNode
    requires tree.parentNode[x] == tree.parentNode[b]
    ensures !Within(tree, x, b)
  {
    ParentIsOutside(tree, b);
  }

  /** The `element` argument of the click filter, as the caller may pass it: nothing (a
      falsy value), a raw DOM node, or a jqLite wrapper (an array-like of nodes). A raw
      node carries the items its own indexed getter exposes: the controls of a `<form>`,
      the options of a `<select>`, and nothing for most other nodes. */
  datatype ElementArg = Missing | Raw(node: NodeId, items: seq<NodeId>) | Wrapped(nodes: seq<NodeId>)

  /** What the handler compares the click target with: no boundary, a DOM node, or a
      truthy value that is not a node (an empty wrapper), which no target ever equals. */
  datatype Boundary = NoBoundary | Node(id: NodeId) | NotANode

  /** The unwrapping at the head of `click`: an argument with a first indexed item, a
      wrapper or a raw node alike, is replaced by that item; anything else is kept. */
  function Unwrap(e: ElementArg): (r: Boundary)
    ensures r == NoBoundary <==> e == Missing
    ensures r == NotANode <==> e == Wrapped([])
    ensures e.Wrapped? && e.nodes != [] ==> r == Node(e.nodes[0])
    ensures e.Raw? && e.items != [] ==> r == Node(e.items[0])
    ensures e.Raw? && e.items == [] ==> r == Node(e.node)
  {
    match e
    case Missing => NoBoundary
    case Raw(node, items) => if |items| > 0 then Node(items[0]) else Node(node)
    case Wrapped(nodes) => if |nodes| > 0 then Node(nodes[0]) else NotANode
  }

  /** A click on `t` is inside the (unwrapped) boundary: the boundary is a DOM node and
      `t` is that node or one of its descendants. No boundary, and a boundary that is not
      a node, are never met by the walk. */
  predicate Inside(tree: Tree, t: NodeId, boundary: Boundary) {
    boundary.Node? && Within(tree, t, boundary.id)
  }

  /** For a raw node without indexed items, and for a wrapper around it, "inside" means
      inside that node. */
  lemma NodeBoundary(tree: Tree, t: NodeId, n: NodeId)
    ensures Inside(tree, t, Unwrap(Raw(n, []))) <==> Within(tree, t, n)
    ensures Inside(tree, t, Unwrap(Wrapped([n]))) <==> Within(tree, t, n)
  {
  }

  /** A raw node with indexed items (a `<form>`, a `<select>`) is replaced by its first
      item, so a click inside the node but outside that first item counts as outside. */
  lemma IndexedNodeBoundary(tree: Tree, t: NodeId, n: NodeId, items: seq<NodeId>)
    requires items != [] && Within(tree, t, n) && !Within(tree, t, items[0])
    ensures !Inside(tree, t, Unwrap(Raw(n, items)))
  {
  }

  /** With no boundary, or one that is not a node, every click is outside. */
  lemma NoNodeBoundary(tree: Tree, t: NodeId)
    ensures !Inside(tree, t, Unwrap(Missing)) && !Inside(tree, t, Unwrap(Wrapped([])))
  {
  }

  /** The walk of the click filter: compare the target with the boundary, then follow
      `parentNode` until the boundary is met or the link is null. */
  method ClickedInside(tree: Tree, target: NodeId, boundary: Boundary) returns (inside: bool)
    ensures inside <==> Inside(tree, target, boundary)
  {
    var t := target;
    if Node(t) == boundary {
      return true;
    }
    while t in tree.parentNode
      invariant Inside(tree, target, boundary) <==> Inside(tree, t, boundary)
      invariant Node(t) != boundary
      decreases tree.Depth(t)
    {
      t := tree.parentNode[t];
      if Node(t) == boundary {
        assert Within(tree, t, t);
        return true;
      }
    }
    return false;
  }
}
