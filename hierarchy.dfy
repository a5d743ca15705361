/**
 * The scene hierarchy seen by the window: named nodes (Unity Transforms),
 * each with at most one parent and an ordered list of children.
 * A node without a parent is a scene root; a scene may have several roots.
 */
module Hierarchy {

  /** Identity of a scene node (Unity object identity). */
  type Node = nat

  /**
   * `depth` is the number of parent links from a node up to its root; it is
   * part of the model so that every upward walk has an evident measure.
   */
  datatype Scene = Scene(
    name: map<Node, string>,
    parent: map<Node, Node>,
    children: map<Node, seq<Node>>,
    depth: map<Node, nat>)

  /** `n` is not a scene root. */
  predicate HasParent(s: Scene, n: Node)
  {
    n in s.parent
  }

  /** A well-formed forest: parent and children agree, depth counts parent links. */
  ghost predicate Valid(s: Scene)
  {
    && s.parent.Keys <= s.name.Keys
    && s.children.Keys == s.name.Keys
    && s.depth.Keys == s.name.Keys
    && (forall n {:trigger s.parent[n]} :: n in s.parent ==>
          && s.parent[n] in s.name
          && s.depth[n] == s.depth[s.parent[n]] + 1
          && n in s.children[s.parent[n]])
    && (forall n {:trigger HasParent(s, n)} :: n in s.name && s.depth[n] != 0 ==> HasParent(s, n))
    && (forall p, i {:trigger s.children[p][i]} :: p in s.children && 0 <= i < |s.children[p]| ==>
          s.children[p][i] in s.parent && s.parent[s.children[p][i]] == p)
  }

  /** The node `k` parent links above `d` (`Up(s, d, 0) == d`). */
  function Up(s: Scene, d: Node, k: nat): (r: Node)
    requires Valid(s) && d in s.name && k <= s.depth[d]
    ensures r in s.name && s.depth[r] + k == s.depth[d]
    decreases k
  {
    if k == 0 then d else assert HasParent(s, d); Up(s, s.parent[d], k - 1)
  }

  /** `a` lies on the chain from `d` up to its root (`d` itself included). */
  predicate IsAncestor(s: Scene, a: Node, d: Node)
    requires Valid(s) && d in s.name
  {
    a in s.name && s.depth[a] <= s.depth[d] && Up(s, d, s.depth[d] - s.depth[a]) == a
  }

  /** A scene root is at depth 0. */
  lemma RootDepth(s: Scene, n: Node)
    requires Valid(s) && n in s.name && n !in s.parent
    ensures s.depth[n] == 0
  {
    assert !HasParent(s, n);
  }

  /** A node below depth 0 has a parent. */
  lemma NotRoot(s: Scene, n: Node)
    requires Valid(s) && n in s.name && s.depth[n] != 0
    ensures n in s.parent
  {
    assert HasParent(s, n);
  }

  /** One more step up the chain is the parent of the node reached so far. */
  lemma {:induction false} UpStep(s: Scene, d: Node, k: nat)
    requires Valid(s) && d in s.name && k < s.depth[d]
    ensures Up(s, d, k) in s.parent && Up(s, d, k + 1) == s.parent[Up(s, d, k)]
    decreases k
  {
    NotRoot(s, d);
    if k > 0 {
      UpStep(s, s.parent[d], k - 1);
    }
  }

  /** Walking up `k` links and then `m` more is walking up `k + m` links. */
  lemma {:induction false} UpUp(s: Scene, d: Node, k: nat, m: nat)
    requires Valid(s) && d in s.name && k + m <= s.depth[d]
    ensures Up(s, Up(s, d, k), m) == Up(s, d, k + m)
    decreases k
  {
    if k > 0 {
      NotRoot(s, d);
      UpUp(s, s.parent[d], k - 1, m);
    }
  }
}
