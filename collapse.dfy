/**
 * Collapse restoration: which nodes the window collapses again after it
 * has applied a new selection, given the expanded snapshot it took before.
 * Collapsing a node is removing it from the hierarchy view's expanded set.
 */
module Collapse {
  import opened Options
  import opened Hierarchy
  import opened ChildPaths

  /** The path read back to front (Enumerable.Reverse). */
  function Reversed(p: seq<string>): (r: seq<string>)
    ensures |r| == |p|
    ensures forall k :: 0 <= k < |p| ==> r[k] == p[|p| - 1 - k]
  {
    if p == [] then [] else [p[|p| - 1]] + Reversed(p[..|p| - 1])
  }

  /**
   * The nodes that CollapseUp collapses when it starts at `t` with the
   * child-to-parent path `rev` and the snapshot `snap`: at each level it
   * stops at a name mismatch, at a node expanded in the snapshot, or at a
   * root; after a full walk it also collapses the level reached (the
   * remembered parent) unless that was expanded.
   */
  function CollapseSet(s: Scene, t: Node, rev: seq<string>, snap: set<Node>): (c: set<Node>)
    requires Valid(s) && t in s.name
    ensures c !! snap
    ensures forall x :: x in c ==> x in s.name && s.depth[x] <= s.depth[t] <= s.depth[x] + |rev|
    decreases |rev|
  {
    if rev == [] then (if t in snap then {} else {t})
    else if s.name[t] != rev[0] || t in snap then {}
    else if t !in s.parent then {t}
    else {t} + CollapseSet(s, s.parent[t], rev[1..], snap)
  }

  /** Every collapsed node is on the chain from `t` up, at most `|rev|` levels above `t`. */
  lemma {:induction false} CollapseSetOnChain(s: Scene, t: Node, rev: seq<string>, snap: set<Node>, x: Node)
    returns (k: nat)
    requires Valid(s) && t in s.name && x in CollapseSet(s, t, rev, snap)
    ensures k <= |rev| && k <= s.depth[t] && x == Up(s, t, k)
    decreases |rev|
  {
    if x == t {
      k := 0;
    } else {
      NotRoot(s, t);
      var k' := CollapseSetOnChain(s, s.parent[t], rev[1..], snap, x);
      k := k' + 1;
    }
  }

  /** No node from `t` up to `k` levels above it was expanded in the snapshot. */
  ghost predicate CollapsedUpTo(s: Scene, t: Node, snap: set<Node>, k: nat)
    requires Valid(s) && t in s.name && k <= s.depth[t]
  {
    forall j :: 0 <= j <= k ==> Up(s, t, j) !in snap
  }

  /** From `t` up to `k` levels above it, each node below the remembered-parent level has the expected name. */
  ghost predicate NamesMatchUpTo(s: Scene, t: Node, rev: seq<string>, k: nat)
    requires Valid(s) && t in s.name && k <= s.depth[t]
  {
    forall j :: 0 <= j <= k && j < |rev| ==> s.name[Up(s, t, j)] == rev[j]
  }

  /** The walk from `t` reaches level `k` and collapses it. */
  ghost predicate Reaches(s: Scene, t: Node, rev: seq<string>, snap: set<Node>, k: nat)
    requires Valid(s) && t in s.name && k <= s.depth[t]
  {
    CollapsedUpTo(s, t, snap, k) && NamesMatchUpTo(s, t, rev, k)
  }

  /** Reaching level `k` from `t` is passing `t` and reaching level `k - 1` from its parent. */
  lemma ReachesStep(s: Scene, t: Node, rev: seq<string>, snap: set<Node>, k: nat)
    requires Valid(s) && t in s.name && 0 < k <= s.depth[t] && rev != []
    ensures t in s.parent
    ensures Reaches(s, t, rev, snap, k) <==>
      s.name[t] == rev[0] && t !in snap && Reaches(s, s.parent[t], rev[1..], snap, k - 1)
  {
    NotRoot(s, t);
    var pt := s.parent[t];
    assert Up(s, t, 0) == t;
    forall j | 0 <= j < k
      ensures Up(s, t, j + 1) == Up(s, pt, j)
    {
    }
    if Reaches(s, t, rev, snap, k) {
      forall j | 0 <= j <= k - 1 && j < |rev[1..]|
        ensures s.name[Up(s, pt, j)] == rev[1..][j]
      {
        assert s.name[Up(s, t, j + 1)] == rev[j + 1];
      }
      forall j | 0 <= j <= k - 1
        ensures Up(s, pt, j) !in snap
      {
        assert Up(s, t, j + 1) !in snap;
      }
    }
    if s.name[t] == rev[0] && t !in snap && Reaches(s, pt, rev[1..], snap, k - 1) {
      forall j | 0 <= j <= k && j < |rev|
        ensures s.name[Up(s, t, j)] == rev[j]
      {
        if j > 0 {
          assert rev[j] == rev[1..][j - 1];
          assert Up(s, t, (j - 1) + 1) == Up(s, pt, j - 1);
        }
      }
      forall j | 0 <= j <= k
        ensures Up(s, t, j) !in snap
      {
        if j > 0 {
          assert Up(s, t, (j - 1) + 1) == Up(s, pt, j - 1);
        }
      }
    }
  }

  /**
   * The ancestor `k` levels above `t` is collapsed exactly when no node from
   * `t` up to it was expanded before and every one of them below the
   * remembered-parent level carries the name the reversed path expects.
   */
  lemma {:induction false} CollapseSetAt(s: Scene, t: Node, rev: seq<string>, snap: set<Node>, k: nat)
    requires Valid(s) && t in s.name && k <= |rev| && k <= s.depth[t]
    ensures Up(s, t, k) in CollapseSet(s, t, rev, snap) <==> Reaches(s, t, rev, snap, k)
    decreases k
  {
    if k == 0 {
      assert Up(s, t, 0) == t;
    } else {
      NotRoot(s, t);
      var pt := s.parent[t];
      CollapseSetAt(s, pt, rev[1..], snap, k - 1);
      ReachesStep(s, t, rev, snap, k);
      var u := Up(s, t, k);
      assert u == Up(s, pt, k - 1) && u != t;
      assert CollapseSet(s, t, rev, snap) ==
        if s.name[t] != rev[0] || t in snap then {} else {t} + CollapseSet(s, pt, rev[1..], snap);
    }
  }

  /** The union of CollapseSet over the newly selected nodes. */
  function CollapseAll(s: Scene, selected: seq<Node>, rev: seq<string>, snap: set<Node>): (c: set<Node>)
    requires Valid(s) && forall i :: 0 <= i < |selected| ==> selected[i] in s.name
    ensures c !! snap
    decreases |selected|
  {
    if selected == [] then {}
    else
      var init := selected[..|selected| - 1];
      CollapseAll(s, init, rev, snap) + CollapseSet(s, selected[|selected| - 1], rev, snap)
  }

  /** A node is collapsed by the whole step exactly when the walk from one selected node collapses it. */
  lemma {:induction false} CollapseAllMembers(s: Scene, selected: seq<Node>, rev: seq<string>, snap: set<Node>, x: Node)
    requires Valid(s) && forall i :: 0 <= i < |selected| ==> selected[i] in s.name
    ensures x in CollapseAll(s, selected, rev, snap) <==>
      exists i :: 0 <= i < |selected| && x in CollapseSet(s, selected[i], rev, snap)
    decreases |selected|
  {
    if selected != [] {
      var init := selected[..|selected| - 1];
      CollapseAllMembers(s, init, rev, snap, x);
      if x in CollapseAll(s, selected, rev, snap) {
        if x in CollapseAll(s, init, rev, snap) {
          var i :| 0 <= i < |init| && x in CollapseSet(s, init[i], rev, snap);
          assert init[i] == selected[i];
        } else {
          assert x in CollapseSet(s, selected[|selected| - 1], rev, snap);
        }
      } else {
        forall i | 0 <= i < |selected|
          ensures x !in CollapseSet(s, selected[i], rev, snap)
        {
          if i < |init| {
            assert init[i] == selected[i];
          }
        }
      }
    }
  }

  /** Read from the node upward, the reversed extracted path names the node's ancestors in turn. */
  lemma ReversedPathNames(s: Scene, r: Node, n: Node, p: seq<string>)
    requires Valid(s) && n in s.name && PathTo(s, r, n) == Some(p)
    ensures |p| <= s.depth[n]
    ensures forall j :: 0 <= j < |p| ==> s.name[Up(s, n, j)] == Reversed(p)[j]
  {
    PathToNames(s, r, n, p);
    var rev := Reversed(p);
    forall j | 0 <= j < |p|
      ensures s.name[Up(s, n, j)] == rev[j]
    {
      var i := |p| - 1 - j;
      assert rev[j] == p[i];
      assert |p| - 1 - i == j;
    }
  }

  /**
   * For a node `n` whose extracted path from remembered parent `r` is `p`,
   * the collapse walk with the reversed path stays between `r` and `n`.
   */
  lemma CollapseBetween(s: Scene, r: Node, n: Node, p: seq<string>, snap: set<Node>, x: Node)
    requires Valid(s) && n in s.name && PathTo(s, r, n) == Some(p)
    requires x in CollapseSet(s, n, Reversed(p), snap)
    ensures IsAncestor(s, r, x) && IsAncestor(s, x, n)
  {
    PathToFound(s, r, n);
    var k := CollapseSetOnChain(s, n, Reversed(p), snap, x);
    UpUp(s, n, k, |p| - k);
  }

  /**
   * Along the chain from `n` up to the remembered parent it was extracted
   * for, names never stop the collapse walk: it collapses level `k` (up to
   * the remembered parent's level) exactly when nothing from `n` up to that
   * level was expanded in the snapshot.
   */
  lemma CollapseLevels(s: Scene, r: Node, n: Node, p: seq<string>, snap: set<Node>, k: nat)
    requires Valid(s) && n in s.name && PathTo(s, r, n) == Some(p) && k <= |p|
    ensures |p| <= s.depth[n]
    ensures Up(s, n, k) in CollapseSet(s, n, Reversed(p), snap) <==> CollapsedUpTo(s, n, snap, k)
  {
    ReversedPathNames(s, r, n, p);
    var rev := Reversed(p);
    CollapseSetAt(s, n, rev, snap, k);
    assert NamesMatchUpTo(s, n, rev, k);
  }
}
