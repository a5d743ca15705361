/**
 * The list of remembered parents and the selection-wide searches over it:
 * appending the selection without duplicates, finding the first remembered
 * parent that is an ancestor of the selected node, and collecting what a
 * path finds under every remembered parent.
 */
module RememberedParents {
  import opened Options
  import opened Hierarchy
  import opened ChildPaths

  /** No node occurs twice. */
  predicate NoDuplicates(list: seq<Node>)
  {
    forall i, j :: 0 <= i < j < |list| ==> list[i] != list[j]
  }

  /** The list after the append action's loop: each selected node is added unless already present. */
  function AppendNew(list: seq<Node>, sel: seq<Node>): (r: seq<Node>)
    ensures |list| <= |r| && r[..|list|] == list
    ensures forall x :: x in r <==> x in list || x in sel
    decreases |sel|
  {
    if sel == [] then list
    else
      var acc := AppendNew(list, sel[..|sel| - 1]);
      var x := sel[|sel| - 1];
      if x in acc then acc else acc + [x]
  }

  /** The selected nodes not in `list`, each at its first occurrence in `sel`, in selection order. */
  function NewInOrder(list: seq<Node>, sel: seq<Node>): (r: seq<Node>)
    ensures forall x :: x in r <==> x in sel && x !in list
    ensures NoDuplicates(r)
    decreases |sel|
  {
    if sel == [] then []
    else
      var init := sel[..|sel| - 1];
      var x := sel[|sel| - 1];
      NewInOrder(list, init) + (if x in list || x in init then [] else [x])
  }

  /** Appending keeps the old entries in place and adds exactly the new nodes, in selection order. */
  lemma {:induction false} AppendNewSpec(list: seq<Node>, sel: seq<Node>)
    ensures AppendNew(list, sel) == list + NewInOrder(list, sel)
    decreases |sel|
  {
    if sel != [] {
      AppendNewSpec(list, sel[..|sel| - 1]);
    }
  }

  /** Appending to a list without duplicates gives a list without duplicates. */
  lemma AppendNewNoDuplicates(list: seq<Node>, sel: seq<Node>)
    requires NoDuplicates(list)
    ensures NoDuplicates(AppendNew(list, sel))
  {
    AppendNewSpec(list, sel);
    var added := NewInOrder(list, sel);
    var r := list + added;
    forall i, j | 0 <= i < j < |r|
      ensures r[i] != r[j]
    {
      if j >= |list| {
        assert r[j] == added[j - |list|];
        if i >= |list| {
          assert r[i] == added[i - |list|];
        } else {
          assert r[i] in list;
        }
      }
    }
  }

  /** Appending nodes that are all remembered already changes nothing. */
  lemma {:induction false} AppendKnown(list: seq<Node>, sel: seq<Node>)
    requires forall i :: 0 <= i < |sel| ==> sel[i] in list
    ensures AppendNew(list, sel) == list
    decreases |sel|
  {
    if sel != [] {
      AppendKnown(list, sel[..|sel| - 1]);
    }
  }

  /** Appending the same selection twice is appending it once. */
  lemma AppendIdempotent(list: seq<Node>, sel: seq<Node>)
    ensures AppendNew(AppendNew(list, sel), sel) == AppendNew(list, sel)
  {
    AppendKnown(AppendNew(list, sel), sel);
  }

  /**
   * The index of the first remembered parent that is an ancestor of `d`
   * (`d` itself included), or `|rs|` when there is none.
   */
  function FirstAncestorIndex(s: Scene, rs: seq<Node>, d: Node): (i: nat)
    requires Valid(s) && d in s.name
    ensures i <= |rs|
    ensures forall j :: 0 <= j < i ==> !IsAncestor(s, rs[j], d)
    ensures i < |rs| ==> IsAncestor(s, rs[i], d)
    decreases |rs|
  {
    if rs == [] then 0
    else
      PathToFound(s, rs[0], d);
      if PathTo(s, rs[0], d).Some? then 0 else 1 + FirstAncestorIndex(s, rs[1..], d)
  }

  /** The move action's search: the path from the first remembered parent for which extraction succeeds. */
  method FindFirstPath(s: Scene, rs: seq<Node>, d: Node) returns (path: Option<seq<string>>)
    requires Valid(s) && d in s.name
    ensures var i := FirstAncestorIndex(s, rs, d);
      path == if i < |rs| then PathTo(s, rs[i], d) else None
  {
    path := None;
    for i := 0 to |rs|
      invariant path == None
      invariant forall j :: 0 <= j < i ==> !IsAncestor(s, rs[j], d)
    {
      PathToFound(s, rs[i], d);
      path := PathTo(s, rs[i], d);
      if path.Some? {
        return;
      }
    }
  }

  /** What applying `p` finds under each remembered parent, in list order, skipping failures. */
  function Matches(s: Scene, rs: seq<Node>, p: seq<string>): (m: seq<Node>)
    requires Valid(s) && forall i :: 0 <= i < |rs| ==> rs[i] in s.name
    ensures |m| <= |rs|
    ensures forall j :: 0 <= j < |m| ==> m[j] in s.name
    decreases |rs|
  {
    if rs == [] then []
    else
      var init := rs[..|rs| - 1];
      var found := Follow(s, rs[|rs| - 1], p);
      Matches(s, init, p) + (if found.Some? then [found.value] else [])
  }

  /** SelectChildOfPreviouslySelectedGameObjects' loop: one path application per remembered parent. */
  method CollectMatches(s: Scene, rs: seq<Node>, p: seq<string>) returns (found: seq<Node>)
    requires Valid(s) && forall i :: 0 <= i < |rs| ==> rs[i] in s.name
    ensures found == Matches(s, rs, p)
  {
    found := [];
    for i := 0 to |rs|
      invariant found == Matches(s, rs[..i], p)
    {
      var child := GetChildByPath(s, rs[i], p);
      assert rs[..i + 1][..i] == rs[..i];
      if child.Some? {
        found := found + [child.value];
      }
    }
    assert rs[..|rs|] == rs;
  }

  /** The matches of two lists of parents are the matches of the first followed by those of the second. */
  lemma {:induction false} MatchesAppend(s: Scene, rs1: seq<Node>, rs2: seq<Node>, p: seq<string>)
    requires Valid(s)
    requires forall i :: 0 <= i < |rs1| ==> rs1[i] in s.name
    requires forall i :: 0 <= i < |rs2| ==> rs2[i] in s.name
    ensures Matches(s, rs1 + rs2, p) == Matches(s, rs1, p) + Matches(s, rs2, p)
    decreases |rs2|
  {
    if rs2 != [] {
      var init2 := rs2[..|rs2| - 1];
      assert (rs1 + rs2)[..|rs1 + rs2| - 1] == rs1 + init2;
      assert (rs1 + rs2)[|rs1 + rs2| - 1] == rs2[|rs2| - 1];
      MatchesAppend(s, rs1, init2, p);
    } else {
      assert rs1 + rs2 == rs1;
    }
  }

  /** A node is selected exactly when applying the path under some remembered parent finds it. */
  lemma {:induction false} MatchesMembers(s: Scene, rs: seq<Node>, p: seq<string>, n: Node)
    requires Valid(s) && forall i :: 0 <= i < |rs| ==> rs[i] in s.name
    ensures n in Matches(s, rs, p) <==> exists i :: 0 <= i < |rs| && Follow(s, rs[i], p) == Some(n)
    decreases |rs|
  {
    if rs != [] {
      var init := rs[..|rs| - 1];
      MatchesMembers(s, init, p, n);
      if n in Matches(s, init, p) {
        var i :| 0 <= i < |init| && Follow(s, init[i], p) == Some(n);
        assert rs[i] == init[i];
      }
      if exists i :: 0 <= i < |rs| && Follow(s, rs[i], p) == Some(n) {
        var i :| 0 <= i < |rs| && Follow(s, rs[i], p) == Some(n);
        if i < |init| {
          assert init[i] == rs[i];
        }
      }
    }
  }

  /** Nothing is selected exactly when the path fails under every remembered parent. */
  lemma {:induction false} MatchesEmpty(s: Scene, rs: seq<Node>, p: seq<string>)
    requires Valid(s) && forall i :: 0 <= i < |rs| ==> rs[i] in s.name
    ensures Matches(s, rs, p) == [] <==> forall i :: 0 <= i < |rs| ==> Follow(s, rs[i], p).None?
    decreases |rs|
  {
    if rs != [] {
      var init := rs[..|rs| - 1];
      MatchesEmpty(s, init, p);
      assert forall i :: 0 <= i < |init| ==> init[i] == rs[i];
    }
  }

  /** The positions of the remembered parents under which the path succeeds. */
  ghost function FoundAt(s: Scene, rs: seq<Node>, p: seq<string>): set<int>
    requires Valid(s) && forall i :: 0 <= i < |rs| ==> rs[i] in s.name
  {
    set i | 0 <= i < |rs| && Follow(s, rs[i], p).Some?
  }

  /** Extending the list by one parent adds its position exactly when the path succeeds under it. */
  lemma FoundAtStep(s: Scene, rs: seq<Node>, p: seq<string>)
    requires Valid(s) && forall i :: 0 <= i < |rs| ==> rs[i] in s.name
    requires rs != []
    ensures var last := |rs| - 1;
      FoundAt(s, rs, p) ==
        FoundAt(s, rs[..last], p) + (if Follow(s, rs[last], p).Some? then {last} else {})
  {
    var init := rs[..|rs| - 1];
    assert forall i :: 0 <= i < |init| ==> init[i] == rs[i];
  }

  /** One node per remembered parent under which the path succeeds. */
  lemma {:induction false} MatchesCount(s: Scene, rs: seq<Node>, p: seq<string>)
    requires Valid(s) && forall i :: 0 <= i < |rs| ==> rs[i] in s.name
    ensures |Matches(s, rs, p)| == |FoundAt(s, rs, p)|
    decreases |rs|
  {
    if rs == [] {
      assert FoundAt(s, rs, p) == {};
    } else {
      var last := |rs| - 1;
      var init := rs[..last];
      MatchesCount(s, init, p);
      FoundAtStep(s, rs, p);
      assert last !in FoundAt(s, init, p);
    }
  }

  /**
   * The source node of the move is among the matches when the path was
   * extracted from one of the remembered parents and, along that path,
   * every node is the first child of its parent to carry its name.
   */
  lemma ReselectsOriginal(s: Scene, rs: seq<Node>, i: nat, d: Node, p: seq<string>)
    requires Valid(s) && forall j :: 0 <= j < |rs| ==> rs[j] in s.name
    requires d in s.name && i < |rs| && PathTo(s, rs[i], d) == Some(p)
    requires forall k :: 0 <= k < |p| && k <= s.depth[d] ==> FirstOfItsName(s, Up(s, d, k))
    ensures d in Matches(s, rs, p)
  {
    ExtractThenFollowSucceeds(s, rs[i], d, p);
    MatchesMembers(s, rs, p, d);
  }

  /** Every match lies below some remembered parent, and extracting its path from there gives back `p`. */
  lemma MatchesExtractBack(s: Scene, rs: seq<Node>, p: seq<string>, n: Node)
    requires Valid(s) && forall j :: 0 <= j < |rs| ==> rs[j] in s.name
    requires n in Matches(s, rs, p)
    ensures exists i :: 0 <= i < |rs| && PathTo(s, rs[i], n) == Some(p) && IsAncestor(s, rs[i], n)
  {
    MatchesMembers(s, rs, p, n);
    var i :| 0 <= i < |rs| && Follow(s, rs[i], p) == Some(n);
    FollowThenExtract(s, rs[i], p, n);
    PathToFound(s, rs[i], n);
  }
}
