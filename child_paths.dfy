/**
 * Relative name paths between a remembered parent and one of its
 * descendants: extracting the path by walking up from the descendant, and
 * applying a path by walking down, taking the first child of each name.
 */
module ChildPaths {
  import opened Options
  import opened Hierarchy

  /**
   * Path extraction: the names from `ancestor` (exclusive) down to `child`
   * (inclusive), or None when the root is reached without meeting `ancestor`.
   */
  function PathTo(s: Scene, ancestor: Node, child: Node): (r: Option<seq<string>>)
    requires Valid(s) && child in s.name
    ensures r.Some? ==> ancestor in s.name && s.depth[ancestor] + |r.value| == s.depth[child]
    decreases s.depth[child]
  {
    if child == ancestor then Some([])
    else if child !in s.parent then None
    else
      match PathTo(s, ancestor, s.parent[child])
      case None => None
      case Some(p) => Some(p + [s.name[child]])
  }

  /** The lowest index in `kids` whose node is named `childName`, or `|kids|`. */
  function FirstIndexNamed(s: Scene, kids: seq<Node>, childName: string): (i: nat)
    requires forall k :: 0 <= k < |kids| ==> kids[k] in s.name
    ensures i <= |kids|
    ensures i < |kids| ==> s.name[kids[i]] == childName
    ensures forall j :: 0 <= j < i ==> s.name[kids[j]] != childName
  {
    if kids == [] then 0
    else if s.name[kids[0]] == childName then 0
    else 1 + FirstIndexNamed(s, kids[1..], childName)
  }

  /** The first child of `parent`, in child order, named `childName`. */
  function FirstChildNamed(s: Scene, parent: Node, childName: string): (r: Option<Node>)
    requires Valid(s) && parent in s.name
    ensures r.Some? ==> r.value in s.parent && s.parent[r.value] == parent && s.name[r.value] == childName
    ensures r.None? <==> forall k :: 0 <= k < |s.children[parent]| ==> s.name[s.children[parent][k]] != childName
  {
    var kids := s.children[parent];
    var i := FirstIndexNamed(s, kids, childName);
    if i < |kids| then Some(kids[i]) else None
  }

  /** Path application: follow `path` down from `start`, one name per level. */
  function Follow(s: Scene, start: Node, path: seq<string>): (r: Option<Node>)
    requires Valid(s) && start in s.name
    ensures r.Some? ==> r.value in s.name
    decreases |path|
  {
    if path == [] then Some(start)
    else
      match FirstChildNamed(s, start, path[0])
      case None => None
      case Some(c) => Follow(s, c, path[1..])
  }

  /** GetChildOfTransformByName: scan the children in order for the name. */
  method GetChildByName(s: Scene, parent: Node, childName: string) returns (r: Option<Node>)
    requires Valid(s) && parent in s.name
    ensures r == FirstChildNamed(s, parent, childName)
  {
    var kids := s.children[parent];
    var i := 0;
    while i < |kids|
      invariant 0 <= i <= |kids|
      invariant forall j :: 0 <= j < i ==> s.name[kids[j]] != childName
    {
      if s.name[kids[i]] == childName {
        return Some(kids[i]);
      }
      i := i + 1;
    }
    return None;
  }

  /** GetChildOfTransformByPath: one GetChildByName per path element. */
  method GetChildByPath(s: Scene, start: Node, path: seq<string>) returns (r: Option<Node>)
    requires Valid(s) && start in s.name
    ensures r == Follow(s, start, path)
  {
    var current := start;
    var i := 0;
    while i < |path|
      invariant 0 <= i <= |path|
      invariant current in s.name
      invariant Follow(s, start, path) == Follow(s, current, path[i..])
    {
      var next := GetChildByName(s, current, path[i]);
      if next.None? {
        return None;
      }
      current := next.value;
      i := i + 1;
    }
    return Some(current);
  }

  /** A node that its parent's child-by-name lookup finds (no earlier sibling shares its name). */
  predicate FirstOfItsName(s: Scene, n: Node)
    requires Valid(s)
  {
    n in s.parent && FirstChildNamed(s, s.parent[n], s.name[n]) == Some(n)
  }

  /** Extraction succeeds exactly when `a` is on `d`'s ancestor chain. */
  lemma {:induction false} PathToFound(s: Scene, a: Node, d: Node)
    requires Valid(s) && d in s.name
    ensures PathTo(s, a, d).Some? <==> IsAncestor(s, a, d)
    decreases s.depth[d]
  {
    if d !in s.parent {
      RootDepth(s, d);
    } else if d != a {
      var pd := s.parent[d];
      PathToFound(s, a, pd);
      if a in s.name && s.depth[a] < s.depth[d] {
        assert Up(s, d, s.depth[d] - s.depth[a]) == Up(s, pd, s.depth[pd] - s.depth[a]);
      }
    }
  }

  /** The extracted path is empty exactly when the candidate is the node itself. */
  lemma PathToEmpty(s: Scene, a: Node, d: Node)
    requires Valid(s) && d in s.name
    ensures PathTo(s, a, d) == Some([]) <==> a == d
  {
    if a != d && d in s.parent {
      match PathTo(s, a, s.parent[d])
      case None =>
      case Some(q) => assert |q + [s.name[d]]| > 0;
    }
  }

  /**
   * The extracted path has one name per parent link from `a` down to `d`, in
   * parent-to-child order, ending with the name of `d` itself.
   */
  lemma {:induction false} PathToNames(s: Scene, a: Node, d: Node, p: seq<string>)
    requires Valid(s) && d in s.name && PathTo(s, a, d) == Some(p)
    ensures |p| == s.depth[d] - s.depth[a]
    ensures forall i :: 0 <= i < |p| ==> p[i] == s.name[Up(s, d, |p| - 1 - i)]
    ensures p != [] ==> p[|p| - 1] == s.name[d]
    decreases s.depth[d]
  {
    if d != a {
      var pd := s.parent[d];
      var q := PathTo(s, a, pd).value;
      PathToNames(s, a, pd, q);
      assert p == q + [s.name[d]];
      forall i | 0 <= i < |p|
        ensures p[i] == s.name[Up(s, d, |p| - 1 - i)]
      {
        if i < |q| {
          assert Up(s, d, |p| - 1 - i) == Up(s, pd, |q| - 1 - i);
        }
      }
    }
  }

  /** Extending a path one level up: prefix the name of the node below `a`. */
  lemma {:induction false} PathToPrepend(s: Scene, a: Node, c: Node, n: Node, q: seq<string>)
    requires Valid(s) && n in s.name && c in s.parent && s.parent[c] == a
    requires PathTo(s, c, n) == Some(q)
    ensures PathTo(s, a, n) == Some([s.name[c]] + q)
    decreases s.depth[n]
  {
    if n == c {
      assert s.depth[c] == s.depth[a] + 1;
      assert PathTo(s, a, s.parent[c]) == Some([]);
      assert [] + [s.name[c]] == [s.name[c]] + [];
      assert q == [];
    } else {
      var pn := s.parent[n];
      var q' := PathTo(s, c, pn).value;
      PathToPrepend(s, a, c, pn, q');
      assert [s.name[c]] + q' + [s.name[n]] == [s.name[c]] + q;
    }
  }

  /**
   * Splitting a non-empty path at its first name: the node one level below
   * `a` on the chain carries that name, and the rest of the path leads from
   * it to `d`.
   */
  lemma {:induction false} PathToSplit(s: Scene, a: Node, d: Node, p: seq<string>)
    requires Valid(s) && d in s.name && PathTo(s, a, d) == Some(p) && p != []
    ensures |p| - 1 <= s.depth[d]
    ensures var c := Up(s, d, |p| - 1);
      c in s.parent && s.parent[c] == a && s.name[c] == p[0] && PathTo(s, c, d) == Some(p[1..])
    decreases s.depth[d]
  {
    var pd := s.parent[d];
    var q := PathTo(s, a, pd).value;
    assert p == q + [s.name[d]];
    if q == [] {
      PathToEmpty(s, a, pd);
    } else {
      PathToSplit(s, a, pd, q);
      var c := Up(s, pd, |q| - 1);
      assert Up(s, d, |p| - 1) == c;
      assert p[1..] == q[1..] + [s.name[d]];
    }
  }

  /** Whatever path application finds has exactly the applied path as its extracted path. */
  lemma {:induction false} FollowThenExtract(s: Scene, a: Node, p: seq<string>, n: Node)
    requires Valid(s) && a in s.name && Follow(s, a, p) == Some(n)
    ensures PathTo(s, a, n) == Some(p)
    decreases |p|
  {
    if p != [] {
      var c := FirstChildNamed(s, a, p[0]).value;
      FollowThenExtract(s, c, p[1..], n);
      PathToPrepend(s, a, c, n, p[1..]);
      assert [p[0]] + p[1..] == p;
    }
  }

  /**
   * Round trip: applying the path extracted for (`a`, `d`) from `a` finds `d`
   * itself exactly when every node on the chain below `a` down to `d` is the
   * first child of its name under its parent.
   */
  lemma {:induction false} ExtractThenFollow(s: Scene, a: Node, d: Node, p: seq<string>)
    requires Valid(s) && d in s.name && PathTo(s, a, d) == Some(p)
    ensures |p| <= s.depth[d]
    ensures Follow(s, a, p) == Some(d) <==> forall k :: 0 <= k < |p| ==> FirstOfItsName(s, Up(s, d, k))
    decreases |p|
  {
    if p != [] {
      PathToSplit(s, a, d, p);
      var c := Up(s, d, |p| - 1);
      ExtractThenFollow(s, c, d, p[1..]);
      var found := FirstChildNamed(s, a, p[0]);
      if found.Some? && Follow(s, found.value, p[1..]) == Some(d) {
        FollowThenExtract(s, found.value, p[1..], d);
        PathToFound(s, found.value, d);
        PathToFound(s, c, d);
        assert found.value == c;
      }
    }
  }

  /** The node the round trip succeeds on when no sibling names repeat along the chain. */
  lemma ExtractThenFollowSucceeds(s: Scene, a: Node, d: Node, p: seq<string>)
    requires Valid(s) && d in s.name && PathTo(s, a, d) == Some(p)
    requires forall k :: 0 <= k < |p| && k <= s.depth[d] ==> FirstOfItsName(s, Up(s, d, k))
    ensures Follow(s, a, p) == Some(d)
  {
    ExtractThenFollow(s, a, d, p);
  }

  /**
   * Two siblings of the same name: the root 0 ("A") has children 1 and 2,
   * both named "B"; only 2 has a child, 3, named "C".
   */
  function SharedNameScene(): Scene
  {
    Scene(
      map[0 := "A", 1 := "B", 2 := "B", 3 := "C"],
      map[1 := 0, 2 := 0, 3 := 2],
      map[0 := [1, 2], 1 := [], 2 := [3], 3 := []],
      map[0 := 0, 1 := 1, 2 := 1, 3 := 2])
  }

  lemma SharedNameSceneValid()
    ensures Valid(SharedNameScene())
  {
    var s := SharedNameScene();
    assert s.name.Keys == {0, 1, 2, 3} && s.parent.Keys == {1, 2, 3};
    forall p, i | p in s.children && 0 <= i < |s.children[p]|
      ensures s.children[p][i] in s.parent && s.parent[s.children[p][i]] == p
    {
      assert p == 0 || p == 2;
    }
  }

  /**
   * Applying a path from the very ancestor it was extracted for can fail:
   * extracting (0, 3) in SharedNameScene gives ["B", "C"], and applying it
   * from 0 takes the first "B", node 1, which has no "C".
   */
  lemma SharedSiblingNameBreaksRoundTrip()
    ensures Valid(SharedNameScene())
    ensures PathTo(SharedNameScene(), 0, 3) == Some(["B", "C"])
    ensures Follow(SharedNameScene(), 0, ["B", "C"]) == None
  {
    SharedNameSceneValid();
    var s := SharedNameScene();
    assert PathTo(s, 0, 0) == Some([]);
    assert [] + ["B"] == ["B"] && ["B"] + ["C"] == ["B", "C"];
    assert PathTo(s, 0, 2) == Some(["B"]);
    assert PathTo(s, 0, 3) == Some(["B", "C"]);
    assert s.children[0] == [1, 2] && s.name[1] == "B";
    assert FirstIndexNamed(s, s.children[0], "B") == 0;
    assert FirstChildNamed(s, 0, "B") == Some(1);
    assert s.children[1] == [];
    assert FirstChildNamed(s, 1, "C") == None;
    assert ["B", "C"][1..] == ["C"];
  }
}
