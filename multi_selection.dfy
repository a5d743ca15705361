/**
 * The editor window's state and its button actions. The scene and the
 * host's hierarchy view are passed in: `selection` stands for the host's
 * current selection and `expanded` for the set of expanded nodes in the
 * hierarchy view, both of which the window reads and writes.
 */
module MultiSelection {
  import opened Options
  import opened Hierarchy
  import opened ChildPaths
  import opened Collapse
  import opened RememberedParents

  class SelectionWindow {
    /** The remembered parents, in list order. */
    var remembered: seq<Node>
    /** The host's current selection (Selection.transforms). */
    var selection: seq<Node>
    /** The nodes expanded in the hierarchy view. */
    var expanded: set<Node>
    /** The error label "no remembered parent is a parent of the selection" is shown. */
    var showError: bool
    /** The "Expand children after selection" toggle. */
    var expandAfter: bool

    /** Every node the window refers to belongs to the scene. */
    ghost predicate Consistent(s: Scene)
      reads this
    {
      && Valid(s)
      && (forall i :: 0 <= i < |remembered| ==> remembered[i] in s.name)
      && (forall i :: 0 <= i < |selection| ==> selection[i] in s.name)
    }

    /** The move button is enabled only while some parent is remembered. */
    predicate MoveEnabled()
      reads this
    {
      |remembered| != 0
    }

    /** A freshly opened window: nothing remembered, no error, the toggle off. */
    constructor (currentSelection: seq<Node>, currentExpanded: set<Node>)
      ensures remembered == [] && !MoveEnabled()
      ensures selection == currentSelection && expanded == currentExpanded
      ensures !showError && !expandAfter
    {
      remembered := [];
      selection := currentSelection;
      expanded := currentExpanded;
      showError := false;
      expandAfter := false;
    }

    /** The "Set ... as Remembered parents" button. */
    method SetRemembered()
      modifies this
      ensures !showError
      ensures remembered == if |old(selection)| == 0 then old(remembered) else old(selection)
      ensures selection == old(selection) && expanded == old(expanded) && expandAfter == old(expandAfter)
    {
      showError := false;
      if |selection| == 0 {
        return;
      }
      remembered := selection;
    }

    /** The "Append ... into Remembered parents" button. */
    method AppendRemembered()
      modifies this
      ensures !showError
      ensures remembered == if |old(selection)| == 0 then old(remembered) else AppendNew(old(remembered), old(selection))
      ensures selection == old(selection) && expanded == old(expanded) && expandAfter == old(expandAfter)
    {
      showError := false;
      if |selection| == 0 {
        return;
      }
      var selected := selection;
      for i := 0 to |selected|
        invariant remembered == AppendNew(old(remembered), selected[..i])
        invariant !showError
        invariant selection == old(selection) && expanded == old(expanded) && expandAfter == old(expandAfter)
      {
        var node := selected[i];
        assert selected[..i + 1][..i] == selected[..i];
        if node in remembered {
          continue;
        }
        remembered := remembered + [node];
      }
      assert selected[..|selected|] == selected;
    }

    /** The "Clear Remembered parents" button; it disables the move button. */
    method ClearRemembered()
      modifies this
      ensures remembered == [] && !MoveEnabled() && !showError
      ensures selection == old(selection) && expanded == old(expanded) && expandAfter == old(expandAfter)
    {
      showError := false;
      remembered := [];
    }

    /** The "Expand children after selection" toggle. */
    method SetExpandAfter(value: bool)
      modifies this
      ensures expandAfter == value
      ensures remembered == old(remembered) && selection == old(selection)
      ensures expanded == old(expanded) && showError == old(showError)
    {
      expandAfter := value;
    }

    /** CollapseUp: collapse from `t` upward along the child-to-parent path `rev`. */
    method CollapseUp(s: Scene, t: Node, rev: seq<string>, snap: set<Node>)
      requires Valid(s) && t in s.name
      modifies this
      ensures expanded == old(expanded) - CollapseSet(s, t, rev, snap)
      ensures remembered == old(remembered) && selection == old(selection)
      ensures showError == old(showError) && expandAfter == old(expandAfter)
    {
      ghost var done: set<Node> := {};
      var current := t;
      var i := 0;
      while i < |rev|
        invariant 0 <= i <= |rev|
        invariant current in s.name
        invariant CollapseSet(s, t, rev, snap) == done + CollapseSet(s, current, rev[i..], snap)
        invariant expanded == old(expanded) - done
        invariant remembered == old(remembered) && selection == old(selection)
        invariant showError == old(showError) && expandAfter == old(expandAfter)
      {
        if s.name[current] != rev[i] {
          return;
        }
        if current in snap {
          return;
        }
        expanded := expanded - {current};
        done := done + {current};
        if current !in s.parent {
          return;
        }
        assert rev[i..][1..] == rev[i + 1..];
        current := s.parent[current];
        i := i + 1;
      }
      // the whole path matched: the level reached is the remembered parent
      if current !in snap {
        expanded := expanded - {current};
      }
    }

    /** CollapseTransformsWhichWereCollapsedBeforeSelection: CollapseUp from every newly selected node. */
    method CollapseAfterSelection(s: Scene, path: seq<string>, selected: seq<Node>, snap: set<Node>)
      requires Valid(s) && forall i :: 0 <= i < |selected| ==> selected[i] in s.name
      modifies this
      ensures expanded == old(expanded) - CollapseAll(s, selected, Reversed(path), snap)
      ensures remembered == old(remembered) && selection == old(selection)
      ensures showError == old(showError) && expandAfter == old(expandAfter)
    {
      var rev := Reversed(path);
      for i := 0 to |selected|
        invariant expanded == old(expanded) - CollapseAll(s, selected[..i], rev, snap)
        invariant remembered == old(remembered) && selection == old(selection)
        invariant showError == old(showError) && expandAfter == old(expandAfter)
      {
        assert selected[..i + 1][..i] == selected[..i];
        CollapseUp(s, selected[i], rev, snap);
      }
      assert selected[..|selected|] == selected;
    }

    /**
     * SelectChildOfPreviouslySelectedGameObjects: apply `path` under every
     * remembered parent; when anything matched, select the matches, clear
     * the error, and (with the toggle off) collapse again what the host's
     * auto-expansion opened. `hostExpanded` is the expanded set once the
     * host has reacted to the new selection.
     */
    method SelectChildren(s: Scene, path: seq<string>, hostExpanded: set<Node>)
      requires Consistent(s)
      modifies this
      ensures Consistent(s)
      ensures remembered == old(remembered) && expandAfter == old(expandAfter)
      // what was expanded before the selection and is still expanded by the host stays expanded
      ensures Matches(s, old(remembered), path) != [] ==> old(expanded) * hostExpanded <= expanded
      ensures var m := Matches(s, old(remembered), path);
        if m == [] then
          selection == old(selection) && expanded == old(expanded) && showError == old(showError)
        else
          && selection == m && !showError
          && expanded == (if expandAfter then hostExpanded
                          else hostExpanded - CollapseAll(s, m, Reversed(path), old(expanded)))
    {
      var childrenToSelect := CollectMatches(s, remembered, path);
      if |childrenToSelect| > 0 {
        var snapshot := expanded;
        selection := childrenToSelect;
        expanded := hostExpanded;
        showError := false;
        if !expandAfter {
          CollapseAfterSelection(s, path, childrenToSelect, snapshot);
        }
      }
    }

    /**
     * The "Move selection ... to children" button: with exactly one node
     * selected, extract its path from the first remembered parent that is
     * its ancestor; report an error when there is none or when that parent
     * is the selected node itself; otherwise select what the path finds
     * under every remembered parent.
     */
    method MoveSelection(s: Scene, hostExpanded: set<Node>)
      requires Consistent(s) && MoveEnabled()
      modifies this
      ensures Consistent(s)
      ensures remembered == old(remembered) && expandAfter == old(expandAfter)
      ensures |old(selection)| != 1 ==>
        !showError && selection == old(selection) && expanded == old(expanded)
      ensures |old(selection)| == 1 ==>
        var d := old(selection)[0];
        var i := FirstAncestorIndex(s, remembered, d);
        showError <==> i == |remembered| || remembered[i] == d
      ensures |old(selection)| == 1 ==>
        var d := old(selection)[0];
        var i := FirstAncestorIndex(s, remembered, d);
        var found := if i < |remembered| then PathTo(s, remembered[i], d) else None;
        if found.None? || found.value == [] then
          showError && selection == old(selection) && expanded == old(expanded)
        else
          var m := Matches(s, remembered, found.value);
          && (m == [] ==> selection == old(selection) && expanded == old(expanded))
          && (m != [] ==>
                && selection == m
                && expanded == (if expandAfter then hostExpanded
                                else hostExpanded - CollapseAll(s, m, Reversed(found.value), old(expanded))))
    {
      showError := false;
      if |selection| != 1 {
        return;
      }
      var selected := selection[0];
      var found := FindFirstPath(s, remembered, selected);
      ghost var i := FirstAncestorIndex(s, remembered, selected);
      if i < |remembered| {
        PathToFound(s, remembered[i], selected);
        PathToEmpty(s, remembered[i], selected);
      }
      if found.None? || |found.value| == 0 {
        showError := true;
        return;
      }
      SelectChildren(s, found.value, hostExpanded);
    }
  }
}
