# Hierarchy multi-selection children — a Dafny model

HierarchyMultiSelectionChildren is a Unity editor window. The user "remembers" a list of parent GameObjects, then selects one descendant under one of them. The window extracts the name path from that parent down to the descendant, applies the same path under every remembered parent, selects everything it finds, and afterwards collapses again the hierarchy-view nodes that were collapsed before the new selection.

This project models that tree logic and the window state it changes, and proves what the code guarantees about it.

- `Hierarchy` (`hierarchy.dfy`): the scene as a forest of named nodes.
  - Each node has an optional parent, an ordered child list and a depth.
  - `Valid` says that parent, children and depth agree.
  - `Up(s, d, k)` is the node `k` parent links above `d`.
  - `IsAncestor` is membership of the upward chain, the node itself included.
- `ChildPaths` (`child_paths.dfy`): path extraction and path application.
  - Extraction (`PathTo`) is a pure function.
  - Application is modelled twice. `GetChildByName` and `GetChildByPath` are loop methods, as in the code. The functions `FirstChildNamed` and `Follow` specify them.
  - The round-trip lemmas live here.
- `Collapse` (`collapse.dfy`): the set of nodes that collapse restoration collapses, as a function of the start node, the reversed path and the expanded snapshot, with lemmas characterising it.
- `RememberedParents` (`remembered.dfy`):
  - the append action's list, as a function, with its lemmas;
  - the search loop that finds the first remembered parent which is an ancestor;
  - the loop that collects what a path finds under every remembered parent.
- `MultiSelection` (`multi_selection.dfy`): the window, as class `SelectionWindow`.
  - Fields: `remembered`, `selection`, `expanded`, `showError` and `expandAfter`.
  - One method per button: set, append, clear, move, and the expand toggle.
  - `SelectChildren` models SelectChildOfPreviouslySelectedGameObjects.
  - `CollapseAfterSelection` and `CollapseUp` model the collapse code.
  - Each of these methods is proved against the functions above.

Host state is passed in as parameters:
- The scene is a `Scene` argument of the methods that read it.
- Collapsing a node (`SetExpanded(node, false)`) removes it from `expanded`.
- The host's own auto-expansion after a selection is an arbitrary set `hostExpanded`, which replaces `expanded` before collapse restoration runs.

### Round trip with repeated sibling names

Extracting the path for (ancestor, descendant) and applying it from that ancestor need not return the descendant, and can return nothing, because GetChildOfTransformByName returns the first child with the requested name.
- `ChildPaths.ExtractThenFollow` gives the exact condition. Application returns the descendant if and only if every node on the chain is the first child of its parent to carry its name.
- `ChildPaths.FollowThenExtract` proves what does always hold. Whatever application finds, extracting its path from the ancestor gives back the same path.
- `ChildPaths.SharedSiblingNameBreaksRoundTrip` is a four-node scene in which application from the very ancestor finds nothing. The root has children 1 and 2, both named "B", and only node 2 has a child "C".

## Model

| member | source | states |
|---|---|---|
| ChildPaths.PathTo | HierarchyMultiSelectionChildren.cs:251-265 | a found path starts at a node of the scene and has one name per parent link between the ancestor and the child |
| ChildPaths.PathToFound | HierarchyMultiSelectionChildren.cs:253-261 | extraction succeeds if and only if the candidate lies on the child's upward chain; it fails (null) when the root is reached without meeting it |
| ChildPaths.PathToEmpty | HierarchyMultiSelectionChildren.cs:253-254 | extraction returns the empty path if and only if the candidate is the node itself |
| ChildPaths.PathToNames | HierarchyMultiSelectionChildren.cs:259-264 | a found path has as many names as edges from ancestor to descendant, lists the names of the chain in parent-to-child order, and ends with the descendant's own name |
| ChildPaths.PathToPrepend | HierarchyMultiSelectionChildren.cs:251-265 | the path from a parent is the child's name followed by the path from that child |
| ChildPaths.PathToSplit | HierarchyMultiSelectionChildren.cs:251-265 | the first name of a non-empty path is that of the ancestor's child on the chain, and the rest is the path from that child |
| ChildPaths.FirstIndexNamed | HierarchyMultiSelectionChildren.cs:238-248 | the index is the lowest one whose child carries the name, or the child count when none does |
| ChildPaths.FirstChildNamed | HierarchyMultiSelectionChildren.cs:236-249 | a found child is a child of the parent with the requested name; nothing is found if and only if no child has that name |
| ChildPaths.Follow | HierarchyMultiSelectionChildren.cs:223-234 | path application from a scene node ends, when it succeeds, at a scene node |
| ChildPaths.GetChildByName | HierarchyMultiSelectionChildren.cs:236-249 | the loop over the children returns the lowest-index child with the name, or nothing |
| ChildPaths.GetChildByPath | HierarchyMultiSelectionChildren.cs:223-234 | the loop returns the start for an empty path, follows the first matching child per name, and returns nothing as soon as a step fails |
| ChildPaths.FollowThenExtract | HierarchyMultiSelectionChildren.cs:223-265 | the node found by applying a path has that path as its extracted path from the start (its name chain equals the path) |
| ChildPaths.ExtractThenFollow | HierarchyMultiSelectionChildren.cs:223-265 | applying the extracted path from the same ancestor returns the descendant if and only if each node on the chain is the first child of its name |
| ChildPaths.ExtractThenFollowSucceeds | HierarchyMultiSelectionChildren.cs:223-265 | with no earlier same-named sibling along the chain, the round trip returns the original descendant |
| ChildPaths.SharedSiblingNameBreaksRoundTrip | HierarchyMultiSelectionChildren.cs:236-249 | in a valid scene with two siblings named "B", the extracted path ["B", "C"] applied from the same ancestor finds nothing |
| Collapse.Reversed | HierarchyMultiSelectionChildren.cs:186 | the reversed path has the same length and holds the names in the opposite order |
| Collapse.CollapseSet | HierarchyMultiSelectionChildren.cs:193-221 | the walk never collapses a node of the expanded snapshot, and only collapses nodes at most path-length levels above the start |
| Collapse.CollapseSetOnChain | HierarchyMultiSelectionChildren.cs:195-210 | every collapsed node is the start node's ancestor at most path-length levels up |
| Collapse.ReachesStep | HierarchyMultiSelectionChildren.cs:195-210 | reaching a level from a node means passing the node (name matches, not expanded before) and reaching the level below from its parent |
| Collapse.CollapseSetAt | HierarchyMultiSelectionChildren.cs:195-219 | the ancestor k levels up is collapsed if and only if no node up to it was expanded before and every node below the remembered-parent level matches the reversed path; so the walk stops at the first mismatch, the first expanded node, or the root |
| Collapse.CollapseAll | HierarchyMultiSelectionChildren.cs:186-191 | restoration over all selected nodes never collapses a node of the snapshot |
| Collapse.CollapseAllMembers | HierarchyMultiSelectionChildren.cs:187-190 | a node is collapsed by restoration if and only if the walk from one of the selected nodes collapses it |
| Collapse.ReversedPathNames | HierarchyMultiSelectionChildren.cs:186-189 | read from the selected node upward, the reversed extracted path names the node's ancestors in turn |
| Collapse.CollapseBetween | HierarchyMultiSelectionChildren.cs:193-221 | restoration only touches nodes between the remembered parent and the selected node on the selected node's chain |
| Collapse.CollapseLevels | HierarchyMultiSelectionChildren.cs:193-221 | along an extracted path names never stop the walk: level k (up to the remembered parent) is collapsed if and only if nothing up to it was expanded before |
| RememberedParents.AppendNew | HierarchyMultiSelectionChildren.cs:52-58 | appending keeps the old list as a prefix and the result holds exactly the old entries and the selected nodes |
| RememberedParents.NewInOrder | HierarchyMultiSelectionChildren.cs:52-58 | the added part holds exactly the selected nodes not yet remembered, each once |
| RememberedParents.AppendNewSpec | HierarchyMultiSelectionChildren.cs:52-58 | append yields the old list followed by the new nodes in selection order |
| RememberedParents.AppendNewNoDuplicates | HierarchyMultiSelectionChildren.cs:52-58 | append keeps a duplicate-free list duplicate-free |
| RememberedParents.AppendKnown | HierarchyMultiSelectionChildren.cs:54-55 | appending nodes that are all remembered already changes nothing |
| RememberedParents.AppendIdempotent | HierarchyMultiSelectionChildren.cs:52-58 | appending the same selection twice is the same as appending it once |
| RememberedParents.FirstAncestorIndex | HierarchyMultiSelectionChildren.cs:94-100 | no remembered parent before the index is an ancestor of the node, and the one at the index, if any, is |
| RememberedParents.FindFirstPath | HierarchyMultiSelectionChildren.cs:93-100 | the search loop returns the extracted path from the first remembered parent that is an ancestor, or nothing |
| RememberedParents.Matches | HierarchyMultiSelectionChildren.cs:135-146 | at most one match per remembered parent, each a scene node |
| RememberedParents.CollectMatches | HierarchyMultiSelectionChildren.cs:135-146 | the loop collects, in remembered-list order, what the path finds under each remembered parent, skipping failures |
| RememberedParents.MatchesAppend | HierarchyMultiSelectionChildren.cs:137-146 | the matches of a concatenated list are the matches of the first part followed by those of the second |
| RememberedParents.MatchesMembers | HierarchyMultiSelectionChildren.cs:137-146 | a node is a match if and only if applying the path under some remembered parent finds it |
| RememberedParents.MatchesEmpty | HierarchyMultiSelectionChildren.cs:137-148 | nothing matches if and only if the path fails under every remembered parent |
| RememberedParents.MatchesCount | HierarchyMultiSelectionChildren.cs:137-146 | the number of matches equals the number of remembered parents under which the path succeeds |
| RememberedParents.ReselectsOriginal | HierarchyMultiSelectionChildren.cs:94-146 | the originally selected node is among the matches when no earlier same-named sibling lies on its chain |
| RememberedParents.MatchesExtractBack | HierarchyMultiSelectionChildren.cs:137-146 | every match lies under some remembered parent from which its extracted path is the applied path |
| MultiSelection.SelectionWindow.constructor | HierarchyMultiSelectionChildren.cs:269-270 | a new window has an empty remembered list (move disabled), no error and the toggle off |
| MultiSelection.SelectionWindow.SetRemembered | HierarchyMultiSelectionChildren.cs:35-43 | set clears the error and replaces the list by the selection, or leaves it when nothing is selected |
| MultiSelection.SelectionWindow.AppendRemembered | HierarchyMultiSelectionChildren.cs:45-59 | append clears the error and adds the not-yet-remembered selected nodes in order, or changes nothing when nothing is selected |
| MultiSelection.SelectionWindow.ClearRemembered | HierarchyMultiSelectionChildren.cs:113-119 | clear empties the list, disables the move button and clears the error |
| MultiSelection.SelectionWindow.SetExpandAfter | HierarchyMultiSelectionChildren.cs:74-76 | the toggle sets the expand-after-selection flag and nothing else |
| MultiSelection.SelectionWindow.CollapseUp | HierarchyMultiSelectionChildren.cs:193-221 | the loop removes from the expanded set exactly the nodes of the collapse walk |
| MultiSelection.SelectionWindow.CollapseAfterSelection | HierarchyMultiSelectionChildren.cs:182-191 | restoration removes from the expanded set exactly the union of the walks from the selected nodes |
| MultiSelection.SelectionWindow.SelectChildren | HierarchyMultiSelectionChildren.cs:133-164 | with no match nothing changes; otherwise the selection becomes the matches, the error clears, snapshot nodes the host keeps expanded stay expanded, and collapse runs only with the toggle off |
| MultiSelection.SelectionWindow.MoveSelection | HierarchyMultiSelectionChildren.cs:79-109 | aborts unless exactly one node is selected; raises the error (changing nothing else) if and only if no remembered parent is an ancestor or the first one is the node itself, even when a later one is a true ancestor; otherwise applies the path from the first ancestor |

## Left out

- GUI layout and widgets (buttons, labels, scroll view, the reorderable list, InitClips' list widget, ChangeGuiEnabled and ChangeGuiColor): immediate-mode drawing. The buttons are methods, and the disabled move button is the precondition `MoveEnabled()` of `MoveSelection`. The same disabled scope also covers the clear button; `ClearRemembered` is left callable on an empty list, where it is harmless since the list stays empty and the state it leaves (`remembered == []`, `!showError`) is the one a window with nothing remembered already has.
- Removing entries through the reorderable list's minus button: a widget behaviour, not code of the window.
- The reflection into the host's hierarchy window (HierarchySelection): an undocumented host API. The model uses the `expanded` set in its place.
- The delayCall deferral of collapse restoration: host event-loop timing. Restoration runs directly after the selection is applied, against the saved snapshot. The host's auto-expansion in between is the arbitrary `hostExpanded` argument.
- Menu registration and Init: host plumbing.
- Debug.Log: output only.
- Unity's null and destroyed-object semantics: remembered and selected nodes are assumed to stay in the scene (`Consistent`). The `transform != null` test after CollapseUp's loop always holds in the model.
- The difference between Selection.gameObjects and Selection.transforms (transforms drop children of other selected objects): both are the one `selection` sequence.
- Selection.objects deduplicating the assigned array: `selection` becomes the match list as collected, duplicates included.
