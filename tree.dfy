/**
 * The two trees of the xray view: the domain tree delivered by a watch snapshot
 * (`xray.TreeNode`) and the presentation tree shown on screen (`tview.TreeNode`
 * carrying an `xray.NodeSpec` reference), and the pure steps that turn the first
 * into the second: `makeTreeNode`, the recursive `hydrate`, the flag-setting walk
 * of `update` and tview's `ExpandAll`.
 *
 * Presentation nodes are values here; where tview changes a node in place, the
 * functions below return the changed node.
 */
module Tree {
  import opened Wrappers

  /** What a child knows of its parent: the parent's resource kind and path. */
  datatype NodeId = NodeId(gvr: string, id: string)

  /** A node of one snapshot: resource kind, path, back-reference to the parent, ordered children. */
  datatype TreeNode = TreeNode(gvr: string, id: string, parent: Option<NodeId>, children: seq<TreeNode>)

  /** The reference a presentation node carries (`xray.NodeSpec`). */
  datatype NodeSpec = NodeSpec(gvr: string, path: string, parent: Option<NodeSpec>)

  /** The text of a presentation node: a fixed string, or the styled title of a domain node. */
  datatype Label = Plain(s: string) | TitleOf(gvr: string, id: string)

  /** A presentation node; colour and the toggle-on-select callback are not modelled. */
  datatype PNode = PNode(text: Label, ref: Option<NodeSpec>, selectable: bool, expanded: bool, children: seq<PNode>)

  const NoDataText := "No data..."

  /** A reference whose parent is present and has no parent of its own. */
  predicate DepthOne(s: NodeSpec) {
    s.parent.Some? && s.parent.value.parent.None?
  }

  /** A domain snapshot whose back-references agree with the children sequences. */
  ghost predicate WellFormed(n: TreeNode)
    decreases n
  {
    forall i :: 0 <= i < |n.children| ==>
      n.children[i].parent == Some(NodeId(n.gvr, n.id)) && WellFormed(n.children[i])
  }

  /**
   * `makeTreeNode`: a childless presentation node, selectable, expanded as asked.
   * A missing domain node gives the "No data..." placeholder with no reference;
   * otherwise the reference carries the node's kind and path and exactly one
   * parent hop, holding the parent's kind and path or empty strings at the root.
   */
  function MakeTreeNode(node: Option<TreeNode>, expanded: bool): (r: PNode)
    ensures r.selectable && r.expanded == expanded && r.children == []
    ensures node.None? ==> r.ref.None? && r.text == Plain(NoDataText)
    ensures node.Some? ==> r.ref.Some? && DepthOne(r.ref.value)
    ensures node.Some? ==> r.ref.value.path == node.value.id && r.ref.value.gvr == node.value.gvr
    ensures node.Some? && node.value.parent.None? ==>
      r.ref.value.parent.value.gvr == "" && r.ref.value.parent.value.path == ""
    ensures node.Some? && node.value.parent.Some? ==>
      r.ref.value.parent.value.gvr == node.value.parent.value.gvr &&
      r.ref.value.parent.value.path == node.value.parent.value.id
  {
    match node
    case None => PNode(Plain(NoDataText), None, true, expanded, [])
    case Some(n) =>
      var spec := match n.parent
        case None => NodeSpec("", "", None)
        case Some(p) => NodeSpec(p.gvr, p.id, None);
      PNode(TitleOf(n.gvr, n.id), Some(NodeSpec(n.gvr, n.id, Some(spec))), true, expanded, [])
  }

  /** The presentation subtree `hydrate` builds for a domain node, children in order. */
  function Hydrate(n: TreeNode, expanded: bool): PNode
    decreases n
  {
    MakeTreeNode(Some(n), expanded).(children :=
      seq(|n.children|, i requires 0 <= i < |n.children| => Hydrate(n.children[i], expanded)))
  }

  /**
   * `p` has the shape and child order of `n`, and every presentation node
   * carries the reference `makeTreeNode` computes for its domain node.
   */
  ghost predicate Mirrors(p: PNode, n: TreeNode)
    decreases n
  {
    p.ref == MakeTreeNode(Some(n), false).ref &&
    |p.children| == |n.children| &&
    forall i :: 0 <= i < |n.children| ==> Mirrors(p.children[i], n.children[i])
  }

  /** Every node of `p` is selectable and has the given expanded flag. */
  ghost predicate Uniform(p: PNode, expanded: bool)
    decreases p
  {
    p.selectable && p.expanded == expanded &&
    forall i :: 0 <= i < |p.children| ==> Uniform(p.children[i], expanded)
  }

  /** Every child's one-hop reference is its presentation parent's own kind and path. */
  ghost predicate ParentLinked(p: PNode)
    decreases p
  {
    p.ref.Some? &&
    forall i :: 0 <= i < |p.children| ==>
      p.children[i].ref.Some? &&
      p.children[i].ref.value.parent == Some(NodeSpec(p.ref.value.gvr, p.ref.value.path, None)) &&
      ParentLinked(p.children[i])
  }

  /** `hydrate` keeps the domain tree's shape and child order and gives every node its own reference. */
  lemma {:induction false} HydrateMirrors(n: TreeNode, expanded: bool)
    ensures Mirrors(Hydrate(n, expanded), n)
    decreases n
  {
    var p := Hydrate(n, expanded);
    forall i | 0 <= i < |n.children| ensures Mirrors(p.children[i], n.children[i]) {
      HydrateMirrors(n.children[i], expanded);
    }
  }

  /** Every node `hydrate` builds is selectable and carries the expand flag it was given. */
  lemma {:induction false} HydrateUniform(n: TreeNode, expanded: bool)
    ensures Uniform(Hydrate(n, expanded), expanded)
    decreases n
  {
    var p := Hydrate(n, expanded);
    forall i | 0 <= i < |n.children| ensures Uniform(p.children[i], expanded) {
      HydrateUniform(n.children[i], expanded);
    }
  }

  /**
   * On a well-formed snapshot the one-hop parent reference of every built node
   * names exactly the node it hangs under in the presentation tree.
   */
  lemma {:induction false} HydrateParentLinked(n: TreeNode, expanded: bool)
    requires WellFormed(n)
    ensures ParentLinked(Hydrate(n, expanded))
    decreases n
  {
    var p := Hydrate(n, expanded);
    forall i | 0 <= i < |n.children|
      ensures p.children[i].ref.Some?
      ensures p.children[i].ref.value.parent == Some(NodeSpec(p.ref.value.gvr, p.ref.value.path, None))
      ensures ParentLinked(p.children[i])
    {
      HydrateParentLinked(n.children[i], expanded);
    }
  }

  /**
   * The callback `update` passes to tview's pre-order `Walk`, applied to the whole
   * subtree: a node without a reference stops the descent and is left as it is;
   * otherwise the root is expanded and every other node takes `expandNodes`, then
   * the node whose path is the selected item is forced expanded and selectable.
   */
  function Walk(t: PNode, isRoot: bool, expandNodes: bool, selected: string): PNode
    decreases t
  {
    if t.ref.None? then
      t
    else
      var expanded := if isRoot then true else expandNodes;
      var hit := t.ref.value.path == selected;
      t.(expanded := if hit then true else expanded,
         selectable := if hit then true else t.selectable,
         children := seq(|t.children|, i requires 0 <= i < |t.children| =>
           Walk(t.children[i], false, expandNodes, selected)))
  }

  /**
   * The expansion policy of `update`: every node has a reference and is selectable,
   * the root is expanded, every other node is expanded exactly when `expandNodes`
   * holds or it is the selected node.
   */
  ghost predicate ExpandPolicy(p: PNode, isRoot: bool, expandNodes: bool, selected: string)
    decreases p
  {
    p.ref.Some? && p.selectable &&
    p.expanded == (isRoot || expandNodes || p.ref.value.path == selected) &&
    forall i :: 0 <= i < |p.children| ==> ExpandPolicy(p.children[i], false, expandNodes, selected)
  }

  /** The walk changes only flags: references, shape and child order stay those of the domain tree. */
  lemma {:induction false} WalkMirrors(t: PNode, n: TreeNode, isRoot: bool, expandNodes: bool, selected: string)
    requires Mirrors(t, n)
    ensures Mirrors(Walk(t, isRoot, expandNodes, selected), n)
    decreases n
  {
    var w := Walk(t, isRoot, expandNodes, selected);
    forall i | 0 <= i < |n.children| ensures Mirrors(w.children[i], n.children[i]) {
      WalkMirrors(t.children[i], n.children[i], false, expandNodes, selected);
    }
  }

  /** Walking a freshly hydrated tree establishes the expansion policy, whatever flag it was built with. */
  lemma {:induction false} WalkEstablishesPolicy(n: TreeNode, built: bool, isRoot: bool, expandNodes: bool, selected: string)
    ensures ExpandPolicy(Walk(Hydrate(n, built), isRoot, expandNodes, selected), isRoot, expandNodes, selected)
    decreases n
  {
    var w := Walk(Hydrate(n, built), isRoot, expandNodes, selected);
    forall i | 0 <= i < |n.children| ensures ExpandPolicy(w.children[i], false, expandNodes, selected) {
      WalkEstablishesPolicy(n.children[i], built, false, expandNodes, selected);
    }
  }

  /** The nodes tview's `Walk` hands to its callback, in pre-order, each as it is after the walk. */
  function PreOrder(t: PNode): seq<PNode>
    decreases t
  {
    if t.ref.None? then [] else [t] + PreOrderAll(t.children)
  }

  function PreOrderAll(ts: seq<PNode>): seq<PNode>
    decreases ts
  {
    if ts == [] then [] else PreOrder(ts[0]) + PreOrderAll(ts[1..])
  }

  predicate HasPath(p: PNode, path: string) {
    p.ref.Some? && p.ref.value.path == path
  }

  /**
   * The node that ends up current when `SetCurrentNode` is called on every visited
   * node whose path is `selected`.
   */
  function LastWithPath(visited: seq<PNode>, selected: string, current: Option<PNode>): Option<PNode>
  {
    if visited == [] then current
    else if HasPath(visited[|visited| - 1], selected) then Some(visited[|visited| - 1])
    else LastWithPath(visited[..|visited| - 1], selected, current)
  }

  /**
   * The current node after the visits: `current` when no visited node has the
   * selected path, otherwise the last visited node that has it.
   */
  lemma {:induction false} LastWithPathIsLastMatch(visited: seq<PNode>, selected: string, current: Option<PNode>)
    ensures (forall k :: 0 <= k < |visited| ==> !HasPath(visited[k], selected)) ==>
      LastWithPath(visited, selected, current) == current
    ensures (exists k :: 0 <= k < |visited| && HasPath(visited[k], selected)) ==>
      exists k :: 0 <= k < |visited| && LastWithPath(visited, selected, current) == Some(visited[k]) &&
        HasPath(visited[k], selected) && forall m :: k < m < |visited| ==> !HasPath(visited[m], selected)
    decreases |visited|
  {
    if visited == [] {
      return;
    }
    var n := |visited| - 1;
    if HasPath(visited[n], selected) {
      return;
    }
    var front := visited[..n];
    var r := LastWithPath(front, selected, current);
    assert LastWithPath(visited, selected, current) == r;
    assert forall k :: 0 <= k < n ==> front[k] == visited[k];
    LastWithPathIsLastMatch(front, selected, current);
    if exists k :: 0 <= k < |visited| && HasPath(visited[k], selected) {
      var k :| 0 <= k < |visited| && HasPath(visited[k], selected);
      assert HasPath(front[k], selected);
      var k' :| 0 <= k' < n && r == Some(front[k']) &&
        HasPath(front[k'], selected) && forall m :: k' < m < n ==> !HasPath(front[m], selected);
      assert r == Some(visited[k']) && HasPath(visited[k'], selected);
      assert forall m :: k' < m < |visited| ==> !HasPath(visited[m], selected);
    }
  }

  /** Visiting one more node: it becomes current exactly when it is on the selected path. */
  lemma LastWithPathStep(visited: seq<PNode>, j: nat, selected: string, current: Option<PNode>)
    requires j < |visited|
    ensures LastWithPath(visited[..j + 1], selected, current) ==
      if HasPath(visited[j], selected) then Some(visited[j]) else LastWithPath(visited[..j], selected, current)
  {
    assert visited[..j + 1][..j] == visited[..j];
  }

  /** Every node the walk visits in a tree meeting the policy satisfies the policy's per-node part. */
  lemma {:induction false} PolicyOfVisited(p: PNode, isRoot: bool, expandNodes: bool, selected: string)
    requires ExpandPolicy(p, isRoot, expandNodes, selected)
    ensures forall x :: x in PreOrder(p) ==>
      x.ref.Some? && x.selectable && (x.ref.value.path == selected ==> x.expanded)
    decreases p, 1
  {
    PolicyOfVisitedAll(p.children, expandNodes, selected);
  }

  lemma {:induction false} PolicyOfVisitedAll(ts: seq<PNode>, expandNodes: bool, selected: string)
    requires forall i :: 0 <= i < |ts| ==> ExpandPolicy(ts[i], false, expandNodes, selected)
    ensures forall x :: x in PreOrderAll(ts) ==>
      x.ref.Some? && x.selectable && (x.ref.value.path == selected ==> x.expanded)
    decreases ts, 0
  {
    if ts != [] {
      PolicyOfVisited(ts[0], false, expandNodes, selected);
      PolicyOfVisitedAll(ts[1..], expandNodes, selected);
    }
  }

  /** Some node of the snapshot `n` has path `id`. */
  ghost predicate InTree(n: TreeNode, id: string)
    decreases n
  {
    n.id == id || exists i :: 0 <= i < |n.children| && InTree(n.children[i], id)
  }

  /** A node visited under the i-th tree of a forest is visited under the forest. */
  lemma {:induction false} IntoPreOrderAll(ts: seq<PNode>, i: nat, x: PNode)
    requires i < |ts| && x in PreOrder(ts[i])
    ensures x in PreOrderAll(ts)
    decreases i
  {
    if i > 0 {
      IntoPreOrderAll(ts[1..], i - 1, x);
    }
  }

  /** A node visited under a forest is visited under one of its trees. */
  lemma {:induction false} OutOfPreOrderAll(ts: seq<PNode>, x: PNode)
    requires x in PreOrderAll(ts)
    ensures exists i :: 0 <= i < |ts| && x in PreOrder(ts[i])
    decreases |ts|
  {
    if x !in PreOrder(ts[0]) {
      OutOfPreOrderAll(ts[1..], x);
      var i :| 0 <= i < |ts[1..]| && x in PreOrder(ts[1..][i]);
      assert x in PreOrder(ts[i + 1]);
    }
  }

  /** Every path of the snapshot is the path of some node the walk of its rebuild visits. */
  lemma {:induction false} PresentIsVisited(n: TreeNode, built: bool, isRoot: bool, expandNodes: bool,
                                            selected: string, id: string)
    requires InTree(n, id)
    ensures exists x :: x in PreOrder(Walk(Hydrate(n, built), isRoot, expandNodes, selected)) && HasPath(x, id)
    decreases n
  {
    var w := Walk(Hydrate(n, built), isRoot, expandNodes, selected);
    assert PreOrder(w) == [w] + PreOrderAll(w.children);
    if n.id == id {
      assert w in PreOrder(w) && HasPath(w, id);
    } else {
      var i :| 0 <= i < |n.children| && InTree(n.children[i], id);
      PresentIsVisited(n.children[i], built, false, expandNodes, selected, id);
      var x :| x in PreOrder(w.children[i]) && HasPath(x, id);
      IntoPreOrderAll(w.children, i, x);
    }
  }

  /** Every node the walk of a rebuild visits carries the path of some node of the snapshot. */
  lemma {:induction false} VisitedIsPresent(n: TreeNode, built: bool, isRoot: bool, expandNodes: bool,
                                            selected: string, x: PNode)
    requires x in PreOrder(Walk(Hydrate(n, built), isRoot, expandNodes, selected))
    ensures x.ref.Some? && InTree(n, x.ref.value.path)
    decreases n
  {
    var w := Walk(Hydrate(n, built), isRoot, expandNodes, selected);
    assert PreOrder(w) == [w] + PreOrderAll(w.children);
    if x != w {
      OutOfPreOrderAll(w.children, x);
      var i :| 0 <= i < |w.children| && x in PreOrder(w.children[i]);
      VisitedIsPresent(n.children[i], built, false, expandNodes, selected, x);
    }
  }

  /**
   * One reconciliation of snapshot `n` into the presentation tree `w`, with the
   * current node going from `before` to `after`: `w` is the walked rebuild of `n`,
   * mirrors `n` and meets the expansion policy; `after` is the last visited node
   * with the selected path, or `before` when there is none. When a node of the
   * snapshot has the selected path, one with that path becomes current, expanded
   * and selectable; when none has it, the current node is left alone.
   */
  ghost predicate Reconciles(n: TreeNode, expandNodes: bool, selected: string,
                             before: Option<PNode>, w: PNode, after: Option<PNode>)
  {
    w == Walk(Hydrate(n, expandNodes), true, expandNodes, selected) &&
    Mirrors(w, n) && ExpandPolicy(w, true, expandNodes, selected) &&
    after == LastWithPath(PreOrder(w), selected, before) &&
    (InTree(n, selected) ==>
      after.Some? && after.value in PreOrder(w) && HasPath(after.value, selected) &&
      after.value.expanded && after.value.selectable) &&
    (!InTree(n, selected) ==> after == before)
  }

  /** Walking the hydrated snapshot and re-anchoring over the visited nodes is always a reconciliation. */
  lemma Reconciled(n: TreeNode, expandNodes: bool, selected: string, before: Option<PNode>)
    ensures var w := Walk(Hydrate(n, expandNodes), true, expandNodes, selected);
      Reconciles(n, expandNodes, selected, before, w, LastWithPath(PreOrder(w), selected, before))
  {
    var w := Walk(Hydrate(n, expandNodes), true, expandNodes, selected);
    var visited := PreOrder(w);
    HydrateMirrors(n, expandNodes);
    WalkMirrors(Hydrate(n, expandNodes), n, true, expandNodes, selected);
    WalkEstablishesPolicy(n, expandNodes, true, expandNodes, selected);
    PolicyOfVisited(w, true, expandNodes, selected);
    LastWithPathIsLastMatch(visited, selected, before);
    if InTree(n, selected) {
      PresentIsVisited(n, expandNodes, true, expandNodes, selected, selected);
      var x :| x in visited && HasPath(x, selected);
      var k :| 0 <= k < |visited| && visited[k] == x;
    } else {
      forall k | 0 <= k < |visited| ensures !HasPath(visited[k], selected) {
        VisitedIsPresent(n, expandNodes, true, expandNodes, selected, visited[k]);
      }
    }
  }

  /** When the selection is the snapshot root's own path, some node always becomes current. */
  lemma RootSelectionIsFound(n: TreeNode, expandNodes: bool, before: Option<PNode>)
    ensures var w := Walk(Hydrate(n, expandNodes), true, expandNodes, n.id);
      var after := LastWithPath(PreOrder(w), n.id, before);
      after.Some? && HasPath(after.value, n.id)
  {
    Reconciled(n, expandNodes, n.id, before);
  }

  /** Every node of `p` is expanded. */
  ghost predicate AllExpanded(p: PNode)
    decreases p
  {
    p.expanded && forall i :: 0 <= i < |p.children| ==> AllExpanded(p.children[i])
  }

  /** `a` and `b` differ at most in their expanded flags. */
  ghost predicate SameButExpanded(a: PNode, b: PNode)
    decreases a
  {
    a.text == b.text && a.ref == b.ref && a.selectable == b.selectable &&
    |a.children| == |b.children| &&
    forall i :: 0 <= i < |a.children| ==> SameButExpanded(a.children[i], b.children[i])
  }

  /** tview's `ExpandAll`: every node of the subtree expanded, nothing else changed. */
  function ExpandAll(t: PNode): (r: PNode)
    ensures AllExpanded(r)
    ensures SameButExpanded(r, t)
    decreases t
  {
    t.(expanded := true,
       children := seq(|t.children|, i requires 0 <= i < |t.children| => ExpandAll(t.children[i])))
  }
}
