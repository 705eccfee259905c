/**
 * The xray view (`view.Xray`): the watch lifecycle (`Start`, `Stop`,
 * `defaultContext`), the reconciliation of a snapshot into the presentation tree
 * (`update`, `hydrate`, `TreeChanged`) and the filter-mode key handlers.
 *
 * The cancel function of the running watch is an opaque token: the index of the
 * subscription it cancels in the list of every watch started. The background
 * goroutine of `model.Watch` is not modelled; starting a watch records its context.
 */
module View {
  import opened Wrappers
  import opened Text
  import opened Tree
  import opened Filtering
  import opened Buffer

  /** The values `defaultContext` stores for the watch (the client factory is not modelled). */
  datatype WatchContext = WatchContext(fields: string, labels: string)

  /**
   * `defaultContext`: no field selector, and the label selector of the buffer: none
   * for an empty buffer, otherwise the buffer with its selector prefix trimmed.
   */
  function DefaultContext(sel: Selectors, buffer: string): WatchContext
  {
    WatchContext("", if buffer == "" then "" else sel.trimLabel(buffer))
  }

  /** What a key handler returns: the event consumed (nil), passed on, or the app's `PrevCmd` result. */
  datatype KeyResult = Consumed | Propagated | PrevCmd

  /**
   * The resource `gotoCmd` opens on an inactive buffer: the reference of the current
   * node (`selectedSpec`), unless there is no current node or its path splits on
   * "/" into a single segment, that is, holds no "/".
   */
  function GotoTarget(current: Option<PNode>): (r: Option<NodeSpec>)
    ensures r.Some? <==> current.Some? && current.value.ref.Some? && Contains(current.value.ref.value.path, "/")
    ensures r.Some? ==> r == current.value.ref
  {
    if current.None? || current.value.ref.None? then None
    else if |Split(current.value.ref.value.path, "/")| == 1 then None
    else current.value.ref
  }

  const FilterActivated := "Filter mode activated."
  const ClearingFilter := "Clearing filter..."

  class Xray {
    const sel: Selectors
    const eng: Engines
    const buff: CmdBuff

    /** The cancel function of the running watch, as the token of its subscription. */
    var cancel: Option<nat>
    /** The context of every watch started, the i-th with token i. */
    var watches: seq<WatchContext>
    /** The tokens whose cancel function has been called. */
    var cancelled: set<nat>
    /** The filter of `model.Tree`; the view only ever clears it. */
    var modelFilter: string

    /** The tree view's single expand/collapse toggle. */
    var expandNodes: bool
    /** The path of the selected item, "" when none. */
    var selectedItem: string
    var root: Option<PNode>
    var current: Option<PNode>
    /** Informational messages flashed to the user, oldest first. */
    var flashes: seq<string>

    /**
     * The lifecycle invariant: a running watch is the newest one, is not cancelled,
     * and has both view listeners registered; a stopped view has neither listener;
     * every other watch ever started has been cancelled.
     */
    ghost predicate Valid()
      reads this`cancel, this`watches, this`cancelled, buff`listeners
    {
      (cancel.Some? ==>
        cancel.value == |watches| - 1 && cancel.value !in cancelled && ViewListeners <= buff.listeners) &&
      (cancel.None? ==> ViewListeners !! buff.listeners) &&
      (forall t :: 0 <= t < |watches| && cancel != Some(t) ==> t in cancelled) &&
      (forall t :: t in cancelled ==> t < |watches|)
    }

    /** The subscriptions started and not cancelled. */
    ghost function Live(): set<nat>
      reads this`watches, this`cancelled
    {
      set t | 0 <= t < |watches| && t !in cancelled
    }

    /** At most one subscription is live: the one whose cancel function the view holds. */
    lemma LiveIsHeldHandle()
      requires Valid()
      ensures Live() == if cancel.Some? then {cancel.value} else {}
      ensures |Live()| <= 1
    {
    }

    constructor (sel: Selectors, eng: Engines, expandNodes: bool)
      ensures Valid() && fresh(buff)
      ensures this.sel == sel && this.eng == eng && this.expandNodes == expandNodes
      ensures cancel.None? && watches == [] && cancelled == {} && Live() == {}
      ensures root.None? && current.None? && selectedItem == "" && flashes == []
      ensures buff.text == "" && !buff.active && buff.listeners == {}
    {
      this.sel, this.eng, this.expandNodes := sel, eng, expandNodes;
      buff := new CmdBuff();
      cancel, watches, cancelled, modelFilter := None, [], {}, "";
      selectedItem, root, current, flashes := "", None, None, [];
    }

    /**
     * `Stop`: a no-op when no watch runs, so calling it again changes nothing;
     * otherwise the running watch is cancelled exactly once, the handle cleared and
     * both listeners removed.
     */
    method Stop()
      requires Valid()
      modifies this, buff
      ensures Valid() && cancel.None? && Live() == {}
      ensures old(cancel).None? ==> unchanged(this, buff)
      ensures old(cancel).Some? ==>
        cancelled == old(cancelled) + {old(cancel).value} &&
        buff.listeners == old(buff.listeners) - ViewListeners
      ensures watches == old(watches) && buff.text == old(buff.text) && buff.active == old(buff.active)
      ensures unchanged(this`modelFilter, this`expandNodes, this`selectedItem, this`root, this`current, this`flashes)
    {
      if cancel.None? {
        return;
      }
      cancelled := cancelled + {cancel.value};
      cancel := None;
      buff.RemoveListener(CmdLine);
      buff.RemoveListener(XrayView);
      assert buff.listeners == old(buff.listeners) - ViewListeners;
    }

    /**
     * `Start`: stops any running watch, registers both listeners and starts a new
     * watch with the buffer's context; afterwards exactly that watch is live.
     */
    method Start()
      requires Valid()
      modifies this, buff
      ensures Valid() && cancel == Some(|old(watches)|) && Live() == {cancel.value}
      ensures watches == old(watches) + [DefaultContext(sel, old(buff.text))]
      ensures cancelled == old(cancelled) + (if old(cancel).Some? then {old(cancel).value} else {})
      ensures buff.listeners == old(buff.listeners) + ViewListeners
      ensures buff.text == old(buff.text) && buff.active == old(buff.active)
      ensures unchanged(this`modelFilter, this`expandNodes, this`selectedItem, this`root, this`current, this`flashes)
    {
      Stop();
      buff.AddListener(CmdLine);
      buff.AddListener(XrayView);
      assert buff.listeners == old(buff.listeners) + ViewListeners;
      assert ViewListeners <= buff.listeners;
      var ctx := DefaultContext(sel, buff.text);
      cancel := Some(|watches|);
      watches := watches + [ctx];
    }

    /** `hydrate`: `parent` with the presentation subtree of `n` appended as its last child. */
    method HydrateInto(parent: PNode, n: TreeNode) returns (p: PNode)
      ensures p == parent.(children := parent.children + [Hydrate(n, expandNodes)])
      decreases n
    {
      var node := MakeTreeNode(Some(n), expandNodes);
      var i := 0;
      while i < |n.children|
        invariant 0 <= i <= |n.children|
        invariant node == Hydrate(n, expandNodes).(children := Hydrate(n, expandNodes).children[..i])
      {
        node := HydrateInto(node, n.children[i]);
        i := i + 1;
      }
      assert node == Hydrate(n, expandNodes);
      p := parent.(children := parent.children + [node]);
    }

    /**
     * `update`: a missing snapshot shows the placeholder. Otherwise the snapshot is
     * rebuilt with its shape, order and references; an empty selection defaults to
     * the root's path; the root is expanded and every other node follows the
     * expand toggle, except the selected node, which is forced expanded and
     * selectable and becomes the current node (the last one in pre-order if several
     * match). When no node has the selected path the current node is left alone.
     */
    method Update(node: Option<TreeNode>)
      requires Valid()
      modifies this
      ensures Valid()
      ensures unchanged(this`cancel, this`watches, this`cancelled, this`modelFilter, this`expandNodes, this`flashes)
      ensures node.None? ==>
        root == Some(MakeTreeNode(None, expandNodes)) && selectedItem == old(selectedItem) && current == old(current)
      ensures node.Some? ==>
        selectedItem == if old(selectedItem) == "" then node.value.id else old(selectedItem)
      ensures node.Some? ==>
        root.Some? && Reconciles(node.value, expandNodes, selectedItem, old(current), root.value, current)
    {
      if node.None? {
        root := Some(MakeTreeNode(node, expandNodes));
        return;
      }
      var selected, w, cur := Rebuild(node.value);
      selectedItem, root, current := selected, Some(w), cur;
    }

    /**
     * The body of `update` for a present snapshot, before its results are stored:
     * the root is built and each child hydrated into it, an empty selection
     * defaults to the root's path, and the walk sets the flags and re-anchors the
     * current node.
     */
    method Rebuild(n: TreeNode) returns (selected: string, w: PNode, cur: Option<PNode>)
      ensures selected == if selectedItem == "" then n.id else selectedItem
      ensures Reconciles(n, expandNodes, selected, current, w, cur)
    {
      var r := MakeTreeNode(Some(n), expandNodes);
      var i := 0;
      ghost var h := Hydrate(n, expandNodes);
      while i < |n.children|
        invariant 0 <= i <= |n.children|
        invariant r == h.(children := h.children[..i])
      {
        r := HydrateInto(r, n.children[i]);
        i := i + 1;
      }
      assert r == h;
      selected := if selectedItem == "" then n.id else selectedItem;
      w := Walk(r, true, expandNodes, selected);
      cur := Reanchor(w, selected, current);
      Reconciled(n, expandNodes, selected, current);
    }

    /**
     * `TreeChanged`: the snapshot is filtered with the buffer and the result
     * reconciled as `update` does. With an empty buffer or a label selector the
     * snapshot itself is reconciled.
     */
    method TreeChanged(node: Option<TreeNode>)
      requires Valid()
      modifies this
      ensures Valid()
      ensures unchanged(this`cancel, this`watches, this`cancelled, this`modelFilter, this`expandNodes, this`flashes)
      ensures Filter(sel, eng, buff.text, node).None? ==>
        root == Some(MakeTreeNode(None, expandNodes)) && selectedItem == old(selectedItem) && current == old(current)
      ensures Filter(sel, eng, buff.text, node).Some? ==>
        selectedItem == (if old(selectedItem) == "" then Filter(sel, eng, buff.text, node).value.id else old(selectedItem)) &&
        root.Some? &&
        Reconciles(Filter(sel, eng, buff.text, node).value, expandNodes, selectedItem, old(current), root.value, current)
      ensures (buff.text == "" || sel.isLabel(buff.text)) && node.Some? ==>
        root.Some? && Reconciles(node.value, expandNodes, selectedItem, old(current), root.value, current)
    {
      Update(Filter(sel, eng, buff.text, node));
    }

    /** `activateCmd`: refused while the app is in command mode; otherwise the buffer becomes active. */
    method ActivateCmd(appInCmdMode: bool) returns (r: KeyResult)
      requires Valid()
      modifies this, buff
      ensures Valid()
      ensures appInCmdMode ==> r == Propagated && unchanged(this, buff)
      ensures !appInCmdMode ==>
        r == Consumed && buff.active && buff.text == old(buff.text) && buff.listeners == old(buff.listeners) &&
        flashes == old(flashes) + [FilterActivated]
      ensures unchanged(this`cancel, this`watches, this`cancelled, this`modelFilter)
      ensures unchanged(this`expandNodes, this`selectedItem, this`root, this`current)
    {
      if appInCmdMode {
        return Propagated;
      }
      flashes := flashes + [FilterActivated];
      buff.SetActive(true);
      return Consumed;
    }

    /**
     * `clearCmd`: does nothing to an inactive buffer; otherwise empties it, clears
     * the model's filter and restarts the watch, now with no label selector.
     */
    method ClearCmd() returns (r: KeyResult)
      requires Valid()
      modifies this, buff
      ensures Valid()
      ensures !old(buff.active) ==> r == Propagated && unchanged(this, buff)
      ensures old(buff.active) ==>
        r == Consumed && buff.text == "" && buff.active && modelFilter == "" &&
        cancel == Some(|old(watches)|) && Live() == {cancel.value} &&
        watches == old(watches) + [WatchContext("", "")] &&
        cancelled == old(cancelled) + (if old(cancel).Some? then {old(cancel).value} else {}) &&
        buff.listeners == old(buff.listeners) + ViewListeners
      ensures unchanged(this`expandNodes, this`selectedItem, this`root, this`current, this`flashes)
    {
      if !buff.active {
        return Propagated;
      }
      buff.Clear();
      modelFilter := "";
      Start();
      return Consumed;
    }

    /** `eraseCmd`: drops the last character of an active buffer; always consumes the key. */
    method EraseCmd() returns (r: KeyResult)
      requires Valid()
      modifies buff
      ensures Valid() && r == Consumed
      ensures buff.text == if old(buff.active) && old(buff.text) != "" then old(buff.text)[..|old(buff.text)| - 1] else old(buff.text)
      ensures buff.active == old(buff.active) && buff.listeners == old(buff.listeners)
    {
      if buff.active {
        buff.Delete();
      }
      return Consumed;
    }

    /**
     * `resetCmd`: outside command mode the buffer is reset and the key handed to the
     * app's previous command; in command mode the buffer is reset, the model's
     * filter cleared and the watch restarted, with a notice to the user.
     */
    method ResetCmd() returns (r: KeyResult)
      requires Valid()
      modifies this, buff
      ensures Valid()
      ensures buff.text == "" && !buff.active
      ensures !old(buff.InCmdMode()) ==>
        r == PrevCmd && unchanged(this) && buff.listeners == old(buff.listeners)
      ensures old(buff.InCmdMode()) ==>
        r == Consumed && modelFilter == "" && flashes == old(flashes) + [ClearingFilter] &&
        cancel == Some(|old(watches)|) && Live() == {cancel.value} &&
        watches == old(watches) + [WatchContext("", "")] &&
        cancelled == old(cancelled) + (if old(cancel).Some? then {old(cancel).value} else {}) &&
        buff.listeners == old(buff.listeners) + ViewListeners
      ensures unchanged(this`expandNodes, this`selectedItem, this`root, this`current)
    {
      if !buff.InCmdMode() {
        buff.Reset();
        return PrevCmd;
      }
      flashes := flashes + [ClearingFilter];
      buff.Reset();
      modelFilter := "";
      Start();
      return Consumed;
    }

    /**
     * `gotoCmd` on an active buffer: a label selector restarts the watch (so the
     * selector is applied by the watch), then the buffer is deactivated, its text
     * kept, and the whole tree expanded. On an inactive buffer the key asks the app
     * to open the resource `GotoTarget` picks, if any, and the view's state is left alone.
     */
    method GotoCmd() returns (r: KeyResult, target: Option<NodeSpec>)
      requires Valid()
      requires buff.active ==> root.Some?
      modifies this, buff
      ensures Valid() && r == Consumed
      ensures !old(buff.active) ==> unchanged(this, buff) && target == GotoTarget(current)
      ensures old(buff.active) ==>
        target.None? && !buff.active && buff.text == old(buff.text) && root == Some(ExpandAll(old(root).value))
      ensures old(buff.active) && sel.isLabel(old(buff.text)) ==>
        cancel == Some(|old(watches)|) && Live() == {cancel.value} &&
        watches == old(watches) + [DefaultContext(sel, old(buff.text))] &&
        cancelled == old(cancelled) + (if old(cancel).Some? then {old(cancel).value} else {}) &&
        buff.listeners == old(buff.listeners) + ViewListeners
      ensures old(buff.active) && !sel.isLabel(old(buff.text)) ==>
        cancel == old(cancel) && watches == old(watches) && cancelled == old(cancelled) &&
        buff.listeners == old(buff.listeners)
      ensures unchanged(this`modelFilter, this`expandNodes, this`selectedItem, this`current, this`flashes)
    {
      if !buff.active {
        return Consumed, GotoTarget(current);
      }
      if sel.isLabel(buff.text) {
        Start();
      }
      buff.SetActive(false);
      root := Some(ExpandAll(root.value));
      return Consumed, None;
    }
  }

  /**
   * The re-anchoring part of the walk callback of `update`: over the visited nodes
   * in pre-order, every node whose path is the selected item becomes the current
   * node in turn, so the last one wins and `current` survives when none matches.
   */
  method Reanchor(w: PNode, selected: string, current: Option<PNode>) returns (cur: Option<PNode>)
    ensures cur == LastWithPath(PreOrder(w), selected, current)
  {
    var visited := PreOrder(w);
    cur := current;
    var j := 0;
    assert visited[..0] == [];
    while j < |visited|
      invariant 0 <= j <= |visited|
      invariant cur == LastWithPath(visited[..j], selected, current)
    {
      LastWithPathStep(visited, j, selected, current);
      if HasPath(visited[j], selected) {
        cur := Some(visited[j]);
      }
      j := j + 1;
    }
    assert visited[..j] == visited;
  }

  /** Starting twice leaves exactly one live watch, the second; the first was cancelled. */
  method RestartKeepsOneWatch(x: Xray)
    requires x.Valid()
    modifies x, x.buff
    ensures x.Valid() && x.Live() == {|old(x.watches)| + 1}
    ensures |old(x.watches)| in x.cancelled
  {
    x.Start();
    x.Start();
  }

  /** Stopping twice is stopping once. */
  method StopTwiceIsStopOnce(x: Xray)
    requires x.Valid()
    modifies x, x.buff
    ensures x.Valid() && x.cancel.None? && x.Live() == {}
    ensures x.cancelled == old(x.cancelled) + (if old(x.cancel).Some? then {old(x.cancel).value} else {})
    ensures x.buff.listeners == old(x.buff.listeners) - ViewListeners
  {
    x.Stop();
    x.Stop();
  }
}
