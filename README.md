# Xray view of k9s, modelled in Dafny

This project models the core of the k9s xray view (`internal/view/xray.go`). The
xray view shows a Kubernetes resource and its dependents as a tree. The model
covers four parts:

- **Presentation-tree builder** (`tree.dfy`, `view.dfy`).
  - `makeTreeNode` turns a domain node of a watch snapshot into a presentation node. Its `NodeSpec` reference records exactly one parent hop.
  - `hydrate` builds the presentation subtree recursively.
  - `update` defaults the selected item to the root's path. Its walk then expands the root, gives every other node the global expand toggle, forces the selected node expanded and selectable, and makes it the current node.
- **Local filter** (`filtering.dfy`, `text.dfy`).
  - `filter` dispatches between "no filtering", the fuzzy strategy and the per-segment regular-expression strategy.
  - `rxFilter` splits a path on the path separator and tries the case-insensitive query on each segment.
  - `fuzzyFilter` drops the two-character selector prefix, trims white space and fuzzy-matches the whole path.
  - Go's `strings.Split`, `strings.Join` and `strings.TrimSpace` are modelled in `text.dfy`.
- **Watch lifecycle** (`view.dfy`).
  - `Start` stops any running watch, registers the two buffer listeners and starts a watch with the context from `defaultContext`.
  - `Stop` cancels the running watch once and removes the listeners.
  - The cancel function is a token: the index of the watch in the list of every watch started. A set records which tokens were cancelled, so "at most one live subscription" can be stated and proved.
- **Filter-mode key handlers** (`view.dfy`, `buffer.dfy`). `activateCmd`, `clearCmd`, `eraseCmd`, `resetCmd` and `gotoCmd` are guarded transitions over the command buffer, the model's filter and the watch lifecycle.

Several collaborators are parameters of the model, because their code is not part of it:

- the regular-expression engine;
- the fuzzy matcher;
- the `ui` selector helpers `IsLabelSelector`, `IsFuzzySelector` and `TrimLabelSelector`;
- the pruning walk `xray.TreeNode.Filter`;
- the value of `xray.PathSeparator`.

They are function-valued fields of the `Filtering.Selectors` and `Filtering.Engines` datatypes.

`ui.CmdBuff` is not part of this model either. `Buffer.CmdBuff` states the behaviour the view relies on:

- `Delete` drops the last character, if there is one;
- `Clear` empties the text and keeps the active flag;
- `Reset` empties the text and deactivates the buffer;
- `InCmdMode` holds while the buffer is active or holds text;
- listeners form a set.

tview changes presentation nodes in place. Here they are datatype values, and each step returns the changed tree. The view keeps its current node as a value.

## Model

| member | source | states |
|---|---|---|
| Tree.MakeTreeNode | internal/view/xray.go:660-681 | A nil node gives the childless "No data..." placeholder with no reference. Otherwise the reference has the node's path and kind, and exactly one parent hop holding the parent's kind and path, or empty strings at the root. The node is selectable and expanded as asked. |
| Tree.HydrateMirrors | internal/view/xray.go:501-507 | The built tree has the domain tree's shape and child order, and every node carries its own domain node's reference. |
| Tree.HydrateUniform | internal/view/xray.go:674-675 | Every node the builder creates is selectable and carries the expand flag it was built with. |
| Tree.HydrateParentLinked | internal/view/xray.go:664-672 | On a snapshot whose back-references agree with its children, each node's one-hop parent reference names the node it hangs under. |
| Tree.WalkMirrors | internal/view/xray.go:472-490 | The walk of `update` changes only flags: references, shape and child order are kept. |
| Tree.WalkEstablishesPolicy | internal/view/xray.go:478-487 | After the walk, every node is selectable. The root is expanded. Every other node is expanded exactly when the expand toggle is on or it is the selected node. |
| Tree.LastWithPathIsLastMatch | internal/view/xray.go:485-488 | With no visited node on the selected path, the current node is kept. Otherwise the current node is the last visited node on that path. |
| Tree.PolicyOfVisited | internal/view/xray.go:485-486 | Every node the walk visits has a reference and is selectable. A visited node on the selected path is expanded. |
| Tree.PresentIsVisited | internal/view/xray.go:472-488 | Every path of the snapshot is the path of some node the walk visits. |
| Tree.VisitedIsPresent | internal/view/xray.go:472-488 | Every node the walk visits has a reference whose path is the path of some snapshot node. |
| Tree.RootSelectionIsFound | internal/view/xray.go:466-488 | When the selection is the snapshot root's path, as it is after the empty selection is defaulted, some node with that path becomes current. |
| Tree.Reconciled | internal/view/xray.go:463-490 | One reconciliation mirrors the snapshot and meets the expansion policy. When some snapshot node has the selected path, a node with that path becomes current, expanded and selectable. When no snapshot node has it, the current node is left alone. |
| Tree.ExpandAll | internal/view/xray.go:406 | Every node is expanded and nothing else changes. |
| Text.Split | internal/view/xray.go:650 | There is always at least one piece, and no piece contains the separator. A string without the separator is its own single piece. A string with the separator gives at least two pieces, each strictly shorter than the string. |
| Text.JoinSplit | internal/view/xray.go:650 | Joining the pieces of a split with the separator gives back the path. |
| Text.TrimSpace | internal/view/xray.go:642 | The trimmed query neither starts nor ends with white space and is no longer than the input. |
| Text.TrimSpaceIsInfix | internal/view/xray.go:642 | The trimmed query is an infix of the input, and everything removed around it is white space. |
| Text.TrimSpacePadded | internal/view/xray.go:642 | White space added on either side does not change the trimmed form. |
| Text.TrimSpaceIdempotent | internal/view/xray.go:642 | Trimming twice is trimming once. |
| Filtering.AnyMatch | internal/view/xray.go:651-657 | The token loop returns true exactly when some token matches. |
| Filtering.RxFilterWithoutSeparator | internal/view/xray.go:648-658 | A path without the separator is tested as a whole. |
| Filtering.RxFilterTestsSegmentsOnly | internal/view/xray.go:648-658 | A path with the separator holds exactly when the query matches one of its segments. Each segment is strictly shorter than the path and holds no separator, so the whole path is never tested. The segments join back to the path. |
| Filtering.FuzzyFilterIgnoresPrefixAndPadding | internal/view/xray.go:641-646 | The result depends only on the query after its two prefix characters, with surrounding white space trimmed, matched against the whole path. |
| Filtering.Filter | internal/view/xray.go:425-437 | An empty buffer or a label selector gives back the root itself. Any other query prunes the root with the buffer and a matcher. For a fuzzy selector the matcher is `fuzzyFilter` on every query of two or more characters. Otherwise it is `rxFilter` on every query that compiles. |
| Buffer.CmdBuff.SetActive | internal/view/xray.go:361 | Sets the active flag; text and listeners are kept. |
| Buffer.CmdBuff.Delete | internal/view/xray.go:379 | Drops the last character if there is one; the active flag and listeners are kept. |
| Buffer.CmdBuff.Clear | internal/view/xray.go:370 | Empties the text and keeps the active flag and listeners. |
| Buffer.CmdBuff.Reset | internal/view/xray.go:388 | Empties the text and deactivates; listeners are kept. |
| Buffer.CmdBuff.AddListener | internal/view/xray.go:540-541 | Adds one listener to the set and changes nothing else. |
| Buffer.CmdBuff.RemoveListener | internal/view/xray.go:557-558 | Removes one listener from the set and changes nothing else. |
| View.GotoTarget | internal/view/xray.go:411-417 | A resource is opened exactly when there is a current node with a reference whose path contains "/". The resource is that reference. |
| View.Xray.LiveIsHeldHandle | internal/view/xray.go:537-559 | Under the lifecycle invariant, the live subscriptions are exactly the one whose cancel token the view holds, so at most one is live. |
| View.Xray.Stop | internal/view/xray.go:550-559 | With no watch running, nothing changes. Otherwise the running watch is cancelled exactly once, the handle is cleared and both listeners are removed. The lifecycle invariant is kept. |
| View.Xray.Start | internal/view/xray.go:524-547 | Any running watch is stopped, both listeners are registered, and a new watch is recorded. Its context has no field selector and the buffer as label selector, with its prefix trimmed, or no label selector for an empty buffer. Afterwards exactly that watch is live. |
| View.Xray.HydrateInto | internal/view/xray.go:501-507 | The parent gets the presentation subtree of the domain node appended as its last child. |
| View.Xray.Rebuild | internal/view/xray.go:455-490 | Builds the root and hydrates each child in order. An empty selection defaults to the root's path. The walk and re-anchoring then give a reconciliation in the sense of `Tree.Reconciled`. |
| View.Reanchor | internal/view/xray.go:472-490 | The loop over the visited nodes leaves as current the last node on the selected path, or keeps the current node. |
| View.Xray.Update | internal/view/xray.go:454-492 | A nil snapshot shows the placeholder and keeps the selection and current node. Otherwise an empty selection defaults to the root's path and the stored root is the reconciled tree. A snapshot node with the selected path makes a node with that path current, expanded and selectable; with none, the current node is kept. The watch state is unchanged. |
| View.Xray.TreeChanged | internal/view/xray.go:495-499 | The snapshot as `filter` returns it is handled as `update` handles it: the placeholder with selection and current node kept when filtering gives nil, otherwise the selection default and a reconciliation of the filtered snapshot. With an empty buffer or a label selector, the snapshot itself is reconciled. |
| View.Xray.ActivateCmd | internal/view/xray.go:356-364 | In command mode the key is passed on and nothing changes. Otherwise the buffer becomes active, its text is kept and "Filter mode activated." is flashed. |
| View.Xray.ClearCmd | internal/view/xray.go:366-375 | An inactive buffer changes nothing. Otherwise the buffer is emptied but stays active, and the model's filter is cleared. The watch is restarted with no label selector: the old watch is cancelled, both listeners are added to the others, and the new watch is the only live one. |
| View.Xray.EraseCmd | internal/view/xray.go:377-384 | The last character is dropped only from an active buffer. The key is always consumed. |
| View.Xray.ResetCmd | internal/view/xray.go:386-398 | The buffer always ends empty and inactive. Outside command mode the key goes to the previous command and nothing else changes. In command mode the filter is cleared and "Clearing filter..." flashed. The watch is restarted: the old watch is cancelled, both listeners are added to the others, and the new watch is the only live one. |
| View.Xray.GotoCmd | internal/view/xray.go:400-423 | On an active buffer the buffer is deactivated with its text kept, and the tree is expanded. For a label selector the watch restarts: the old watch is cancelled and both listeners are added to the others. Otherwise the watch and listeners are kept. On an inactive buffer nothing changes and the resource `GotoTarget` picks is reported. |
| View.RestartKeepsOneWatch | internal/view/xray.go:537-547 | Starting twice leaves the second watch as the only live one, and the first is cancelled. |
| View.StopTwiceIsStopOnce | internal/view/xray.go:550-559 | A second stop changes nothing: one cancellation at most, and both listeners are removed. |

## Left out

- Rendering is not modelled: colours, titles (`UpdateTitle`, `styleTitle`), the key-action menu (`refreshActions`), the toggle-on-select callback of each node, and `TreeNodeSelected`.
- `QueueUpdateDraw` is treated as running its function immediately. The ordering between the snapshot goroutine and the UI thread is not modelled.
- Kubernetes actions are not modelled: `viewResource`, logs, shell, describe, edit, YAML and delete.
- View.Xray.GotoCmd: the inactive branch reports which resource it would open, but not the app's attempt to open it or the error flash when that fails.
- View.Xray.GotoCmd: requires a root while the buffer is active, since `ExpandAll` on a nil root would dereference nil.
- The regex engine, the fuzzy matcher, the `ui` selector helpers and the pruning `xray.TreeNode.Filter` are uninterpreted parameters. Nothing is proved about what pruning returns.
- `TreeNode.Count`, which `TreeChanged` stores for the title, is not modelled.
- Filtering.RxFilter: `regexp.MustCompile` panics on a malformed pattern. The model makes a compiling pattern a precondition, and the matcher `filter` hands to the pruning walk is defined only on such queries. What happens when the walk calls it outside that domain is not modelled.
- Filtering.FuzzyFilter: requires at least two characters, because `q[2:]` panics on a shorter query. The matcher handed to the pruning walk carries the same precondition. Go slices bytes, and the model slices characters. The two agree whenever the selector prefix is two one-byte characters.
- The context and the background goroutine of `model.Watch` are not modelled. A watch is recorded by its context values (fields and labels), and the client factory stored in the context is left out.
- View.Xray.Update: the current node is held as a value, not as a node identity. A current node that no longer matches keeps its value from the earlier tree.
- View.Xray.GotoCmd: the stored current node keeps its flags from before `ExpandAll`. In tview the current node is a node of the tree, so it is expanded with the rest.
- The `Status` of a `NodeSpec` and the styled title text are not modelled. A node's label records only the kind and path it was made from.
- `keyEntered`, `BufferChanged`, `BufferActive` and the other listener callbacks are not modelled.
