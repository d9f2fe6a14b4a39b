# Vector editor core: shortcuts, editor commands, render sync, layer panel

A Dafny model of four pieces of a Figma-like design editor:

- **Shortcut dispatch** (`Shortcuts`). This is the editor's global keydown matcher over its table `f`, `r`, `Backspace`, `cmd+a`, `cmd+y`, `cmd+z`. Each key string is split on `+`. A part named `shift` or `cmd` needs that flag on the input snapshot. Any other part must equal the pressed key exactly. The first entry whose parts all match fires, and the walk stops there. `Dispatch` keeps the TypeScript code's nested loops and its `flag`.
- **Editor commands** (`EditorCore.Editor`). This is a class holding the scene (a forest of `Scene.Node` trees), the selection as ids, the hover, the interaction state, the pending transaction, the committed history, and a `trace` of every call the editor makes into its base class. It models the `Backspace` and `cmd+a` handlers, `createNode`, `createEmptyPage`, the `hoverNodeId` setter, `changeEditorState` and `goToDefaultState`. The base class's scene storage, `applyTransaction`, `commitHistory`, `traverse` and `destroy` get minimal contracts only: `traverse` is a pre-order walk, `destroy` detaches a subtree, and `commitHistory` appends the pending transaction (module `Scene` and the `...Call` methods).
- **Render synchroniser** (`Render`). A Pixi `Graphics` object is the trace of draw commands issued on it. The model covers which node types get no primitive, and the local-origin rectangle. It covers the column-major `mat3` → affine mapping (entries 0, 1, 3, 4, 6, 7), first-paint-only fill and stroke, and `processColor` over exact reals.
- **Layer panel** (`LayerPanel`). These are pure functions for the click-to-select and cmd/ctrl-click toggle, the selected and hovered highlights, the "delete selected" action and the case-insensitive layer search.

Three behaviours of the code that are easy to misread:

- Modifier matching is not an exact comparison of modifier sets. An entry only checks the modifiers it names, so holding extra modifiers never blocks a match (`ExtraModifiersIgnored`, `DefaultTableDecision`).
- `processColor` divides r, g and b by 255 but returns `a * opacity` undivided. So the code treats the colour's alpha as already in [0, 1], and the model assumes the same (`ProcessColorRange` requires it). A solid red fill reaches alpha 1 only with a colour alpha of 1 (`SolidRedRectangle`). `setBackgroundColor` also passes `a` on undivided.
- The panel's selection is a list, not a set. The toggle appends the clicked node or filters it out by id.

## Model

| member | source | states |
|---|---|---|
| `Shortcuts.Dispatch` | packages/editor/src/editor/index.ts:178-204 | At most one action fires: that of the first entry in table order whose every part matches. Nothing fires iff no entry matches. |
| `Shortcuts.ModifierOf` | packages/editor/src/editor/index.ts:173-176 | Exactly the parts `shift` and `cmd` name a modifier: `shift` the shift flag, `cmd` the cmd flag. |
| `Shortcuts.SplitJoin` | packages/editor/src/editor/index.ts:181-182 | No piece of `key.split('+')` contains `+`. Joining the pieces with `+` gives the key back. |
| `Shortcuts.JoinSplit` | packages/editor/src/editor/index.ts:181-182 | Splitting a `+`-join of `+`-free pieces gives the pieces back. |
| `Shortcuts.SplitPlain` | packages/editor/src/editor/index.ts:182 | A key without `+` splits into itself alone. |
| `Shortcuts.ExtraModifiersIgnored` | packages/editor/src/editor/index.ts:184-198 | Holding more modifiers never stops an entry from matching, because unnamed modifiers are not checked. |
| `Shortcuts.MissingModifierRejects` | packages/editor/src/editor/index.ts:186-191 | A part naming a modifier that is not held rejects the entry. |
| `Shortcuts.TwoPlainPartsNeverMatch` | packages/editor/src/editor/index.ts:192-196 | Plain parts compare with the key exactly, so two different plain parts can never both match. |
| `Shortcuts.PlainEntry` | packages/editor/src/editor/index.ts:192-196 | A one-key entry matches exactly that key, case-sensitively, whatever modifiers are held. |
| `Shortcuts.CmdEntry` | packages/editor/src/editor/index.ts:184-198 | An entry `cmd+k` matches exactly key `k` with cmd held. |
| `Shortcuts.TableTail` | packages/editor/src/editor/index.ts:153-170 | The last three entries fire select-all, redo or undo only with cmd held, on `a`, `y` or `z`. |
| `Shortcuts.DefaultTableDecision` | packages/editor/src/editor/index.ts:120-204 | The registered table equals a decision on the snapshot. `f`, `r` and `Backspace` fire whatever modifiers are held. `a`, `y` and `z` fire only with cmd. Nothing else fires. |
| `Shortcuts.DefaultTableExamples` | packages/editor/src/editor/index.ts:121-170 | `R` fires nothing. `r` with cmd creates a rectangle. `a` with cmd and shift selects all. Plain `z` fires nothing. `z` with cmd undoes. |
| `Scene.Preorder` | packages/editor/src/editor/index.ts:139 | A walk starts at the node itself. |
| `Scene.PreorderSize` | packages/editor/src/editor/index.ts:139-145 | A pre-order walk visits exactly the nodes of the subtree: N + 1 for a node with N descendants. |
| `Scene.FindSpec` | packages/editor/src/editor/index.ts:29 | `getNodeById` resolves an id iff some node of the scene carries it, and returns a node with that id. |
| `Scene.FindEmptyIdIsNone` | packages/editor/src/editor/index.ts:28-31 | In a scene with generated ids, the empty id never resolves. |
| `Scene.RemoveShrinks` | packages/editor/src/editor/index.ts:144 | `destroy` only removes ids, and the destroyed id is gone. |
| `Scene.RemoveSpec` | packages/editor/src/editor/index.ts:144 | With unique ids, an id survives `destroy` iff it was present and is not in the destroyed subtree. |
| `Scene.RemoveIsRemoveSet` | packages/editor/src/editor/index.ts:144 | A single `destroy` is the set-wise removal of that one id. |
| `Scene.RemoveSetPartition` | packages/editor/src/editor/index.ts:139-147 | Removing the subtrees of a set of ids splits the scene's ids exactly into survivors and removed ids, counted with multiplicity. |
| `Scene.RemoveSetSpec` | packages/editor/src/editor/index.ts:139-147 | After removing a set of ids, no id is new and none of the set is left. Every id lying under no removed node survives. |
| `Scene.RemoveSetUnique` | packages/editor/src/editor/index.ts:139-147 | With unique ids, an id survives iff it was present and is not among the removed ids. |
| `Scene.RemoveSetInsert` | packages/editor/src/editor/index.ts:144 | One more `destroy` after a set-wise removal is the removal of the larger set, so the order of destroys does not matter. |
| `Scene.RemoveSetEmpty` | packages/editor/src/editor/index.ts:144 | Removing no id leaves the scene as it is. |
| `Scene.RemoveKeepsWellFormed` | packages/editor/src/editor/index.ts:144 | `destroy` keeps ids unique and non-empty. |
| `Scene.AppendLeaf` | packages/editor/src/editor/index.ts:36-43 | Adding a fresh element keeps the index sound, and the element then resolves by its id. |
| `EditorCore.Editor.constructor` | packages/editor/src/editor/index.ts:15-17 | A new editor has an empty selection, no hover, the Default state and an empty history. |
| `EditorCore.Editor.ApplyTransactionCall` | packages/editor/src/editor/index.ts:36-42 | The base class applies the records in order and holds the transaction as pending. |
| `EditorCore.Editor.CommitHistoryCall` | packages/editor/src/editor/index.ts:44 | The base class appends the pending transaction to the history. |
| `EditorCore.Editor.UndoHistoryCall` | packages/editor/src/editor/index.ts:165-170 | `cmd+z` forwards to the base class's undo, recorded in the trace. |
| `EditorCore.Editor.RedoHistoryCall` | packages/editor/src/editor/index.ts:159-164 | `cmd+y` forwards to the base class's redo, recorded in the trace. |
| `EditorCore.Editor.ProcessUpdateCall` | packages/editor/src/editor/index.ts:150 | The update notification changes nothing the editor reads. |
| `EditorCore.Editor.DestroyNode` | packages/editor/src/editor/index.ts:144 | `node.destroy()` removes the node's subtree from the scene. |
| `EditorCore.Editor.SetSelectedNodes` | packages/editor/src/editor/index.ts:148 | The selection setter stores the given list. |
| `EditorCore.Editor.SetHoverNodeId` | packages/editor/src/editor/index.ts:28-31 | The hover becomes the node the id resolves to, or none. An unresolvable id, including `''`, clears it. |
| `EditorCore.Editor.CreateNode` | packages/editor/src/editor/index.ts:33-46 | Exactly one Add record for the fresh element is applied, the node is looked up, and then one commit follows. The element depends on the type only, so `props` has no effect. |
| `EditorCore.Editor.CreateEmptyPage` | packages/editor/src/editor/index.ts:48-50 | `createNode` for a Page: the pending transaction is the one Add record, and the trace gains one apply and then one commit. |
| `EditorCore.Editor.ChangeEditorState` | packages/editor/src/editor/index.ts:95-99 | The editor mode switches to the requested state. |
| `EditorCore.Editor.GoToDefaultState` | packages/editor/src/editor/index.ts:101-105 | The argument is ignored, and the target is always Default. |
| `EditorCore.Editor.TraverseDelete` | packages/editor/src/editor/index.ts:139-145 | Walking one selected node pushes one Delete record per visited node, in pre-order. It issues one destroy per visited node, in the same order, and the scene loses each visited subtree. |
| `EditorCore.Editor.DeleteWalks` | packages/editor/src/editor/index.ts:136-146 | The `forEach` collects the Delete records of every selected subtree, in walk order, and destroys each walked node in that order. |
| `EditorCore.Editor.DeleteSelected` | packages/editor/src/editor/index.ts:133-152 | The transaction is the Delete records of every selected subtree, in walk order. Then, in this order: one apply, selection emptied, one commit, one update. The new scene is the old one with the walked subtrees removed. Every deleted id no longer resolves, and every node under no deleted node still resolves. |
| `EditorCore.Editor.SelectAll` | packages/editor/src/editor/index.ts:153-158 | The selection becomes every scene node in depth-first order, without duplicates: an id is selected iff it resolves. |
| `EditorCore.Editor.Run` | packages/editor/src/editor/index.ts:120-171 | Each table action has the effect of its handler. |
| `EditorCore.Editor.KeyDown` | packages/editor/src/editor/index.ts:178-204 | The first matching entry's handler runs once. With no match the editor is unchanged. |
| `EditorCore.DeleteRecordCount` | packages/editor/src/editor/index.ts:136-146 | Deleting the selection writes one Delete record per node of each selected node's walk (N + 1 for a node with N descendants), all of them Delete records. |
| `EditorCore.DeletesOfAt` | packages/editor/src/editor/index.ts:139-143 | The k-th record deletes the k-th visited node. |
| `EditorCore.DeleteRecordsStartAtNode` | packages/editor/src/editor/index.ts:138-145 | A selected node's records start with the node itself, then its descendants. |
| `EditorCore.DeleteOutcome` | packages/editor/src/editor/index.ts:136-147 | After the walks and the Delete transaction, the index is sound and the scene is the old one minus the walked subtrees. No walked id resolves, and every id under no walked node still resolves. |
| `EditorCore.DeleteLeavesRemoveSet` | packages/editor/src/editor/index.ts:144-147 | The destroys during the walks and the later Delete records remove the same subtrees, so together they remove each walked id's subtree once. |
| `EditorCore.ApplyDeletes` | packages/editor/src/editor/index.ts:140-147 | Applying the Delete records of a walk is destroying the walked ids in walk order. |
| `EditorCore.RemoveEachSet` | packages/editor/src/editor/index.ts:144 | Destroying ids one by one after a set-wise removal is removing the union. |
| `EditorCore.ResolveSpec` | packages/editor/src/editor/index.ts:137 | The selected nodes are exactly the selected ids that resolve, each as the node its id resolves to. All are kept iff every selected id resolves. |
| `EditorCore.ResolveAppend` | packages/editor/src/editor/index.ts:137 | Resolution goes id by id, so the nodes keep the selection's order. |
| `EditorCore.DeletedIdsAbsent` | packages/editor/src/editor/index.ts:144-147 | After the destroys and the Delete transaction, the index is sound and none of the deleted ids resolves. |
| `EditorCore.RemoveEachAbsent` | packages/editor/src/editor/index.ts:144 | A destroyed id stays destroyed through later destroys. |
| `EditorCore.DeletesKeepWellFormed` | packages/editor/src/editor/index.ts:147 | Applying a Delete-only transaction keeps ids unique and non-empty. |
| `EditorCore.DeletesKeepAbsent` | packages/editor/src/editor/index.ts:147 | Applying a Delete-only transaction never brings an id back. |
| `Render.WebGLRender.constructor` | packages/render/src/pixi/WebGLRender.ts:10-12 | The viewport starts with no children. |
| `Render.Graphics.Draw` | packages/render/src/pixi/WebGLRender.ts:114 | A call on a graphics object is appended to its command trace. |
| `Render.RenderNode.SetRenderOrder` | packages/render/src/pixi/WebGLRender.ts:104 | The handle records its draw order. |
| `Render.WebGLRender.CreateEmptyNode` | packages/render/src/pixi/WebGLRender.ts:26-30 | One new empty graphics object is added as the last viewport child and wrapped in a fresh handle. |
| `Render.WebGLRender.CreateRenderNode` | packages/render/src/pixi/WebGLRender.ts:72-81 | Document and Page get no primitive and allocate nothing. Any other type adds exactly one fully synced graphics child. |
| `Render.WebGLRender.UpdateMatrix` | packages/render/src/pixi/WebGLRender.ts:89-101 | It issues one SetMatrix with the same conversion a full sync uses. |
| `Render.WebGLRender.SetRenderOrder` | packages/render/src/pixi/WebGLRender.ts:103-105 | Only the handle's order changes. No viewport child is added and the graphics is not touched. |
| `Render.WebGLRender.UpdateRenderNode` | packages/render/src/pixi/WebGLRender.ts:112-147 | The commands appended are exactly a full sync of the model. The call fails exactly when the first stroke paint is an image. |
| `Render.PixiMatrixAgrees` | packages/render/src/pixi/WebGLRender.ts:89-101 | The Pixi matrix moves every point as the column-major mat3 does. |
| `Render.PixiMatrixDropsLastRow` | packages/render/src/pixi/WebGLRender.ts:92-99 | Two matrices convert alike iff entries 0, 1, 3, 4, 6 and 7 agree, so 2, 5 and 8 are dropped. |
| `Render.ProcessColorRange` | packages/render/src/pixi/WebGLRender.ts:83-87 | Channels in 0..255 land in [0, 1]. Alpha and opacity in [0, 1] give an alpha in [0, 1]. |
| `Render.ProcessColorInverse` | packages/render/src/pixi/WebGLRender.ts:83-87 | Scaling r, g, b back by 255 recovers them. Alpha is `a * opacity`, not divided. |
| `Render.SyncOrder` | packages/render/src/pixi/WebGLRender.ts:113-147 | A sync is Clear, the rectangle (0, 0, w, h), SetMatrix, then a fill iff there is a fill paint, then a stroke iff the first stroke paint is solid. |
| `Render.SyncIgnoresPosition` | packages/render/src/pixi/WebGLRender.ts:115-117 | The node's x and y never enter the commands. |
| `Render.SyncUsesFirstPaints` | packages/render/src/pixi/WebGLRender.ts:129-147 | Paints appended after the first fill paint, or after the first stroke paint, change nothing. This holds for nodes with only fills, only strokes, or both. |
| `Render.SolidRedRectangle` | packages/render/src/pixi/WebGLRender.ts:113-140 | A 100 by 50 solid-red rectangle at (10, 10) draws rectangle (0, 0, 100, 50), filled with (1, 0, 0, 1). |
| `LayerPanel.SelectNode` | app/zhgu-editor/src/components/LeftPanel.tsx:288-300 | A click changes only the selection. |
| `LayerPanel.DeleteSelectedLayers` | app/zhgu-editor/src/components/LeftPanel.tsx:314-319 | "Delete selected" only clears the selection and removes no node. |
| `LayerPanel.SomeHasIdSpec` | app/zhgu-editor/src/components/LeftPanel.tsx:194 | `some` by id holds iff some entry carries the id. |
| `LayerPanel.IsSelectedSpec` | app/zhgu-editor/src/components/LeftPanel.tsx:194 | A layer is flagged selected (`isSelected`) iff some selected node has its id. |
| `LayerPanel.HoverHighlight` | app/zhgu-editor/src/components/LeftPanel.tsx:195 | With the hover set from an id, a layer is flagged hovered (`isHovered`) iff the id resolves and equals the layer's id. The empty id flags nothing. |
| `LayerPanel.WithoutIdMembers` | app/zhgu-editor/src/components/LeftPanel.tsx:292 | The id filter keeps exactly the entries with another id. |
| `LayerPanel.WithoutIdAppend` | app/zhgu-editor/src/components/LeftPanel.tsx:292 | The id filter goes entry by entry, so survivors keep their order. |
| `LayerPanel.WithoutAbsentId` | app/zhgu-editor/src/components/LeftPanel.tsx:292 | Filtering out an id no entry carries changes nothing. |
| `LayerPanel.PlainClick` | app/zhgu-editor/src/components/LeftPanel.tsx:297-298 | A plain click makes the selection exactly the clicked node. |
| `LayerPanel.MultiClickOnSelected` | app/zhgu-editor/src/components/LeftPanel.tsx:289-293 | A multi-click on a selected node removes every entry with its id and keeps the rest. |
| `LayerPanel.MultiClickOnUnselected` | app/zhgu-editor/src/components/LeftPanel.tsx:294-296 | A multi-click on an unselected node appends it at the end. |
| `LayerPanel.MultiClickTwiceRestores` | app/zhgu-editor/src/components/LeftPanel.tsx:288-300 | Two multi-clicks on an unselected node give the original selection back. |
| `LayerPanel.LowerAt` | app/zhgu-editor/src/components/LeftPanel.tsx:328 | Lower-casing goes character by character. |
| `LayerPanel.LowerIdempotent` | app/zhgu-editor/src/components/LeftPanel.tsx:328 | Lower-casing twice equals lower-casing once. |
| `LayerPanel.IncludesSpec` | app/zhgu-editor/src/components/LeftPanel.tsx:328 | `includes` holds iff the term occurs in the name at some position. |
| `LayerPanel.FilterLayersMembers` | app/zhgu-editor/src/components/LeftPanel.tsx:326-329 | The filter keeps exactly the top-level layers whose name matches. Kept layers are unchanged, children included. |
| `LayerPanel.FilterLayersAppend` | app/zhgu-editor/src/components/LeftPanel.tsx:326-329 | The filter goes layer by layer, so the original order is kept. |
| `LayerPanel.EmptyTermKeepsAll` | app/zhgu-editor/src/components/LeftPanel.tsx:326-329 | An empty search term keeps every layer. |
| `LayerPanel.FilterIgnoresTermCase` | app/zhgu-editor/src/components/LeftPanel.tsx:328 | The search ignores the case of the term. |
| `LayerPanel.UnnamedLayer` | app/zhgu-editor/src/components/LeftPanel.tsx:328 | A layer with no name counts as `''`, so only the empty term keeps it. |

## Left out

- `EditorCore.Editor.DeleteSelected`: the walks run over the selected nodes as they were resolved before any destroy. In the code they run over live node objects. So when the selection holds a node and one of its descendants (as after `cmd+a`), the model records and destroys that descendant once per selected ancestor, itself included. If `destroy` detaches a node from its parent's child list, the code reaches a descendant through an ancestor's walk only when that walk starts before the descendant is detached. The record count and the trace of overlapping selections are therefore not modelled exactly. `DeleteRecordCount` counts per walk, not per distinct node.
- `EditorCore.Editor.TraverseDelete`, `EditorCore.Editor.DeleteWalks`: `traverse` is taken as the pre-order of the subtree as it stood when the walk began, unaffected by the destroys its own callback makes. `traverse` and `destroy` belong to the base class, which is not part of this model. How those destroys change the code's walk (for example, whether the walk still reaches a destroyed node's children or later siblings) is not modelled. So the count of N + 1 records for a node with N descendants (`DeleteRecordCount`, `PreorderSize`) holds for the modelled walk, and for the code only if its `traverse` walks the subtree as it was when called.
- `EditorCore.Editor.SelectAll`: `scene.getNodes()` belongs to the base class, which is not part of this model. It is taken as every node of the whole scene in depth-first order: Document and Page nodes, and nodes of other pages, are selected too. A restriction to the current page's nodes is not modelled.
- `EditorCore.Editor.SetHoverNodeId`: the second argument of `setHoverNode(node, false)` is not modelled. The hover manager that reads it is not part of this model.
- `EditorCore.Editor.TraverseDelete`: the local `transactions.push` is not recorded in the trace. So the contract gives the Delete records and the destroy calls as two sequences in the same walk order, not their interleaving (push, then destroy, per node).

- `EditorCore.Editor.UndoHistoryCall`, `EditorCore.Editor.RedoHistoryCall`: undo and redo belong to the base class, which is not part of this model. Only the call is recorded, and the id index is assumed to stay sound. No inverse or history-stack property is claimed.
- `EditorCore.Editor.ApplyTransactionCall`: the base class's placement of an added node is not part of this model. An Add record appends its node at the top level of the scene, and a Delete record destroys that id's subtree.
- `EditorCore.Editor.SetSelectedNodes`: stores the list as given. The event manager's own setter is not part of this model. Its call sites here pass `[]`, or the scene's own distinct ids.
- `EditorCore.Editor.CreateNode`: id generation inside `createElement` is not part of this model. The generated id is a parameter that must be non-empty and unused.
- `EditorCore.Editor.ChangeEditorState`: states are a closed datatype, so an unknown state id cannot be passed. The mode/state machine (`Mode`, `StateFactory`, `registerMode`, `getCurrentState`, `getEditorState`) is not part of this model.
- `Shortcuts.ModifierOf`: the TypeScript code looks parts up in a plain object, so a part such as `constructor` would also count as a modifier name. No registered key has such a part.
- `Render.WebGLRender.CreateRenderNode`: when the first stroke paint is an image, `processColor` reads a colour the paint does not have and throws. The model returns `ok == false` and still returns the handle, which has already been added to the viewport.
- `Render.RenderNode.SetRenderOrder`: the render-node class is not part of this model. Its order setter only records the order.
- Modify change records: the editor never builds one.
- `registerCursor` (CSS injection), `setBackgroundColor` (both files), `init`, `setViewPortPosition`, `setZoom`, `update`, and the `app`/`canvas` getters. These are DOM or Pixi calls.
- The empty `deletePage`, `switchPage`, `addLayer`, `deleteLayer` and `switchLayer` stubs. The panel's visibility, lock, rename and layer-action handlers, which only log.
- `Texture.from` and Pixi colours: an image fill is kept as its image reference. Floating point is modelled by exact reals.
- `LayerPanel.Lower`: lower-cases ASCII letters only. Full Unicode `toLowerCase` is not modelled.
- JSX rendering, React hooks, and the panel's event subscriptions.
- The top bar's zoom clamp and forwards, and the attribute inspector. These are UI wiring.
