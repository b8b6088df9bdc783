# ParticleEditor2D bookkeeping, modelled in Dafny

ParticleEditor2D is a desktop editor for 2D particle effects. Most of it is
Qt and Urho3D wiring. This project models the part that is plain state
keeping:

- **Effect-node registry** (`Editor.ParticleEditor`, from
  `ParticleEditor.cpp`). It maps each effect key (the file name the effect
  was opened from) to the scene node that shows it. It also holds the
  "active" node (the first one ever added), the file name (the first
  opened key, then the last saved name), the selected key that
  `GetFileName` returns, and the positions of the scene's particle nodes.
- **Selection highlight** (`Animation.ScaleDownAnimation`, from
  `ParticleEditor.h`). A three-operation state machine: `start`, `update`
  and `stop`.
- **Item-widget registry** (`NodeManager.NodeManagerWidget`, from
  `NodeManagerWidget.cpp`). It maps keys to item widgets and keeps the
  items in its layout. It also holds the set of dirty keys.
- **Main-window policy** (`Window.MainWindow`, from `MainWindow.cpp`):
  save-all, single save, marking keys dirty, the close check, the Save and
  Open actions, and the `LAST_PS` setting. That setting stores the opened
  keys joined with `;` and reopens them at the next launch.
- **Helpers**: std::map's find, insert and erase (`Containers`), Qt's join
  and split on one separator (`QtStrings`), and QLayout's removeWidget
  (`NodeManager.RemoveWidget`).

Inputs that come from the outside are parameters:

- whether the resource cache loads an effect (`loads`);
- whether a file opens for writing (`opens`);
- whether a file exists (`fileExists`);
- what the user answered in a dialog (`dialogChoice`, `confirmed`).

Floats are kept in integer hundredths. Scene nodes are natural-number ids
handed out by a counter, the way `CreateChild` hands out fresh nodes.

Behaviour of the code worth knowing:

- Opening a key that is already open is not rejected. `AddParticleNode`
  still creates a node. `std::map::insert` keeps the first node under the
  key, so the new node stays in the scene with no key. The key is also
  announced a second time.
- `SetVisible` only looks the key up. The lines that would hide the node
  are commented out.
- `Save` writes the effect of the active node, whatever file name it is
  given. Save-all therefore writes the active node's effect into every
  dirty key's file. `OnSaveAllRequested` states this.
- `NodeManagerWidget::remove` takes the item out of the layout but leaves
  its `m_widgets` entry. A removed key still reads as present.
- `RemoveParticleNode` does not touch the dirty set.
- `NodeManagerWidget::add` asserts that the key is not registered yet
  (NodeManagerWidget.cpp:44-45). Its only caller, the handler of
  `NewParticleNodeAdded` (MainWindow.cpp:208-211), does not ensure this.
  `AddParticleNode` announces a key that is already open, and `remove`
  never erases an entry. So opening a key that is open, or one whose item
  was removed, reaches that assert. `NodeManager.NodeManagerWidget.Add`
  keeps the assert as its precondition.
- `GetFileName` returns `selectedKey_` (ParticleEditor.h:96). No modelled
  operation assigns `selectedKey_`; `select` (declared at ParticleEditor.h:94,
  called at MainWindow.cpp:228), which has no definition in
  ParticleEditor.cpp, may. Until it does, the Save action finds an empty
  name and falls back to Save As, even after `fileName_` was set.
  `Window.MainWindow.HandleSaveAction` decides on `selectedKey`, as the
  code does.

The header and the .cpp disagree in places:

- **`Save` and `Open` return types.** The header declares `bool Save` and
  `bool Open`. The .cpp defines both as `void`, yet `MainWindow.cpp` uses
  their results. The model's `Save` returns a `SaveOutcome`, and the bool
  MainWindow uses is "the outcome is `Written`". `Open` only forwards to
  `AddParticleNode` and refreshes the widgets, so its bool is
  `AddParticleNode`'s result.
- **Members the .cpp uses but the header does not declare.**
  ParticleEditor.h declares neither `particleNode_` nor `fileName_`, which
  ParticleEditor.cpp uses at 169-171, 202 and 222. The model has them as
  the fields `particleNode` and `fileName`.
- **`GetEffect` and `GetEmitter` signatures.** The header declares both with
  a key parameter (ParticleEditor.h:100-102). The .cpp defines them with
  none (ParticleEditor.cpp:210-223) and reads the active node. The model
  follows the .cpp: `Save` writes the active node's effect.

## Model

| member | source | states |
|---|---|---|
| `Containers.Find` | Source/Tools/ParticleEditor2D/ParticleEditor.cpp:115-116 | the lookup succeeds iff the key is mapped, and then yields the mapped value |
| `Containers.Insert` | Source/Tools/ParticleEditor2D/ParticleEditor.cpp:166 | std::map insert: the key is present afterwards; an existing entry keeps its value (first wins); other entries unchanged |
| `Containers.Erase` | Source/Tools/ParticleEditor2D/ParticleEditor.cpp:133 | erasing removes exactly that key, and every remaining entry keeps its value |
| `Editor.ParticleEditor.constructor` | Source/Tools/ParticleEditor2D/ParticleEditor.cpp:55-66 | a new editor has no nodes, no active node, an empty file name and an empty selected key |
| `Editor.ParticleEditor.SetVisible` | Source/Tools/ParticleEditor2D/ParticleEditor.cpp:113-124 | returns true iff the key is registered; changes nothing (no modifies clause) |
| `Editor.ParticleEditor.RemoveParticleNode` | Source/Tools/ParticleEditor2D/ParticleEditor.cpp:126-138 | returns true iff the key was registered. Afterwards the key is absent, its node has left the scene, and every other entry and node position is unchanged. An absent key changes nothing |
| `Editor.ParticleEditor.SetParticleNodePosition` | Source/Tools/ParticleEditor2D/ParticleEditor.cpp:140-150 | returns true iff the key is registered. On true only that key's node moves, to (x, y). The key set and the scene's node set never change |
| `Editor.ParticleEditor.AddParticleNode` | Source/Tools/ParticleEditor2D/ParticleEditor.cpp:153-177 | a failed load returns false and changes nothing. Otherwise the key is registered, and a key already present keeps its first node. A fresh node is created at the origin; on a duplicate key it has no key. The key is announced. Only the first successful add sets the active node and file name. The new state is `Editor.Added` of the old one |
| `Editor.ParticleEditor.Save` | Source/Tools/ParticleEditor2D/ParticleEditor.cpp:187-203 | with no effect, or when the file does not open, nothing changes. Otherwise the active node's effect is written to the file and `fileName_` becomes the saved name |
| `Editor.ParticleEditor.GetKeys` | Source/Tools/ParticleEditor2D/ParticleEditor.h:104 | lists every registered key exactly once |
| `Animation.Updated` | Source/Tools/ParticleEditor2D/ParticleEditor.h:42-48 | update never raises a value at or above the floor and never takes it below the floor; it never activates; it either lowers the value or stops |
| `Animation.UpdateAboveFloor` | Source/Tools/ParticleEditor2D/ParticleEditor.h:43-45 | above the floor, update lowers the value by exactly one step and keeps the active flag |
| `Animation.UpdateAtFloor` | Source/Tools/ParticleEditor2D/ParticleEditor.h:46-47 | at or below the floor, update stops: inactive, value at the floor |
| `Animation.UpdatesToStopCount` | Source/Tools/ParticleEditor2D/ParticleEditor.h:42-54 | from value c at or above the floor, stopping takes (c - low)/step + 1 updates |
| `Animation.UpdatesReachStop` | Source/Tools/ParticleEditor2D/ParticleEditor.h:42-60 | from any state, repeated updates reach the stopped state after `UpdatesToStop` calls, and the active flag keeps its value until then (the decreasing measure) |
| `Animation.StartedStopsAfter` | Source/Tools/ParticleEditor2D/ParticleEditor.h:37-60 | after start, the animation stays active for 100 updates and is stopped after the 101st |
| `Animation.StoppedStaysStopped` | Source/Tools/ParticleEditor2D/ParticleEditor.h:42-60 | once stopped, any number of further updates leaves the state unchanged |
| `Animation.UpdatesNeverIncrease` | Source/Tools/ParticleEditor2D/ParticleEditor.h:42-48 | any number of updates keeps the value between the floor and its starting value |
| `Animation.ScaleDownAnimation.constructor` | Source/Tools/ParticleEditor2D/ParticleEditor.h:51-55 | a fresh animation is inactive with current 1.0 |
| `Animation.ScaleDownAnimation.Start` | Source/Tools/ParticleEditor2D/ParticleEditor.h:37-40 | start makes the animation active with current at the top value |
| `Animation.ScaleDownAnimation.Update` | Source/Tools/ParticleEditor2D/ParticleEditor.h:42-48 | the new state is `Updated` of the old one |
| `Animation.ScaleDownAnimation.Stop` | Source/Tools/ParticleEditor2D/ParticleEditor.h:57-60 | stop leaves the animation inactive at the floor value |
| `NodeManager.NodeItemWidget.constructor` | Source/Tools/ParticleEditor2D/NodeItemWidget.h:38-44 | a new item widget carries the key it was made for |
| `NodeManager.RemoveWidget` | Source/Tools/ParticleEditor2D/NodeManagerWidget.cpp:66 | removing a widget from the layout drops every entry for that widget and keeps every other entry as often as before (multiset); absent, nothing changes; present, the layout shrinks |
| `NodeManager.RemoveWidgetAppend` | Source/Tools/ParticleEditor2D/NodeManagerWidget.cpp:66 | removal works part by part on a concatenated layout, so the remaining items keep their order |
| `NodeManager.NodeManagerWidget.constructor` | Source/Tools/ParticleEditor2D/NodeManagerWidget.cpp:31-36 | a new manager has no items, an empty layout and no dirty keys |
| `NodeManager.NodeManagerWidget.Add` | Source/Tools/ParticleEditor2D/NodeManagerWidget.cpp:42-59 | requires the key to be fresh. Afterwards the key maps to the item, other entries are unchanged, and the item is appended to the layout, which grows by one |
| `NodeManager.NodeManagerWidget.Remove` | Source/Tools/ParticleEditor2D/NodeManagerWidget.cpp:61-71 | returns true iff the key is mapped. On true the item leaves the layout but the map entry stays. On false neither the map nor the layout changes |
| `NodeManager.NodeManagerWidget.MarkDirty` | Source/Tools/ParticleEditor2D/NodeManagerWidget.h:47 | marking adds the key to the dirty set |
| `NodeManager.NodeManagerWidget.UnmarkDirty` | Source/Tools/ParticleEditor2D/NodeManagerWidget.h:46 | un-marking removes the key from the dirty set |
| `QtStrings.Join` | Source/Tools/ParticleEditor2D/MainWindow.cpp:314 | joining no keys gives ""; otherwise the stored value starts with the first key |
| `QtStrings.JoinSeparatorCount` | Source/Tools/ParticleEditor2D/MainWindow.cpp:314 | with `;`-free keys, the stored value holds exactly one `;` fewer than there are keys |
| `QtStrings.Split` | Source/Tools/ParticleEditor2D/MainWindow.cpp:322 | split yields at least one piece, and no piece contains the separator |
| `QtStrings.SplitWithoutSeparator` | Source/Tools/ParticleEditor2D/MainWindow.cpp:322 | a string without the separator splits into itself alone |
| `QtStrings.SplitAfterPrefix` | Source/Tools/ParticleEditor2D/MainWindow.cpp:322 | a separator-free prefix followed by the separator splits off as the first piece |
| `QtStrings.SplitJoin` | Source/Tools/ParticleEditor2D/MainWindow.cpp:310-328 | splitting a join gives back a non-empty list of separator-free keys |
| `QtStrings.JoinSplit` | Source/Tools/ParticleEditor2D/MainWindow.cpp:310-328 | joining the pieces of any string restores the string |
| `QtStrings.EmptyListRoundTrip` | Source/Tools/ParticleEditor2D/MainWindow.cpp:314-322 | an empty key list is stored as "" and reads back as [""] |
| `QtStrings.SeparatorInKeyIsLost` | Source/Tools/ParticleEditor2D/MainWindow.cpp:314-322 | a stored key that contains `;` does not read back as itself |
| `QtStrings.SeparatorInKeySplitsIt` | Source/Tools/ParticleEditor2D/MainWindow.cpp:314-322 | for example, the key `a;b` reads back as the two keys `a` and `b` |
| `Window.SaveTarget` | Source/Tools/ParticleEditor2D/MainWindow.cpp:330-346 | Save uses the current file name when there is one. Otherwise it falls back to Save As and saves nothing when that dialog is cancelled. It never saves under an empty name |
| `Window.Filter` | Source/Tools/ParticleEditor2D/MainWindow.cpp:323-327 | keeps exactly the listed keys the test accepts |
| `Window.FilterAppend` | Source/Tools/ParticleEditor2D/MainWindow.cpp:323-327 | filtering works part by part on a concatenation, so the kept keys stay in the list's order |
| `Window.FilterTwicePrefix` | Source/Tools/ParticleEditor2D/MainWindow.cpp:323-327 | one more key of the stored list is reopened exactly when its file exists and its effect loads |
| `Window.ReopenStep` | Source/Tools/ParticleEditor2D/ParticleEditor.cpp:153-177 | one more successful open extends a reopening by its key: it is announced, gets a fresh node at the origin, is registered unless taken, and becomes the active key and file name when nothing was active |
| `Window.ReopenAllReopens` | Source/Tools/ParticleEditor2D/MainWindow.cpp:318-328 | going through the stored keys, each opened when its file exists, reopens exactly the keys whose file exists and whose effect loads, in order, with the effects `ReopenedFrom` lists |
| `Window.KeysToReopen` | Source/Tools/ParticleEditor2D/MainWindow.cpp:318-328 | only keys whose file exists, and which contain no `;`, are reopened |
| `Window.ReopenAfterSave` | Source/Tools/ParticleEditor2D/MainWindow.cpp:310-328 | reading back a stored non-empty list of `;`-free keys reopens exactly the stored keys whose file exists, in order |
| `Window.ReopenEmptyList` | Source/Tools/ParticleEditor2D/MainWindow.cpp:314-324 | a stored empty list reads back as the single key "" |
| `Window.MainWindow.constructor` | Source/Tools/ParticleEditor2D/MainWindow.cpp:201-203 | the window starts over a valid editor and node manager and the stored setting |
| `Window.MainWindow.CheckClosePermition` | Source/Tools/ParticleEditor2D/MainWindow.cpp:133-140 | closing is permitted when nothing is unsaved, and refused exactly when something is unsaved and the user did not confirm |
| `Window.MainWindow.OnSaveAllRequested` | Source/Tools/ParticleEditor2D/MainWindow.cpp:232-239 | a dirty key stays dirty iff its save failed. Every file written receives the active node's effect. Every other file keeps its effect, and no file appears except for a key whose save succeeded. If every save succeeds, closing is permitted without asking |
| `Window.MainWindow.OnSaveRequested` | Source/Tools/ParticleEditor2D/MainWindow.cpp:240-244 | the key is un-marked only when its save wrote the file; otherwise nothing changes |
| `Window.MainWindow.OnAttributesChanged` | Source/Tools/ParticleEditor2D/MainWindow.cpp:246-264 | a change from either attribute editor marks that key dirty, after which closing needs confirmation |
| `Window.MainWindow.SaveOpenedPS` | Source/Tools/ParticleEditor2D/MainWindow.cpp:310-316 | the stored value is the join with `;` of a list holding every registered key exactly once, whatever the keys contain. An empty registry is stored as "". When no key contains `;`, splitting the stored value lists every registered key exactly once |
| `Window.MainWindow.OpenPreviouslyOpenedPS` | Source/Tools/ParticleEditor2D/MainWindow.cpp:318-328 | the new editor state is `ReopenAll` of the old one over the stored keys. So the registry holds the old keys plus the stored keys whose file exists and whose effect loads, and old keys keep their nodes. Each reopened key is announced, in order, with a fresh node at the origin. An active node and file name stay; with none, the first reopened key becomes both |
| `Window.MainWindow.HandleSaveAction` | Source/Tools/ParticleEditor2D/MainWindow.cpp:330-346 | decides on `GetFileName`, which is the selected key: saves under `SaveTarget`'s choice, and changes nothing when there is no target or the save fails |
| `Window.MainWindow.HandleOpenAction` | Source/Tools/ParticleEditor2D/MainWindow.cpp:297-307 | a cancelled dialog or a failed load changes nothing, including the stored list. Otherwise the key is registered (first node wins), announced and given a fresh node at the origin; it becomes the active key and file name only when none was active. No file is written, and the stored value is rewritten as the join of a list holding every registered key once; when no key contains `;` it splits back into that list |

## Left out

- Engine and toolkit calls are not modelled: the scene graph beyond node
  positions, camera, renderer, console, debug HUD, timer, and all widget,
  signal and dialog mechanics. `NewParticleNodeAdded` is kept only as the
  list of announced keys. The handler that turns an announced key into a
  `NodeManagerWidget::add` call is not modelled.
- Null active node: `GetEffect`/`GetEmitter` dereference `particleNode_`
  even when no node was ever added, which is undefined behaviour. The
  model takes that case as `Save`'s "no effect" branch, which changes
  nothing.
- `ErrorExit` ends the process in the source. The model takes it only as
  the failure branch, which changes nothing.
- `Open` forwards to `AddParticleNode` and then refreshes the attribute
  widgets. The model has no separate member for it; callers use
  `AddParticleNode`.
- `delete item` in `NodeManagerWidget::remove` is not modelled, because
  Dafny has no deallocation. The dangling `m_widgets` entry is kept.
- The `LAST_PATH` setting and the directory logic at the head of
  `HandleOpenAction` (MainWindow.cpp:291-302) are left out. So is the
  Latin-1 conversion of the chosen path.
- Float arithmetic is left out: zoom, mouse-to-world conversion,
  background colour, debug lines, and the float rounding of
  `ScaleDownAnimation`. The animation is exact in hundredths. In single
  precision, `1.0f` minus a hundred steps of `0.01f` is still about
  6.7e-7 rather than 0. So the 101st update lowers the value to about
  -0.0099993, still active, and the 102nd stops and raises it to 0.
  `Animation.StartedStopsAfter` (stopped after the 101st update) and
  `Animation.UpdatesNeverIncrease` hold in exact hundredths only.
- Functions declared without a body are not modelled: `changeKey`,
  `select`, `isFileAlreadyOpened`, `renameFile`, `getDirtyKeys`,
  `isKeyUnique`, `takeItemWidget`. `markDirty` and `unmarkDirty` are taken
  as insertion into and removal from a set, and `hasUnsaved` as "the dirty
  set is not empty". `hasUnsaved` is not declared in NodeManagerWidget.h.
- The handlers that wrap `SetVisible`, `RemoveParticleNode`,
  `SetParticleNodePosition`, `changeKey` and `select` in `assert(...)`
  (MainWindow.cpp:213-231) are not modelled. So are the Exit action and
  `closeEvent`, which only call `CheckClosePermition`.
- NodeItemWidget (beyond its key) and ParticleEffectEditor are left out.
  They are signal wiring and forwarding.
- Editor.ParticleEditor.GetKeys: it is declared at ParticleEditor.h:104
  with no definition, so the model leaves the order open and promises only
  that each key appears once.
- `ParticleEditor::New`, which opens three sample effects at start-up
  (ParticleEditor.cpp:100-105, 256), is not modelled as a member. Its
  effect is three calls of `AddParticleNode`; the first sets `fileName_`
  to `Urho2D/fire.pex`.
- Window.MainWindow.OnSaveAllRequested: the dirty keys are visited in an
  unspecified order. So the contract says only that `fileName_` ends as
  either its old value or one of the saved keys, not which one.
