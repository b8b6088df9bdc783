/** MainWindow (MainWindow.cpp): the save, dirty and close policy over the
    editor and the node manager, and the LAST_PS setting that remembers the
    opened effects between sessions. Dialog answers, file-existence checks,
    resource loading and opening files for writing are passed in. */
module Window {
  import opened Containers
  import Editor
  import NodeManager
  import QtStrings

  type Key = string

  /** The separator of the persisted key list. */
  const Separator := ';'

  /** The file the Save action writes to: the current file name when there
      is one, else the Save As dialog's answer, and nothing when that
      dialog was cancelled. It never saves under an empty name. */
  function SaveTarget(current: string, dialogChoice: string): (r: Option<string>)
    ensures current != "" ==> r == Some(current)
    ensures current == "" ==> (r.None? <==> dialogChoice == "")
    ensures r.Some? ==> r.value != "" && (r.value == current || r.value == dialogChoice)
  {
    if current == "" then
      (if dialogChoice == "" then None else Some(dialogChoice))
    else Some(current)
  }

  /** The keys of a list that `keep` accepts, in the list's order
      (`FilterAppend`). */
  function Filter(ks: seq<Key>, keep: Key -> bool): (r: seq<Key>)
    ensures forall k :: k in r ==> k in ks && keep(k)
    ensures forall k :: k in ks && keep(k) ==> k in r
    ensures |r| <= |ks|
  {
    if ks == [] then []
    else (if keep(ks[0]) then [ks[0]] else []) + Filter(ks[1..], keep)
  }

  /** Filtering works piece by piece: filtering a concatenation filters
      each part and keeps the parts in order. */
  lemma {:induction false} FilterAppend(a: seq<Key>, b: seq<Key>, keep: Key -> bool)
    ensures Filter(a + b, keep) == Filter(a, keep) + Filter(b, keep)
    decreases |a|
  {
    if a == [] {
      assert a + b == b;
    } else {
      assert (a + b)[1..] == a[1..] + b;
      FilterAppend(a[1..], b, keep);
    }
  }

  /** A one-key list keeps its key exactly when the test accepts it. */
  lemma FilterOne(k: Key, keep: Key -> bool)
    ensures Filter([k], keep) == if keep(k) then [k] else []
  {
    assert [k][1..] == [];
  }

  /** Filtering twice, one more key at a time: the next key is kept
      exactly when both tests accept it. */
  lemma FilterTwicePrefix(ks: seq<Key>, i: nat, first: Key -> bool, second: Key -> bool)
    requires i < |ks|
    ensures Filter(Filter(ks[..i + 1], first), second)
            == Filter(Filter(ks[..i], first), second) + (if first(ks[i]) && second(ks[i]) then [ks[i]] else [])
  {
    assert ks[..i + 1] == ks[..i] + [ks[i]];
    FilterAppend(ks[..i], [ks[i]], first);
    FilterAppend(Filter(ks[..i], first), Filter([ks[i]], first), second);
    FilterOne(ks[i], first);
    FilterOne(ks[i], second);
    assert Filter([], second) == [];
  }

  /** The keys OpenPrevioslyOpenedPS tries to reopen from a stored value:
      its `;`-separated pieces whose file exists. */
  function KeysToReopen(data: string, fileExists: Key -> bool): (r: seq<Key>)
    ensures forall k :: k in r ==> fileExists(k) && Separator !in k
  {
    Filter(QtStrings.Split(data, Separator), fileExists)
  }

  /** Reading back what SaveOpenedPS wrote reopens exactly the stored keys
      whose file still exists, in the stored order, provided at least one
      key was stored and no key contains the separator. */
  lemma ReopenAfterSave(keys: seq<Key>, fileExists: Key -> bool)
    requires |keys| > 0
    requires QtStrings.NoSeparator(keys, Separator)
    ensures KeysToReopen(QtStrings.Join(keys, Separator), fileExists) == Filter(keys, fileExists)
  {
    QtStrings.SplitJoin(keys, Separator);
  }

  /** An empty list is stored as "", which reads back as the single key "". */
  lemma ReopenEmptyList(fileExists: Key -> bool)
    ensures KeysToReopen(QtStrings.Join([], Separator), fileExists) == Filter([""], fileExists)
  {
  }

  /** What reopening the keys `reopened`, in order, does to an editor in
      state `s0`, giving `s`: each key is registered unless already taken,
      each gets a fresh node at the origin and is announced, and when no
      node was active the first reopened key becomes the active one and the
      file name. */
  ghost predicate ReopenedFrom(s0: Editor.EditorState, s: Editor.EditorState, reopened: seq<Key>)
  {
    && (forall k :: k in s.particleNodes <==> k in s0.particleNodes || k in reopened)
    && (forall k :: k in s0.particleNodes ==> k in s.particleNodes && s.particleNodes[k] == s0.particleNodes[k])
    && s.files == s0.files && s.selectedKey == s0.selectedKey
    && s.announced == s0.announced + reopened
    && s.nextNode == s0.nextNode + |reopened|
    && (forall n :: n in s0.positions ==> n in s.positions && s.positions[n] == s0.positions[n])
    && (forall n :: s0.nextNode <= n < s.nextNode ==> n in s.positions && s.positions[n] == Editor.Origin)
    && (forall n :: n in s.positions ==> n in s0.positions || s0.nextNode <= n < s.nextNode)
    && (s0.particleNode.Some? ==> s.particleNode == s0.particleNode && s.fileName == s0.fileName)
    && (s0.particleNode.None? && reopened == [] ==> s.particleNode.None?)
    && (s0.particleNode.None? && reopened != [] ==>
          && s.fileName == reopened[0]
          && s.particleNode.Some?
          && reopened[0] in s.particleNodes
          && s.particleNodes[reopened[0]] == s.particleNode.value)
  }

  /** Reopening nothing leaves the state as it is. */
  lemma ReopenedNothing(s0: Editor.EditorState)
    ensures ReopenedFrom(s0, s0, [])
  {
    assert s0.announced + [] == s0.announced;
  }

  /** One more successful open extends a reopening by its key, given that
      `s0`'s nodes are all below its counter and that with no active node
      it has no registered keys, as `Editor.ParticleEditor.Valid` keeps. */
  lemma {:induction false} ReopenStep(s0: Editor.EditorState, s: Editor.EditorState, reopened: seq<Key>, key: Key)
    requires forall n :: n in s0.positions ==> n < s0.nextNode
    requires s0.particleNode.None? ==> s0.particleNodes == map[]
    requires ReopenedFrom(s0, s, reopened)
    ensures ReopenedFrom(s0, Editor.Added(s, key), reopened + [key])
  {
    var t := Editor.Added(s, key);
    assert t.announced == s0.announced + (reopened + [key]);
    if s0.particleNode.None? && reopened != [] {
      assert (reopened + [key])[0] == reopened[0];
    }
    if s.particleNode.None? {
      assert s.particleNodes == map[];
    }
  }

  /** The editor state after the loop of OpenPrevioslyOpenedPS has gone
      through `ks`: each key whose file exists is opened, and an open whose
      effect loads is a successful AddParticleNode. */
  function ReopenAll(s: Editor.EditorState, ks: seq<Key>, fileExists: Key -> bool, loads: Key -> bool): Editor.EditorState
    decreases |ks|
  {
    if ks == [] then s
    else
      var prev := ReopenAll(s, ks[..|ks| - 1], fileExists, loads);
      var k := ks[|ks| - 1];
      if fileExists(k) && loads(k) then Editor.Added(prev, k) else prev
  }

  /** Going through `ks` reopens exactly the keys whose file exists and whose
      effect loads, in their order. */
  lemma {:induction false} ReopenAllReopens(s0: Editor.EditorState, ks: seq<Key>, fileExists: Key -> bool, loads: Key -> bool)
    requires forall n :: n in s0.positions ==> n < s0.nextNode
    requires s0.particleNode.None? ==> s0.particleNodes == map[]
    ensures ReopenedFrom(s0, ReopenAll(s0, ks, fileExists, loads), Filter(Filter(ks, fileExists), loads))
    decreases |ks|
  {
    if ks == [] {
      ReopenedNothing(s0);
    } else {
      var init := ks[..|ks| - 1];
      var k := ks[|ks| - 1];
      var prev := ReopenAll(s0, init, fileExists, loads);
      var r := Filter(Filter(init, fileExists), loads);
      ReopenAllReopens(s0, init, fileExists, loads);
      FilterTwicePrefix(ks, |ks| - 1, fileExists, loads);
      assert ks[..|ks|] == ks;
      if fileExists(k) && loads(k) {
        assert ReopenAll(s0, ks, fileExists, loads) == Editor.Added(prev, k);
        assert Filter(Filter(ks, fileExists), loads) == r + [k];
        ReopenStep(s0, prev, r, k);
      } else {
        assert ReopenAll(s0, ks, fileExists, loads) == prev;
        assert Filter(Filter(ks, fileExists), loads) == r + [] == r;
      }
    }
  }

  class MainWindow {
    /** ParticleEditor::Get(). */
    const editor: Editor.ParticleEditor
    /** nodeManagerWidget_. */
    const manager: NodeManager.NodeManagerWidget
    /** The LAST_PS value in the settings store. */
    var lastPs: string

    ghost predicate Valid()
      reads this, editor, manager
    {
      editor.Valid() && manager.Valid()
    }

    constructor (editor: Editor.ParticleEditor, manager: NodeManager.NodeManagerWidget, lastPs: string)
      requires editor.Valid() && manager.Valid()
      ensures Valid()
      ensures this.editor == editor && this.manager == manager && this.lastPs == lastPs
    {
      this.editor := editor;
      this.manager := manager;
      this.lastPs := lastPs;
    }

    /** Closing needs no question when nothing is unsaved; otherwise it
        goes ahead only when the user confirms. */
    function CheckClosePermition(confirmed: bool): (permitted: bool)
      reads this, manager
      ensures manager.dirty == {} ==> permitted
      ensures !permitted <==> manager.dirty != {} && !confirmed
    {
      if manager.dirty != {} then confirmed else true
    }

    /** The saveAllRequested handler: saves every dirty key and un-marks a
        key exactly when its save wrote the file. As `Save` writes the
        active node's effect, every file written receives that effect. */
    method OnSaveAllRequested(opens: Key -> bool)
      requires Valid()
      modifies editor`fileName, editor`files, manager`dirty
      ensures Valid()
      ensures forall k :: k in manager.dirty <==> k in old(manager.dirty) && !(editor.particleNode.Some? && opens(k))
      ensures forall k :: k in old(manager.dirty) && editor.particleNode.Some? && opens(k) ==>
                k in editor.files && editor.files[k] == editor.particleNode.value
      ensures forall f :: f in old(editor.files) && !(f in old(manager.dirty) && editor.particleNode.Some? && opens(f)) ==>
                f in editor.files && editor.files[f] == old(editor.files)[f]
      ensures forall f :: f in editor.files ==>
                f in old(editor.files) || (f in old(manager.dirty) && editor.particleNode.Some? && opens(f))
      ensures editor.fileName == old(editor.fileName) || (editor.fileName in old(manager.dirty) && opens(editor.fileName))
      ensures editor.particleNode.Some? && (forall k :: k in old(manager.dirty) ==> opens(k)) ==> CheckClosePermition(false)
    {
      var todo := manager.dirty;
      ghost var active := editor.particleNode;
      ghost var writes := active.Some?;
      while todo != {}
        invariant todo <= old(manager.dirty)
        invariant Valid()
        invariant forall k :: k in manager.dirty <==>
                    k in old(manager.dirty) && !(k !in todo && writes && opens(k))
        invariant forall k :: k in old(manager.dirty) && k !in todo && writes && opens(k) ==>
                    k in editor.files && editor.files[k] == active.value
        invariant forall f :: f in old(editor.files) && !(f in old(manager.dirty) && f !in todo && writes && opens(f)) ==>
                    f in editor.files && editor.files[f] == old(editor.files)[f]
        invariant forall f :: f in editor.files ==>
                    f in old(editor.files) || (f in old(manager.dirty) && f !in todo && writes && opens(f))
        invariant editor.fileName == old(editor.fileName) || (editor.fileName in old(manager.dirty) && opens(editor.fileName))
        decreases |todo|
      {
        var k :| k in todo;
        var outcome := editor.Save(k, opens(k));
        if outcome == Editor.Written {
          manager.UnmarkDirty(k);
        }
        todo := todo - {k};
      }
    }

    /** The saveRequested handler: the key is un-marked only when its save
        wrote the file. */
    method OnSaveRequested(key: Key, opens: bool)
      requires Valid()
      modifies editor`fileName, editor`files, manager`dirty
      ensures Valid()
      ensures manager.dirty == if editor.particleNode.Some? && opens then old(manager.dirty) - {key} else old(manager.dirty)
      ensures editor.particleNode.Some? && opens ==>
                editor.fileName == key && editor.files == old(editor.files)[key := editor.particleNode.value]
      ensures !(editor.particleNode.Some? && opens) ==>
                editor.fileName == old(editor.fileName) && editor.files == old(editor.files)
    {
      var outcome := editor.Save(key, opens);
      if outcome == Editor.Written {
        manager.UnmarkDirty(key);
      }
    }

    /** The `changed` handler of both attribute editors: the key becomes
        dirty. */
    method OnAttributesChanged(key: Key)
      requires Valid()
      modifies manager`dirty
      ensures Valid()
      ensures manager.dirty == old(manager.dirty) + {key}
      ensures !CheckClosePermition(false)
    {
      manager.MarkDirty(key);
    }

    /** Stores the registered keys, joined with `;`. */
    method SaveOpenedPS()
      requires Valid()
      modifies this`lastPs
      ensures Valid()
      ensures editor.particleNodes == map[] ==> lastPs == ""
      ensures editor.particleNodes != map[] && (forall k :: k in editor.particleNodes ==> Separator !in k) ==>
                Enumerates(QtStrings.Split(lastPs, Separator), editor.particleNodes.Keys)
      ensures exists ks :: Enumerates(ks, editor.particleNodes.Keys) && lastPs == QtStrings.Join(ks, Separator)
    {
      var keys := editor.GetKeys();
      lastPs := QtStrings.Join(keys, Separator);
      assert Enumerates(keys, editor.particleNodes.Keys) && lastPs == QtStrings.Join(keys, Separator);
      if keys != [] {
        assert keys[0] in editor.particleNodes;
        if QtStrings.NoSeparator(keys, Separator) {
          QtStrings.SplitJoin(keys, Separator);
        }
      }
    }

    /** Reopens every stored key whose file exists, in the stored order.
        `loads` says which effects the resource cache can load. Every
        reopened key is announced and gets a fresh node at the origin; keys
        already registered keep their nodes. When no node was active, the
        first reopened key becomes the active one and the file name. */
    method OpenPreviouslyOpenedPS(fileExists: Key -> bool, loads: Key -> bool)
      requires Valid()
      modifies editor
      ensures Valid()
      ensures editor.State() == ReopenAll(old(editor.State()), QtStrings.Split(lastPs, Separator), fileExists, loads)
      ensures ReopenedFrom(old(editor.State()), editor.State(), Filter(KeysToReopen(lastPs, fileExists), loads))
      ensures forall k :: k in editor.particleNodes <==>
                k in old(editor.particleNodes) || (k in KeysToReopen(lastPs, fileExists) && loads(k))
      ensures forall k :: k in old(editor.particleNodes) ==> editor.particleNodes[k] == old(editor.particleNodes)[k]
    {
      var keys := QtStrings.Split(lastPs, Separator);
      ghost var s0 := editor.State();
      var i := 0;
      while i < |keys|
        invariant 0 <= i <= |keys|
        invariant Valid()
        invariant editor.State() == ReopenAll(s0, keys[..i], fileExists, loads)
      {
        var key := keys[i];
        assert keys[..i + 1][..i] == keys[..i];
        if fileExists(key) {
          var _ := editor.AddParticleNode(key, loads(key));
        }
        i := i + 1;
      }
      assert keys[..|keys|] == keys;
      ReopenAllReopens(s0, keys, fileExists, loads);
    }

    /** The Save action: falls back to Save As exactly when GetFileName,
        which returns the selected key, is empty; `dialogChoice` is the Save
        As dialog's answer ("" when cancelled). */
    method HandleSaveAction(dialogChoice: string, opens: bool)
      requires Valid()
      modifies editor`fileName, editor`files
      ensures Valid()
      ensures var target := SaveTarget(editor.selectedKey, dialogChoice);
              if target.Some? && editor.particleNode.Some? && opens
              then editor.fileName == target.value && editor.files == old(editor.files)[target.value := editor.particleNode.value]
              else editor.fileName == old(editor.fileName) && editor.files == old(editor.files)
    {
      var target := SaveTarget(editor.selectedKey, dialogChoice);
      if target.Some? {
        var _ := editor.Save(target.value, opens);
      }
    }

    /** The tail of the Open action, from the dialog's answer on: nothing
        happens when it was cancelled; otherwise the effect is opened, and
        the key list is stored again only when that succeeded. */
    method HandleOpenAction(filepath: string, loads: bool)
      requires Valid()
      modifies editor, this`lastPs
      ensures Valid()
      ensures filepath == "" || !loads ==> unchanged(editor) && lastPs == old(lastPs)
      ensures filepath != "" && loads ==>
                && editor.particleNodes == Insert(old(editor.particleNodes), filepath, old(editor.nextNode))
                && editor.nextNode == old(editor.nextNode) + 1
                && editor.positions == old(editor.positions)[old(editor.nextNode) := Editor.Origin]
                && editor.announced == old(editor.announced) + [filepath]
                && editor.files == old(editor.files)
                && editor.selectedKey == old(editor.selectedKey)
      ensures filepath != "" && loads && old(editor.particleNode).None? ==>
                editor.particleNode == Some(old(editor.nextNode)) && editor.fileName == filepath
      ensures old(editor.particleNode).Some? ==>
                editor.particleNode == old(editor.particleNode) && editor.fileName == old(editor.fileName)
      ensures filepath != "" && loads && (forall k :: k in editor.particleNodes ==> Separator !in k) ==>
                Enumerates(QtStrings.Split(lastPs, Separator), editor.particleNodes.Keys)
      ensures filepath != "" && loads ==>
                exists ks :: Enumerates(ks, editor.particleNodes.Keys) && lastPs == QtStrings.Join(ks, Separator)
    {
      if filepath == "" {
        return;
      }
      var ok := editor.AddParticleNode(filepath, loads);
      if ok {
        SaveOpenedPS();
      }
    }
  }
}
