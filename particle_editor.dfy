/** The effect-node registry of ParticleEditor (ParticleEditor.cpp): a map
    from effect key (the file name the effect was opened from) to the scene
    node that shows it, the "active" node, and the file name last saved.
    The engine's scene is reduced to the positions of its particle nodes;
    whether a resource loads and whether a file opens for writing are
    passed in as booleans. */
module Editor {
  import opened Containers

  type Key = string

  /** Identity of a scene node; the scene hands out a fresh one for every
      CreateChild. */
  type NodeId = nat

  datatype Position = Position(x: int, y: int)

  /** Where CreateChild puts a new node. */
  const Origin := Position(0, 0)

  /** What `Save` did: nothing to save, the file would not open, or the
      effect was written. */
  datatype SaveOutcome = NoEffect | OpenFailed | Written

  /** The editor's fields as one value. */
  datatype EditorState = EditorState(
    particleNodes: map<Key, NodeId>,
    positions: map<NodeId, Position>,
    nextNode: NodeId,
    particleNode: Option<NodeId>,
    fileName: string,
    selectedKey: string,
    files: map<string, NodeId>,
    announced: seq<Key>)

  /** The state after a successful AddParticleNode of `name`: a fresh node
      at the origin, registered under `name` unless the key is taken, made
      the active node and the file name only when none was active, and the
      key announced. */
  function Added(s: EditorState, name: Key): EditorState
  {
    EditorState(
      Insert(s.particleNodes, name, s.nextNode),
      s.positions[s.nextNode := Origin],
      s.nextNode + 1,
      if s.particleNode.None? then Some(s.nextNode) else s.particleNode,
      if s.particleNode.None? then name else s.fileName,
      s.selectedKey,
      s.files,
      s.announced + [name])
  }

  class ParticleEditor {
    /** particleNodes_. */
    var particleNodes: map<Key, NodeId>
    /** The particle nodes that are children of the scene, with their 2D
        positions. */
    var positions: map<NodeId, Position>
    /** The id the scene hands out next. */
    var nextNode: NodeId
    /** particleNode_: the active node, whose effect `Save` writes. */
    var particleNode: Option<NodeId>
    /** fileName_. */
    var fileName: string
    /** selectedKey_, which GetFileName returns. No modelled operation
        assigns it, so here it keeps the empty string of its construction;
        `select`, which has no definition in ParticleEditor.cpp, may. */
    var selectedKey: string
    /** The files `Save` wrote, each with the node whose effect it received. */
    var files: map<string, NodeId>
    /** The keys sent with the NewParticleNodeAdded signal, in order. */
    var announced: seq<Key>

    ghost function State(): EditorState
      reads this
    {
      EditorState(particleNodes, positions, nextNode, particleNode, fileName, selectedKey, files, announced)
    }

    ghost predicate Valid()
      reads this
    {
      // every mapped node is a live child of the scene
      && (forall k :: k in particleNodes ==> particleNodes[k] in positions)
      && (forall n :: n in positions ==> n < nextNode)
      // no two keys share a node
      && (forall k, j :: k in particleNodes && j in particleNodes && k != j ==> particleNodes[k] != particleNodes[j])
      && (particleNode.Some? ==> particleNode.value < nextNode)
      // until the first successful add nothing has happened
      && (particleNode.None? ==>
            particleNodes == map[] && positions == map[] && fileName == "" && files == map[] && announced == [])
    }

    /** The registry part of the constructor: no nodes, no active node, an
        empty file name and an empty selected key. */
    constructor ()
      ensures Valid()
      ensures particleNodes == map[] && positions == map[] && particleNode == None
      ensures fileName == "" && selectedKey == "" && files == map[] && announced == []
    {
      particleNodes := map[];
      positions := map[];
      nextNode := 0;
      particleNode := None;
      fileName := "";
      selectedKey := "";
      files := map[];
      announced := [];
    }

    /** Looks the key up and reports whether it was found; the lines that
        would hide the node are commented out in the source, so nothing
        changes. */
    method SetVisible(key: Key, visible: bool) returns (found: bool)
      ensures found <==> key in particleNodes
    {
      match Find(particleNodes, key)
      case Some(_) =>
        found := true;
      case None =>
        found := false;
    }

    /** Takes the node out of the scene and erases its entry. */
    method RemoveParticleNode(key: Key) returns (removed: bool)
      requires Valid()
      modifies this`particleNodes, this`positions
      ensures Valid()
      ensures removed <==> key in old(particleNodes)
      ensures particleNodes == Erase(old(particleNodes), key)
      ensures !removed ==> particleNodes == old(particleNodes) && positions == old(positions)
      ensures removed ==> positions == old(positions) - {old(particleNodes)[key]}
      ensures forall k :: k in particleNodes ==> positions[particleNodes[k]] == old(positions)[particleNodes[k]]
    {
      match Find(particleNodes, key)
      case Some(node) =>
        positions := positions - {node};
        particleNodes := Erase(particleNodes, key);
        removed := true;
      case None =>
        removed := false;
    }

    /** Moves the node of `key` to (x, y). */
    method SetParticleNodePosition(key: Key, x: int, y: int) returns (found: bool)
      requires Valid()
      modifies this`positions
      ensures Valid()
      ensures found <==> key in particleNodes
      ensures found ==> positions == old(positions)[particleNodes[key] := Position(x, y)]
      ensures !found ==> positions == old(positions)
      ensures positions.Keys == old(positions).Keys
      ensures forall k :: k in particleNodes && k != key ==> positions[particleNodes[k]] == old(positions)[particleNodes[k]]
    {
      match Find(particleNodes, key)
      case Some(node) =>
        positions := positions[node := Position(x, y)];
        found := true;
      case None =>
        found := false;
    }

    /** Loads the effect, creates a node for it, registers it under `name`
        and announces the key. `loads` says whether the resource cache
        returned the effect; when it did not, the model takes the failure
        branch of ErrorExit and changes nothing. A node is created even when
        `name` is already registered; std::map::insert then keeps the old
        entry, and the new node stays in the scene without a key. */
    method AddParticleNode(name: Key, loads: bool) returns (ok: bool)
      requires Valid()
      modifies this
      ensures Valid()
      ensures ok == loads
      ensures !ok ==> unchanged(this)
      ensures ok ==> nextNode == old(nextNode) + 1
      ensures ok ==> particleNodes == Insert(old(particleNodes), name, old(nextNode))
      ensures ok ==> positions == old(positions)[old(nextNode) := Origin]
      ensures ok ==> announced == old(announced) + [name]
      ensures ok && old(particleNode).None? ==> particleNode == Some(old(nextNode)) && fileName == name
      ensures old(particleNode).Some? ==> particleNode == old(particleNode) && fileName == old(fileName)
      ensures ok && name in old(particleNodes) ==> old(nextNode) in positions && old(nextNode) !in particleNodes.Values
      ensures files == old(files) && selectedKey == old(selectedKey)
      ensures ok ==> State() == Added(old(State()), name)
    {
      if !loads {
        ok := false;
        return;
      }
      var node := nextNode;
      nextNode := nextNode + 1;
      positions := positions[node := Origin];
      particleNodes := Insert(particleNodes, name, node);
      if particleNode.None? {
        particleNode := Some(node);
        fileName := name;
      }
      announced := announced + [name];
      ok := true;
    }

    /** Writes the active node's effect to `name`. `opens` says whether the
        file opened for writing; when it did not, the model takes the
        failure branch of ErrorExit. Only a write updates `fileName`. */
    method Save(name: string, opens: bool) returns (outcome: SaveOutcome)
      requires Valid()
      modifies this`fileName, this`files
      ensures Valid()
      ensures outcome == NoEffect <==> particleNode.None?
      ensures outcome == Written <==> particleNode.Some? && opens
      ensures outcome == Written ==> fileName == name && files == old(files)[name := particleNode.value]
      ensures outcome != Written ==> fileName == old(fileName) && files == old(files)
    {
      if particleNode.None? {
        return NoEffect;
      }
      if !opens {
        return OpenFailed;
      }
      files := files[name := particleNode.value];
      fileName := name;
      outcome := Written;
    }

    /** The registered keys, each once, in an order left open. */
    method GetKeys() returns (keys: seq<Key>)
      ensures Enumerates(keys, particleNodes.Keys)
    {
      keys := [];
      var todo := particleNodes.Keys;
      while todo != {}
        invariant todo <= particleNodes.Keys
        invariant Distinct(keys)
        invariant forall k :: k in keys ==> k in particleNodes && k !in todo
        invariant forall k :: k in particleNodes ==> k in keys || k in todo
        decreases |todo|
      {
        var k :| k in todo;
        keys := keys + [k];
        todo := todo - {k};
      }
    }
  }
}
