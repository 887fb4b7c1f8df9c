/**
 * The part of Blender's Python API that the double-click add-on touches,
 * reduced to plain values: operator status sets, the outcome of calling an
 * operator, the add-on's preferences, and the node-editor context with the
 * node objects it refers to.
 */
module BlenderHost {

  datatype Option<+T> = None | Some(value: T)

  /** One member of the set an operator returns, e.g. `{'FINISHED'}`. */
  datatype Status = RunningModal | Cancelled | Finished | PassThrough | Interface

  /** The event was handled. */
  const FINISHED: set<Status> := {Finished}

  /** The event was not consumed: other key-map handlers still see it. */
  const PASS_THROUGH: set<Status> := {PassThrough}

  /** What calling a host operator did: it returned a status set, or it raised. */
  datatype OpOutcome = Returned(status: set<Status>) | Raised

  /** `Area.type` of the node editor. */
  const NODE_EDITOR: string := "NODE_EDITOR"

  /** `Node.type` of the organisational frame node. */
  const FRAME: string := "FRAME"

  /** The add-on preferences: `enable_mute`, `enable_search`, `enable_debug`. */
  datatype Prefs = Prefs(enableMute: bool, enableSearch: bool, enableDebug: bool)

  /** The declared defaults of the three preferences. */
  const DEFAULT_PREFS: Prefs := Prefs(true, true, false)

  /**
   * A node of the edited node tree. The host owns it; the add-on reads its
   * selection state and type and writes nothing but `mute`.
   */
  class Node {
    const name: string
    /** `getattr(node, "type", None)`: `None` when the node has no type. */
    const nodeType: Option<string>
    const select: bool
    var mute: bool

    constructor (name: string, nodeType: Option<string>, select: bool, mute: bool)
      ensures this.name == name && this.nodeType == nodeType
      ensures this.select == select && this.mute == mute
    {
      this.name := name;
      this.nodeType := nodeType;
      this.select := select;
      this.mute := mute;
    }
  }

  datatype NodeTree = NodeTree(nodes: set<Node>)

  /** `context.space_data` of a node editor. */
  datatype SpaceNode = SpaceNode(nodeTree: Option<NodeTree>)

  /**
   * The operator's context: the area's type (`None` when there is no area),
   * the space data and the active node.
   */
  datatype Context = Context(areaType: Option<string>, spaceData: Option<SpaceNode>, activeNode: Option<Node>)
  {
    /** The active node as a set: the only object the add-on may write. */
    function ActiveNodes(): set<Node>
    {
      if activeNode.Some? then {activeNode.value} else {}
    }

    /** The nodes of the edited tree, none when there is no tree. */
    function TreeNodes(): set<Node>
    {
      if spaceData.Some? && spaceData.value.nodeTree.Some? then spaceData.value.nodeTree.value.nodes else {}
    }
  }

  /**
   * What the host does when the add-on calls into it during one dispatch:
   * the outcome of `node.add_search`, of `wm.search_menu`, and whether
   * assigning to the active node's `mute` succeeds or raises.
   */
  datatype HostCalls = HostCalls(addSearch: OpOutcome, searchMenu: OpOutcome, muteWritable: bool)
}
