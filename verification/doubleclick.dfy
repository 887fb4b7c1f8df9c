/**
 * The double-click operator of the node editor (`NODE_OT_doubleclick`):
 * a double-click on a selected, non-frame node flips its mute flag; any
 * other double-click opens the node search when that is enabled; anything
 * else passes the event through.
 */
module DoubleClick {
  import opened BlenderHost
  import opened NodeSearch

  /** The mutually exclusive ways one double-click is handled, in the order the operator tests them. */
  datatype Branch =
    | NotNodeEditor          // wrong or missing area: pass through
    | NoPreferences          // add-on preferences not found: pass through
    | NoTreeSearch           // no node tree, search enabled: search
    | NoTreePassThrough      // no node tree, search disabled: pass through
    | ToggleMute             // selected non-frame active node, muting enabled: flip mute
    | EmptySpaceSearch       // empty-space click, search enabled: search
    | EmptySpacePassThrough  // empty-space click, search disabled: pass through
  {
    predicate Searches()
    {
      this == NoTreeSearch || this == EmptySpaceSearch
    }
  }

  predicate InNodeEditor(ctx: Context)
  {
    ctx.areaType == Some(NODE_EDITOR)
  }

  predicate HasNodeTree(ctx: Context)
  {
    ctx.spaceData.Some? && ctx.spaceData.value.nodeTree.Some?
  }

  /** An active node that is selected: the operator's sign that a node, not empty space, was clicked. */
  predicate NodeClicked(ctx: Context)
  {
    ctx.activeNode.Some? && ctx.activeNode.value.select
  }

  /** The click hit a node whose mute may be flipped: clicked, and not a frame. */
  predicate MuteTarget(ctx: Context)
  {
    NodeClicked(ctx) && ctx.activeNode.value.nodeType != Some(FRAME)
  }

  /** Which branch of the operator fires for this context and these preferences. */
  function Classify(ctx: Context, prefs: Option<Prefs>): (b: Branch)
    ensures b == NotNodeEditor <==> !InNodeEditor(ctx)
    ensures b == NoPreferences <==> InNodeEditor(ctx) && prefs.None?
    ensures b == NoTreeSearch <==>
              InNodeEditor(ctx) && prefs.Some? && !HasNodeTree(ctx) && prefs.value.enableSearch
    ensures b == NoTreePassThrough <==>
              InNodeEditor(ctx) && prefs.Some? && !HasNodeTree(ctx) && !prefs.value.enableSearch
    ensures b == ToggleMute <==>
              InNodeEditor(ctx) && prefs.Some? && HasNodeTree(ctx) && prefs.value.enableMute && MuteTarget(ctx)
    // a frame, an unselected or missing active node, or muting disabled: empty-space handling
    ensures b == EmptySpaceSearch <==>
              InNodeEditor(ctx) && prefs.Some? && HasNodeTree(ctx) &&
              !(prefs.value.enableMute && MuteTarget(ctx)) && prefs.value.enableSearch
    ensures b == EmptySpacePassThrough <==>
              InNodeEditor(ctx) && prefs.Some? && HasNodeTree(ctx) &&
              !(prefs.value.enableMute && MuteTarget(ctx)) && !prefs.value.enableSearch
  {
    if ctx.areaType.None? || ctx.areaType.value != NODE_EDITOR then NotNodeEditor
    else if prefs.None? then NoPreferences
    else if ctx.spaceData.None? || ctx.spaceData.value.nodeTree.None? then
      if prefs.value.enableSearch then NoTreeSearch else NoTreePassThrough
    else if prefs.value.enableMute && NodeClicked(ctx) && ctx.activeNode.value.nodeType != Some(FRAME) then
      ToggleMute
    else if prefs.value.enableSearch then EmptySpaceSearch
    else EmptySpacePassThrough
  }

  /** What one dispatch yields: the status set, whether the active node's mute flipped, the search operators called. */
  datatype Response = Response(status: set<Status>, flipped: bool, searched: seq<SearchOp>)

  /** The specification of the operator's `invoke`, given what the host calls do. */
  function Respond(ctx: Context, prefs: Option<Prefs>, host: HostCalls): (r: Response)
    // guards: wrong area or no preferences pass through and do nothing
    ensures !InNodeEditor(ctx) || prefs.None? ==> r == Response(PASS_THROUGH, false, [])
    // the mute flag flips exactly when the toggle branch fires and the write succeeds
    ensures r.flipped <==> Classify(ctx, prefs) == ToggleMute && host.muteWritable
    ensures r.flipped ==> r.status == FINISHED && r.searched == []
    // a failed write fails open, without searching
    ensures Classify(ctx, prefs) == ToggleMute && !host.muteWritable ==> r == Response(PASS_THROUGH, false, [])
    // search runs exactly in the two search branches, and its result is the dispatch's result
    ensures r.searched != [] <==> Classify(ctx, prefs).Searches()
    ensures Classify(ctx, prefs).Searches() ==>
              var s := InvokeNodeSearch(host.addSearch, host.searchMenu);
              r.status == s.status && r.searched == s.tried && !r.flipped
    // with no node tree the mute flag is never touched
    ensures InNodeEditor(ctx) && prefs.Some? && !HasNodeTree(ctx) ==> !r.flipped
    ensures InNodeEditor(ctx) && prefs.Some? && !HasNodeTree(ctx) && !prefs.value.enableSearch ==>
              r == Response(PASS_THROUGH, false, [])
    // a frame node is never muted, whatever the preferences
    ensures ctx.activeNode.Some? && ctx.activeNode.value.nodeType == Some(FRAME) ==> !r.flipped
    // nothing flipped and nothing searched: the event passes through
    ensures !r.flipped && r.searched == [] ==> r.status == PASS_THROUGH
    // the status is FINISHED, PASS_THROUGH or what a search operator returned
    ensures r.status == FINISHED || r.status == PASS_THROUGH ||
            host.addSearch == Returned(r.status) || host.searchMenu == Returned(r.status)
  {
    match Classify(ctx, prefs)
    case ToggleMute =>
      if host.muteWritable then Response(FINISHED, true, []) else Response(PASS_THROUGH, false, [])
    case NoTreeSearch =>
      var s := InvokeNodeSearch(host.addSearch, host.searchMenu);
      Response(s.status, false, s.tried)
    case EmptySpaceSearch =>
      var s := InvokeNodeSearch(host.addSearch, host.searchMenu);
      Response(s.status, false, s.tried)
    case _ =>
      Response(PASS_THROUGH, false, [])
  }

  /**
   * `NODE_OT_doubleclick.invoke`: dispatch one double-click, flipping the
   * active node's mute flag in place when the click hit a node. Returns the
   * status set and the search operators it called.
   */
  method Invoke(ctx: Context, prefs: Option<Prefs>, host: HostCalls) returns (status: set<Status>, searched: seq<SearchOp>)
    modifies ctx.ActiveNodes()
    ensures status == Respond(ctx, prefs, host).status
    ensures searched == Respond(ctx, prefs, host).searched
    // the active node's mute is negated when the dispatch flips it, and kept otherwise
    ensures ctx.activeNode.Some? ==>
              ctx.activeNode.value.mute == (old(ctx.activeNode.value.mute) != Respond(ctx, prefs, host).flipped)
    // no other node of the tree changes
    ensures forall n :: n in ctx.TreeNodes() && n !in ctx.ActiveNodes() ==> n.mute == old(n.mute)
  {
    if ctx.areaType.None? || ctx.areaType.value != NODE_EDITOR {
      return PASS_THROUGH, [];
    }
    if prefs.None? {
      return PASS_THROUGH, [];
    }
    var p := prefs.value;
    var space := ctx.spaceData;

    // no node tree: search only
    if space.None? || space.value.nodeTree.None? {
      if p.enableSearch {
        var s := InvokeNodeSearch(host.addSearch, host.searchMenu);
        return s.status, s.tried;
      }
      return PASS_THROUGH, [];
    }

    // node muting
    var active := ctx.activeNode;
    var nodeClicked := active.Some? && active.value.select;
    if p.enableMute && nodeClicked {
      if active.value.nodeType != Some(FRAME) {
        if host.muteWritable {
          active.value.mute := !active.value.mute;
          return FINISHED, [];
        }
        return PASS_THROUGH, [];
      }
    }

    // empty space: search
    if p.enableSearch {
      var s := InvokeNodeSearch(host.addSearch, host.searchMenu);
      return s.status, s.tried;
    }
    return PASS_THROUGH, [];
  }

  /**
   * Two double-clicks in a row in the same context, the host's mute write
   * succeeding both times or failing both times: the active node's mute flag
   * ends where it started (flipped twice or not at all), whatever the search
   * operators do on either click.
   */
  method DoubleClickTwice(ctx: Context, prefs: Option<Prefs>, h1: HostCalls, h2: HostCalls)
    returns (first: set<Status>, second: set<Status>)
    requires h1.muteWritable == h2.muteWritable
    modifies ctx.ActiveNodes()
    ensures ctx.activeNode.Some? ==> ctx.activeNode.value.mute == old(ctx.activeNode.value.mute)
    ensures first == Respond(ctx, prefs, h1).status && second == Respond(ctx, prefs, h2).status
  {
    var tried;
    first, tried := Invoke(ctx, prefs, h1);
    second, tried := Invoke(ctx, prefs, h2);
  }

  /**
   * A double-click on a selected, unmuted "Mix Shader" node in a node tree,
   * with the default preferences: the node becomes muted, the event is
   * handled, and no search operator is called.
   */
  method MixShaderScenario() returns (status: set<Status>, searched: seq<SearchOp>, muted: bool)
    ensures status == FINISHED && searched == [] && muted
  {
    var node := new Node("Mix Shader", Some("MIX_SHADER"), true, false);
    var ctx := Context(Some(NODE_EDITOR), Some(SpaceNode(Some(NodeTree({node})))), Some(node));
    status, searched := Invoke(ctx, Some(DEFAULT_PREFS), HostCalls(Raised, Raised, true));
    muted := node.mute;
  }
}
