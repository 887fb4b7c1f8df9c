# Node DoubleClick Actions — a Dafny model of the double-click dispatcher

This project models the Blender node-editor add-on "Node DoubleClick Actions".
The add-on binds a double left-click in the node editor to the operator
`node.doubleclick_actions`. Its `invoke` method does one of three things:

- it flips the mute flag of the node that was clicked;
- it opens the node search popup;
- it passes the event through to the editor's other handlers.

Opening the search goes through `invoke_node_search`. That function tries the
modern operator `node.add_search` first and the legacy `wm.search_menu`
second. If both raise, it passes the event through.

The host objects become plain values:

- `BlenderHost` (host.dfy) holds the operator status sets `FINISHED` and
  `PASS_THROUGH`, the outcome of calling a host operator (`Returned(status)`
  or `Raised`), the three preferences with their defaults, and the context.
  The context is the area type, the space data with its node tree, and the
  active node.
- A node is a `class` whose one writable field is `mute`. Its selection
  state and its type (`getattr(node, "type", None)`, so possibly absent) are
  constants: the add-on only reads them.
- What the host does during one dispatch is a parameter, `HostCalls`: the
  outcome of each search operator, and whether assigning `mute` succeeds.
- `NodeSearch` (node_search.dfy) gives `invoke_node_search` and a reference
  definition of an ordered fallback chain, `FirstSuccess`, and proves the two
  agree.
- `DoubleClick` (doubleclick.dfy) gives `Classify` (which branch fires),
  `Respond` (the specification of one dispatch: status, whether mute flips,
  which search operators run) and the imperative `Invoke`, which follows the
  operator statement by statement and flips `mute` in place under
  `modifies`.

## Model

| member | source | states |
|---|---|---|
| `NodeSearch.FirstSuccess` | node_doubleclick.py:72-85 | An ordered fallback chain calls a prefix of its operators in order. Every operator called before the last one raised. The result is the status of the first operator that returned. If none returned, every operator was called and the result is `PASS_THROUGH`. |
| `NodeSearch.InvokeNodeSearch` | node_doubleclick.py:68-85 | `invoke_node_search` equals the chain `node.add_search` then `wm.search_menu`. The primary is always tried first. Each operator is tried at most once. The legacy operator is tried exactly when the primary raised. The result is the primary's status, else the legacy's status, else `PASS_THROUGH`. |
| `DoubleClick.Classify` | node_doubleclick.py:98-143 | Each of the seven branches fires exactly under its own condition: wrong or missing area; missing preferences; no space or no tree, with search on or off; mute toggle (muting enabled, active node selected, type not `FRAME`); empty-space click with search on or off. |
| `DoubleClick.Respond` | node_doubleclick.py:98-143 | Guards give `PASS_THROUGH` with no flip and no search. Mute flips exactly when the toggle branch fires and the write succeeds, and then the status is `FINISHED` with no search. A failed write gives `PASS_THROUGH` with no search. Search runs exactly in the two search branches, and then its status is the result. A frame node is never muted. The status is always `FINISHED`, `PASS_THROUGH` or a status a search operator returned. |
| `DoubleClick.Invoke` | node_doubleclick.py:98-143 | The imperative operator returns the status and search calls that `Respond` specifies. It negates the active node's `mute` when `Respond` says it flips and keeps it otherwise. It changes no other node of the tree, and may write only the active node. |
| `DoubleClick.DoubleClickTwice` | node_doubleclick.py:123-131 | Two dispatches in a row in the same context leave the active node's mute flag as it was, whenever the mute write succeeds both times or fails both times. This holds whatever the search operators do on either click. Each status is the one `Respond` gives for its host. |
| `DoubleClick.MixShaderScenario` | node_doubleclick.py:123-131 | A double-click on a selected, unmuted node of type `MIX_SHADER` in a node tree, with the default preferences, mutes the node and returns `FINISHED`. No search operator is called. |

## Left out

- `NODE_DOUBLECLICK_Prefs.draw` (preferences panel layout) is host UI only.
- `register`, `unregister` and the `addon_keymaps` list depend on the host's key-map and class registration API, which is not visible here.
- `get_prefs` is a lookup in the host's add-on registry; its result is passed to the dispatcher as an optional `Prefs` value.
- `debug_print` and every console message are left out as output only. They are taken never to raise. In the source the messages are written inside the `try` blocks, so a failing message after a successful `mute` write would turn `FINISHED` into `PASS_THROUGH`; the model does not capture that.
- The real `bpy.ops.node.add_search` and `bpy.ops.wm.search_menu` operators and Python's exception machinery are opaque: each call is an outcome value, `Returned(status)` or `Raised`.
- The `bl_info` metadata and the operator's `bl_idname` and `bl_label` are registration data with no behaviour.
- The operator's `bl_options = {'REGISTER', 'UNDO'}` makes the host push an undo step when `invoke` returns `FINISHED`, so a mute toggle can be undone. The undo stack is host state and is not modelled.
- A node's `name` is read only by a debug message in the source; the model keeps the field but no operation depends on it.
- A node's `select` and `type` are constants of the model: the add-on never writes them, and the host cannot change them during one dispatch.
- Which other handler receives an event that passes through is up to the host and is not modelled.
