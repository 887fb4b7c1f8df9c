/**
 * Opening the node search popup: a fixed-priority fallback chain over the
 * host's search operators, each tried at most once.
 */
module NodeSearch {
  import opened BlenderHost

  /** The search operators: `node.add_search` first, `wm.search_menu` as the legacy fallback. */
  datatype SearchOp = NodeAddSearch | WmSearchMenu

  /** One operator of a chain together with what calling it would do. */
  datatype Attempt = Attempt(op: SearchOp, outcome: OpOutcome)

  /** The status the chain yields and the operators it called, in call order. */
  datatype SearchResult = SearchResult(status: set<Status>, tried: seq<SearchOp>)

  /**
   * Reference definition of a fallback chain: call the operators in order,
   * stop at the first that returns (whatever status it returns), and yield
   * `PASS_THROUGH` when every one of them raised.
   */
  function FirstSuccess(chain: seq<Attempt>): (r: SearchResult)
    // the operators called are a prefix of the chain, in chain order
    ensures |r.tried| <= |chain|
    ensures forall i :: 0 <= i < |r.tried| ==> r.tried[i] == chain[i].op
    // every operator called before the last one raised
    ensures forall i :: 0 <= i < |r.tried| - 1 ==> chain[i].outcome.Raised?
    // the last operator called returned: its status is the result
    ensures r.tried != [] && chain[|r.tried| - 1].outcome.Returned? ==>
              r.status == chain[|r.tried| - 1].outcome.status
    // no operator returned: all were called and the event passes through
    ensures r.tried == [] || chain[|r.tried| - 1].outcome.Raised? ==>
              |r.tried| == |chain| && r.status == PASS_THROUGH
  {
    if chain == [] then
      SearchResult(PASS_THROUGH, [])
    else if chain[0].outcome.Returned? then
      SearchResult(chain[0].outcome.status, [chain[0].op])
    else
      var rest := FirstSuccess(chain[1..]);
      SearchResult(rest.status, [chain[0].op] + rest.tried)
  }

  /** The chain `invoke_node_search` runs. */
  function SearchChain(addSearch: OpOutcome, searchMenu: OpOutcome): seq<Attempt>
  {
    [Attempt(NodeAddSearch, addSearch), Attempt(WmSearchMenu, searchMenu)]
  }

  /**
   * `invoke_node_search`: try `node.add_search`; if it raises, try
   * `wm.search_menu`; if that raises too, pass the event through.
   */
  function InvokeNodeSearch(addSearch: OpOutcome, searchMenu: OpOutcome): (r: SearchResult)
    ensures r == FirstSuccess(SearchChain(addSearch, searchMenu))
    // the primary operator is always tried, and first
    ensures 1 <= |r.tried| <= 2 && r.tried[0] == NodeAddSearch
    // each operator is tried at most once
    ensures forall i, j :: 0 <= i < j < |r.tried| ==> r.tried[i] != r.tried[j]
    // the legacy operator is tried exactly when the primary raised
    ensures WmSearchMenu in r.tried <==> addSearch.Raised?
    ensures addSearch.Returned? ==> r.status == addSearch.status
    ensures addSearch.Raised? && searchMenu.Returned? ==> r.status == searchMenu.status
    ensures addSearch.Raised? && searchMenu.Raised? ==> r.status == PASS_THROUGH
  {
    var chain := SearchChain(addSearch, searchMenu);
    assert chain[1..] == [chain[1]];
    assert chain[1..][1..] == [];
    if addSearch.Returned? then
      SearchResult(addSearch.status, [NodeAddSearch])
    else if searchMenu.Returned? then
      SearchResult(searchMenu.status, [NodeAddSearch, WmSearchMenu])
    else
      SearchResult(PASS_THROUGH, [NodeAddSearch, WmSearchMenu])
  }
}
