/** The peer-list bookkeeping of dev/networkNode.js: the two guards and the
    appends behind them in /register-and-broadcast-node, /register-node and
    /register-nodes-bulk, stated on the list of peer addresses. `None` is
    JavaScript's `undefined`.

    Every handler calls its guards with no argument, so the guards test
    `undefined` rather than the address being registered. The As-written
    functions below follow the code; the Intended ones pass the address. */
module Peers {
  import opened Types

  type Peers = seq<Option<string>>

  /** `networkNodes.indexOf(newNodeUrl) === -1`: no position of the list holds
      the address; called without an argument, no position holds `undefined`. */
  function NodeNotAlreadyPresent(nodes: Peers, newNodeUrl: Option<string>): (r: bool)
    ensures r <==> forall i :: 0 <= i < |nodes| ==> nodes[i] != newNodeUrl
    ensures newNodeUrl == None ==> (r <==> forall i :: 0 <= i < |nodes| ==> nodes[i].Some?)
  {
    newNodeUrl !in nodes
  }

  /** `currentNodeUrl !== newNodeUrl`; called without an argument, it only asks
      whether this node's own address is defined. */
  function NotCurrentNode(currentNodeUrl: Option<string>, newNodeUrl: Option<string>): (r: bool)
    ensures r <==> newNodeUrl != currentNodeUrl
    ensures newNodeUrl == None ==> (r <==> currentNodeUrl.Some?)
  {
    currentNodeUrl != newNodeUrl
  }

  /** The guard of /register-node and of each step of /register-nodes-bulk, as
      called: both guards receive `undefined`, so the guard holds exactly when
      every listed address is defined and so is this node's own, whatever
      address is being registered. */
  function RegisterGuard(nodes: Peers, currentNodeUrl: Option<string>): (r: bool)
    ensures r <==> (forall i :: 0 <= i < |nodes| ==> nodes[i].Some?) && currentNodeUrl.Some?
  {
    NodeNotAlreadyPresent(nodes, None) && NotCurrentNode(currentNodeUrl, None)
  }

  /** The local update of /register-and-broadcast-node: only the presence guard,
      called without an argument. */
  function RegisterAndBroadcast(nodes: Peers, newNodeUrl: Option<string>): (r: Peers)
    ensures r == nodes || r == nodes + [newNodeUrl]
    ensures r != nodes <==> None !in nodes
  {
    if NodeNotAlreadyPresent(nodes, None) then nodes + [newNodeUrl] else nodes
  }

  /** The update of /register-node. */
  function RegisterNode(nodes: Peers, currentNodeUrl: Option<string>, newNodeUrl: Option<string>)
    : (r: Peers)
    ensures r == nodes || r == nodes + [newNodeUrl]
    ensures r != nodes <==> None !in nodes && currentNodeUrl.Some?
  {
    if RegisterGuard(nodes, currentNodeUrl) then nodes + [newNodeUrl] else nodes
  }

  /** The update of /register-nodes-bulk: RegisterNode applied to each address
      of the request, left to right. The old list is kept as a prefix and only
      addresses of the request are appended. */
  function RegisterNodesBulk(nodes: Peers, currentNodeUrl: Option<string>, allNetworkNodes: Peers)
    : (r: Peers)
    ensures |nodes| <= |r| <= |nodes| + |allNetworkNodes|
    ensures r[..|nodes|] == nodes
    ensures forall i :: |nodes| <= i < |r| ==> r[i] in allNetworkNodes
    decreases |allNetworkNodes|
  {
    if allNetworkNodes == [] then nodes
    else
      var init := allNetworkNodes[..|allNetworkNodes| - 1];
      var before := RegisterNodesBulk(nodes, currentNodeUrl, init);
      var r := RegisterNode(before, currentNodeUrl, allNetworkNodes[|allNetworkNodes| - 1]);
      assert forall u :: u in init ==> u in allNetworkNodes;
      r
  }

  /** Reference for the bulk update: the addresses of a request up to and
      including its first `undefined` (all of them if there is none). */
  function ThroughFirstUndefined(urls: Peers): (r: Peers)
    ensures r <= urls
  {
    if urls == [] then []
    else if urls[0] == None then [None]
    else [urls[0]] + ThroughFirstUndefined(urls[1..])
  }

  lemma {:induction false} ThroughFirstUndefinedAll(urls: Peers)
    requires None !in urls
    ensures ThroughFirstUndefined(urls) == urls
  {
    if urls != [] {
      assert urls == [urls[0]] + urls[1..];
      ThroughFirstUndefinedAll(urls[1..]);
    }
  }

  lemma {:induction false} ThroughFirstUndefinedSnoc(urls: Peers, u: Option<string>)
    ensures ThroughFirstUndefined(urls + [u])
         == if None in urls then ThroughFirstUndefined(urls) else urls + [u]
  {
    if urls == [] {
      assert urls + [u] == [u];
    } else {
      assert (urls + [u])[1..] == urls[1..] + [u];
      assert (urls + [u])[0] == urls[0];
      assert urls == [urls[0]] + urls[1..];
      assert None in urls <==> urls[0] == None || None in urls[1..];
      ThroughFirstUndefinedSnoc(urls[1..], u);
    }
  }

  lemma ThroughFirstUndefinedHasUndefined(urls: Peers)
    ensures None in ThroughFirstUndefined(urls) <==> None in urls
  {
  }

  /** What /register-nodes-bulk does, in closed form: nothing at all when the
      list already holds `undefined` or this node's address is undefined;
      otherwise every requested address is appended, duplicates and this
      node's own address included, until an `undefined` one is appended. */
  lemma {:induction false} RegisterNodesBulkClosedForm(
    nodes: Peers, currentNodeUrl: Option<string>, allNetworkNodes: Peers)
    ensures RegisterNodesBulk(nodes, currentNodeUrl, allNetworkNodes)
         == if !RegisterGuard(nodes, currentNodeUrl) then nodes
            else nodes + ThroughFirstUndefined(allNetworkNodes)
    decreases |allNetworkNodes|
  {
    if allNetworkNodes == [] {
      assert nodes + [] == nodes;
    } else {
      var init := allNetworkNodes[..|allNetworkNodes| - 1];
      var last := allNetworkNodes[|allNetworkNodes| - 1];
      assert allNetworkNodes == init + [last];
      var before := RegisterNodesBulk(nodes, currentNodeUrl, init);
      assert RegisterNodesBulk(nodes, currentNodeUrl, allNetworkNodes)
          == RegisterNode(before, currentNodeUrl, last);
      RegisterNodesBulkClosedForm(nodes, currentNodeUrl, init);
      ThroughFirstUndefinedSnoc(init, last);
      if !RegisterGuard(nodes, currentNodeUrl) {
        assert before == nodes;
      } else if None in init {
        ThroughFirstUndefinedHasUndefined(init);
        assert before == nodes + ThroughFirstUndefined(init);
        assert None in before;
      } else {
        ThroughFirstUndefinedAll(init);
        assert before == nodes + init;
        assert None !in before;
        assert nodes + init + [last] == nodes + (init + [last]);
      }
    }
  }

  /** Hence a request without `undefined` addresses is appended whole, even
      addresses already known: registration is not idempotent as written. */
  lemma RegisterNodesBulkAppendsAll(nodes: Peers, currentNodeUrl: Option<string>, allNetworkNodes: Peers)
    requires RegisterGuard(nodes, currentNodeUrl) && None !in allNetworkNodes
    ensures RegisterNodesBulk(nodes, currentNodeUrl, allNetworkNodes) == nodes + allNetworkNodes
  {
    RegisterNodesBulkClosedForm(nodes, currentNodeUrl, allNetworkNodes);
    ThroughFirstUndefinedAll(allNetworkNodes);
  }

  /** A known address registered again through /register-node is appended a
      second time, and a node registers its own address. */
  lemma RegisterNodeDuplicates()
    ensures RegisterNode([Some("http://localhost:3002")], Some("http://localhost:3001"), Some("http://localhost:3002"))
         == [Some("http://localhost:3002"), Some("http://localhost:3002")]
    ensures RegisterNode([], Some("http://localhost:3001"), Some("http://localhost:3001"))
         == [Some("http://localhost:3001")]
  {
  }

  // ---- The guards as evidently intended: called with the address itself ----

  /** The peer list holds no address twice and never this node's own. */
  predicate Clean(nodes: Peers, currentNodeUrl: Option<string>)
  {
    currentNodeUrl !in nodes &&
    forall i, j :: 0 <= i < j < |nodes| ==> nodes[i] != nodes[j]
  }

  function RegisterNodeIntended(nodes: Peers, currentNodeUrl: Option<string>, newNodeUrl: Option<string>)
    : (r: Peers)
    ensures r == nodes || r == nodes + [newNodeUrl]
    ensures r != nodes <==> newNodeUrl !in nodes && newNodeUrl != currentNodeUrl
    ensures newNodeUrl != currentNodeUrl ==> newNodeUrl in r
    ensures currentNodeUrl !in nodes ==> currentNodeUrl !in r
  {
    if NodeNotAlreadyPresent(nodes, newNodeUrl) && NotCurrentNode(currentNodeUrl, newNodeUrl)
    then nodes + [newNodeUrl] else nodes
  }

  /** Registering with the intended guards keeps the list clean and is idempotent. */
  lemma RegisterNodeIntendedClean(nodes: Peers, currentNodeUrl: Option<string>, newNodeUrl: Option<string>)
    requires Clean(nodes, currentNodeUrl)
    ensures Clean(RegisterNodeIntended(nodes, currentNodeUrl, newNodeUrl), currentNodeUrl)
    ensures RegisterNodeIntended(RegisterNodeIntended(nodes, currentNodeUrl, newNodeUrl), currentNodeUrl, newNodeUrl)
         == RegisterNodeIntended(nodes, currentNodeUrl, newNodeUrl)
  {
    var r := RegisterNodeIntended(nodes, currentNodeUrl, newNodeUrl);
    if r != nodes {
      forall i, j | 0 <= i < j < |r| ensures r[i] != r[j] {
        if j == |nodes| {
          assert r[i] == nodes[i];
        }
      }
    }
  }

  /** /register-nodes-bulk with the intended guards: the old list stays a
      prefix, and only requested addresses other than this node's are appended. */
  function RegisterNodesBulkIntended(nodes: Peers, currentNodeUrl: Option<string>, allNetworkNodes: Peers)
    : (r: Peers)
    ensures |nodes| <= |r| <= |nodes| + |allNetworkNodes|
    ensures r[..|nodes|] == nodes
    ensures forall i :: |nodes| <= i < |r| ==> r[i] in allNetworkNodes && r[i] != currentNodeUrl
    decreases |allNetworkNodes|
  {
    if allNetworkNodes == [] then nodes
    else
      var init := allNetworkNodes[..|allNetworkNodes| - 1];
      var last := allNetworkNodes[|allNetworkNodes| - 1];
      var r := RegisterNodeIntended(RegisterNodesBulkIntended(nodes, currentNodeUrl, init), currentNodeUrl, last);
      assert forall u :: u in init ==> u in allNetworkNodes;
      r
  }

  /** The intended bulk registration keeps the list clean and ends with every
      requested address other than this node's own in the list. */
  lemma {:induction false} RegisterNodesBulkIntendedClean(
    nodes: Peers, currentNodeUrl: Option<string>, allNetworkNodes: Peers)
    requires Clean(nodes, currentNodeUrl)
    ensures Clean(RegisterNodesBulkIntended(nodes, currentNodeUrl, allNetworkNodes), currentNodeUrl)
    ensures forall u :: u in allNetworkNodes && u != currentNodeUrl ==>
              u in RegisterNodesBulkIntended(nodes, currentNodeUrl, allNetworkNodes)
    decreases |allNetworkNodes|
  {
    if allNetworkNodes != [] {
      var init := allNetworkNodes[..|allNetworkNodes| - 1];
      var last := allNetworkNodes[|allNetworkNodes| - 1];
      var before := RegisterNodesBulkIntended(nodes, currentNodeUrl, init);
      RegisterNodesBulkIntendedClean(nodes, currentNodeUrl, init);
      RegisterNodeIntendedClean(before, currentNodeUrl, last);
      var r := RegisterNodeIntended(before, currentNodeUrl, last);
      assert before <= r;
      forall u | u in allNetworkNodes && u != currentNodeUrl ensures u in r {
        assert allNetworkNodes == init + [last];
        if u != last {
          assert u in init;
        }
      }
    }
  }
}
