/** The simulation panel: the live validity check on the graph
    (`validationResult`), the fallback guard and state updates around a
    simulation run (`handleSimulate`), and the button's enabled state
    (src/components/panels/SimulationPanel.tsx). */
module SimulationPanel {
  import opened WorkflowTypes
  import Traversal
  import MockApi

  datatype ValidationResult = ValidationResult(isValid: bool, message: string)

  const NoNodesMessage := "Add nodes to the canvas"
  const NoEndMessage := "Add an End node to the workflow"
  const NoStartMessage := "Add a Start node to the workflow"
  const ReadyMessage := "Ready to simulate"

  function NoIncomingMessage(title: string): string {
    "\"" + title + "\" has no incoming connection"
  }

  function NoOutgoingMessage(title: string): string {
    "\"" + title + "\" has no outgoing connection"
  }

  /** `nodes.some(n => n.type === kind)`. */
  predicate HasKind(nodes: seq<Node>, kind: NodeKind) {
    exists i :: 0 <= i < |nodes| && nodes[i].kind == Some(kind)
  }

  /** `id` is in `new Set(edges.map(e => e.target))`. */
  predicate HasIncoming(edges: seq<Edge>, id: string) {
    exists i :: 0 <= i < |edges| && edges[i].target == id
  }

  /** `id` is in `new Set(edges.map(e => e.source))`. */
  predicate HasOutgoing(edges: seq<Edge>, id: string) {
    exists i :: 0 <= i < |edges| && edges[i].source == id
  }

  /** A node other than a Start node must be the target of some edge. */
  predicate LacksIncoming(node: Node, edges: seq<Edge>) {
    node.kind != Some(Start) && !HasIncoming(edges, node.id)
  }

  /** A node other than an End node must be the source of some edge. */
  predicate LacksOutgoing(node: Node, edges: seq<Edge>) {
    node.kind != Some(End) && !HasOutgoing(edges, node.id)
  }

  predicate Connected(node: Node, edges: seq<Edge>) {
    !LacksIncoming(node, edges) && !LacksOutgoing(node, edges)
  }

  /** The `for (const node of nodes)` loop as a recursion: the first node that
      fails, incoming before outgoing, decides the message. */
  function ConnectivityCheck(nodes: seq<Node>, edges: seq<Edge>): ValidationResult
    decreases |nodes|
  {
    if |nodes| == 0 then ValidationResult(true, ReadyMessage)
    else if LacksIncoming(nodes[0], edges) then ValidationResult(false, NoIncomingMessage(nodes[0].data.title))
    else if LacksOutgoing(nodes[0], edges) then ValidationResult(false, NoOutgoingMessage(nodes[0].data.title))
    else ConnectivityCheck(nodes[1..], edges)
  }

  /** `validationResult`: empty graph, then no End node, then no Start node,
      then the per-node connectivity pass. */
  function Validation(nodes: seq<Node>, edges: seq<Edge>): ValidationResult {
    if |nodes| == 0 then ValidationResult(false, NoNodesMessage)
    else if !HasKind(nodes, End) then ValidationResult(false, NoEndMessage)
    else if !HasKind(nodes, Start) then ValidationResult(false, NoStartMessage)
    else ConnectivityCheck(nodes, edges)
  }

  /** The memoised validation, run as the source runs it: the `some` checks,
      the two endpoint sets built once, then the loop with early returns. */
  method ValidateWorkflow(nodes: seq<Node>, edges: seq<Edge>) returns (r: ValidationResult)
    ensures r == Validation(nodes, edges)
  {
    if |nodes| == 0 {
      return ValidationResult(false, NoNodesMessage);
    }
    if !HasKind(nodes, End) {
      return ValidationResult(false, NoEndMessage);
    }
    if !HasKind(nodes, Start) {
      return ValidationResult(false, NoStartMessage);
    }
    var nodesWithIncoming := set e | e in edges :: e.target;
    var nodesWithOutgoing := set e | e in edges :: e.source;
    assert forall id :: id in nodesWithIncoming <==> HasIncoming(edges, id) by {
      forall id | HasIncoming(edges, id) ensures id in nodesWithIncoming {
        var i :| 0 <= i < |edges| && edges[i].target == id;
        assert edges[i] in edges;
      }
    }
    assert forall id :: id in nodesWithOutgoing <==> HasOutgoing(edges, id) by {
      forall id | HasOutgoing(edges, id) ensures id in nodesWithOutgoing {
        var i :| 0 <= i < |edges| && edges[i].source == id;
        assert edges[i] in edges;
      }
    }
    var i := 0;
    while i < |nodes|
      invariant 0 <= i <= |nodes|
      invariant ConnectivityCheck(nodes[i..], edges) == ConnectivityCheck(nodes, edges)
    {
      var node := nodes[i];
      if node.kind != Some(Start) && node.id !in nodesWithIncoming {
        return ValidationResult(false, NoIncomingMessage(node.data.title));
      }
      if node.kind != Some(End) && node.id !in nodesWithOutgoing {
        return ValidationResult(false, NoOutgoingMessage(node.data.title));
      }
      assert nodes[i..][1..] == nodes[i + 1..];
      i := i + 1;
    }
    return ValidationResult(true, ReadyMessage);
  }

  // ---------------------------------------------------------------------------
  // What the validation promises

  /** The check passes exactly when the graph is non-empty, has an End and a
      Start node, every non-Start node is some edge's target and every non-End
      node is some edge's source. */
  lemma {:induction false} ValidExactlyWhenConnected(nodes: seq<Node>, edges: seq<Edge>)
    ensures Validation(nodes, edges).isValid
            <==> && |nodes| > 0 && HasKind(nodes, End) && HasKind(nodes, Start)
                 && forall i :: 0 <= i < |nodes| ==> Connected(nodes[i], edges)
  {
    if |nodes| > 0 && HasKind(nodes, End) && HasKind(nodes, Start) {
      ConnectivityAllConnected(nodes, edges);
    }
  }

  lemma {:induction false} ConnectivityAllConnected(nodes: seq<Node>, edges: seq<Edge>)
    ensures ConnectivityCheck(nodes, edges).isValid <==> forall i :: 0 <= i < |nodes| ==> Connected(nodes[i], edges)
    ensures ConnectivityCheck(nodes, edges).isValid ==> ConnectivityCheck(nodes, edges).message == ReadyMessage
    decreases |nodes|
  {
    if |nodes| > 0 {
      ConnectivityAllConnected(nodes[1..], edges);
      assert forall i :: 1 <= i < |nodes| ==> nodes[i] == nodes[1..][i - 1];
    }
  }

  /** The reported connectivity failure is the first failing node's: every
      earlier node is connected, and for that node a missing incoming edge is
      reported before a missing outgoing one. */
  lemma {:induction false} FirstFailureReported(nodes: seq<Node>, edges: seq<Edge>, k: nat)
    requires |nodes| > 0 && HasKind(nodes, End) && HasKind(nodes, Start)
    requires k < |nodes| && !Connected(nodes[k], edges)
    requires forall j :: 0 <= j < k ==> Connected(nodes[j], edges)
    ensures Validation(nodes, edges)
            == ValidationResult(false, if LacksIncoming(nodes[k], edges) then NoIncomingMessage(nodes[k].data.title)
                                       else NoOutgoingMessage(nodes[k].data.title))
  {
    ConnectivityFirstFailure(nodes, edges, k);
  }

  lemma {:induction false} ConnectivityFirstFailure(nodes: seq<Node>, edges: seq<Edge>, k: nat)
    requires k < |nodes| && !Connected(nodes[k], edges)
    requires forall j :: 0 <= j < k ==> Connected(nodes[j], edges)
    ensures ConnectivityCheck(nodes, edges)
            == ValidationResult(false, if LacksIncoming(nodes[k], edges) then NoIncomingMessage(nodes[k].data.title)
                                       else NoOutgoingMessage(nodes[k].data.title))
    decreases k
  {
    if k > 0 {
      assert Connected(nodes[0], edges);
      ConnectivityFirstFailure(nodes[1..], edges, k - 1);
    }
  }

  /** A node reported for a missing incoming edge is never a Start node, and
      one reported for a missing outgoing edge is never an End node: the
      message names the first failing node, which fails that very check. */
  lemma {:induction false} ReportedNodeFailsItsCheck(nodes: seq<Node>, edges: seq<Edge>)
    requires |nodes| > 0 && HasKind(nodes, End) && HasKind(nodes, Start)
    requires !Validation(nodes, edges).isValid
    ensures exists k :: 0 <= k < |nodes| && (forall j :: 0 <= j < k ==> Connected(nodes[j], edges)) &&
              if LacksIncoming(nodes[k], edges)
              then Validation(nodes, edges).message == NoIncomingMessage(nodes[k].data.title) && nodes[k].kind != Some(Start)
              else Validation(nodes, edges).message == NoOutgoingMessage(nodes[k].data.title)
                   && LacksOutgoing(nodes[k], edges) && nodes[k].kind != Some(End)
  {
    ValidExactlyWhenConnected(nodes, edges);
    var k := FirstUnconnected(nodes, edges);
    FirstFailureReported(nodes, edges, k);
  }

  /** The index of the first node that is not connected, when there is one. */
  lemma {:induction false} FirstUnconnectedExists(nodes: seq<Node>, edges: seq<Edge>, j: nat)
    requires j < |nodes| && !Connected(nodes[j], edges)
    ensures exists k :: 0 <= k <= j && !Connected(nodes[k], edges) && forall i :: 0 <= i < k ==> Connected(nodes[i], edges)
    decreases j
  {
    if j > 0 && !forall i :: 0 <= i < j ==> Connected(nodes[i], edges) {
      var i :| 0 <= i < j && !Connected(nodes[i], edges);
      FirstUnconnectedExists(nodes, edges, i);
    }
  }

  ghost function FirstUnconnected(nodes: seq<Node>, edges: seq<Edge>): (k: nat)
    requires exists j :: 0 <= j < |nodes| && !Connected(nodes[j], edges)
    ensures k < |nodes| && !Connected(nodes[k], edges) && forall i :: 0 <= i < k ==> Connected(nodes[i], edges)
  {
    var j :| 0 <= j < |nodes| && !Connected(nodes[j], edges);
    FirstUnconnectedExists(nodes, edges, j);
    var k :| 0 <= k <= j && !Connected(nodes[k], edges) && forall i :: 0 <= i < k ==> Connected(nodes[i], edges);
    k
  }

  /** A connectivity message starts with a quote, so it is never one of the
      fixed messages. */
  lemma ConnectivityMessagesAreQuoted(nodes: seq<Node>, edges: seq<Edge>)
    ensures !ConnectivityCheck(nodes, edges).isValid ==>
              |ConnectivityCheck(nodes, edges).message| > 0 && ConnectivityCheck(nodes, edges).message[0] == '"'
    decreases |nodes|
  {
    if |nodes| > 0 {
      ConnectivityMessagesAreQuoted(nodes[1..], edges);
    }
  }

  /** Empty graph first, then a missing End node before a missing Start node;
      once an End node exists the End message is never returned. */
  lemma MessagePrecedence(nodes: seq<Node>, edges: seq<Edge>)
    ensures |nodes| == 0 <==> Validation(nodes, edges) == ValidationResult(false, NoNodesMessage)
    ensures |nodes| > 0 && !HasKind(nodes, End) ==> Validation(nodes, edges) == ValidationResult(false, NoEndMessage)
    ensures HasKind(nodes, End) ==> Validation(nodes, edges).message != NoEndMessage
    ensures |nodes| > 0 && HasKind(nodes, End) && !HasKind(nodes, Start) ==>
              Validation(nodes, edges) == ValidationResult(false, NoStartMessage)
  {
    ConnectivityMessagesAreQuoted(nodes, edges);
    ConnectivityAllConnected(nodes, edges);
  }

  // ---------------------------------------------------------------------------
  // The fallback guard in `handleSimulate` and the button state

  const NoStartNodeError := "Workflow must have a Start Node."
  const NoEndNodeError := "Workflow must have an End Node."

  /** The guard's error, if any: a missing Start node is reported before a missing End node. */
  function SimulateGuard(nodes: seq<Node>): Option<string> {
    if FirstOfKind(nodes, Start).None? then Some(NoStartNodeError)
    else if FirstOfKind(nodes, End).None? then Some(NoEndNodeError)
    else None
  }

  /** The guard lets a graph through exactly when it has a Start and an End
      node, so every graph the validation accepts passes it; for a graph with
      neither, the guard names the Start node where the validation names the End node. */
  lemma GuardAgainstValidation(nodes: seq<Node>, edges: seq<Edge>)
    ensures SimulateGuard(nodes).None? <==> HasKind(nodes, Start) && HasKind(nodes, End)
    ensures Validation(nodes, edges).isValid ==> SimulateGuard(nodes).None?
    ensures |nodes| > 0 && !HasKind(nodes, Start) && !HasKind(nodes, End) ==>
              SimulateGuard(nodes) == Some(NoStartNodeError) && Validation(nodes, edges).message == NoEndMessage
  {
    ValidExactlyWhenConnected(nodes, edges);
  }

  /** `isDisabled`. */
  function IsDisabled(isSimulating: bool, nodes: seq<Node>, edges: seq<Edge>): bool {
    isSimulating || !Validation(nodes, edges).isValid
  }

  /** An enabled button means no run is in progress and the guard will let the graph through. */
  lemma EnabledButtonPassesGuard(isSimulating: bool, nodes: seq<Node>, edges: seq<Edge>)
    requires !IsDisabled(isSimulating, nodes, edges)
    ensures !isSimulating && SimulateGuard(nodes).None?
  {
    GuardAgainstValidation(nodes, edges);
  }

  /** The graph snapshot a run works on, captured when the run starts. */
  datatype Workflow = Workflow(nodes: seq<Node>, edges: seq<Edge>)

  /** The panel's React state. `inFlight` holds the snapshot of a run that has
      started and not yet resolved. */
  class PanelState {
    var isSimulating: bool
    var showResults: bool
    var results: Option<MockApi.SimulationResult>
    var error: Option<string>
    var inFlight: Option<Workflow>

    constructor ()
      ensures !isSimulating && !showResults && results.None? && error.None? && inFlight.None?
    {
      isSimulating, showResults, results, error, inFlight := false, false, None, None, None;
    }

    /** `handleSimulate` up to its `await`: either the guard reports its error
        and nothing starts, or the error is cleared and a run starts on the
        given snapshot. */
    method HandleSimulate(nodes: seq<Node>, edges: seq<Edge>) returns (started: bool)
      modifies this
      ensures started <==> SimulateGuard(nodes).None?
      ensures showResults
      ensures !started ==> error == SimulateGuard(nodes) && isSimulating == old(isSimulating)
                           && results == old(results) && inFlight == old(inFlight)
      ensures started ==> error.None? && isSimulating && results == old(results)
                          && inFlight == Some(Workflow(nodes, edges))
    {
      var startNode := FirstOfKind(nodes, Start);
      var endNode := FirstOfKind(nodes, End);
      if startNode.None? {
        error := Some(NoStartNodeError);
        showResults := true;
        return false;
      }
      if endNode.None? {
        error := Some(NoEndNodeError);
        showResults := true;
        return false;
      }
      error := None;
      isSimulating := true;
      showResults := true;
      inFlight := Some(Workflow(nodes, edges));
      return true;
    }

    /** The rest of `handleSimulate` once `simulateWorkflow` resolves: the
        result of the captured snapshot is stored and the run ends. */
    method CompleteSimulation(now: string)
      requires inFlight.Some?
      modifies this
      ensures results == Some(MockApi.AssembleResult(Traversal.Traverse(old(inFlight).value.nodes,
                                                                       old(inFlight).value.edges), now))
      ensures !isSimulating && inFlight.None?
      ensures error == old(error) && showResults == old(showResults)
    {
      var workflow := inFlight.value;
      var result := MockApi.SimulateWorkflow(workflow.nodes, workflow.edges, now);
      results := Some(result);
      isSimulating := false;
      inFlight := None;
    }
  }
}
