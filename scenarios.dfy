/** Small worked graphs, each checked against the whole model: a linear
    Start -> Task -> End run, a graph without an End node, an isolated task,
    and automated steps with a known and an unknown action. */
module Scenarios {
  import opened WorkflowTypes
  import Strings
  import Traversal
  import MockApi
  import SimulationPanel

  const S := Node("s", Some(Start), NodeData("Onboard", None, None, None, None, None, None, None, None, None))
  const T := Node("t", Some(Task), NodeData("Review", Some("Review resume"), None, None, None, None, None, None, None, None))
  const E := Node("e", Some(End), NodeData("Done", None, None, None, None, None, None, None, None, None))

  const Linear := [S, T, E]
  const LinearEdges := [Edge("s", "t"), Edge("t", "e")]

  /** Start -> Task -> End: the traversal is the three nodes in order, the
      graph is valid, and the task step reports its description. */
  lemma LinearWorkflow(now: string)
    ensures Traversal.Traverse(Linear, LinearEdges) == [S, T, E]
    ensures SimulationPanel.Validation(Linear, LinearEdges).isValid
    ensures MockApi.GenerateNodeOutput(T, now).output == "Task completed: Review resume"
  {
    LinearTraversal();
    LinearValidation();
    LinearTaskOutput();
  }

  /** Simulating the linear graph gives three numbered steps lasting 1.5s. */
  lemma LinearResult(now: string)
    ensures var r := MockApi.AssembleResult(Traversal.Traverse(Linear, LinearEdges), now);
            |r.steps| == 3 && r.steps[1].nodeId == "t" && r.steps[1].output == "Task completed: Review resume"
            && r.totalDuration == "1.5s"
  {
    LinearTraversal();
    LinearSteps(now);
  }

  lemma LinearSteps(now: string)
    ensures var r := MockApi.AssembleResult([S, T, E], now);
            |r.steps| == 3 && r.steps[1].nodeId == "t" && r.steps[1].output == "Task completed: Review resume"
            && r.totalDuration == "1.5s"
  {
    var ordered := [S, T, E];
    assert ordered[1] == T;
    LinearTaskOutput();
    assert MockApi.GenerateNodeOutput(T, now) == MockApi.TaskOutput(T.data);
    ThreeStepDuration();
  }

  lemma ThreeStepDuration()
    ensures MockApi.DurationText(3) == "1.5s"
  {
    assert Strings.NatToString(1) == "1";
  }

  lemma LinearTaskOutput()
    ensures MockApi.TaskOutput(T.data).output == "Task completed: Review resume"
  {
    assert |"Review resume"| <= MockApi.ExcerptLength;
  }

  lemma LinearValidation()
    ensures SimulationPanel.Validation(Linear, LinearEdges).isValid
  {
    var nodes := Linear;
    var edges := LinearEdges;
    SimulationPanel.ValidExactlyWhenConnected(nodes, edges);
    assert nodes[0].kind == Some(Start) && nodes[2].kind == Some(End);
    assert edges[0].target == "t" && edges[1].target == "e";
    assert edges[0].source == "s" && edges[1].source == "t";
    assert forall i :: 0 <= i < |nodes| ==> SimulationPanel.Connected(nodes[i], edges);
  }

  lemma LinearIndex()
    ensures var index := Traversal.NodeIndex(Linear);
            "s" in index && index["s"] == S && "t" in index && index["t"] == T && "e" in index && index["e"] == E
  {
    Traversal.NodeIndexLastWins(Linear, 0);
    Traversal.NodeIndexLastWins(Linear, 1);
    Traversal.NodeIndexLastWins(Linear, 2);
  }

  lemma LinearSuccessors()
    ensures var adj := Traversal.Adjacency(LinearEdges);
            Traversal.Successors(adj, "s") == ["t"] && Traversal.Successors(adj, "t") == ["e"]
            && Traversal.Successors(adj, "e") == []
  {
    var edges := LinearEdges;
    var first := edges[..1];
    assert first == [Edge("s", "t")] && first[..0] == [];
    assert Traversal.Targets(first, "s") == ["t"];
    assert Traversal.Targets(first, "t") == [];
    assert Traversal.Targets(first, "e") == [];
    assert Traversal.Targets(edges, "s") == ["t"];
    assert Traversal.Targets(edges, "t") == ["e"];
    assert Traversal.Targets(edges, "e") == [];
  }

  /** The three rounds of the breadth-first loop on the linear graph, last first. */
  lemma LinearRounds(index: map<string, Node>, adj: map<string, seq<string>>, universe: set<string>)
    requires "s" in index && index["s"] == S && "t" in index && index["t"] == T && "e" in index && index["e"] == E
    requires Traversal.Successors(adj, "s") == ["t"] && Traversal.Successors(adj, "t") == ["e"]
    requires Traversal.Successors(adj, "e") == []
    requires Traversal.Closed(adj, universe) && "s" in universe && "t" in universe && "e" in universe
    ensures Traversal.Explore(index, adj, ["s"], {}, universe) == [S, T, E]
  {
    assert Traversal.Unvisited([], {"s", "t", "e"}) == [];
    assert Traversal.Explore(index, adj, [], {"s", "t", "e"}, universe) == [];
    assert Traversal.Unvisited(["e"], {"s", "t"}) == ["e"] by {
      assert ["e"][..0] == [];
    }
    assert Traversal.Explore(index, adj, ["e"], {"s", "t"}, universe) == [E];
    assert Traversal.Unvisited(["t"], {"s"}) == ["t"] by {
      assert ["t"][..0] == [];
    }
    assert Traversal.Explore(index, adj, ["t"], {"s"}, universe) == [T, E] by {
      assert {"s"} + {"t"} == {"s", "t"};
    }
    assert {} + {"s"} == {"s"};
  }

  lemma LinearTraversal()
    ensures Traversal.Traverse(Linear, LinearEdges) == [S, T, E]
  {
    var nodes := Linear;
    var edges := LinearEdges;
    LinearIndex();
    LinearSuccessors();
    assert FirstOfKind(nodes, Start) == Some(S);
    var universe := {"s"} + Traversal.EdgeTargets(edges);
    Traversal.AdjacencyClosed(edges, "s");
    assert "t" in universe && "e" in universe by {
      assert edges[0] in edges && edges[1] in edges;
    }
    LinearRounds(Traversal.NodeIndex(nodes), Traversal.Adjacency(edges), universe);
  }

  /** A lone Start node: the End node is reported missing. */
  lemma MissingEnd()
    ensures SimulationPanel.Validation([S], []).message == SimulationPanel.NoEndMessage
  {
  }

  /** Start -> End with an isolated task listed last: the task is reported for
      its missing incoming connection, not its missing outgoing one. */
  lemma IsolatedTask()
    ensures SimulationPanel.Validation([S, E, T], [Edge("s", "e")]).message
            == SimulationPanel.NoIncomingMessage("Review")
  {
    var nodes := [S, E, T];
    var edges := [Edge("s", "e")];
    assert SimulationPanel.HasKind(nodes, Start) && SimulationPanel.HasKind(nodes, End) by {
      assert nodes[0].kind == Some(Start) && nodes[1].kind == Some(End);
    }
    assert edges[0].source == "s" && edges[0].target == "e";
    SimulationPanel.FirstFailureReported(nodes, edges, 2);
  }

  const Mail := Node("a", Some(Automated),
                     NodeData("Mail", None, None, None, None, None, Some("send_email"),
                              Some([("to", "a@b.com"), ("subject", "Hi")]), None, None))
  const Unknown := Node("b", Some(Automated), NodeData("Other", None, None, None, None, None, Some("nonexistent"), None, None, None))

  lemma MailParts()
    ensures MockApi.ParamParts([("to", "a@b.com"), ("subject", "Hi")]) == ["to: a@b.com", "subject: Hi"]
  {
    var first: Params := [("to", "a@b.com")];
    assert first[..0] == [];
    assert "to" + ": " + "a@b.com" == "to: a@b.com";
    assert MockApi.ParamParts(first) == ["to: a@b.com"];
    var params: Params := [("to", "a@b.com"), ("subject", "Hi")];
    assert params[..1] == first;
    assert "subject" + ": " + "Hi" == "subject: Hi";
  }

  lemma MailSummary()
    ensures MockApi.ParamSummary([("to", "a@b.com"), ("subject", "Hi")]) == "to: a@b.com, subject: Hi"
  {
    MailParts();
    var parts := ["to: a@b.com", "subject: Hi"];
    assert parts[..1] == ["to: a@b.com"];
    assert Strings.Join(parts, ", ") == "to: a@b.com" + ", " + "subject: Hi";
  }

  lemma SendEmailLookup()
    ensures FindAction(MockApi.MockAutomations, Some("send_email")) == Some(MockApi.MockAutomations[0])
    ensures MockApi.MockAutomations[0].title == "Send Email"
  {
  }

  lemma NonexistentLookup()
    ensures FindAction(MockApi.MockAutomations, Some("nonexistent")).None?
  {
    var actions := MockApi.MockAutomations;
    assert actions[0].id == "send_email" && actions[1].id == "generate_doc"
        && actions[2].id == "slack_notify" && actions[3].id == "create_jira";
  }

  /** An automated step with a known action lists its non-empty parameters. */
  lemma KnownAction(node: Node, now: string)
    requires node == Mail
    ensures MockApi.GenerateNodeOutput(node, now).output == "Send Email executed (" + "to: a@b.com, subject: Hi" + ")"
  {
    MockApi.AutomatedNodeOutput(node, now);
    SendEmailLookup();
    MailSummary();
    assert ParamsOf(node.data)[0].1 != "";
    MockApi.AutomatedOutputText(MockApi.MockAutomations, node.data);
    assert "Send Email" + " executed (" == "Send Email executed (";
  }

  /** An automated step with an unknown action falls back to the generic text
      and reports the raw action id. */
  lemma UnknownAction(node: Node, now: string)
    requires node == Unknown
    ensures MockApi.GenerateNodeOutput(node, now)
            == MockApi.StepOutput("Automated action executed",
                                  [("action", MockApi.Text("nonexistent")), ("parameters", MockApi.Text("None configured"))])
  {
    MockApi.AutomatedNodeOutput(node, now);
    UnknownLookup(node.data);
    UnknownActionOutput(node.data);
  }

  lemma UnknownLookup(data: NodeData)
    requires data == Unknown.data
    ensures FindAction(MockApi.MockAutomations, data.actionId).None?
  {
    NonexistentLookup();
  }

  lemma UnknownActionOutput(data: NodeData)
    requires FindAction(MockApi.MockAutomations, data.actionId).None?
    requires data.actionParams.None? && data.actionId == Some("nonexistent")
    ensures MockApi.AutomatedOutput(MockApi.MockAutomations, data)
            == MockApi.StepOutput("Automated action executed",
                                  [("action", MockApi.Text("nonexistent")), ("parameters", MockApi.Text("None configured"))])
  {
  }
}
