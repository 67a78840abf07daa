/** The mock execution engine: the automation registry, per-kind step output
    synthesis (`generateNodeOutput`) and the simulation result
    (`simulateWorkflow`), src/api/mockApi.ts. */
module MockApi {
  import opened WorkflowTypes
  import opened Strings
  import Traversal

  /** `MOCK_AUTOMATIONS`; `getAutomations` resolves to this list. */
  const MockAutomations: seq<AutomationAction> := [
    AutomationAction("send_email", "Send Email", ["to", "subject", "body"]),
    AutomationAction("generate_doc", "Generate Document", ["template", "recipient"]),
    AutomationAction("slack_notify", "Slack Notification", ["channel", "message"]),
    AutomationAction("create_jira", "Create Jira Ticket", ["project", "summary"])
  ]

  /** A value shown in a step's details: a string, a number, a flag or a nested record. */
  datatype DetailValue = Text(text: string) | Number(number: int) | Flag(flag: bool) | Record(entries: Params)

  type Details = seq<(string, DetailValue)>

  datatype StepOutput = StepOutput(output: string, details: Details)

  /** How many characters of a task description the output keeps. */
  const ExcerptLength := 50

  // ---------------------------------------------------------------------------
  // Per-kind synthesis

  function StartOutput(data: NodeData, now: string): StepOutput {
    StepOutput("Workflow \"" + data.title + "\" initiated",
               [("trigger", Text("Manual")), ("timestamp", Text(now))])
  }

  /** The entry `key: value` when `value` is truthy, else nothing. */
  function IfSet(key: string, value: Option<string>): Details {
    if Truthy(value) then [(key, Text(value.value))] else []
  }

  /** `description.substring(0, 50)` followed by `...` when the description is longer. */
  function Excerpt(description: string): string {
    if |description| > ExcerptLength then description[..ExcerptLength] + "..." else description
  }

  function TaskOutput(data: NodeData): StepOutput {
    var fields := IfSet("assignee", data.assignee) + IfSet("dueDate", data.dueDate)
               + IfSet("description", data.description);
    StepOutput(
      if Truthy(data.description) then "Task completed: " + Excerpt(data.description.value)
      else "Task \"" + data.title + "\" completed",
      if |fields| > 0 then fields else [("status", Text("Completed successfully"))])
  }

  /** `data.autoApproveThreshold` is truthy: present and not zero. */
  predicate HasThreshold(data: NodeData) {
    data.autoApproveThreshold.Some? && data.autoApproveThreshold.value != 0
  }

  function ApprovalOutput(data: NodeData): StepOutput {
    var approver := OrElse(data.approverRole, "Manager");
    var base := [("approvedBy", Text(approver)), ("decision", Text("Approved"))];
    StepOutput(
      "Approved by " + approver,
      if HasThreshold(data)
      then base + [("autoApproveThreshold", Text("$" + IntToString(data.autoApproveThreshold.value)))]
      else base)
  }

  /** `k: v` for every entry whose value is non-empty, in entry order. */
  function ParamParts(params: Params): (parts: seq<string>)
    ensures |parts| == 0 <==> forall i :: 0 <= i < |params| ==> params[i].1 == ""
    ensures forall i :: 0 <= i < |parts| ==> parts[i] != ""
    decreases |params|
  {
    if |params| == 0 then []
    else
      var init := params[..|params| - 1];
      var last := params[|params| - 1];
      assert forall i :: 0 <= i < |init| ==> init[i] == params[i];
      ParamParts(init) + (if last.1 != "" then [last.0 + ": " + last.1] else [])
  }

  /** The `paramSummary`: the non-empty entries joined by `, `. */
  function ParamSummary(params: Params): (summary: string)
    ensures summary == "" <==> forall i :: 0 <= i < |params| ==> params[i].1 == ""
  {
    Join(ParamParts(params), ", ")
  }

  /** The parts of records laid end to end are the parts of each, in order. */
  lemma {:induction false} ParamPartsAppend(a: Params, b: Params)
    ensures ParamParts(a + b) == ParamParts(a) + ParamParts(b)
    decreases |b|
  {
    var ab := a + b;
    if |b| == 0 {
      assert ab == a;
    } else {
      var init, last := b[..|b| - 1], b[|b| - 1];
      var lastPart := if last.1 != "" then [last.0 + ": " + last.1] else [];
      assert ab[..|ab| - 1] == a + init;
      assert ab[|ab| - 1] == last;
      assert ParamParts(ab) == ParamParts(a + init) + lastPart;
      assert ParamParts(b) == ParamParts(init) + lastPart;
      ParamPartsAppend(a, init);
    }
  }

  /** One entry gives the part `key: value` when its value is non-empty, and no part otherwise. */
  lemma ParamPartsOne(key: string, value: string)
    ensures ParamParts([(key, value)]) == if value != "" then [key + ": " + value] else []
  {
    var one: Params := [(key, value)];
    assert one[..0] == [];
  }

  /** The summary of records laid end to end: the two summaries separated by
      `, `, where an empty summary contributes nothing. */
  lemma ParamSummaryAppend(a: Params, b: Params)
    ensures ParamSummary(a + b)
            == if ParamSummary(a) == "" then ParamSummary(b)
               else if ParamSummary(b) == "" then ParamSummary(a)
               else ParamSummary(a) + ", " + ParamSummary(b)
  {
    ParamPartsAppend(a, b);
    var pa, pb := ParamParts(a), ParamParts(b);
    if |pa| == 0 {
      assert pa + pb == pb;
    } else if |pb| == 0 {
      assert pa + pb == pa;
    } else {
      JoinAppend(pa, pb, ", ");
    }
  }

  /** The automated branch, over a given action registry; the engine passes `MockAutomations`. */
  function AutomatedOutput(registry: seq<AutomationAction>, data: NodeData): StepOutput {
    var action := FindAction(registry, data.actionId);
    var params := ParamsOf(data);
    var summary := ParamSummary(params);
    StepOutput(
      if action.Some?
      then action.value.title + " executed" + (if summary != "" then " (" + summary + ")" else "")
      else "Automated action executed",
      [("action", Text(if action.Some? && action.value.title != "" then action.value.title
                       else OrElse(data.actionId, "Unknown"))),
       ("parameters", if |params| > 0 then Record(params) else Text("None configured"))])
  }

  function EndOutput(data: NodeData, now: string): StepOutput {
    StepOutput(
      OrElse(data.endMessage, "Workflow completed successfully"),
      [("showSummary", Flag(data.isSummary == Some(true))), ("completedAt", Text(now))])
  }

  /** `generateNodeOutput`: one branch per kind; a node without a known kind
      falls back to `<label> processed` with empty details. `now` stands for
      the clock reading the source takes for the Start and End timestamps. */
  function GenerateNodeOutput(node: Node, now: string): StepOutput {
    match node.kind
    case Some(Start) => StartOutput(node.data, now)
    case Some(Task) => TaskOutput(node.data)
    case Some(Approval) => ApprovalOutput(node.data)
    case Some(Automated) => AutomatedOutput(MockAutomations, node.data)
    case Some(End) => EndOutput(node.data, now)
    case None => StepOutput(node.data.title + " processed", [])
  }

  // ---------------------------------------------------------------------------
  // What the synthesis promises, kind by kind, read back through `Lookup`

  lemma StartOutputSpec(node: Node, now: string)
    requires node.kind == Some(Start)
    ensures GenerateNodeOutput(node, now).output == "Workflow \"" + node.data.title + "\" initiated"
    ensures Lookup(GenerateNodeOutput(node, now).details, "trigger") == Some(Text("Manual"))
    ensures Lookup(GenerateNodeOutput(node, now).details, "timestamp") == Some(Text(now))
    ensures Keys(GenerateNodeOutput(node, now).details) == ["trigger", "timestamp"]
  {
  }

  /** With a description the output quotes it, cut at 50 characters with an
      ellipsis exactly when it is longer; without one it names the task. */
  lemma {:induction false} TaskOutputText(node: Node, now: string)
    requires node.kind == Some(Task)
    ensures var out := GenerateNodeOutput(node, now).output;
            var d := node.data.description;
            && (Truthy(d) && |d.value| <= ExcerptLength ==> out == "Task completed: " + d.value)
            && (Truthy(d) && |d.value| > ExcerptLength ==>
                  out == "Task completed: " + d.value[..ExcerptLength] + "..." && |out| == 16 + ExcerptLength + 3)
            && (!Truthy(d) ==> out == "Task \"" + node.data.title + "\" completed")
  {
  }

  /** The details hold exactly the set fields among assignee, due date and
      description, or only the status marker when none is set. */
  lemma {:induction false} TaskOutputDetails(node: Node, now: string)
    requires node.kind == Some(Task)
    ensures var details := GenerateNodeOutput(node, now).details;
            var data := node.data;
            var anySet := Truthy(data.assignee) || Truthy(data.dueDate) || Truthy(data.description);
            && (Lookup(details, "status") == if anySet then None else Some(Text("Completed successfully")))
            && (Lookup(details, "assignee") == if Truthy(data.assignee) then Some(Text(data.assignee.value)) else None)
            && (Lookup(details, "dueDate") == if Truthy(data.dueDate) then Some(Text(data.dueDate.value)) else None)
            && (Lookup(details, "description")
                  == if Truthy(data.description) then Some(Text(data.description.value)) else None)
  {
    var data := node.data;
    TaskFieldLookup(data, "status");
    TaskFieldLookup(data, "assignee");
    TaskFieldLookup(data, "dueDate");
    TaskFieldLookup(data, "description");
  }

  /** The details name exactly the set fields, in the order assignee, due
      date, description, or only `status` when none is set. */
  lemma TaskOutputKeys(node: Node, now: string)
    requires node.kind == Some(Task)
    ensures var data := node.data;
            var present := (if Truthy(data.assignee) then ["assignee"] else [])
                         + (if Truthy(data.dueDate) then ["dueDate"] else [])
                         + (if Truthy(data.description) then ["description"] else []);
            Keys(GenerateNodeOutput(node, now).details) == if |present| > 0 then present else ["status"]
  {
    var data := node.data;
    var a, d, e := IfSet("assignee", data.assignee), IfSet("dueDate", data.dueDate),
                   IfSet("description", data.description);
    assert GenerateNodeOutput(node, now) == TaskOutput(data);
    KeysAppend(a + d, e);
    KeysAppend(a, d);
    assert Keys(a) == if Truthy(data.assignee) then ["assignee"] else [];
    assert Keys(d) == if Truthy(data.dueDate) then ["dueDate"] else [];
    assert Keys(e) == if Truthy(data.description) then ["description"] else [];
  }

  /** A key of the task's field entries reads the one `IfSet` that names it. */
  lemma TaskFieldLookup(data: NodeData, key: string)
    ensures var a, d, e := IfSet("assignee", data.assignee), IfSet("dueDate", data.dueDate),
                           IfSet("description", data.description);
            Lookup(a + d + e, key)
              == if Lookup(a, key).Some? then Lookup(a, key)
                 else if Lookup(d, key).Some? then Lookup(d, key) else Lookup(e, key)
  {
    var a, d, e := IfSet("assignee", data.assignee), IfSet("dueDate", data.dueDate),
                   IfSet("description", data.description);
    LookupAppend(a + d, e, key);
    LookupAppend(a, d, key);
  }

  /** The approver defaults to Manager in both the output and the details;
      the threshold entry appears, `$`-prefixed, exactly when it is non-zero. */
  lemma {:induction false} ApprovalOutputSpec(node: Node, now: string)
    requires node.kind == Some(Approval)
    ensures var r := GenerateNodeOutput(node, now);
            var approver := if Truthy(node.data.approverRole) then node.data.approverRole.value else "Manager";
            var t := node.data.autoApproveThreshold;
            && r.output == "Approved by " + approver
            && Lookup(r.details, "approvedBy") == Some(Text(approver))
            && Lookup(r.details, "decision") == Some(Text("Approved"))
            && (Lookup(r.details, "autoApproveThreshold")
                  == if t.Some? && t.value != 0 then Some(Text("$" + IntToString(t.value))) else None)
    ensures Keys(GenerateNodeOutput(node, now).details)
            == ["approvedBy", "decision"]
               + (if node.data.autoApproveThreshold.Some? && node.data.autoApproveThreshold.value != 0
                  then ["autoApproveThreshold"] else [])
  {
    var approver := OrElse(node.data.approverRole, "Manager");
    var base := [("approvedBy", Text(approver)), ("decision", Text("Approved"))];
    LookupSome(base, "autoApproveThreshold");
    if HasThreshold(node.data) {
      var extra := [("autoApproveThreshold", Text("$" + IntToString(node.data.autoApproveThreshold.value)))];
      LookupAppend(base, extra, "approvedBy");
      LookupAppend(base, extra, "decision");
      LookupAppend(base, extra, "autoApproveThreshold");
    }
  }

  /** Registry ids are non-empty and pairwise distinct. */
  lemma RegistryIds()
    ensures forall i :: 0 <= i < |MockAutomations| ==> MockAutomations[i].id != ""
    ensures forall j, k :: 0 <= j < k < |MockAutomations| ==> MockAutomations[j].id != MockAutomations[k].id
  {
  }

  /** Every registry action has a non-empty label, so a found action's label
      is never skipped by the `||` fallback. */
  lemma RegistryTitlesNonEmpty()
    ensures forall i :: 0 <= i < |MockAutomations| ==> MockAutomations[i].title != ""
  {
  }

  /** A registered action reports its label and, when some parameter is
      non-empty, the summary in parentheses; an unregistered one reports a
      generic text. */
  lemma {:induction false} AutomatedOutputText(registry: seq<AutomationAction>, data: NodeData)
    ensures var out := AutomatedOutput(registry, data).output;
            var action := FindAction(registry, data.actionId);
            var params := ParamsOf(data);
            var anyValue := exists i :: 0 <= i < |params| && params[i].1 != "";
            && (action.None? ==> out == "Automated action executed")
            && (action.Some? && !anyValue ==> out == action.value.title + " executed")
            && (action.Some? && anyValue ==> out == action.value.title + " executed (" + ParamSummary(params) + ")")
  {
  }

  /** `details.action` falls back from the action's label to the action id to
      `Unknown`; `details.parameters` is the whole parameter record, or
      `None configured` when it has no entries. */
  lemma {:induction false} AutomatedOutputDetails(registry: seq<AutomationAction>, data: NodeData)
    requires forall i :: 0 <= i < |registry| ==> registry[i].title != ""
    ensures var details := AutomatedOutput(registry, data).details;
            var action := FindAction(registry, data.actionId);
            && (action.Some? ==> Lookup(details, "action") == Some(Text(action.value.title)))
            && (action.None? && Truthy(data.actionId) ==>
                  Lookup(details, "action") == Some(Text(data.actionId.value)))
            && (action.None? && !Truthy(data.actionId) ==> Lookup(details, "action") == Some(Text("Unknown")))
            && (|ParamsOf(data)| > 0 ==> Lookup(details, "parameters") == Some(Record(ParamsOf(data))))
            && (|ParamsOf(data)| == 0 ==> Lookup(details, "parameters") == Some(Text("None configured")))
    ensures Keys(AutomatedOutput(registry, data).details) == ["action", "parameters"]
  {
  }

  /** An automated node is described over the built-in registry, in which
      every action has a label. */
  lemma AutomatedNodeOutput(node: Node, now: string)
    requires node.kind == Some(Automated)
    ensures GenerateNodeOutput(node, now) == AutomatedOutput(MockAutomations, node.data)
    ensures forall i :: 0 <= i < |MockAutomations| ==> MockAutomations[i].title != ""
  {
    RegistryTitlesNonEmpty();
  }

  lemma EndOutputSpec(node: Node, now: string)
    requires node.kind == Some(End)
    ensures var r := GenerateNodeOutput(node, now);
            && r.output == (if Truthy(node.data.endMessage) then node.data.endMessage.value
                            else "Workflow completed successfully")
            && Lookup(r.details, "showSummary") == Some(Flag(node.data.isSummary == Some(true)))
            && Lookup(r.details, "completedAt") == Some(Text(now))
    ensures Keys(GenerateNodeOutput(node, now).details) == ["showSummary", "completedAt"]
  {
  }

  /** A node without one of the five kinds is reported as processed, with no details. */
  lemma UnknownKindOutput(node: Node, now: string)
    requires node.kind.None?
    ensures GenerateNodeOutput(node, now) == StepOutput(node.data.title + " processed", [])
  {
  }

  /** Records whose keys are pairwise distinct never name a key twice. */
  lemma DistinctKeysFromKeys<V>(entries: seq<(string, V)>)
    requires forall i, j :: 0 <= i < j < |Keys(entries)| ==> Keys(entries)[i] != Keys(entries)[j]
    ensures DistinctKeys(entries)
  {
    forall i, j | 0 <= i < j < |entries| ensures entries[i].0 != entries[j].0 {
      assert Keys(entries)[i] == entries[i].0 && Keys(entries)[j] == entries[j].0;
    }
  }

  /** A step's output text is non-empty and its details never name a key twice. */
  ghost predicate WellFormed(out: StepOutput) {
    |out.output| > 0 && DistinctKeys(out.details)
  }

  lemma TaskStepWellFormed(node: Node, now: string)
    requires node.kind == Some(Task)
    ensures WellFormed(GenerateNodeOutput(node, now))
  {
    TaskOutputKeys(node, now);
    DistinctKeysFromKeys(GenerateNodeOutput(node, now).details);
  }

  lemma ApprovalStepWellFormed(node: Node, now: string)
    requires node.kind == Some(Approval)
    ensures WellFormed(GenerateNodeOutput(node, now))
  {
    ApprovalOutputSpec(node, now);
    DistinctKeysFromKeys(GenerateNodeOutput(node, now).details);
  }

  lemma AutomatedStepWellFormed(node: Node, now: string)
    requires node.kind == Some(Automated)
    ensures WellFormed(GenerateNodeOutput(node, now))
  {
    AutomatedNodeOutput(node, now);
    AutomatedOutputDetails(MockAutomations, node.data);
    DistinctKeysFromKeys(GenerateNodeOutput(node, now).details);
  }

  /** Every step has a non-empty output text, and its details never name a key twice. */
  lemma StepOutputWellFormed(node: Node, now: string)
    ensures |GenerateNodeOutput(node, now).output| > 0
    ensures DistinctKeys(GenerateNodeOutput(node, now).details)
  {
    var out := GenerateNodeOutput(node, now);
    match node.kind
    case Some(Start) =>
      StartOutputSpec(node, now);
      DistinctKeysFromKeys(out.details);
    case Some(Task) =>
      TaskStepWellFormed(node, now);
    case Some(Approval) =>
      ApprovalStepWellFormed(node, now);
    case Some(Automated) =>
      AutomatedStepWellFormed(node, now);
    case Some(End) =>
      EndOutputSpec(node, now);
      DistinctKeysFromKeys(out.details);
    case None =>
  }

  // ---------------------------------------------------------------------------
  // The simulation result

  datatype StepStatus = Completed | Pending | Failed

  /** A `SimulationStep`; `node` is the node's label and `nodeType` its `type`. */
  datatype SimulationStep = SimulationStep(step: nat, nodeId: string, node: string, nodeType: string,
                                           status: StepStatus, output: string, details: Details)

  datatype SimulationResult = SimulationResult(success: bool, steps: seq<SimulationStep>, totalDuration: string)

  /** `node.type || 'unknown'`. */
  function TypeName(kind: Option<NodeKind>): string {
    match kind
    case Some(Start) => "start"
    case Some(Task) => "task"
    case Some(Approval) => "approval"
    case Some(Automated) => "automated"
    case Some(End) => "end"
    case None => "unknown"
  }

  /** `${(count * 0.5).toFixed(1)}s`, computed on integers: half the count,
      then `.0` or `.5`. */
  function DurationText(count: nat): string {
    NatToString(count / 2) + "." + (if count % 2 == 0 then "0" else "5") + "s"
  }

  /** Reads a duration `<digits>.<digit>s` back as a number of tenths. */
  function DurationTenths(text: string): Option<nat> {
    if |text| < 4 || text[|text| - 1] != 's' || text[|text| - 3] != '.' then None
    else
      var whole := text[..|text| - 3];
      var tenth := text[|text| - 2];
      if CanonicalDigits(whole) && IsDigit(tenth)
      then Some(10 * DigitsValue(whole) + ((tenth as int) - ('0' as int)))
      else None
  }

  /** The duration text denotes 0.5 time units per step. */
  lemma DurationRoundTrip(count: nat)
    ensures DurationTenths(DurationText(count)) == Some(5 * count)
  {
    var whole := NatToString(count / 2);
    NatToStringRoundTrip(count / 2);
    var text := DurationText(count);
    assert text[..|text| - 3] == whole;
  }

  /** `w.t` tenths equal `count` halves exactly when `w` is half the count
      and `t` is `0` or `5` by its parity. */
  lemma HalvesAsTenths(w: nat, t: nat, count: nat)
    requires t < 10 && 10 * w + t == 5 * count
    ensures w == count / 2 && t == (if count % 2 == 0 then 0 else 5)
  {
  }

  /** The reading is exact: the only text that reads as `5 * count` tenths
      is the duration text for `count` steps, so the text has no leading
      zero and its digit after the point is `0` or `5`. */
  lemma DurationTextUnique(count: nat, text: string)
    ensures DurationTenths(text) == Some(5 * count) <==> text == DurationText(count)
  {
    DurationRoundTrip(count);
    if DurationTenths(text) == Some(5 * count) {
      var whole, point := text[..|text| - 3], text[|text| - 2];
      CanonicalDigitsUnique(whole);
      HalvesAsTenths(DigitsValue(whole), (point as int) - ('0' as int), count);
      assert point == (if count % 2 == 0 then '0' else '5');
      assert text == whole + "." + [point] + "s";
    }
  }

  function MakeStep(index: nat, node: Node, now: string): SimulationStep {
    var out := GenerateNodeOutput(node, now);
    SimulationStep(index + 1, node.id, node.data.title, TypeName(node.kind), Completed, out.output, out.details)
  }

  /** The `orderedNodes.map(...)` and the result record around it. */
  function AssembleResult(ordered: seq<Node>, now: string): (r: SimulationResult)
    ensures r.success && |r.steps| == |ordered|
    ensures forall i :: 0 <= i < |ordered| ==>
              && r.steps[i].step == i + 1
              && r.steps[i].nodeId == ordered[i].id
              && r.steps[i].node == ordered[i].data.title
              && r.steps[i].nodeType == TypeName(ordered[i].kind)
              && r.steps[i].status == Completed
              && StepOutput(r.steps[i].output, r.steps[i].details) == GenerateNodeOutput(ordered[i], now)
    ensures DurationTenths(r.totalDuration) == Some(5 * |ordered|)
  {
    DurationRoundTrip(|ordered|);
    var steps := seq(|ordered|, i requires 0 <= i < |ordered| => MakeStep(i, ordered[i], now));
    SimulationResult(true, steps, DurationText(|steps|))
  }

  /** `simulateWorkflow`, once its delay has elapsed: traverse, then number and
      describe every reached node. */
  method SimulateWorkflow(nodes: seq<Node>, edges: seq<Edge>, now: string) returns (r: SimulationResult)
    ensures r == AssembleResult(Traversal.Traverse(nodes, edges), now)
    ensures |r.steps| == |Traversal.Traverse(nodes, edges)|
    ensures forall i :: 0 <= i < |r.steps| ==>
              r.steps[i].nodeId == Traversal.Traverse(nodes, edges)[i].id && r.steps[i].step == i + 1
  {
    var orderedNodes := Traversal.TraverseWorkflow(nodes, edges);
    r := AssembleResult(orderedNodes, now);
  }
}
