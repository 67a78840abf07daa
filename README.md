# HR workflow designer: the workflow engine in Dafny

This project models the engine behind the HR workflow designer. A workflow is
a snapshot of a graph: a list of nodes and a list of edges. Each node is one
of five kinds (Start, Task, Approval, Automated, End) and carries a data
record. The model covers four parts of the designer:

- **Traversal and simulation** (`src/api/mockApi.ts`).
  - `traverseWorkflow` is a breadth-first walk from the first Start node. It
    keeps a visited set and a FIFO queue.
  - `generateNodeOutput` writes the output text and details of each step.
  - `simulateWorkflow` numbers the steps and computes the total duration.
  - `MOCK_AUTOMATIONS` is the registry of automated actions.
- **The simulation panel** (`src/components/panels/SimulationPanel.tsx`).
  - The live validation message.
  - The Start/End guard and the state updates of `handleSimulate`.
  - The disabled state of the run button.
- **The properties panel** (`src/components/panels/PropertiesPanel.tsx`).
  - The selected node.
  - The shallow merge of a form's partial data into the selected node.
- **The automated-step form** (`src/components/panels/forms/AutomatedNodeForm.tsx`).
  - The parameter-label humaniser.
  - The parameter-record update.
  - The selected registry action.

Modules, one per file:

| file | module | contents |
|---|---|---|
| `workflow_types.dfy` | `WorkflowTypes` | node kinds, node data, edges, registry actions; ordered records (`Lookup`, `Keys`); the two `find` lookups |
| `strings.dfy` | `Strings` | decimal rendering of integers with its reading partner; `join` |
| `traversal.dfy` | `Traversal` | the imperative breadth-first search, proved equal to a recursive specification `Traverse`, and the properties of `Traverse` |
| `mock_api.dfy` | `MockApi` | the registry, per-kind output synthesis, the result assembly and `SimulateWorkflow` |
| `simulation_panel.dfy` | `SimulationPanel` | the validator as a loop proved against `Validation`, the guard, `isDisabled`, and the panel state as a class |
| `properties_panel.dfy` | `PropertiesPanel` | partial records, the merge, the selection and `onNodeDataChange` |
| `automated_node_form.dfy` | `AutomatedNodeForm` | the label humaniser against a one-pass reference, `handleParamChange`, the parameter display and `selectedAction` |
| `scenarios.dfy` | `Scenarios` | worked graphs, each checked end to end |

JavaScript behaviour that the model writes out explicitly:

- **Truthiness.** An empty string counts as absent (`Truthy`, `OrElse`). A
  threshold of 0 counts as absent (`HasThreshold`). `data.isSummary || false`
  is true only for an explicit `true`.
- **Ordered records.** `actionParams`, `details` and the parameter map are
  sequences of key/value pairs in insertion order. A read returns the first
  entry with the key. A spread overwrites an existing key in place and
  appends a new one (`SetParam`).
- **`new Map(nodes.map(...))`.** When ids repeat, the last node with an id
  wins (`NodeIndex`, `NodeIndexHoldsLast`). The traversal therefore starts
  with the node that the map holds under the first Start node's id. That
  node is the Start node itself exactly when the last node with that id is
  the Start node (`TraverseBeginsAtStart`); a later node that merely reuses
  the id replaces it.
- **Dangling edges.** An edge target that is not a node is still marked
  visited, and its outgoing edges are still followed, but it never appears
  in the result. In the validator, any edge counts toward incoming and
  outgoing membership.
- **Duration.** `(N * 0.5).toFixed(1)` is computed on integers:
  `N / 2`, then `.0` or `.5`, then `s` (`DurationText`). Reading the text back
  gives `5 * N` tenths (`DurationRoundTrip`). The reader accepts only
  digits without a leading zero, so this text is the only one that reads as
  `5 * N` tenths (`DurationTextUnique`). Numbers in text are likewise
  written without leading zeros (`CanonicalDigits`, `IntToStringUnique`).

## Model

| member | source | states |
|---|---|---|
| WorkflowTypes.FirstOfKind | src/api/mockApi.ts:124 | No node is found exactly when no node has the kind; otherwise the result is the node at the first index holding that kind. |
| WorkflowTypes.FindAction | src/api/mockApi.ts:76 | Nothing is found exactly when no action has the id (an undefined id matches none); otherwise the result is the first action with that id. |
| WorkflowTypes.LookupAppend | src/api/mockApi.ts:62-68 | Reading a key from a record extended by further entries gives the earlier entry when there is one, else the later entry. |
| Strings.NatToStringRoundTrip | src/api/mockApi.ts:180 | The decimal digits of a natural number, read back, denote that number. |
| Strings.IntToString | src/api/mockApi.ts:67 | A non-negative integer renders as digits denoting it, with no leading zero unless it is 0. A negative one renders as `-` followed by such digits denoting its magnitude. |
| Strings.CanonicalDigitsUnique | src/api/mockApi.ts:67 | Digits without a leading zero are exactly the rendering of the number they denote, so each number has one spelling. |
| Strings.IntToStringUnique | src/api/mockApi.ts:67 | Any text of the form `IntToString` promises is `IntToString(i)` itself: `$007` can never stand for a threshold of 7. |
| Strings.Join | src/api/mockApi.ts:81 | When every part is non-empty, the join is empty exactly when there are no parts. |
| Strings.JoinAppend | src/api/mockApi.ts:81 | Joining two non-empty lists gives the two joins with one separator between them. With `Join([]) == ""` and `Join([p]) == p`, this fixes the join as the parts in order separated by `sep`. |
| Traversal.NodeIndex | src/api/mockApi.ts:112 | The node map has a key exactly for each node id; each entry is a node of the list stored under its own id. |
| Traversal.NodeIndexLastWins | src/api/mockApi.ts:112 | A node that no later node shares an id with is the entry under its id. |
| Traversal.NodeIndexEntryIsLast | src/api/mockApi.ts:112 | The entry under every id is the last node of the list with that id. |
| Traversal.NodeIndexHoldsLast | src/api/mockApi.ts:112 | A node is the entry under its id exactly when it is the last node with that id. |
| Traversal.Adjacency | src/api/mockApi.ts:116-121 | The successors listed for every id are the targets of that id's edges, in edge-list order. |
| Traversal.TargetsAreEdges | src/api/mockApi.ts:116-121 | `t` is listed as a successor of `id` exactly when the edge `id -> t` is in the list. |
| Traversal.Unvisited | src/api/mockApi.ts:144-148 | An id is pushed exactly when it is a successor that is not yet visited. |
| Traversal.BuildNodeMap | src/api/mockApi.ts:112 | The loop builds the node map `NodeIndex`. |
| Traversal.BuildEdgeMap | src/api/mockApi.ts:113-121 | The `forEach` over edges builds the adjacency list `Adjacency`. |
| Traversal.EnqueueUnvisited | src/api/mockApi.ts:143-148 | The queue grows by exactly the unvisited successors, in order. |
| Traversal.Explore | src/api/mockApi.ts:127-149 | The `while` loop as a recursion over the queue and the visited set. It has no contract of its own; `ExploreSkips`, `ExploreVisits`, `ExploreEmitsFreshEntries`, `ExploreReachable` and `ExploreComplete` state what it does. |
| Traversal.Traverse | src/api/mockApi.ts:124-149 | Empty without a Start node, else the exploration from the first Start node's id. Its contract is given by `TraverseBeginsAtStart`, `TraverseVisitsEachNodeOnce`, `TraverseIsReachableNodes` and `TraverseWorkflow`. |
| Traversal.ExploreSkips | src/api/mockApi.ts:133-134 | Unfolding of one loop round, used as a proof step: popping an already visited id emits nothing. |
| Traversal.ExploreVisits | src/api/mockApi.ts:136-148 | Unfolding of one loop round, used as a proof step: popping an unvisited id emits its node, when the id is a node, ahead of what the rest of the queue plus its unvisited successors give once it is visited. |
| Traversal.TraverseWorkflow | src/api/mockApi.ts:111-152 | The imperative breadth-first search returns exactly `Traverse(nodes, edges)`. |
| Traversal.ExploreEmitsFreshEntries | src/api/mockApi.ts:134-140 | Every emitted node is the map entry of an id not visited before, and no id is emitted twice. |
| Traversal.ExploreReachable | src/api/mockApi.ts:143-148 | Every node emitted from queued ids that are reachable from `from` is itself reachable from `from`. |
| Traversal.ExploreComplete | src/api/mockApi.ts:132-149 | Every node reachable from a visited or queued id, and not yet visited, is emitted. |
| Traversal.TraverseBeginsAtStart | src/api/mockApi.ts:124-133 | The traversal is empty exactly when there is no Start node. Otherwise it begins with the map entry under the first Start node's id. That entry is the Start node exactly when the Start node is the last node with its id. |
| Traversal.TraverseVisitsEachNodeOnce | src/api/mockApi.ts:134-140 | Every traversed step is a node of the list, so a dangling edge target never appears, and no id appears twice. |
| Traversal.TraverseIsReachableNodes | src/api/mockApi.ts:116-149 | A node id appears exactly when it is a node's id with an edge path from the first Start node. |
| Traversal.TraverseSkipsUnreachable | src/api/mockApi.ts:143-148 | A node with no edge path from the first Start node never appears. |
| MockApi.RegistryIds | src/api/mockApi.ts:4-9 | Registry ids are non-empty and pairwise distinct. |
| MockApi.RegistryTitlesNonEmpty | src/api/mockApi.ts:4-9 | Every registry action has a non-empty label. |
| MockApi.StartOutput | src/api/mockApi.ts:42-46 | The Start branch. It has no contract of its own; `StartOutputSpec` states it. |
| MockApi.TaskOutput | src/api/mockApi.ts:48-59 | The Task branch. It has no contract of its own; `TaskOutputText`, `TaskOutputDetails` and `TaskOutputKeys` state it. |
| MockApi.ApprovalOutput | src/api/mockApi.ts:61-73 | The Approval branch. It has no contract of its own; `ApprovalOutputSpec` states it. |
| MockApi.AutomatedOutput | src/api/mockApi.ts:75-91 | The Automated branch over a given registry. It has no contract of its own; `AutomatedOutputText` and `AutomatedOutputDetails` state it. |
| MockApi.EndOutput | src/api/mockApi.ts:93-100 | The End branch. It has no contract of its own; `EndOutputSpec` states it. |
| MockApi.GenerateNodeOutput | src/api/mockApi.ts:37-108 | Dispatches on the node's kind. Its contract is given by the per-kind lemmas, `UnknownKindOutput` and `StepOutputWellFormed`. |
| MockApi.StepOutputWellFormed | src/api/mockApi.ts:37-108 | Every kind gives a non-empty output text, and no step's details name a key twice. |
| MockApi.StartOutputSpec | src/api/mockApi.ts:42-46 | A Start step reports `Workflow "<label>" initiated`. Its details are exactly `trigger` (manual) and `timestamp` (the clock reading), in that order. |
| MockApi.TaskOutputText | src/api/mockApi.ts:55-57 | With a description, the output is `Task completed: ` plus the description, cut at 50 characters with `...` exactly when it is longer (16 + 50 + 3 characters). Without one, the output is `Task "<label>" completed`. |
| MockApi.TaskOutputDetails | src/api/mockApi.ts:49-58 | Each of assignee, due date and description reads as its value exactly when it is truthy. `status` reads `Completed successfully` exactly when none is set. |
| MockApi.TaskOutputKeys | src/api/mockApi.ts:49-58 | The detail keys are exactly the set fields, in the order assignee, due date, description, or only `status` when none is set; no other key occurs. |
| MockApi.ApprovalOutputSpec | src/api/mockApi.ts:61-73 | The output is `Approved by <role or Manager>`. The details always hold that approver and the decision `Approved`. They hold `$<threshold>` exactly when the threshold is present and non-zero. The keys are exactly `approvedBy`, `decision` and, in that case, `autoApproveThreshold`. |
| MockApi.ParamParts | src/api/mockApi.ts:78-80 | There are no parts exactly when every parameter value is empty, and no part is empty. |
| MockApi.ParamPartsOne | src/api/mockApi.ts:78-80 | One entry gives the part `key: value` when its value is non-empty, and no part when it is empty. |
| MockApi.ParamPartsAppend | src/api/mockApi.ts:78-80 | The parts of two records laid end to end are the parts of the first followed by those of the second. With `ParamPartsOne`, the parts are `k: v` for exactly the non-empty entries, in entry order. |
| MockApi.ParamSummary | src/api/mockApi.ts:78-81 | The summary is empty exactly when every parameter value is empty. |
| MockApi.ParamSummaryAppend | src/api/mockApi.ts:78-81 | The summary of two records laid end to end is the two summaries separated by `, `, where an empty summary adds nothing. The summary is therefore the `k: v` parts of the non-empty entries, in order, separated by `, `. |
| MockApi.AutomatedOutputText | src/api/mockApi.ts:75-86 | A found action gives `<label> executed`, with ` (<summary>)` exactly when some parameter value is non-empty; an action that is not found gives `Automated action executed`. |
| MockApi.AutomatedOutputDetails | src/api/mockApi.ts:87-90 | `action` falls back from the action's label to the truthy action id to `Unknown`. `parameters` is the whole record when it has entries, else `None configured`. The keys are exactly `action` and `parameters`. |
| MockApi.AutomatedNodeOutput | src/api/mockApi.ts:75-76 | An automated node is described over the built-in registry, in which every label is non-empty. |
| MockApi.EndOutputSpec | src/api/mockApi.ts:93-100 | The output is the end message, or `Workflow completed successfully` when it is not set. `showSummary` is true only for an explicit true, and `completedAt` is the clock reading. These are the only two keys. |
| MockApi.UnknownKindOutput | src/api/mockApi.ts:102-106 | A node of no known kind gives `<label> processed` with empty details. |
| MockApi.TypeName | src/api/mockApi.ts:169 | The node's type name, or `unknown` when it has none. It has no contract of its own; `AssembleResult` states where it is used. |
| MockApi.DurationText | src/api/mockApi.ts:180 | `(N * 0.5).toFixed(1)` followed by `s`, on integers. `DurationRoundTrip` is its partner. |
| MockApi.MakeStep | src/api/mockApi.ts:164-175 | One entry of the step map. It has no contract of its own; `AssembleResult` states every field. |
| MockApi.DurationRoundTrip | src/api/mockApi.ts:180 | The duration text for `N` steps reads back as `5 * N` tenths, i.e. `N * 0.5` to one decimal. |
| MockApi.DurationTextUnique | src/api/mockApi.ts:180 | A text reads as `5 * N` tenths exactly when it is the duration text for `N` steps. No text with a leading zero or with a digit other than `0` or `5` after the point qualifies. |
| MockApi.AssembleResult | src/api/mockApi.ts:164-181 | The result is successful. It has one step per traversed node, in order. Step `i` is numbered `i + 1`; it carries the node's id, label and type (`unknown` when none), status completed, and that node's output and details. The duration reads as `5 * N` tenths, which by `DurationTextUnique` fixes it as the `toFixed(1)` text. |
| MockApi.SimulateWorkflow | src/api/mockApi.ts:158-181 | The result is the assembly over the traversal, so step `i` carries the id of the `i`-th traversed node and the number `i + 1`. |
| SimulationPanel.ConnectivityCheck | src/components/panels/SimulationPanel.tsx:38-49 | The per-node loop as a recursion. It has no contract of its own; `ConnectivityAllConnected` and `ConnectivityFirstFailure` state it. |
| SimulationPanel.Validation | src/components/panels/SimulationPanel.tsx:18-50 | `validationResult` as a function. It has no contract of its own; `MessagePrecedence`, `ValidExactlyWhenConnected` and `FirstFailureReported` state it. |
| SimulationPanel.ValidateWorkflow | src/components/panels/SimulationPanel.tsx:18-50 | The `some` checks, the two endpoint sets built once, and the loop with early returns compute exactly `Validation(nodes, edges)`. |
| SimulationPanel.MessagePrecedence | src/components/panels/SimulationPanel.tsx:19-31 | An empty graph, and only an empty graph, gets `Add nodes to the canvas`. A missing End node is reported before a missing Start node. Once an End node exists the End message is never returned. |
| SimulationPanel.ValidExactlyWhenConnected | src/components/panels/SimulationPanel.tsx:19-49 | The graph is valid exactly when it is non-empty and has an End and a Start node. In addition, every non-Start node must be some edge's target and every non-End node some edge's source. Any edge counts, wherever its other end points. |
| SimulationPanel.ConnectivityAllConnected | src/components/panels/SimulationPanel.tsx:38-49 | The per-node pass passes, with `Ready to simulate`, exactly when every node is connected. |
| SimulationPanel.ConnectivityFirstFailure | src/components/panels/SimulationPanel.tsx:38-47 | The pass reports the first unconnected node; for it, a missing incoming edge is reported before a missing outgoing one. |
| SimulationPanel.FirstFailureReported | src/components/panels/SimulationPanel.tsx:38-47 | On a graph with both endpoints, the message is that of the first unconnected node in list order, incoming before outgoing. |
| SimulationPanel.ReportedNodeFailsItsCheck | src/components/panels/SimulationPanel.tsx:40-45 | A node reported for a missing incoming edge is never a Start node. A node reported for a missing outgoing edge is never an End node, and it lacks an outgoing edge. |
| SimulationPanel.ConnectivityMessagesAreQuoted | src/components/panels/SimulationPanel.tsx:41-45 | A connectivity message starts with a quote, so it never coincides with a fixed message. |
| SimulationPanel.SimulateGuard | src/components/panels/SimulationPanel.tsx:57-69 | The guard's error, Start checked before End. It has no contract of its own; `GuardAgainstValidation` states it. |
| SimulationPanel.IsDisabled | src/components/panels/SimulationPanel.tsx:86 | Disabled while a run is in progress or while the graph is invalid. It has no contract of its own; `EnabledButtonPassesGuard` states it. |
| SimulationPanel.GuardAgainstValidation | src/components/panels/SimulationPanel.tsx:57-69 | The guard lets a graph through exactly when it has a Start and an End node, so every valid graph passes. A graph with neither gets the Start error from the guard but the End message from the validator. |
| SimulationPanel.EnabledButtonPassesGuard | src/components/panels/SimulationPanel.tsx:86 | An enabled button means no run is in progress and the guard will not stop the run. |
| SimulationPanel.PanelState.constructor | src/components/panels/SimulationPanel.tsx:8-11 | Not simulating, results hidden, no results, no error. |
| SimulationPanel.PanelState.HandleSimulate | src/components/panels/SimulationPanel.tsx:57-73 | A failed guard sets its error and shows the results, and nothing else changes. A passed guard clears the error, starts a run on the snapshot and shows the results. |
| SimulationPanel.PanelState.CompleteSimulation | src/components/panels/SimulationPanel.tsx:75-83 | The run's snapshot is simulated, its result stored, and the run ends; the error and visibility are untouched. |
| PropertiesPanel.SelectedNode | src/components/panels/PropertiesPanel.tsx:15-17 | No node is selected exactly when the selection is empty; otherwise the first selected node is. |
| PropertiesPanel.MergeData | src/components/panels/PropertiesPanel.tsx:28-31 | Every key present in the partial record takes its value, `undefined` included, and every other key keeps its old value. |
| PropertiesPanel.MergedFromUnique | src/components/panels/PropertiesPanel.tsx:28-31 | That field-wise description determines the merge: a record satisfies it exactly when it is the merge. |
| PropertiesPanel.MergeComposes | src/components/panels/PropertiesPanel.tsx:28-31 | Two merges in a row equal one merge of the combined partial record; merging twice equals merging once; the empty record changes nothing. |
| PropertiesPanel.UpdateNode | src/components/panels/PropertiesPanel.tsx:24-34 | The `map` callback. It has no contract of its own; `OnNodeDataChange` states it per index. |
| PropertiesPanel.OnNodeDataChange | src/components/panels/PropertiesPanel.tsx:20-37 | With nothing selected, the list is unchanged. Otherwise the list keeps its length and order. Nodes with another id are unchanged. Nodes with the selected id keep their id and kind, and their data is the merge. |
| PropertiesPanel.OnNodeDataChangeIdempotent | src/components/panels/PropertiesPanel.tsx:23-36 | Sending the same partial data twice gives the same list as sending it once. |
| PropertiesPanel.OnNodeDataChangeComposes | src/components/panels/PropertiesPanel.tsx:23-36 | Two edits of the same selection equal one edit with the combined partial data. |
| AutomatedNodeForm.ParamLabel | src/components/panels/forms/AutomatedNodeForm.tsx:80 | The two chained `replace` calls. It has no contract of its own; `ParamLabelIsHumaniseEach` and `ParamLabelShape` state it. |
| AutomatedNodeForm.ParamLabelIsHumaniseEach | src/components/panels/forms/AutomatedNodeForm.tsx:80 | The two chained replacements equal the one-pass reference that maps each character on its own. |
| AutomatedNodeForm.HumaniseEachShape | src/components/panels/forms/AutomatedNodeForm.tsx:80 | The one-pass label has no underscore, puts a space before every capital, grows by the number of capitals, and keeps the other characters in order. |
| AutomatedNodeForm.ParamLabelShape | src/components/panels/forms/AutomatedNodeForm.tsx:80 | In the shown label every `_` is a space and every ASCII capital has a space before it. Its length is the parameter's plus the number of capitals. Apart from spaces and underscores, the characters keep their order. |
| AutomatedNodeForm.SetParam | src/components/panels/forms/AutomatedNodeForm.tsx:46 | The changed parameter reads as the new value, and every other parameter reads as before. |
| AutomatedNodeForm.SetParamKeys | src/components/panels/forms/AutomatedNodeForm.tsx:46 | The keys keep their order; a new parameter is appended at the end. |
| AutomatedNodeForm.SetParamDistinct | src/components/panels/forms/AutomatedNodeForm.tsx:46 | Setting a parameter never duplicates a key. |
| AutomatedNodeForm.ParamDisplayValue | src/components/panels/forms/AutomatedNodeForm.tsx:84 | The value shown in a parameter input, or the empty string. It has no contract of its own; `ParamDisplayAfterSet` states it. |
| AutomatedNodeForm.ParamDisplayAfterSet | src/components/panels/forms/AutomatedNodeForm.tsx:84 | An input shows what was last typed into it. Other inputs are unaffected. A parameter absent from the record shows the empty string. |
| AutomatedNodeForm.HandleParamChange | src/components/panels/forms/AutomatedNodeForm.tsx:45-49 | The new record has the typed value under the parameter and the old values elsewhere; the data sent holds only `actionParams`, set to that record. |
| AutomatedNodeForm.ParamChangeReachesSelectedNode | src/components/panels/forms/AutomatedNodeForm.tsx:45-49 | Typing into an input of the selected node changes that node's `actionParams` and nothing else in the node list. |
| AutomatedNodeForm.SelectedAction | src/components/panels/forms/AutomatedNodeForm.tsx:43 | A selected action is a loaded action with the chosen id; none is selected exactly when no loaded action has that id. |
| AutomatedNodeForm.LookupFirstAction | src/components/panels/forms/AutomatedNodeForm.tsx:43 | With distinct ids, looking up an action's id finds that action. |
| AutomatedNodeForm.RegistrySelection | src/components/panels/forms/AutomatedNodeForm.tsx:43 | Choosing a registry action selects exactly it. The placeholder choice selects nothing, and so does any choice before the registry has loaded. |
| Scenarios.LinearWorkflow | src/api/mockApi.ts:111-152 | Start -> Task -> End traverses as the three nodes in order, validates, and the task reports `Task completed: Review resume`. |
| Scenarios.LinearResult | src/api/mockApi.ts:164-180 | Simulating that graph gives three steps, with the task second, lasting `1.5s`. |
| Scenarios.MissingEnd | src/components/panels/SimulationPanel.tsx:23-26 | A lone Start node gets `Add an End node to the workflow`. |
| Scenarios.IsolatedTask | src/components/panels/SimulationPanel.tsx:38-42 | Start -> End plus an isolated task listed last reports the task's missing incoming connection. |
| Scenarios.KnownAction | src/api/mockApi.ts:75-86 | `send_email` with `to` and `subject` set gives `Send Email executed (to: a@b.com, subject: Hi)`. |
| Scenarios.UnknownAction | src/api/mockApi.ts:84-90 | An unknown action id gives `Automated action executed` and reports the raw id as the action. |

## Left out

- Timing: the `setTimeout` delays of `getAutomations` and `simulateWorkflow` are not modelled. Only the resolved values are.
- The clock: `new Date().toISOString()` is a `now` parameter, and one reading serves every step of a run.
- `Number(...)` parsing of the approval threshold (src/components/panels/forms/ApprovalNodeForm.tsx:32): the threshold is an integer. `NaN` and fractional thresholds are not modelled.
- JavaScript number formatting: integers render as plain decimal digits. Exponent notation for very large magnitudes is not modelled.
- Floating point: `toFixed(1)` on `N * 0.5` is modelled exactly, on integers.
- `substring(0, 50)` counts UTF-16 code units; the model counts characters.
- `Object.entries` lists integer-like keys first; the model keeps insertion order for every key.
- `paramValues[param]` can read an inherited prototype property such as `constructor`; the model reads own entries only.
- Node data beyond the modelled fields: `data.type`, `metadata` and `customFields` are not modelled. Detail values are strings, so non-string `actionParams` values are not modelled.
- A node type outside the five kinds is `None`, like a missing type, so its step type is `unknown` rather than the raw type string.
- Edge ids and everything reactflow adds to nodes and edges (positions, selection flags) are not modelled; edges are source/target pairs.
- SimulationPanel.PanelState.CompleteSimulation: does not model the `Simulation failed.` path, because the modelled `simulateWorkflow` always resolves.
- React rendering, hooks, memoisation, JSX and CSS are not modelled. The `capitalize` style on the parameter label is not part of the label.
- The react-hook-form `watch` subscription of the automated form, which re-sends the title and action id with the parameters, is not modelled; only `handleParamChange` is.
- PropertiesPanel.MergeData: a partial record that sets `label` to `undefined` is not modelled; the title is always a string.
- The canvas, node renderers, palette, node actions, application shell and the other node forms are not part of this model.
