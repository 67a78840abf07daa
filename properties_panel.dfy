/** The properties panel's editing side: which node is selected, and the
    shallow merge of a partial data record into the selected node
    (src/components/panels/PropertiesPanel.tsx). */
module PropertiesPanel {
  import opened WorkflowTypes

  /** One key of a partial record: absent from it (`Keep`) or present with a
      value (`Assign`). For an optional field, `Assign(None)` is a key present
      with the value `undefined`, which the spread copies over the old value. */
  datatype Update<T> = Keep | Assign(value: T)

  function Apply<T>(u: Update<T>, current: T): T {
    match u
    case Keep => current
    case Assign(v) => v
  }

  /** `u` was applied to `before` giving `after`: a present key takes the new
      value, an absent key keeps the old one. */
  predicate Takes<T(==)>(u: Update<T>, before: T, after: T) {
    (u.Assign? ==> after == u.value) && (u.Keep? ==> after == before)
  }

  /** `Partial<WorkflowNodeData>`: the `newData` a form hands to `onNodeDataChange`. */
  datatype DataPatch = DataPatch(
    title: Update<string>,
    description: Update<Option<string>>,
    assignee: Update<Option<string>>,
    dueDate: Update<Option<string>>,
    approverRole: Update<Option<string>>,
    autoApproveThreshold: Update<Option<int>>,
    actionId: Update<Option<string>>,
    actionParams: Update<Option<Params>>,
    endMessage: Update<Option<string>>,
    isSummary: Update<Option<bool>>)

  const EmptyPatch := DataPatch(Keep, Keep, Keep, Keep, Keep, Keep, Keep, Keep, Keep, Keep)

  /** Every key of `patch` is present in the merge with the patch's value, and
      every key absent from it keeps the data's value. */
  predicate MergedFrom(data: NodeData, patch: DataPatch, r: NodeData) {
    && Takes(patch.title, data.title, r.title)
    && Takes(patch.description, data.description, r.description)
    && Takes(patch.assignee, data.assignee, r.assignee)
    && Takes(patch.dueDate, data.dueDate, r.dueDate)
    && Takes(patch.approverRole, data.approverRole, r.approverRole)
    && Takes(patch.autoApproveThreshold, data.autoApproveThreshold, r.autoApproveThreshold)
    && Takes(patch.actionId, data.actionId, r.actionId)
    && Takes(patch.actionParams, data.actionParams, r.actionParams)
    && Takes(patch.endMessage, data.endMessage, r.endMessage)
    && Takes(patch.isSummary, data.isSummary, r.isSummary)
  }

  /** `{ ...node.data, ...newData }`. */
  function MergeData(data: NodeData, patch: DataPatch): (r: NodeData)
    ensures MergedFrom(data, patch, r)
  {
    NodeData(
      Apply(patch.title, data.title),
      Apply(patch.description, data.description),
      Apply(patch.assignee, data.assignee),
      Apply(patch.dueDate, data.dueDate),
      Apply(patch.approverRole, data.approverRole),
      Apply(patch.autoApproveThreshold, data.autoApproveThreshold),
      Apply(patch.actionId, data.actionId),
      Apply(patch.actionParams, data.actionParams),
      Apply(patch.endMessage, data.endMessage),
      Apply(patch.isSummary, data.isSummary))
  }

  /** The merge is determined by its field-wise description: there is exactly one result. */
  lemma MergedFromUnique(data: NodeData, patch: DataPatch, r: NodeData)
    ensures MergedFrom(data, patch, r) <==> r == MergeData(data, patch)
  {
  }

  function ThenUpdate<T>(first: Update<T>, second: Update<T>): Update<T> {
    if second.Assign? then second else first
  }

  /** `{ ...p, ...q }`: `q`'s keys win over `p`'s. */
  function Then(p: DataPatch, q: DataPatch): DataPatch {
    DataPatch(
      ThenUpdate(p.title, q.title),
      ThenUpdate(p.description, q.description),
      ThenUpdate(p.assignee, q.assignee),
      ThenUpdate(p.dueDate, q.dueDate),
      ThenUpdate(p.approverRole, q.approverRole),
      ThenUpdate(p.autoApproveThreshold, q.autoApproveThreshold),
      ThenUpdate(p.actionId, q.actionId),
      ThenUpdate(p.actionParams, q.actionParams),
      ThenUpdate(p.endMessage, q.endMessage),
      ThenUpdate(p.isSummary, q.isSummary))
  }

  /** Two merges in a row are one merge of the combined patch; merging the
      same patch twice is merging it once, and the empty patch changes nothing. */
  lemma MergeComposes(data: NodeData, p: DataPatch, q: DataPatch)
    ensures MergeData(MergeData(data, p), q) == MergeData(data, Then(p, q))
    ensures MergeData(MergeData(data, p), p) == MergeData(data, p)
    ensures MergeData(data, EmptyPatch) == data
  {
  }

  /** `nodes[0] || null`: the first node of the selection, if there is one. */
  function SelectedNode(selection: seq<Node>): (r: Option<Node>)
    ensures r.None? <==> |selection| == 0
    ensures r.Some? ==> r.value == selection[0]
  {
    if |selection| == 0 then None else Some(selection[0])
  }

  /** The callback given to `nds.map`: the node with the selected id gets its
      data merged; its id and kind are kept. */
  function UpdateNode(node: Node, selectedId: string, patch: DataPatch): Node {
    if node.id == selectedId then node.(data := MergeData(node.data, patch)) else node
  }

  /** `onNodeDataChange(newData)` applied to the node list `nodes`. */
  function OnNodeDataChange(nodes: seq<Node>, selected: Option<Node>, patch: DataPatch): (r: seq<Node>)
    ensures selected.None? ==> r == nodes
    ensures |r| == |nodes|
    ensures selected.Some? ==> forall i :: 0 <= i < |nodes| ==>
              if nodes[i].id == selected.value.id
              then r[i].id == nodes[i].id && r[i].kind == nodes[i].kind && MergedFrom(nodes[i].data, patch, r[i].data)
              else r[i] == nodes[i]
  {
    if selected.None? then nodes
    else seq(|nodes|, i requires 0 <= i < |nodes| => UpdateNode(nodes[i], selected.value.id, patch))
  }

  /** Sending the same data twice leaves the list as sending it once. */
  lemma OnNodeDataChangeIdempotent(nodes: seq<Node>, selected: Option<Node>, patch: DataPatch)
    ensures OnNodeDataChange(OnNodeDataChange(nodes, selected, patch), selected, patch)
            == OnNodeDataChange(nodes, selected, patch)
  {
    var once := OnNodeDataChange(nodes, selected, patch);
    var twice := OnNodeDataChange(once, selected, patch);
    if selected.Some? {
      forall i | 0 <= i < |nodes| ensures twice[i] == once[i] {
        MergeComposes(nodes[i].data, patch, patch);
      }
    }
  }

  /** Two edits of the same selection are one edit with the combined data. */
  lemma OnNodeDataChangeComposes(nodes: seq<Node>, selected: Option<Node>, p: DataPatch, q: DataPatch)
    ensures OnNodeDataChange(OnNodeDataChange(nodes, selected, p), selected, q)
            == OnNodeDataChange(nodes, selected, Then(p, q))
  {
    var lhs := OnNodeDataChange(OnNodeDataChange(nodes, selected, p), selected, q);
    var rhs := OnNodeDataChange(nodes, selected, Then(p, q));
    if selected.Some? {
      forall i | 0 <= i < |nodes| ensures lhs[i] == rhs[i] {
        MergeComposes(nodes[i].data, p, q);
      }
    }
  }
}
