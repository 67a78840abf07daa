/** The workflow vocabulary shared by the engine and the panels: node kinds,
    the data a node carries, edges, and the actions of the automation registry
    (src/types/workflow.ts). */
module WorkflowTypes {

  datatype Option<+T> = None | Some(value: T)

  /** The five step kinds. A node whose `type` is missing (or is none of these)
      has kind `None`. */
  datatype NodeKind = Start | Task | Approval | Automated | End

  /** An ordered string-to-string record, such as `actionParams`: entries in
      insertion order, as `Object.entries` lists them. */
  type Params = seq<(string, string)>

  /** The data record of a node. Only `title` (the source's `label`, a reserved word in Dafny) is always present; every other
      field is optional and belongs to one kind. */
  datatype NodeData = NodeData(
    title: string,
    // task
    description: Option<string>,
    assignee: Option<string>,
    dueDate: Option<string>,
    // approval
    approverRole: Option<string>,
    autoApproveThreshold: Option<int>,
    // automated
    actionId: Option<string>,
    actionParams: Option<Params>,
    // end
    endMessage: Option<string>,
    isSummary: Option<bool>)

  datatype Node = Node(id: string, kind: Option<NodeKind>, data: NodeData)

  /** A directed connection `source -> target`; its endpoints need not be node ids. */
  datatype Edge = Edge(source: string, target: string)

  /** A registry entry: id, display label (`title`) and the ordered parameter names. */
  datatype AutomationAction = AutomationAction(id: string, title: string, params: seq<string>)

  /** JavaScript truthiness of an optional string: both a missing value and "" are falsy. */
  predicate Truthy(s: Option<string>) {
    s.Some? && s.value != ""
  }

  /** `s || fallback` for an optional string. */
  function OrElse(s: Option<string>, fallback: string): string {
    if Truthy(s) then s.value else fallback
  }

  /** `data.actionParams || {}`: the node's parameter record, empty when it has none. */
  function ParamsOf(data: NodeData): Params {
    if data.actionParams.Some? then data.actionParams.value else []
  }

  /** The value of the first entry whose key is `key` (a property read on a record). */
  function Lookup<V>(entries: seq<(string, V)>, key: string): Option<V> {
    if |entries| == 0 then None
    else if entries[0].0 == key then Some(entries[0].1)
    else Lookup(entries[1..], key)
  }

  /** The keys of an ordered record, in order (`Object.keys`). */
  function Keys<V>(entries: seq<(string, V)>): (ks: seq<string>)
    ensures |ks| == |entries|
    ensures forall i :: 0 <= i < |entries| ==> ks[i] == entries[i].0
  {
    seq(|entries|, i requires 0 <= i < |entries| => entries[i].0)
  }

  /** The keys of records laid end to end are the keys of each, in order. */
  lemma KeysAppend<V>(a: seq<(string, V)>, b: seq<(string, V)>)
    ensures Keys(a + b) == Keys(a) + Keys(b)
  {
    assert forall i :: 0 <= i < |a + b| ==> Keys(a + b)[i] == (Keys(a) + Keys(b))[i];
  }

  ghost predicate DistinctKeys<V>(entries: seq<(string, V)>) {
    forall i, j :: 0 <= i < j < |entries| ==> entries[i].0 != entries[j].0
  }

  /** `nodes.find(n => n.type === kind)`: the first node of that kind, if any. */
  function FirstOfKind(nodes: seq<Node>, kind: NodeKind): (r: Option<Node>)
    ensures r.None? <==> forall i :: 0 <= i < |nodes| ==> nodes[i].kind != Some(kind)
    ensures r.Some? ==> exists i :: 0 <= i < |nodes| && nodes[i] == r.value && r.value.kind == Some(kind)
                                    && forall j :: 0 <= j < i ==> nodes[j].kind != Some(kind)
  {
    if |nodes| == 0 then None
    else if nodes[0].kind == Some(kind) then Some(nodes[0])
    else
      var r := FirstOfKind(nodes[1..], kind);
      assert forall i :: 1 <= i < |nodes| ==> nodes[i] == nodes[1..][i - 1];
      r
  }

  /** `actions.find(a => a.id === actionId)`; an undefined `actionId` matches nothing. */
  function FindAction(actions: seq<AutomationAction>, actionId: Option<string>): (r: Option<AutomationAction>)
    ensures r.None? <==> forall i :: 0 <= i < |actions| ==> actionId != Some(actions[i].id)
    ensures r.Some? ==> exists i :: 0 <= i < |actions| && actions[i] == r.value && actionId == Some(r.value.id)
                                    && forall j :: 0 <= j < i ==> actionId != Some(actions[j].id)
  {
    if |actions| == 0 then None
    else if actionId == Some(actions[0].id) then Some(actions[0])
    else
      var r := FindAction(actions[1..], actionId);
      assert forall i :: 1 <= i < |actions| ==> actions[i] == actions[1..][i - 1];
      r
  }

  /** The key lookup agrees with the first entry that has the key. */
  lemma {:induction false} LookupFirst<V>(entries: seq<(string, V)>, key: string, i: nat)
    requires i < |entries| && entries[i].0 == key
    requires forall j :: 0 <= j < i ==> entries[j].0 != key
    ensures Lookup(entries, key) == Some(entries[i].1)
  {
    if i > 0 {
      LookupFirst(entries[1..], key, i - 1);
    }
  }

  /** Reading a key of two records laid end to end: the first one wins. */
  lemma {:induction false} LookupAppend<V>(a: seq<(string, V)>, b: seq<(string, V)>, key: string)
    ensures Lookup(a + b, key) == if Lookup(a, key).Some? then Lookup(a, key) else Lookup(b, key)
  {
    if |a| > 0 {
      assert (a + b)[1..] == a[1..] + b;
      LookupAppend(a[1..], b, key);
    } else {
      assert a + b == b;
    }
  }

  /** A key that no entry has is not found, and a found key belongs to an entry. */
  lemma {:induction false} LookupSome<V>(entries: seq<(string, V)>, key: string)
    ensures Lookup(entries, key).Some? <==> key in Keys(entries)
    ensures Lookup(entries, key).Some? ==> (key, Lookup(entries, key).value) in entries
  {
    if |entries| > 0 {
      LookupSome(entries[1..], key);
      assert Keys(entries) == [entries[0].0] + Keys(entries[1..]);
    }
  }
}
