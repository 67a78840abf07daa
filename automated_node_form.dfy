/** The automated-step form: the parameter label shown above each input, the
    parameter record it edits, and the registry action it shows parameters for
    (src/components/panels/forms/AutomatedNodeForm.tsx). */
module AutomatedNodeForm {
  import opened WorkflowTypes
  import PropertiesPanel
  import MockApi

  predicate IsUpper(c: char) {
    'A' <= c <= 'Z'
  }

  // ---------------------------------------------------------------------------
  // The label humaniser: `.replace(/([A-Z])/g, ' $1')` then `.replace(/_/g, ' ')`

  /** The first replacement: a space before every ASCII capital. */
  function SpaceBeforeCapitals(s: string): string
    decreases |s|
  {
    if |s| == 0 then ""
    else (if IsUpper(s[0]) then [' ', s[0]] else [s[0]]) + SpaceBeforeCapitals(s[1..])
  }

  /** The second replacement: every underscore becomes a space. */
  function UnderscoresToSpaces(s: string): string
    decreases |s|
  {
    if |s| == 0 then ""
    else [if s[0] == '_' then ' ' else s[0]] + UnderscoresToSpaces(s[1..])
  }

  /** The label shown for parameter `param`. */
  function ParamLabel(param: string): string {
    UnderscoresToSpaces(SpaceBeforeCapitals(param))
  }

  /** What one input character becomes in the label. */
  function Humanised(c: char): string {
    if IsUpper(c) then [' ', c] else if c == '_' then " " else [c]
  }

  /** The label written in one pass over the characters: the reference the two
      chained replacements are proved against. */
  function HumaniseEach(s: string): string
    decreases |s|
  {
    if |s| == 0 then "" else Humanised(s[0]) + HumaniseEach(s[1..])
  }

  function CountUpper(s: string): nat
    decreases |s|
  {
    if |s| == 0 then 0 else (if IsUpper(s[0]) then 1 else 0) + CountUpper(s[1..])
  }

  /** The characters that are neither spaces nor underscores, in order. */
  function Visible(s: string): string
    decreases |s|
  {
    if |s| == 0 then "" else (if s[0] == ' ' || s[0] == '_' then "" else [s[0]]) + Visible(s[1..])
  }

  lemma {:induction false} UnderscoresToSpacesAppend(a: string, b: string)
    ensures UnderscoresToSpaces(a + b) == UnderscoresToSpaces(a) + UnderscoresToSpaces(b)
    decreases |a|
  {
    if |a| == 0 {
      assert a + b == b;
    } else {
      assert (a + b)[1..] == a[1..] + b;
      UnderscoresToSpacesAppend(a[1..], b);
    }
  }

  lemma {:induction false} VisibleAppend(a: string, b: string)
    ensures Visible(a + b) == Visible(a) + Visible(b)
    decreases |a|
  {
    if |a| == 0 {
      assert a + b == b;
    } else {
      assert (a + b)[1..] == a[1..] + b;
      VisibleAppend(a[1..], b);
    }
  }

  /** The two chained replacements give the one-pass label. */
  lemma {:induction false} ParamLabelIsHumaniseEach(s: string)
    ensures ParamLabel(s) == HumaniseEach(s)
    decreases |s|
  {
    if |s| > 0 {
      var piece := if IsUpper(s[0]) then [' ', s[0]] else [s[0]];
      UnderscoresToSpacesAppend(piece, SpaceBeforeCapitals(s[1..]));
      ParamLabelIsHumaniseEach(s[1..]);
      assert UnderscoresToSpaces(piece) == Humanised(s[0]) by {
        assert UnderscoresToSpaces(piece[1..]) == UnderscoresToSpaces(piece)[1..];
      }
    }
  }

  lemma {:induction false} HumaniseEachShape(s: string)
    ensures |HumaniseEach(s)| == |s| + CountUpper(s)
    ensures forall i :: 0 <= i < |HumaniseEach(s)| ==> HumaniseEach(s)[i] != '_'
    ensures forall i :: 0 <= i < |HumaniseEach(s)| && IsUpper(HumaniseEach(s)[i]) ==> i > 0 && HumaniseEach(s)[i - 1] == ' '
    ensures Visible(HumaniseEach(s)) == Visible(s)
    decreases |s|
  {
    if |s| > 0 {
      HumaniseEachShape(s[1..]);
      var piece := Humanised(s[0]);
      var rest := HumaniseEach(s[1..]);
      assert HumaniseEach(s) == piece + rest;
      VisibleAppend(piece, rest);
      assert Visible(s) == Visible([s[0]]) + Visible(s[1..]) by {
        assert s == [s[0]] + s[1..];
        VisibleAppend([s[0]], s[1..]);
      }
      assert Visible(piece) == Visible([s[0]]) by {
        if IsUpper(s[0]) {
          assert piece == [' '] + [s[0]];
          VisibleAppend([' '], [s[0]]);
        }
      }
      forall i | 0 <= i < |piece + rest| && IsUpper((piece + rest)[i])
        ensures i > 0 && (piece + rest)[i - 1] == ' '
      {
        if i >= |piece| {
          assert (piece + rest)[i] == rest[i - |piece|];
        }
      }
    }
  }

  /** In the label every underscore has become a space, every ASCII capital
      has one space inserted before it, the length grows by the number of
      capitals, and the characters other than spaces and underscores keep
      their order. */
  lemma ParamLabelShape(param: string)
    ensures forall i :: 0 <= i < |ParamLabel(param)| ==> ParamLabel(param)[i] != '_'
    ensures forall i :: 0 <= i < |ParamLabel(param)| && IsUpper(ParamLabel(param)[i]) ==>
              i > 0 && ParamLabel(param)[i - 1] == ' '
    ensures |ParamLabel(param)| == |param| + CountUpper(param)
    ensures Visible(ParamLabel(param)) == Visible(param)
  {
    ParamLabelIsHumaniseEach(param);
    HumaniseEachShape(param);
  }

  // ---------------------------------------------------------------------------
  // The parameter record

  /** `{ ...paramValues, [paramName]: value }`: an existing key keeps its
      position and takes the new value; a new key is appended. */
  function SetParam(params: Params, name: string, value: string): (r: Params)
    ensures Lookup(r, name) == Some(value)
    ensures forall k :: k != name ==> Lookup(r, k) == Lookup(params, k)
    decreases |params|
  {
    if |params| == 0 then [(name, value)]
    else if params[0].0 == name then [(name, value)] + params[1..]
    else
      var r := [params[0]] + SetParam(params[1..], name, value);
      assert r[1..] == SetParam(params[1..], name, value);
      r
  }

  /** The record keeps its keys and their order, gaining `name` at the end
      when it was absent. */
  lemma {:induction false} SetParamKeys(params: Params, name: string, value: string)
    ensures Keys(SetParam(params, name, value)) == if name in Keys(params) then Keys(params) else Keys(params) + [name]
    decreases |params|
  {
    if |params| > 0 {
      assert params == [params[0]] + params[1..];
      KeysAppend([params[0]], params[1..]);
      if params[0].0 == name {
        KeysAppend([(name, value)], params[1..]);
      } else {
        var tail := SetParam(params[1..], name, value);
        SetParamKeys(params[1..], name, value);
        KeysAppend([params[0]], tail);
        assert SetParam(params, name, value) == [params[0]] + tail;
      }
    }
  }

  /** Setting a parameter never duplicates a key. */
  lemma SetParamDistinct(params: Params, name: string, value: string)
    requires DistinctKeys(params)
    ensures DistinctKeys(SetParam(params, name, value))
  {
    var r := SetParam(params, name, value);
    SetParamKeys(params, name, value);
    var ks := Keys(params);
    forall i, j | 0 <= i < j < |r| ensures r[i].0 != r[j].0 {
      assert r[i].0 == Keys(r)[i] && r[j].0 == Keys(r)[j];
      if j < |params| {
        assert Keys(r)[i] == ks[i] && Keys(r)[j] == ks[j];
      } else {
        assert Keys(r)[i] == ks[i];
      }
    }
  }

  /** `paramValues[param] || ''`. */
  function ParamDisplayValue(params: Params, name: string): string {
    OrElse(Lookup(params, name), "")
  }

  /** The input shows what was last typed into it; an input never typed into
      and absent from the node's record shows the empty string. */
  lemma ParamDisplayAfterSet(params: Params, name: string, value: string, other: string)
    ensures ParamDisplayValue(SetParam(params, name, value), name) == value
    ensures other != name ==> ParamDisplayValue(SetParam(params, name, value), other) == ParamDisplayValue(params, other)
    ensures other !in Keys(params) ==> ParamDisplayValue(params, other) == ""
  {
    LookupSome(params, other);
  }

  /** `handleParamChange`: the new record, and the partial data it sends to
      the properties panel (only `actionParams`). */
  function HandleParamChange(paramValues: Params, name: string, value: string): (r: (Params, PropertiesPanel.DataPatch))
    ensures r.1 == PropertiesPanel.EmptyPatch.(actionParams := PropertiesPanel.Assign(Some(r.0)))
    ensures Lookup(r.0, name) == Some(value)
    ensures forall k :: k != name ==> Lookup(r.0, k) == Lookup(paramValues, k)
  {
    var newParams := SetParam(paramValues, name, value);
    (newParams, PropertiesPanel.EmptyPatch.(actionParams := PropertiesPanel.Assign(Some(newParams))))
  }

  /** Typing into a parameter input of the selected node changes that node's
      `actionParams` and nothing else in the list. */
  lemma ParamChangeReachesSelectedNode(nodes: seq<Node>, selected: Node, name: string, value: string, i: nat)
    requires i < |nodes|
    ensures var patch := HandleParamChange(ParamsOf(selected.data), name, value).1;
            var r := PropertiesPanel.OnNodeDataChange(nodes, Some(selected), patch);
            if nodes[i].id == selected.id
            then r[i] == nodes[i].(data := nodes[i].data.(actionParams := Some(SetParam(ParamsOf(selected.data), name, value))))
            else r[i] == nodes[i]
  {
  }

  // ---------------------------------------------------------------------------
  // The selected action

  /** `actions.find(a => a.id === watch('actionId'))` over the loaded registry:
      the same lookup as `FindAction`, which the engine uses over the built-in
      registry; here it runs over whatever `getAutomations` has delivered. */
  function SelectedAction(actions: seq<AutomationAction>, actionId: Option<string>): (r: Option<AutomationAction>)
    ensures r.Some? ==> r.value in actions && actionId == Some(r.value.id)
    ensures r.None? <==> forall a :: a in actions ==> actionId != Some(a.id)
  {
    FindAction(actions, actionId)
  }

  /** Choosing a registry action selects exactly that action; the placeholder
      choice "" selects none, and no action is shown before the registry loads. */
  lemma RegistrySelection(i: nat)
    requires i < |MockApi.MockAutomations|
    ensures SelectedAction(MockApi.MockAutomations, Some(MockApi.MockAutomations[i].id)) == Some(MockApi.MockAutomations[i])
    ensures SelectedAction(MockApi.MockAutomations, Some("")).None?
    ensures SelectedAction([], Some(MockApi.MockAutomations[i].id)).None?
  {
    MockApi.RegistryIds();
    LookupFirstAction(MockApi.MockAutomations, i);
  }

  /** With distinct ids, the action found for an id is the one that has it. */
  lemma LookupFirstAction(actions: seq<AutomationAction>, i: nat)
    requires i < |actions|
    requires forall j, k :: 0 <= j < k < |actions| ==> actions[j].id != actions[k].id
    ensures FindAction(actions, Some(actions[i].id)) == Some(actions[i])
  {
  }
}
