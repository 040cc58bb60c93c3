/** Project auto-selection in the worklog form: when the project select
    shows no selection, choose the project of the last written log record,
    or else the first option. Shared by the project-autoselect-bugfix
    feature and the older content script. */
module ProjectAutoselect {
  import opened Wrappers
  import opened JsValues
  import opened HtmlHelper

  const FeatureId: string := "project-autoselect-bugfix"
  const FixProjectAutoselectKey: string := "fixProjectAutoselect"

  /** `localStorage.lastWrittenDate` as `JSON.parse` sees it: missing (which
      parses the text "undefined" and throws), not JSON (throws), or a
      parsed value. */
  datatype LastWritten = Missing | Unparseable | Parsed(record: JsValue)

  /** `getLastUsedProjectId`: `record?.userProject?.projectId`, or a thrown
      `SyntaxError` (None). */
  function GetLastUsedProjectId(lastWritten: LastWritten): (r: Option<JsValue>)
    ensures r.None? <==> !lastWritten.Parsed?
    ensures lastWritten.Parsed? ==> r.value == Get(Get(lastWritten.record, "userProject"), "projectId")
    ensures lastWritten.Parsed? && !(lastWritten.record.Obj? && "userProject" in lastWritten.record.props) ==>
              r == Some(Undefined)
  {
    match lastWritten
    case Parsed(record) => Some(Get(Get(record, "userProject"), "projectId"))
    case _ => None
  }

  /** `resolveProjectValueToSelect`: the last-used project id when truthy,
      otherwise the first option's value. An exception from the parse
      propagates (None). */
  function ResolveProjectValueToSelect(lastWritten: LastWritten, firstOptionValue: string): (r: Option<JsValue>)
    ensures r.None? <==> !lastWritten.Parsed?
    ensures r.Some? && Truthy(GetLastUsedProjectId(lastWritten).value) ==> r.value == GetLastUsedProjectId(lastWritten).value
    ensures r.Some? && !Truthy(GetLastUsedProjectId(lastWritten).value) ==> r.value == Str(firstOptionValue)
  {
    match GetLastUsedProjectId(lastWritten)
    case None => None
    case Some(id) => if Truthy(id) then Some(id) else Some(Str(firstOptionValue))
  }

  /** The project select: the values of its options in document order,
      its selected index (-1 when nothing is selected), and how many change
      events were dispatched on it. */
  datatype SelectState = SelectState(options: seq<string>, selectedIndex: int, changeEvents: nat)

  /** The `value` getter: the value of the selected option, or "" when
      nothing is selected. */
  function SelectedValue(select: SelectState): string {
    if 0 <= select.selectedIndex < |select.options| then select.options[select.selectedIndex] else ""
  }

  /** The index of the first option with value `v`, or -1 when there is none. */
  function FirstIndexOf(options: seq<string>, v: string): (i: int)
    ensures -1 <= i < |options|
    ensures i == -1 <==> v !in options
    ensures i != -1 ==> options[i] == v && forall j :: 0 <= j < i ==> options[j] != v
    decreases |options|
  {
    if |options| == 0 then -1
    else if options[0] == v then 0
    else
      var k := FirstIndexOf(options[1..], v);
      if k == -1 then -1 else k + 1
  }

  /** `selectProjectOption`: the `value` setter with the value converted to
      a string, then one change event. The setter selects the first option
      with that value; when no option has it, nothing stays selected. */
  function SelectProjectOption(select: SelectState, projectValue: JsValue): (s: SelectState)
    ensures s.options == select.options
    ensures s.changeEvents == select.changeEvents + 1
    ensures ToJsString(projectValue) in select.options ==>
              && SelectedValue(s) == ToJsString(projectValue)
              && 0 <= s.selectedIndex < |select.options|
              && forall j :: 0 <= j < s.selectedIndex ==> select.options[j] != ToJsString(projectValue)
    ensures ToJsString(projectValue) !in select.options ==> s.selectedIndex == -1 && SelectedValue(s) == ""
  {
    select.(selectedIndex := FirstIndexOf(select.options, ToJsString(projectValue)),
            changeEvents := select.changeEvents + 1)
  }

  /** `tryAutoselectProjectIfNoneSelected`, given how the two element
      lookups end: nothing happens unless the select resolves, the first
      option resolves, nothing is selected and the last record parses. A
      failed select lookup is caught; a failed option lookup rejects. */
  function TryAutoselect(select: Lookup<SelectState>, firstOption: Lookup<string>, lastWritten: LastWritten)
    : (r: Option<SelectState>)
    ensures r.Some? <==> select.Found? && firstOption.Found? && select.value.selectedIndex == -1 && lastWritten.Parsed?
    ensures r.Some? ==> r.value.options == select.value.options
    ensures r.Some? ==> r.value.changeEvents == select.value.changeEvents + 1
    ensures r.Some? ==>
              var v := ToJsString(ResolveProjectValueToSelect(lastWritten, firstOption.value).value);
              && (v in select.value.options ==> SelectedValue(r.value) == v)
              && (v !in select.value.options ==> r.value.selectedIndex == -1)
  {
    if !select.Found? || !firstOption.Found? || select.value.selectedIndex != -1 then None
    else
      match ResolveProjectValueToSelect(lastWritten, firstOption.value)
      case None => None
      case Some(v) => Some(SelectProjectOption(select.value, v))
  }

  /** The option selected for an empty select: the one holding the project
      id from the last record when that id is truthy, the one holding the
      first option's value otherwise; nothing when no option holds it. */
  lemma AutoselectPrefersLastProject(select: SelectState, firstOption: string, record: JsValue)
    requires select.selectedIndex == -1
    ensures var id := Get(Get(record, "userProject"), "projectId");
            var v := if Truthy(id) then ToJsString(id) else firstOption;
            var r := TryAutoselect(Found(select), Found(firstOption), Parsed(record)).value;
            && (v in select.options ==> SelectedValue(r) == v && r.selectedIndex == FirstIndexOf(select.options, v))
            && (v !in select.options ==> r.selectedIndex == -1)
  {
  }

  /** A select that already shows a project is left untouched. */
  lemma AutoselectKeepsSelection(select: SelectState, firstOption: Lookup<string>, lastWritten: LastWritten)
    requires select.selectedIndex != -1
    ensures TryAutoselect(Found(select), firstOption, lastWritten).None?
  {
  }

  /** The feature's lifecycle: the body observer and the flag. */
  datatype FeatureState = FeatureState(observing: bool, initialized: bool)

  function Initialize(s: FeatureState): (s': FeatureState)
    ensures s'.observing && s'.initialized
  {
    FeatureState(true, true)
  }

  function Deregister(s: FeatureState): (s': FeatureState)
    ensures !s'.observing && !s'.initialized
  {
    FeatureState(false, false)
  }

  /** The observer attempts a selection on every mutation while connected. */
  function OnMutation(s: FeatureState, select: SelectState, selectLookup: Lookup<SelectState>,
                      firstOption: Lookup<string>, lastWritten: LastWritten): (r: SelectState)
    ensures !s.observing ==> r == select
    ensures s.observing && TryAutoselect(selectLookup, firstOption, lastWritten).None? ==> r == select
    ensures s.observing && selectLookup.Found? && firstOption.Found? && selectLookup.value.selectedIndex == -1
            && lastWritten.Parsed? ==>
              var v := ToJsString(ResolveProjectValueToSelect(lastWritten, firstOption.value).value);
              && r.options == selectLookup.value.options
              && r.changeEvents == selectLookup.value.changeEvents + 1
              && (v in r.options ==> SelectedValue(r) == v && r.selectedIndex == FirstIndexOf(r.options, v))
              && (v !in r.options ==> r.selectedIndex == -1 && SelectedValue(r) == "")
  {
    if !s.observing then select
    else
      match TryAutoselect(selectLookup, firstOption, lastWritten)
      case None => select
      case Some(selected) => selected
  }

  /** After deregistering, mutations leave the select alone. */
  lemma DeregisteredIgnoresMutations(s: FeatureState, select: SelectState, selectLookup: Lookup<SelectState>,
                                     firstOption: Lookup<string>, lastWritten: LastWritten)
    ensures OnMutation(Deregister(s), select, selectLookup, firstOption, lastWritten) == select
  {
  }

  /** After initializing, a mutation over an empty select selects the first
      option holding the resolved project, with one change event; when no
      option holds it, the select stays empty and reads "". */
  lemma InitializedSelectsOnMutation(s: FeatureState, select: SelectState, firstOption: string, record: JsValue)
    requires select.selectedIndex == -1
    ensures var r := OnMutation(Initialize(s), select, Found(select), Found(firstOption), Parsed(record));
            var v := ToJsString(ResolveProjectValueToSelect(Parsed(record), firstOption).value);
            && r.options == select.options
            && r.changeEvents == select.changeEvents + 1
            && (v in select.options ==> SelectedValue(r) == v && r.selectedIndex == FirstIndexOf(select.options, v))
            && (v !in select.options ==> r.selectedIndex == -1 && SelectedValue(r) == "")
  {
  }

  /** Once a mutation has selected an option, the next mutation finds a
      selection and changes nothing: one change event in all. */
  lemma SecondMutationKeepsSelection(s: FeatureState, select: SelectState, firstOption: Lookup<string>,
                                     lastWritten: LastWritten)
    requires firstOption.Found? && lastWritten.Parsed? ==>
               ToJsString(ResolveProjectValueToSelect(lastWritten, firstOption.value).value) in select.options
    ensures var once := OnMutation(s, select, Found(select), firstOption, lastWritten);
            OnMutation(s, once, Found(once), firstOption, lastWritten) == once
  {
    var once := OnMutation(s, select, Found(select), firstOption, lastWritten);
    if s.observing && firstOption.Found? && select.selectedIndex == -1 && lastWritten.Parsed? {
      assert once.selectedIndex != -1;
    }
  }

  /** When no option holds the resolved value the select stays empty, so
      every later mutation selects again and dispatches another change event. */
  lemma UnmatchedValueReselects(s: FeatureState, select: SelectState, firstOption: string, record: JsValue)
    requires s.observing && select.selectedIndex == -1
    requires ToJsString(ResolveProjectValueToSelect(Parsed(record), firstOption).value) !in select.options
    ensures var once := OnMutation(s, select, Found(select), Found(firstOption), Parsed(record));
            var twice := OnMutation(s, once, Found(once), Found(firstOption), Parsed(record));
            once.selectedIndex == -1 && twice.selectedIndex == -1 && twice.changeEvents == select.changeEvents + 2
  {
  }

  /** `handleProjectAutoselectFix` of the content script: a truthy
      `fixProjectAutoselect` connects the observer (observing again is a
      no-op), any other value disconnects it. The script keeps no flag. */
  function HandleProjectAutoselectFix(s: FeatureState, featureSettings: JsValue): (s': FeatureState)
    ensures s'.observing <==> Truthy(Get(featureSettings, FixProjectAutoselectKey))
    ensures s'.initialized == s.initialized
  {
    s.(observing := Truthy(Get(featureSettings, FixProjectAutoselectKey)))
  }

  /** The content script's observer ends as the feature's would: connected
      as after `initialize` for a truthy setting, disconnected as after
      `deregister` otherwise. */
  lemma HandleFixAgreesWithFeature(s: FeatureState, featureSettings: JsValue)
    ensures HandleProjectAutoselectFix(s, featureSettings).observing
         == (if Truthy(Get(featureSettings, FixProjectAutoselectKey)) then Initialize(s) else Deregister(s)).observing
  {
  }

  /** With the setting off, no later mutation touches the select. */
  lemma FixOffIgnoresMutations(s: FeatureState, featureSettings: JsValue, select: SelectState,
                               selectLookup: Lookup<SelectState>, firstOption: Lookup<string>, lastWritten: LastWritten)
    requires !Truthy(Get(featureSettings, FixProjectAutoselectKey))
    ensures OnMutation(HandleProjectAutoselectFix(s, featureSettings), select, selectLookup, firstOption, lastWritten) == select
  {
  }

  /** With the setting on, a mutation over an empty select selects the
      first option holding the resolved project, with one change event. */
  lemma FixOnSelectsOnMutation(s: FeatureState, featureSettings: JsValue, select: SelectState,
                               firstOption: string, record: JsValue)
    requires Truthy(Get(featureSettings, FixProjectAutoselectKey))
    requires select.selectedIndex == -1
    ensures var r := OnMutation(HandleProjectAutoselectFix(s, featureSettings), select, Found(select), Found(firstOption), Parsed(record));
            var v := ToJsString(ResolveProjectValueToSelect(Parsed(record), firstOption).value);
            && r.changeEvents == select.changeEvents + 1
            && (v in select.options ==> SelectedValue(r) == v && r.selectedIndex == FirstIndexOf(select.options, v))
            && (v !in select.options ==> r.selectedIndex == -1)
  {
  }
}
