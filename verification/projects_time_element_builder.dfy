/** The decision logic behind the projects-time window's markup: validation
    of the per-project regex the user types, what a regex change does, the
    duration text, and the list of group containers with their titles and
    totals. */
module ProjectsTimeElementBuilder {
  import opened Wrappers
  import opened JsValues
  import opened Decimal
  import opened Text
  import opened Ordering
  import opened RegexOracle
  import opened LogLines
  import opened CollectionService
  import opened StorageService
  import opened ProjectsTimeDataStorage

  const ProjectGroupsContainerIdPrefix: string := "tes-pt-project-groups-"
  const FormErrorClass: string := "uk-form-danger"
  const DefaultLogGroupName: string := "Ungrouped"
  const RegexInputErrorMessagePrefix: string := "Помилка в регулярному виразі. "
  const RegexMissingGroupError: string := "Вираз має містити групу захоплення"

  /** The message for a regex with `groupsAmount` capture groups. */
  function TooManyGroupsMessage(groupsAmount: nat): string {
    "Забагато груп захоплення в виразі: реальна кількість - " + NatToString(groupsAmount) + ", очікувана - 1"
  }

  /** Why a regex is refused. */
  datatype RegexError =
    | SyntaxError(message: string)
    | MissingCaptureGroup
    | TooManyCaptureGroups(groupsAmount: nat)

  /** `String(error)`: the error name, a colon and the message. */
  function ErrorText(e: RegexError): string {
    match e
    case SyntaxError(m) => "SyntaxError: " + m
    case MissingCaptureGroup => "Error: " + RegexMissingGroupError
    case TooManyCaptureGroups(n) => "Error: " + TooManyGroupsMessage(n)
  }

  /** `validateRegexValueSyntax`: the error `new RegExp` throws, if any. */
  function ValidateRegexValueSyntax(engine: Engine, regexValue: string): (r: Option<RegexError>)
    ensures r.None? <==> engine.compiles(regexValue)
    ensures r.Some? ==> r.value == SyntaxError(engine.syntaxError(regexValue))
  {
    if engine.compiles(regexValue) then None else Some(SyntaxError(engine.syntaxError(regexValue)))
  }

  /** `validateRegexGroupsAmount`: exactly one capture group is required. */
  function ValidateRegexGroupsAmount(engine: Engine, regexValue: string): (r: Option<RegexError>)
    ensures r.None? <==> engine.groupCount(regexValue) == 1
    ensures engine.groupCount(regexValue) == 0 ==> r == Some(MissingCaptureGroup)
    ensures engine.groupCount(regexValue) > 1 ==> r == Some(TooManyCaptureGroups(engine.groupCount(regexValue)))
  {
    var n := engine.groupCount(regexValue);
    if n == 1 then None
    else if n == 0 then Some(MissingCaptureGroup)
    else Some(TooManyCaptureGroups(n))
  }

  /** `getInvalidRegexError`: the empty string is accepted; otherwise a
      syntax error is reported before the capture groups are counted. */
  function GetInvalidRegexError(engine: Engine, regexValue: string): (r: Option<RegexError>)
    ensures r.None? <==> regexValue == "" || (engine.compiles(regexValue) && engine.groupCount(regexValue) == 1)
    ensures regexValue != "" && !engine.compiles(regexValue) ==> r == Some(SyntaxError(engine.syntaxError(regexValue)))
    ensures regexValue != "" && engine.compiles(regexValue) && engine.groupCount(regexValue) == 0 ==>
              r == Some(MissingCaptureGroup)
    ensures regexValue != "" && engine.compiles(regexValue) && engine.groupCount(regexValue) > 1 ==>
              r == Some(TooManyCaptureGroups(engine.groupCount(regexValue)))
  {
    if regexValue == "" then None
    else
      var syntaxError := ValidateRegexValueSyntax(engine, regexValue);
      if syntaxError.Some? then syntaxError else ValidateRegexGroupsAmount(engine, regexValue)
  }

  /** The regex input element: its value, its custom validity message, its
      classes, and whether a validity report has been scheduled. */
  datatype RegexInput = RegexInput(value: string, customValidity: string, classes: set<string>, reportScheduled: bool)

  datatype Validation = Validation(valid: bool, input: RegexInput)

  /** `validateRegexValue`: on an error, sets the prefixed error text as the
      custom validity, adds the error class and schedules a report; otherwise
      clears the validity message and removes the error class. */
  function ValidateRegexValue(engine: Engine, regexValue: string, input: RegexInput): (r: Validation)
    ensures r.valid <==> GetInvalidRegexError(engine, regexValue).None?
    ensures r.valid ==> r.input.customValidity == "" && FormErrorClass !in r.input.classes
    ensures !r.valid ==> r.input.customValidity
                         == RegexInputErrorMessagePrefix + ErrorText(GetInvalidRegexError(engine, regexValue).value)
    ensures !r.valid ==> FormErrorClass in r.input.classes && r.input.reportScheduled
    ensures r.input.classes - {FormErrorClass} == input.classes - {FormErrorClass}
    ensures r.input.value == input.value
  {
    match GetInvalidRegexError(engine, regexValue)
    case Some(e) =>
      Validation(false, input.(customValidity := RegexInputErrorMessagePrefix + ErrorText(e),
                               classes := input.classes + {FormErrorClass},
                               reportScheduled := true))
    case None =>
      Validation(true, input.(customValidity := "", classes := input.classes - {FormErrorClass}))
  }

  /** What a change of the regex input leads to. */
  datatype ChangeOutcome = ChangeOutcome(input: RegexInput, storage: Storage, saved: bool, regenerated: bool)

  /** `handleProjectRegexChange`: an invalid value is neither saved nor
      acted on; a valid one is saved, then the project's groups are rebuilt
      if the groups container is on the page. A failing save rejects before
      the rebuild. */
  function HandleProjectRegexChange(engine: Engine, st: Storage, featureId: string, projectName: string,
                                    input: RegexInput, containerPresent: bool): (r: ChangeOutcome)
    ensures r.saved <==> GetInvalidRegexError(engine, input.value).None?
                         && SaveGroupRegexForProject(st, featureId, projectName, input.value).Success?
    ensures r.saved ==> GetGroupRegexByProject(r.storage, featureId, projectName) == Str(input.value)
    ensures !r.saved ==> r.storage == st
    ensures r.regenerated <==> r.saved && containerPresent
    ensures r.input == ValidateRegexValue(engine, input.value, input).input
  {
    var validation := ValidateRegexValue(engine, input.value, input);
    if !validation.valid then
      ChangeOutcome(validation.input, st, false, false)
    else
      match SaveGroupRegexForProject(st, featureId, projectName, input.value)
      case Failure(_) => ChangeOutcome(validation.input, st, false, false)
      case Success(st') =>
        SaveThenGet(st, featureId, projectName, input.value);
        ChangeOutcome(validation.input, st', true, containerPresent)
  }

  /** A stored regex value the grouping can use: a string that is empty or
      passes validation. */
  predicate UsableRegexValue(engine: Engine, v: JsValue) {
    v.Str? && GetInvalidRegexError(engine, v.s).None?
  }

  /** Every regex stored for the feature is usable. */
  predicate UsableRegexStore(engine: Engine, st: Storage, featureId: string) {
    var data := RegexData(st, featureId);
    data.Obj? && forall k :: k in data.props ==> UsableRegexValue(engine, data.props[k])
  }

  /** A regex change keeps every stored regex usable. */
  lemma HandleProjectRegexChangeKeepsStoreUsable(engine: Engine, st: Storage, featureId: string, projectName: string,
                                                input: RegexInput, containerPresent: bool)
    requires UsableRegexStore(engine, st, featureId)
    ensures UsableRegexStore(engine, HandleProjectRegexChange(engine, st, featureId, projectName, input, containerPresent).storage, featureId)
  {
    var r := HandleProjectRegexChange(engine, st, featureId, projectName, input, containerPresent);
    if r.saved {
      var data := RegexData(st, featureId);
      assert RegexData(r.storage, featureId) == Obj(data.props[ConvertProjectNameToKey(projectName) := Str(input.value)]);
    }
  }

  /** `buildRegexInputElement`: the input starts with the stored regex, or
      empty when nothing truthy is stored. */
  function InitialRegexInputValue(st: Storage, featureId: string, projectName: string): (value: string)
    ensures !Truthy(GetGroupRegexByProject(st, featureId, projectName)) ==> value == ""
    ensures GetGroupRegexByProject(st, featureId, projectName).Str? ==> value == GetGroupRegexByProject(st, featureId, projectName).s
  {
    var saved := GetGroupRegexByProject(st, featureId, projectName);
    if Truthy(saved) then ToJsString(saved) else ""
  }

  /** After a valid change, a freshly built input shows the saved value. */
  lemma InputShowsSavedRegex(engine: Engine, st: Storage, featureId: string, projectName: string,
                             input: RegexInput, containerPresent: bool)
    requires HandleProjectRegexChange(engine, st, featureId, projectName, input, containerPresent).saved
    ensures InitialRegexInputValue(HandleProjectRegexChange(engine, st, featureId, projectName, input, containerPresent).storage,
                                   featureId, projectName) == input.value
  {
  }

  /** The quotient of JavaScript's integer division, truncated toward zero. */
  function JsTruncQuotient(a: int, b: int): int
    requires b > 0
  {
    if a >= 0 then a / b else -((-a) / b)
  }

  /** JavaScript's `%`: the remainder takes the sign of the dividend and
      completes the truncated quotient to the dividend. */
  function JsRemainder(a: int, b: int): (r: int)
    requires b > 0
    ensures a >= 0 ==> 0 <= r < b
    ensures a < 0 ==> -b < r <= 0
    ensures a == b * JsTruncQuotient(a, b) + r
  {
    if a >= 0 then a % b else -((-a) % b)
  }

  /** Hours and minutes of a duration in half-hour units:
      `Math.floor(u / 2)` and `u % 2 * 30`. */
  function SplitTimeUnits(timeUnits: int): (hm: (int, int))
    ensures timeUnits >= 0 ==> hm.0 >= 0 && (hm.1 == 0 || hm.1 == 30)
    ensures timeUnits >= 0 ==> 60 * hm.0 + hm.1 == 30 * timeUnits
  {
    (timeUnits / 2, JsRemainder(timeUnits, 2) * 30)
  }

  /** For a negative odd count the floor of the hours and the truncated
      remainder do not add up: -1 unit reads as -1 h -30 min. */
  lemma SplitTimeUnitsNegativeOdd()
    ensures SplitTimeUnits(-1) == (-1, -30)
    ensures 60 * SplitTimeUnits(-1).0 + SplitTimeUnits(-1).1 != 30 * -1
  {
  }

  const HoursSuffix: string := "год."
  const MinutesSuffix: string := "хв."

  /** `timeUnitsToString`. */
  function TimeUnitsToString(timeUnits: int): (text: string)
    ensures timeUnits >= 0 ==> ParseTimeUnits(text) == Some(timeUnits)
  {
    var hm := SplitTimeUnits(timeUnits);
    var text := IntToString(hm.0) + " " + HoursSuffix + " " + IntToString(hm.1) + " " + MinutesSuffix;
    if timeUnits >= 0 then
      ParseDurationText(hm.0, hm.1);
      text
    else text
  }

  /** Reads a duration text back into half-hour units. */
  function ParseTimeUnits(s: string): (r: Option<nat>) {
    var parts := Split(s, ' ');
    if |parts| != 4 || parts[1] != HoursSuffix || parts[3] != MinutesSuffix then None
    else
      match (ParseNat(parts[0]), ParseNat(parts[2]))
      case (Some(h), Some(m)) => if m == 0 || m == 30 then Some(2 * h + m / 30) else None
      case _ => None
  }

  lemma DigitsHaveNoSpace(s: string)
    requires AllDigits(s)
    ensures ' ' !in s
  {
    forall i | 0 <= i < |s| ensures s[i] != ' ' {
      assert IsDigit(s[i]);
    }
  }

  lemma JoinDurationParts(hs: string, ms: string)
    ensures Join([hs, HoursSuffix, ms, MinutesSuffix], ' ') == hs + " " + HoursSuffix + " " + ms + " " + MinutesSuffix
  {
    var parts := [hs, HoursSuffix, ms, MinutesSuffix];
    assert Join(parts[3..], ' ') == MinutesSuffix;
    assert Join(parts[2..], ' ') == ms + " " + MinutesSuffix;
    assert Join(parts[1..], ' ') == HoursSuffix + " " + ms + " " + MinutesSuffix;
  }

  lemma SplitDurationText(h: nat, m: nat)
    ensures Split(NatToString(h) + " " + HoursSuffix + " " + NatToString(m) + " " + MinutesSuffix, ' ')
         == [NatToString(h), HoursSuffix, NatToString(m), MinutesSuffix]
  {
    var parts := [NatToString(h), HoursSuffix, NatToString(m), MinutesSuffix];
    DigitsHaveNoSpace(NatToString(h));
    DigitsHaveNoSpace(NatToString(m));
    JoinDurationParts(NatToString(h), NatToString(m));
    SplitJoin(parts, ' ');
  }

  lemma ParseDurationText(h: nat, m: nat)
    requires m == 0 || m == 30
    ensures ParseTimeUnits(NatToString(h) + " " + HoursSuffix + " " + NatToString(m) + " " + MinutesSuffix) == Some(2 * h + m / 30)
  {
    SplitDurationText(h, m);
    ParseNatToString(h);
    ParseNatToString(m);
    ParseDurationParts(NatToString(h) + " " + HoursSuffix + " " + NatToString(m) + " " + MinutesSuffix, NatToString(h), NatToString(m), h, m);
  }

  lemma ParseDurationParts(s: string, hs: string, ms: string, h: nat, m: nat)
    requires Split(s, ' ') == [hs, HoursSuffix, ms, MinutesSuffix]
    requires ParseNat(hs) == Some(h) && ParseNat(ms) == Some(m)
    requires m == 0 || m == 30
    ensures ParseTimeUnits(s) == Some(2 * h + m / 30)
  {
  }

  /** The duration text of a non-negative count determines the count. */
  lemma TimeUnitsToStringRoundTrip(timeUnits: nat)
    ensures ParseTimeUnits(TimeUnitsToString(timeUnits)) == Some(timeUnits)
  {
  }

  /** `convertProjectNameToElementId`: every space becomes a hyphen. */
  function ConvertProjectNameToElementId(projectName: string): (id: string)
    ensures |id| == |projectName|
    ensures forall i :: 0 <= i < |id| ==> id[i] == (if projectName[i] == ' ' then '-' else projectName[i])
  {
    ReplaceAll(projectName, ' ', '-')
  }

  /** The element id of a project is its storage key. */
  lemma ElementIdIsStorageKey(projectName: string)
    ensures ConvertProjectNameToElementId(projectName) == ConvertProjectNameToKey(projectName)
  {
  }

  /** The id of the project's groups container. */
  function ProjectGroupsContainerId(projectName: string): string {
    ProjectGroupsContainerIdPrefix + ConvertProjectNameToElementId(projectName)
  }

  /** The displayed group title: the key itself, with null shown as
      "Ungrouped" (`undefined` renders as the text "undefined"). */
  function GroupTitle(key: GroupKey): (title: string)
    ensures key.NullKey? <==> title == DefaultLogGroupName && !(key.TextKey? && key.text == DefaultLogGroupName)
    ensures !key.NullKey? ==> title == KeyString(key)
  {
    if key.NullKey? then DefaultLogGroupName else KeyString(key)
  }

  /** One group container: its key, title, total units, duration text and lines. */
  datatype GroupContainer = GroupContainer(key: GroupKey, title: string, totalUnits: int, totalText: string, lines: seq<LogLine>)

  /** `buildProjectGroupContainer` and its summary. */
  function BuildProjectGroupContainer(group: Entry<GroupKey, LogLine>): (c: GroupContainer)
    ensures c.key == group.key && c.lines == group.items
    ensures c.title == GroupTitle(group.key)
    ensures c.totalUnits == SumOf(group.items, TimeUnitOf)
    ensures c.totalText == TimeUnitsToString(c.totalUnits)
  {
    var total := SumOf(group.items, TimeUnitOf);
    GroupContainer(group.key, GroupTitle(group.key), total, TimeUnitsToString(total), group.items)
  }

  function EntryKeyString(e: Entry<GroupKey, LogLine>): string {
    KeyString(e.key)
  }

  function ContainerKeyString(c: GroupContainer): string {
    KeyString(c.key)
  }

  function ContainerUnits(c: GroupContainer): int {
    c.totalUnits
  }

  function EntryUnits(e: Entry<GroupKey, LogLine>): int {
    SumOf(e.items, TimeUnitOf)
  }

  /** `buildProjectGroupContainers` after grouping: one container per group,
      ordered by comparing `String(key)` under the collation `leq`. */
  function BuildProjectGroupContainers(groups: seq<Entry<GroupKey, LogLine>>, leq: (string, string) -> bool)
    : (cs: seq<GroupContainer>)
    requires TotalPreorder(leq)
    ensures |cs| == |groups|
    ensures SortedBy(cs, ContainerKeyString, leq)
    ensures forall i :: 0 <= i < |cs| ==> cs[i] == BuildProjectGroupContainer(Sort(groups, EntryKeyString, leq)[i])
    ensures multiset(Sort(groups, EntryKeyString, leq)) == multiset(groups)
  {
    var sorted := Sort(groups, EntryKeyString, leq);
    var cs := seq(|sorted|, i requires 0 <= i < |sorted| => BuildProjectGroupContainer(sorted[i]));
    assert forall i :: 0 <= i < |cs| ==> ContainerKeyString(cs[i]) == EntryKeyString(sorted[i]);
    cs
  }

  /** The null group and a group keyed "null" both sort as "null"; the
      stable sort keeps them in the order of the groups. */
  lemma NullTiesKeepGroupOrder(a: seq<LogLine>, b: seq<LogLine>, leq: (string, string) -> bool)
    requires TotalPreorder(leq)
    ensures var groups := [Entry(NullKey, a), Entry(TextKey("null"), b)];
            BuildProjectGroupContainers(groups, leq) == [BuildProjectGroupContainer(groups[0]), BuildProjectGroupContainer(groups[1])]
    ensures var groups := [Entry(TextKey("null"), b), Entry(NullKey, a)];
            BuildProjectGroupContainers(groups, leq) == [BuildProjectGroupContainer(groups[0]), BuildProjectGroupContainer(groups[1])]
  {
    PairTieKeepsOrder(Entry(NullKey, a), Entry(TextKey("null"), b), leq);
    PairTieKeepsOrder(Entry(TextKey("null"), b), Entry(NullKey, a), leq);
  }

  /** Two groups whose keys print alike keep their order. */
  lemma PairTieKeepsOrder(g: Entry<GroupKey, LogLine>, h: Entry<GroupKey, LogLine>, leq: (string, string) -> bool)
    requires TotalPreorder(leq)
    requires EntryKeyString(g) == EntryKeyString(h)
    ensures BuildProjectGroupContainers([g, h], leq) == [BuildProjectGroupContainer(g), BuildProjectGroupContainer(h)]
  {
    var gs := [g, h];
    assert leq(EntryKeyString(g), EntryKeyString(h));
    assert SortedBy(gs, EntryKeyString, leq) by {
      forall i, j | 0 <= i < j < |gs| ensures leq(EntryKeyString(gs[i]), EntryKeyString(gs[j])) {
        assert i == 0 && j == 1;
      }
    }
    SortOfSorted(gs, EntryKeyString, leq);
    var cs := BuildProjectGroupContainers(gs, leq);
    assert |cs| == 2 && cs[0] == BuildProjectGroupContainer(g) && cs[1] == BuildProjectGroupContainer(h);
  }

  lemma GroupHasContainer(groups: seq<Entry<GroupKey, LogLine>>, leq: (string, string) -> bool, g: Entry<GroupKey, LogLine>)
    requires TotalPreorder(leq)
    requires g in groups
    ensures BuildProjectGroupContainer(g) in BuildProjectGroupContainers(groups, leq)
  {
    var sorted := Sort(groups, EntryKeyString, leq);
    var cs := BuildProjectGroupContainers(groups, leq);
    assert g in multiset(sorted);
    var i :| 0 <= i < |sorted| && sorted[i] == g;
    assert cs[i] == BuildProjectGroupContainer(g);
  }

  lemma ContainerHasGroup(groups: seq<Entry<GroupKey, LogLine>>, leq: (string, string) -> bool, g: Entry<GroupKey, LogLine>)
    requires TotalPreorder(leq)
    requires BuildProjectGroupContainer(g) in BuildProjectGroupContainers(groups, leq)
    ensures g in groups
  {
    var sorted := Sort(groups, EntryKeyString, leq);
    var cs := BuildProjectGroupContainers(groups, leq);
    var i :| 0 <= i < |cs| && cs[i] == BuildProjectGroupContainer(g);
    assert sorted[i] == g;
    assert g in multiset(sorted);
  }

  /** Every group gets a container and every container comes from a group. */
  lemma ContainersMatchGroups(groups: seq<Entry<GroupKey, LogLine>>, leq: (string, string) -> bool, g: Entry<GroupKey, LogLine>)
    requires TotalPreorder(leq)
    ensures g in groups <==> BuildProjectGroupContainer(g) in BuildProjectGroupContainers(groups, leq)
  {
    if g in groups {
      GroupHasContainer(groups, leq, g);
    }
    if BuildProjectGroupContainer(g) in BuildProjectGroupContainers(groups, leq) {
      ContainerHasGroup(groups, leq, g);
    }
  }

  lemma {:induction false} SumOfFlatten(m: seq<Entry<GroupKey, LogLine>>)
    ensures SumOf(Flatten(m), TimeUnitOf) == SumOf(m, EntryUnits)
    decreases |m|
  {
    if |m| > 0 {
      SumOfFlatten(m[1..]);
      SumOfConcat(m[0].items, Flatten(m[1..]), TimeUnitOf);
    }
  }

  lemma {:induction false} SumOfContainers(s: seq<Entry<GroupKey, LogLine>>, cs: seq<GroupContainer>)
    requires |cs| == |s|
    requires forall i :: 0 <= i < |cs| ==> cs[i] == BuildProjectGroupContainer(s[i])
    ensures SumOf(cs, ContainerUnits) == SumOf(s, EntryUnits)
    decreases |s|
  {
    if |s| > 0 {
      SumOfContainers(s[1..], cs[1..]);
    }
  }

  /** The group totals add up to the project's total: grouping and sorting
      neither lose nor duplicate time. */
  lemma GroupTotalsAddUp(logLines: seq<LogLine>, key: LogLine -> GroupKey, leq: (string, string) -> bool)
    requires TotalPreorder(leq)
    ensures SumOf(BuildProjectGroupContainers(GroupToMap(logLines, key), leq), ContainerUnits)
         == SumOf(logLines, TimeUnitOf)
  {
    var groups := GroupToMap(logLines, key);
    var sorted := Sort(groups, EntryKeyString, leq);
    SumOfContainers(sorted, BuildProjectGroupContainers(groups, leq));
    SumOfSort(groups, EntryKeyString, leq, EntryUnits);
    SumOfFlatten(groups);
    GroupToMapPermutation(logLines, key);
    SumOfPermutation(Flatten(groups), logLines, TimeUnitOf);
  }
}
