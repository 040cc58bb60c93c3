/** Grouping of a project's log lines in the projects-time window: by the
    first capture group of a per-project regex applied to the trimmed
    description, or by the trimmed ticket, depending on the project's group
    type. */
module GroupingService {
  import opened Wrappers
  import opened JsValues
  import opened Text
  import opened RegexOracle
  import opened LogLines
  import opened CollectionService

  const DescriptionType: string := "description"
  const TicketType: string := "ticket"

  predicate IsGroupType(t: string) {
    t == DescriptionType || t == TicketType
  }

  /** `mapToValidGroupType`: a valid type is kept, anything else becomes
      the description type. */
  function MapToValidGroupType(originalGroupType: JsValue): (r: string)
    ensures IsGroupType(r)
    ensures Str(r) == originalGroupType <==> originalGroupType.Str? && IsGroupType(originalGroupType.s)
    ensures Str(r) != originalGroupType ==> r == DescriptionType
  {
    if originalGroupType == Str(DescriptionType) || originalGroupType == Str(TicketType) then
      originalGroupType.s
    else
      DescriptionType
  }

  lemma MapToValidGroupTypeIdempotent(originalGroupType: JsValue)
    ensures MapToValidGroupType(Str(MapToValidGroupType(originalGroupType))) == MapToValidGroupType(originalGroupType)
  {
  }

  /** `getCurrentGroupingType`, given the type stored for the project: a
      falsy stored value means the description type. */
  function GetCurrentGroupingType(storedType: JsValue): (r: string)
    ensures IsGroupType(r)
    ensures !Truthy(storedType) ==> r == DescriptionType
    ensures Truthy(storedType) && storedType.Str? && IsGroupType(storedType.s) ==> r == storedType.s
    ensures Truthy(storedType) && !(storedType.Str? && IsGroupType(storedType.s)) ==> r == DescriptionType
  {
    if Truthy(storedType) then MapToValidGroupType(storedType) else DescriptionType
  }

  /** `saveCurrentGroupingType`: the value handed to storage, which is always
      a valid group type. */
  function SaveCurrentGroupingType(newGroupingType: JsValue): (persisted: string)
    ensures IsGroupType(persisted)
    ensures newGroupingType.Str? && IsGroupType(newGroupingType.s) ==> persisted == newGroupingType.s
  {
    MapToValidGroupType(newGroupingType)
  }

  /** A saved type reads back unchanged. */
  lemma SaveThenGetGroupingType(newGroupingType: JsValue)
    ensures GetCurrentGroupingType(Str(SaveCurrentGroupingType(newGroupingType))) == SaveCurrentGroupingType(newGroupingType)
  {
  }

  /** The functions of the data storage module that this service can call. */
  const DataStorageExports: set<string> := {"getGroupRegexByProject", "saveGroupRegexForProject"}

  /** `getCurrentGroupingType` as written: it calls `getGroupTypeByProject`,
      which the data storage module does not define, so the call throws. */
  function GetCurrentGroupingTypeAsWritten(storedType: JsValue): (r: Result<string, string>)
    ensures r.Success? ==> r.value == GetCurrentGroupingType(storedType)
  {
    if "getGroupTypeByProject" in DataStorageExports then Success(GetCurrentGroupingType(storedType))
    else Failure("TypeError: dataStorage.getGroupTypeByProject is not a function")
  }

  /** `saveCurrentGroupingType` as written: it calls `saveGroupTypeForProject`,
      which the data storage module does not define either. */
  function SaveCurrentGroupingTypeAsWritten(newGroupingType: JsValue): (r: Result<string, string>)
    ensures r.Success? ==> r.value == SaveCurrentGroupingType(newGroupingType)
  {
    if "saveGroupTypeForProject" in DataStorageExports then Success(SaveCurrentGroupingType(newGroupingType))
    else Failure("TypeError: dataStorage.saveGroupTypeForProject is not a function")
  }

  /** Every call of the as-written pair fails, whatever is stored. */
  lemma GroupingTypeAccessAlwaysFails(storedType: JsValue, newGroupingType: JsValue)
    ensures GetCurrentGroupingTypeAsWritten(storedType).Failure?
    ensures SaveCurrentGroupingTypeAsWritten(newGroupingType).Failure?
  {
  }

  /** The match array of the regex on the trimmed description. */
  function MatchOf(engine: Engine, p: string, line: LogLine): Option<seq<MatchEntry>> {
    engine.exec(p, Trim(line.description))
  }

  /** The match array has an entry for capture group 1. */
  predicate HasGroup1(engine: Engine, p: string, line: LogLine) {
    MatchOf(engine, p, line).Some? && |MatchOf(engine, p, line).value| >= 2
  }

  /** Capture group 1 of the regex on the trimmed description. */
  function Group1(engine: Engine, p: string, line: LogLine): MatchEntry {
    if HasGroup1(engine, p, line) then MatchOf(engine, p, line).value[1] else NotParticipating
  }

  /** `extractGroupingKey` as written: returns entry 1 of the match array,
      which is `undefined` when capture group 1 did not take part in the match. */
  function ExtractGroupingKeyAsWritten(engine: Engine, regex: Option<string>, line: LogLine): (r: GroupKey)
    ensures r.NullKey? <==> regex.None? || !HasGroup1(engine, regex.value, line)
    ensures r.UndefinedKey? <==>
              (regex.Some? && HasGroup1(engine, regex.value, line) && Group1(engine, regex.value, line).NotParticipating?)
    ensures r.TextKey? ==> regex.Some? && Group1(engine, regex.value, line) == Captured(r.text)
  {
    match regex
    case None => NullKey
    case Some(p) =>
      var m := engine.exec(p, Trim(line.description));
      if m.None? || |m.value| < 2 then NullKey
      else match m.value[1]
        case Captured(t) => TextKey(t)
        case NotParticipating => UndefinedKey
  }

  /** `extractGroupingKey` as documented: the text of capture group 1, or
      null when there is no regex, no match, no group 1, or group 1 did not
      take part in the match. */
  function ExtractGroupingKey(engine: Engine, regex: Option<string>, line: LogLine): (r: GroupKey)
    ensures !r.UndefinedKey?
    ensures r.NullKey? <==> regex.None? || Group1(engine, regex.value, line).NotParticipating?
    ensures r.TextKey? ==> regex.Some? && Group1(engine, regex.value, line) == Captured(r.text)
  {
    match regex
    case None => NullKey
    case Some(p) =>
      var m := engine.exec(p, Trim(line.description));
      if m.None? || |m.value| < 2 then NullKey
      else match m.value[1]
        case Captured(t) => TextKey(t)
        case NotParticipating => NullKey
  }

  /** The two versions differ exactly where group 1 did not participate. */
  lemma ExtractGroupingKeyAgreement(engine: Engine, regex: Option<string>, line: LogLine)
    ensures ExtractGroupingKeyAsWritten(engine, regex, line) != ExtractGroupingKey(engine, regex, line)
        <==> ExtractGroupingKeyAsWritten(engine, regex, line) == UndefinedKey
  {
  }

  /** The pattern `(a)?b` on the description "b" matches without group 1:
      the as-written extraction returns undefined, which forms a group of its
      own titled "undefined" instead of falling under "Ungrouped". */
  lemma ExtractGroupingKeyUndefinedWitness(engine: Engine, line: LogLine)
    requires engine.exec("(a)?b", Trim(line.description)) == Some([Captured("b"), NotParticipating])
    ensures ExtractGroupingKeyAsWritten(engine, Some("(a)?b"), line) == UndefinedKey
    ensures KeyString(ExtractGroupingKeyAsWritten(engine, Some("(a)?b"), line)) == "undefined"
    ensures ExtractGroupingKey(engine, Some("(a)?b"), line) == NullKey
  {
  }

  /** A pattern without capture groups puts every line under null, in both
      versions. */
  lemma NoCaptureGroupMeansNull(engine: Engine, p: string, line: LogLine)
    requires Consistent(engine) && engine.compiles(p) && engine.groupCount(p) == 0
    ensures ExtractGroupingKeyAsWritten(engine, Some(p), line) == NullKey
    ensures ExtractGroupingKey(engine, Some(p), line) == NullKey
  {
    var m := engine.exec(p, Trim(line.description));
    if m.Some? {
      assert |m.value| == 1;
    }
  }

  /** `extractTicketValue`: null for a missing or empty ticket, else the
      trimmed ticket. */
  function ExtractTicketValue(line: LogLine): (r: GroupKey)
    ensures !r.UndefinedKey?
    ensures r.NullKey? <==> line.ticket.None? || line.ticket.value == ""
    ensures r.TextKey? ==> r.text == Trim(line.ticket.value)
  {
    match line.ticket
    case None => NullKey
    case Some(t) => if t == "" then NullKey else TextKey(Trim(t))
  }

  /** Tickets that differ only in whitespace around them fall into one group. */
  lemma TicketKeyIgnoresEdgeWhitespace(line: LogLine, before: string, after: string)
    requires line.ticket.Some? && line.ticket.value != ""
    requires AllWhitespace(before) && AllWhitespace(after)
    ensures ExtractTicketValue(line.(ticket := Some(before + line.ticket.value + after))) == ExtractTicketValue(line)
  {
    TrimPadded(before, line.ticket.value, after);
  }

  /** The key of a line in regex mode, as written. */
  function RegexKeyOf(engine: Engine, regex: Option<string>): LogLine -> GroupKey {
    line => ExtractGroupingKeyAsWritten(engine, regex, line)
  }

  /** The key of a line in regex mode, corrected. */
  function CorrectedRegexKeyOf(engine: Engine, regex: Option<string>): LogLine -> GroupKey {
    line => ExtractGroupingKey(engine, regex, line)
  }

  function TicketKeyOf(): LogLine -> GroupKey {
    line => ExtractTicketValue(line)
  }

  /** The stored regex value as `new RegExp` takes it: a truthy value is
      turned into a regex (its string form); a falsy value means no regex. */
  function StoredPattern(storedRegex: JsValue): Option<string> {
    if Truthy(storedRegex) then Some(ToJsString(storedRegex)) else None
  }

  /** Groups by the stored regex value, as written: the key of a line is
      entry 1 of the match array; a truthy value that does not compile
      throws. */
  function GroupByStoredRegex(engine: Engine, storedRegex: JsValue, logLines: seq<LogLine>)
    : (r: Result<seq<Entry<GroupKey, LogLine>>, string>)
    ensures r.Failure? <==> Truthy(storedRegex) && !engine.compiles(ToJsString(storedRegex))
    ensures !Truthy(storedRegex) ==> r == Success(if |logLines| == 0 then [] else [Entry(NullKey, logLines)])
    ensures r.Success? && Truthy(storedRegex) ==> r.value == GroupToMap(logLines, RegexKeyOf(engine, Some(ToJsString(storedRegex))))
  {
    var regex := StoredPattern(storedRegex);
    if regex.None? then
      GroupToMapSingleKey(logLines, RegexKeyOf(engine, None), NullKey);
      Success(GroupToMap(logLines, RegexKeyOf(engine, None)))
    else if !engine.compiles(regex.value) then Failure("SyntaxError: " + engine.syntaxError(regex.value))
    else Success(GroupToMap(logLines, RegexKeyOf(engine, regex)))
  }

  /** Groups by the stored regex value with the corrected key. */
  function GroupByStoredRegexCorrected(engine: Engine, storedRegex: JsValue, logLines: seq<LogLine>)
    : (r: Result<seq<Entry<GroupKey, LogLine>>, string>)
    ensures r.Failure? <==> Truthy(storedRegex) && !engine.compiles(ToJsString(storedRegex))
    ensures !Truthy(storedRegex) ==> r == Success(if |logLines| == 0 then [] else [Entry(NullKey, logLines)])
    ensures r.Success? && Truthy(storedRegex) ==> r.value == GroupToMap(logLines, CorrectedRegexKeyOf(engine, Some(ToJsString(storedRegex))))
    ensures r.Success? ==> forall i :: 0 <= i < |r.value| ==> !r.value[i].key.UndefinedKey?
  {
    var regex := StoredPattern(storedRegex);
    NoUndefinedGroup(logLines, CorrectedRegexKeyOf(engine, regex));
    if regex.None? then
      GroupToMapSingleKey(logLines, CorrectedRegexKeyOf(engine, None), NullKey);
      Success(GroupToMap(logLines, CorrectedRegexKeyOf(engine, None)))
    else if !engine.compiles(regex.value) then Failure("SyntaxError: " + engine.syntaxError(regex.value))
    else Success(GroupToMap(logLines, CorrectedRegexKeyOf(engine, regex)))
  }

  /** With `(a)?b` stored, a line described "b" forms a group keyed
      undefined; the corrected grouping puts it under null. */
  lemma StoredRegexUndefinedGroup(engine: Engine, line: LogLine)
    requires engine.compiles("(a)?b")
    requires engine.exec("(a)?b", Trim(line.description)) == Some([Captured("b"), NotParticipating])
    ensures GroupByStoredRegex(engine, Str("(a)?b"), [line]) == Success([Entry(UndefinedKey, [line])])
    ensures GroupByStoredRegexCorrected(engine, Str("(a)?b"), [line]) == Success([Entry(NullKey, [line])])
  {
    assert Truthy(Str("(a)?b")) && ToJsString(Str("(a)?b")) == "(a)?b";
    ExtractGroupingKeyUndefinedWitness(engine, line);
    SingleLineGroup(line, RegexKeyOf(engine, Some("(a)?b")), UndefinedKey);
    SingleLineGroup(line, CorrectedRegexKeyOf(engine, Some("(a)?b")), NullKey);
  }

  lemma SingleLineGroup(line: LogLine, key: LogLine -> GroupKey, k: GroupKey)
    requires key(line) == k
    ensures GroupToMap([line], key) == [Entry(k, [line])]
  {
    GroupToMapSingleKey([line], key, k);
  }

  /** A key function that never yields undefined yields no undefined group. */
  lemma NoUndefinedGroup(logLines: seq<LogLine>, key: LogLine -> GroupKey)
    requires forall line :: !key(line).UndefinedKey?
    ensures forall i :: 0 <= i < |GroupToMap(logLines, key)| ==> !GroupToMap(logLines, key)[i].key.UndefinedKey?
  {
    forall i | 0 <= i < |GroupToMap(logLines, key)| ensures !GroupToMap(logLines, key)[i].key.UndefinedKey? {
      GroupToMapItems(logLines, key, i);
      var g := GroupToMap(logLines, key)[i];
      FilterMembers(logLines, key, g.key);
      assert g.items[0] in g.items;
    }
  }

  /** When group 1 takes part in every match, both versions group alike. */
  lemma GroupByStoredRegexAgreement(engine: Engine, storedRegex: JsValue, logLines: seq<LogLine>)
    requires forall i :: 0 <= i < |logLines| ==> !ExtractGroupingKeyAsWritten(engine, StoredPattern(storedRegex), logLines[i]).UndefinedKey?
    ensures GroupByStoredRegexCorrected(engine, storedRegex, logLines) == GroupByStoredRegex(engine, storedRegex, logLines)
  {
    var regex := StoredPattern(storedRegex);
    forall i | 0 <= i < |logLines| ensures CorrectedRegexKeyOf(engine, regex)(logLines[i]) == RegexKeyOf(engine, regex)(logLines[i]) {
      ExtractGroupingKeyAgreement(engine, regex, logLines[i]);
    }
    GroupToMapCongruent(logLines, CorrectedRegexKeyOf(engine, regex), RegexKeyOf(engine, regex));
  }

  /** In regex mode every group holds, in input order, exactly the lines
      whose as-written key is the group's key, and no key repeats. */
  lemma RegexGroupsAreMatches(engine: Engine, storedRegex: JsValue, logLines: seq<LogLine>, i: int)
    requires GroupByStoredRegex(engine, storedRegex, logLines).Success?
    requires 0 <= i < |GroupByStoredRegex(engine, storedRegex, logLines).value|
    ensures var g := GroupByStoredRegex(engine, storedRegex, logLines).value;
            g[i].items == Filter(logLines, RegexKeyOf(engine, StoredPattern(storedRegex)), g[i].key)
            && |g[i].items| > 0
            && forall j :: 0 <= j < |g| && j != i ==> g[j].key != g[i].key
  {
    var key := RegexKeyOf(engine, StoredPattern(storedRegex));
    var g := GroupToMap(logLines, key);
    GroupToMapItems(logLines, key, i);
    GroupToMapKeys(logLines, key);
    forall j | 0 <= j < |g| && j != i ensures g[j].key != g[i].key {
      assert KeysOf(g)[j] != KeysOf(g)[i];
    }
  }

  /** `groupLogLinesByGroupKey` with the grouping type read through the
      corrected `getCurrentGroupingType`: description mode groups by the
      stored regex (keys as written), any other mode by ticket. */
  function GroupLogLinesByGroupKey(engine: Engine, storedType: JsValue, storedRegex: JsValue, logLines: seq<LogLine>)
    : (r: Result<seq<Entry<GroupKey, LogLine>>, string>)
    ensures GetCurrentGroupingType(storedType) == DescriptionType ==> r == GroupByStoredRegex(engine, storedRegex, logLines)
    ensures GetCurrentGroupingType(storedType) != DescriptionType ==> r == Success(GroupToMap(logLines, TicketKeyOf()))
  {
    if GetCurrentGroupingType(storedType) == DescriptionType then
      GroupByStoredRegex(engine, storedRegex, logLines)
    else
      Success(GroupToMap(logLines, TicketKeyOf()))
  }

  /** `groupLogLinesByGroupKey` as written: it awaits the as-written
      `getCurrentGroupingType` first, whose rejection propagates. */
  function GroupLogLinesByGroupKeyAsWritten(engine: Engine, storedType: JsValue, storedRegex: JsValue, logLines: seq<LogLine>)
    : (r: Result<seq<Entry<GroupKey, LogLine>>, string>)
    ensures GetCurrentGroupingTypeAsWritten(storedType).Failure? ==> r == Failure(GetCurrentGroupingTypeAsWritten(storedType).error)
    ensures r.Success? ==> r == GroupLogLinesByGroupKey(engine, storedType, storedRegex, logLines)
  {
    var t := GetCurrentGroupingTypeAsWritten(storedType);
    if t.Failure? then Failure(t.error)
    else GroupLogLinesByGroupKey(engine, storedType, storedRegex, logLines)
  }

  /** As written, grouping rejects whatever is stored. */
  lemma GroupLogLinesByGroupKeyAlwaysFails(engine: Engine, storedType: JsValue, storedRegex: JsValue, logLines: seq<LogLine>)
    ensures GroupLogLinesByGroupKeyAsWritten(engine, storedType, storedRegex, logLines).Failure?
  {
    GroupingTypeAccessAlwaysFails(storedType, Undefined);
  }

  /** Ticket grouping is used exactly when the current type is not the
      description type, that is when the stored type is the string "ticket". */
  lemma TicketModeExactly(storedType: JsValue)
    ensures GetCurrentGroupingType(storedType) != DescriptionType <==> storedType == Str(TicketType)
  {
  }
}
