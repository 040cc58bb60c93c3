/** The projects-time feature: partitions the fetched log lines by project,
    groups each project's lines by its stored regex, finds the project's row
    on the page, and reads the date pickers' `dd.mm.yyyy` values. */
module ProjectsTime {
  import opened Wrappers
  import opened JsValues
  import opened Decimal
  import opened Text
  import opened Ordering
  import opened RegexOracle
  import opened LogLines
  import opened CollectionService
  import opened StorageService
  import opened ProjectsTimeDataStorage
  import opened GroupingService
  import opened ProjectsTimeElementBuilder

  const FeatureId: string := "projects-time"

  function ProjectKeyOf(): LogLine -> string {
    line => ProjectNameOf(line)
  }

  function ProjectEntryName(e: Entry<string, LogLine>): string {
    e.key
  }

  /** `modifyProjectsTimeEntries`: lines grouped by project name, projects in
      collation order of their names. */
  function PartitionByProject(logLines: seq<LogLine>, leq: (string, string) -> bool)
    : (projects: seq<Entry<string, LogLine>>)
    requires TotalPreorder(leq)
    ensures SortedBy(projects, ProjectEntryName, leq)
    ensures multiset(projects) == multiset(GroupToMap(logLines, ProjectKeyOf()))
  {
    Sort(GroupToMap(logLines, ProjectKeyOf()), ProjectEntryName, leq)
  }

  /** Two positions of the sorted projects hold different project names. */
  lemma PartitionByProjectDistinct(logLines: seq<LogLine>, leq: (string, string) -> bool, i: int, j: int)
    requires TotalPreorder(leq)
    requires 0 <= i < |PartitionByProject(logLines, leq)|
    requires 0 <= j < |PartitionByProject(logLines, leq)| && j != i
    ensures PartitionByProject(logLines, leq)[j].key != PartitionByProject(logLines, leq)[i].key
  {
    var groups := GroupToMap(logLines, ProjectKeyOf());
    var projects := PartitionByProject(logLines, leq);
    assert projects[i] in multiset(groups);
    var k :| 0 <= k < |groups| && groups[k] == projects[i];
    assert projects[j] in multiset(groups);
    var l :| 0 <= l < |groups| && groups[l] == projects[j];
    GroupToMapKeys(logLines, ProjectKeyOf());
    if l == k {
      ElementsAtTwoIndices(projects, i, j);
      GroupToMapCountOne(logLines, ProjectKeyOf(), k);
    } else {
      assert KeysOf(groups)[k] != KeysOf(groups)[l];
    }
  }

  /** Every line appears in exactly the group of its project, in input
      order, and each project appears once. */
  lemma PartitionByProjectGroups(logLines: seq<LogLine>, leq: (string, string) -> bool, i: int)
    requires TotalPreorder(leq)
    requires 0 <= i < |PartitionByProject(logLines, leq)|
    ensures PartitionByProject(logLines, leq)[i].items
         == Filter(logLines, ProjectKeyOf(), PartitionByProject(logLines, leq)[i].key)
    ensures PartitionByProject(logLines, leq)[i].key in KeySeq(logLines, ProjectKeyOf())
    ensures forall j :: 0 <= j < |PartitionByProject(logLines, leq)| && j != i ==>
              PartitionByProject(logLines, leq)[j].key != PartitionByProject(logLines, leq)[i].key
  {
    var groups := GroupToMap(logLines, ProjectKeyOf());
    var projects := PartitionByProject(logLines, leq);
    var e := projects[i];
    assert e in multiset(groups);
    var k :| 0 <= k < |groups| && groups[k] == e;
    GroupToMapItems(logLines, ProjectKeyOf(), k);
    GroupToMapKeys(logLines, ProjectKeyOf());
    var j0 := SourceKey(KeySeq(logLines, ProjectKeyOf()), k);
    forall j | 0 <= j < |projects| && j != i ensures projects[j].key != e.key {
      PartitionByProjectDistinct(logLines, leq, i, j);
    }
  }

  lemma ElementsAtTwoIndices<T>(s: seq<T>, i: int, j: int)
    requires 0 <= i < |s| && 0 <= j < |s| && i != j && s[i] == s[j]
    ensures multiset(s)[s[i]] >= 2
  {
    var lo, hi := if i < j then i else j, if i < j then j else i;
    assert s == s[..lo] + [s[lo]] + s[lo + 1..hi] + [s[hi]] + s[hi + 1..];
  }

  /** Groups have distinct keys, so each occurs once. */
  lemma GroupToMapCountOne<K, T>(xs: seq<T>, key: T -> K, k: int)
    requires 0 <= k < |GroupToMap(xs, key)|
    ensures multiset(GroupToMap(xs, key))[GroupToMap(xs, key)[k]] == 1
  {
    var m := GroupToMap(xs, key);
    GroupToMapKeys(xs, key);
    CountOneOfDistinct(m, k);
  }

  lemma {:induction false} CountOneOfDistinct<K, T>(m: seq<Entry<K, T>>, k: int)
    requires 0 <= k < |m| && Distinct(KeysOf(m))
    ensures multiset(m)[m[k]] == 1
    decreases |m|
  {
    var t := m[1..];
    assert m == [m[0]] + t;
    assert multiset(m) == multiset{m[0]} + multiset(t);
    assert KeysOf(t) == KeysOf(m)[1..];
    if k == 0 {
      assert m[0] !in t by {
        forall u | 0 <= u < |t| ensures t[u] != m[0] {
          assert KeysOf(m)[u + 1] != KeysOf(m)[0];
        }
      }
      assert multiset(t)[m[0]] == 0;
    } else {
      assert Distinct(KeysOf(t));
      CountOneOfDistinct(t, k - 1);
      assert t[k - 1] == m[k];
      assert m[0] != m[k] by {
        assert KeysOf(m)[0] != KeysOf(m)[k];
      }
    }
  }

  /** `groupLogLinesByGroupKey` of this feature: by the regex stored for the
      project, with the key of `extractGroupingKey` as written; a stored
      value that does not compile rejects. */
  function GroupLogLinesByGroupKey(engine: Engine, st: Storage, projectName: string, logLines: seq<LogLine>)
    : (r: Result<seq<Entry<GroupKey, LogLine>>, string>)
    ensures !Truthy(GetGroupRegexByProject(st, FeatureId, projectName)) ==>
              r == Success(if |logLines| == 0 then [] else [Entry(NullKey, logLines)])
    ensures r.Failure? <==> Truthy(GetGroupRegexByProject(st, FeatureId, projectName))
                            && !engine.compiles(ToJsString(GetGroupRegexByProject(st, FeatureId, projectName)))
    ensures r.Success? && Truthy(GetGroupRegexByProject(st, FeatureId, projectName)) ==>
              r.value == GroupToMap(logLines, RegexKeyOf(engine, Some(ToJsString(GetGroupRegexByProject(st, FeatureId, projectName)))))
  {
    GroupByStoredRegex(engine, GetGroupRegexByProject(st, FeatureId, projectName), logLines)
  }

  /** The same grouping with the corrected key: no group is keyed undefined. */
  function GroupLogLinesByGroupKeyCorrected(engine: Engine, st: Storage, projectName: string, logLines: seq<LogLine>)
    : (r: Result<seq<Entry<GroupKey, LogLine>>, string>)
    ensures !Truthy(GetGroupRegexByProject(st, FeatureId, projectName)) ==>
              r == Success(if |logLines| == 0 then [] else [Entry(NullKey, logLines)])
    ensures r.Failure? <==> Truthy(GetGroupRegexByProject(st, FeatureId, projectName))
                            && !engine.compiles(ToJsString(GetGroupRegexByProject(st, FeatureId, projectName)))
    ensures r.Success? && Truthy(GetGroupRegexByProject(st, FeatureId, projectName)) ==>
              r.value == GroupToMap(logLines, CorrectedRegexKeyOf(engine, Some(ToJsString(GetGroupRegexByProject(st, FeatureId, projectName)))))
    ensures r.Success? ==> forall i :: 0 <= i < |r.value| ==> !r.value[i].key.UndefinedKey?
  {
    GroupByStoredRegexCorrected(engine, GetGroupRegexByProject(st, FeatureId, projectName), logLines)
  }

  /** With the regex `(a)?b` stored for the project, a line described "b"
      forms a group keyed undefined, titled "undefined"; the corrected
      grouping puts it under null, titled "Ungrouped". */
  lemma GroupingUndefinedWitness(engine: Engine, st: Storage, projectName: string, line: LogLine)
    requires GetGroupRegexByProject(st, FeatureId, projectName) == Str("(a)?b")
    requires engine.compiles("(a)?b")
    requires engine.exec("(a)?b", Trim(line.description)) == Some([Captured("b"), NotParticipating])
    ensures GroupLogLinesByGroupKey(engine, st, projectName, [line]) == Success([Entry(UndefinedKey, [line])])
    ensures GroupTitle(UndefinedKey) == "undefined"
    ensures GroupLogLinesByGroupKeyCorrected(engine, st, projectName, [line]) == Success([Entry(NullKey, [line])])
    ensures GroupTitle(NullKey) == DefaultLogGroupName
  {
    StoredRegexUndefinedGroup(engine, line);
  }

  /** While the store only holds regexes the input accepted, grouping
      never rejects. */
  lemma UsableStoreNeverRejects(engine: Engine, st: Storage, projectName: string, logLines: seq<LogLine>)
    requires UsableRegexStore(engine, st, FeatureId)
    ensures GroupLogLinesByGroupKey(engine, st, projectName, logLines).Success?
  {
    var data := RegexData(st, FeatureId);
    var key := ConvertProjectNameToKey(projectName);
    if key in data.props {
      assert UsableRegexValue(engine, data.props[key]);
    }
  }

  /** A `.worklog-project` element: the text of its first child, if it has children. */
  datatype WorklogProjectElement = WorklogProjectElement(firstChildText: Option<string>)

  predicate NamesProject(e: WorklogProjectElement, projectName: string) {
    e.firstChildText == Some(projectName)
  }

  /** `findWorklogProjectElement`: the first element in document order whose
      first child's text is the project name. */
  function FindWorklogProjectElement(elements: seq<WorklogProjectElement>, projectName: string): (r: Option<nat>)
    ensures r.Some? ==> r.value < |elements| && NamesProject(elements[r.value], projectName)
    ensures r.Some? ==> forall j :: 0 <= j < r.value ==> !NamesProject(elements[j], projectName)
    ensures r.None? ==> forall j :: 0 <= j < |elements| ==> !NamesProject(elements[j], projectName)
    decreases |elements|
  {
    if |elements| == 0 then None
    else if NamesProject(elements[0], projectName) then Some(0)
    else
      match FindWorklogProjectElement(elements[1..], projectName)
      case None => None
      case Some(i) => Some(i + 1)
  }

  /** The arguments `localStringToDate` passes to `Date.UTC`. */
  datatype DateArgs = DateArgs(year: int, monthIndex: int, day: int)

  /** JavaScript's conversion of a string to a number, for unsigned decimal
      integers: surrounding whitespace is ignored and the empty string is 0;
      anything else is NaN (None). */
  function JsStringToNumber(s: string): (r: Option<nat>)
    ensures Trim(s) == "" ==> r == Some(0)
    ensures Trim(s) != "" ==> r == ParseNat(Trim(s))
  {
    var t := Trim(s);
    if t == "" then Some(0) else ParseNat(t)
  }

  /** `localStringToDate`: splits `dd.mm.yyyy` on dots and passes year,
      month - 1 and day to `Date.UTC`; a missing part is undefined, which
      converts to NaN. */
  function LocalStringToDate(localStringDate: string): (r: Option<DateArgs>)
    ensures r.Some? ==> |Split(localStringDate, '.')| >= 3
    ensures r.Some? ==> JsStringToNumber(Split(localStringDate, '.')[2]) == Some(r.value.year)
    ensures r.Some? ==> JsStringToNumber(Split(localStringDate, '.')[1]) == Some(r.value.monthIndex + 1)
    ensures r.Some? ==> JsStringToNumber(Split(localStringDate, '.')[0]) == Some(r.value.day)
    ensures r.None? <==> |Split(localStringDate, '.')| < 3
                         || JsStringToNumber(Split(localStringDate, '.')[0]).None?
                         || JsStringToNumber(Split(localStringDate, '.')[1]).None?
                         || JsStringToNumber(Split(localStringDate, '.')[2]).None?
  {
    var parts := Split(localStringDate, '.');
    if |parts| < 3 then None
    else
      var year, month, day := JsStringToNumber(parts[2]), JsStringToNumber(parts[1]), JsStringToNumber(parts[0]);
      if year.Some? && month.Some? && day.Some? then Some(DateArgs(year.value, month.value - 1, day.value))
      else None
  }

  lemma DigitsAreTrimmed(s: string)
    requires |s| > 0 && AllDigits(s)
    ensures Trim(s) == s
  {
    assert !IsWhitespace(s[0]) && !IsWhitespace(s[|s| - 1]);
    assert TrimStart(s) == s;
  }

  /** A rendered natural number converts back to itself. */
  lemma JsStringToNumberOfNat(n: nat)
    ensures JsStringToNumber(NatToString(n)) == Some(n)
  {
    DigitsAreTrimmed(NatToString(n));
    ParseNatToString(n);
  }

  /** Three dot-free pieces joined by dots split back into those pieces. */
  lemma SplitThree(a: string, b: string, c: string)
    requires '.' !in a && '.' !in b && '.' !in c
    ensures Split(a + "." + b + "." + c, '.') == [a, b, c]
  {
    var parts := [a, b, c];
    assert Join(parts[2..], '.') == c;
    assert Join(parts[1..], '.') == b + "." + c;
    assert Join(parts, '.') == a + "." + b + "." + c;
    SplitJoin(parts, '.');
  }

  lemma DigitsHaveNoDot(s: string)
    requires AllDigits(s)
    ensures '.' !in s
  {
    forall i | 0 <= i < |s| ensures s[i] != '.' {
      assert IsDigit(s[i]);
    }
  }

  lemma LocalStringToDateOfParts(s: string, dd: string, mm: string, yy: string, day: nat, month: nat, year: nat)
    requires Split(s, '.') == [dd, mm, yy]
    requires JsStringToNumber(dd) == Some(day)
    requires JsStringToNumber(mm) == Some(month)
    requires JsStringToNumber(yy) == Some(year)
    ensures LocalStringToDate(s) == Some(DateArgs(year, month - 1, day))
  {
    var parts := Split(s, '.');
    assert |parts| == 3;
    assert parts[0] == dd && parts[1] == mm && parts[2] == yy;
  }

  /** A date written as `d.m.y` reads back as year y, month index m - 1 and day d. */
  lemma LocalStringToDateRoundTrip(day: nat, month: nat, year: nat)
    ensures LocalStringToDate(NatToString(day) + "." + NatToString(month) + "." + NatToString(year))
         == Some(DateArgs(year, month - 1, day))
  {
    var ds, ms, ys := NatToString(day), NatToString(month), NatToString(year);
    DigitsHaveNoDot(ds);
    DigitsHaveNoDot(ms);
    DigitsHaveNoDot(ys);
    SplitThree(ds, ms, ys);
    JsStringToNumberOfNat(day);
    JsStringToNumberOfNat(month);
    JsStringToNumberOfNat(year);
    LocalStringToDateOfParts(ds + "." + ms + "." + ys, ds, ms, ys, day, month, year);
  }

  lemma ZeroPaddedValue(s: string, n: nat)
    requires s == "0" + NatToString(n)
    ensures JsStringToNumber(s) == Some(n)
  {
    var t := NatToString(n);
    assert AllDigits(s);
    DigitsAreTrimmed(s);
    DigitsValueOfNatToString(n);
    DigitsValueLeadingZero(t);
  }

  lemma {:induction false} DigitsValueLeadingZero(t: string)
    requires AllDigits(t)
    ensures AllDigits("0" + t) && DigitsValue("0" + t) == DigitsValue(t)
    decreases |t|
  {
    if |t| > 0 {
      var u := "0" + t;
      assert u[..|u| - 1] == "0" + t[..|t| - 1];
      DigitsValueLeadingZero(t[..|t| - 1]);
    }
  }

  lemma NatToString2024()
    ensures NatToString(2024) == "2024"
  {
    assert NatToString(20) == "20";
    assert NatToString(202) == "202";
  }

  lemma SplitLeadingZeroDate()
    ensures Split("05.03.2024", '.') == ["05", "03", "2024"]
  {
    DigitsHaveNoDot("05");
    DigitsHaveNoDot("03");
    DigitsHaveNoDot("2024");
    SplitThree("05", "03", "2024");
    assert "05" + "." + "03" + "." + "2024" == "05.03.2024";
  }

  lemma LeadingZeroDay()
    ensures JsStringToNumber("05") == Some(5)
  {
    assert NatToString(5) == "5";
    ZeroPaddedValue("05", 5);
  }

  lemma LeadingZeroMonth()
    ensures JsStringToNumber("03") == Some(3)
  {
    assert NatToString(3) == "3";
    ZeroPaddedValue("03", 3);
  }

  lemma Year2024()
    ensures JsStringToNumber("2024") == Some(2024)
  {
    NatToString2024();
    JsStringToNumberOfNat(2024);
  }

  /** Leading zeros are read as decimal: "05.03.2024" is 5 March 2024. */
  lemma LocalStringToDateLeadingZeros()
    ensures LocalStringToDate("05.03.2024") == Some(DateArgs(2024, 2, 5))
  {
    SplitLeadingZeroDate();
    LeadingZeroDay();
    LeadingZeroMonth();
    Year2024();
    LocalStringToDateOfParts("05.03.2024", "05", "03", "2024", 5, 3, 2024);
  }

  /** A value without the three parts converts to NaN. */
  lemma LocalStringToDateMissingParts(localStringDate: string)
    requires '.' !in localStringDate
    ensures LocalStringToDate(localStringDate) == None
  {
    assert Split(localStringDate, '.') == [localStringDate] by {
      SplitJoin([localStringDate], '.');
    }
  }

  /** The feature's lifecycle: the overlay observer and the `initialized` flag. */
  datatype FeatureState = FeatureState(observing: bool, initialized: bool)

  /** `initialize`: starts the modification, which disconnects the observer
      and reconnects it once the modification completes, and sets the flag
      without waiting for it. */
  function Initialize(s: FeatureState, modificationCompletes: bool): (s': FeatureState)
    ensures s'.initialized
    ensures s'.observing == modificationCompletes
  {
    FeatureState(modificationCompletes, true)
  }

  /** `deregister`: disconnects the observer and clears the flag. */
  function Deregister(s: FeatureState): (s': FeatureState)
    ensures !s'.initialized && !s'.observing
  {
    FeatureState(false, false)
  }

  /** Neither step depends on the state before it: deregistering undoes an
      initialize, and initializing after a deregister is initializing. */
  lemma LifecycleIgnoresPriorState(s: FeatureState, t: FeatureState, modificationCompletes: bool)
    ensures Initialize(s, modificationCompletes) == Initialize(t, modificationCompletes)
    ensures Deregister(Initialize(s, modificationCompletes)) == Deregister(s)
    ensures Initialize(Deregister(s), modificationCompletes) == Initialize(s, modificationCompletes)
  {
  }
}
