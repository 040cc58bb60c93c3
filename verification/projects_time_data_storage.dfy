/** The per-project regex store of the projects-time feature: one feature
    data object under the data key `regex`, holding a regex string per
    project key, updated by read-modify-write. */
module ProjectsTimeDataStorage {
  import opened Wrappers
  import opened JsValues
  import opened StorageService
  import opened Text

  const RegexDataStorageKey: string := "regex"

  /** `convertProjectNameToKey`: every space becomes a hyphen. */
  function ConvertProjectNameToKey(projectName: string): (key: string)
    ensures |key| == |projectName|
    ensures ' ' !in key
    ensures forall i :: 0 <= i < |key| ==> key[i] == (if projectName[i] == ' ' then '-' else projectName[i])
  {
    ReplaceAll(projectName, ' ', '-')
  }

  lemma ConvertProjectNameToKeyIdempotent(projectName: string)
    ensures ConvertProjectNameToKey(ConvertProjectNameToKey(projectName)) == ConvertProjectNameToKey(projectName)
  {
  }

  /** A name without spaces is its own key. */
  lemma ConvertProjectNameToKeyFixesSpaceFree(projectName: string)
    requires ' ' !in projectName
    ensures ConvertProjectNameToKey(projectName) == projectName
  {
  }

  /** Names that differ only by a space versus a hyphen share one key. */
  lemma ConvertProjectNameToKeyNotInjective()
    ensures ConvertProjectNameToKey("a b") == ConvertProjectNameToKey("a-b")
    ensures "a b" != "a-b"
  {
    assert ConvertProjectNameToKey("a b") == "a-b";
  }

  /** The stored regex object of a feature (`{}` when nothing usable is stored). */
  function RegexData(st: Storage, featureId: string): JsValue {
    GetFeatureData(st, featureId, RegexDataStorageKey)
  }

  /** `getGroupRegexByProject`: the value stored under the project key, or
      undefined when there is none. */
  function GetGroupRegexByProject(st: Storage, featureId: string, projectName: string): (r: JsValue)
    ensures RegexData(st, featureId).Obj? && ConvertProjectNameToKey(projectName) in RegexData(st, featureId).props ==>
              r == RegexData(st, featureId).props[ConvertProjectNameToKey(projectName)]
    ensures !(RegexData(st, featureId).Obj? && ConvertProjectNameToKey(projectName) in RegexData(st, featureId).props) ==>
              r == Undefined
  {
    Get(RegexData(st, featureId), ConvertProjectNameToKey(projectName))
  }

  /** `saveGroupRegexForProject`: reads the regex object, sets the project
      key and writes the whole object back. When the stored value is a truthy
      primitive, assigning a property to it throws (module code is strict),
      so nothing is written. */
  function SaveGroupRegexForProject(st: Storage, featureId: string, projectName: string, newRegexValue: string)
    : (r: Result<Storage, string>)
    ensures r.Success? <==> RegexData(st, featureId).Obj?
    ensures r.Success? ==> r.value.local == st.local
    ensures r.Success? ==> forall k :: k != FeatureDataKey(featureId, RegexDataStorageKey) ==> Read(r.value.sync, k) == Read(st.sync, k)
  {
    var data := RegexData(st, featureId);
    if data.Obj? then
      Success(StoreFeatureData(st, featureId, RegexDataStorageKey,
                               Obj(data.props[ConvertProjectNameToKey(projectName) := Str(newRegexValue)])))
    else
      Failure("TypeError: cannot create property on primitive")
  }

  /** After a successful save, reading the project's regex yields the saved value. */
  lemma SaveThenGet(st: Storage, featureId: string, projectName: string, newRegexValue: string)
    requires SaveGroupRegexForProject(st, featureId, projectName, newRegexValue).Success?
    ensures GetGroupRegexByProject(SaveGroupRegexForProject(st, featureId, projectName, newRegexValue).value,
                                   featureId, projectName) == Str(newRegexValue)
  {
  }

  /** Saving for one project leaves the regex of every project with a
      different key, and of every other feature, as it was. */
  lemma SaveKeepsOtherProjects(st: Storage, featureId: string, projectName: string, newRegexValue: string,
                               otherFeature: string, otherProject: string)
    requires SaveGroupRegexForProject(st, featureId, projectName, newRegexValue).Success?
    requires featureId != otherFeature || ConvertProjectNameToKey(otherProject) != ConvertProjectNameToKey(projectName)
    ensures GetGroupRegexByProject(SaveGroupRegexForProject(st, featureId, projectName, newRegexValue).value,
                                   otherFeature, otherProject)
         == GetGroupRegexByProject(st, otherFeature, otherProject)
  {
    if featureId != otherFeature {
      FeatureIdsSeparated(featureId, otherFeature);
    }
  }

  /** Distinct feature ids give distinct regex storage keys. */
  lemma FeatureIdsSeparated(f: string, g: string)
    requires f != g
    ensures FeatureDataKey(f, RegexDataStorageKey) != FeatureDataKey(g, RegexDataStorageKey)
  {
    var a := FeatureDataKey(f, RegexDataStorageKey);
    var b := FeatureDataKey(g, RegexDataStorageKey);
    if |f| == |g| {
      assert a[5..5 + |f|] == f && b[5..5 + |g|] == g;
    } else {
      assert |a| != |b|;
    }
  }

  /** Nothing stored for the project key reads as undefined. */
  lemma GetMissingIsUndefined(st: Storage, featureId: string, projectName: string)
    requires !RegexData(st, featureId).Obj? || ConvertProjectNameToKey(projectName) !in RegexData(st, featureId).props
    ensures GetGroupRegexByProject(st, featureId, projectName) == Undefined
  {
  }

  /** On a fresh store the first save succeeds and writes an object holding
      exactly that one project. */
  lemma SaveIntoEmptyStore(featureId: string, projectName: string, newRegexValue: string)
    ensures SaveGroupRegexForProject(Storage(map[], map[]), featureId, projectName, newRegexValue)
         == Success(Storage(map[FeatureDataKey(featureId, RegexDataStorageKey)
                                 := Obj(map[ConvertProjectNameToKey(projectName) := Str(newRegexValue)])], map[]))
  {
  }
}
