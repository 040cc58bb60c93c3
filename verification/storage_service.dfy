/** Namespaced access to the two browser storage areas: feature data lives in
    the `sync` area under `data.<featureId>.<dataKey>`, global data in the
    `local` area under `global.<dataKey>`. Reads fall back to `{}` when the
    stored value is absent or falsy. */
module StorageService {
  import opened Wrappers
  import opened JsValues

  const FeatureDataPrefix: string := "data"
  const GlobalDataPrefix: string := "global"
  const KeyDelimiter: char := '.'

  /** The two storage areas, each a map from key to stored value. */
  datatype Storage = Storage(sync: map<string, JsValue>, local: map<string, JsValue>)

  /** `area.get(key)` followed by `result[key]`: undefined when absent. */
  function Read(area: map<string, JsValue>, key: string): (v: JsValue)
    ensures key in area ==> v == area[key]
    ensures key !in area ==> v == Undefined
  {
    if key in area then area[key] else Undefined
  }

  /** The sync key of a feature's data: in the `data.` namespace, ending
      with the feature id, a delimiter and the data key. */
  function FeatureDataKey(featureId: string, dataKey: string): (k: string)
    ensures |k| == |FeatureDataPrefix| + |featureId| + |dataKey| + 2
    ensures k[..|FeatureDataPrefix| + 1] == FeatureDataPrefix + [KeyDelimiter]
    ensures k[|FeatureDataPrefix| + 1..] == featureId + [KeyDelimiter] + dataKey
  {
    FeatureDataPrefix + [KeyDelimiter] + featureId + [KeyDelimiter] + dataKey
  }

  /** The local key of global data: in the `global.` namespace, followed by
      the data key. */
  function GlobalDataKey(dataKey: string): (k: string)
    ensures |k| == |GlobalDataPrefix| + |dataKey| + 1
    ensures k[..|GlobalDataPrefix| + 1] == GlobalDataPrefix + [KeyDelimiter]
    ensures k[|GlobalDataPrefix| + 1..] == dataKey
  {
    GlobalDataPrefix + [KeyDelimiter] + dataKey
  }

  /** Index of the first `c` in `s`, if any. */
  function IndexOf(s: string, c: char): (r: Option<nat>)
    ensures r.Some? ==> r.value < |s| && s[r.value] == c && c !in s[..r.value]
    ensures r.None? ==> c !in s
    decreases |s|
  {
    if |s| == 0 then None
    else if s[0] == c then Some(0)
    else
      match IndexOf(s[1..], c)
      case None => None
      case Some(i) =>
        assert s[..i + 1] == [s[0]] + s[1..][..i];
        Some(i + 1)
  }

  /** Splits a feature data key back into its feature id and data key, reading
      the feature id up to the first delimiter after the prefix. */
  function ParseFeatureDataKey(key: string): (r: Option<(string, string)>)
    ensures r.Some? ==> KeyDelimiter !in r.value.0
    ensures r.Some? ==> FeatureDataKey(r.value.0, r.value.1) == key
  {
    var p := FeatureDataPrefix + [KeyDelimiter];
    if |key| < |p| || key[..|p|] != p then None
    else
      var rest := key[|p|..];
      match IndexOf(rest, KeyDelimiter)
      case None => None
      case Some(i) =>
        assert rest == rest[..i] + [KeyDelimiter] + rest[i + 1..];
        assert key == p + rest;
        Some((rest[..i], rest[i + 1..]))
  }

  /** A feature data key determines its feature id and data key as long as
      the feature id contains no delimiter. */
  lemma ParseFeatureDataKeyRoundTrip(featureId: string, dataKey: string)
    requires KeyDelimiter !in featureId
    ensures ParseFeatureDataKey(FeatureDataKey(featureId, dataKey)) == Some((featureId, dataKey))
  {
    var key := FeatureDataKey(featureId, dataKey);
    var p := FeatureDataPrefix + [KeyDelimiter];
    assert key[..|p|] == p;
    var rest := key[|p|..];
    assert rest == featureId + [KeyDelimiter] + dataKey;
    IndexOfFirst(featureId, dataKey);
    assert rest[..|featureId|] == featureId;
    assert rest[|featureId| + 1..] == dataKey;
  }

  lemma {:induction false} IndexOfFirst(a: string, b: string)
    requires KeyDelimiter !in a
    ensures IndexOf(a + [KeyDelimiter] + b, KeyDelimiter) == Some(|a|)
    decreases |a|
  {
    if |a| > 0 {
      assert (a + [KeyDelimiter] + b)[1..] == a[1..] + [KeyDelimiter] + b;
      IndexOfFirst(a[1..], b);
    }
  }

  /** Feature ids that contain the delimiter are not separated from the data
      key: two different (feature, key) pairs share one storage key. */
  lemma FeatureDataKeyCollision()
    ensures FeatureDataKey("a.b", "c") == FeatureDataKey("a", "b.c")
  {
  }

  /** Feature data and global data never share a key. */
  lemma NamespacesDisjoint(featureId: string, dataKey: string, globalKey: string)
    ensures FeatureDataKey(featureId, dataKey) != GlobalDataKey(globalKey)
  {
    assert FeatureDataKey(featureId, dataKey)[0] == 'd';
    assert GlobalDataKey(globalKey)[0] == 'g';
  }

  /** `getFeatureData`: the stored value, or `{}` when it is absent or falsy. */
  function GetFeatureData(st: Storage, featureId: string, dataKey: string): (r: JsValue)
    ensures Truthy(r)
    ensures Truthy(Read(st.sync, FeatureDataKey(featureId, dataKey))) ==> r == Read(st.sync, FeatureDataKey(featureId, dataKey))
    ensures !Truthy(Read(st.sync, FeatureDataKey(featureId, dataKey))) ==> r == EmptyObject
  {
    var v := Read(st.sync, FeatureDataKey(featureId, dataKey));
    if Truthy(v) then v else EmptyObject
  }

  /** `storeFeatureData`: replaces the whole value under the feature data key. */
  function StoreFeatureData(st: Storage, featureId: string, dataKey: string, data: JsValue): (st': Storage)
    ensures Read(st'.sync, FeatureDataKey(featureId, dataKey)) == data
    ensures forall k :: k != FeatureDataKey(featureId, dataKey) ==> Read(st'.sync, k) == Read(st.sync, k)
    ensures st'.local == st.local
  {
    st.(sync := st.sync[FeatureDataKey(featureId, dataKey) := data])
  }

  /** `getGlobalData`: the value under `global.<dataKey>` in the local area,
      or `{}` when it is absent or falsy. */
  function GetGlobalData(st: Storage, dataKey: string): (r: JsValue)
    ensures Truthy(r)
    ensures Truthy(Read(st.local, GlobalDataKey(dataKey))) ==> r == Read(st.local, GlobalDataKey(dataKey))
    ensures !Truthy(Read(st.local, GlobalDataKey(dataKey))) ==> r == EmptyObject
  {
    var v := Read(st.local, GlobalDataKey(dataKey));
    if Truthy(v) then v else EmptyObject
  }

  /** Reading back what was stored yields it, unless it is falsy, in which
      case the read yields `{}`. */
  lemma StoreThenGet(st: Storage, featureId: string, dataKey: string, data: JsValue)
    ensures Truthy(data) ==> GetFeatureData(StoreFeatureData(st, featureId, dataKey, data), featureId, dataKey) == data
    ensures !Truthy(data) ==> GetFeatureData(StoreFeatureData(st, featureId, dataKey, data), featureId, dataKey) == EmptyObject
  {
  }

  /** Storing feature data leaves all other feature data and all global data as read. */
  lemma StoreKeepsOthers(st: Storage, featureId: string, dataKey: string, data: JsValue,
                         otherFeature: string, otherKey: string, globalKey: string)
    requires FeatureDataKey(otherFeature, otherKey) != FeatureDataKey(featureId, dataKey)
    ensures GetFeatureData(StoreFeatureData(st, featureId, dataKey, data), otherFeature, otherKey)
         == GetFeatureData(st, otherFeature, otherKey)
    ensures GetGlobalData(StoreFeatureData(st, featureId, dataKey, data), globalKey)
         == GetGlobalData(st, globalKey)
  {
  }
}
