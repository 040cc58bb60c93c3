/** `initializeFeatures`: one reconciliation pass that brings every
    registered feature in line with the settings. */
module FeatureInitializer {
  import opened Wrappers
  import opened JsValues
  import opened FeatureRegistry
  import opened FeatureService

  datatype Decision = CallInitialize | CallDeregister | NoCall

  /** `initializeFeature`: initialize when the entry is truthy and the
      feature is not initialized, deregister when the entry is falsy and it
      is, and otherwise leave it alone. A missing entry is falsy. */
  function InitializeFeature(isInitialized: bool, enabledInSettings: JsValue): (d: Decision)
    ensures d == CallInitialize <==> Truthy(enabledInSettings) && !isInitialized
    ensures d == CallDeregister <==> !Truthy(enabledInSettings) && isInitialized
  {
    if Truthy(enabledInSettings) && !isInitialized then CallInitialize
    else if !Truthy(enabledInSettings) && isInitialized then CallDeregister
    else NoCall
  }

  /** The `isInitialized` value of a feature that keeps the lifecycle
      contract, after the decided call completes. */
  function AfterCall(isInitialized: bool, d: Decision): bool {
    match d
    case CallInitialize => true
    case CallDeregister => false
    case NoCall => isInitialized
  }

  /** After the decided call a well-behaved feature is initialized exactly
      when its entry is truthy. */
  lemma AfterCallMatchesSetting(isInitialized: bool, enabledInSettings: JsValue)
    ensures AfterCall(isInitialized, InitializeFeature(isInitialized, enabledInSettings)) == Truthy(enabledInSettings)
  {
  }

  /** One pass: the feature ids in registry order paired with the decision
      taken from the `isInitialized` snapshot and the settings read. A failed
      read calls nothing. */
  function InitializeFeatures(features: seq<Feature>, snapshot: seq<bool>, settingsRead: Result<JsValue, string>)
    : (r: seq<(string, Decision)>)
    requires |snapshot| == |features|
    ensures |r| == |features|
    ensures forall i :: 0 <= i < |r| ==> r[i].0 == features[i].id
    ensures settingsRead.Failure? ==> forall i :: 0 <= i < |r| ==> r[i].1 == NoCall
    ensures settingsRead.Success? ==> forall i :: 0 <= i < |r| ==>
              r[i].1 == InitializeFeature(snapshot[i], Get(settingsRead.value, features[i].id))
    decreases |features|
  {
    if |features| == 0 then []
    else
      var d := if settingsRead.Failure? then NoCall
               else InitializeFeature(snapshot[0], Get(settingsRead.value, features[0].id));
      [(features[0].id, d)] + InitializeFeatures(features[1..], snapshot[1..], settingsRead)
  }

  /** The snapshot after every decided call has completed. */
  function StatusesAfter(snapshot: seq<bool>, decisions: seq<(string, Decision)>): (r: seq<bool>)
    requires |decisions| == |snapshot|
    ensures |r| == |snapshot|
    ensures forall i :: 0 <= i < |r| ==> r[i] == AfterCall(snapshot[i], decisions[i].1)
  {
    seq(|snapshot|, i requires 0 <= i < |snapshot| => AfterCall(snapshot[i], decisions[i].1))
  }

  /** With features that keep the lifecycle contract, a second pass over
      unchanged settings calls nothing. */
  lemma SecondPassCallsNothing(features: seq<Feature>, snapshot: seq<bool>, settings: JsValue)
    requires |snapshot| == |features|
    ensures forall i :: 0 <= i < |features| ==>
              InitializeFeatures(features, StatusesAfter(snapshot, InitializeFeatures(features, snapshot, Success(settings))),
                                 Success(settings))[i].1 == NoCall
  {
    var first := InitializeFeatures(features, snapshot, Success(settings));
    var after := StatusesAfter(snapshot, first);
    forall i | 0 <= i < |features|
      ensures InitializeFeatures(features, after, Success(settings))[i].1 == NoCall
    {
      AfterCallMatchesSetting(snapshot[i], Get(settings, features[i].id));
    }
  }

  /** The pass does not fall back to a default: with no entry a feature is
      never initialized, even one whose default is on, for which the settings
      page shows it as enabled. */
  lemma MissingEntryNeverInitializes(feature: Feature, isInitialized: bool, settings: JsValue)
    requires IsNullish(Get(settings, feature.id))
    requires feature.enabledByDefault == Some(true)
    ensures InitializeFeature(isInitialized, Get(settings, feature.id)) != CallInitialize
    ensures IsFeatureEnabled(feature, settings) == Success(Bool(true))
  {
  }
}
