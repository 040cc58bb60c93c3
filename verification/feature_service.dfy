/** `isFeatureEnabled`: whether a feature counts as enabled, for the
    settings page. */
module FeatureService {
  import opened Wrappers
  import opened JsValues
  import opened FeatureRegistry

  const NoDefaultError: string := "TypeError: feature.isEnabledByDefault is not a function"

  /** The settings entry under the feature id when it is neither null nor
      undefined; otherwise the feature's default. A feature that defines no
      default makes the call throw. */
  function IsFeatureEnabled(feature: Feature, settings: JsValue): (r: Result<JsValue, string>)
    ensures !IsNullish(Get(settings, feature.id)) ==> r == Success(Get(settings, feature.id))
    ensures IsNullish(Get(settings, feature.id)) && feature.enabledByDefault.Some? ==>
              r == Success(Bool(feature.enabledByDefault.value))
    ensures r.Failure? <==> IsNullish(Get(settings, feature.id)) && feature.enabledByDefault.None?
  {
    var enabledInSettings := Get(settings, feature.id);
    if IsNullish(enabledInSettings) then
      match feature.enabledByDefault
      case Some(b) => Success(Bool(b))
      case None => Failure(NoDefaultError)
    else Success(enabledInSettings)
  }

  /** A stored `false` disables the feature even when its default is on. */
  lemma StoredFalseOverridesDefault(feature: Feature, settings: JsValue)
    requires Get(settings, feature.id) == Bool(false)
    ensures IsFeatureEnabled(feature, settings) == Success(Bool(false))
  {
  }

  /** Only the entry under the feature's own id matters. */
  lemma IsFeatureEnabledReadsOwnEntry(feature: Feature, s1: JsValue, s2: JsValue)
    requires Get(s1, feature.id) == Get(s2, feature.id)
    ensures IsFeatureEnabled(feature, s1) == IsFeatureEnabled(feature, s2)
  {
  }

  /** None of the registered features defines a default, so for them a
      missing entry throws. */
  lemma RegisteredFeaturesHaveNoDefault(settings: JsValue, i: int)
    requires 0 <= i < |Registered|
    requires IsNullish(Get(settings, Registered[i].id))
    ensures IsFeatureEnabled(Registered[i], settings).Failure?
  {
  }
}
