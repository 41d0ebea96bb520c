/**
 * `LicenseUtils`: which features the registered license grants, the free
 * quotas that apply to unlicensed use, the access-token scopes that grant
 * features temporarily, and the walk to the innermost exception.
 */
module LicenseUtils {
  import opened Common
  import opened LicenseFeature

  datatype QuotaType = Operations | Types | Fields | RequestsPerHour | Tables | PremiumFeature

  /** The license types that have a case in `GetLicensedFeatures`, and any other value of the enumeration. */
  datatype LicenseType =
    | FreeLicense | Indie | Business | Enterprise
    | TextIndie | TextBusiness | OrmLiteIndie | OrmLiteBusiness | RedisIndie | RedisBusiness
    | OtherType(code: int)

  datatype LicenseKey = LicenseKey(licenseType: LicenseType)

  /** The message templates for an exceeded quota. */
  datatype Message =
    ExceededTextTypes | ExceededRedisTypes | ExceededRedisRequests | ExceededOrmLiteTables
    | ExceededServiceStackOperations | ExceededAdminUi | ExceededPremiumFeature

  datatype LicenseError =
    | QuotaExceeded(message: Message, allowed: int)
    | UnknownQuotaUsage(feature: Features, quota: QuotaType)
    | UnknownLicenseType(licenseType: LicenseType)

  /** What a call that may throw a license error did. */
  datatype Outcome<+T> = Returns(value: T) | Throws(error: LicenseError)

  const FREE_SERVICESTACK_OPERATIONS: int := 10
  const FREE_TYPE_FIELDS: int := 20
  const FREE_TEXT_TYPES: int := 20
  const FREE_REDIS_TYPES: int := 20
  const FREE_REDIS_REQUESTS_PER_HOUR: int := 6000
  const FREE_ORMLITE_TABLES: int := 10
  const FREE_PREMIUM_FEATURE: int := 0

  /** `GetLicensedFeatures`: the features a license type grants; an unlisted type is an argument error. */
  function GetLicensedFeatures(key: LicenseKey): (r: Outcome<Features>)
    ensures r.Throws? <==> key.licenseType.OtherType?
  {
    match key.licenseType
    case FreeLicense => Returns(FREE)
    case Indie | Business | Enterprise => Returns(ALL)
    case TextIndie | TextBusiness => Returns(TEXT)
    case OrmLiteIndie | OrmLiteBusiness => Returns(ORMLITE_SKU)
    case RedisIndie | RedisBusiness => Returns(REDIS_SKU)
    case OtherType(_) => Throws(UnknownLicenseType(key.licenseType))
  }

  /**
   * Every license grants a part of `All`; exactly the three full licenses
   * grant all of it, and only the free license grants nothing.
   */
  lemma LicensedFeaturesWithinAll(key: LicenseKey)
    ensures GetLicensedFeatures(key).Returns? ==> Includes(ALL, GetLicensedFeatures(key).value)
    ensures key.licenseType in {Indie, Business, Enterprise} <==> GetLicensedFeatures(key) == Returns(ALL)
    ensures key.licenseType == FreeLicense <==> GetLicensedFeatures(key) == Returns(NONE)
  {
    FeatureValues();
    var r := GetLicensedFeatures(key);
    if r.Returns? {
      AllIncludesFeatures(r.value);
    }
  }

  /** `ActivatedLicenseFeatures`: no license grants nothing. */
  function ActivatedFeatures(activated: Option<LicenseKey>): (r: Outcome<Features>)
    ensures activated.None? ==> r == Returns(NONE)
    ensures activated.Some? ==> r == GetLicensedFeatures(activated.value)
  {
    if activated.Some? then GetLicensedFeatures(activated.value) else Returns(NONE)
  }

  /** `HasLicensedFeature`: whether the activated license grants every bit of `feature`. */
  function HasLicensedFeature(activated: Option<LicenseKey>, feature: Features): (r: Outcome<bool>)
    ensures ActivatedFeatures(activated).Throws? <==> r.Throws?
    ensures r.Returns? ==> (r.value <==> Includes(ActivatedFeatures(activated).value, feature))
    ensures activated.None? ==> r == Returns(feature == NONE)
  {
    match ActivatedFeatures(activated)
    case Returns(licensed) => Returns(And(feature, licensed) == feature)
    case Throws(e) => Throws(e)
  }

  /**
   * `ApprovedUsage`: licensed use is always approved; unlicensed use is
   * refused once the usage exceeds the allowance.
   */
  function ApprovedUsage(licenseFeature: Features, requestedFeature: Features, allowedUsage: int, actualUsage: int,
                         message: Message): (r: Option<LicenseError>)
    ensures Includes(licenseFeature, requestedFeature) ==> r.None?
    ensures !Includes(licenseFeature, requestedFeature) ==>
      (r.Some? <==> actualUsage > allowedUsage)
    ensures r.Some? ==> r.value == QuotaExceeded(message, allowedUsage)
  {
    var hasFeature := And(requestedFeature, licenseFeature) == requestedFeature;
    if hasFeature then None
    else if actualUsage > allowedUsage then Some(QuotaExceeded(message, allowedUsage))
    else None
  }

  /** The free quota of a (feature, quota) pair, with its message; `None` for a pair without one. */
  function FreeQuota(feature: Features, quota: QuotaType): (r: Option<(int, Message)>)
  {
    if feature == TEXT && quota == Types then Some((FREE_TEXT_TYPES, ExceededTextTypes))
    else if feature == REDIS && quota == Types then Some((FREE_REDIS_TYPES, ExceededRedisTypes))
    else if feature == REDIS && quota == RequestsPerHour then Some((FREE_REDIS_REQUESTS_PER_HOUR, ExceededRedisRequests))
    else if feature == ORMLITE && quota == Tables then Some((FREE_ORMLITE_TABLES, ExceededOrmLiteTables))
    else if feature == SERVICESTACK && quota == Operations then
      Some((FREE_SERVICESTACK_OPERATIONS, ExceededServiceStackOperations))
    else if feature == ADMIN && quota == PremiumFeature then Some((FREE_PREMIUM_FEATURE, ExceededAdminUi))
    else if feature == PREMIUM && quota == PremiumFeature then Some((FREE_PREMIUM_FEATURE, ExceededPremiumFeature))
    else None
  }

  /**
   * `AssertValidUsage` given the licensed features and the features of the
   * current access-token scope: a license for everything, or a scope that
   * covers the feature, allows any use; otherwise the free quota of the pair
   * applies, and a pair without one is an error.
   */
  function ValidUsage(licensed: Features, scope: Option<Features>, feature: Features, quota: QuotaType,
                      count: int): (r: Option<LicenseError>)
    ensures Includes(licensed, ALL) ==> r.None?
    ensures scope.Some? && Includes(scope.value, feature) ==> r.None?
    ensures r == Some(UnknownQuotaUsage(feature, quota)) <==>
      !Includes(licensed, ALL) && !(scope.Some? && Includes(scope.value, feature)) && FreeQuota(feature, quota).None?
  {
    if And(ALL, licensed) == ALL then None
    else if scope.Some? && And(feature, scope.value) == feature then None
    else
      var q := FreeQuota(feature, quota);
      if q.None? then Some(UnknownQuotaUsage(feature, quota))
      else ApprovedUsage(licensed, feature, q.value.0, count, q.value.1)
  }

  /**
   * Without a license or a scope, the free quotas of Text and Redis are 20
   * Text types, 20 Redis types and 6000 Redis requests an hour; a use is
   * refused exactly when it goes over its quota, and a pair without a quota
   * is an error.
   */
  lemma FreeQuotaTable(count: int)
    ensures ValidUsage(NONE, None, TEXT, Types, count).None? <==> count <= 20
    ensures ValidUsage(NONE, None, REDIS, Types, count).None? <==> count <= 20
    ensures ValidUsage(NONE, None, REDIS, RequestsPerHour, count).None? <==> count <= 6000
    ensures ValidUsage(NONE, None, REDIS, Fields, count) == Some(UnknownQuotaUsage(REDIS, Fields))
  {
    FeatureValues();
  }

  /** The rest of the free quotas: 10 OrmLite tables, 10 ServiceStack operations, no premium or Admin use. */
  lemma FreeQuotaTableRest(count: int)
    ensures ValidUsage(NONE, None, ORMLITE, Tables, count).None? <==> count <= 10
    ensures ValidUsage(NONE, None, SERVICESTACK, Operations, count).None? <==> count <= 10
    ensures ValidUsage(NONE, None, ADMIN, PremiumFeature, count).None? <==> count <= 0
    ensures ValidUsage(NONE, None, PREMIUM, PremiumFeature, count).None? <==> count <= 0
  {
    FeatureValues();
  }

  /**
   * A license that includes the feature makes every pair with a free quota
   * unlimited; a partial license never lifts an unknown pair's error.
   */
  lemma LicensedFeatureUnlimited(licensed: Features, feature: Features, quota: QuotaType, count: int)
    requires Includes(licensed, feature) && FreeQuota(feature, quota).Some?
    ensures ValidUsage(licensed, None, feature, quota, count).None?
  {
  }

  /** A Redis SKU license lifts the Redis quotas but not the OrmLite one. */
  lemma RedisSkuQuotas(count: int)
    requires count > 10
    ensures ValidUsage(REDIS_SKU, None, REDIS, RequestsPerHour, count).None?
    ensures ValidUsage(REDIS_SKU, None, ORMLITE, Tables, count) == Some(QuotaExceeded(ExceededOrmLiteTables, 10))
  {
    FeatureValues();
  }

  // ---------------------------------------------------------------- the registered license and the token scope

  /**
   * An access token: the features it grants while it is the current scope,
   * and the scope it replaced.
   */
  class AccessToken {
    const prevToken: AccessToken?
    const tempFeatures: Features

    /** `new AccessToken(requested)`: becomes the current scope, remembering the one before. */
    constructor (state: LicenseState, requested: Features)
      modifies state
      ensures state.accessTokenScope == this
      ensures prevToken == old(state.accessTokenScope) && tempFeatures == requested
      ensures state.activatedLicense == old(state.activatedLicense)
    {
      prevToken := state.accessTokenScope;
      tempFeatures := requested;
      new;
      state.accessTokenScope := this;
    }

    /** `Dispose`: the scope this token replaced becomes current again. */
    method Dispose(state: LicenseState)
      modifies state
      ensures state.accessTokenScope == prevToken
      ensures state.activatedLicense == old(state.activatedLicense)
    {
      state.accessTokenScope := prevToken;
    }
  }

  /** The static state: the activated license and the current access-token scope. */
  class LicenseState {
    var activatedLicense: Option<LicenseKey>
    var accessTokenScope: AccessToken?

    constructor ()
      ensures activatedLicense.None? && accessTokenScope == null
    {
      activatedLicense := None;
      accessTokenScope := null;
    }

    /** The features of the current scope, if there is one. */
    function ScopeFeatures(): (r: Option<Features>)
      reads this, accessTokenScope
      ensures r.Some? <==> accessTokenScope != null
    {
      if accessTokenScope == null then None else Some(accessTokenScope.tempFeatures)
    }

    /** `RemoveLicense`: afterwards nothing is licensed. */
    method RemoveLicense()
      modifies this
      ensures activatedLicense.None? && accessTokenScope == old(accessTokenScope)
      ensures ActivatedFeatures(activatedLicense) == Returns(NONE)
    {
      activatedLicense := None;
    }

    /** `AssertValidUsage`: `None` when the use is allowed, the error thrown otherwise. */
    method AssertValidUsage(feature: Features, quota: QuotaType, count: int) returns (r: Option<LicenseError>)
      ensures ActivatedFeatures(activatedLicense).Throws? ==> r == Some(ActivatedFeatures(activatedLicense).error)
      ensures ActivatedFeatures(activatedLicense).Returns? ==>
        r == ValidUsage(ActivatedFeatures(activatedLicense).value, ScopeFeatures(), feature, quota, count)
    {
      var licensed := ActivatedFeatures(activatedLicense);
      if licensed.Throws? {
        return Some(licensed.error);
      }
      if And(ALL, licensed.value) == ALL {
        return None;
      }
      if accessTokenScope != null {
        if And(feature, accessTokenScope.tempFeatures) == feature {
          return None;
        }
      }
      var q := FreeQuota(feature, quota);
      if q.None? {
        return Some(UnknownQuotaUsage(feature, quota));
      }
      r := ApprovedUsage(licensed.value, feature, q.value.0, count, q.value.1);
    }

    /**
     * Two tokens used one inside the other (`using` blocks): inside both, the
     * inner token's features are in scope; after the inner one is disposed the
     * outer one's are; after both, the scope is what it was before.
     */
    method NestedScopes(outer: Features, inner: Features) returns (innerSeen: Features, outerSeen: Features)
      modifies this
      ensures innerSeen == inner && outerSeen == outer
      ensures accessTokenScope == old(accessTokenScope) && activatedLicense == old(activatedLicense)
    {
      var a := new AccessToken(this, outer);
      var b := new AccessToken(this, inner);
      innerSeen := accessTokenScope.tempFeatures;
      b.Dispose(this);
      outerSeen := accessTokenScope.tempFeatures;
      a.Dispose(this);
    }
  }

  // ---------------------------------------------------------------- innermost exception

  /** An exception and the chain of inner exceptions under it. */
  datatype Exn = Exn(message: string, innerException: Option<Exn>)

  /** The chain from `ex` down to the exception with no inner one. */
  function Chain(ex: Exn): (r: seq<Exn>)
    ensures |r| >= 1 && r[0] == ex
  {
    match ex.innerException
    case None => [ex]
    case Some(inner) => [ex] + Chain(inner)
  }

  /** Each exception of the chain is the inner exception of the one before it, and only the last has none. */
  lemma {:induction false} ChainLinks(ex: Exn)
    ensures forall i :: 0 <= i < |Chain(ex)| - 1 ==> Chain(ex)[i].innerException == Some(Chain(ex)[i + 1])
    ensures Chain(ex)[|Chain(ex)| - 1].innerException.None?
  {
    match ex.innerException
    case None =>
    case Some(inner) =>
      ChainLinks(inner);
      var c := Chain(ex);
      assert c[1..] == Chain(inner);
      forall i | 0 <= i < |c| - 1
        ensures c[i].innerException == Some(c[i + 1])
      {
        if i > 0 {
          assert c[i] == Chain(inner)[i - 1];
        }
      }
  }

  /** `GetInnerMostException`: follows inner exceptions until one has none; it is the end of the chain. */
  method GetInnerMostException(ex: Exn) returns (r: Exn)
    ensures r.innerException.None?
    ensures r == Chain(ex)[|Chain(ex)| - 1]
  {
    r := ex;
    while r.innerException.Some?
      invariant Chain(r)[|Chain(r)| - 1] == Chain(ex)[|Chain(ex)| - 1]
      decreases r
    {
      r := r.innerException.value;
    }
  }
}
