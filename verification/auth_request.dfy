/** The authorization requests sent to the quota service, and the dispatcher that builds them. */
module AuthRequests {
  import opened Wrappers

  /** Revoke a token; `ttl` and `expiresAt` describe the same expiry. JSON numbers are integers here. */
  datatype RevokeRequest = RevokeRequest(token: string, ttl: Option<int>, expiresAt: Option<int>)

  /** Ask whether a token is revoked. */
  datatype CheckRevokeRequest = CheckRevokeRequest(token: string)

  /**
   * A quota operation: `dryRun` reports usage without consuming, `reset` sets
   * the counter back to `maxQuota`, neither consumes one unit.
   */
  datatype QuotaRequest = QuotaRequest(
    token: string,
    ttl: Option<int>,
    expiresAt: Option<int>,
    maxQuota: Option<int>,
    dryRun: Option<bool>,
    reset: Option<bool>)

  /** The request envelope: an optional trace id and optional payload fields. */
  datatype AuthRequest = AuthRequest(
    traceId: Option<string>,
    revoke: Option<RevokeRequest>,
    checkRevoke: Option<CheckRevokeRequest>,
    quota: Option<QuotaRequest>)

  /** The parameters of a `use` request: `maxQuota` is required. */
  datatype UseParams = UseParams(token: string, ttl: Option<int>, expiresAt: Option<int>, maxQuota: int)

  /** The parameters of a `usage` request. */
  datatype UsageParams = UsageParams(token: string)

  /** The parameters of a `resetQuota` request. */
  datatype ResetQuotaParams = ResetQuotaParams(token: string, maxQuota: Option<int>)

  /** `RequestParams[K]`: the parameter object that goes with each request kind. */
  datatype RequestParams =
    | Revoke(revoke: RevokeRequest)
    | CheckRevoke(checkRevoke: CheckRevokeRequest)
    | Use(use: UseParams)
    | Usage(usage: UsageParams)
    | ResetQuota(resetQuota: ResetQuotaParams)

  /** The kind tag each parameter shape belongs to. */
  function KindOf(params: RequestParams): string
  {
    match params
    case Revoke(_) => "revoke"
    case CheckRevoke(_) => "checkRevoke"
    case Use(_) => "use"
    case Usage(_) => "usage"
    case ResetQuota(_) => "resetQuota"
  }

  /** The kinds the dispatcher knows (`keyof RequestParams`). */
  const Kinds: set<string> := {"revoke", "checkRevoke", "use", "usage", "resetQuota"}

  /** The error `newAuthRequest` throws. */
  datatype AuthError = UnknownKind(kind: string)

  /** Exactly one payload field is set. */
  predicate HasOnePayload(r: AuthRequest)
  {
    || (r.revoke.Some? && r.checkRevoke.None? && r.quota.None?)
    || (r.revoke.None? && r.checkRevoke.Some? && r.quota.None?)
    || (r.revoke.None? && r.checkRevoke.None? && r.quota.Some?)
  }

  /**
   * `newAuthRequest(kind, params, traceId)`. The type of `params` is tied to
   * `kind` by the TypeScript signature, which the requires clause states; a
   * kind outside `Kinds` is rejected at run time with an error.
   */
  function NewAuthRequest(kind: string, params: RequestParams, traceId: Option<string>): (r: Result<AuthRequest, AuthError>)
    requires kind in Kinds ==> kind == KindOf(params)
    ensures r.Failure? <==> kind !in Kinds
    ensures r.Failure? ==> r.error == UnknownKind(kind)
    ensures r.Success? ==> HasOnePayload(r.value) && r.value.traceId == traceId
    ensures r.Success? && params.Revoke? ==> r.value.revoke == Some(params.revoke)
    ensures r.Success? && params.CheckRevoke? ==> r.value.checkRevoke == Some(params.checkRevoke)
    ensures r.Success? && params.Use? ==>
              var u := params.use;
              r.value.quota == Some(QuotaRequest(u.token, u.ttl, u.expiresAt, Some(u.maxQuota), None, None))
    ensures r.Success? && params.Usage? ==>
              r.value.quota == Some(QuotaRequest(params.usage.token, None, None, None, Some(true), None))
    ensures r.Success? && params.ResetQuota? ==>
              var p := params.resetQuota;
              r.value.quota == Some(QuotaRequest(p.token, None, None, p.maxQuota, None, Some(true)))
  {
    if kind == "revoke" then
      Success(AuthRequest(traceId, Some(params.revoke), None, None))
    else if kind == "checkRevoke" then
      Success(AuthRequest(traceId, None, Some(params.checkRevoke), None))
    else if kind == "use" then
      var u := params.use;
      Success(AuthRequest(traceId, None, None, Some(QuotaRequest(u.token, u.ttl, u.expiresAt, Some(u.maxQuota), None, None))))
    else if kind == "usage" then
      Success(AuthRequest(traceId, None, None, Some(QuotaRequest(params.usage.token, None, None, None, Some(true), None))))
    else if kind == "resetQuota" then
      var p := params.resetQuota;
      Success(AuthRequest(traceId, None, None, Some(QuotaRequest(p.token, None, None, p.maxQuota, None, Some(true)))))
    else
      Failure(UnknownKind(kind))
  }

  /**
   * The receiver's reading of a request: which kind and parameters produced
   * it. A quota payload is a reset when `reset` is set, a usage query when
   * `dryRun` is set, and otherwise a `use`.
   */
  function ReadRequest(r: AuthRequest): Option<RequestParams>
  {
    if r.revoke.Some? then Some(Revoke(r.revoke.value))
    else if r.checkRevoke.Some? then Some(CheckRevoke(r.checkRevoke.value))
    else if r.quota.Some? then
      var q := r.quota.value;
      if q.reset == Some(true) then Some(ResetQuota(ResetQuotaParams(q.token, q.maxQuota)))
      else if q.dryRun == Some(true) then Some(Usage(UsageParams(q.token)))
      else if q.maxQuota.Some? then Some(Use(UseParams(q.token, q.ttl, q.expiresAt, q.maxQuota.value)))
      else None
    else None
  }

  /** Every request the dispatcher builds can be read back as the kind and parameters it was built from. */
  lemma NewAuthRequestReadsBack(params: RequestParams, traceId: Option<string>)
    ensures NewAuthRequest(KindOf(params), params, traceId).Success?
    ensures ReadRequest(NewAuthRequest(KindOf(params), params, traceId).value) == Some(params)
  {
  }

  /** No two calls build the same request unless their parameters and trace ids agree. */
  lemma NewAuthRequestInjective(p1: RequestParams, t1: Option<string>, p2: RequestParams, t2: Option<string>)
    requires NewAuthRequest(KindOf(p1), p1, t1) == NewAuthRequest(KindOf(p2), p2, t2)
    ensures p1 == p2 && t1 == t2
  {
    NewAuthRequestReadsBack(p1, t1);
    NewAuthRequestReadsBack(p2, t2);
  }
}
