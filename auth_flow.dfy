/**
 * Validation and normalisation of the local and outbound authentication
 * configuration before its steps are stored: the type defaults to "default",
 * "local" and "federated" impose a fixed shape, a federated configuration has
 * its identity provider's authenticators replaced by the provider's default
 * authenticator, and every step must be non-empty and must not name the
 * reserved local identity provider.
 */
module AuthFlow {
  import opened Wrappers
  import opened Text
  import opened Model

  /** The type that is stored: "default" when there are no steps or no type. */
  function NormalisedAuthType(c: AuthConfig): (t: string)
    ensures c.steps == [] || c.authType.None? ==> t == AUTH_TYPE_DEFAULT
    ensures c.steps != [] && c.authType.Some? ==> t == c.authType.value
  {
    if c.steps == [] || c.authType.None? then AUTH_TYPE_DEFAULT else c.authType.value
  }

  predicate IsLocalType(t: string) {
    EqualsIgnoreCase(AUTH_TYPE_LOCAL, t)
  }

  predicate IsFederatedType(t: string) {
    EqualsIgnoreCase(AUTH_TYPE_FEDERATED, t)
  }

  /** Exactly one step, holding exactly one local authenticator and no federated provider. */
  predicate LocalShape(steps: seq<AuthStep>) {
    |steps| == 1 && |steps[0].local| == 1 && |steps[0].federated| == 0
  }

  /** Exactly one step, holding exactly one federated provider and no local authenticator. */
  predicate FederatedShape(steps: seq<AuthStep>) {
    |steps| == 1 && |steps[0].federated| == 1 && |steps[0].local| == 0
  }

  predicate IsReservedIdpName(name: string) {
    EqualsIgnoreCase(LOCAL_IDP, name)
  }

  /**
   * The provider with its authenticator list replaced by the single default
   * authenticator the identity-provider registry names for it (no display name).
   */
  function WithDefaultAuthenticator(idp: IdentityProvider, defaultAuthenticator: string -> string): (r: IdentityProvider)
    ensures r.name == idp.name && r.federationHub == idp.federationHub
    ensures |r.authenticators| == 1 && r.authenticators[0].name == defaultAuthenticator(idp.name)
    ensures r.defaultAuthenticator == Some(r.authenticators[0])
  {
    var a := FederatedAuthenticator(defaultAuthenticator(idp.name), "");
    idp.(authenticators := [a], defaultAuthenticator := Some(a))
  }

  /** The federated rewrite of a configuration of federated shape. */
  function ApplyFederatedDefault(steps: seq<AuthStep>, defaultAuthenticator: string -> string): (r: seq<AuthStep>)
    requires FederatedShape(steps)
    ensures FederatedShape(r)
    ensures r[0].order == steps[0].order && r[0].subjectStep == steps[0].subjectStep
    ensures r[0].attributeStep == steps[0].attributeStep
    ensures r[0].federated[0] == WithDefaultAuthenticator(steps[0].federated[0], defaultAuthenticator)
  {
    [steps[0].(federated := [WithDefaultAuthenticator(steps[0].federated[0], defaultAuthenticator)])]
  }

  /** The first provider in `idps` whose name is the reserved one. */
  function FirstReserved(idps: seq<IdentityProvider>): (r: Option<string>)
    ensures r.Some? ==> IsReservedIdpName(r.value) && exists p :: p in idps && p.name == r.value
    ensures r.None? <==> forall p :: p in idps ==> !IsReservedIdpName(p.name)
  {
    if idps == [] then None
    else if IsReservedIdpName(idps[0].name) then Some(idps[0].name)
    else FirstReserved(idps[1..])
  }

  /** The per-step checks, in the order the step writer makes them. */
  function StepError(s: AuthStep): Option<FlowError> {
    if s.local == [] && s.federated == [] then Some(EmptyStep(s.order))
    else match FirstReserved(s.federated)
      case Some(n) => Some(ReservedIdpName(n))
      case None => None
  }

  predicate StepAcceptable(s: AuthStep) {
    (s.local != [] || s.federated != []) && forall p :: p in s.federated ==> !IsReservedIdpName(p.name)
  }

  /** The error of the first step that fails its checks. */
  function StepsError(steps: seq<AuthStep>): Option<FlowError> {
    if steps == [] then None
    else if StepError(steps[0]).Some? then StepError(steps[0])
    else StepsError(steps[1..])
  }

  /**
   * The type to store and the steps to write, or the reason the configuration
   * is refused (in which case nothing of it is kept).
   */
  function PrepareFlow(c: AuthConfig, defaultAuthenticator: string -> string): Result<(string, seq<AuthStep>), FlowError> {
    var t := NormalisedAuthType(c);
    if c.steps == [] then Ok((t, []))
    else if IsLocalType(t) && !LocalShape(c.steps) then Err(InvalidLocalConfig)
    else if IsFederatedType(t) && !IsLocalType(t) && !FederatedShape(c.steps) then Err(InvalidFederatedConfig)
    else
      var steps := if IsFederatedType(t) && !IsLocalType(t) then ApplyFederatedDefault(c.steps, defaultAuthenticator) else c.steps;
      match StepsError(steps)
      case Some(e) => Err(e)
      case None => Ok((t, steps))
  }

  lemma StepErrorIff(s: AuthStep)
    ensures StepError(s).None? <==> StepAcceptable(s)
  {
    if s.local == [] && s.federated == [] {
    } else if FirstReserved(s.federated).Some? {
      var n := FirstReserved(s.federated).value;
      var p :| p in s.federated && p.name == n;
    }
  }

  /** No step fails its checks exactly when every step is acceptable. */
  lemma {:induction false} StepsErrorIff(steps: seq<AuthStep>)
    ensures StepsError(steps).None? <==> forall s :: s in steps ==> StepAcceptable(s)
  {
    if steps != [] {
      StepErrorIff(steps[0]);
      StepsErrorIff(steps[1..]);
      assert forall s :: s in steps <==> s == steps[0] || s in steps[1..];
    }
  }

  /** An empty step is refused, whatever the type and whatever the steps before it accepted. */
  lemma {:induction false} EmptyStepRefused(steps: seq<AuthStep>, k: int)
    requires 0 <= k < |steps|
    requires steps[k].local == [] && steps[k].federated == []
    ensures StepsError(steps).Some?
  {
    StepsErrorIff(steps);
    assert steps[k] in steps;
  }

  /** The rewrite keeps every provider name, so the per-step checks give the same verdict. */
  lemma ApplyFederatedDefaultKeepsVerdict(steps: seq<AuthStep>, d: string -> string)
    requires FederatedShape(steps)
    ensures StepsError(ApplyFederatedDefault(steps, d)).None? <==> StepsError(steps).None?
  {
    var r := ApplyFederatedDefault(steps, d);
    StepsErrorIff(steps);
    StepsErrorIff(r);
    assert forall s :: s in steps <==> s == steps[0];
    assert forall s :: s in r <==> s == r[0];
    assert forall p :: p in r[0].federated <==> p == r[0].federated[0];
    assert forall p :: p in steps[0].federated <==> p == steps[0].federated[0];
  }

  /**
   * The whole acceptance condition: a configuration is accepted exactly when
   * it has no steps, or the shape its type demands holds and every step is
   * acceptable.
   */
  lemma PrepareFlowAcceptsIff(c: AuthConfig, d: string -> string)
    ensures PrepareFlow(c, d).Ok? <==>
      c.steps == [] ||
      (&& (IsLocalType(NormalisedAuthType(c)) ==> LocalShape(c.steps))
       && (IsFederatedType(NormalisedAuthType(c)) ==> FederatedShape(c.steps))
       && forall s :: s in c.steps ==> StepAcceptable(s))
  {
    var t := NormalisedAuthType(c);
    assert !(IsLocalType(t) && IsFederatedType(t));
    StepsErrorIff(c.steps);
    if c.steps != [] && IsFederatedType(t) && FederatedShape(c.steps) {
      ApplyFederatedDefaultKeepsVerdict(c.steps, d);
    }
  }

  /** A configuration with no steps is always accepted and stored as "default". */
  lemma NoStepsIsDefault(c: AuthConfig, d: string -> string)
    requires c.steps == []
    ensures PrepareFlow(c, d) == Ok((AUTH_TYPE_DEFAULT, []))
  {
  }

  /** An accepted "local" configuration has exactly the local shape and is written unchanged. */
  lemma LocalAccepted(c: AuthConfig, d: string -> string)
    requires c.steps != [] && PrepareFlow(c, d).Ok?
    requires IsLocalType(NormalisedAuthType(c))
    ensures LocalShape(c.steps)
    ensures PrepareFlow(c, d).value == (NormalisedAuthType(c), c.steps)
  {
    PrepareFlowAcceptsIff(c, d);
  }

  /**
   * An accepted "federated" configuration has exactly the federated shape, and
   * what is written is its one provider with `[default]` as its authenticators.
   */
  lemma FederatedAccepted(c: AuthConfig, d: string -> string)
    requires c.steps != [] && PrepareFlow(c, d).Ok?
    requires IsFederatedType(NormalisedAuthType(c))
    ensures FederatedShape(c.steps)
    ensures var steps := PrepareFlow(c, d).value.1;
      && FederatedShape(steps)
      && steps[0].federated[0].name == c.steps[0].federated[0].name
      && steps[0].federated[0].authenticators == [FederatedAuthenticator(d(c.steps[0].federated[0].name), "")]
      && steps[0].federated[0].defaultAuthenticator == Some(steps[0].federated[0].authenticators[0])
  {
    PrepareFlowAcceptsIff(c, d);
    var t := NormalisedAuthType(c);
    assert !IsLocalType(t);
  }

  /** Every step that is written, whatever the type, is acceptable. */
  lemma AcceptedStepsAcceptable(c: AuthConfig, d: string -> string)
    requires PrepareFlow(c, d).Ok?
    ensures forall s :: s in PrepareFlow(c, d).value.1 ==> StepAcceptable(s)
  {
    StepsErrorIff(PrepareFlow(c, d).value.1);
  }

  /** A provider named like the reserved one in any letter case is refused. */
  lemma ReservedNameRefusedExample()
    ensures PrepareFlow(
      AuthConfig(Some("flow"),
        [AuthStep(1, true, true, [], [IdentityProvider("WSO2Carbon-Local-IdP", [], None, false)])],
        false, None),
      (n: string) => "") == Err(ReservedIdpName("WSO2Carbon-Local-IdP"))
  {
    var name := "WSO2Carbon-Local-IdP";
    assert IsReservedIdpName(name) by {
      forall i | 0 <= i < |LOCAL_IDP|
        ensures CharEqualsIgnoreCase(LOCAL_IDP[i], name[i])
      {
      }
    }
    var step := AuthStep(1, true, true, [], [IdentityProvider(name, [], None, false)]);
    assert FirstReserved(step.federated) == Some(name);
    assert StepsError([step]) == Some(ReservedIdpName(name));
    assert !IsLocalType("flow") && !IsFederatedType("flow");
  }

  /** The reserved name spelled with the long s for its 's' is reserved too. */
  lemma LongSReservedNameExample()
    ensures IsReservedIdpName("w\U{017f}o2carbon-local-idp")
  {
  }

  /** "LOCAL" with two local authenticators in its step is refused. */
  lemma LocalWithTwoAuthenticatorsRefusedExample()
    ensures PrepareFlow(
      AuthConfig(Some("LOCAL"),
        [AuthStep(1, true, true, [LocalAuthenticator("BasicAuthenticator", ""), LocalAuthenticator("IWAAuthenticator", "")], [])],
        false, None),
      (n: string) => "") == Err(InvalidLocalConfig)
  {
  }
}
