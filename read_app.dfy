/**
 * `getApplication` and the lookups built on the stored rows: the aggregate is
 * reassembled from the basic row found by name and from every child table
 * selected by the application's id; the reserved local service provider is
 * created on first read. A write followed by a read gives back what was
 * submitted, up to the normalisations the readers and writers apply.
 */
module ReadApp {
  import opened Wrappers
  import opened Seqs
  import opened Model
  import opened Schema
  import opened WriteRows
  import opened ReadRows
  import opened InboundRead
  import opened StepRead
  import opened AuthFlow
  import opened Update
  import opened Lifecycle

  function DecodeClaims(rows: seq<ClaimRow>): seq<ClaimMapping> {
    seq(|rows|, i requires 0 <= i < |rows| => DecodeClaimRow(rows[i]))
  }

  function DecodeRoles(rows: seq<RoleRow>): seq<RoleMapping> {
    seq(|rows|, i requires 0 <= i < |rows| => DecodeRoleRow(rows[i]))
  }

  function DecodeConnectors(rows: seq<ConnectorRow>): seq<ProvisioningIdp> {
    seq(|rows|, i requires 0 <= i < |rows| => DecodeConnectorRow(rows[i]))
  }

  function ReqPathNames(rows: seq<ReqPathRow>): seq<string> {
    seq(|rows|, i requires 0 <= i < |rows| => rows[i].name)
  }

  /**
   * The aggregate of the application whose basic row is `a`: owner and SaaS
   * flag from that row; the columns each sub-reader selects again by id; the
   * authentication type under the caller's tenant.
   */
  function Assemble(t: Tables, a: AppRow, tenant: int, ctxTenant: int, isHub: string -> bool): ServiceProvider {
    var id := a.id;
    var row := AppById(t, id, tenant);
    var key := (id, tenant);
    ServiceProvider(
      id, Some(a.name), a.description, Some(User(a.userStore, a.userName, a.tenant)), DecodeColumn(a.saas),
      InboundConfig(t, id, tenant),
      Some(AuthConfig(Some(AuthTypeOf(t, id, ctxTenant)), ReadSteps(t, id, tenant, isHub),
                      row.Some? && DecodeColumn(row.value.sendAuthListOfIdps),
                      if row.Some? then row.value.subjectClaimUri else None)),
      if row.Some? then row.value.provisioningUserStore else None,
      DecodeConnectors(Keep(t.connectors, ConnectorKey, key)),
      Some(ClaimConfig(if row.Some? then row.value.roleClaim else None,
                       row.Some? && DecodeColumn(row.value.localClaimDialect),
                       row.Some? && DecodeColumn(row.value.sendLocalSubjectId),
                       DecodeClaims(Keep(t.claims, ClaimKey, key)))),
      DecodeRoles(Keep(t.roles, RoleKey, key)),
      ReqPathNames(Keep(t.reqPaths, ReqPathKey, key)))
  }

  /** The readers of `getApplication` once the basic row is looked up by name: nothing when there is none. */
  function ReadApplication(t: Tables, name: Option<string>, tenant: int, ctxTenant: int, isHub: string -> bool): Option<ServiceProvider> {
    if name.None? then None
    else match AppByName(t, name.value, tenant)
      case None => None
      case Some(a) => Some(Assemble(t, a, tenant, ctxTenant, isHub))
  }

  /** An application is read exactly when its tenant has a row of that name, and it is that row's application. */
  lemma ReadApplicationFound(t: Tables, name: string, tenant: int, ctxTenant: int, isHub: string -> bool)
    requires Valid(t)
    ensures var p := ReadApplication(t, Some(name), tenant, ctxTenant, isHub);
      && (p.Some? <==> exists a :: a in t.apps && AppNameKey(a) == (name, tenant))
      && (forall a :: a in t.apps && AppNameKey(a) == (name, tenant) ==>
            p.Some? && p.value.id == a.id && p.value.name == Some(name) && p.value.description == a.description
            && p.value.owner == Some(User(a.userStore, a.userName, tenant)) && p.value.saas == (a.saas == Some("1")))
  {
    forall a | a in t.apps && AppNameKey(a) == (name, tenant)
      ensures AppByName(t, name, tenant) == Some(a)
    {
      AppByNameUnique(t, a);
    }
  }

  // The implicit creation of the local service provider.

  /** What `getApplication` submits when the local service provider is missing. */
  function LocalSpTemplate(): ServiceProvider {
    ServiceProvider(0, Some(LOCAL_SP), LOCAL_SP_DESCRIPTION, None, false, [], None, None, [], None, [], [])
  }

  /**
   * `getApplication` with the two tenants it uses: reads under
   * `lookupTenant`; when the local service provider is asked for and missing,
   * creates it under `createTenant` and reads again.
   */
  function LoadApplication(t: Tables, name: Option<string>, lookupTenant: int, createTenant: int, ctxTenant: int,
                           caller: User, fileBased: set<string>, isHub: string -> bool): Result<(Tables, Option<ServiceProvider>), Failure> {
    if name == Some(LOCAL_SP) && AppByName(t, LOCAL_SP, lookupTenant).None? then
      match Create(t, LocalSpTemplate(), createTenant, caller, fileBased)
      case Err(e) => Err(e)
      case Ok(created) => Ok((created.0, ReadApplication(created.0, name, lookupTenant, ctxTenant, isHub)))
    else Ok((t, ReadApplication(t, name, lookupTenant, ctxTenant, isHub)))
  }

  /** As written: a missing domain reads under the super tenant but creates under -123. */
  function GetApplicationAsWritten(t: Tables, name: Option<string>, domainTenant: Option<int>, ctxTenant: int,
                                   caller: User, fileBased: set<string>, isHub: string -> bool): Result<(Tables, Option<ServiceProvider>), Failure> {
    LoadApplication(t, name, domainTenant.GetOr(SUPER_TENANT_ID), domainTenant.GetOr(UNRESOLVED_TENANT_ID), ctxTenant, caller, fileBased, isHub)
  }

  /**
   * Without a tenant domain the written `getApplication` creates the local
   * service provider under -123, looks it up under -1234, and returns null;
   * every later call fails with a duplicate name (`LocalSpSecondCallFails`).
   */
  lemma LocalSpLostExample(caller: User, isHub: string -> bool)
    ensures var r := GetApplicationAsWritten(EmptyTables(), Some(LOCAL_SP), None, SUPER_TENANT_ID, caller, {}, isHub);
      && r.Ok? && r.value.1.None?
      && AppByName(r.value.0, LOCAL_SP, UNRESOLVED_TENANT_ID).Some?
  {
    var t := EmptyTables();
    CreateSpec(t, LocalSpTemplate(), UNRESOLVED_TENANT_ID, caller, {});
  }

  /**
   * The second call without a tenant domain still misses the row under
   * -1234, tries to create it again under -123 and is refused.
   */
  lemma LocalSpSecondCallFails(caller: User, isHub: string -> bool)
    ensures var r := GetApplicationAsWritten(EmptyTables(), Some(LOCAL_SP), None, SUPER_TENANT_ID, caller, {}, isHub);
      r.Ok? &&
      GetApplicationAsWritten(r.value.0, Some(LOCAL_SP), None, SUPER_TENANT_ID, caller, {}, isHub) == Err(DuplicateName)
  {
    var t := EmptyTables();
    CreateSpec(t, LocalSpTemplate(), UNRESOLVED_TENANT_ID, caller, {});
    LocalSpLostExample(caller, isHub);
    var t1 := GetApplicationAsWritten(t, Some(LOCAL_SP), None, SUPER_TENANT_ID, caller, {}, isHub).value.0;
    assert AppByName(t1, LOCAL_SP, SUPER_TENANT_ID).None?;
  }

  /** The evidently intended `getApplication`: one tenant, the super tenant when no domain is given, for both steps. */
  function GetApplication(t: Tables, name: Option<string>, domainTenant: Option<int>, ctxTenant: int,
                          caller: User, fileBased: set<string>, isHub: string -> bool): Result<(Tables, Option<ServiceProvider>), Failure> {
    var tenant := domainTenant.GetOr(SUPER_TENANT_ID);
    LoadApplication(t, name, tenant, tenant, ctxTenant, caller, fileBased, isHub)
  }

  /**
   * Asking for the local service provider always returns it (unless a
   * file-based provider takes its name): when it was missing it is created
   * with the fixed description and owned by the system user. Any other name
   * leaves the store as it was.
   */
  lemma GetApplicationLocalSp(t: Tables, domainTenant: Option<int>, ctxTenant: int, caller: User, fileBased: set<string>, isHub: string -> bool)
    requires Valid(t)
    requires LOCAL_SP !in fileBased
    ensures var tenant := domainTenant.GetOr(SUPER_TENANT_ID);
      var r := GetApplication(t, Some(LOCAL_SP), domainTenant, ctxTenant, caller, fileBased, isHub);
      && r.Ok? && Valid(r.value.0) && r.value.1.Some? && r.value.1.value.name == Some(LOCAL_SP)
      && (AppByName(t, LOCAL_SP, tenant).None? ==>
            && r.value.1.value.description == LOCAL_SP_DESCRIPTION
            && r.value.1.value.owner == Some(User(PRIMARY_DOMAIN, SYSTEM_USER_NAME, tenant)))
  {
    var tenant := domainTenant.GetOr(SUPER_TENANT_ID);
    var sp := LocalSpTemplate();
    if AppByName(t, LOCAL_SP, tenant).None? {
      CreateFailsIff(t, sp, tenant, caller, fileBased);
      CreateSpec(t, sp, tenant, caller, fileBased);
    }
  }

  lemma GetApplicationOtherName(t: Tables, name: Option<string>, domainTenant: Option<int>, ctxTenant: int,
                                caller: User, fileBased: set<string>, isHub: string -> bool)
    requires name != Some(LOCAL_SP)
    ensures var r := GetApplication(t, name, domainTenant, ctxTenant, caller, fileBased, isHub);
      r.Ok? && r.value.0 == t && (r.value.1.Some? <==> name.Some? && AppByName(t, name.value, domainTenant.GetOr(SUPER_TENANT_ID)).Some?)
  {
  }

  // Reading an application back after an update.

  /** After an update of an existing application its row is found under the new name, and the read assembles it. */
  lemma UpdatedFound(t: Tables, sp: ServiceProvider, tenant: int, fileBased: set<string>, d: string -> string, r: Tables, isHub: string -> bool)
    requires Valid(t) && ApplyUpdate(t, sp, tenant, fileBased, d) == Ok(r)
    requires AppById(t, sp.id, tenant).Some?
    ensures Valid(r) && AppById(r, sp.id, tenant).Some?
      && UpdatedRow(AppById(r, sp.id, tenant).value, AppById(t, sp.id, tenant).value, sp, d)
      && ReadApplication(r, sp.name, tenant, tenant, isHub) == Some(Assemble(r, AppById(r, sp.id, tenant).value, tenant, tenant, isHub))
  {
    ApplyUpdateValid(t, sp, tenant, fileBased, d);
    ApplyUpdateRow(t, sp, tenant, fileBased, d);
    var a' := AppById(r, sp.id, tenant).value;
    AppByNameUnique(r, a');
  }

  /**
   * The basic data and the columns read back after an update: the submitted
   * name, description and SaaS flag; the old owner; the submitted provisioning
   * user store when one was given; the normalised authentication type and the
   * submitted flow and claim flags when those configurations were given.
   */
  lemma ReadAfterUpdateColumns(t: Tables, sp: ServiceProvider, tenant: int, fileBased: set<string>, d: string -> string, r: Tables, isHub: string -> bool)
    requires Valid(t) && ApplyUpdate(t, sp, tenant, fileBased, d) == Ok(r)
    requires AppById(t, sp.id, tenant).Some?
    ensures var a := AppById(t, sp.id, tenant).value;
      var p := ReadApplication(r, sp.name, tenant, tenant, isHub);
      && p.Some?
      && p.value.id == sp.id && p.value.name == sp.name && p.value.description == sp.description && p.value.saas == sp.saas
      && p.value.owner == Some(User(a.userStore, a.userName, tenant))
      && p.value.provisioningUserStore == (if sp.provisioningUserStore.Some? then sp.provisioningUserStore else a.provisioningUserStore)
      && p.value.authConfig.Some? && p.value.claimConfig.Some?
      && (sp.authConfig.Some? ==>
            && p.value.authConfig.value.authType == Some(PrepareFlow(sp.authConfig.value, d).value.0)
            && p.value.authConfig.value.sendBackAuthenticatedIdps == sp.authConfig.value.sendBackAuthenticatedIdps
            && p.value.authConfig.value.subjectClaimUri == sp.authConfig.value.subjectClaimUri)
      && (sp.claimConfig.Some? ==>
            && p.value.claimConfig.value.localClaimDialect == sp.claimConfig.value.localClaimDialect
            && p.value.claimConfig.value.alwaysSendMappedLocalSubjectId == sp.claimConfig.value.alwaysSendMappedLocalSubjectId
            && (sp.claimConfig.value.roleClaimUri.Some? ==> p.value.claimConfig.value.roleClaimUri == sp.claimConfig.value.roleClaimUri))
  {
    UpdatedFound(t, sp, tenant, fileBased, d, r, isHub);
  }

  /** A sequence equal elementwise to another is that sequence. */
  lemma DecodedClaimsAre(rows: seq<ClaimRow>, ms: seq<ClaimMapping>)
    requires DecodesTo(rows, ms)
    ensures DecodeClaims(rows) == ms
  {
  }

  /**
   * The child configuration read back after an update: the outbound providers
   * that had a default connector, the role mappings without the local role's
   * user store, the request-path authenticators, and (when every mapping has
   * two non-blank URIs) the claim mappings, all in the submitted order.
   */
  lemma ReadAfterUpdateChildren(t: Tables, sp: ServiceProvider, tenant: int, fileBased: set<string>, d: string -> string, r: Tables, isHub: string -> bool)
    requires Valid(t) && ApplyUpdate(t, sp, tenant, fileBased, d) == Ok(r)
    requires AppById(t, sp.id, tenant).Some?
    ensures ReadApplication(r, sp.name, tenant, tenant, isHub).Some?
    ensures var p := ReadApplication(r, sp.name, tenant, tenant, isHub).value;
      && p.outboundProvisioning == WithConnector(sp.outboundProvisioning)
      && |p.roleMappings| == |sp.roleMappings|
      && (forall i :: 0 <= i < |sp.roleMappings| ==> p.roleMappings[i] == sp.roleMappings[i].(localRoleUserStore := None))
      && p.requestPathAuthenticators == sp.requestPathAuthenticators
      && (sp.claimConfig.None? ==> p.claimConfig.value.mappings == [])
      && (sp.claimConfig.Some? && (forall i :: 0 <= i < |sp.claimConfig.value.mappings| ==> WellFormedClaim(sp.claimConfig.value.mappings[i])) ==>
            p.claimConfig.value.mappings == sp.claimConfig.value.mappings)
  {
    UpdatedFound(t, sp, tenant, fileBased, d, r, isHub);
    ApplyUpdateChildren(t, sp, tenant, fileBased, d);
    AssembledChildren(r, sp, tenant, AppById(r, sp.id, tenant).value, isHub);
  }

  /** What the readers make of the child rows an update writes. */
  lemma AssembledChildren(r: Tables, sp: ServiceProvider, tenant: int, a: AppRow, isHub: string -> bool)
    requires ChildRows(r, sp, tenant) && a.id == sp.id
    ensures var p := Assemble(r, a, tenant, tenant, isHub);
      && p.outboundProvisioning == WithConnector(sp.outboundProvisioning)
      && |p.roleMappings| == |sp.roleMappings|
      && (forall i :: 0 <= i < |sp.roleMappings| ==> p.roleMappings[i] == sp.roleMappings[i].(localRoleUserStore := None))
      && p.requestPathAuthenticators == sp.requestPathAuthenticators
      && (sp.claimConfig.None? ==> p.claimConfig.value.mappings == [])
      && (sp.claimConfig.Some? && (forall i :: 0 <= i < |sp.claimConfig.value.mappings| ==> WellFormedClaim(sp.claimConfig.value.mappings[i])) ==>
            p.claimConfig.value.mappings == sp.claimConfig.value.mappings)
  {
    ConnectorsRoundTrip(sp.outboundProvisioning, sp.id, tenant);
    RolesRoundTrip(sp.roleMappings, sp.id, tenant);
    if sp.claimConfig.Some? && (forall i :: 0 <= i < |sp.claimConfig.value.mappings| ==> WellFormedClaim(sp.claimConfig.value.mappings[i])) {
      ClaimsRoundTrip(sp.claimConfig.value.mappings, sp.id, tenant);
      DecodedClaimsAre(ClaimRows(sp.claimConfig.value.mappings, sp.id, tenant), sp.claimConfig.value.mappings);
    }
  }

  /**
   * The inbound requests read back after an update: when the submitted
   * requests have distinct keys, a type and named properties, the same set of
   * requests, each with its properties in reverse order.
   */
  lemma ReadAfterUpdateInbound(t: Tables, sp: ServiceProvider, tenant: int, fileBased: set<string>, d: string -> string, r: Tables, isHub: string -> bool)
    requires Valid(t) && ApplyUpdate(t, sp, tenant, fileBased, d) == Ok(r)
    requires AppById(t, sp.id, tenant).Some?
    requires forall i :: 0 <= i < |sp.inbound| ==> WellFormedRequest(sp.inbound[i])
    requires DistinctKeys(sp.inbound)
    ensures ReadApplication(r, sp.name, tenant, tenant, isHub).Some?
    ensures var read := ReadApplication(r, sp.name, tenant, tenant, isHub).value.inbound;
      && |read| == |sp.inbound|
      && (forall i :: 0 <= i < |sp.inbound| ==> sp.inbound[i].(properties := Reverse(sp.inbound[i].properties)) in read)
      && (forall q :: q in read ==> exists i :: 0 <= i < |sp.inbound| && q == sp.inbound[i].(properties := Reverse(sp.inbound[i].properties)))
  {
    UpdatedFound(t, sp, tenant, fileBased, d, r, isHub);
    ApplyUpdateChildren(t, sp, tenant, fileBased, d);
    AssembledInbound(r, sp, tenant, AppById(r, sp.id, tenant).value, isHub);
  }

  lemma AssembledInbound(r: Tables, sp: ServiceProvider, tenant: int, a: AppRow, isHub: string -> bool)
    requires ChildRows(r, sp, tenant) && a.id == sp.id
    requires forall i :: 0 <= i < |sp.inbound| ==> WellFormedRequest(sp.inbound[i])
    requires DistinctKeys(sp.inbound)
    ensures var read := Assemble(r, a, tenant, tenant, isHub).inbound;
      && |read| == |sp.inbound|
      && (forall i :: 0 <= i < |sp.inbound| ==> sp.inbound[i].(properties := Reverse(sp.inbound[i].properties)) in read)
      && (forall q :: q in read ==> exists i :: 0 <= i < |sp.inbound| && q == sp.inbound[i].(properties := Reverse(sp.inbound[i].properties)))
  {
    InboundRoundTrip(sp.inbound, r, sp.id, tenant);
  }

  // `getAllApplicationBasicInfo`.

  /** The applications of the tenant, in table order, without the local service provider and those the caller may not see. */
  function BasicInfos(apps: seq<AppRow>, tenant: int, authorized: string -> bool): seq<BasicInfo> {
    if apps == [] then []
    else
      var a := apps[|apps| - 1];
      BasicInfos(apps[..|apps| - 1], tenant, authorized) +
      if a.tenant == tenant && a.name != LOCAL_SP && authorized(a.name) then [BasicInfo(a.name, a.description)] else []
  }

  /** Listed exactly: every authorized application of the tenant other than the local service provider. */
  lemma {:induction false} BasicInfosIff(apps: seq<AppRow>, tenant: int, authorized: string -> bool, b: BasicInfo)
    ensures b in BasicInfos(apps, tenant, authorized) <==>
      exists a :: a in apps && a.tenant == tenant && a.name != LOCAL_SP && authorized(a.name) && b == BasicInfo(a.name, a.description)
  {
    if apps != [] {
      var init := apps[..|apps| - 1];
      BasicInfosIff(init, tenant, authorized, b);
      assert forall a :: a in apps <==> a in init || a == apps[|apps| - 1];
    }
  }

  // `getServiceProviderNameByClientId` and `getApplicationData`.

  /** A client matches: the key, the type and the tenant agree, and its application exists in that tenant. */
  predicate ClientMatches(t: Tables, c: ClientRow, clientId: string, authType: string, tenant: int) {
    c.authKey == clientId && c.authType == authType && c.tenant == tenant && AppById(t, c.appId, tenant).Some?
  }

  /** The first matching client row gives the name of its application. */
  function NameByClient(clients: seq<ClientRow>, t: Tables, clientId: string, authType: string, tenant: int): Option<string> {
    if clients == [] then None
    else if ClientMatches(t, clients[0], clientId, authType, tenant) then Some(AppById(t, clients[0].appId, tenant).value.name)
    else NameByClient(clients[1..], t, clientId, authType, tenant)
  }

  /** A name is found exactly when some client matches, and it is the name of a matching client's application. */
  lemma {:induction false} NameByClientSpec(clients: seq<ClientRow>, t: Tables, clientId: string, authType: string, tenant: int)
    ensures var n := NameByClient(clients, t, clientId, authType, tenant);
      && (n.Some? <==> exists c :: c in clients && ClientMatches(t, c, clientId, authType, tenant))
      && (n.Some? ==> exists c :: c in clients && ClientMatches(t, c, clientId, authType, tenant) && n.value == AppById(t, c.appId, tenant).value.name)
  {
    if clients != [] {
      NameByClientSpec(clients[1..], t, clientId, authType, tenant);
      assert forall c :: c in clients <==> c == clients[0] || c in clients[1..];
    }
  }

  /** Placeholders of `LOAD_APPLICATION_NAME_BY_CLIENT_ID_AND_TYPE`: client id, type, and the tenant twice. */
  const NAME_BY_CLIENT_PARAMETERS: nat := 4

  /** The name lookup, run with `bound` parameters set: a statement with an unset parameter is refused. */
  function NameByClientQuery(t: Tables, clientId: string, authType: string, tenant: int, bound: nat): Result<Option<string>, Failure> {
    if bound < NAME_BY_CLIENT_PARAMETERS then Err(ReadFailed)
    else Ok(NameByClient(t.clients, t, clientId, authType, tenant))
  }

  /** `getServiceProviderNameByClientId`: -123 without a tenant domain; all four parameters bound. */
  function ServiceProviderNameByClientId(t: Tables, clientId: string, authType: string, domainTenant: Option<int>): Result<Option<string>, Failure> {
    NameByClientQuery(t, clientId, authType, domainTenant.GetOr(UNRESOLVED_TENANT_ID), 4)
  }

  /** As written: `getApplicationData` binds three of the lookup's four parameters. */
  function GetApplicationDataAsWritten(t: Tables, clientId: string, authType: string, tenant: int, ctxTenant: int,
                                       caller: User, fileBased: set<string>, isHub: string -> bool): Result<(Tables, Option<ServiceProvider>), Failure> {
    match NameByClientQuery(t, clientId, authType, tenant, 3)
    case Err(e) => Err(e)
    case Ok(name) => LoadApplication(t, name, tenant, tenant, ctxTenant, caller, fileBased, isHub)
  }

  /** With the fourth parameter unset the lookup is refused, so the written `getApplicationData` fails for every client. */
  lemma ApplicationDataAlwaysFails(t: Tables, clientId: string, authType: string, tenant: int, ctxTenant: int,
                                   caller: User, fileBased: set<string>, isHub: string -> bool)
    ensures GetApplicationDataAsWritten(t, clientId, authType, tenant, ctxTenant, caller, fileBased, isHub) == Err(ReadFailed)
  {
  }

  /** The evidently intended `getApplicationData`: the lookup with all four parameters, then `getApplication`. */
  function GetApplicationData(t: Tables, clientId: string, authType: string, tenant: int, ctxTenant: int,
                              caller: User, fileBased: set<string>, isHub: string -> bool): Result<(Tables, Option<ServiceProvider>), Failure> {
    match NameByClientQuery(t, clientId, authType, tenant, NAME_BY_CLIENT_PARAMETERS)
    case Err(e) => Err(e)
    case Ok(name) => LoadApplication(t, name, tenant, tenant, ctxTenant, caller, fileBased, isHub)
  }

  /**
   * The application found for a client key is one whose inbound
   * configuration holds a request with that key; when no client matches,
   * nothing is found.
   */
  lemma GetApplicationDataSpec(t: Tables, clientId: string, authType: string, tenant: int, ctxTenant: int,
                               caller: User, fileBased: set<string>, isHub: string -> bool)
    requires Valid(t)
    ensures var r := GetApplicationData(t, clientId, authType, tenant, ctxTenant, caller, fileBased, isHub);
      && r.Ok? && r.value.0 == t
      && (r.value.1.Some? <==> exists c :: c in t.clients && ClientMatches(t, c, clientId, authType, tenant))
      && (r.value.1.Some? ==> exists i :: 0 <= i < |r.value.1.value.inbound| && r.value.1.value.inbound[i].key == Some(clientId))
  {
    NameByClientSpec(t.clients, t, clientId, authType, tenant);
    var n := NameByClient(t.clients, t, clientId, authType, tenant);
    if n.Some? {
      var c :| c in t.clients && ClientMatches(t, c, clientId, authType, tenant) && n.value == AppById(t, c.appId, tenant).value.name;
      ClientAppRead(t, c, clientId, authType, tenant, ctxTenant, isHub);
    }
  }

  /** The application of a matching client, read by its name, lists the client's key among its inbound requests. */
  lemma ClientAppRead(t: Tables, c: ClientRow, clientId: string, authType: string, tenant: int, ctxTenant: int, isHub: string -> bool)
    requires Valid(t) && c in t.clients && ClientMatches(t, c, clientId, authType, tenant)
    ensures var p := ReadApplication(t, Some(AppById(t, c.appId, tenant).value.name), tenant, ctxTenant, isHub);
      p.Some? && exists i :: 0 <= i < |p.value.inbound| && p.value.inbound[i].key == Some(clientId)
  {
    var a := AppById(t, c.appId, tenant).value;
    AppByNameUnique(t, a);
    InboundConfigKeys(t, a.id, tenant, clientId);
  }

  // `getClaimMapping` and `getAllRequestedClaimsByServiceProvider`.

  /** `LOAD_CLAIM_MAPPING_BY_APP_NAME`: the claim rows of the application with that name in the tenant. */
  function ClaimRowsByName(t: Tables, name: string, tenant: int): seq<ClaimRow> {
    match AppByName(t, name, tenant)
    case None => []
    case Some(a) => Keep(t.claims, ClaimKey, (a.id, tenant))
  }

  /** `getClaimMapping`: -123 without a tenant domain. */
  function ClaimMappingByName(t: Tables, name: string, domainTenant: Option<int>, localIdpAsKey: bool): map<string, string> {
    ClaimMap(ClaimRowsByName(t, name, domainTenant.GetOr(UNRESOLVED_TENANT_ID)), localIdpAsKey)
  }

  function RequestedClaimsByName(t: Tables, name: string, domainTenant: Option<int>): seq<string> {
    RequestedClaims(ClaimRowsByName(t, name, domainTenant.GetOr(UNRESOLVED_TENANT_ID)))
  }

  /** After an update, the requested claims of the application are the requested local URIs of its stored mappings, in order. */
  lemma RequestedAfterUpdate(t: Tables, sp: ServiceProvider, tenant: int, fileBased: set<string>, d: string -> string, r: Tables)
    requires Valid(t) && ApplyUpdate(t, sp, tenant, fileBased, d) == Ok(r)
    requires AppById(t, sp.id, tenant).Some?
    ensures RequestedClaimsByName(r, sp.name.value, Some(tenant)) ==
      if sp.claimConfig.Some? then RequestedLocals(sp.claimConfig.value.mappings) else []
  {
    UpdatedFound(t, sp, tenant, fileBased, d, r, (s: string) => false);
    ApplyUpdateChildren(t, sp, tenant, fileBased, d);
    if sp.claimConfig.Some? {
      RequestedAfterWrite(sp.claimConfig.value.mappings, sp.id, tenant);
    }
  }

  /**
   * After an update, each stored mapping's local URI maps to its remote URI in
   * the local-to-remote map, unless a later mapping reuses that local URI.
   */
  lemma ClaimMappingAfterUpdate(t: Tables, sp: ServiceProvider, tenant: int, fileBased: set<string>, d: string -> string, r: Tables, i: int)
    requires Valid(t) && ApplyUpdate(t, sp, tenant, fileBased, d) == Ok(r)
    requires AppById(t, sp.id, tenant).Some?
    requires sp.claimConfig.Some?
    requires var ms := sp.claimConfig.value.mappings;
      && (forall j :: 0 <= j < |ms| ==> ms[j].localClaim.Some? && ms[j].remoteClaim.Some?)
      && 0 <= i < |ms| && forall j :: i < j < |ms| ==> ms[j].localClaim != ms[i].localClaim
    ensures var m := sp.claimConfig.value.mappings[i];
      var cm := ClaimMappingByName(r, sp.name.value, Some(tenant), true);
      m.localClaim.value in cm && cm[m.localClaim.value] == m.remoteClaim.value
  {
    UpdatedFound(t, sp, tenant, fileBased, d, r, (s: string) => false);
    ApplyUpdateChildren(t, sp, tenant, fileBased, d);
    StoredClaimMapped(sp.claimConfig.value.mappings, sp.id, tenant, i);
  }

  /** The local-to-remote map of the rows written for `ms` sends the i-th local URI to its remote URI when no later mapping reuses it. */
  lemma StoredClaimMapped(ms: seq<ClaimMapping>, appId: int, tenant: int, i: int)
    requires forall j :: 0 <= j < |ms| ==> ms[j].localClaim.Some? && ms[j].remoteClaim.Some?
    requires 0 <= i < |ms| && forall j :: i < j < |ms| ==> ms[j].localClaim != ms[i].localClaim
    ensures var cm := ClaimMap(ClaimRows(ms, appId, tenant), true);
      ms[i].localClaim.value in cm && cm[ms[i].localClaim.value] == ms[i].remoteClaim.value
  {
    var rows := ClaimRows(ms, appId, tenant);
    ClaimRowsAllStored(ms, appId, tenant);
    ClaimMapLastWins(rows, true, i);
  }

  /** When every mapping has both URIs, one row is stored per mapping, carrying its URIs. */
  lemma {:induction false} ClaimRowsAllStored(ms: seq<ClaimMapping>, appId: int, tenant: int)
    requires forall j :: 0 <= j < |ms| ==> ms[j].localClaim.Some? && ms[j].remoteClaim.Some?
    ensures var rows := ClaimRows(ms, appId, tenant);
      |rows| == |ms| && forall j :: 0 <= j < |ms| ==> Some(rows[j].localClaim) == ms[j].localClaim && Some(rows[j].remoteClaim) == ms[j].remoteClaim
  {
    if ms != [] {
      var n := |ms| - 1;
      var init := ms[..n];
      assert forall j :: 0 <= j < n ==> init[j] == ms[j];
      ClaimRowsAllStored(init, appId, tenant);
      var prev := ClaimRows(init, appId, tenant);
      var row := ClaimRowOf(ms[n], appId, tenant).value;
      assert ClaimRows(ms, appId, tenant) == prev + [row];
    }
  }
}
