/**
 * The tenant-scoped tables the DAO reads and writes, as rows held in
 * sequences (insertion order is the order a query returns them in), and the
 * "1"/"0" encoding of booleans in text columns.
 *
 * A column the DAO sometimes leaves unbound (NULL) is an `Option`; generated
 * identifiers come from per-table counters.
 */
module Schema {
  import opened Wrappers
  import opened Seqs
  import opened Model

  /** IDN_APPMGT_APP. */
  datatype AppRow = AppRow(
    id: int,
    tenant: int,
    name: string,
    userStore: string,
    userName: string,
    description: string,
    roleClaim: Option<string>,
    authType: string,
    provisioningUserStore: Option<string>,
    localClaimDialect: Option<string>,
    sendLocalSubjectId: Option<string>,
    sendAuthListOfIdps: Option<string>,
    subjectClaimUri: Option<string>,
    saas: Option<string>)

  /** IDN_APPMGT_CLIENT: one row per inbound property (or one row without a property). */
  datatype ClientRow = ClientRow(
    tenant: int,
    authKey: string,
    authType: string,
    propName: Option<string>,
    propValue: Option<string>,
    appId: int)

  /** IDN_APPMGT_STEP. */
  datatype StepRow = StepRow(id: int, tenant: int, order: int, appId: int, isSubject: string, isAttribute: string)

  /** IDN_APPMGT_STEP_IDP_AUTH: links a step to an authenticator. */
  datatype LinkRow = LinkRow(stepId: int, tenant: int, authenticatorId: int)

  /** IDP_AUTHENTICATOR, as far as the DAO sees it: keyed by identity-provider name and tenant. */
  datatype AuthenticatorRow = AuthenticatorRow(
    id: int,
    tenant: int,
    idpName: string,
    name: string,
    enabled: string,
    displayName: string)

  /** IDN_APPMGT_CLAIM_MAPPING. */
  datatype ClaimRow = ClaimRow(
    tenant: int,
    localClaim: string,
    remoteClaim: string,
    appId: int,
    requested: string,
    defaultValue: Option<string>)

  /** IDN_APPMGT_ROLE_MAPPING. */
  datatype RoleRow = RoleRow(tenant: int, localRole: string, remoteRole: string, appId: int)

  /** IDP_PROVISIONING_CONNECTOR rows of an application (outbound provisioning). */
  datatype ConnectorRow = ConnectorRow(
    tenant: int,
    idpName: string,
    connector: string,
    appId: int,
    jit: string,
    blocking: string)

  /** IDN_APPMGT_REQ_PATH_AUTH. */
  datatype ReqPathRow = ReqPathRow(tenant: int, name: string, appId: int)

  datatype Tables = Tables(
    apps: seq<AppRow>,
    clients: seq<ClientRow>,
    steps: seq<StepRow>,
    links: seq<LinkRow>,
    authenticators: seq<AuthenticatorRow>,
    claims: seq<ClaimRow>,
    roles: seq<RoleRow>,
    connectors: seq<ConnectorRow>,
    reqPaths: seq<ReqPathRow>,
    nextAppId: int,
    nextStepId: int,
    nextAuthenticatorId: int)

  // Keys by which rows are selected: (application id, tenant) for the child tables.

  function AppKey(r: AppRow): (int, int) { (r.id, r.tenant) }
  function AppNameKey(r: AppRow): (string, int) { (r.name, r.tenant) }
  function AppTenant(r: AppRow): int { r.tenant }
  function ClientKey(r: ClientRow): (int, int) { (r.appId, r.tenant) }
  function StepKey(r: StepRow): (int, int) { (r.appId, r.tenant) }
  function StepApp(r: StepRow): int { r.appId }
  function StepId(r: StepRow): int { r.id }
  function LinkStep(l: LinkRow): int { l.stepId }
  function ClaimKey(r: ClaimRow): (int, int) { (r.appId, r.tenant) }
  function RoleKey(r: RoleRow): (int, int) { (r.appId, r.tenant) }
  function ConnectorKey(r: ConnectorRow): (int, int) { (r.appId, r.tenant) }
  function ReqPathKey(r: ReqPathRow): (int, int) { (r.appId, r.tenant) }

  /** Ids of a sequence of step rows. */
  function StepIds(rows: seq<StepRow>): (ids: set<int>)
    ensures forall r :: r in rows ==> r.id in ids
    ensures forall i :: i in ids ==> exists r :: r in rows && r.id == i
  {
    set r | r in rows :: r.id
  }

  /**
   * What the storage layer guarantees: generated ids are positive and below
   * their counter, application names are unique per tenant (the table's
   * unique key), and application, step and authenticator ids are unique.
   */
  ghost predicate Valid(t: Tables) {
    && ValidApps(t.apps, t.nextAppId)
    && ValidSteps(t.steps, t.nextStepId)
    && ValidLinks(t.links, t.nextStepId)
    && ValidAuthenticators(t.authenticators, t.nextAuthenticatorId)
  }

  ghost predicate ValidApps(apps: seq<AppRow>, next: int) {
    && next > 0
    && (forall r :: r in apps ==> 0 < r.id < next)
    && (forall i, j :: 0 <= i < j < |apps| ==> apps[i].id != apps[j].id)
    && (forall i, j :: 0 <= i < j < |apps| ==> AppNameKey(apps[i]) != AppNameKey(apps[j]))
  }

  ghost predicate ValidSteps(steps: seq<StepRow>, next: int) {
    && next > 0
    && (forall r :: r in steps ==> 0 < r.id < next)
    && (forall i, j :: 0 <= i < j < |steps| ==> steps[i].id != steps[j].id)
  }

  ghost predicate ValidLinks(links: seq<LinkRow>, nextStep: int) {
    forall l :: l in links ==> l.stepId < nextStep
  }

  ghost predicate ValidAuthenticators(rows: seq<AuthenticatorRow>, next: int) {
    && next > 0
    && (forall a :: a in rows ==> 0 < a.id < next)
    && (forall i, j :: 0 <= i < j < |rows| ==> rows[i].id != rows[j].id)
  }

  function EmptyTables(): (t: Tables)
    ensures Valid(t)
  {
    Tables([], [], [], [], [], [], [], [], [], 1, 1, 1)
  }

  // The "1"/"0" encoding of booleans.

  function EncodeFlag(b: bool): (s: string)
    ensures s == "1" || s == "0"
    ensures DecodeFlag(s) == b
  {
    if b then "1" else "0"
  }

  /** `"1".equals(column)`: anything but "1", NULL included, reads as false. */
  predicate DecodeFlag(s: string) {
    s == "1"
  }

  predicate DecodeColumn(c: Option<string>) {
    c == Some("1")
  }

  // Single-row lookups on IDN_APPMGT_APP (each query returns its first row).

  /** `LOAD_BASIC_APP_INFO_BY_APP_NAME`. */
  function AppByName(t: Tables, name: string, tenant: int): (r: Option<AppRow>)
    ensures r.Some? ==> r.value in t.apps && r.value.name == name && r.value.tenant == tenant
    ensures r.None? ==> forall a :: a in t.apps ==> AppNameKey(a) != (name, tenant)
  {
    var found := Keep(t.apps, AppNameKey, (name, tenant));
    if found == [] then None else assert found[0] in found; Some(found[0])
  }

  /** `LOAD_APP_ID_BY_APP_NAME`: 0 when there is no such application. */
  function AppIdByName(t: Tables, name: string, tenant: int): (id: int)
    ensures AppByName(t, name, tenant).None? ==> id == 0
    ensures AppByName(t, name, tenant).Some? ==> id == AppByName(t, name, tenant).value.id
  {
    match AppByName(t, name, tenant)
    case None => 0
    case Some(a) => a.id
  }

  /** `LOAD_APP_NAME_BY_APP_ID`: null (None) when there is no such application. */
  function AppById(t: Tables, id: int, tenant: int): (r: Option<AppRow>)
    ensures r.Some? ==> r.value in t.apps && r.value.id == id && r.value.tenant == tenant
    ensures r.None? ==> forall a :: a in t.apps ==> AppKey(a) != (id, tenant)
  {
    var found := Keep(t.apps, AppKey, (id, tenant));
    if found == [] then None else assert found[0] in found; Some(found[0])
  }

  function AppNameById(t: Tables, id: int, tenant: int): Option<string> {
    match AppById(t, id, tenant)
    case None => None
    case Some(a) => Some(a.name)
  }

  /** `getAuthenticationType`: the stored type, "default" when the row is missing. */
  function AuthTypeOf(t: Tables, id: int, tenant: int): (s: string)
    ensures AppById(t, id, tenant).None? ==> s == AUTH_TYPE_DEFAULT
    ensures AppById(t, id, tenant).Some? ==> s == AppById(t, id, tenant).value.authType
  {
    match AppById(t, id, tenant)
    case None => AUTH_TYPE_DEFAULT
    case Some(a) => a.authType
  }

  /** In a valid store an application name identifies at most one row of a tenant. */
  lemma AppByNameUnique(t: Tables, a: AppRow)
    requires Valid(t)
    requires a in t.apps
    ensures AppByName(t, a.name, a.tenant) == Some(a)
  {
    var b := AppByName(t, a.name, a.tenant).value;
    var i :| 0 <= i < |t.apps| && t.apps[i] == a;
    var j :| 0 <= j < |t.apps| && t.apps[j] == b;
    assert AppNameKey(t.apps[i]) == AppNameKey(t.apps[j]);
    assert i == j;
  }

  /** In a valid store an id identifies at most one application row. */
  lemma AppByIdUnique(t: Tables, a: AppRow)
    requires Valid(t)
    requires a in t.apps
    ensures AppById(t, a.id, a.tenant) == Some(a)
  {
    var b := AppById(t, a.id, a.tenant).value;
    var i :| 0 <= i < |t.apps| && t.apps[i] == a;
    var j :| 0 <= j < |t.apps| && t.apps[j] == b;
    assert t.apps[i].id == t.apps[j].id;
    assert i == j;
  }
}
