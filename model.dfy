/**
 * The service-provider aggregate as the DAO receives it and returns it, and
 * the constants of the application-management component.
 *
 * Java references that the DAO tests for null are `Option`s here; references
 * it never tests, or tests only together with "empty", are plain values (a
 * null array is the empty sequence, a null identity-provider name is "").
 */
module Model {
  import opened Wrappers

  /** Name of the tenant's implicit default application. */
  const LOCAL_SP: string := "wso2carbon-local-sp"
  /** Reserved name a federated identity provider may not take. */
  const LOCAL_IDP: string := "wso2carbon-local-idp"
  /** Identity-provider name under which local authenticators are registered. */
  const LOCAL_IDP_NAME: string := "LOCAL"
  const AUTH_TYPE_DEFAULT: string := "default"
  const AUTH_TYPE_LOCAL: string := "local"
  const AUTH_TYPE_FEDERATED: string := "federated"
  const SUPER_TENANT_ID: int := -1234
  /** Tenant id most operations use when no tenant domain is given. */
  const UNRESOLVED_TENANT_ID: int := -123
  /** Description given to the implicitly created default application. */
  const LOCAL_SP_DESCRIPTION: string := "Local Service Provider"

  /** A user already split into user-store domain and name. */
  datatype User = User(userStoreDomain: string, userName: string, tenantId: int)

  /** Owner recorded for the default application (the registry system user). */
  const SYSTEM_USER_NAME: string := "wso2.system.user"
  const PRIMARY_DOMAIN: string := "PRIMARY"

  datatype Property = Property(name: Option<string>, value: Option<string>)

  /** One inbound protocol binding: (key, type) and its properties. */
  datatype InboundRequest = InboundRequest(key: Option<string>, authType: Option<string>, properties: seq<Property>)

  datatype LocalAuthenticator = LocalAuthenticator(name: string, displayName: string)

  datatype FederatedAuthenticator = FederatedAuthenticator(name: string, displayName: string)

  datatype IdentityProvider = IdentityProvider(
    name: string,
    authenticators: seq<FederatedAuthenticator>,
    defaultAuthenticator: Option<FederatedAuthenticator>,
    federationHub: bool)

  datatype AuthStep = AuthStep(
    order: int,
    subjectStep: bool,
    attributeStep: bool,
    local: seq<LocalAuthenticator>,
    federated: seq<IdentityProvider>)

  datatype AuthConfig = AuthConfig(
    authType: Option<string>,
    steps: seq<AuthStep>,
    sendBackAuthenticatedIdps: bool,
    subjectClaimUri: Option<string>)

  datatype ClaimMapping = ClaimMapping(
    localClaim: Option<string>,
    remoteClaim: Option<string>,
    requested: bool,
    defaultValue: Option<string>)

  datatype ClaimConfig = ClaimConfig(
    roleClaimUri: Option<string>,
    localClaimDialect: bool,
    alwaysSendMappedLocalSubjectId: bool,
    mappings: seq<ClaimMapping>)

  datatype RoleMapping = RoleMapping(localRole: string, localRoleUserStore: Option<string>, remoteRole: string)

  datatype Connector = Connector(name: string, blocking: bool)

  /** An identity provider as it appears in the outbound provisioning configuration. */
  datatype ProvisioningIdp = ProvisioningIdp(name: string, defaultConnector: Option<Connector>, jitEnabled: bool)

  datatype ServiceProvider = ServiceProvider(
    id: int,
    name: Option<string>,
    description: string,
    owner: Option<User>,
    saas: bool,
    inbound: seq<InboundRequest>,
    authConfig: Option<AuthConfig>,
    provisioningUserStore: Option<string>,
    outboundProvisioning: seq<ProvisioningIdp>,
    claimConfig: Option<ClaimConfig>,
    roleMappings: seq<RoleMapping>,
    requestPathAuthenticators: seq<string>)

  /** What `getAllApplicationBasicInfo` lists per application. */
  datatype BasicInfo = BasicInfo(name: string, description: string)

  /** Reasons validation of the authentication flow fails. */
  datatype FlowError =
    | InvalidLocalConfig
    | InvalidFederatedConfig
    | EmptyStep(order: int)
    | ReservedIdpName(idpName: string)

  /** The DAO's exceptions. */
  datatype Failure =
    | NameRequired
    | FileBasedNameConflict
    | DuplicateName
    | InvalidFlow(flow: FlowError)
    | UpdateFailed(appId: int, cause: Failure)
    | ReadFailed

  /** Calls the DAO makes into collaborators outside the database transaction. */
  datatype Call =
    | RenameRole(oldName: Option<string>, newName: string)
    | DeleteAppRole(appName: Option<string>)
    | RemoveSamlServiceProvider(issuer: string)
    | RemoveOAuthApplication(consumerKey: string)
}
