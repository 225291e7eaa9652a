# Application management DAO, modelled in Dafny

This project models the store behind the identity server's service-provider
(application) management. The DAO keeps every application in a set of
tenant-scoped relational tables:
- the application row, holding its name, description, owner, SaaS flag and flow settings;
- the inbound-authentication client rows, one per property;
- the authentication steps and their links to registered authenticators;
- the claim mappings and the role mappings;
- the provisioning connectors and the request-path authenticators.

The DAO writes a service provider into these rows and assembles one back from them.

The model keeps the DAO's shape:
- The tables are sequences of rows in `Schema.Tables`. A query is a filter of those rows by the parameters the statement binds. The SQL text itself is not part of this model.
- Each writer is a function from a service provider to the rows it inserts (`WriteRows`). Each reader is a function from rows back to configuration (`ReadRows`, `InboundRead`, `StepRead`, `ReadApp`).
- The authentication-flow validator that `updateApplication` runs before it writes the steps is in `AuthFlow`.
- The authenticator registry (`getAuthentictorID`, `getAuthenticatorInfo`, `addAuthenticator`) is in `Registry`.
- Create, update and the two deletes are in `Lifecycle` and `Update`, as functions over the tables.
- `ApplicationDao.ApplicationStore` is the DAO object. It holds the tables and the log of calls into collaborators, as fields its methods update. Its methods (loops included) are proved equal to the functions above, and the properties are proved about those functions.

Modelling decisions:
- A tenant is its integer id. Resolving a tenant domain through the realm service happens outside the model. The callers pass `Some(id)`, or `None` for a missing domain, and the DAO's own defaults apply: -123 in `createApplication` and the other lookups, -1234 in `getApplication`.
- The inbound reader groups rows by key alone, as the source does. The first row of a key fixes the type. Properties come back in reverse order, because each one is prepended.
- The steps reader gathers its rows in a hash map whose iteration order Java leaves open. The model fixes that order to first appearance and states its properties in terms of orders and sets, which hold for every order.
- A step link whose authenticator row is missing gives a federated entry with an empty authenticator name under a provider with an empty name. `getAuthenticatorInfo` then returns an empty map, and the source files the authenticator under the null provider name with a null name (lines 1484-1497). The model writes those nulls as empty strings.
- An authenticator lookup prefers the tenant's own definition and falls back to the super tenant's one of the same names: a tenant-local definition shadows the shared one. The DAO binds the tenant and the super tenant (lines 2436-2440) and takes the first row the statement returns; the statement text, and with it any ordering, is not part of this model, so the model follows the documented shadowing.
- String comparisons that ignore case follow Java's `String.equalsIgnoreCase`: two UTF-16 units match when they are equal, when their upper cases are equal, or when the lower cases of their upper cases are equal (`Text.CharEqualsIgnoreCase`).
- A Java array that may be null is read as an empty sequence, unless a line below says otherwise.
- The constants are taken as the model's assumptions: `ApplicationConstants` (`LOCAL_SP`, `LOCAL_IDP` "wso2carbon-local-idp", `LOCAL_IDP_NAME` "LOCAL", the authentication types) and `MultitenantConstants.SUPER_TENANT_ID` (-1234) are not part of this model, and their values are assumed.
- The table's uniqueness of (application name, tenant) is assumed too. The DAO has no check of its own, so a duplicate name is modelled as the insert or update the constraint refuses (`DuplicateName`).
- Deleting an application removes its child rows as the foreign-key cascade described at lines 1983-1984 of the DAO does. The delete statements run inside the DAO are modelled one by one.
- The DAO class is in `ApplicationDAOImpl.java` under `components/identity/org.wso2.carbon.identity.application.mgt/src/main/java/org/wso2/carbon/identity/application/mgt/dao/impl/`.

## Model

| member | source | states |
|---|---|---|
| Schema.AppByName | components/identity/org.wso2.carbon.identity.application.mgt/src/main/java/org/wso2/carbon/identity/application/mgt/dao/impl/ApplicationDAOImpl.java:1111-1121 | the row found has the asked name and tenant; none found means no row has that (name, tenant) |
| Schema.AppIdByName | components/identity/org.wso2.carbon.identity.application.mgt/src/main/java/org/wso2/carbon/identity/application/mgt/dao/impl/ApplicationDAOImpl.java:1326-1356 | the id of the row named in the tenant, 0 when there is none |
| Schema.AppById | components/identity/org.wso2.carbon.identity.application.mgt/src/main/java/org/wso2/carbon/identity/application/mgt/dao/impl/ApplicationDAOImpl.java:1296-1303 | the row found has the asked id and tenant; none found means no row has that key |
| Schema.AuthTypeOf | components/identity/org.wso2.carbon.identity.application.mgt/src/main/java/org/wso2/carbon/identity/application/mgt/dao/impl/ApplicationDAOImpl.java:1172-1190 | an application that does not exist reads as the "default" authentication type; one that exists reads as the type stored in its row |
| Schema.AppByNameUnique | components/identity/org.wso2.carbon.identity.application.mgt/src/main/java/org/wso2/carbon/identity/application/mgt/dao/impl/ApplicationDAOImpl.java:1111-1121 | in a valid store every row is what the name lookup returns for its own name and tenant |
| Schema.EncodeFlag | components/identity/org.wso2.carbon.identity.application.mgt/src/main/java/org/wso2/carbon/identity/application/mgt/dao/impl/ApplicationDAOImpl.java:307-315 | a boolean column is stored as "1" or "0" and decodes back to the same boolean |
| AuthFlow.NormalisedAuthType | components/identity/org.wso2.carbon.identity.application.mgt/src/main/java/org/wso2/carbon/identity/application/mgt/dao/impl/ApplicationDAOImpl.java:650-663 | the stored type is "default" when there are no steps or no type, the submitted type otherwise |
| AuthFlow.WithDefaultAuthenticator | components/identity/org.wso2.carbon.identity.application.mgt/src/main/java/org/wso2/carbon/identity/application/mgt/dao/impl/ApplicationDAOImpl.java:712-723 | a federated provider keeps its name and hub flag; its authenticators become the single registry default, which is also its default |
| AuthFlow.ApplyFederatedDefault | components/identity/org.wso2.carbon.identity.application.mgt/src/main/java/org/wso2/carbon/identity/application/mgt/dao/impl/ApplicationDAOImpl.java:712-723 | the flow stays one federated step with the same order and subject/attribute flags, and its provider carries the registry default authenticator |
| AuthFlow.FirstReserved | components/identity/org.wso2.carbon.identity.application.mgt/src/main/java/org/wso2/carbon/identity/application/mgt/dao/impl/ApplicationDAOImpl.java:805-813 | a name is reported exactly when some provider of the step has a name reserved for the local IdP (any case) |
| AuthFlow.StepErrorIff | components/identity/org.wso2.carbon.identity.application.mgt/src/main/java/org/wso2/carbon/identity/application/mgt/dao/impl/ApplicationDAOImpl.java:727-813 | a step is refused exactly when it has no authenticator or names a reserved provider |
| AuthFlow.StepsErrorIff | components/identity/org.wso2.carbon.identity.application.mgt/src/main/java/org/wso2/carbon/identity/application/mgt/dao/impl/ApplicationDAOImpl.java:727-813 | the flow passes exactly when every step is acceptable |
| AuthFlow.EmptyStepRefused | components/identity/org.wso2.carbon.identity.application.mgt/src/main/java/org/wso2/carbon/identity/application/mgt/dao/impl/ApplicationDAOImpl.java:734-741 | a step with neither local nor federated authenticators makes the flow fail |
| AuthFlow.ApplyFederatedDefaultKeepsVerdict | components/identity/org.wso2.carbon.identity.application.mgt/src/main/java/org/wso2/carbon/identity/application/mgt/dao/impl/ApplicationDAOImpl.java:712-813 | replacing the federated authenticators by the default does not change whether the flow is accepted |
| AuthFlow.PrepareFlowAcceptsIff | components/identity/org.wso2.carbon.identity.application.mgt/src/main/java/org/wso2/carbon/identity/application/mgt/dao/impl/ApplicationDAOImpl.java:650-813 | the flow is accepted exactly when there are no steps, or its shape fits its type and every step is acceptable |
| AuthFlow.NoStepsIsDefault | components/identity/org.wso2.carbon.identity.application.mgt/src/main/java/org/wso2/carbon/identity/application/mgt/dao/impl/ApplicationDAOImpl.java:650-663 | a configuration without steps is stored with the "default" type and no steps |
| AuthFlow.LocalAccepted | components/identity/org.wso2.carbon.identity.application.mgt/src/main/java/org/wso2/carbon/identity/application/mgt/dao/impl/ApplicationDAOImpl.java:684-697 | an accepted "local" flow is one step with one local authenticator and is written unchanged |
| AuthFlow.FederatedAccepted | components/identity/org.wso2.carbon.identity.application.mgt/src/main/java/org/wso2/carbon/identity/application/mgt/dao/impl/ApplicationDAOImpl.java:698-724 | an accepted "federated" flow is one step with one provider and is written with the provider's default authenticator |
| AuthFlow.AcceptedStepsAcceptable | components/identity/org.wso2.carbon.identity.application.mgt/src/main/java/org/wso2/carbon/identity/application/mgt/dao/impl/ApplicationDAOImpl.java:727-813 | every step that is written is non-empty and names no reserved provider |
| AuthFlow.ReservedNameRefusedExample | components/identity/org.wso2.carbon.identity.application.mgt/src/main/java/org/wso2/carbon/identity/application/mgt/dao/impl/ApplicationDAOImpl.java:808-813 | a step naming the provider "WSO2Carbon-Local-IdP", the reserved local provider name in another letter case, is refused |
| AuthFlow.LongSReservedNameExample | components/identity/org.wso2.carbon.identity.application.mgt/src/main/java/org/wso2/carbon/identity/application/mgt/dao/impl/ApplicationDAOImpl.java:808-813 | the reserved name spelled with the long s, which Java upper-cases to 'S', is reserved too |
| AuthFlow.LocalWithTwoAuthenticatorsRefusedExample | components/identity/org.wso2.carbon.identity.application.mgt/src/main/java/org/wso2/carbon/identity/application/mgt/dao/impl/ApplicationDAOImpl.java:684-697 | a "local" flow with two local authenticators is refused |
| Registry.FirstMatch | components/identity/org.wso2.carbon.identity.application.mgt/src/main/java/org/wso2/carbon/identity/application/mgt/dao/impl/ApplicationDAOImpl.java:2441-2444 | an id other than -1 comes from a row of exactly that tenant with that provider and name; with positive ids, -1 means no such row |
| Registry.AuthenticatorId | components/identity/org.wso2.carbon.identity.application.mgt/src/main/java/org/wso2/carbon/identity/application/mgt/dao/impl/ApplicationDAOImpl.java:2424-2448 | an empty provider name gives -1; any other id found belongs to a row of the tenant or the super tenant with that provider and name |
| Registry.TenantShadowsSuper | components/identity/org.wso2.carbon.identity.application.mgt/src/main/java/org/wso2/carbon/identity/application/mgt/dao/impl/ApplicationDAOImpl.java:2436-2444 | when the tenant has its own row with the names, the id found is one of the tenant's rows; otherwise the lookup finds what the super tenant's lookup finds |
| Registry.AddAuthenticator | components/identity/org.wso2.carbon.identity.application.mgt/src/main/java/org/wso2/carbon/identity/application/mgt/dao/impl/ApplicationDAOImpl.java:2493-2518 | appends one enabled ("1") row under a fresh positive id and changes nothing else |
| Registry.LastInfo | components/identity/org.wso2.carbon.identity.application.mgt/src/main/java/org/wso2/carbon/identity/application/mgt/dao/impl/ApplicationDAOImpl.java:2472-2477 | the row returned matches the id and tenant; none is returned exactly when no row matches |
| Registry.FirstMatchAppend | components/identity/org.wso2.carbon.identity.application.mgt/src/main/java/org/wso2/carbon/identity/application/mgt/dao/impl/ApplicationDAOImpl.java:2441-2444 | a lookup over appended rows finds a match in the first part before looking at the rest |
| Registry.AuthenticatorIdFoundIff | components/identity/org.wso2.carbon.identity.application.mgt/src/main/java/org/wso2/carbon/identity/application/mgt/dao/impl/ApplicationDAOImpl.java:2424-2448 | a positive id is found exactly when some row of the tenant or the super tenant has that provider and name |
| Registry.SuperTenantVisible | components/identity/org.wso2.carbon.identity.application.mgt/src/main/java/org/wso2/carbon/identity/application/mgt/dao/impl/ApplicationDAOImpl.java:2436-2440 | an authenticator registered under the super tenant is found from every tenant |
| Registry.ResolveThenInfo | components/identity/org.wso2.carbon.identity.application.mgt/src/main/java/org/wso2/carbon/identity/application/mgt/dao/impl/ApplicationDAOImpl.java:2424-2481 | the info read for a resolved id has that id, provider and name |
| Registry.AddThenResolve | components/identity/org.wso2.carbon.identity.application.mgt/src/main/java/org/wso2/carbon/identity/application/mgt/dao/impl/ApplicationDAOImpl.java:776-783 | after registering a missing local authenticator, resolving it gives the new id |
| Registry.AddKeepsResolved | components/identity/org.wso2.carbon.identity.application.mgt/src/main/java/org/wso2/carbon/identity/application/mgt/dao/impl/ApplicationDAOImpl.java:2493-2518 | registering an authenticator its own tenant could not find does not change what any lookup that succeeded gives |
| WriteRows.PropertyRows | components/identity/org.wso2.carbon.identity.application.mgt/src/main/java/org/wso2/carbon/identity/application/mgt/dao/impl/ApplicationDAOImpl.java:364-377 | one client row per property, carrying the request's key and type and the property's name and value |
| WriteRows.RequestRows | components/identity/org.wso2.carbon.identity.application.mgt/src/main/java/org/wso2/carbon/identity/application/mgt/dao/impl/ApplicationDAOImpl.java:353-388 | a request without key or type writes nothing; one without properties writes one row; otherwise one row per property |
| WriteRows.ClientRows | components/identity/org.wso2.carbon.identity.application.mgt/src/main/java/org/wso2/carbon/identity/application/mgt/dao/impl/ApplicationDAOImpl.java:333-404 | every row written belongs to the application and tenant |
| WriteRows.ClaimRowOf | components/identity/org.wso2.carbon.identity.application.mgt/src/main/java/org/wso2/carbon/identity/application/mgt/dao/impl/ApplicationDAOImpl.java:934-955 | a mapping is stored exactly when both claims are given, with those claims |
| WriteRows.ClaimRows | components/identity/org.wso2.carbon.identity.application.mgt/src/main/java/org/wso2/carbon/identity/application/mgt/dao/impl/ApplicationDAOImpl.java:934-964 | at most one row per mapping, all for the application and tenant |
| WriteRows.RoleRows | components/identity/org.wso2.carbon.identity.application.mgt/src/main/java/org/wso2/carbon/identity/application/mgt/dao/impl/ApplicationDAOImpl.java:993-1002 | one row per role mapping, in order |
| WriteRows.ConnectorRowOf | components/identity/org.wso2.carbon.identity.application.mgt/src/main/java/org/wso2/carbon/identity/application/mgt/dao/impl/ApplicationDAOImpl.java:468-500 | a provisioning IdP is stored exactly when it has a default connector, with its name, connector, jit and blocking flags |
| WriteRows.ConnectorRows | components/identity/org.wso2.carbon.identity.application.mgt/src/main/java/org/wso2/carbon/identity/application/mgt/dao/impl/ApplicationDAOImpl.java:447-510 | at most one row per IdP, all for the application and tenant |
| WriteRows.ReqPathRows | components/identity/org.wso2.carbon.identity.application.mgt/src/main/java/org/wso2/carbon/identity/application/mgt/dao/impl/ApplicationDAOImpl.java:1821-1840 | one row per request-path authenticator, in order |
| WriteRows.ConnectorRowsCount | components/identity/org.wso2.carbon.identity.application.mgt/src/main/java/org/wso2/carbon/identity/application/mgt/dao/impl/ApplicationDAOImpl.java:468-474 | the number of connector rows is the number of IdPs with a default connector |
| ReadRows.DecodeClaimRow | components/identity/org.wso2.carbon.identity.application.mgt/src/main/java/org/wso2/carbon/identity/application/mgt/dao/impl/ApplicationDAOImpl.java:1663-1694 | a read mapping always has both claims; a blank side is filled from the other; requested means "1" |
| ReadRows.DecodedClaimNotBlank | components/identity/org.wso2.carbon.identity.application.mgt/src/main/java/org/wso2/carbon/identity/application/mgt/dao/impl/ApplicationDAOImpl.java:1679-1687 | when either claim is non-blank, neither side of the read mapping is blank |
| ReadRows.BlankRemoteClaimExample | components/identity/org.wso2.carbon.identity.application.mgt/src/main/java/org/wso2/carbon/identity/application/mgt/dao/impl/ApplicationDAOImpl.java:1679-1687 | a blank remote claim reads back as the local claim |
| ReadRows.ClaimRoundTrip | components/identity/org.wso2.carbon.identity.application.mgt/src/main/java/org/wso2/carbon/identity/application/mgt/dao/impl/ApplicationDAOImpl.java:1663-1694 | a mapping with two non-blank claims reads back equal after it is written |
| ReadRows.ClaimsRoundTrip | components/identity/org.wso2.carbon.identity.application.mgt/src/main/java/org/wso2/carbon/identity/application/mgt/dao/impl/ApplicationDAOImpl.java:1644-1703 | a list of such mappings reads back equal, element by element |
| ReadRows.ClaimMap | components/identity/org.wso2.carbon.identity.application.mgt/src/main/java/org/wso2/carbon/identity/application/mgt/dao/impl/ApplicationDAOImpl.java:2326-2331 | the map's keys are exactly the keys (local or remote side) of the rows |
| ReadRows.ClaimMapLastWins | components/identity/org.wso2.carbon.identity.application.mgt/src/main/java/org/wso2/carbon/identity/application/mgt/dao/impl/ApplicationDAOImpl.java:2326-2331 | a key maps to the value of its last row |
| ReadRows.ClaimMapsInverse | components/identity/org.wso2.carbon.identity.application.mgt/src/main/java/org/wso2/carbon/identity/application/mgt/dao/impl/ApplicationDAOImpl.java:2344-2362 | with distinct claims, the map keyed by the local IdP and the map keyed by the SP are inverse |
| ReadRows.RequestedClaims | components/identity/org.wso2.carbon.identity.application.mgt/src/main/java/org/wso2/carbon/identity/application/mgt/dao/impl/ApplicationDAOImpl.java:2399-2403 | a claim is listed exactly when some row has it as local claim and requested "1" (any case) |
| ReadRows.RequestedAfterWrite | components/identity/org.wso2.carbon.identity.application.mgt/src/main/java/org/wso2/carbon/identity/application/mgt/dao/impl/ApplicationDAOImpl.java:948-952 | the requested claims read from written rows are the local claims of the requested mappings |
| ReadRows.RolesRoundTrip | components/identity/org.wso2.carbon.identity.application.mgt/src/main/java/org/wso2/carbon/identity/application/mgt/dao/impl/ApplicationDAOImpl.java:1904-1910 | written role mappings read back with the same local and remote roles, without a user store |
| ReadRows.DecodeConnectorRow | components/identity/org.wso2.carbon.identity.application.mgt/src/main/java/org/wso2/carbon/identity/application/mgt/dao/impl/ApplicationDAOImpl.java:567-590 | a connector row reads as an IdP with that name, connector and jit/blocking flags |
| ReadRows.WithConnector | components/identity/org.wso2.carbon.identity.application.mgt/src/main/java/org/wso2/carbon/identity/application/mgt/dao/impl/ApplicationDAOImpl.java:472-474 | keeps exactly the IdPs that have a default connector |
| ReadRows.ConnectorsRoundTrip | components/identity/org.wso2.carbon.identity.application.mgt/src/main/java/org/wso2/carbon/identity/application/mgt/dao/impl/ApplicationDAOImpl.java:550-600 | written provisioning IdPs read back as those with a connector, in order |
| InboundRead.Requests | components/identity/org.wso2.carbon.identity.application.mgt/src/main/java/org/wso2/carbon/identity/application/mgt/dao/impl/ApplicationDAOImpl.java:1423-1425 | one request per grouped key, in key order |
| InboundRead.Reverse | components/identity/org.wso2.carbon.identity.application.mgt/src/main/java/org/wso2/carbon/identity/application/mgt/dao/impl/ApplicationDAOImpl.java:1401-1410 | same length; the reader's prepend reverses the properties |
| InboundRead.ReverseAt | components/identity/org.wso2.carbon.identity.application.mgt/src/main/java/org/wso2/carbon/identity/application/mgt/dao/impl/ApplicationDAOImpl.java:1401-1410 | position i of the properties read back holds the property written at position n - 1 - i |
| InboundRead.GroupSpec | components/identity/org.wso2.carbon.identity.application.mgt/src/main/java/org/wso2/carbon/identity/application/mgt/dao/impl/ApplicationDAOImpl.java:1386-1416 | grouping finds each key with the type of its first row and its named properties in reverse |
| InboundRead.RequestRoundTrip | components/identity/org.wso2.carbon.identity.application.mgt/src/main/java/org/wso2/carbon/identity/application/mgt/dao/impl/ApplicationDAOImpl.java:1386-1416 | one written request reads back as itself with its properties reversed |
| InboundRead.SameKeyMergedExample | components/identity/org.wso2.carbon.identity.application.mgt/src/main/java/org/wso2/carbon/identity/application/mgt/dao/impl/ApplicationDAOImpl.java:1391-1396 | two rows with one key and different types merge into one request of the first type |
| InboundRead.FirstTypeFound | components/identity/org.wso2.carbon.identity.application.mgt/src/main/java/org/wso2/carbon/identity/application/mgt/dao/impl/ApplicationDAOImpl.java:1391-1394 | a key has a type exactly when some row carries that key |
| InboundRead.InboundConfigUnfold | components/identity/org.wso2.carbon.identity.application.mgt/src/main/java/org/wso2/carbon/identity/application/mgt/dao/impl/ApplicationDAOImpl.java:1365-1426 | the read requests are the groups of the application's rows, one per key |
| InboundRead.InboundConfigRequests | components/identity/org.wso2.carbon.identity.application.mgt/src/main/java/org/wso2/carbon/identity/application/mgt/dao/impl/ApplicationDAOImpl.java:1386-1425 | every request read has the key, type and properties of its rows |
| InboundRead.InboundConfigKeys | components/identity/org.wso2.carbon.identity.application.mgt/src/main/java/org/wso2/carbon/identity/application/mgt/dao/impl/ApplicationDAOImpl.java:1386-1396 | a key is read exactly when one of the application's rows carries it |
| InboundRead.InboundRoundTrip | components/identity/org.wso2.carbon.identity.application.mgt/src/main/java/org/wso2/carbon/identity/application/mgt/dao/impl/ApplicationDAOImpl.java:1365-1426 | requests with distinct keys read back as the same requests (properties reversed), no more and no fewer |
| InboundRead.ReadCount | components/identity/org.wso2.carbon.identity.application.mgt/src/main/java/org/wso2/carbon/identity/application/mgt/dao/impl/ApplicationDAOImpl.java:1423-1425 | as many requests are read as were written |
| StepRead.JoinStep | components/identity/org.wso2.carbon.identity.application.mgt/src/main/java/org/wso2/carbon/identity/application/mgt/dao/impl/ApplicationDAOImpl.java:1445-1449 | the joined rows of a step are its links, each with the step's order and flags |
| StepRead.Resolve | components/identity/org.wso2.carbon.identity.application.mgt/src/main/java/org/wso2/carbon/identity/application/mgt/dao/impl/ApplicationDAOImpl.java:1470-1505 | each joined row is classified through the authenticator info of its id |
| StepRead.LocalResolvesLocal | components/identity/org.wso2.carbon.identity.application.mgt/src/main/java/org/wso2/carbon/identity/application/mgt/dao/impl/ApplicationDAOImpl.java:1474-1483 | an authenticator registered under "LOCAL" reads back as a local authenticator of that name |
| StepRead.FederatedResolvesFederated | components/identity/org.wso2.carbon.identity.application.mgt/src/main/java/org/wso2/carbon/identity/application/mgt/dao/impl/ApplicationDAOImpl.java:1484-1501 | one registered under another provider reads back as a federated entry of that provider |
| StepRead.CollectSpec | components/identity/org.wso2.carbon.identity.application.mgt/src/main/java/org/wso2/carbon/identity/application/mgt/dao/impl/ApplicationDAOImpl.java:1451-1508 | grouping by step order keeps, per order, its local and federated entries and the flags of its last row |
| StepRead.IdpNames | components/identity/org.wso2.carbon.identity.application.mgt/src/main/java/org/wso2/carbon/identity/application/mgt/dao/impl/ApplicationDAOImpl.java:1529-1549 | the provider names of a step, each once |
| StepRead.IdpNamesIff | components/identity/org.wso2.carbon.identity.application.mgt/src/main/java/org/wso2/carbon/identity/application/mgt/dao/impl/ApplicationDAOImpl.java:1529-1549 | a provider is listed exactly when some entry names it |
| StepRead.NamedHasAuthenticators | components/identity/org.wso2.carbon.identity.application.mgt/src/main/java/org/wso2/carbon/identity/application/mgt/dao/impl/ApplicationDAOImpl.java:1536-1546 | every listed provider has at least one authenticator |
| StepRead.Idps | components/identity/org.wso2.carbon.identity.application.mgt/src/main/java/org/wso2/carbon/identity/application/mgt/dao/impl/ApplicationDAOImpl.java:1536-1549 | one provider per name, each built as by IdpOf |
| StepRead.IdpOf | components/identity/org.wso2.carbon.identity.application.mgt/src/main/java/org/wso2/carbon/identity/application/mgt/dao/impl/ApplicationDAOImpl.java:1539-1546 | the provider keeps its authenticators, the first is its default, and the hub flag is looked up |
| StepRead.BuildSteps | components/identity/org.wso2.carbon.identity.application.mgt/src/main/java/org/wso2/carbon/identity/application/mgt/dao/impl/ApplicationDAOImpl.java:1511-1552 | one step per collected order, each built from its group |
| StepRead.InsertAt | components/identity/org.wso2.carbon.identity.application.mgt/src/main/java/org/wso2/carbon/identity/application/mgt/dao/impl/ApplicationDAOImpl.java:1555-1561 | one insertion pass leaves the array's prefix sorted by order and permuted |
| StepRead.SortByOrder | components/identity/org.wso2.carbon.identity.application.mgt/src/main/java/org/wso2/carbon/identity/application/mgt/dao/impl/ApplicationDAOImpl.java:1555-1561 | the array ends sorted by order and a permutation of what it was |
| StepRead.SortedStepsShape | components/identity/org.wso2.carbon.identity.application.mgt/src/main/java/org/wso2/carbon/identity/application/mgt/dao/impl/ApplicationDAOImpl.java:1451-1561 | sorted steps have strictly increasing orders, one for each order present in the rows, each built from its group |
| StepRead.BuiltDistinct | components/identity/org.wso2.carbon.identity.application.mgt/src/main/java/org/wso2/carbon/identity/application/mgt/dao/impl/ApplicationDAOImpl.java:1451-1552 | built steps have pairwise distinct orders |
| StepRead.Wrap32 | components/identity/org.wso2.carbon.identity.application.mgt/src/main/java/org/wso2/carbon/identity/application/mgt/dao/impl/ApplicationDAOImpl.java:1557 | the result is a 32-bit integer, equal to the input when the input already is one |
| StepRead.ComparatorOverflowExample | components/identity/org.wso2.carbon.identity.application.mgt/src/main/java/org/wso2/carbon/identity/application/mgt/dao/impl/ApplicationDAOImpl.java:1555-1559 | the subtracting comparator says -2^31 < 0 and 0 < 1 but -2^31 > 1 |
| StepRead.CompareOrders | components/identity/org.wso2.carbon.identity.application.mgt/src/main/java/org/wso2/carbon/identity/application/mgt/dao/impl/ApplicationDAOImpl.java:1555-1559 | the comparison is negative exactly when o1 < o2 and positive exactly when o1 > o2 |
| StepRead.CompareOrdersIsOrder | components/identity/org.wso2.carbon.identity.application.mgt/src/main/java/org/wso2/carbon/identity/application/mgt/dao/impl/ApplicationDAOImpl.java:1555-1561 | the corrected comparator is antisymmetric and transitive |
| StepRead.ComparatorsAgreeWithoutOverflow | components/identity/org.wso2.carbon.identity.application.mgt/src/main/java/org/wso2/carbon/identity/application/mgt/dao/impl/ApplicationDAOImpl.java:1555-1559 | where the subtraction does not overflow, the written comparator agrees with the corrected one |
| StepRead.InsertStep | components/identity/org.wso2.carbon.identity.application.mgt/src/main/java/org/wso2/carbon/identity/application/mgt/dao/impl/ApplicationDAOImpl.java:1561 | inserting adds the step to the multiset of steps |
| StepRead.SortSteps | components/identity/org.wso2.carbon.identity.application.mgt/src/main/java/org/wso2/carbon/identity/application/mgt/dao/impl/ApplicationDAOImpl.java:1561 | sorting is a permutation |
| StepRead.InsertStepSorted | components/identity/org.wso2.carbon.identity.application.mgt/src/main/java/org/wso2/carbon/identity/application/mgt/dao/impl/ApplicationDAOImpl.java:1561 | inserting into a sorted list keeps it sorted |
| StepRead.SortStepsSorted | components/identity/org.wso2.carbon.identity.application.mgt/src/main/java/org/wso2/carbon/identity/application/mgt/dao/impl/ApplicationDAOImpl.java:1561 | the result of sorting is sorted by order |
| StepRead.SortedUnique | components/identity/org.wso2.carbon.identity.application.mgt/src/main/java/org/wso2/carbon/identity/application/mgt/dao/impl/ApplicationDAOImpl.java:1555-1561 | two sorted permutations of steps with distinct orders are equal, so the read steps do not depend on the sort used |
| StepRead.ReadStepsShape | components/identity/org.wso2.carbon.identity.application.mgt/src/main/java/org/wso2/carbon/identity/application/mgt/dao/impl/ApplicationDAOImpl.java:1435-1563 | the steps read are in increasing order, one per stored order, each built from that order's links |
| StepRead.LoadSteps | components/identity/org.wso2.carbon.identity.application.mgt/src/main/java/org/wso2/carbon/identity/application/mgt/dao/impl/ApplicationDAOImpl.java:1510-1563 | filling an array and sorting it in place gives the specified steps |
| Update.SetColumn | components/identity/org.wso2.carbon.identity.application.mgt/src/main/java/org/wso2/carbon/identity/application/mgt/dao/impl/ApplicationDAOImpl.java:622-672 | a column update keeps the row's id, tenant and name |
| Update.UpdateApps | components/identity/org.wso2.carbon.identity.application.mgt/src/main/java/org/wso2/carbon/identity/application/mgt/dao/impl/ApplicationDAOImpl.java:622-672 | exactly the row with the key is rewritten |
| Update.SetAppSpec | components/identity/org.wso2.carbon.identity.application.mgt/src/main/java/org/wso2/carbon/identity/application/mgt/dao/impl/ApplicationDAOImpl.java:622-672 | a single-column update keeps the store valid, changes only the applications table, only the keyed row |
| Update.UpdateBasic | components/identity/org.wso2.carbon.identity.application.mgt/src/main/java/org/wso2/carbon/identity/application/mgt/dao/impl/ApplicationDAOImpl.java:271-315 | fails exactly for a missing name or a name taken by another application, with that error |
| Update.UpdateBasicSpec | components/identity/org.wso2.carbon.identity.application.mgt/src/main/java/org/wso2/carbon/identity/application/mgt/dao/impl/ApplicationDAOImpl.java:304-315 | the basic update changes only the application row: new name, description and "1"/"0" SaaS flag |
| Update.RenameCalls | components/identity/org.wso2.carbon.identity.application.mgt/src/main/java/org/wso2/carbon/identity/application/mgt/dao/impl/ApplicationDAOImpl.java:286-297 | a role rename from the stored name to the new one is asked for exactly when the name changes |
| Update.DeleteStepsSpec | components/identity/org.wso2.carbon.identity.application.mgt/src/main/java/org/wso2/carbon/identity/application/mgt/dao/impl/ApplicationDAOImpl.java:2116-2131 | removes the application's steps and no other application's |
| Update.FederatedLinks | components/identity/org.wso2.carbon.identity.application.mgt/src/main/java/org/wso2/carbon/identity/application/mgt/dao/impl/ApplicationDAOImpl.java:815-839 | every link made joins the step to a registered authenticator of the tenant |
| Update.IdpLinks | components/identity/org.wso2.carbon.identity.application.mgt/src/main/java/org/wso2/carbon/identity/application/mgt/dao/impl/ApplicationDAOImpl.java:815-839 | every link made for the step's providers joins the step to a registered authenticator |
| Update.FederatedLinksIff | components/identity/org.wso2.carbon.identity.application.mgt/src/main/java/org/wso2/carbon/identity/application/mgt/dao/impl/ApplicationDAOImpl.java:815-839 | a link is made exactly for each authenticator of the provider that the registry resolves |
| Update.IdpLinksIff | components/identity/org.wso2.carbon.identity.application.mgt/src/main/java/org/wso2/carbon/identity/application/mgt/dao/impl/ApplicationDAOImpl.java:802-839 | a link is made exactly for each resolved authenticator of each provider of the step |
| Update.WriteLocalSpec | components/identity/org.wso2.carbon.identity.application.mgt/src/main/java/org/wso2/carbon/identity/application/mgt/dao/impl/ApplicationDAOImpl.java:770-799 | a local authenticator is registered when missing and linked to the step |
| Update.WriteLocalsSpec | components/identity/org.wso2.carbon.identity.application.mgt/src/main/java/org/wso2/carbon/identity/application/mgt/dao/impl/ApplicationDAOImpl.java:770-799 | every local authenticator of the step is registered and linked |
| Update.StepRowsFrom | components/identity/org.wso2.carbon.identity.application.mgt/src/main/java/org/wso2/carbon/identity/application/mgt/dao/impl/ApplicationDAOImpl.java:749-758 | one step row per step, with consecutive ids |
| Update.WriteStepSpec | components/identity/org.wso2.carbon.identity.application.mgt/src/main/java/org/wso2/carbon/identity/application/mgt/dao/impl/ApplicationDAOImpl.java:743-839 | writing one step appends its step row and links and touches nothing but step data |
| Update.WriteStepsSpec | components/identity/org.wso2.carbon.identity.application.mgt/src/main/java/org/wso2/carbon/identity/application/mgt/dao/impl/ApplicationDAOImpl.java:727-847 | writing the steps appends one row per step, with consecutive ids |
| Update.ReplaceAuth | components/identity/org.wso2.carbon.identity.application.mgt/src/main/java/org/wso2/carbon/identity/application/mgt/dao/impl/ApplicationDAOImpl.java:610-850 | fails exactly when a given flow is refused by the validator |
| Update.ApplyUpdateFailsIff | components/identity/org.wso2.carbon.identity.application.mgt/src/main/java/org/wso2/carbon/identity/application/mgt/dao/impl/ApplicationDAOImpl.java:176-256 | the update fails exactly for a file-based name, a missing or taken name, or a refused flow, with that error |
| Update.ApplyUpdateValid | components/identity/org.wso2.carbon.identity.application.mgt/src/main/java/org/wso2/carbon/identity/application/mgt/dao/impl/ApplicationDAOImpl.java:192-225 | a successful update keeps the store valid |
| Update.ApplyUpdateChildren | components/identity/org.wso2.carbon.identity.application.mgt/src/main/java/org/wso2/carbon/identity/application/mgt/dao/impl/ApplicationDAOImpl.java:192-225 | afterwards the application's child rows are exactly those written from the submitted provider, and every other application's rows are as they were |
| Update.ApplyUpdateSteps | components/identity/org.wso2.carbon.identity.application.mgt/src/main/java/org/wso2/carbon/identity/application/mgt/dao/impl/ApplicationDAOImpl.java:210-213 | afterwards the application's steps are those of the accepted flow |
| Update.ApplyUpdateOtherRows | components/identity/org.wso2.carbon.identity.application.mgt/src/main/java/org/wso2/carbon/identity/application/mgt/dao/impl/ApplicationDAOImpl.java:192-225 | every other application's row is unchanged |
| Update.ApplyUpdateRow | components/identity/org.wso2.carbon.identity.application.mgt/src/main/java/org/wso2/carbon/identity/application/mgt/dao/impl/ApplicationDAOImpl.java:192-225 | the application's row carries the new name, description, flags, flow and claim columns |
| Update.ReplaceChildSpec | components/identity/org.wso2.carbon.identity.application.mgt/src/main/java/org/wso2/carbon/identity/application/mgt/dao/impl/ApplicationDAOImpl.java:2089-2231 | each child table of the application is replaced by the written rows and no other application's rows change |
| Lifecycle.CreateFailsIff | components/identity/org.wso2.carbon.identity.application.mgt/src/main/java/org/wso2/carbon/identity/application/mgt/dao/impl/ApplicationDAOImpl.java:98-106 | creation fails exactly for a missing name, a file-based name or a name taken in the tenant |
| Lifecycle.CreateSpec | components/identity/org.wso2.carbon.identity.application.mgt/src/main/java/org/wso2/carbon/identity/application/mgt/dao/impl/ApplicationDAOImpl.java:74-170 | a new row with a fresh positive id, the submitted name and description, the caller as owner and the "default" type is appended |
| Lifecycle.LocalSpOwnedBySystem | components/identity/org.wso2.carbon.identity.application.mgt/src/main/java/org/wso2/carbon/identity/application/mgt/dao/impl/ApplicationDAOImpl.java:89-92 | the local service provider is always owned by the system user |
| Lifecycle.DeleteClientDispatch | components/identity/org.wso2.carbon.identity.application.mgt/src/main/java/org/wso2/carbon/identity/application/mgt/dao/impl/ApplicationDAOImpl.java:2173-2179 | SAML clients and OAuth apps are removed by type (any case); other types are not removed |
| Lifecycle.UpperCaseSamlRemovedExample | components/identity/org.wso2.carbon.identity.application.mgt/src/main/java/org/wso2/carbon/identity/application/mgt/dao/impl/ApplicationDAOImpl.java:2175-2176 | the type "SAMLSSO" still removes the SAML provider |
| Lifecycle.LongSSamlRemovedExample | components/identity/org.wso2.carbon.identity.application.mgt/src/main/java/org/wso2/carbon/identity/application/mgt/dao/impl/ApplicationDAOImpl.java:2175-2176 | the type spelled with the long s, which Java upper-cases to 'S', removes the SAML provider too |
| Text.AccentedLettersFoldExample | components/identity/org.wso2.carbon.identity.application.mgt/src/main/java/org/wso2/carbon/identity/application/mgt/dao/impl/ApplicationDAOImpl.java:295 | "café" and "CAFÉ" are equal ignoring case, so renaming one to the other asks for no role rename; "café" and "CAFE" differ |
| Text.AsciiLookalikesFoldExample | components/identity/org.wso2.carbon.identity.application.mgt/src/main/java/org/wso2/carbon/identity/application/mgt/dao/impl/ApplicationDAOImpl.java:809 | the long s, the dotless i, the dotted capital I and the Kelvin sign each match an ASCII letter ignoring case, as in Java |
| Lifecycle.ClientRemovalCalls | components/identity/org.wso2.carbon.identity.application.mgt/src/main/java/org/wso2/carbon/identity/application/mgt/dao/impl/ApplicationDAOImpl.java:2002-2009 | at most one removal per client |
| Lifecycle.ClientRemovalCallsIff | components/identity/org.wso2.carbon.identity.application.mgt/src/main/java/org/wso2/carbon/identity/application/mgt/dao/impl/ApplicationDAOImpl.java:2002-2009 | a removal is made exactly for each client whose type is SAML or OAuth |
| Lifecycle.CascadeValid | components/identity/org.wso2.carbon.identity.application.mgt/src/main/java/org/wso2/carbon/identity/application/mgt/dao/impl/ApplicationDAOImpl.java:2011-2015 | the cascade keeps the store valid |
| Lifecycle.CascadeGone | components/identity/org.wso2.carbon.identity.application.mgt/src/main/java/org/wso2/carbon/identity/application/mgt/dao/impl/ApplicationDAOImpl.java:2011-2015 | no child row or step link of a removed application remains |
| Lifecycle.CascadeKept | components/identity/org.wso2.carbon.identity.application.mgt/src/main/java/org/wso2/carbon/identity/application/mgt/dao/impl/ApplicationDAOImpl.java:2011-2015 | the child rows and links of every other application stay as they were |
| Lifecycle.DeleteByNameSpec | components/identity/org.wso2.carbon.identity.application.mgt/src/main/java/org/wso2/carbon/identity/application/mgt/dao/impl/ApplicationDAOImpl.java:1989-2033 | deleting by name removes exactly that (name, tenant) row and cascades its children |
| Lifecycle.DeleteByIdSpec | components/identity/org.wso2.carbon.identity.application.mgt/src/main/java/org/wso2/carbon/identity/application/mgt/dao/impl/ApplicationDAOImpl.java:2037-2085 | deleting by id removes exactly that (id, tenant) row and cascades its children |
| Lifecycle.DeleteByIdCallsSpec | components/identity/org.wso2.carbon.identity.application.mgt/src/main/java/org/wso2/carbon/identity/application/mgt/dao/impl/ApplicationDAOImpl.java:2049-2060 | deleting by id removes exactly the SAML and OAuth clients read for the application, then its role |
| ReadApp.ReadApplicationFound | components/identity/org.wso2.carbon.identity.application.mgt/src/main/java/org/wso2/carbon/identity/application/mgt/dao/impl/ApplicationDAOImpl.java:1099-1148 | an application is read exactly when its row exists, with that row's id, name, description and owner |
| ReadApp.LocalSpLostExample | components/identity/org.wso2.carbon.identity.application.mgt/src/main/java/org/wso2/carbon/identity/application/mgt/dao/impl/ApplicationDAOImpl.java:1023-1048 | without a domain the written lookup creates the local SP under -123, looks under -1234, and returns null |
| ReadApp.LocalSpSecondCallFails | components/identity/org.wso2.carbon.identity.application.mgt/src/main/java/org/wso2/carbon/identity/application/mgt/dao/impl/ApplicationDAOImpl.java:1023-1048 | a second call without a domain still misses the row under -1234, tries to create it again under -123 and fails with a duplicate name |
| ReadApp.GetApplicationLocalSp | components/identity/org.wso2.carbon.identity.application.mgt/src/main/java/org/wso2/carbon/identity/application/mgt/dao/impl/ApplicationDAOImpl.java:1041-1048 | asking for the local SP always returns it; when it was missing, it is created with its fixed description, owned by the system user |
| ReadApp.GetApplicationOtherName | components/identity/org.wso2.carbon.identity.application.mgt/src/main/java/org/wso2/carbon/identity/application/mgt/dao/impl/ApplicationDAOImpl.java:1050-1052 | any other name changes nothing, and a provider is returned exactly when its row exists |
| ReadApp.UpdatedFound | components/identity/org.wso2.carbon.identity.application.mgt/src/main/java/org/wso2/carbon/identity/application/mgt/dao/impl/ApplicationDAOImpl.java:1038-1083 | after an update, the application is found under its new name |
| ReadApp.ReadAfterUpdateColumns | components/identity/org.wso2.carbon.identity.application.mgt/src/main/java/org/wso2/carbon/identity/application/mgt/dao/impl/ApplicationDAOImpl.java:1099-1148 | reading after an update gives back the submitted name, description, SaaS flag, flow type and flags, and claim flags |
| ReadApp.ReadAfterUpdateChildren | components/identity/org.wso2.carbon.identity.application.mgt/src/main/java/org/wso2/carbon/identity/application/mgt/dao/impl/ApplicationDAOImpl.java:1054-1083 | reading after an update gives back the connectors, roles, request-path authenticators and well-formed claim mappings that were written |
| ReadApp.AssembledChildren | components/identity/org.wso2.carbon.identity.application.mgt/src/main/java/org/wso2/carbon/identity/application/mgt/dao/impl/ApplicationDAOImpl.java:1054-1083 | the assembled provider holds the decoded child rows of its application |
| ReadApp.ReadAfterUpdateInbound | components/identity/org.wso2.carbon.identity.application.mgt/src/main/java/org/wso2/carbon/identity/application/mgt/dao/impl/ApplicationDAOImpl.java:1365-1426 | reading after an update gives back the submitted inbound requests, properties reversed |
| ReadApp.BasicInfosIff | components/identity/org.wso2.carbon.identity.application.mgt/src/main/java/org/wso2/carbon/identity/application/mgt/dao/impl/ApplicationDAOImpl.java:1934-1985 | listed exactly: the tenant's applications other than the local SP that the user may see, with name and description |
| ReadApp.NameByClientSpec | components/identity/org.wso2.carbon.identity.application.mgt/src/main/java/org/wso2/carbon/identity/application/mgt/dao/impl/ApplicationDAOImpl.java:2244-2284 | a name is found exactly when a client row matches key, type and tenant, and it is that client's application name |
| ReadApp.ApplicationDataAlwaysFails | components/identity/org.wso2.carbon.identity.application.mgt/src/main/java/org/wso2/carbon/identity/application/mgt/dao/impl/ApplicationDAOImpl.java:1233-1238 | the lookup by client as written binds three of the four parameters and always fails |
| ReadApp.GetApplicationDataSpec | components/identity/org.wso2.carbon.identity.application.mgt/src/main/java/org/wso2/carbon/identity/application/mgt/dao/impl/ApplicationDAOImpl.java:1209-1255 | the corrected lookup changes nothing, finds an application exactly when a client matches, and that application lists the client id inbound |
| ReadApp.RequestedAfterUpdate | components/identity/org.wso2.carbon.identity.application.mgt/src/main/java/org/wso2/carbon/identity/application/mgt/dao/impl/ApplicationDAOImpl.java:2366-2413 | after an update the requested claims are the local claims of the submitted requested mappings |
| ReadApp.ClaimMappingAfterUpdate | components/identity/org.wso2.carbon.identity.application.mgt/src/main/java/org/wso2/carbon/identity/application/mgt/dao/impl/ApplicationDAOImpl.java:2294-2341 | after an update, each submitted mapping whose local claim no later mapping reuses maps its local claim to its remote claim |
| ReadApp.ClaimRowsAllStored | components/identity/org.wso2.carbon.identity.application.mgt/src/main/java/org/wso2/carbon/identity/application/mgt/dao/impl/ApplicationDAOImpl.java:934-964 | when every mapping has both claims, one row is stored per mapping, in order, carrying its claims |
| ApplicationDao.ApplicationStore.constructor | components/identity/org.wso2.carbon.identity.application.mgt/src/main/java/org/wso2/carbon/identity/application/mgt/dao/impl/ApplicationDAOImpl.java:74-170 | a new store is empty and valid |
| ApplicationDao.ApplicationStore.CreateApplication | components/identity/org.wso2.carbon.identity.application.mgt/src/main/java/org/wso2/carbon/identity/application/mgt/dao/impl/ApplicationDAOImpl.java:74-170 | the tables become those of the create under -123 or the domain's tenant; on success the id returned is positive and is the one stored for the name, key returned or not |
| ApplicationDao.ApplicationStore.UpdateApplication | components/identity/org.wso2.carbon.identity.application.mgt/src/main/java/org/wso2/carbon/identity/application/mgt/dao/impl/ApplicationDAOImpl.java:176-256 | the tables become those of the specified update or, on failure, are rolled back with the error; the rename call is logged either way |
| ApplicationDao.ApplicationStore.StoreClientRows | components/identity/org.wso2.carbon.identity.application.mgt/src/main/java/org/wso2/carbon/identity/application/mgt/dao/impl/ApplicationDAOImpl.java:353-400 | the loop produces the specified client rows |
| ApplicationDao.ApplicationStore.GetApplication | components/identity/org.wso2.carbon.identity.application.mgt/src/main/java/org/wso2/carbon/identity/application/mgt/dao/impl/ApplicationDAOImpl.java:1019-1090 | matches the lookup with one tenant, including the implicit creation of the local SP |
| ApplicationDao.ApplicationStore.ReadApplicationFrom | components/identity/org.wso2.carbon.identity.application.mgt/src/main/java/org/wso2/carbon/identity/application/mgt/dao/impl/ApplicationDAOImpl.java:1054-1083 | the provider assembled with the steps loaded and sorted in an array is the specified one |
| ApplicationDao.ApplicationStore.DeleteApplication | components/identity/org.wso2.carbon.identity.application.mgt/src/main/java/org/wso2/carbon/identity/application/mgt/dao/impl/ApplicationDAOImpl.java:1989-2033 | the tables become the delete by name and the client removals are logged |
| ApplicationDao.ApplicationStore.DeleteApplicationById | components/identity/org.wso2.carbon.identity.application.mgt/src/main/java/org/wso2/carbon/identity/application/mgt/dao/impl/ApplicationDAOImpl.java:2037-2085 | the tables become the delete by id; the client and role removals are logged |
| ApplicationDao.ApplicationStore.RemoveClients | components/identity/org.wso2.carbon.identity.application.mgt/src/main/java/org/wso2/carbon/identity/application/mgt/dao/impl/ApplicationDAOImpl.java:2002-2009 | logs exactly the specified client removals |
| ApplicationDao.ApplicationStore.GetAllApplicationBasicInfo | components/identity/org.wso2.carbon.identity.application.mgt/src/main/java/org/wso2/carbon/identity/application/mgt/dao/impl/ApplicationDAOImpl.java:1934-1985 | the loop gives the specified list |
| ApplicationDao.ApplicationStore.GetServiceProviderNameByClientId | components/identity/org.wso2.carbon.identity.application.mgt/src/main/java/org/wso2/carbon/identity/application/mgt/dao/impl/ApplicationDAOImpl.java:2244-2284 | the loop gives the specified name |
| ApplicationDao.ApplicationStore.GetClaimMapping | components/identity/org.wso2.carbon.identity.application.mgt/src/main/java/org/wso2/carbon/identity/application/mgt/dao/impl/ApplicationDAOImpl.java:2294-2341 | the loop gives the specified map |
| ApplicationDao.ApplicationStore.GetAllRequestedClaims | components/identity/org.wso2.carbon.identity.application.mgt/src/main/java/org/wso2/carbon/identity/application/mgt/dao/impl/ApplicationDAOImpl.java:2366-2413 | the loop gives the specified claims |

## Left out

- JDBC connections, prepared statements, batches, commits and closing are not modelled. A statement is its effect on the rows.
- SQL failures other than a duplicate name are not modelled.
- The SQL text is not part of this model, and `ApplicationMgtDBQueries` is not part of this model. Each query is modelled by the parameters the DAO binds, filtered over the rows.
- Tenant-domain resolution through the realm service is not modelled. Neither is its `UserStoreException`.
- The caller's name and tenant from the thread-local Carbon context are parameters.
- Splitting a qualified user name into user store and name is done by the caller, which passes a `User`.
- `CharacterEncoder.getSafeText` is modelled as the identity.
- The collaborators are recorded as calls in a log, which a rollback does not undo:
  - renaming and deleting the application role;
  - removing SAML providers and OAuth apps.
- The following collaborators are function parameters:
  - the UI authorization check;
  - the registry's default authenticator for a provider;
  - the federation-hub flag of a provider.
- The file-based service providers are a set of names.
- Logging, debug output and concurrency are not modelled.
- The hash map iteration order in the steps reader and in the inbound reader (`authRequestMap.values()`) is fixed to first appearance; the order of the client removals logged by the deletes follows it. The properties are stated so that they hold whatever the order.
- ReadApp.ReadAfterUpdateChildren: does not state that the authentication steps read back equal the steps written. The step write and the step read are each specified separately (`Update.ApplyUpdateSteps`, `StepRead.ReadStepsShape`).
- ReadApp.ClaimMappingAfterUpdate: states that each mapping whose local claim no later mapping reuses is in the map, not the whole map. A reused key maps to its last row (`ReadRows.ClaimMapLastWins`).
- Null arguments that the DAO would dereference are modelled as absent values (`Option`), not as exceptions:
  - a missing outbound configuration;
  - a claim mapping without claims.
- A federated step whose local-authenticator array is null makes the source throw a `NullPointerException` at line 706. The model reads the null array as empty and accepts the step.
- `updateApplication` changes the caller's configuration in place: it sets the authentication type to "default" (lines 654-662) and replaces the federated provider's authenticators and default authenticator (lines 721-723). The model computes the new values and writes them, but the caller's objects are values and do not change.
- Text.EqualsIgnoreCase: follows Java's case mappings only for basic Latin, Latin-1, Latin Extended-A, the basic Greek and Cyrillic alphabets and the Ohm, Kelvin and Angstrom signs; every other character (accented Greek, Latin Extended-B, Armenian and the rest) is treated as having no case. Every comparison against one of the DAO's ASCII constants is still exact, because the only other characters Java folds onto ASCII letters (the long s, the dotless i, the dotted capital I and the Kelvin sign) are covered. Strings are sequences of Unicode scalar values rather than UTF-16 units; a surrogate unit matches only itself in Java, so this gives the same answers.

## Findings

| source | as written | input that shows it | evidently intended | confidence | as-written member | corrected member |
|---|---|---|---|---|---|---|
| components/identity/org.wso2.carbon.identity.application.mgt/src/main/java/org/wso2/carbon/identity/application/mgt/dao/impl/ApplicationDAOImpl.java:1555-1559 | the sort compares step orders by subtracting them in 32-bit arithmetic | orders -2147483648, 0 and 1: the subtraction says -2^31 < 0 and 0 < 1, but -2^31 > 1 | compare the orders without overflow | not executed | StepRead.ComparatorOverflowExample | StepRead.CompareOrders |
| components/identity/org.wso2.carbon.identity.application.mgt/src/main/java/org/wso2/carbon/identity/application/mgt/dao/impl/ApplicationDAOImpl.java:1023-1048 | without a tenant domain, the local SP is looked up under -1234 but `createApplication` creates it under -123 | `getApplication("LOCAL_SP", null)` on an empty store: the first call creates a row under -123 and returns null; every later call fails with a duplicate name | read and create under the same tenant | not executed | ReadApp.LocalSpLostExample | ReadApp.GetApplicationLocalSp |
| components/identity/org.wso2.carbon.identity.application.mgt/src/main/java/org/wso2/carbon/identity/application/mgt/dao/impl/ApplicationDAOImpl.java:1233-1238 | the client lookup binds three parameters, while the same query in `getServiceProviderNameByClientId` binds four (lines 2265-2270) | any client id and type: the statement fails with an unset parameter | bind the tenant as fourth parameter | not executed; the query text is not part of this model | ReadApp.ApplicationDataAlwaysFails | ReadApp.GetApplicationDataSpec |
