/**
 * Creating and deleting an application: `createApplication` inserts the basic
 * row; the two `deleteApplication` variants hand each inbound client to the
 * SAML or OAuth store for removal and delete the application row, which the
 * schema's foreign keys cascade to every child table.
 */
module Lifecycle {
  import opened Wrappers
  import opened Text
  import opened Seqs
  import opened Model
  import opened Schema
  import opened InboundRead

  // Creating an application.

  /** The user recorded as owner: the system user of the primary store for the local service provider, else the caller. */
  function Owner(sp: ServiceProvider, caller: User): User {
    if sp.name == Some(LOCAL_SP) then User(PRIMARY_DOMAIN, SYSTEM_USER_NAME, caller.tenantId) else caller
  }

  /** `STORE_BASIC_APPINFO` binds tenant, name, owner, description and the "default" type; the other columns stay NULL. */
  function NewAppRow(id: int, tenant: int, name: string, owner: User, description: string): AppRow {
    AppRow(id, tenant, name, owner.userStoreDomain, owner.userName, description,
           None, AUTH_TYPE_DEFAULT, None, None, None, None, None, None)
  }

  /**
   * `createApplication`: a missing name, then a name of a file-based service
   * provider, is refused; the insert itself fails when the tenant already has
   * the name. The new row takes the next generated id, which is returned.
   */
  function Create(t: Tables, sp: ServiceProvider, tenant: int, caller: User, fileBased: set<string>): Result<(Tables, int), Failure> {
    if sp.name.None? then Err(NameRequired)
    else if sp.name.value in fileBased then Err(FileBasedNameConflict)
    else if AppByName(t, sp.name.value, tenant).Some? then Err(DuplicateName)
    else
      var row := NewAppRow(t.nextAppId, tenant, sp.name.value, Owner(sp, caller), sp.description);
      Ok((t.(apps := t.apps + [row], nextAppId := t.nextAppId + 1), t.nextAppId))
  }

  /** When and why a create is refused, in the order of the checks. */
  lemma CreateFailsIff(t: Tables, sp: ServiceProvider, tenant: int, caller: User, fileBased: set<string>)
    ensures var r := Create(t, sp, tenant, caller, fileBased);
      && (r.Err? <==> sp.name.None? || sp.name.value in fileBased
                      || exists a :: a in t.apps && AppNameKey(a) == (sp.name.value, tenant))
      && (sp.name.None? ==> r == Err(NameRequired))
      && (sp.name.Some? && sp.name.value in fileBased ==> r == Err(FileBasedNameConflict))
  {
    if sp.name.Some? && sp.name.value !in fileBased {
      var found := AppByName(t, sp.name.value, tenant);
      if found.Some? {
        assert found.value in t.apps && AppNameKey(found.value) == (sp.name.value, tenant);
      }
    }
  }

  /**
   * A created application is stored under a fresh positive id with the
   * submitted name, description and owner and the "default" authentication
   * type; it is found by name and by id, looking the id up by name gives the
   * generated id back, every older row stays, and the store stays valid.
   */
  lemma CreateSpec(t: Tables, sp: ServiceProvider, tenant: int, caller: User, fileBased: set<string>)
    requires Valid(t)
    requires Create(t, sp, tenant, caller, fileBased).Ok?
    ensures var (r, id) := Create(t, sp, tenant, caller, fileBased).value;
      var row := AppByName(r, sp.name.value, tenant);
      && Valid(r)
      && id > 0 && (forall a :: a in t.apps ==> a.id != id)
      && row.Some? && AppById(r, id, tenant) == row
      && row.value.id == id && row.value.name == sp.name.value && row.value.description == sp.description
      && row.value.userStore == Owner(sp, caller).userStoreDomain && row.value.userName == Owner(sp, caller).userName
      && AuthTypeOf(r, id, tenant) == AUTH_TYPE_DEFAULT
      && AppIdByName(r, sp.name.value, tenant) == id
      && (forall a :: a in t.apps ==> a in r.apps)
      && r == t.(apps := r.apps, nextAppId := r.nextAppId)
  {
    var (r, id) := Create(t, sp, tenant, caller, fileBased).value;
    var row := NewAppRow(id, tenant, sp.name.value, Owner(sp, caller), sp.description);
    assert r.apps == t.apps + [row];
    assert forall a :: a in t.apps ==> AppNameKey(a) != AppNameKey(row);
    assert ValidApps(r.apps, r.nextAppId) by {
      forall i, j | 0 <= i < j < |r.apps|
        ensures r.apps[i].id != r.apps[j].id && AppNameKey(r.apps[i]) != AppNameKey(r.apps[j])
      {
        if j == |t.apps| {
          assert r.apps[i] in t.apps;
        }
      }
    }
    AppByNameUnique(r, row);
    AppByIdUnique(r, row);
  }

  /** The local service provider is always owned by the system user. */
  lemma LocalSpOwnedBySystem(t: Tables, sp: ServiceProvider, tenant: int, caller: User, fileBased: set<string>)
    requires Valid(t)
    requires sp.name == Some(LOCAL_SP)
    requires Create(t, sp, tenant, caller, fileBased).Ok?
    ensures var row := AppByName(Create(t, sp, tenant, caller, fileBased).value.0, LOCAL_SP, tenant);
      row.Some? && row.value.userStore == PRIMARY_DOMAIN && row.value.userName == SYSTEM_USER_NAME
  {
    CreateSpec(t, sp, tenant, caller, fileBased);
  }

  // Removing the inbound clients.

  /** `deleteClient`: SAML issuers and OAuth consumer keys are removed from their stores; other types are left alone. */
  function DeleteClientCall(key: string, authType: string): Option<Call> {
    if EqualsIgnoreCase("samlsso", authType) then Some(RemoveSamlServiceProvider(key))
    else if EqualsIgnoreCase("oauth2", authType) then Some(RemoveOAuthApplication(key))
    else None
  }

  /** The dispatch, in both directions: a removal is requested exactly for the two known types, in any letter case. */
  lemma DeleteClientDispatch(key: string, authType: string)
    ensures DeleteClientCall(key, authType) == Some(RemoveSamlServiceProvider(key)) <==> EqualsIgnoreCase(authType, "samlsso")
    ensures DeleteClientCall(key, authType) == Some(RemoveOAuthApplication(key)) <==> EqualsIgnoreCase(authType, "oauth2")
    ensures DeleteClientCall(key, authType).None? <==> !EqualsIgnoreCase(authType, "samlsso") && !EqualsIgnoreCase(authType, "oauth2")
  {
    EqualsIgnoreCaseSymmetric(authType, "samlsso");
    EqualsIgnoreCaseSymmetric(authType, "oauth2");
    assert !EqualsIgnoreCase("samlsso", "oauth2") by {
      assert |"samlsso"| != |"oauth2"|;
    }
  }

  /** Upper-case SAML requests are removed too. */
  lemma UpperCaseSamlRemovedExample(key: string)
    ensures DeleteClientCall(key, "SAMLSSO") == Some(RemoveSamlServiceProvider(key))
  {
    assert EqualsIgnoreCase("samlsso", "SAMLSSO") by {
      assert forall i :: 0 <= i < 7 ==> CharEqualsIgnoreCase("samlsso"[i], "SAMLSSO"[i]);
    }
  }

  /** A type spelled with the long s, which upper-cases to 'S', is removed as SAML too. */
  lemma LongSSamlRemovedExample(key: string)
    ensures DeleteClientCall(key, "\U{017f}amlsso") == Some(RemoveSamlServiceProvider(key))
  {
  }

  /** The loop over the clients read for the application, one `deleteClient` per request. */
  function ClientRemovalCalls(reqs: seq<InboundRequest>): (cs: seq<Call>)
    ensures |cs| <= |reqs|
  {
    if reqs == [] then []
    else
      var r := reqs[|reqs| - 1];
      var c := if r.key.Some? && r.authType.Some? then DeleteClientCall(r.key.value, r.authType.value) else None;
      ClientRemovalCalls(reqs[..|reqs| - 1]) + match c case Some(x) => [x] case None => []
  }

  /** A removal is requested exactly for the requests whose type `deleteClient` knows. */
  lemma {:induction false} ClientRemovalCallsIff(reqs: seq<InboundRequest>, c: Call)
    ensures c in ClientRemovalCalls(reqs) <==>
      exists r :: r in reqs && r.key.Some? && r.authType.Some? && DeleteClientCall(r.key.value, r.authType.value) == Some(c)
  {
    if reqs != [] {
      var init := reqs[..|reqs| - 1];
      ClientRemovalCallsIff(init, c);
      assert forall r :: r in reqs <==> r in init || r == reqs[|reqs| - 1];
    }
  }

  // Deleting an application.

  function ClientApp(r: ClientRow): int { r.appId }
  function ClaimApp(r: ClaimRow): int { r.appId }
  function RoleApp(r: RoleRow): int { r.appId }
  function ConnectorApp(r: ConnectorRow): int { r.appId }
  function ReqPathApp(r: ReqPathRow): int { r.appId }
  function AppId(r: AppRow): int { r.id }

  function AppIds(apps: seq<AppRow>): set<int> {
    set a | a in apps :: a.id
  }

  /** Ids of the steps of the applications in `gone`. */
  function StepsOf(steps: seq<StepRow>, gone: set<int>): set<int> {
    set s | s in steps && s.appId in gone :: s.id
  }

  /** The foreign keys on the application id (and, for links, on the step id) cascade the delete. */
  function Cascade(t: Tables, gone: set<int>): Tables {
    t.(clients := DropIn(t.clients, ClientApp, gone),
       steps := DropIn(t.steps, StepApp, gone),
       links := DropIn(t.links, LinkStep, StepsOf(t.steps, gone)),
       claims := DropIn(t.claims, ClaimApp, gone),
       roles := DropIn(t.roles, RoleApp, gone),
       connectors := DropIn(t.connectors, ConnectorApp, gone),
       reqPaths := DropIn(t.reqPaths, ReqPathApp, gone))
  }

  /** `deleteApplication(appName)`: `REMOVE_APP_FROM_APPMGT_APP` by name and tenant. */
  function DeleteByName(t: Tables, name: string, tenant: int): Tables {
    var gone := AppIds(Keep(t.apps, AppNameKey, (name, tenant)));
    Cascade(t.(apps := Drop(t.apps, AppNameKey, (name, tenant))), gone)
  }

  /** `deleteApplication(applicationID, connection)`: `REMOVE_APP_FROM_APPMGT_APP_WITH_ID` by id and tenant. */
  function DeleteById(t: Tables, id: int, tenant: int): Tables {
    var gone := AppIds(Keep(t.apps, AppKey, (id, tenant)));
    Cascade(t.(apps := Drop(t.apps, AppKey, (id, tenant))), gone)
  }

  /** The calls of the delete by name: the client removals only; the application role is not deleted. */
  function DeleteByNameCalls(t: Tables, name: string, tenant: int): seq<Call> {
    ClientRemovalCalls(InboundConfig(t, AppIdByName(t, name, tenant), tenant))
  }

  /** The calls of the delete by id: the client removals, then the removal of the application role. */
  function DeleteByIdCalls(t: Tables, id: int, tenant: int): seq<Call> {
    ClientRemovalCalls(InboundConfig(t, id, tenant)) + [DeleteAppRole(AppNameById(t, id, tenant))]
  }

  /** A cascade keeps the store valid. */
  lemma CascadeValid(t: Tables, gone: set<int>)
    requires Valid(t)
    ensures Valid(Cascade(t, gone))
  {
    var r := Cascade(t, gone);
    assert Distinct(t.steps, StepId);
    DropInKeepsDistinct(t.steps, StepApp, gone, StepId);
    assert forall i, j :: 0 <= i < j < |r.steps| ==> StepId(r.steps[i]) != StepId(r.steps[j]);
  }

  /** After a cascade no child row of a deleted application and no link of one of its steps is left. */
  lemma CascadeGone(t: Tables, gone: set<int>)
    ensures var r := Cascade(t, gone);
      && (forall id, tx :: id in gone ==>
            && Keep(r.clients, ClientKey, (id, tx)) == [] && Keep(r.steps, StepKey, (id, tx)) == []
            && Keep(r.claims, ClaimKey, (id, tx)) == [] && Keep(r.roles, RoleKey, (id, tx)) == []
            && Keep(r.connectors, ConnectorKey, (id, tx)) == [] && Keep(r.reqPaths, ReqPathKey, (id, tx)) == [])
      && (forall s, l :: s in t.steps && s.appId in gone && l in r.links ==> l.stepId != s.id)
  {
    var r := Cascade(t, gone);
    forall id, tx | id in gone
      ensures && Keep(r.clients, ClientKey, (id, tx)) == [] && Keep(r.steps, StepKey, (id, tx)) == []
              && Keep(r.claims, ClaimKey, (id, tx)) == [] && Keep(r.roles, RoleKey, (id, tx)) == []
              && Keep(r.connectors, ConnectorKey, (id, tx)) == [] && Keep(r.reqPaths, ReqPathKey, (id, tx)) == []
    {
      NoneKept(r.clients, ClientKey, (id, tx));
      NoneKept(r.steps, StepKey, (id, tx));
      NoneKept(r.claims, ClaimKey, (id, tx));
      NoneKept(r.roles, RoleKey, (id, tx));
      NoneKept(r.connectors, ConnectorKey, (id, tx));
      NoneKept(r.reqPaths, ReqPathKey, (id, tx));
    }
  }

  /** A selection with no members is empty. */
  lemma NoneKept<T(!new), K>(s: seq<T>, key: T -> K, k: K)
    requires forall x :: x in s ==> key(x) != k
    ensures Keep(s, key, k) == []
  {
    if Keep(s, key, k) != [] {
      assert Keep(s, key, k)[0] in Keep(s, key, k);
    }
  }

  /** Every other application keeps all of its child rows, and every step of another application keeps its links. */
  lemma CascadeKept(t: Tables, gone: set<int>)
    requires Valid(t)
    ensures var r := Cascade(t, gone);
      && (forall id, tx :: id !in gone ==>
            && Keep(r.clients, ClientKey, (id, tx)) == Keep(t.clients, ClientKey, (id, tx))
            && Keep(r.steps, StepKey, (id, tx)) == Keep(t.steps, StepKey, (id, tx))
            && Keep(r.claims, ClaimKey, (id, tx)) == Keep(t.claims, ClaimKey, (id, tx))
            && Keep(r.roles, RoleKey, (id, tx)) == Keep(t.roles, RoleKey, (id, tx))
            && Keep(r.connectors, ConnectorKey, (id, tx)) == Keep(t.connectors, ConnectorKey, (id, tx))
            && Keep(r.reqPaths, ReqPathKey, (id, tx)) == Keep(t.reqPaths, ReqPathKey, (id, tx)))
      && (forall s :: s in t.steps && s.appId !in gone ==> Keep(r.links, LinkStep, s.id) == Keep(t.links, LinkStep, s.id))
  {
    forall id, tx | id !in gone
      ensures && Keep(Cascade(t, gone).clients, ClientKey, (id, tx)) == Keep(t.clients, ClientKey, (id, tx))
              && Keep(Cascade(t, gone).steps, StepKey, (id, tx)) == Keep(t.steps, StepKey, (id, tx))
              && Keep(Cascade(t, gone).claims, ClaimKey, (id, tx)) == Keep(t.claims, ClaimKey, (id, tx))
              && Keep(Cascade(t, gone).roles, RoleKey, (id, tx)) == Keep(t.roles, RoleKey, (id, tx))
              && Keep(Cascade(t, gone).connectors, ConnectorKey, (id, tx)) == Keep(t.connectors, ConnectorKey, (id, tx))
              && Keep(Cascade(t, gone).reqPaths, ReqPathKey, (id, tx)) == Keep(t.reqPaths, ReqPathKey, (id, tx))
    {
      KeepDropIn(t.clients, ClientApp, gone, ClientKey, (id, tx));
      KeepDropIn(t.steps, StepApp, gone, StepKey, (id, tx));
      KeepDropIn(t.claims, ClaimApp, gone, ClaimKey, (id, tx));
      KeepDropIn(t.roles, RoleApp, gone, RoleKey, (id, tx));
      KeepDropIn(t.connectors, ConnectorApp, gone, ConnectorKey, (id, tx));
      KeepDropIn(t.reqPaths, ReqPathApp, gone, ReqPathKey, (id, tx));
    }
    forall s | s in t.steps && s.appId !in gone
      ensures Keep(Cascade(t, gone).links, LinkStep, s.id) == Keep(t.links, LinkStep, s.id)
    {
      StepNotGone(t, gone, s);
      KeepDropIn(t.links, LinkStep, StepsOf(t.steps, gone), LinkStep, s.id);
    }
  }

  /** Step ids are unique, so a step of a remaining application is not among the deleted steps. */
  lemma StepNotGone(t: Tables, gone: set<int>, s: StepRow)
    requires Valid(t)
    requires s in t.steps && s.appId !in gone
    ensures s.id !in StepsOf(t.steps, gone)
  {
  }


  /** In a valid store a name selects at most one application, so at most one id is deleted. */
  lemma GoneByName(t: Tables, name: string, tenant: int)
    requires Valid(t)
    ensures AppIds(Keep(t.apps, AppNameKey, (name, tenant))) ==
      if AppByName(t, name, tenant).Some? then {AppIdByName(t, name, tenant)} else {}
  {
    var found := AppByName(t, name, tenant);
    if found.Some? {
      forall a | a in t.apps && AppNameKey(a) == (name, tenant)
        ensures a.id == found.value.id
      {
        AppByNameUnique(t, a);
      }
    }
  }

  lemma GoneById(t: Tables, id: int, tenant: int)
    ensures AppIds(Keep(t.apps, AppKey, (id, tenant))) == if AppById(t, id, tenant).Some? then {id} else {}
  {
    var found := AppById(t, id, tenant);
    if found.Some? {
      assert found.value in Keep(t.apps, AppKey, (id, tenant));
    }
  }

  /** Dropping application rows keeps the application table valid. */
  lemma DropAppsValid<K>(t: Tables, key: AppRow -> K, k: K)
    requires Valid(t)
    ensures Valid(t.(apps := Drop(t.apps, key, k)))
  {
    var apps := Drop(t.apps, key, k);
    assert Distinct(t.apps, AppId);
    assert Distinct(t.apps, AppNameKey);
    DropKeepsDistinct(t.apps, key, k, AppId);
    DropKeepsDistinct(t.apps, key, k, AppNameKey);
    assert forall i, j :: 0 <= i < j < |apps| ==> AppId(apps[i]) != AppId(apps[j]);
    assert forall i, j :: 0 <= i < j < |apps| ==> AppNameKey(apps[i]) != AppNameKey(apps[j]);
  }

  /**
   * After a delete by name the tenant has no application of that name, the
   * deleted application has no child rows left, every other application row
   * stays with all of its child rows, and the store stays valid.
   */
  lemma DeleteByNameSpec(t: Tables, name: string, tenant: int)
    requires Valid(t)
    ensures var r := DeleteByName(t, name, tenant);
      var gone := if AppByName(t, name, tenant).Some? then {AppIdByName(t, name, tenant)} else {};
      && Valid(r)
      && AppByName(r, name, tenant).None?
      && (forall a :: a in r.apps <==> a in t.apps && AppNameKey(a) != (name, tenant))
      && r == Cascade(t.(apps := r.apps), gone)
  {
    GoneByName(t, name, tenant);
    DropAppsValid(t, AppNameKey, (name, tenant));
    CascadeValid(t.(apps := Drop(t.apps, AppNameKey, (name, tenant))), AppIds(Keep(t.apps, AppNameKey, (name, tenant))));
  }

  /**
   * After a delete by id the application is gone from its tenant, every other
   * application row stays, and the store stays valid.
   */
  lemma DeleteByIdSpec(t: Tables, id: int, tenant: int)
    requires Valid(t)
    ensures var r := DeleteById(t, id, tenant);
      var gone := if AppById(t, id, tenant).Some? then {id} else {};
      && Valid(r)
      && AppById(r, id, tenant).None?
      && (forall a :: a in r.apps <==> a in t.apps && AppKey(a) != (id, tenant))
      && r == Cascade(t.(apps := r.apps), gone)
  {
    GoneById(t, id, tenant);
    DropAppsValid(t, AppKey, (id, tenant));
    CascadeValid(t.(apps := Drop(t.apps, AppKey, (id, tenant))), AppIds(Keep(t.apps, AppKey, (id, tenant))));
  }

  lemma DeleteByIdValid(t: Tables, id: int, tenant: int)
    requires Valid(t)
    ensures Valid(DeleteById(t, id, tenant))
  {
    DeleteByIdSpec(t, id, tenant);
  }

  /**
   * The delete by id hands each inbound client of the application to
   * `deleteClient` and then asks for the application role to be deleted.
   */
  lemma DeleteByIdCallsSpec(t: Tables, id: int, tenant: int, c: Call)
    ensures var cs := DeleteByIdCalls(t, id, tenant);
      && cs[|cs| - 1] == DeleteAppRole(AppNameById(t, id, tenant))
      && (c in cs[..|cs| - 1] <==>
            exists r :: r in InboundConfig(t, id, tenant) && r.key.Some? && r.authType.Some? && DeleteClientCall(r.key.value, r.authType.value) == Some(c))
  {
    var cs := DeleteByIdCalls(t, id, tenant);
    var reqs := InboundConfig(t, id, tenant);
    assert cs[..|cs| - 1] == ClientRemovalCalls(reqs);
    InboundConfigRequests(t, id, tenant);
    ClientRemovalCallsIff(reqs, c);
    assert forall r :: r in reqs ==> r.key.Some? && r.authType.Some?;
  }
}
