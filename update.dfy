/**
 * `updateApplication` as a function of the tables: the basic row, the
 * single-column updates, the delete-then-insert of every child table, and the
 * step writer that resolves (and for local authenticators creates) the
 * authenticators a step links to. A refused update leaves no trace in the
 * tables, since the transaction is rolled back; the role rename it may have
 * asked for is a call outside the transaction (see `RenameCalls`).
 */
module Update {
  import opened Wrappers
  import opened Seqs
  import opened Text
  import opened Model
  import opened Schema
  import opened Registry
  import opened AuthFlow
  import opened WriteRows

  // The application row.

  /** Columns of IDN_APPMGT_APP that single-column UPDATE statements set. */
  datatype Column =
    | ProvisioningUserStore(store: string)
    | SendAuthList(flag: string)
    | SubjectClaimUri(uri: Option<string>)
    | AuthType(authType: string)
    | RoleClaim(roleClaim: string)
    | ClaimDialect(flag: string)
    | SendLocalSubjectId(flag: string)

  function SetColumn(a: AppRow, c: Column): (r: AppRow)
    ensures AppKey(r) == AppKey(a) && r.name == a.name
  {
    match c
    case ProvisioningUserStore(s) => a.(provisioningUserStore := Some(s))
    case SendAuthList(f) => a.(sendAuthListOfIdps := Some(f))
    case SubjectClaimUri(u) => a.(subjectClaimUri := u)
    case AuthType(s) => a.(authType := s)
    case RoleClaim(u) => a.(roleClaim := Some(u))
    case ClaimDialect(f) => a.(localClaimDialect := Some(f))
    case SendLocalSubjectId(f) => a.(sendLocalSubjectId := Some(f))
  }

  /** `UPDATE IDN_APPMGT_APP SET ... WHERE TENANT_ID = ? AND ID = ?`: `f` on the rows of that key. */
  function UpdateApps(apps: seq<AppRow>, id: int, tenant: int, f: AppRow --> AppRow): (r: seq<AppRow>)
    requires forall a :: f.requires(a)
    ensures |r| == |apps|
    ensures forall i :: 0 <= i < |apps| ==> r[i] == if AppKey(apps[i]) == (id, tenant) then f(apps[i]) else apps[i]
  {
    seq(|apps|, i requires 0 <= i < |apps| => if AppKey(apps[i]) == (id, tenant) then f(apps[i]) else apps[i])
  }

  function SetApp(t: Tables, id: int, tenant: int, c: Column): Tables {
    t.(apps := UpdateApps(t.apps, id, tenant, a => SetColumn(a, c)))
  }

  /** `f` keeps the identity of every row it touches. */
  ghost predicate KeepsIdentity(f: AppRow -> AppRow) {
    forall a :: AppKey(f(a)) == AppKey(a) && f(a).name == a.name
  }

  lemma UpdateAppsValid(apps: seq<AppRow>, next: int, id: int, tenant: int, f: AppRow -> AppRow)
    requires ValidApps(apps, next) && KeepsIdentity(f)
    ensures ValidApps(UpdateApps(apps, id, tenant, f), next)
  {
    var r := UpdateApps(apps, id, tenant, f);
    assert forall i :: 0 <= i < |apps| ==> r[i].id == apps[i].id && AppNameKey(r[i]) == AppNameKey(apps[i]);
    assert forall x :: x in r ==> exists i :: 0 <= i < |apps| && x == r[i];
  }

  /** `apps'` is `apps` with the rows of (id, tenant) rewritten under the same key. */
  ghost predicate RewritesOnly(apps: seq<AppRow>, apps': seq<AppRow>, id: int, tenant: int) {
    && |apps'| == |apps|
    && (forall i :: 0 <= i < |apps| ==> AppKey(apps'[i]) == AppKey(apps[i]))
    && (forall i :: 0 <= i < |apps| && AppKey(apps[i]) != (id, tenant) ==> apps'[i] == apps[i])
  }

  /** Rewriting the rows of one key leaves the lookup of every other key as it was. */
  lemma RewriteKeepsOthers(t: Tables, t': Tables, id: int, tenant: int, id': int, tenant': int)
    requires Valid(t) && Valid(t') && RewritesOnly(t.apps, t'.apps, id, tenant)
    requires (id', tenant') != (id, tenant)
    ensures AppById(t', id', tenant') == AppById(t, id', tenant')
  {
    if AppById(t, id', tenant').Some? {
      var a := AppById(t, id', tenant').value;
      var i :| 0 <= i < |t.apps| && t.apps[i] == a;
      AppByIdUnique(t', t'.apps[i]);
    }
  }

  /** The rewritten row is what a lookup of its key finds afterwards. */
  lemma RewriteFound(t: Tables, t': Tables, id: int, tenant: int, i: int)
    requires Valid(t) && Valid(t') && RewritesOnly(t.apps, t'.apps, id, tenant)
    requires 0 <= i < |t.apps| && AppKey(t.apps[i]) == (id, tenant)
    ensures AppById(t, id, tenant) == Some(t.apps[i]) && AppById(t', id, tenant) == Some(t'.apps[i])
  {
    AppByIdUnique(t, t.apps[i]);
    AppByIdUnique(t', t'.apps[i]);
  }

  /** Only the row of (id, tenant) takes the column; every other lookup by id finds what it found before. */
  lemma SetAppSpec(t: Tables, id: int, tenant: int, c: Column)
    requires Valid(t)
    ensures var r := SetApp(t, id, tenant, c);
      && Valid(r)
      && r == t.(apps := r.apps)
      && (AppById(t, id, tenant).None? ==> r == t)
      && (AppById(t, id, tenant).Some? ==> AppById(r, id, tenant) == Some(SetColumn(AppById(t, id, tenant).value, c)))
      && (forall id', tenant' :: (id', tenant') != (id, tenant) ==> AppById(r, id', tenant') == AppById(t, id', tenant'))
  {
    var r := SetApp(t, id, tenant, c);
    SetAppRewrites(t, id, tenant, c);
    if AppById(t, id, tenant).None? {
      assert r.apps == t.apps;
    } else {
      var a := AppById(t, id, tenant).value;
      var i :| 0 <= i < |t.apps| && t.apps[i] == a;
      RewriteFound(t, r, id, tenant, i);
    }
    forall id', tenant' | (id', tenant') != (id, tenant)
      ensures AppById(r, id', tenant') == AppById(t, id', tenant')
    {
      RewriteKeepsOthers(t, r, id, tenant, id', tenant');
    }
  }

  /** A single-column update is valid and rewrites only the row of (id, tenant). */
  lemma SetAppRewrites(t: Tables, id: int, tenant: int, c: Column)
    requires Valid(t)
    ensures var r := SetApp(t, id, tenant, c);
      Valid(r) && r == t.(apps := r.apps) && RewritesOnly(t.apps, r.apps, id, tenant)
  {
    var f := (a: AppRow) => SetColumn(a, c);
    var r := SetApp(t, id, tenant, c);
    assert r.apps == UpdateApps(t.apps, id, tenant, f);
    UpdateAppsValid(t.apps, t.nextAppId, id, tenant, f);
  }

  /** Several single-column updates of one row, in order. */
  function SetApps(t: Tables, id: int, tenant: int, cs: seq<Column>): Tables
    decreases |cs|
  {
    if cs == [] then t else SetApps(SetApp(t, id, tenant, cs[0]), id, tenant, cs[1..])
  }

  function SetColumns(a: AppRow, cs: seq<Column>): (r: AppRow)
    ensures AppKey(r) == AppKey(a) && r.name == a.name
    decreases |cs|
  {
    if cs == [] then a else SetColumns(SetColumn(a, cs[0]), cs[1..])
  }

  lemma {:induction false} SetAppsSpec(t: Tables, id: int, tenant: int, cs: seq<Column>)
    requires Valid(t)
    ensures var r := SetApps(t, id, tenant, cs);
      && Valid(r)
      && r == t.(apps := r.apps)
      && (AppById(t, id, tenant).None? ==> r == t)
      && (AppById(t, id, tenant).Some? ==> AppById(r, id, tenant) == Some(SetColumns(AppById(t, id, tenant).value, cs)))
      && (forall id', tenant' :: (id', tenant') != (id, tenant) ==> AppById(r, id', tenant') == AppById(t, id', tenant'))
    decreases |cs|
  {
    if cs != [] {
      SetAppSpec(t, id, tenant, cs[0]);
      SetAppsSpec(SetApp(t, id, tenant, cs[0]), id, tenant, cs[1..]);
    }
  }

  // The basic update and the role rename.

  /** Another application of the tenant already has `name`, so the unique key refuses the UPDATE. */
  predicate NameTaken(t: Tables, id: int, tenant: int, name: string) {
    AppById(t, id, tenant).Some? && exists a :: a in t.apps && AppNameKey(a) == (name, tenant) && AppKey(a) != (id, tenant)
  }

  /**
   * `updateBasicApplicationData`: a missing name is refused; otherwise name,
   * description and the SaaS flag ("1"/"0") of the row are set.
   */
  function UpdateBasic(t: Tables, sp: ServiceProvider, tenant: int): (r: Result<Tables, Failure>)
    ensures r.Err? <==> sp.name.None? || NameTaken(t, sp.id, tenant, sp.name.value)
    ensures r.Err? ==> r.error == if sp.name.None? then NameRequired else DuplicateName
  {
    if sp.name.None? then Err(NameRequired)
    else if NameTaken(t, sp.id, tenant, sp.name.value) then Err(DuplicateName)
    else
      var name := sp.name.value;
      Ok(t.(apps := UpdateApps(t.apps, sp.id, tenant,
        (a: AppRow) => a.(name := name, description := sp.description, saas := Some(EncodeFlag(sp.saas))))))
  }

  /**
   * After a basic update of an existing application, its row is found under
   * the new name with the new description and SaaS flag, and nothing else of
   * the store changes.
   */
  lemma UpdateBasicSpec(t: Tables, sp: ServiceProvider, tenant: int)
    requires Valid(t)
    requires UpdateBasic(t, sp, tenant).Ok?
    ensures var r := UpdateBasic(t, sp, tenant).value;
      && Valid(r)
      && r == t.(apps := r.apps)
      && (AppById(t, sp.id, tenant).None? ==> r == t)
      && (AppById(t, sp.id, tenant).Some? ==>
            var a := AppById(t, sp.id, tenant).value;
            var a' := a.(name := sp.name.value, description := sp.description, saas := Some(EncodeFlag(sp.saas)));
            AppById(r, sp.id, tenant) == Some(a') && AppByName(r, sp.name.value, tenant) == Some(a'))
      && (forall id', tenant' :: (id', tenant') != (sp.id, tenant) ==> AppById(r, id', tenant') == AppById(t, id', tenant'))
  {
    var name := sp.name.value;
    var f := (a: AppRow) => a.(name := name, description := sp.description, saas := Some(EncodeFlag(sp.saas)));
    var r := UpdateBasic(t, sp, tenant).value;
    assert r.apps == UpdateApps(t.apps, sp.id, tenant, f);
    assert RewritesOnly(t.apps, r.apps, sp.id, tenant);
    if AppById(t, sp.id, tenant).None? {
      assert r.apps == t.apps;
    } else {
      var a := AppById(t, sp.id, tenant).value;
      var i :| 0 <= i < |t.apps| && t.apps[i] == a;
      RenameValid(t.apps, r.apps, t.nextAppId, sp.id, tenant, i, name);
      assert Valid(r);
      RewriteFound(t, r, sp.id, tenant, i);
      AppByNameUnique(r, r.apps[i]);
      forall id', tenant' | (id', tenant') != (sp.id, tenant)
        ensures AppById(r, id', tenant') == AppById(t, id', tenant')
      {
        RewriteKeepsOthers(t, r, sp.id, tenant, id', tenant');
      }
    }
  }

  /** Renaming the one row of (id, tenant) to a name no other row of the tenant has keeps names unique. */
  lemma RenameValid(apps: seq<AppRow>, apps': seq<AppRow>, next: int, id: int, tenant: int, i: int, name: string)
    requires ValidApps(apps, next) && RewritesOnly(apps, apps', id, tenant)
    requires 0 <= i < |apps| && AppKey(apps[i]) == (id, tenant) && AppNameKey(apps'[i]) == (name, tenant)
    requires forall a :: a in apps && AppNameKey(a) == (name, tenant) ==> AppKey(a) == (id, tenant)
    ensures ValidApps(apps', next)
  {
    forall j | 0 <= j < |apps| && j != i
      ensures apps'[j] == apps[j] && AppKey(apps[j]) != (id, tenant) && AppNameKey(apps[j]) != (name, tenant)
    {
      assert apps[j].id != apps[i].id;
      assert apps[j] in apps;
    }
    assert forall x :: x in apps' ==> exists k :: 0 <= k < |apps| && x == apps'[k];
  }

  /**
   * The role rename `updateBasicApplicationData` asks for: none when the name
   * is refused, else a rename from the stored name (null when the row is
   * missing) unless the two names are equal ignoring case.
   */
  function RenameCalls(t: Tables, sp: ServiceProvider, tenant: int, fileBased: set<string>): (r: seq<Call>)
    ensures r == [] || (sp.name.Some? && r == [RenameRole(AppNameById(t, sp.id, tenant), sp.name.value)])
    ensures r != [] <==>
      && sp.name.Some? && sp.name.value !in fileBased
      && (AppNameById(t, sp.id, tenant).None? || !EqualsIgnoreCase(sp.name.value, AppNameById(t, sp.id, tenant).value))
  {
    if sp.name.None? || sp.name.value in fileBased then []
    else
      var stored := AppNameById(t, sp.id, tenant);
      if stored.Some? && EqualsIgnoreCase(sp.name.value, stored.value) then []
      else [RenameRole(stored, sp.name.value)]
  }

  // Child tables: delete the application's rows, then insert the new ones.

  function ReplaceClients(t: Tables, id: int, tenant: int, reqs: seq<InboundRequest>): Tables {
    t.(clients := Drop(t.clients, ClientKey, (id, tenant)) + ClientRows(reqs, id, tenant))
  }

  function ReplaceReqPaths(t: Tables, id: int, tenant: int, names: seq<string>): Tables {
    t.(reqPaths := Drop(t.reqPaths, ReqPathKey, (id, tenant)) + ReqPathRows(names, id, tenant))
  }

  function ReplaceConnectors(t: Tables, id: int, tenant: int, ps: seq<ProvisioningIdp>): Tables {
    t.(connectors := Drop(t.connectors, ConnectorKey, (id, tenant)) + ConnectorRows(ps, id, tenant))
  }

  function ReplaceRoles(t: Tables, id: int, tenant: int, ms: seq<RoleMapping>): Tables {
    t.(roles := Drop(t.roles, RoleKey, (id, tenant)) + RoleRows(ms, id, tenant))
  }

  /**
   * `deteClaimConfiguration` then `updateClaimConfiguration`: with a
   * configuration, the role claim (only when given), the dialect flag and the
   * subject flag are set and the mappings stored.
   */
  function ReplaceClaims(t: Tables, id: int, tenant: int, cc: Option<ClaimConfig>): Tables {
    var t1 := t.(claims := Drop(t.claims, ClaimKey, (id, tenant)));
    match cc
    case None => t1
    case Some(c) =>
      var t2 := SetApps(t1, id, tenant, ClaimColumnsOf(c));
      t2.(claims := t2.claims + ClaimRows(c.mappings, id, tenant))
  }

  /** The columns `updateClaimConfiguration` sets, in its order. */
  function ClaimColumnsOf(c: ClaimConfig): seq<Column> {
    (if c.roleClaimUri.Some? then [RoleClaim(c.roleClaimUri.value)] else []) +
    [ClaimDialect(EncodeFlag(c.localClaimDialect)), SendLocalSubjectId(EncodeFlag(c.alwaysSendMappedLocalSubjectId))]
  }

  /** `updateInboundProvisioningConfiguration`: the column is set only when a user store is given. */
  function SetProvisioningStore(t: Tables, id: int, tenant: int, store: Option<string>): Tables {
    match store
    case None => t
    case Some(s) => SetApp(t, id, tenant, ProvisioningUserStore(s))
  }

  /**
   * `deleteLocalAndOutboundAuthenticationConfiguration`: the application's
   * steps, and with them (by cascade) their authenticator links.
   */
  function DeleteSteps(t: Tables, id: int, tenant: int): Tables {
    var gone := StepIds(Keep(t.steps, StepKey, (id, tenant)));
    t.(steps := Drop(t.steps, StepKey, (id, tenant)), links := DropIn(t.links, LinkStep, gone))
  }

  /**
   * After the delete the application has no steps, no link points to one of
   * its old steps, and every other step and every link of another step stays.
   */
  lemma DeleteStepsSpec(t: Tables, id: int, tenant: int)
    requires Valid(t)
    ensures var r := DeleteSteps(t, id, tenant);
      && Valid(r)
      && Keep(r.steps, StepKey, (id, tenant)) == []
      && (forall k :: k != (id, tenant) ==> Keep(r.steps, StepKey, k) == Keep(t.steps, StepKey, k))
      && (forall l :: l in r.links ==> l in t.links && forall s :: s in t.steps && StepKey(s) == (id, tenant) ==> l.stepId != s.id)
      && (forall l :: l in t.links && (forall s :: s in t.steps && StepKey(s) == (id, tenant) ==> l.stepId != s.id) ==> l in r.links)
  {
    DeleteStepsValid(t, id, tenant);
    var r := DeleteSteps(t, id, tenant);
    KeepDropped(t.steps, StepKey, (id, tenant));
    forall k | k != (id, tenant)
      ensures Keep(r.steps, StepKey, k) == Keep(t.steps, StepKey, k)
    {
      KeepOtherAfterDrop(t.steps, StepKey, (id, tenant), k);
    }
  }

  lemma DeleteStepsValid(t: Tables, id: int, tenant: int)
    requires Valid(t)
    ensures Valid(DeleteSteps(t, id, tenant))
  {
    var r := DeleteSteps(t, id, tenant);
    assert Distinct(t.steps, StepId);
    DropKeepsDistinct(t.steps, StepKey, (id, tenant), StepId);
    assert forall i, j :: 0 <= i < j < |r.steps| ==> StepId(r.steps[i]) != StepId(r.steps[j]);
    assert ValidSteps(r.steps, r.nextStepId);
  }

  // The step writer.

  /** The row of one step: the generated id, the order and the two flags as "1"/"0". */
  function StepRowOf(id: int, tenant: int, appId: int, s: AuthStep): StepRow {
    StepRow(id, tenant, s.order, appId, EncodeFlag(s.subjectStep), EncodeFlag(s.attributeStep))
  }

  /** One local authenticator: looked up under "LOCAL", registered when missing, then linked. */
  function WriteLocal(t: Tables, sid: int, tenant: int, a: LocalAuthenticator): Tables {
    var found := AuthenticatorId(t, tenant, LOCAL_IDP_NAME, a.name);
    var (t1, id) := if found < 0 then AddAuthenticator(t, tenant, LOCAL_IDP_NAME, a.name, a.displayName) else (t, found);
    if id > 0 then t1.(links := t1.links + [LinkRow(sid, tenant, id)]) else t1
  }

  function WriteLocals(t: Tables, sid: int, tenant: int, ls: seq<LocalAuthenticator>): Tables
    decreases |ls|
  {
    if ls == [] then t else WriteLocals(WriteLocal(t, sid, tenant, ls[0]), sid, tenant, ls[1..])
  }

  /**
   * The links of one federated provider's authenticators: one for each
   * authenticator the provider already has; nothing is created.
   */
  function FederatedLinks(t: Tables, sid: int, tenant: int, idpName: string, auths: seq<FederatedAuthenticator>): (r: seq<LinkRow>)
    ensures forall l :: l in r ==> l.stepId == sid && l.tenant == tenant && l.authenticatorId > 0
    decreases |auths|
  {
    if auths == [] then []
    else
      var id := AuthenticatorId(t, tenant, idpName, auths[0].name);
      (if id > 0 then [LinkRow(sid, tenant, id)] else []) + FederatedLinks(t, sid, tenant, idpName, auths[1..])
  }

  function IdpLinks(t: Tables, sid: int, tenant: int, ps: seq<IdentityProvider>): (r: seq<LinkRow>)
    ensures forall l :: l in r ==> l.stepId == sid && l.tenant == tenant && l.authenticatorId > 0
    decreases |ps|
  {
    if ps == [] then []
    else FederatedLinks(t, sid, tenant, ps[0].name, ps[0].authenticators) + IdpLinks(t, sid, tenant, ps[1..])
  }

  /** A federated authenticator gets a link exactly when its provider already has it. */
  lemma {:induction false} FederatedLinksIff(t: Tables, sid: int, tenant: int, idpName: string, auths: seq<FederatedAuthenticator>, l: LinkRow)
    ensures l in FederatedLinks(t, sid, tenant, idpName, auths) <==>
      exists a :: a in auths && AuthenticatorId(t, tenant, idpName, a.name) > 0 &&
        l == LinkRow(sid, tenant, AuthenticatorId(t, tenant, idpName, a.name))
    decreases |auths|
  {
    if auths != [] {
      FederatedLinksIff(t, sid, tenant, idpName, auths[1..], l);
      assert forall a :: a in auths <==> a == auths[0] || a in auths[1..];
    }
  }

  lemma {:induction false} IdpLinksIff(t: Tables, sid: int, tenant: int, ps: seq<IdentityProvider>, l: LinkRow)
    ensures l in IdpLinks(t, sid, tenant, ps) <==>
      exists p, a :: p in ps && a in p.authenticators && AuthenticatorId(t, tenant, p.name, a.name) > 0 &&
        l == LinkRow(sid, tenant, AuthenticatorId(t, tenant, p.name, a.name))
    decreases |ps|
  {
    if ps != [] {
      FederatedLinksIff(t, sid, tenant, ps[0].name, ps[0].authenticators, l);
      IdpLinksIff(t, sid, tenant, ps[1..], l);
      assert forall p :: p in ps <==> p == ps[0] || p in ps[1..];
    }
  }

  /** One step: its row under the next step id, then its local and its federated links. */
  function WriteStep(t: Tables, appId: int, tenant: int, s: AuthStep): Tables {
    var sid := t.nextStepId;
    var t1 := t.(steps := t.steps + [StepRowOf(sid, tenant, appId, s)], nextStepId := sid + 1);
    var t2 := WriteLocals(t1, sid, tenant, s.local);
    t2.(links := t2.links + IdpLinks(t2, sid, tenant, s.federated))
  }

  function WriteSteps(t: Tables, appId: int, tenant: int, steps: seq<AuthStep>): Tables
    decreases |steps|
  {
    if steps == [] then t else WriteSteps(WriteStep(t, appId, tenant, steps[0]), appId, tenant, steps[1..])
  }

  /** The step rows written for `steps`, with consecutive ids from `first`. */
  function StepRowsFrom(first: int, tenant: int, appId: int, steps: seq<AuthStep>): (rows: seq<StepRow>)
    ensures |rows| == |steps|
    ensures forall k :: 0 <= k < |steps| ==> rows[k] == StepRowOf(first + k, tenant, appId, steps[k])
  {
    seq(|steps|, k requires 0 <= k < |steps| => StepRowOf(first + k, tenant, appId, steps[k]))
  }

  ghost predicate Extends<T>(s: seq<T>, s': seq<T>) {
    |s| <= |s'| && s'[..|s|] == s
  }

  lemma ExtendsTrans<T>(a: seq<T>, b: seq<T>, c: seq<T>)
    requires Extends(a, b) && Extends(b, c)
    ensures Extends(a, c)
  {
    assert c[..|a|] == c[..|b|][..|a|];
  }

  lemma ExtendsKeeps<T>(a: seq<T>, b: seq<T>, x: T)
    requires Extends(a, b) && x in a
    ensures x in b
  {
    var i :| 0 <= i < |a| && a[i] == x;
    assert b[..|a|][i] == x;
  }

  /** Only the tables the step writer touches differ. */
  ghost predicate StepDataOnly(t: Tables, t': Tables) {
    && t'.apps == t.apps && t'.clients == t.clients && t'.claims == t.claims && t'.roles == t.roles
    && t'.connectors == t.connectors && t'.reqPaths == t.reqPaths && t'.nextAppId == t.nextAppId
  }

  /**
   * `t'` differs from `t` only in links and authenticators, links only grown,
   * and every lookup that succeeded in `t` still finds the same id.
   */
  ghost predicate LinkFrame(t: Tables, t': Tables) {
    && StepDataOnly(t, t') && t'.steps == t.steps && t'.nextStepId == t.nextStepId
    && Extends(t.links, t'.links)
    && (forall tenant, idpName, name :: AuthenticatorId(t, tenant, idpName, name) > 0 ==>
          AuthenticatorId(t', tenant, idpName, name) == AuthenticatorId(t, tenant, idpName, name))
  }

  lemma LinkFrameTrans(t: Tables, t': Tables, t'': Tables)
    requires LinkFrame(t, t') && LinkFrame(t', t'')
    ensures LinkFrame(t, t'')
  {
    ExtendsTrans(t.links, t'.links, t''.links);
  }

  /**
   * A local authenticator always ends up registered under "LOCAL" and linked
   * to the step; the registry gains a row only when it had none.
   */
  lemma WriteLocalSpec(t: Tables, sid: int, tenant: int, a: LocalAuthenticator)
    requires Valid(t) && sid < t.nextStepId
    ensures var r := WriteLocal(t, sid, tenant, a);
      var id := AuthenticatorId(r, tenant, LOCAL_IDP_NAME, a.name);
      && Valid(r) && LinkFrame(t, r)
      && id > 0 && r.links == t.links + [LinkRow(sid, tenant, id)]
      && (AuthenticatorId(t, tenant, LOCAL_IDP_NAME, a.name) > 0 ==> r.authenticators == t.authenticators)
  {
    var r := WriteLocal(t, sid, tenant, a);
    if AuthenticatorId(t, tenant, LOCAL_IDP_NAME, a.name) < 0 {
      WriteLocalMissing(t, sid, tenant, a);
    } else {
      AuthenticatorIdFoundIff(t, tenant, LOCAL_IDP_NAME, a.name);
      assert r == t.(links := t.links + [LinkRow(sid, tenant, AuthenticatorId(t, tenant, LOCAL_IDP_NAME, a.name))]);
      assert r.links[..|t.links|] == t.links;
    }
  }

  /** A missing local authenticator is registered, and the new id is linked. */
  lemma WriteLocalMissing(t: Tables, sid: int, tenant: int, a: LocalAuthenticator)
    requires Valid(t) && sid < t.nextStepId
    requires AuthenticatorId(t, tenant, LOCAL_IDP_NAME, a.name) < 0
    ensures var r := WriteLocal(t, sid, tenant, a);
      var id := AuthenticatorId(r, tenant, LOCAL_IDP_NAME, a.name);
      && Valid(r) && LinkFrame(t, r)
      && id > 0 && r.links == t.links + [LinkRow(sid, tenant, id)]
  {
    var (t1, id) := AddAuthenticator(t, tenant, LOCAL_IDP_NAME, a.name, a.displayName);
    var r := WriteLocal(t, sid, tenant, a);
    assert r == t1.(links := t1.links + [LinkRow(sid, tenant, id)]);
    AddThenResolve(t, tenant, LOCAL_IDP_NAME, a.name, a.displayName);
    forall tn, ip, n | AuthenticatorId(t, tn, ip, n) > 0
      ensures AuthenticatorId(r, tn, ip, n) == AuthenticatorId(t, tn, ip, n)
    {
      AddKeepsResolved(t, tenant, LOCAL_IDP_NAME, a.name, a.displayName, tn, ip, n);
    }
    assert r.links[..|t.links|] == t.links;
  }

  lemma {:induction false} WriteLocalsSpec(t: Tables, sid: int, tenant: int, ls: seq<LocalAuthenticator>)
    requires Valid(t) && sid < t.nextStepId
    ensures var r := WriteLocals(t, sid, tenant, ls);
      && Valid(r) && LinkFrame(t, r)
      && (forall a :: a in ls ==>
            var id := AuthenticatorId(r, tenant, LOCAL_IDP_NAME, a.name);
            id > 0 && LinkRow(sid, tenant, id) in r.links)
    decreases |ls|
  {
    if ls != [] {
      var t1 := WriteLocal(t, sid, tenant, ls[0]);
      WriteLocalSpec(t, sid, tenant, ls[0]);
      WriteLocalsSpec(t1, sid, tenant, ls[1..]);
      var r := WriteLocals(t1, sid, tenant, ls[1..]);
      LinkFrameTrans(t, t1, r);
      var id0 := AuthenticatorId(t1, tenant, LOCAL_IDP_NAME, ls[0].name);
      assert t1.links[|t.links|] == LinkRow(sid, tenant, id0);
      ExtendsKeeps(t1.links, r.links, LinkRow(sid, tenant, id0));
      assert forall a :: a in ls ==> a == ls[0] || a in ls[1..];
    } else {
      assert t.links[..|t.links|] == t.links;
    }
  }

  lemma AppendStepValid(steps: seq<StepRow>, next: int, row: StepRow)
    requires ValidSteps(steps, next) && row.id == next
    ensures ValidSteps(steps + [row], next + 1)
  {
    var s := steps + [row];
    forall i, j | 0 <= i < j < |s|
      ensures s[i].id != s[j].id
    {
      if j == |steps| {
        assert s[i] in steps;
      } else {
        assert s[i] == steps[i] && s[j] == steps[j];
      }
    }
  }

  /**
   * What writing one step does: one step row under the counter's id, every
   * local authenticator linked and resolvable, every federated authenticator
   * its provider has linked, and nothing else of the tables changed.
   */
  lemma WriteStepSpec(t: Tables, appId: int, tenant: int, s: AuthStep)
    requires Valid(t)
    ensures var r := WriteStep(t, appId, tenant, s);
      var sid := t.nextStepId;
      && Valid(r) && StepDataOnly(t, r)
      && r.steps == t.steps + [StepRowOf(sid, tenant, appId, s)] && r.nextStepId == sid + 1
      && Extends(t.links, r.links)
      && (forall a :: a in s.local ==>
            var id := AuthenticatorId(r, tenant, LOCAL_IDP_NAME, a.name);
            id > 0 && LinkRow(sid, tenant, id) in r.links)
  {
    var sid := t.nextStepId;
    var t1 := t.(steps := t.steps + [StepRowOf(sid, tenant, appId, s)], nextStepId := sid + 1);
    AppendStepValid(t.steps, t.nextStepId, StepRowOf(sid, tenant, appId, s));
    assert Valid(t1);
    var t2 := WriteLocals(t1, sid, tenant, s.local);
    WriteLocalsSpec(t1, sid, tenant, s.local);
    var extra := IdpLinks(t2, sid, tenant, s.federated);
    var r := t2.(links := t2.links + extra);
    assert r == WriteStep(t, appId, tenant, s);
    assert ValidLinks(r.links, r.nextStepId);
    assert Valid(r);
    assert Extends(t2.links, r.links) by {
      assert r.links[..|t2.links|] == t2.links;
    }
    ExtendsTrans(t1.links, t2.links, r.links);
    forall l | l in t2.links
      ensures l in r.links
    {
    }
  }

  lemma WriteStepFrame(t: Tables, appId: int, tenant: int, s: AuthStep)
    requires Valid(t)
    ensures var r := WriteStep(t, appId, tenant, s);
      && Valid(r) && StepDataOnly(t, r)
      && r.steps == t.steps + [StepRowOf(t.nextStepId, tenant, appId, s)] && r.nextStepId == t.nextStepId + 1
  {
    WriteStepSpec(t, appId, tenant, s);
  }

  /**
   * The steps are appended with consecutive fresh ids from the counter, in
   * the order given, and only step, link and registry data change.
   */
  lemma {:induction false} WriteStepsSpec(t: Tables, appId: int, tenant: int, steps: seq<AuthStep>)
    requires Valid(t)
    ensures var r := WriteSteps(t, appId, tenant, steps);
      && Valid(r) && StepDataOnly(t, r)
      && r.steps == t.steps + StepRowsFrom(t.nextStepId, tenant, appId, steps)
      && r.nextStepId == t.nextStepId + |steps|
    decreases |steps|
  {
    if steps == [] {
      assert t.steps + StepRowsFrom(t.nextStepId, tenant, appId, steps) == t.steps;
    } else {
      var t1 := WriteStep(t, appId, tenant, steps[0]);
      WriteStepFrame(t, appId, tenant, steps[0]);
      WriteStepsSpec(t1, appId, tenant, steps[1..]);
      StepRowsFromCons(t.nextStepId, tenant, appId, steps);
      AppendAssoc(t.steps, [StepRowOf(t.nextStepId, tenant, appId, steps[0])],
                  StepRowsFrom(t.nextStepId + 1, tenant, appId, steps[1..]));
    }
  }

  lemma AppendAssoc<T>(a: seq<T>, b: seq<T>, c: seq<T>)
    ensures (a + b) + c == a + (b + c)
  {
  }

  lemma WriteStepsApps(t: Tables, appId: int, tenant: int, steps: seq<AuthStep>)
    requires Valid(t)
    ensures WriteSteps(t, appId, tenant, steps).apps == t.apps
  {
    WriteStepsSpec(t, appId, tenant, steps);
  }

  lemma StepRowsFromCons(first: int, tenant: int, appId: int, steps: seq<AuthStep>)
    requires steps != []
    ensures StepRowsFrom(first, tenant, appId, steps) ==
      [StepRowOf(first, tenant, appId, steps[0])] + StepRowsFrom(first + 1, tenant, appId, steps[1..])
  {
    var a := StepRowsFrom(first, tenant, appId, steps);
    var b := [StepRowOf(first, tenant, appId, steps[0])] + StepRowsFrom(first + 1, tenant, appId, steps[1..]);
    assert forall k :: 1 <= k < |steps| ==> b[k] == StepRowsFrom(first + 1, tenant, appId, steps[1..])[k - 1];
    assert forall k :: 0 <= k < |steps| ==> a[k] == b[k];
  }

  // The authentication configuration.

  /**
   * `updateLocalAndOutboundAuthenticationConfiguration` after the delete: with
   * a configuration, the two flags are set, the flow is checked, its type is
   * stored and its steps written.
   */
  function ReplaceAuth(t: Tables, id: int, tenant: int, c: Option<AuthConfig>, d: string -> string): (r: Result<Tables, FlowError>)
    ensures r.Err? <==> c.Some? && PrepareFlow(c.value, d).Err?
  {
    var t1 := DeleteSteps(t, id, tenant);
    match c
    case None => Ok(t1)
    case Some(cfg) =>
      match PrepareFlow(cfg, d)
      case Err(e) => Err(e)
      case Ok((authType, steps)) =>
        Ok(WriteSteps(SetApps(t1, id, tenant, AuthColumnsOf(cfg, authType)), id, tenant, steps))
  }

  /**
   * The columns the flow update sets, in its order. The two flags are set
   * before the flow is checked, but a refused flow rolls them back with the rest.
   */
  function AuthColumnsOf(c: AuthConfig, authType: string): seq<Column> {
    [SendAuthList(EncodeFlag(c.sendBackAuthenticatedIdps)), SubjectClaimUri(c.subjectClaimUri), AuthType(authType)]
  }

  // The whole update.

  /**
   * `updateApplication`: the steps in the order the DAO takes them. The error
   * is the first check that fails; on success the new tables.
   */
  function ApplyUpdate(t: Tables, sp: ServiceProvider, tenant: int, fileBased: set<string>, d: string -> string): Result<Tables, Failure> {
    if sp.name.Some? && sp.name.value in fileBased then Err(FileBasedNameConflict)
    else
      match UpdateBasic(t, sp, tenant)
      case Err(e) => Err(e)
      case Ok(t1) =>
        match ReplaceAuth(BeforeFlow(t1, sp, tenant), sp.id, tenant, sp.authConfig, d)
        case Err(e) => Err(InvalidFlow(e))
        case Ok(t4) => Ok(AfterFlow(t4, sp, tenant))
  }

  /** The stages between the basic update and the flow: the provisioning user store and the inbound requests. */
  function BeforeFlow(t: Tables, sp: ServiceProvider, tenant: int): Tables {
    ReplaceClients(SetProvisioningStore(t, sp.id, tenant, sp.provisioningUserStore), sp.id, tenant, sp.inbound)
  }

  /** The stages after the flow: request-path authenticators, claims, provisioning connectors, roles. */
  function AfterFlow(t: Tables, sp: ServiceProvider, tenant: int): Tables {
    var t5 := ReplaceReqPaths(t, sp.id, tenant, sp.requestPathAuthenticators);
    var t6 := ReplaceClaims(t5, sp.id, tenant, sp.claimConfig);
    var t7 := ReplaceConnectors(t6, sp.id, tenant, sp.outboundProvisioning);
    ReplaceRoles(t7, sp.id, tenant, sp.roleMappings)
  }

  /** An update is refused exactly for a file-based name, a missing name, a taken name or a refused flow, in that order. */
  lemma ApplyUpdateFailsIff(t: Tables, sp: ServiceProvider, tenant: int, fileBased: set<string>, d: string -> string)
    ensures var r := ApplyUpdate(t, sp, tenant, fileBased, d);
      && (r.Err? <==>
            || (sp.name.Some? && sp.name.value in fileBased)
            || sp.name.None?
            || NameTaken(t, sp.id, tenant, sp.name.value)
            || (sp.authConfig.Some? && PrepareFlow(sp.authConfig.value, d).Err?))
      && (r.Err? ==>
            r.error == (if sp.name.None? then NameRequired
                        else if sp.name.value in fileBased then FileBasedNameConflict
                        else if NameTaken(t, sp.id, tenant, sp.name.value) then DuplicateName
                        else InvalidFlow(PrepareFlow(sp.authConfig.value, d).error)))
  {
  }

  // What the update leaves behind.

  /** The stored rows of the application after the update, table by table, are the written rows. */
  ghost predicate ChildRows(r: Tables, sp: ServiceProvider, tenant: int) {
    var key := (sp.id, tenant);
    && Keep(r.clients, ClientKey, key) == ClientRows(sp.inbound, sp.id, tenant)
    && Keep(r.reqPaths, ReqPathKey, key) == ReqPathRows(sp.requestPathAuthenticators, sp.id, tenant)
    && Keep(r.claims, ClaimKey, key) == (if sp.claimConfig.Some? then ClaimRows(sp.claimConfig.value.mappings, sp.id, tenant) else [])
    && Keep(r.connectors, ConnectorKey, key) == ConnectorRows(sp.outboundProvisioning, sp.id, tenant)
    && Keep(r.roles, RoleKey, key) == RoleRows(sp.roleMappings, sp.id, tenant)
  }

  /** Every other application's child rows are what they were. */
  ghost predicate OthersUnchanged(t: Tables, r: Tables, key: (int, int)) {
    && (forall k :: k != key ==> Keep(r.clients, ClientKey, k) == Keep(t.clients, ClientKey, k))
    && (forall k :: k != key ==> Keep(r.reqPaths, ReqPathKey, k) == Keep(t.reqPaths, ReqPathKey, k))
    && (forall k :: k != key ==> Keep(r.claims, ClaimKey, k) == Keep(t.claims, ClaimKey, k))
    && (forall k :: k != key ==> Keep(r.connectors, ConnectorKey, k) == Keep(t.connectors, ConnectorKey, k))
    && (forall k :: k != key ==> Keep(r.roles, RoleKey, k) == Keep(t.roles, RoleKey, k))
  }

  /** The authentication columns after the flow is stored: unchanged without a configuration. */
  ghost predicate AuthColumns(a: AppRow, orig: AppRow, c: Option<AuthConfig>, d: string -> string) {
    match c
    case None =>
      a.authType == orig.authType && a.sendAuthListOfIdps == orig.sendAuthListOfIdps && a.subjectClaimUri == orig.subjectClaimUri
    case Some(cfg) =>
      && PrepareFlow(cfg, d).Ok?
      && a.authType == PrepareFlow(cfg, d).value.0
      && a.sendAuthListOfIdps == Some(EncodeFlag(cfg.sendBackAuthenticatedIdps))
      && a.subjectClaimUri == cfg.subjectClaimUri
  }

  /** The claim columns: the role claim only when given; unchanged without a configuration. */
  ghost predicate ClaimColumns(a: AppRow, orig: AppRow, c: Option<ClaimConfig>) {
    match c
    case None =>
      a.roleClaim == orig.roleClaim && a.localClaimDialect == orig.localClaimDialect && a.sendLocalSubjectId == orig.sendLocalSubjectId
    case Some(cc) =>
      && a.roleClaim == (if cc.roleClaimUri.Some? then cc.roleClaimUri else orig.roleClaim)
      && a.localClaimDialect == Some(EncodeFlag(cc.localClaimDialect))
      && a.sendLocalSubjectId == Some(EncodeFlag(cc.alwaysSendMappedLocalSubjectId))
  }

  lemma SetColumnsUnfold(a: AppRow, cs: seq<Column>)
    requires cs != []
    ensures SetColumns(a, cs) == SetColumns(SetColumn(a, cs[0]), cs[1..])
  {
  }

  lemma SetColumnsTwo(a: AppRow, c1: Column, c2: Column)
    ensures SetColumns(a, [c1, c2]) == SetColumn(SetColumn(a, c1), c2)
  {
    SetColumnsUnfold(a, [c1, c2]);
    assert [c1, c2][1..] == [c2];
    SetColumnsUnfold(SetColumn(a, c1), [c2]);
    assert [c2][1..] == [];
  }

  /** The three authentication columns after they are set. */
  lemma AuthColumnsSet(a: AppRow, c: AuthConfig, authType: string)
    ensures var r := SetColumns(a, AuthColumnsOf(c, authType));
      && r == a.(authType := r.authType, sendAuthListOfIdps := r.sendAuthListOfIdps, subjectClaimUri := r.subjectClaimUri)
      && r.authType == authType && r.sendAuthListOfIdps == Some(EncodeFlag(c.sendBackAuthenticatedIdps))
      && r.subjectClaimUri == c.subjectClaimUri
  {
    var cs := AuthColumnsOf(c, authType);
    SetColumnsUnfold(a, cs);
    assert cs[1..] == [SubjectClaimUri(c.subjectClaimUri), AuthType(authType)];
    SetColumnsTwo(SetColumn(a, cs[0]), SubjectClaimUri(c.subjectClaimUri), AuthType(authType));
  }

  lemma ClaimColumnsSet(a: AppRow, c: ClaimConfig)
    ensures var r := SetColumns(a, ClaimColumnsOf(c));
      && r == a.(roleClaim := r.roleClaim, localClaimDialect := r.localClaimDialect, sendLocalSubjectId := r.sendLocalSubjectId)
      && ClaimColumns(r, a, Some(c))
  {
    var cs := ClaimColumnsOf(c);
    var c1 := ClaimDialect(EncodeFlag(c.localClaimDialect));
    var c2 := SendLocalSubjectId(EncodeFlag(c.alwaysSendMappedLocalSubjectId));
    if c.roleClaimUri.Some? {
      SetColumnsUnfold(a, cs);
      assert cs[1..] == [c1, c2];
      SetColumnsTwo(SetColumn(a, cs[0]), c1, c2);
    } else {
      assert cs == [c1, c2];
      SetColumnsTwo(a, c1, c2);
    }
  }

  /** The steps of the application after the flow is stored: exactly the written rows. */
  lemma StepsAfterWrite(t: Tables, id: int, tenant: int, steps: seq<AuthStep>)
    requires Valid(t) && Keep(t.steps, StepKey, (id, tenant)) == []
    ensures var r := WriteSteps(t, id, tenant, steps);
      && Keep(r.steps, StepKey, (id, tenant)) == StepRowsFrom(t.nextStepId, tenant, id, steps)
      && (forall k :: k != (id, tenant) ==> Keep(r.steps, StepKey, k) == Keep(t.steps, StepKey, k))
  {
    var key := (id, tenant);
    WriteStepsSpec(t, id, tenant, steps);
    var rows := StepRowsFrom(t.nextStepId, tenant, id, steps);
    assert forall x :: x in rows ==> StepKey(x) == key;
    KeepAppend(t.steps, rows, StepKey, key);
    KeepAll(rows, StepKey, key);
    forall k | k != key
      ensures Keep(WriteSteps(t, id, tenant, steps).steps, StepKey, k) == Keep(t.steps, StepKey, k)
    {
      KeepAppend(t.steps, rows, StepKey, k);
      KeepNone(rows, StepKey, k);
    }
  }

  /** The flow update touches only the step, link, registry and application tables. */
  lemma ReplaceAuthFrame(t: Tables, id: int, tenant: int, c: Option<AuthConfig>, d: string -> string)
    requires Valid(t) && ReplaceAuth(t, id, tenant, c, d).Ok?
    ensures var r := ReplaceAuth(t, id, tenant, c, d).value;
      && Valid(r)
      && r.clients == t.clients && r.claims == t.claims && r.roles == t.roles
      && r.connectors == t.connectors && r.reqPaths == t.reqPaths
  {
    DeleteStepsValid(t, id, tenant);
    if c.Some? {
      var (authType, steps) := PrepareFlow(c.value, d).value;
      var t1 := DeleteSteps(t, id, tenant);
      SetAppsSpec(t1, id, tenant, AuthColumnsOf(c.value, authType));
      WriteStepsSpec(SetApps(t1, id, tenant, AuthColumnsOf(c.value, authType)), id, tenant, steps);
    }
  }

  /** After the flow update the application's steps are exactly the rows written, and nobody else's change. */
  lemma ReplaceAuthSteps(t: Tables, id: int, tenant: int, c: Option<AuthConfig>, d: string -> string)
    requires Valid(t) && ReplaceAuth(t, id, tenant, c, d).Ok?
    ensures var r := ReplaceAuth(t, id, tenant, c, d).value;
      && Keep(r.steps, StepKey, (id, tenant)) ==
           (if c.Some? then StepRowsFrom(t.nextStepId, tenant, id, PrepareFlow(c.value, d).value.1) else [])
      && (forall k :: k != (id, tenant) ==> Keep(r.steps, StepKey, k) == Keep(t.steps, StepKey, k))
  {
    DeleteStepsSpec(t, id, tenant);
    if c.Some? {
      var (authType, steps) := PrepareFlow(c.value, d).value;
      var t1 := DeleteSteps(t, id, tenant);
      SetAppsSpec(t1, id, tenant, AuthColumnsOf(c.value, authType));
      StepsAfterWrite(SetApps(t1, id, tenant, AuthColumnsOf(c.value, authType)), id, tenant, steps);
    }
  }

  /** The flow update sets the three authentication columns of the application's row and no other row. */
  lemma ReplaceAuthRow(t: Tables, id: int, tenant: int, c: Option<AuthConfig>, d: string -> string)
    requires Valid(t) && ReplaceAuth(t, id, tenant, c, d).Ok?
    ensures var r := ReplaceAuth(t, id, tenant, c, d).value;
      && (forall id', tenant' :: (id', tenant') != (id, tenant) ==> AppById(r, id', tenant') == AppById(t, id', tenant'))
      && (AppById(t, id, tenant).None? ==> AppById(r, id, tenant).None?)
      && (AppById(t, id, tenant).Some? ==>
            AppById(r, id, tenant).Some? && AuthColumns(AppById(r, id, tenant).value, AppById(t, id, tenant).value, c, d) &&
            AppById(r, id, tenant).value == AppById(t, id, tenant).value.(
              authType := AppById(r, id, tenant).value.authType,
              sendAuthListOfIdps := AppById(r, id, tenant).value.sendAuthListOfIdps,
              subjectClaimUri := AppById(r, id, tenant).value.subjectClaimUri))
  {
    var r := ReplaceAuth(t, id, tenant, c, d).value;
    ReplaceAuthApps(t, id, tenant, c, d);
    if c.Some? {
      var authType := PrepareFlow(c.value, d).value.0;
      var t1 := DeleteSteps(t, id, tenant);
      var t2 := SetApps(t1, id, tenant, AuthColumnsOf(c.value, authType));
      DeleteStepsValid(t, id, tenant);
      SetAppsSpec(t1, id, tenant, AuthColumnsOf(c.value, authType));
      SameApps(r, t2);
      SameApps(t1, t);
      if AppById(t, id, tenant).Some? {
        AuthColumnsSet(AppById(t, id, tenant).value, c.value, authType);
      }
    } else {
      SameApps(r, t);
    }
  }

  /** Lookups by id read the application table only. */
  lemma SameApps(t: Tables, u: Tables)
    requires t.apps == u.apps
    ensures forall id, tenant :: AppById(t, id, tenant) == AppById(u, id, tenant)
  {
  }

  /** The application table after the flow update: only the three flow columns are set. */
  lemma ReplaceAuthApps(t: Tables, id: int, tenant: int, c: Option<AuthConfig>, d: string -> string)
    requires Valid(t) && ReplaceAuth(t, id, tenant, c, d).Ok?
    ensures ReplaceAuth(t, id, tenant, c, d).value.apps ==
      if c.Some? then SetApps(DeleteSteps(t, id, tenant), id, tenant, AuthColumnsOf(c.value, PrepareFlow(c.value, d).value.0)).apps
      else t.apps
  {
    if c.Some? {
      var (authType, steps) := PrepareFlow(c.value, d).value;
      var t1 := DeleteSteps(t, id, tenant);
      DeleteStepsValid(t, id, tenant);
      SetAppsSpec(t1, id, tenant, AuthColumnsOf(c.value, authType));
      WriteStepsApps(SetApps(t1, id, tenant, AuthColumnsOf(c.value, authType)), id, tenant, steps);
    }
  }

  lemma ReplaceClaimsRows(t: Tables, id: int, tenant: int, cc: Option<ClaimConfig>)
    ensures var r := ReplaceClaims(t, id, tenant, cc);
      && Keep(r.claims, ClaimKey, (id, tenant)) == (if cc.Some? then ClaimRows(cc.value.mappings, id, tenant) else [])
      && (forall k :: k != (id, tenant) ==> Keep(r.claims, ClaimKey, k) == Keep(t.claims, ClaimKey, k))
  {
    var key := (id, tenant);
    var rows := if cc.Some? then ClaimRows(cc.value.mappings, id, tenant) else [];
    var r := ReplaceClaims(t, id, tenant, cc);
    assert r.claims == Drop(t.claims, ClaimKey, key) + rows by {
      if cc.Some? {
        SetAppsClaims(t.(claims := Drop(t.claims, ClaimKey, key)), id, tenant, ClaimColumnsOf(cc.value));
      }
    }
    forall k
      ensures Keep(r.claims, ClaimKey, k) == if k == key then rows else Keep(t.claims, ClaimKey, k)
    {
      ReplaceSelects(t.claims, rows, ClaimKey, key, k);
    }
  }

  /** Column updates change the application table only. */
  lemma {:induction false} SetAppsClaims(t: Tables, id: int, tenant: int, cs: seq<Column>)
    ensures SetApps(t, id, tenant, cs) == t.(apps := SetApps(t, id, tenant, cs).apps)
    decreases |cs|
  {
    if cs != [] {
      SetAppsClaims(SetApp(t, id, tenant, cs[0]), id, tenant, cs[1..]);
    }
  }

  lemma ReplaceClaimsValid(t: Tables, id: int, tenant: int, cc: Option<ClaimConfig>)
    requires Valid(t)
    ensures var r := ReplaceClaims(t, id, tenant, cc);
      Valid(r) && r == t.(apps := r.apps, claims := r.claims)
  {
    if cc.Some? {
      SetAppsSpec(t.(claims := Drop(t.claims, ClaimKey, (id, tenant))), id, tenant, ClaimColumnsOf(cc.value));
    }
  }

  lemma ReplaceClaimsRow(t: Tables, id: int, tenant: int, cc: Option<ClaimConfig>)
    requires Valid(t)
    ensures var r := ReplaceClaims(t, id, tenant, cc);
      && (forall id', tenant' :: (id', tenant') != (id, tenant) ==> AppById(r, id', tenant') == AppById(t, id', tenant'))
      && (AppById(t, id, tenant).None? ==> AppById(r, id, tenant).None?)
      && (AppById(t, id, tenant).Some? ==>
            AppById(r, id, tenant).Some? && ClaimColumns(AppById(r, id, tenant).value, AppById(t, id, tenant).value, cc) &&
            AppById(r, id, tenant).value == AppById(t, id, tenant).value.(
              roleClaim := AppById(r, id, tenant).value.roleClaim,
              localClaimDialect := AppById(r, id, tenant).value.localClaimDialect,
              sendLocalSubjectId := AppById(r, id, tenant).value.sendLocalSubjectId))
  {
    var t1 := t.(claims := Drop(t.claims, ClaimKey, (id, tenant)));
    assert forall id', tenant' :: AppById(t1, id', tenant') == AppById(t, id', tenant');
    if cc.Some? {
      SetAppsSpec(t1, id, tenant, ClaimColumnsOf(cc.value));
      var t2 := SetApps(t1, id, tenant, ClaimColumnsOf(cc.value));
      var r := t2.(claims := t2.claims + ClaimRows(cc.value.mappings, id, tenant));
      assert forall id', tenant' :: AppById(r, id', tenant') == AppById(t2, id', tenant');
      if AppById(t, id, tenant).Some? {
        ClaimColumnsSet(AppById(t, id, tenant).value, cc.value);
      }
    }
  }

  /** A delete-then-insert of one child table: the key selects the new rows, every other key what it did. */
  lemma ReplaceChildSpec(t: Tables, id: int, tenant: int, sp: ServiceProvider)
    ensures var key := (id, tenant);
      && Keep(ReplaceClients(t, id, tenant, sp.inbound).clients, ClientKey, key) == ClientRows(sp.inbound, id, tenant)
      && Keep(ReplaceReqPaths(t, id, tenant, sp.requestPathAuthenticators).reqPaths, ReqPathKey, key) ==
           ReqPathRows(sp.requestPathAuthenticators, id, tenant)
      && Keep(ReplaceConnectors(t, id, tenant, sp.outboundProvisioning).connectors, ConnectorKey, key) ==
           ConnectorRows(sp.outboundProvisioning, id, tenant)
      && Keep(ReplaceRoles(t, id, tenant, sp.roleMappings).roles, RoleKey, key) == RoleRows(sp.roleMappings, id, tenant)
      && (forall k :: k != key ==>
            && Keep(ReplaceClients(t, id, tenant, sp.inbound).clients, ClientKey, k) == Keep(t.clients, ClientKey, k)
            && Keep(ReplaceReqPaths(t, id, tenant, sp.requestPathAuthenticators).reqPaths, ReqPathKey, k) == Keep(t.reqPaths, ReqPathKey, k)
            && Keep(ReplaceConnectors(t, id, tenant, sp.outboundProvisioning).connectors, ConnectorKey, k) == Keep(t.connectors, ConnectorKey, k)
            && Keep(ReplaceRoles(t, id, tenant, sp.roleMappings).roles, RoleKey, k) == Keep(t.roles, RoleKey, k))
  {
    var key := (id, tenant);
    var reqPaths := ReqPathRows(sp.requestPathAuthenticators, id, tenant);
    var roles := RoleRows(sp.roleMappings, id, tenant);
    assert forall x :: x in reqPaths ==> ReqPathKey(x) == key;
    assert forall x :: x in roles ==> RoleKey(x) == key;
    forall k
      ensures Keep(ReplaceClients(t, id, tenant, sp.inbound).clients, ClientKey, k) == if k == key then ClientRows(sp.inbound, id, tenant) else Keep(t.clients, ClientKey, k)
      ensures Keep(ReplaceReqPaths(t, id, tenant, sp.requestPathAuthenticators).reqPaths, ReqPathKey, k) == if k == key then reqPaths else Keep(t.reqPaths, ReqPathKey, k)
      ensures Keep(ReplaceConnectors(t, id, tenant, sp.outboundProvisioning).connectors, ConnectorKey, k) == if k == key then ConnectorRows(sp.outboundProvisioning, id, tenant) else Keep(t.connectors, ConnectorKey, k)
      ensures Keep(ReplaceRoles(t, id, tenant, sp.roleMappings).roles, RoleKey, k) == if k == key then roles else Keep(t.roles, RoleKey, k)
    {
      ReplaceSelects(t.clients, ClientRows(sp.inbound, id, tenant), ClientKey, key, k);
      ReplaceSelects(t.reqPaths, reqPaths, ReqPathKey, key, k);
      ReplaceSelects(t.connectors, ConnectorRows(sp.outboundProvisioning, id, tenant), ConnectorKey, key, k);
      ReplaceSelects(t.roles, roles, RoleKey, key, k);
    }
  }

  // The whole update, stage by stage.

  /** The updated row: the basic columns, the user store when given, the flow and claim columns; id, tenant and owner kept. */
  ghost predicate UpdatedRow(a': AppRow, a: AppRow, sp: ServiceProvider, d: string -> string) {
    && sp.name.Some?
    && a' == a.(name := sp.name.value, description := sp.description, saas := Some(EncodeFlag(sp.saas)),
                provisioningUserStore := if sp.provisioningUserStore.Some? then sp.provisioningUserStore else a.provisioningUserStore,
                authType := a'.authType, sendAuthListOfIdps := a'.sendAuthListOfIdps, subjectClaimUri := a'.subjectClaimUri,
                roleClaim := a'.roleClaim, localClaimDialect := a'.localClaimDialect, sendLocalSubjectId := a'.sendLocalSubjectId)
    && AuthColumns(a', a, sp.authConfig, d)
    && ClaimColumns(a', a, sp.claimConfig)
  }

  /** A successful update is the basic update, the stages before the flow, the flow, and the stages after it. */
  lemma ApplyUpdateUnfold(t: Tables, sp: ServiceProvider, tenant: int, fileBased: set<string>, d: string -> string)
    requires ApplyUpdate(t, sp, tenant, fileBased, d).Ok?
    ensures UpdateBasic(t, sp, tenant).Ok?
    ensures var t3 := BeforeFlow(UpdateBasic(t, sp, tenant).value, sp, tenant);
      && ReplaceAuth(t3, sp.id, tenant, sp.authConfig, d).Ok?
      && ApplyUpdate(t, sp, tenant, fileBased, d).value == AfterFlow(ReplaceAuth(t3, sp.id, tenant, sp.authConfig, d).value, sp, tenant)
  {
  }

  /** The stages before the flow keep the invariants and change the row's user store and the inbound rows only. */
  lemma BeforeFlowSpec(t: Tables, sp: ServiceProvider, tenant: int)
    requires Valid(t)
    ensures var r := BeforeFlow(t, sp, tenant);
      && Valid(r)
      && r == t.(apps := r.apps, clients := r.clients)
      && r.clients == ReplaceClients(t, sp.id, tenant, sp.inbound).clients
      && (forall id', tenant' :: (id', tenant') != (sp.id, tenant) ==> AppById(r, id', tenant') == AppById(t, id', tenant'))
      && (AppById(t, sp.id, tenant).None? ==> AppById(r, sp.id, tenant).None?)
      && (AppById(t, sp.id, tenant).Some? ==>
            AppById(r, sp.id, tenant) == Some(AppById(t, sp.id, tenant).value.(provisioningUserStore :=
              if sp.provisioningUserStore.Some? then sp.provisioningUserStore else AppById(t, sp.id, tenant).value.provisioningUserStore)))
  {
    var t2 := SetProvisioningStore(t, sp.id, tenant, sp.provisioningUserStore);
    if sp.provisioningUserStore.Some? {
      SetAppSpec(t, sp.id, tenant, ProvisioningUserStore(sp.provisioningUserStore.value));
    }
    SameApps(BeforeFlow(t, sp, tenant), t2);
  }

  /** The stages after the flow keep the invariants and change the row's claim columns and four child tables only. */
  lemma AfterFlowSpec(t: Tables, sp: ServiceProvider, tenant: int)
    requires Valid(t)
    ensures var r := AfterFlow(t, sp, tenant);
      && Valid(r)
      && r == t.(apps := r.apps, reqPaths := r.reqPaths, claims := r.claims, connectors := r.connectors, roles := r.roles)
      && r.reqPaths == ReplaceReqPaths(t, sp.id, tenant, sp.requestPathAuthenticators).reqPaths
      && r.claims == ReplaceClaims(t, sp.id, tenant, sp.claimConfig).claims
      && r.connectors == ReplaceConnectors(t, sp.id, tenant, sp.outboundProvisioning).connectors
      && r.roles == ReplaceRoles(t, sp.id, tenant, sp.roleMappings).roles
      && (forall id', tenant' :: (id', tenant') != (sp.id, tenant) ==> AppById(r, id', tenant') == AppById(t, id', tenant'))
      && (AppById(t, sp.id, tenant).None? ==> AppById(r, sp.id, tenant).None?)
      && (AppById(t, sp.id, tenant).Some? ==>
            AppById(r, sp.id, tenant).Some? && ClaimColumns(AppById(r, sp.id, tenant).value, AppById(t, sp.id, tenant).value, sp.claimConfig) &&
            AppById(r, sp.id, tenant).value == AppById(t, sp.id, tenant).value.(
              roleClaim := AppById(r, sp.id, tenant).value.roleClaim,
              localClaimDialect := AppById(r, sp.id, tenant).value.localClaimDialect,
              sendLocalSubjectId := AppById(r, sp.id, tenant).value.sendLocalSubjectId))
  {
    var t5 := ReplaceReqPaths(t, sp.id, tenant, sp.requestPathAuthenticators);
    var t6 := ReplaceClaims(t5, sp.id, tenant, sp.claimConfig);
    SameApps(t5, t);
    ReplaceClaimsValid(t5, sp.id, tenant, sp.claimConfig);
    ReplaceClaimsRow(t5, sp.id, tenant, sp.claimConfig);
    ReplaceClaimsClaims(t5, sp.id, tenant, sp.claimConfig);
    ReplaceClaimsClaims(t, sp.id, tenant, sp.claimConfig);
    SameApps(AfterFlow(t, sp, tenant), t6);
  }

  /** The claim table after the claim stage depends on the claim table before it alone. */
  lemma ReplaceClaimsClaims(t: Tables, id: int, tenant: int, cc: Option<ClaimConfig>)
    ensures ReplaceClaims(t, id, tenant, cc).claims ==
      Drop(t.claims, ClaimKey, (id, tenant)) + if cc.Some? then ClaimRows(cc.value.mappings, id, tenant) else []
  {
    if cc.Some? {
      SetAppsClaims(t.(claims := Drop(t.claims, ClaimKey, (id, tenant))), id, tenant, ClaimColumnsOf(cc.value));
    }
  }

  /** A successful update keeps the store's invariants. */
  lemma ApplyUpdateValid(t: Tables, sp: ServiceProvider, tenant: int, fileBased: set<string>, d: string -> string)
    requires Valid(t) && ApplyUpdate(t, sp, tenant, fileBased, d).Ok?
    ensures Valid(ApplyUpdate(t, sp, tenant, fileBased, d).value)
  {
    ApplyUpdateUnfold(t, sp, tenant, fileBased, d);
    UpdateBasicSpec(t, sp, tenant);
    var t3 := BeforeFlow(UpdateBasic(t, sp, tenant).value, sp, tenant);
    BeforeFlowSpec(UpdateBasic(t, sp, tenant).value, sp, tenant);
    ReplaceAuthFrame(t3, sp.id, tenant, sp.authConfig, d);
    AfterFlowSpec(ReplaceAuth(t3, sp.id, tenant, sp.authConfig, d).value, sp, tenant);
  }

  /** Each child table after the update is the one its own stage writes from the original tables. */
  lemma ApplyUpdateTables(t: Tables, sp: ServiceProvider, tenant: int, fileBased: set<string>, d: string -> string)
    requires Valid(t) && ApplyUpdate(t, sp, tenant, fileBased, d).Ok?
    ensures var r := ApplyUpdate(t, sp, tenant, fileBased, d).value;
      && r.clients == ReplaceClients(t, sp.id, tenant, sp.inbound).clients
      && r.reqPaths == ReplaceReqPaths(t, sp.id, tenant, sp.requestPathAuthenticators).reqPaths
      && r.claims == ReplaceClaims(t, sp.id, tenant, sp.claimConfig).claims
      && r.connectors == ReplaceConnectors(t, sp.id, tenant, sp.outboundProvisioning).connectors
      && r.roles == ReplaceRoles(t, sp.id, tenant, sp.roleMappings).roles
  {
    ApplyUpdateUnfold(t, sp, tenant, fileBased, d);
    UpdateBasicSpec(t, sp, tenant);
    var t3 := BeforeFlow(UpdateBasic(t, sp, tenant).value, sp, tenant);
    BeforeFlowSpec(UpdateBasic(t, sp, tenant).value, sp, tenant);
    ReplaceAuthFrame(t3, sp.id, tenant, sp.authConfig, d);
    var t4 := ReplaceAuth(t3, sp.id, tenant, sp.authConfig, d).value;
    AfterFlowSpec(t4, sp, tenant);
    ReplaceClaimsClaims(t4, sp.id, tenant, sp.claimConfig);
    ReplaceClaimsClaims(t, sp.id, tenant, sp.claimConfig);
  }

  /** After a successful update the application's child rows are the ones written, and no other application's change. */
  lemma ApplyUpdateChildren(t: Tables, sp: ServiceProvider, tenant: int, fileBased: set<string>, d: string -> string)
    requires Valid(t) && ApplyUpdate(t, sp, tenant, fileBased, d).Ok?
    ensures var r := ApplyUpdate(t, sp, tenant, fileBased, d).value;
      ChildRows(r, sp, tenant) && OthersUnchanged(t, r, (sp.id, tenant))
  {
    ApplyUpdateTables(t, sp, tenant, fileBased, d);
    ReplaceChildSpec(t, sp.id, tenant, sp);
    ReplaceClaimsRows(t, sp.id, tenant, sp.claimConfig);
  }

  /** After a successful update the application's steps are the prepared flow's, and no other application's change. */
  lemma ApplyUpdateSteps(t: Tables, sp: ServiceProvider, tenant: int, fileBased: set<string>, d: string -> string)
    requires Valid(t) && ApplyUpdate(t, sp, tenant, fileBased, d).Ok?
    ensures var r := ApplyUpdate(t, sp, tenant, fileBased, d).value;
      && Keep(r.steps, StepKey, (sp.id, tenant)) ==
           (if sp.authConfig.Some? then StepRowsFrom(t.nextStepId, tenant, sp.id, PrepareFlow(sp.authConfig.value, d).value.1) else [])
      && (forall k :: k != (sp.id, tenant) ==> Keep(r.steps, StepKey, k) == Keep(t.steps, StepKey, k))
  {
    ApplyUpdateUnfold(t, sp, tenant, fileBased, d);
    UpdateBasicSpec(t, sp, tenant);
    var t3 := BeforeFlow(UpdateBasic(t, sp, tenant).value, sp, tenant);
    BeforeFlowSpec(UpdateBasic(t, sp, tenant).value, sp, tenant);
    ReplaceAuthFrame(t3, sp.id, tenant, sp.authConfig, d);
    ReplaceAuthSteps(t3, sp.id, tenant, sp.authConfig, d);
    AfterFlowSpec(ReplaceAuth(t3, sp.id, tenant, sp.authConfig, d).value, sp, tenant);
  }

  /** Every other application's row is what it was. */
  lemma ApplyUpdateOtherRows(t: Tables, sp: ServiceProvider, tenant: int, fileBased: set<string>, d: string -> string)
    requires Valid(t) && ApplyUpdate(t, sp, tenant, fileBased, d).Ok?
    ensures var r := ApplyUpdate(t, sp, tenant, fileBased, d).value;
      forall id', tenant' :: (id', tenant') != (sp.id, tenant) ==> AppById(r, id', tenant') == AppById(t, id', tenant')
  {
    ApplyUpdateUnfold(t, sp, tenant, fileBased, d);
    UpdateBasicSpec(t, sp, tenant);
    var t3 := BeforeFlow(UpdateBasic(t, sp, tenant).value, sp, tenant);
    BeforeFlowSpec(UpdateBasic(t, sp, tenant).value, sp, tenant);
    ReplaceAuthFrame(t3, sp.id, tenant, sp.authConfig, d);
    ReplaceAuthRow(t3, sp.id, tenant, sp.authConfig, d);
    AfterFlowSpec(ReplaceAuth(t3, sp.id, tenant, sp.authConfig, d).value, sp, tenant);
  }

  /**
   * After a successful update the application's row carries the submitted
   * columns (see `UpdatedRow`) and a missing application stays missing.
   */
  lemma ApplyUpdateRow(t: Tables, sp: ServiceProvider, tenant: int, fileBased: set<string>, d: string -> string)
    requires Valid(t) && ApplyUpdate(t, sp, tenant, fileBased, d).Ok?
    ensures var r := ApplyUpdate(t, sp, tenant, fileBased, d).value;
      && (AppById(t, sp.id, tenant).None? ==> AppById(r, sp.id, tenant).None?)
      && (AppById(t, sp.id, tenant).Some? ==>
            AppById(r, sp.id, tenant).Some? && UpdatedRow(AppById(r, sp.id, tenant).value, AppById(t, sp.id, tenant).value, sp, d))
  {
    ApplyUpdateUnfold(t, sp, tenant, fileBased, d);
    UpdateBasicSpec(t, sp, tenant);
    var t1 := UpdateBasic(t, sp, tenant).value;
    var t3 := BeforeFlow(t1, sp, tenant);
    BeforeFlowSpec(t1, sp, tenant);
    ReplaceAuthFrame(t3, sp.id, tenant, sp.authConfig, d);
    ReplaceAuthRow(t3, sp.id, tenant, sp.authConfig, d);
    var t4 := ReplaceAuth(t3, sp.id, tenant, sp.authConfig, d).value;
    AfterFlowSpec(t4, sp, tenant);
    if AppById(t, sp.id, tenant).Some? {
      UpdatedRowCompose(AppById(t, sp.id, tenant).value, AppById(t3, sp.id, tenant).value,
        AppById(t4, sp.id, tenant).value, AppById(ApplyUpdate(t, sp, tenant, fileBased, d).value, sp.id, tenant).value, sp, d);
    }
  }

  /** The columns the three row-changing stages set compose into `UpdatedRow`. */
  lemma UpdatedRowCompose(a: AppRow, a2: AppRow, a4: AppRow, a6: AppRow, sp: ServiceProvider, d: string -> string)
    requires sp.name.Some?
    requires a2 == a.(name := sp.name.value, description := sp.description, saas := Some(EncodeFlag(sp.saas)),
                      provisioningUserStore := if sp.provisioningUserStore.Some? then sp.provisioningUserStore else a.provisioningUserStore)
    requires a4 == a2.(authType := a4.authType, sendAuthListOfIdps := a4.sendAuthListOfIdps, subjectClaimUri := a4.subjectClaimUri)
    requires AuthColumns(a4, a2, sp.authConfig, d)
    requires a6 == a4.(roleClaim := a6.roleClaim, localClaimDialect := a6.localClaimDialect, sendLocalSubjectId := a6.sendLocalSubjectId)
    requires ClaimColumns(a6, a4, sp.claimConfig)
    ensures UpdatedRow(a6, a, sp, d)
  {
  }
}
