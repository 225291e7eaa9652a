/**
 * `ApplicationDAOImpl` as an object over the in-memory tables: every DAO
 * operation reads or changes `db`, and the calls it makes into foreign
 * collaborators (role rename and delete, SAML and OAuth client removal) are
 * appended to `calls`. Each method is proved to compute what the functions of
 * the other modules specify, so every property proved there holds of it.
 */
module ApplicationDao {
  import opened Wrappers
  import opened Seqs
  import opened Model
  import opened Schema
  import opened WriteRows
  import opened ReadRows
  import opened InboundRead
  import opened StepRead
  import opened Update
  import opened Lifecycle
  import opened ReadApp

  class ApplicationStore {
    /** The rows of every table, and the id sequences. */
    var db: Tables
    /** The calls made into collaborators, in order; a rollback of `db` does not undo them. */
    var calls: seq<Call>

    ghost predicate Valid()
      reads this
    {
      Schema.Valid(db)
    }

    constructor ()
      ensures Valid() && db == EmptyTables() && calls == []
    {
      db := EmptyTables();
      calls := [];
    }

    /**
     * `createApplication`: -123 without a tenant domain. When the driver
     * returns no generated key the id is looked up again by name, which gives
     * the same id.
     */
    method CreateApplication(sp: ServiceProvider, domainTenant: Option<int>, caller: User, fileBased: set<string>, keyReturned: bool)
      returns (r: Result<int, Failure>)
      requires Valid()
      modifies this
      ensures Valid() && calls == old(calls)
      ensures var c := Create(old(db), sp, domainTenant.GetOr(UNRESOLVED_TENANT_ID), caller, fileBased);
        && (c.Err? ==> r == Err(c.error) && db == old(db))
        && (c.Ok? ==> r == Ok(c.value.1) && db == c.value.0)
      ensures r.Ok? ==> r.value > 0 && AppIdByName(db, sp.name.value, domainTenant.GetOr(UNRESOLVED_TENANT_ID)) == r.value
    {
      var tenant := domainTenant.GetOr(UNRESOLVED_TENANT_ID);
      var c := Create(db, sp, tenant, caller, fileBased);
      if c.Err? {
        return Err(c.error);
      }
      CreateSpec(db, sp, tenant, caller, fileBased);
      db := c.value.0;
      var id := if keyReturned then c.value.1 else 0;
      if id == 0 {
        id := AppIdByName(db, sp.name.value, tenant);
      }
      r := Ok(id);
    }

    /**
     * `updateApplication` under the caller's tenant: the basic row, then each
     * child table deleted and written again. On any failure the tables are
     * rolled back and the failure is reported for the application's id; the
     * role rename already asked for stays asked for.
     */
    method UpdateApplication(sp: ServiceProvider, tenant: int, fileBased: set<string>, d: string -> string)
      returns (r: Result<(), Failure>)
      requires Valid()
      modifies this
      ensures Valid()
      ensures calls == old(calls) + RenameCalls(old(db), sp, tenant, fileBased)
      ensures var u := ApplyUpdate(old(db), sp, tenant, fileBased, d);
        && (u.Err? ==> r == Err(UpdateFailed(sp.id, u.error)) && db == old(db))
        && (u.Ok? ==> r == Ok(()) && db == u.value)
      ensures r.Ok? ==> ChildRows(db, sp, tenant) && OthersUnchanged(old(db), db, (sp.id, tenant))
    {
      var snapshot := db;
      if sp.name.Some? && sp.name.value in fileBased {
        return Err(UpdateFailed(sp.id, FileBasedNameConflict));
      }
      calls := calls + RenameCalls(db, sp, tenant, fileBased);
      var basic := UpdateBasic(db, sp, tenant);
      if basic.Err? {
        db := snapshot;
        return Err(UpdateFailed(sp.id, basic.error));
      }
      db := SetProvisioningStore(basic.value, sp.id, tenant, sp.provisioningUserStore);
      var clientRows := StoreClientRows(sp.inbound, sp.id, tenant);
      db := db.(clients := Drop(db.clients, ClientKey, (sp.id, tenant)) + clientRows);
      var flow := ReplaceAuth(db, sp.id, tenant, sp.authConfig, d);
      if flow.Err? {
        db := snapshot;
        return Err(UpdateFailed(sp.id, InvalidFlow(flow.error)));
      }
      db := AfterFlow(flow.value, sp, tenant);
      r := Ok(());
      ApplyUpdateValid(snapshot, sp, tenant, fileBased, d);
      ApplyUpdateChildren(snapshot, sp, tenant, fileBased, d);
    }

    /** The client rows of the submitted requests, batched request by request. */
    static method StoreClientRows(reqs: seq<InboundRequest>, appId: int, tenant: int) returns (rows: seq<ClientRow>)
      ensures rows == ClientRows(reqs, appId, tenant)
    {
      rows := [];
      for i := 0 to |reqs|
        invariant rows == ClientRows(reqs[..i], appId, tenant)
      {
        assert reqs[..i + 1][..i] == reqs[..i];
        rows := rows + RequestRows(reqs[i], appId, tenant);
      }
      assert reqs[..|reqs|] == reqs;
    }

    /** `getApplication`, with the super tenant for a missing domain in both its steps. */
    method GetApplication(name: Option<string>, domainTenant: Option<int>, ctxTenant: int, caller: User, fileBased: set<string>, isHub: string -> bool)
      returns (r: Result<Option<ServiceProvider>, Failure>)
      requires Valid()
      modifies this
      ensures Valid() && calls == old(calls)
      ensures var g := ReadApp.GetApplication(old(db), name, domainTenant, ctxTenant, caller, fileBased, isHub);
        && (g.Err? ==> r == Err(g.error) && db == old(db))
        && (g.Ok? ==> r == Ok(g.value.1) && db == g.value.0)
    {
      var tenant := domainTenant.GetOr(SUPER_TENANT_ID);
      if name == Some(LOCAL_SP) && AppByName(db, LOCAL_SP, tenant).None? {
        var c := Create(db, LocalSpTemplate(), tenant, caller, fileBased);
        if c.Err? {
          return Err(c.error);
        }
        CreateSpec(db, LocalSpTemplate(), tenant, caller, fileBased);
        db := c.value.0;
      }
      var sp := ReadApplicationFrom(name, tenant, ctxTenant, isHub);
      r := Ok(sp);
    }

    /** The readers of `getApplication` once the basic row is found, with the steps loaded and sorted in place. */
    method ReadApplicationFrom(name: Option<string>, tenant: int, ctxTenant: int, isHub: string -> bool) returns (sp: Option<ServiceProvider>)
      ensures sp == ReadApplication(db, name, tenant, ctxTenant, isHub)
    {
      if name.None? {
        return None;
      }
      var found := AppByName(db, name.value, tenant);
      if found.None? {
        return None;
      }
      var a := found.value;
      var steps := LoadSteps(db, a.id, tenant, isHub);
      var p := Assemble(db, a, tenant, ctxTenant, isHub);
      sp := Some(p.(authConfig := Some(p.authConfig.value.(steps := steps))));
    }

    /** `deleteApplication(name)` under the caller's tenant: each inbound client is removed, then the application row. */
    method DeleteApplication(name: string, tenant: int)
      requires Valid()
      modifies this
      ensures Valid()
      ensures db == DeleteByName(old(db), name, tenant)
      ensures calls == old(calls) + DeleteByNameCalls(old(db), name, tenant)
    {
      var t := db;
      var clients := InboundConfig(t, AppIdByName(t, name, tenant), tenant);
      RemoveClients(clients);
      assert db == t;
      DeleteByNameSpec(t, name, tenant);
      db := DeleteByName(t, name, tenant);
    }

    /** `deleteApplication(id)` under the caller's tenant: the clients, then the application role, then the row. */
    method DeleteApplicationById(id: int, tenant: int)
      requires Valid()
      modifies this
      ensures Valid()
      ensures db == DeleteById(old(db), id, tenant)
      ensures calls == old(calls) + DeleteByIdCalls(old(db), id, tenant)
    {
      var t := db;
      var role := DeleteAppRole(AppNameById(t, id, tenant));
      RemoveClients(InboundConfig(t, id, tenant));
      assert db == t;
      calls := calls + [role];
      DeleteByIdValid(t, id, tenant);
      db := DeleteById(t, id, tenant);
    }

    /** `deleteClient` for each request in turn. */
    method RemoveClients(reqs: seq<InboundRequest>)
      modifies this`calls
      ensures calls == old(calls) + ClientRemovalCalls(reqs)
    {
      for i := 0 to |reqs|
        invariant calls == old(calls) + ClientRemovalCalls(reqs[..i])
      {
        assert reqs[..i + 1][..i] == reqs[..i];
        var q := reqs[i];
        if q.key.Some? && q.authType.Some? {
          var c := DeleteClientCall(q.key.value, q.authType.value);
          if c.Some? {
            calls := calls + [c.value];
          }
        }
      }
      assert reqs[..|reqs|] == reqs;
    }

    /** `getAllApplicationBasicInfo` under the caller's tenant. */
    method GetAllApplicationBasicInfo(tenant: int, authorized: string -> bool) returns (infos: seq<BasicInfo>)
      ensures infos == BasicInfos(db.apps, tenant, authorized)
    {
      infos := [];
      for i := 0 to |db.apps|
        invariant infos == BasicInfos(db.apps[..i], tenant, authorized)
      {
        assert db.apps[..i + 1][..i] == db.apps[..i];
        var a := db.apps[i];
        if a.tenant == tenant && a.name != LOCAL_SP && authorized(a.name) {
          infos := infos + [BasicInfo(a.name, a.description)];
        }
      }
      assert db.apps[..|db.apps|] == db.apps;
    }

    /** `getServiceProviderNameByClientId`: the first matching client row. */
    method GetServiceProviderNameByClientId(clientId: string, authType: string, domainTenant: Option<int>) returns (r: Result<Option<string>, Failure>)
      ensures r == ServiceProviderNameByClientId(db, clientId, authType, domainTenant)
    {
      var tenant := domainTenant.GetOr(UNRESOLVED_TENANT_ID);
      var i := 0;
      while i < |db.clients|
        invariant 0 <= i <= |db.clients|
        invariant NameByClient(db.clients[i..], db, clientId, authType, tenant) == NameByClient(db.clients, db, clientId, authType, tenant)
      {
        if ClientMatches(db, db.clients[i], clientId, authType, tenant) {
          return Ok(Some(AppById(db, db.clients[i].appId, tenant).value.name));
        }
        assert db.clients[i..][1..] == db.clients[i + 1..];
        i := i + 1;
      }
      r := Ok(None);
    }

    /** `getClaimMapping`: the map filled row by row, a later row overwriting an earlier one with the same key. */
    method GetClaimMapping(name: string, domainTenant: Option<int>, localIdpAsKey: bool) returns (m: map<string, string>)
      ensures m == ClaimMappingByName(db, name, domainTenant, localIdpAsKey)
    {
      var rows := ClaimRowsByName(db, name, domainTenant.GetOr(UNRESOLVED_TENANT_ID));
      m := map[];
      for i := 0 to |rows|
        invariant m == ClaimMap(rows[..i], localIdpAsKey)
      {
        ClaimMapSnoc(rows, localIdpAsKey, i);
        m := m[ClaimKeyOf(rows[i], localIdpAsKey) := ClaimValueOf(rows[i], localIdpAsKey)];
      }
      assert rows[..|rows|] == rows;
    }

    /** `getAllRequestedClaimsByServiceProvider`: the local URIs of the requested rows, in row order. */
    method GetAllRequestedClaims(name: string, domainTenant: Option<int>) returns (claims: seq<string>)
      ensures claims == RequestedClaimsByName(db, name, domainTenant)
    {
      var rows := ClaimRowsByName(db, name, domainTenant.GetOr(UNRESOLVED_TENANT_ID));
      claims := [];
      for i := 0 to |rows|
        invariant claims == RequestedClaims(rows[..i])
      {
        RequestedClaimsSnoc(rows, i);
        if Text.EqualsIgnoreCase("1", rows[i].requested) {
          claims := claims + [rows[i].localClaim];
        }
      }
      assert rows[..|rows|] == rows;
    }
  }
}
