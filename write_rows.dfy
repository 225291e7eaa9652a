/**
 * The rows each child writer adds for one application, as functions of the
 * submitted configuration. Writers that skip ill-formed entries are filters;
 * the others map one entry to one row.
 */
module WriteRows {
  import opened Wrappers
  import opened Model
  import opened Schema

  // Inbound authentication requests (IDN_APPMGT_CLIENT).

  /** One row per property of a request, all under the request's key and type. */
  function PropertyRows(key: string, authType: string, props: seq<Property>, appId: int, tenant: int): (rows: seq<ClientRow>)
    ensures |rows| == |props|
    ensures forall i :: 0 <= i < |props| ==>
      rows[i] == ClientRow(tenant, key, authType, props[i].name, props[i].value, appId)
  {
    if props == [] then []
    else
      var p := props[|props| - 1];
      PropertyRows(key, authType, props[..|props| - 1], appId, tenant) + [ClientRow(tenant, key, authType, p.name, p.value, appId)]
  }

  /**
   * The rows of one request: none when its key or type is missing, one row
   * with no property when it has no properties, else one row per property.
   */
  function RequestRows(r: InboundRequest, appId: int, tenant: int): (rows: seq<ClientRow>)
    ensures r.key.None? || r.authType.None? ==> rows == []
    ensures r.key.Some? && r.authType.Some? && r.properties == [] ==>
      rows == [ClientRow(tenant, r.key.value, r.authType.value, None, None, appId)]
    ensures r.key.Some? && r.authType.Some? && r.properties != [] ==> |rows| == |r.properties|
    ensures forall row :: row in rows ==> ClientKey(row) == (appId, tenant) && Some(row.authKey) == r.key && Some(row.authType) == r.authType
  {
    if r.key.None? || r.authType.None? then []
    else if r.properties == [] then [ClientRow(tenant, r.key.value, r.authType.value, None, None, appId)]
    else PropertyRows(r.key.value, r.authType.value, r.properties, appId, tenant)
  }

  function ClientRows(reqs: seq<InboundRequest>, appId: int, tenant: int): (rows: seq<ClientRow>)
    ensures forall row :: row in rows ==> ClientKey(row) == (appId, tenant)
  {
    if reqs == [] then []
    else ClientRows(reqs[..|reqs| - 1], appId, tenant) + RequestRows(reqs[|reqs| - 1], appId, tenant)
  }

  // Claim mappings (IDN_APPMGT_CLAIM_MAPPING).

  /** A mapping is stored only when both of its claim URIs are present. */
  function ClaimRowOf(m: ClaimMapping, appId: int, tenant: int): (r: Option<ClaimRow>)
    ensures r.Some? <==> m.localClaim.Some? && m.remoteClaim.Some?
    ensures r.Some? ==> && Some(r.value.localClaim) == m.localClaim && Some(r.value.remoteClaim) == m.remoteClaim
                        && DecodeFlag(r.value.requested) == m.requested && r.value.defaultValue == m.defaultValue
                        && ClaimKey(r.value) == (appId, tenant)
  {
    if m.localClaim.None? || m.remoteClaim.None? then None
    else Some(ClaimRow(tenant, m.localClaim.value, m.remoteClaim.value, appId, EncodeFlag(m.requested), m.defaultValue))
  }

  function ClaimRows(ms: seq<ClaimMapping>, appId: int, tenant: int): (rows: seq<ClaimRow>)
    ensures |rows| <= |ms|
    ensures forall row :: row in rows ==> ClaimKey(row) == (appId, tenant)
  {
    if ms == [] then []
    else
      ClaimRows(ms[..|ms| - 1], appId, tenant) +
      match ClaimRowOf(ms[|ms| - 1], appId, tenant) case Some(r) => [r] case None => []
  }

  // Role mappings (IDN_APPMGT_ROLE_MAPPING).

  function RoleRowOf(m: RoleMapping, appId: int, tenant: int): RoleRow {
    RoleRow(tenant, m.localRole, m.remoteRole, appId)
  }

  function RoleRows(ms: seq<RoleMapping>, appId: int, tenant: int): (rows: seq<RoleRow>)
    ensures |rows| == |ms|
    ensures forall i :: 0 <= i < |ms| ==> rows[i] == RoleRowOf(ms[i], appId, tenant)
  {
    seq(|ms|, i requires 0 <= i < |ms| => RoleRowOf(ms[i], appId, tenant))
  }

  // Outbound provisioning connectors (IDP_PROVISIONING_CONNECTOR).

  /** A provider is stored only with a default connector; both flags are written as "1" or "0". */
  function ConnectorRowOf(p: ProvisioningIdp, appId: int, tenant: int): (r: Option<ConnectorRow>)
    ensures r.Some? <==> p.defaultConnector.Some?
    ensures r.Some? ==> && r.value.idpName == p.name && r.value.connector == p.defaultConnector.value.name
                        && (r.value.jit == "1" || r.value.jit == "0") && (r.value.blocking == "1" || r.value.blocking == "0")
                        && DecodeFlag(r.value.jit) == p.jitEnabled
                        && DecodeFlag(r.value.blocking) == p.defaultConnector.value.blocking
                        && ConnectorKey(r.value) == (appId, tenant)
  {
    match p.defaultConnector
    case None => None
    case Some(c) => Some(ConnectorRow(tenant, p.name, c.name, appId, EncodeFlag(p.jitEnabled), EncodeFlag(c.blocking)))
  }

  function ConnectorRows(ps: seq<ProvisioningIdp>, appId: int, tenant: int): (rows: seq<ConnectorRow>)
    ensures |rows| <= |ps|
    ensures forall row :: row in rows ==> ConnectorKey(row) == (appId, tenant)
  {
    if ps == [] then []
    else
      ConnectorRows(ps[..|ps| - 1], appId, tenant) +
      match ConnectorRowOf(ps[|ps| - 1], appId, tenant) case Some(r) => [r] case None => []
  }

  // Request-path authenticators (IDN_APPMGT_REQ_PATH_AUTH).

  function ReqPathRows(names: seq<string>, appId: int, tenant: int): (rows: seq<ReqPathRow>)
    ensures |rows| == |names|
    ensures forall i :: 0 <= i < |names| ==> rows[i] == ReqPathRow(tenant, names[i], appId)
  {
    seq(|names|, i requires 0 <= i < |names| => ReqPathRow(tenant, names[i], appId))
  }

  /** Providers without a default connector are exactly the ones not stored. */
  lemma {:induction false} ConnectorRowsCount(ps: seq<ProvisioningIdp>, appId: int, tenant: int)
    ensures |ConnectorRows(ps, appId, tenant)| == |set i | 0 <= i < |ps| && ps[i].defaultConnector.Some?|
  {
    if ps != [] {
      var n := |ps| - 1;
      ConnectorRowsCount(ps[..n], appId, tenant);
      var before := set i | 0 <= i < n && ps[..n][i].defaultConnector.Some?;
      var all := set i | 0 <= i < |ps| && ps[i].defaultConnector.Some?;
      if ps[n].defaultConnector.Some? {
        assert all == before + {n};
      } else {
        assert all == before;
      }
    }
  }
}
