/**
 * How the readers turn stored rows back into configuration: claim mappings
 * (with blank URIs filled from the other side), role mappings, provisioning
 * connectors, the claim lookup maps and the requested-claim list; and what a
 * write followed by a read gives back.
 */
module ReadRows {
  import opened Wrappers
  import opened Text
  import opened Model
  import opened Schema
  import opened WriteRows

  // Claim mappings.

  /**
   * `getClaimConfiguration`, one row: a blank remote URI takes the local URI,
   * then a blank local URI takes the (possibly filled) remote URI.
   */
  function DecodeClaimRow(row: ClaimRow): (m: ClaimMapping)
    ensures m.localClaim.Some? && m.remoteClaim.Some?
    ensures !IsBlank(row.remoteClaim) ==> m.remoteClaim.value == row.remoteClaim
    ensures IsBlank(row.remoteClaim) ==> m.remoteClaim.value == row.localClaim
    ensures !IsBlank(row.localClaim) ==> m.localClaim.value == row.localClaim
    ensures IsBlank(row.localClaim) ==> m.localClaim.value == m.remoteClaim.value
    ensures m.requested <==> row.requested == "1"
    ensures m.defaultValue == row.defaultValue
  {
    var remote := if IsBlank(row.remoteClaim) then row.localClaim else row.remoteClaim;
    var local := if IsBlank(row.localClaim) then remote else row.localClaim;
    ClaimMapping(Some(local), Some(remote), EqualsIgnoreCase("1", row.requested), row.defaultValue)
  }

  /** A side left blank is never blank after reading unless both sides were. */
  lemma DecodedClaimNotBlank(row: ClaimRow)
    requires !IsBlank(row.localClaim) || !IsBlank(row.remoteClaim)
    ensures !IsBlank(DecodeClaimRow(row).localClaim.value) && !IsBlank(DecodeClaimRow(row).remoteClaim.value)
  {
  }

  /** A stored ("email", "") reads back as ("email", "email"). */
  lemma BlankRemoteClaimExample(tenant: int, appId: int)
    ensures var m := DecodeClaimRow(ClaimRow(tenant, "email", "", appId, "1", None));
      m.localClaim == Some("email") && m.remoteClaim == Some("email") && m.requested
  {
    assert !IsBlank("email") by {
      BlankIffAllWhitespace("email");
      assert "email"[0] > ' ';
    }
    assert IsBlank("") by {
      BlankIffAllWhitespace("");
    }
  }

  predicate WellFormedClaim(m: ClaimMapping) {
    m.localClaim.Some? && m.remoteClaim.Some? && !IsBlank(m.localClaim.value) && !IsBlank(m.remoteClaim.value)
  }

  /** A mapping with two non-blank URIs is read back as it was written. */
  lemma ClaimRoundTrip(m: ClaimMapping, appId: int, tenant: int)
    requires WellFormedClaim(m)
    ensures DecodeClaimRow(ClaimRowOf(m, appId, tenant).value) == m
  {
  }

  /** `rows` decode, one by one, to `ms`. */
  predicate DecodesTo(rows: seq<ClaimRow>, ms: seq<ClaimMapping>) {
    |rows| == |ms| && forall i :: 0 <= i < |ms| ==> DecodeClaimRow(rows[i]) == ms[i]
  }

  /** When every mapping has both URIs, the i-th row written is the i-th mapping's row. */
  lemma {:induction false} ClaimRowsExact(ms: seq<ClaimMapping>, appId: int, tenant: int)
    requires forall i :: 0 <= i < |ms| ==> ms[i].localClaim.Some? && ms[i].remoteClaim.Some?
    ensures var rows := ClaimRows(ms, appId, tenant);
      |rows| == |ms| && forall i :: 0 <= i < |ms| ==> Some(rows[i]) == ClaimRowOf(ms[i], appId, tenant)
  {
    if ms != [] {
      var n := |ms| - 1;
      var init := ms[..n];
      assert forall i :: 0 <= i < n ==> init[i] == ms[i];
      ClaimRowsExact(init, appId, tenant);
      var prev := ClaimRows(init, appId, tenant);
      assert ClaimRows(ms, appId, tenant) == prev + [ClaimRowOf(ms[n], appId, tenant).value];
    }
  }

  /** Writing well-formed mappings and reading the rows back gives the same mappings, in order. */
  lemma ClaimsRoundTrip(ms: seq<ClaimMapping>, appId: int, tenant: int)
    requires forall i :: 0 <= i < |ms| ==> WellFormedClaim(ms[i])
    ensures DecodesTo(ClaimRows(ms, appId, tenant), ms)
  {
    ClaimRowsExact(ms, appId, tenant);
    var rows := ClaimRows(ms, appId, tenant);
    forall i | 0 <= i < |ms|
      ensures DecodeClaimRow(rows[i]) == ms[i]
    {
      ClaimRoundTrip(ms[i], appId, tenant);
    }
  }

  /** The claim written under the key side and the one under the value side. */
  function ClaimKeyOf(row: ClaimRow, localIdpAsKey: bool): string {
    if localIdpAsKey then row.localClaim else row.remoteClaim
  }

  function ClaimValueOf(row: ClaimRow, localIdpAsKey: bool): string {
    if localIdpAsKey then row.remoteClaim else row.localClaim
  }

  /** `getClaimMapping`: local to remote or remote to local, later rows overwriting earlier ones. */
  function ClaimMap(rows: seq<ClaimRow>, localIdpAsKey: bool): (m: map<string, string>)
    ensures m.Keys == set row | row in rows :: ClaimKeyOf(row, localIdpAsKey)
  {
    if rows == [] then map[]
    else
      var last := rows[|rows| - 1];
      var init := rows[..|rows| - 1];
      assert forall row :: row in rows <==> row in init || row == last;
      ClaimMap(init, localIdpAsKey)[ClaimKeyOf(last, localIdpAsKey) := ClaimValueOf(last, localIdpAsKey)]
  }

  /** One more row sets its key to its value over the map of the rows before it. */
  lemma ClaimMapSnoc(rows: seq<ClaimRow>, localIdpAsKey: bool, i: int)
    requires 0 <= i < |rows|
    ensures ClaimMap(rows[..i + 1], localIdpAsKey) ==
      ClaimMap(rows[..i], localIdpAsKey)[ClaimKeyOf(rows[i], localIdpAsKey) := ClaimValueOf(rows[i], localIdpAsKey)]
  {
    assert rows[..i + 1][..i] == rows[..i];
  }

  /** Each key maps to the value of the last row that has it. */
  lemma {:induction false} ClaimMapLastWins(rows: seq<ClaimRow>, localIdpAsKey: bool, i: int)
    requires 0 <= i < |rows|
    requires forall j :: i < j < |rows| ==> ClaimKeyOf(rows[j], localIdpAsKey) != ClaimKeyOf(rows[i], localIdpAsKey)
    ensures ClaimMap(rows, localIdpAsKey)[ClaimKeyOf(rows[i], localIdpAsKey)] == ClaimValueOf(rows[i], localIdpAsKey)
  {
    var n := |rows| - 1;
    if i < n {
      var init := rows[..n];
      assert init[i] == rows[i];
      forall j | i < j < |init|
        ensures ClaimKeyOf(init[j], localIdpAsKey) != ClaimKeyOf(init[i], localIdpAsKey)
      {
        assert init[j] == rows[j];
      }
      ClaimMapLastWins(init, localIdpAsKey, i);
    }
  }

  predicate DistinctClaims(rows: seq<ClaimRow>) {
    && (forall i, j :: 0 <= i < j < |rows| ==> rows[i].localClaim != rows[j].localClaim)
    && (forall i, j :: 0 <= i < j < |rows| ==> rows[i].remoteClaim != rows[j].remoteClaim)
  }

  /**
   * When no claim URI occurs twice on either side, the two lookup maps of an
   * application are inverse to each other.
   */
  lemma ClaimMapsInverse(rows: seq<ClaimRow>, k: string)
    requires DistinctClaims(rows)
    requires k in ClaimMap(rows, true)
    ensures ClaimMap(rows, true)[k] in ClaimMap(rows, false)
    ensures ClaimMap(rows, false)[ClaimMap(rows, true)[k]] == k
  {
    var row :| row in rows && row.localClaim == k;
    var i :| 0 <= i < |rows| && rows[i] == row;
    ClaimMapLastWins(rows, true, i);
    ClaimMapLastWins(rows, false, i);
  }

  /** `getAllRequestedClaimsByServiceProvider`: the local URIs of rows flagged as requested. */
  function RequestedClaims(rows: seq<ClaimRow>): (r: seq<string>)
    ensures |r| <= |rows|
    ensures forall c :: c in r <==> exists row :: row in rows && EqualsIgnoreCase("1", row.requested) && row.localClaim == c
  {
    if rows == [] then []
    else
      var last := rows[|rows| - 1];
      var init := rows[..|rows| - 1];
      assert forall row :: row in rows <==> row in init || row == last;
      RequestedClaims(init) + if EqualsIgnoreCase("1", last.requested) then [last.localClaim] else []
  }

  /** One more row adds its local URI when it is requested. */
  lemma RequestedClaimsSnoc(rows: seq<ClaimRow>, i: int)
    requires 0 <= i < |rows|
    ensures RequestedClaims(rows[..i + 1]) ==
      RequestedClaims(rows[..i]) + if EqualsIgnoreCase("1", rows[i].requested) then [rows[i].localClaim] else []
  {
    assert rows[..i + 1][..i] == rows[..i];
  }

  /** The local URIs of the submitted mappings that are stored and requested. */
  function RequestedLocals(ms: seq<ClaimMapping>): seq<string> {
    if ms == [] then []
    else
      var m := ms[|ms| - 1];
      RequestedLocals(ms[..|ms| - 1]) +
      if m.localClaim.Some? && m.remoteClaim.Some? && m.requested then [m.localClaim.value] else []
  }

  /** After a write, the requested-claim list is the requested local URIs of the stored mappings, in order. */
  lemma {:induction false} RequestedAfterWrite(ms: seq<ClaimMapping>, appId: int, tenant: int)
    ensures RequestedClaims(ClaimRows(ms, appId, tenant)) == RequestedLocals(ms)
  {
    if ms != [] {
      var n := |ms| - 1;
      RequestedAfterWrite(ms[..n], appId, tenant);
      var rows := ClaimRows(ms, appId, tenant);
      var prev := ClaimRows(ms[..n], appId, tenant);
      match ClaimRowOf(ms[n], appId, tenant)
      case None =>
        assert rows == prev;
      case Some(r) =>
        assert rows == prev + [r];
        assert rows[..|rows| - 1] == prev;
        assert EqualsIgnoreCase("1", r.requested) <==> ms[n].requested;
    }
  }

  // Role mappings.

  /** `getRoleMappingOfApplication`, one row: the user store of the local role is not stored. */
  function DecodeRoleRow(row: RoleRow): RoleMapping {
    RoleMapping(row.localRole, None, row.remoteRole)
  }

  lemma RolesRoundTrip(ms: seq<RoleMapping>, appId: int, tenant: int)
    ensures var rows := RoleRows(ms, appId, tenant);
      |rows| == |ms| && forall i :: 0 <= i < |ms| ==>
        DecodeRoleRow(rows[i]) == ms[i].(localRoleUserStore := None)
  {
  }

  // Outbound provisioning.

  /** `getOutboundProvisioningConfiguration`, one row: flags are true only for "1". */
  function DecodeConnectorRow(row: ConnectorRow): (p: ProvisioningIdp)
    ensures p.name == row.idpName && p.defaultConnector.Some? && p.defaultConnector.value.name == row.connector
    ensures p.jitEnabled <==> row.jit == "1"
    ensures p.defaultConnector.value.blocking <==> row.blocking == "1"
  {
    ProvisioningIdp(row.idpName, Some(Connector(row.connector, DecodeFlag(row.blocking))), DecodeFlag(row.jit))
  }

  /** The submitted providers that carry a default connector, in order. */
  function WithConnector(ps: seq<ProvisioningIdp>): (r: seq<ProvisioningIdp>)
    ensures forall p :: p in r <==> p in ps && p.defaultConnector.Some?
  {
    if ps == [] then []
    else
      var last := ps[|ps| - 1];
      var init := ps[..|ps| - 1];
      assert forall p :: p in ps <==> p in init || p == last;
      WithConnector(init) + if last.defaultConnector.Some? then [last] else []
  }

  /** Reading back the provisioning rows gives exactly the providers that had a default connector. */
  lemma {:induction false} ConnectorsRoundTrip(ps: seq<ProvisioningIdp>, appId: int, tenant: int)
    ensures var rows := ConnectorRows(ps, appId, tenant);
      |rows| == |WithConnector(ps)| && forall i :: 0 <= i < |rows| ==> DecodeConnectorRow(rows[i]) == WithConnector(ps)[i]
  {
    if ps != [] {
      var n := |ps| - 1;
      ConnectorsRoundTrip(ps[..n], appId, tenant);
      var rows := ConnectorRows(ps, appId, tenant);
      var prev := ConnectorRows(ps[..n], appId, tenant);
      var kept := WithConnector(ps);
      var prevKept := WithConnector(ps[..n]);
      match ConnectorRowOf(ps[n], appId, tenant)
      case None =>
        assert rows == prev && kept == prevKept;
      case Some(r) =>
        assert rows == prev + [r] && kept == prevKept + [ps[n]];
        forall i | 0 <= i < |rows|
          ensures DecodeConnectorRow(rows[i]) == kept[i]
        {
          if i < |prev| {
            assert rows[i] == prev[i] && kept[i] == prevKept[i];
          }
        }
    }
  }
}
