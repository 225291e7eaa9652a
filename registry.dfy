/**
 * The authenticator registry as the step writer and the step reader use it:
 * lookup of an authenticator id by (authenticator name, identity-provider
 * name, tenant) with the super tenant's authenticators visible from every
 * tenant unless the tenant defines its own of the same names, insertion of an enabled authenticator, and the reverse lookup of an
 * id.
 */
module Registry {
  import opened Wrappers
  import opened Model
  import opened Schema

  /** A row with both names defined in exactly this tenant. */
  predicate Named(a: AuthenticatorRow, tenant: int, idpName: string, name: string) {
    a.name == name && a.idpName == idpName && a.tenant == tenant
  }

  /** The rows `LOAD_IDP_AUTHENTICATOR_ID` selects: same names, the tenant's own or the super tenant's. */
  predicate Matches(a: AuthenticatorRow, tenant: int, idpName: string, name: string) {
    Named(a, tenant, idpName, name) || Named(a, SUPER_TENANT_ID, idpName, name)
  }

  /** The rows `LOAD_IDP_AND_AUTHENTICATOR_NAMES` selects. */
  predicate InfoMatches(a: AuthenticatorRow, tenant: int, id: int) {
    a.id == id && (a.tenant == tenant || a.tenant == SUPER_TENANT_ID)
  }

  /** The id of the first row defined in exactly `tenant` with both names, -1 when there is none. */
  function FirstMatch(rows: seq<AuthenticatorRow>, tenant: int, idpName: string, name: string): (id: int)
    ensures id != -1 ==> exists a :: a in rows && Named(a, tenant, idpName, name) && a.id == id
    ensures (forall a :: a in rows ==> a.id > 0) ==>
      (id == -1 <==> forall a :: a in rows ==> !Named(a, tenant, idpName, name))
  {
    if rows == [] then -1
    else if Named(rows[0], tenant, idpName, name) then rows[0].id
    else FirstMatch(rows[1..], tenant, idpName, name)
  }

  /**
   * `getAuthentictorID`: -1 for an empty provider name; otherwise the
   * tenant's own definition, which shadows the super tenant's one of the same
   * names, else the super tenant's, else -1.
   */
  function AuthenticatorId(t: Tables, tenant: int, idpName: string, name: string): (id: int)
    ensures idpName == "" ==> id == -1
    ensures id != -1 ==> exists a :: a in t.authenticators && Matches(a, tenant, idpName, name) && a.id == id
  {
    if idpName == "" then -1
    else
      var own := FirstMatch(t.authenticators, tenant, idpName, name);
      if own != -1 then own else FirstMatch(t.authenticators, SUPER_TENANT_ID, idpName, name)
  }

  /** `addAuthenticator`: an enabled row under the next id, which is returned. */
  function AddAuthenticator(t: Tables, tenant: int, idpName: string, name: string, displayName: string): (r: (Tables, int))
    ensures Valid(t) ==> Valid(r.0) && r.1 > 0
    ensures r.0.authenticators == t.authenticators + [AuthenticatorRow(r.1, tenant, idpName, name, "1", displayName)]
    ensures r.0 == t.(authenticators := r.0.authenticators, nextAuthenticatorId := r.0.nextAuthenticatorId)
  {
    var id := t.nextAuthenticatorId;
    (t.(authenticators := t.authenticators + [AuthenticatorRow(id, tenant, idpName, name, "1", displayName)],
        nextAuthenticatorId := id + 1),
     id)
  }

  /** The last matching row of `rows` (the reader keeps overwriting its map with each row). */
  function LastInfo(rows: seq<AuthenticatorRow>, tenant: int, id: int): (r: Option<AuthenticatorRow>)
    ensures r.Some? ==> r.value in rows && InfoMatches(r.value, tenant, id)
    ensures r.None? <==> forall a :: a in rows ==> !InfoMatches(a, tenant, id)
  {
    if rows == [] then None
    else if InfoMatches(rows[|rows| - 1], tenant, id) then Some(rows[|rows| - 1])
    else
      assert forall a :: a in rows ==> a in rows[..|rows| - 1] || a == rows[|rows| - 1];
      LastInfo(rows[..|rows| - 1], tenant, id)
  }

  /** `getAuthenticatorInfo`: provider name, authenticator name and display name of an id, if any. */
  function AuthenticatorInfo(t: Tables, tenant: int, id: int): Option<AuthenticatorRow> {
    LastInfo(t.authenticators, tenant, id)
  }

  lemma {:induction false} FirstMatchAppend(a: seq<AuthenticatorRow>, b: seq<AuthenticatorRow>, tenant: int, idpName: string, name: string)
    ensures FirstMatch(a + b, tenant, idpName, name) ==
      if exists x :: x in a && Named(x, tenant, idpName, name) then FirstMatch(a, tenant, idpName, name)
      else FirstMatch(b, tenant, idpName, name)
  {
    if a == [] {
      assert a + b == b;
    } else {
      assert (a + b)[0] == a[0];
      assert (a + b)[1..] == a[1..] + b;
      FirstMatchAppend(a[1..], b, tenant, idpName, name);
      assert forall x :: x in a <==> x == a[0] || x in a[1..];
    }
  }

  /** In a valid store a lookup succeeds exactly when some visible row has both names. */
  lemma AuthenticatorIdFoundIff(t: Tables, tenant: int, idpName: string, name: string)
    requires Valid(t)
    requires idpName != ""
    ensures AuthenticatorId(t, tenant, idpName, name) > 0 <==>
      exists a :: a in t.authenticators && Matches(a, tenant, idpName, name)
  {
  }

  /** Authenticators of the super tenant are found from every tenant. */
  lemma SuperTenantVisible(t: Tables, a: AuthenticatorRow, tenant: int)
    requires Valid(t)
    requires a in t.authenticators && a.tenant == SUPER_TENANT_ID && a.idpName != ""
    ensures AuthenticatorId(t, tenant, a.idpName, a.name) > 0
  {
    AuthenticatorIdFoundIff(t, tenant, a.idpName, a.name);
  }

  /**
   * A tenant's own definition shadows the super tenant's: the lookup finds a
   * row of the tenant itself whenever there is one, and otherwise finds what
   * the super tenant's own lookup finds.
   */
  lemma TenantShadowsSuper(t: Tables, tenant: int, idpName: string, name: string)
    requires Valid(t)
    requires idpName != ""
    ensures (exists a :: a in t.authenticators && Named(a, tenant, idpName, name)) ==>
      exists a :: a in t.authenticators && Named(a, tenant, idpName, name) && a.id == AuthenticatorId(t, tenant, idpName, name)
    ensures (forall a :: a in t.authenticators ==> !Named(a, tenant, idpName, name)) ==>
      AuthenticatorId(t, tenant, idpName, name) == AuthenticatorId(t, SUPER_TENANT_ID, idpName, name)
  {
  }

  /** Looking an id up and reading it back gives the row it was found under. */
  lemma ResolveThenInfo(t: Tables, tenant: int, idpName: string, name: string)
    requires Valid(t)
    requires AuthenticatorId(t, tenant, idpName, name) > 0
    ensures var info := AuthenticatorInfo(t, tenant, AuthenticatorId(t, tenant, idpName, name));
      info.Some? && info.value.idpName == idpName && info.value.name == name
  {
    var id := AuthenticatorId(t, tenant, idpName, name);
    var a :| a in t.authenticators && Matches(a, tenant, idpName, name) && a.id == id;
    assert InfoMatches(a, tenant, id);
    var b := AuthenticatorInfo(t, tenant, id).value;
    var i :| 0 <= i < |t.authenticators| && t.authenticators[i] == a;
    var j :| 0 <= j < |t.authenticators| && t.authenticators[j] == b;
    assert t.authenticators[i].id == t.authenticators[j].id;
    assert i == j;
  }

  /**
   * After adding an authenticator that could not be found, the lookup finds
   * the new id and the reverse lookup gives the new row.
   */
  lemma AddThenResolve(t: Tables, tenant: int, idpName: string, name: string, displayName: string)
    requires Valid(t)
    requires idpName != ""
    requires AuthenticatorId(t, tenant, idpName, name) == -1
    ensures var (t', id) := AddAuthenticator(t, tenant, idpName, name, displayName);
      && AuthenticatorId(t', tenant, idpName, name) == id
      && AuthenticatorInfo(t', tenant, id) == Some(AuthenticatorRow(id, tenant, idpName, name, "1", displayName))
  {
    var (t', id) := AddAuthenticator(t, tenant, idpName, name, displayName);
    var row := AuthenticatorRow(id, tenant, idpName, name, "1", displayName);
    FirstMatchAppend(t.authenticators, [row], tenant, idpName, name);
  }

  /**
   * Adding an authenticator that its own tenant could not find does not
   * change what any lookup that succeeded finds (whoever it could shadow
   * would have found it already).
   */
  lemma AddKeepsResolved(t: Tables, tenant: int, idpName: string, name: string, displayName: string,
                         tenant': int, idpName': string, name': string)
    requires Valid(t)
    requires AuthenticatorId(t, tenant, idpName, name) < 0
    requires AuthenticatorId(t, tenant', idpName', name') > 0
    ensures AuthenticatorId(AddAuthenticator(t, tenant, idpName, name, displayName).0, tenant', idpName', name') ==
      AuthenticatorId(t, tenant', idpName', name')
  {
    var rows := t.authenticators;
    var row := AuthenticatorRow(t.nextAuthenticatorId, tenant, idpName, name, "1", displayName);
    var t' := AddAuthenticator(t, tenant, idpName, name, displayName).0;
    assert t'.authenticators == rows + [row];
    FirstMatchAppend(rows, [row], tenant', idpName', name');
    var own := FirstMatch(rows, tenant', idpName', name');
    if own == -1 {
      var sup := FirstMatch(rows, SUPER_TENANT_ID, idpName', name');
      assert sup > 0;
      FirstMatchAppend(rows, [row], SUPER_TENANT_ID, idpName', name');
      assert FirstMatch(rows + [row], SUPER_TENANT_ID, idpName', name') == sup;
      assert !Named(row, tenant', idpName', name');
      assert FirstMatch([row], tenant', idpName', name') == -1;
    }
  }
}
