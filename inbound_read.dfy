/**
 * How `getInboundAuthenticationConfig` folds client rows into inbound
 * requests: rows are grouped by authentication key alone, the first row of a
 * key fixes the request's type, and each named property is put in front of
 * the ones already collected.
 */
module InboundRead {
  import opened Wrappers
  import opened Seqs
  import opened Model
  import opened Schema
  import opened WriteRows

  /** The request map being built, with its keys in the order they were first met. */
  datatype Grouping = Grouping(keys: seq<string>, requests: map<string, InboundRequest>)

  /** The effect of one row on the request map. */
  function AddClientRow(g: Grouping, row: ClientRow): Grouping {
    var known := row.authKey in g.requests;
    var base := if known then g.requests[row.authKey] else InboundRequest(Some(row.authKey), Some(row.authType), []);
    var req := if row.propName.Some? then base.(properties := [Property(row.propName, row.propValue)] + base.properties) else base;
    Grouping(if known then g.keys else g.keys + [row.authKey], g.requests[row.authKey := req])
  }

  function Group(rows: seq<ClientRow>): Grouping {
    if rows == [] then Grouping([], map[])
    else AddClientRow(Group(rows[..|rows| - 1]), rows[|rows| - 1])
  }

  ghost predicate WellGrouped(g: Grouping) {
    && (forall i, j :: 0 <= i < j < |g.keys| ==> g.keys[i] != g.keys[j])
    && (forall k :: k in g.keys <==> k in g.requests)
  }

  /** The requests of a grouping, one per key. */
  function Requests(g: Grouping): (r: seq<InboundRequest>)
    requires forall k :: k in g.keys ==> k in g.requests
    ensures |r| == |g.keys| && forall i :: 0 <= i < |r| ==> r[i] == g.requests[g.keys[i]]
  {
    seq(|g.keys|, i requires 0 <= i < |g.keys| => g.requests[g.keys[i]])
  }

  /** `getInboundAuthenticationConfig`: the requests of one application, from its rows in table order. */
  function InboundConfig(t: Tables, appId: int, tenant: int): seq<InboundRequest> {
    var rows := Keep(t.clients, ClientKey, (appId, tenant));
    GroupSpec(rows);
    Requests(Group(rows))
  }

  /** The type of the first row with key `k`. */
  function FirstTypeOf(rows: seq<ClientRow>, k: string): Option<string> {
    if rows == [] then None
    else
      var last := rows[|rows| - 1];
      var f := FirstTypeOf(rows[..|rows| - 1], k);
      if f.Some? then f else if last.authKey == k then Some(last.authType) else None
  }

  /** The named properties of the rows with key `k`, in row order. */
  function NamedPropsOf(rows: seq<ClientRow>, k: string): seq<Property> {
    if rows == [] then []
    else
      var last := rows[|rows| - 1];
      NamedPropsOf(rows[..|rows| - 1], k) + if last.authKey == k && last.propName.Some? then [Property(last.propName, last.propValue)] else []
  }

  function Reverse<T>(s: seq<T>): (r: seq<T>)
    ensures |r| == |s|
  {
    if s == [] then [] else [s[|s| - 1]] + Reverse(s[..|s| - 1])
  }

  /** The reversed list holds element `|s| - 1 - i` of `s` at position `i`. */
  lemma {:induction false} ReverseAt<T>(s: seq<T>)
    ensures forall i :: 0 <= i < |s| ==> Reverse(s)[i] == s[|s| - 1 - i]
  {
    if s != [] {
      ReverseAt(s[..|s| - 1]);
    }
  }

  lemma ReverseSnoc<T>(s: seq<T>, x: T)
    ensures Reverse(s + [x]) == [x] + Reverse(s)
  {
    assert (s + [x])[..|s|] == s;
  }

  /**
   * What a grouping built from `rows` holds: one request per distinct key, whose
   * type is that of the key's first row and whose properties are the key's
   * named properties in reverse row order.
   */
  ghost predicate Describes(g: Grouping, rows: seq<ClientRow>) {
    && WellGrouped(g)
    && (forall k :: k in g.requests <==> FirstTypeOf(rows, k).Some?)
    && (forall k :: k in g.requests ==>
          g.requests[k] == InboundRequest(Some(k), FirstTypeOf(rows, k), Reverse(NamedPropsOf(rows, k))))
  }

  /** A key that no row has is not found and has no properties. */
  lemma {:induction false} KeyAbsent(rows: seq<ClientRow>, k: string)
    requires forall i :: 0 <= i < |rows| ==> rows[i].authKey != k
    ensures FirstTypeOf(rows, k) == None && NamedPropsOf(rows, k) == []
  {
    if rows != [] {
      KeyAbsent(rows[..|rows| - 1], k);
    }
  }

  lemma {:induction false} NotFoundNoProps(rows: seq<ClientRow>, k: string)
    requires FirstTypeOf(rows, k).None?
    ensures NamedPropsOf(rows, k) == []
  {
    if rows != [] {
      NotFoundNoProps(rows[..|rows| - 1], k);
    }
  }

  /** Rows that all share one key group into exactly one request. */
  lemma {:induction false} SingleKeyGroup(rows: seq<ClientRow>, k: string)
    requires rows != []
    requires forall i :: 0 <= i < |rows| ==> rows[i].authKey == k
    ensures Group(rows).keys == [k] && Group(rows).requests.Keys == {k}
  {
    var init := rows[..|rows| - 1];
    if init != [] {
      SingleKeyGroup(init, k);
    }
  }

  /** How the two summaries of `init + [last]` unfold. */
  lemma SnocUnfold(init: seq<ClientRow>, last: ClientRow, k: string)
    ensures FirstTypeOf(init + [last], k) ==
      if FirstTypeOf(init, k).Some? then FirstTypeOf(init, k) else if last.authKey == k then Some(last.authType) else None
    ensures NamedPropsOf(init + [last], k) ==
      NamedPropsOf(init, k) + if last.authKey == k && last.propName.Some? then [Property(last.propName, last.propValue)] else []
  {
    assert (init + [last])[..|init|] == init;
  }

  /** One key of the grouping after a row is added. */
  lemma AddClientRowAt(g: Grouping, init: seq<ClientRow>, last: ClientRow, k: string)
    requires Describes(g, init)
    ensures k in AddClientRow(g, last).requests <==> FirstTypeOf(init + [last], k).Some?
    ensures k in AddClientRow(g, last).requests ==>
      AddClientRow(g, last).requests[k] ==
        InboundRequest(Some(k), FirstTypeOf(init + [last], k), Reverse(NamedPropsOf(init + [last], k)))
  {
    SnocUnfold(init, last, k);
    var g' := AddClientRow(g, last);
    if k == last.authKey {
      var base := InboundRequest(Some(k), FirstTypeOf(init + [last], k), Reverse(NamedPropsOf(init, k)));
      if k in g.requests {
        assert g.requests[k] == base;
      } else {
        NotFoundNoProps(init, k);
        assert InboundRequest(Some(k), Some(last.authType), []) == base;
      }
      if last.propName.Some? {
        var p := Property(last.propName, last.propValue);
        ReverseSnoc(NamedPropsOf(init, k), p);
        assert g'.requests[k] == base.(properties := [p] + base.properties);
      } else {
        assert g'.requests[k] == base;
        assert NamedPropsOf(init + [last], k) == NamedPropsOf(init, k);
      }
    } else {
      assert k in g'.requests <==> k in g.requests;
      if k in g.requests {
        assert g'.requests[k] == g.requests[k];
        assert NamedPropsOf(init + [last], k) == NamedPropsOf(init, k);
      }
    }
  }

  lemma AddClientRowSpec(g: Grouping, init: seq<ClientRow>, last: ClientRow)
    requires Describes(g, init)
    ensures Describes(AddClientRow(g, last), init + [last])
  {
    var g' := AddClientRow(g, last);
    forall k
      ensures k in g'.requests <==> FirstTypeOf(init + [last], k).Some?
      ensures k in g'.requests ==>
        g'.requests[k] == InboundRequest(Some(k), FirstTypeOf(init + [last], k), Reverse(NamedPropsOf(init + [last], k)))
    {
      AddClientRowAt(g, init, last, k);
    }
    assert WellGrouped(g');
  }

  lemma {:induction false} GroupSpec(rows: seq<ClientRow>)
    ensures Describes(Group(rows), rows)
  {
    if rows != [] {
      var init := rows[..|rows| - 1];
      var last := rows[|rows| - 1];
      assert rows == init + [last];
      assert Group(rows) == AddClientRow(Group(init), last);
      GroupSpec(init);
      AddClientRowSpec(Group(init), init, last);
    }
  }

  /** Rows of one request: the named properties of its key are its properties. */
  lemma {:induction false} PropertyRowsNamed(key: string, authType: string, props: seq<Property>, appId: int, tenant: int)
    requires forall i :: 0 <= i < |props| ==> props[i].name.Some?
    ensures NamedPropsOf(PropertyRows(key, authType, props, appId, tenant), key) == props
    ensures FirstTypeOf(PropertyRows(key, authType, props, appId, tenant), key) == if props == [] then None else Some(authType)
  {
    if props != [] {
      var n := |props| - 1;
      var init := props[..n];
      assert forall i :: 0 <= i < n ==> init[i] == props[i];
      PropertyRowsNamed(key, authType, init, appId, tenant);
      var prev := PropertyRows(key, authType, init, appId, tenant);
      var row := ClientRow(tenant, key, authType, props[n].name, props[n].value, appId);
      var rows := PropertyRows(key, authType, props, appId, tenant);
      assert rows == prev + [row];
      assert rows[..|rows| - 1] == prev;
      assert props == init + [props[n]];
      assert Property(row.propName, row.propValue) == props[n];
    }
  }

  /**
   * A request with a key, a type and named properties is read back alone, with
   * its properties in reverse order.
   */
  lemma RequestRoundTrip(r: InboundRequest, appId: int, tenant: int)
    requires r.key.Some? && r.authType.Some?
    requires forall i :: 0 <= i < |r.properties| ==> r.properties[i].name.Some?
    ensures var g := Group(RequestRows(r, appId, tenant));
      WellGrouped(g) && Requests(g) == [r.(properties := Reverse(r.properties))]
  {
    var rows := RequestRows(r, appId, tenant);
    var k := r.key.value;
    GroupSpec(rows);
    if r.properties == [] {
      assert rows == [ClientRow(tenant, k, r.authType.value, None, None, appId)];
      assert rows[..0] == [];
    } else {
      PropertyRowsNamed(k, r.authType.value, r.properties, appId, tenant);
    }
    assert forall i :: 0 <= i < |rows| ==> rows[i] in rows;
    SingleKeyGroup(rows, k);
  }

  /** Two bindings that share a key but differ in type are read back as one request with the first type. */
  lemma SameKeyMergedExample(appId: int, tenant: int)
    ensures Group([ClientRow(tenant, "travelocity", "samlsso", None, None, appId),
                   ClientRow(tenant, "travelocity", "oauth2", None, None, appId)])
      == Grouping(["travelocity"], map["travelocity" := InboundRequest(Some("travelocity"), Some("samlsso"), [])])
  {
    var r0 := ClientRow(tenant, "travelocity", "samlsso", None, None, appId);
    var r1 := ClientRow(tenant, "travelocity", "oauth2", None, None, appId);
    assert [r0][..0] == [];
    assert [r0, r1][..1] == [r0];
    var g0 := AddClientRow(Grouping([], map[]), r0);
    assert Group([r0]) == g0;
    assert Group([r0, r1]) == AddClientRow(g0, r1);
  }

  /** A key has a first type exactly when some row carries it. */
  lemma {:induction false} FirstTypeFound(rows: seq<ClientRow>, k: string)
    ensures FirstTypeOf(rows, k).Some? <==> exists row :: row in rows && row.authKey == k
  {
    if rows != [] {
      var init := rows[..|rows| - 1];
      FirstTypeFound(init, k);
      assert forall row :: row in rows <==> row in init || row == rows[|rows| - 1];
    }
  }

  /** The read requests are the grouping's requests in key order. */
  lemma InboundConfigUnfold(t: Tables, appId: int, tenant: int)
    ensures var rows := Keep(t.clients, ClientKey, (appId, tenant));
      var g := Group(rows);
      var r := InboundConfig(t, appId, tenant);
      && Describes(g, rows) && |r| == |g.keys|
      && forall i :: 0 <= i < |r| ==> g.keys[i] in g.requests && r[i] == g.requests[g.keys[i]] && r[i].key == Some(g.keys[i])
  {
    GroupSpec(Keep(t.clients, ClientKey, (appId, tenant)));
  }

  /**
   * The requests read for an application have distinct keys, and each has the
   * type of its key's first row and that key's named properties in reverse row
   * order.
   */
  lemma InboundConfigRequests(t: Tables, appId: int, tenant: int)
    ensures var rows := Keep(t.clients, ClientKey, (appId, tenant));
      var r := InboundConfig(t, appId, tenant);
      && (forall i, j :: 0 <= i < j < |r| ==> r[i].key != r[j].key)
      && (forall i :: 0 <= i < |r| ==>
            && r[i].key.Some? && r[i].authType.Some?
            && r[i].authType == FirstTypeOf(rows, r[i].key.value)
            && r[i].properties == Reverse(NamedPropsOf(rows, r[i].key.value)))
  {
    InboundConfigUnfold(t, appId, tenant);
  }

  /** There is one request per key that some row of the application carries. */
  lemma InboundConfigKeys(t: Tables, appId: int, tenant: int, k: string)
    ensures var r := InboundConfig(t, appId, tenant);
      (exists i :: 0 <= i < |r| && r[i].key == Some(k)) <==>
        exists row :: row in t.clients && ClientKey(row) == (appId, tenant) && row.authKey == k
  {
    var rows := Keep(t.clients, ClientKey, (appId, tenant));
    var g := Group(rows);
    var r := InboundConfig(t, appId, tenant);
    InboundConfigUnfold(t, appId, tenant);
    FirstTypeFound(rows, k);
    if k in g.keys {
      var i :| 0 <= i < |g.keys| && g.keys[i] == k;
      assert r[i].key == Some(k);
    }
  }

  // Several requests written and read back.

  lemma {:induction false} SummariesAppend(a: seq<ClientRow>, b: seq<ClientRow>, k: string)
    ensures FirstTypeOf(a + b, k) == if FirstTypeOf(a, k).Some? then FirstTypeOf(a, k) else FirstTypeOf(b, k)
    ensures NamedPropsOf(a + b, k) == NamedPropsOf(a, k) + NamedPropsOf(b, k)
  {
    if b == [] {
      assert a + b == a;
    } else {
      var init := b[..|b| - 1];
      var last := b[|b| - 1];
      SummariesAppend(a, init, k);
      assert a + b == (a + init) + [last];
      SnocUnfold(a + init, last, k);
    }
  }

  /** Requests that are stored and whose properties are all named. */
  predicate WellFormedRequest(r: InboundRequest) {
    r.key.Some? && r.authType.Some? && forall i :: 0 <= i < |r.properties| ==> r.properties[i].name.Some?
  }

  /** The summaries of one request's rows: its type and properties under its key, nothing under any other. */
  lemma RequestRowsSummary(r: InboundRequest, appId: int, tenant: int, k: string)
    requires WellFormedRequest(r)
    ensures var rows := RequestRows(r, appId, tenant);
      && FirstTypeOf(rows, k) == (if r.key == Some(k) then r.authType else None)
      && NamedPropsOf(rows, k) == (if r.key == Some(k) then r.properties else [])
  {
    var rows := RequestRows(r, appId, tenant);
    if r.key != Some(k) {
      KeyAbsent(rows, k);
    } else if r.properties == [] {
      assert rows == [ClientRow(tenant, k, r.authType.value, None, None, appId)];
      assert rows[..0] == [];
    } else {
      PropertyRowsNamed(k, r.authType.value, r.properties, appId, tenant);
    }
  }

  /** Requests with distinct keys. */
  predicate DistinctKeys(reqs: seq<InboundRequest>) {
    forall i, j :: 0 <= i < j < |reqs| ==> reqs[i].key != reqs[j].key
  }

  /** No row written for requests without key `k` carries `k`. */
  lemma {:induction false} ClientRowsOtherKeys(reqs: seq<InboundRequest>, appId: int, tenant: int, k: string)
    requires forall i :: 0 <= i < |reqs| ==> reqs[i].key != Some(k)
    ensures forall row :: row in ClientRows(reqs, appId, tenant) ==> row.authKey != k
  {
    if reqs != [] {
      var n := |reqs| - 1;
      var init := reqs[..n];
      assert forall i :: 0 <= i < n ==> init[i] == reqs[i];
      ClientRowsOtherKeys(init, appId, tenant, k);
      assert ClientRows(reqs, appId, tenant) == ClientRows(init, appId, tenant) + RequestRows(reqs[n], appId, tenant);
    }
  }

  /** A key that no request has gets no rows. */
  lemma ClientRowsAbsent(reqs: seq<InboundRequest>, appId: int, tenant: int, k: string)
    requires forall i :: 0 <= i < |reqs| ==> reqs[i].key != Some(k)
    ensures FirstTypeOf(ClientRows(reqs, appId, tenant), k).None?
  {
    ClientRowsOtherKeys(reqs, appId, tenant, k);
    FirstTypeFound(ClientRows(reqs, appId, tenant), k);
  }

  /** The rows of request `i` are the only ones under its key. */
  lemma {:induction false} ClientRowsAt(reqs: seq<InboundRequest>, appId: int, tenant: int, i: int)
    requires forall i :: 0 <= i < |reqs| ==> WellFormedRequest(reqs[i])
    requires DistinctKeys(reqs)
    requires 0 <= i < |reqs|
    ensures var rows := ClientRows(reqs, appId, tenant);
      && reqs[i].key.Some?
      && FirstTypeOf(rows, reqs[i].key.value) == reqs[i].authType
      && NamedPropsOf(rows, reqs[i].key.value) == reqs[i].properties
  {
    var n := |reqs| - 1;
    var init := reqs[..n];
    var k := reqs[i].key.value;
    var prev := ClientRows(init, appId, tenant);
    var cur := RequestRows(reqs[n], appId, tenant);
    assert ClientRows(reqs, appId, tenant) == prev + cur;
    assert forall j :: 0 <= j < n ==> init[j] == reqs[j];
    SummariesAppend(prev, cur, k);
    RequestRowsSummary(reqs[n], appId, tenant, k);
    if i == n {
      ClientRowsAbsent(init, appId, tenant, k);
      NotFoundNoProps(prev, k);
    } else {
      assert DistinctKeys(init);
      ClientRowsAt(init, appId, tenant, i);
    }
  }

  /** Under any key the rows carry at most the type and properties of the request with that key. */
  lemma ClientRowsKey(reqs: seq<InboundRequest>, appId: int, tenant: int, k: string)
    requires forall i :: 0 <= i < |reqs| ==> WellFormedRequest(reqs[i])
    requires DistinctKeys(reqs)
    ensures FirstTypeOf(ClientRows(reqs, appId, tenant), k).Some? ==>
      exists i :: 0 <= i < |reqs| && reqs[i].key == Some(k)
  {
    if forall i :: 0 <= i < |reqs| ==> reqs[i].key != Some(k) {
      ClientRowsAbsent(reqs, appId, tenant, k);
    }
  }

  /** Each written request is among those read, with its properties reversed. */
  lemma ReadHasRequest(reqs: seq<InboundRequest>, t: Tables, appId: int, tenant: int, i: int)
    requires forall i :: 0 <= i < |reqs| ==> WellFormedRequest(reqs[i])
    requires DistinctKeys(reqs)
    requires Keep(t.clients, ClientKey, (appId, tenant)) == ClientRows(reqs, appId, tenant)
    requires 0 <= i < |reqs|
    ensures reqs[i].(properties := Reverse(reqs[i].properties)) in InboundConfig(t, appId, tenant)
  {
    var g := Group(ClientRows(reqs, appId, tenant));
    var read := InboundConfig(t, appId, tenant);
    InboundConfigUnfold(t, appId, tenant);
    var k := reqs[i].key.value;
    ClientRowsAt(reqs, appId, tenant, i);
    assert k in g.requests;
    var j :| 0 <= j < |g.keys| && g.keys[j] == k;
    assert read[j] == g.requests[k];
  }

  /** Each request read is a written one, with its properties reversed. */
  lemma ReadFromRequests(reqs: seq<InboundRequest>, t: Tables, appId: int, tenant: int, q: InboundRequest)
    requires forall i :: 0 <= i < |reqs| ==> WellFormedRequest(reqs[i])
    requires DistinctKeys(reqs)
    requires Keep(t.clients, ClientKey, (appId, tenant)) == ClientRows(reqs, appId, tenant)
    requires q in InboundConfig(t, appId, tenant)
    ensures exists i :: 0 <= i < |reqs| && q == reqs[i].(properties := Reverse(reqs[i].properties))
  {
    var g := Group(ClientRows(reqs, appId, tenant));
    var read := InboundConfig(t, appId, tenant);
    InboundConfigUnfold(t, appId, tenant);
    var j :| 0 <= j < |read| && read[j] == q;
    var k := g.keys[j];
    ClientRowsKey(reqs, appId, tenant, k);
    var i :| 0 <= i < |reqs| && reqs[i].key == Some(k);
    ClientRowsAt(reqs, appId, tenant, i);
    assert q == reqs[i].(properties := Reverse(reqs[i].properties));
  }

  /**
   * Requests with distinct keys and named properties, once written, are read
   * back as the same set of requests, each with its properties in reverse order.
   */
  lemma InboundRoundTrip(reqs: seq<InboundRequest>, t: Tables, appId: int, tenant: int)
    requires forall i :: 0 <= i < |reqs| ==> WellFormedRequest(reqs[i])
    requires DistinctKeys(reqs)
    requires Keep(t.clients, ClientKey, (appId, tenant)) == ClientRows(reqs, appId, tenant)
    ensures var read := InboundConfig(t, appId, tenant);
      && |read| == |reqs|
      && (forall i :: 0 <= i < |reqs| ==> reqs[i].(properties := Reverse(reqs[i].properties)) in read)
      && (forall r :: r in read ==> exists i :: 0 <= i < |reqs| && r == reqs[i].(properties := Reverse(reqs[i].properties)))
  {
    var read := InboundConfig(t, appId, tenant);
    forall i | 0 <= i < |reqs|
      ensures reqs[i].(properties := Reverse(reqs[i].properties)) in read
    {
      ReadHasRequest(reqs, t, appId, tenant, i);
    }
    forall r | r in read
      ensures exists i :: 0 <= i < |reqs| && r == reqs[i].(properties := Reverse(reqs[i].properties))
    {
      ReadFromRequests(reqs, t, appId, tenant, r);
    }
    InboundConfigUnfold(t, appId, tenant);
    ReadCount(reqs, appId, tenant, Group(ClientRows(reqs, appId, tenant)));
  }

  /** One request is read per submitted request. */
  lemma ReadCount(reqs: seq<InboundRequest>, appId: int, tenant: int, g: Grouping)
    requires forall i :: 0 <= i < |reqs| ==> WellFormedRequest(reqs[i])
    requires DistinctKeys(reqs)
    requires Describes(g, ClientRows(reqs, appId, tenant))
    ensures |g.keys| == |reqs|
  {
    var ks := set i | 0 <= i < |reqs| :: reqs[i].key.value;
    forall k
      ensures k in g.keys <==> k in ks
    {
      ClientRowsKey(reqs, appId, tenant, k);
      if k in ks {
        var i :| 0 <= i < |reqs| && reqs[i].key.value == k;
        ClientRowsAt(reqs, appId, tenant, i);
      }
    }
    DistinctCard(g.keys);
    assert |ks| == |reqs| by {
      KeysInjective(reqs);
    }
    assert (set k | k in g.keys) == ks;
  }

  lemma {:induction false} DistinctCard(s: seq<string>)
    requires forall i, j :: 0 <= i < j < |s| ==> s[i] != s[j]
    ensures |set k | k in s| == |s|
  {
    if s != [] {
      var init := s[..|s| - 1];
      DistinctCard(init);
      assert (set k | k in s) == (set k | k in init) + {s[|s| - 1]};
      assert s[|s| - 1] !in init;
    }
  }

  lemma {:induction false} KeysInjective(reqs: seq<InboundRequest>)
    requires forall i :: 0 <= i < |reqs| ==> reqs[i].key.Some?
    requires DistinctKeys(reqs)
    ensures |set i | 0 <= i < |reqs| :: reqs[i].key.value| == |reqs|
  {
    if reqs != [] {
      var n := |reqs| - 1;
      var init := reqs[..n];
      KeysInjective(init);
      var before := set i | 0 <= i < n :: init[i].key.value;
      var all := set i | 0 <= i < |reqs| :: reqs[i].key.value;
      assert all == before + {reqs[n].key.value};
      assert reqs[n].key.value !in before;
    }
  }
}
