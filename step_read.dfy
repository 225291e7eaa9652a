/**
 * How `getLocalAndOutboundAuthenticationConfig` reassembles the authentication
 * steps of an application: every (step, link) row is resolved through the
 * authenticator registry into a local authenticator or an authenticator of a
 * federated identity provider, the rows are gathered per step order (the
 * flags of the last row win), each provider gets its first authenticator as
 * its default, and the steps are sorted by order.
 */
module StepRead {
  import opened Wrappers
  import opened Seqs
  import opened Model
  import opened Schema
  import opened Registry

  /** A row of the step query: a step of the application joined with one of its links. */
  datatype StepJoinRow = StepJoinRow(order: int, authenticatorId: int, isSubject: string, isAttribute: string)

  /** The rows of one step row, one per link that points at it. */
  function JoinStep(s: StepRow, links: seq<LinkRow>): (r: seq<StepJoinRow>)
    ensures var ls := Keep(links, LinkStep, s.id);
      |r| == |ls| && forall i :: 0 <= i < |r| ==>
        r[i] == StepJoinRow(s.order, ls[i].authenticatorId, s.isSubject, s.isAttribute)
  {
    var ls := Keep(links, LinkStep, s.id);
    seq(|ls|, i requires 0 <= i < |ls| => StepJoinRow(s.order, ls[i].authenticatorId, s.isSubject, s.isAttribute))
  }

  /**
   * `LOAD_STEPS_INFO_BY_APP_ID`: the steps of the application (selected by id
   * only) joined with their links; a step with no link gives no row.
   */
  function JoinRows(steps: seq<StepRow>, links: seq<LinkRow>, appId: int): seq<StepJoinRow> {
    if steps == [] then []
    else
      var s := steps[|steps| - 1];
      JoinRows(steps[..|steps| - 1], links, appId) + if s.appId == appId then JoinStep(s, links) else []
  }

  /** A provider's authenticator as the reader files it: under the provider's name. */
  datatype FedEntry = FedEntry(idpName: string, authenticator: FederatedAuthenticator)

  datatype Entry = LocalEntry(local: LocalAuthenticator) | FederatedEntry(fed: FedEntry)

  /**
   * A row whose authenticator belongs to the provider named "LOCAL" is a local
   * authenticator; any other row, one whose id resolves to nothing included,
   * is filed as federated (an unresolved id gives a provider and an
   * authenticator without a name, which Java holds as null).
   */
  function Classify(info: Option<AuthenticatorRow>): Entry {
    match info
    case None => FederatedEntry(FedEntry("", FederatedAuthenticator("", "")))
    case Some(a) =>
      if a.idpName == LOCAL_IDP_NAME then LocalEntry(LocalAuthenticator(a.name, a.displayName))
      else FederatedEntry(FedEntry(a.idpName, FederatedAuthenticator(a.name, a.displayName)))
  }

  /** A join row with its authenticator resolved and its flags decoded. */
  datatype ResolvedRow = ResolvedRow(order: int, entry: Entry, subject: bool, attribute: bool)

  function Resolve(t: Tables, tenant: int, rows: seq<StepJoinRow>): (r: seq<ResolvedRow>)
    ensures |r| == |rows|
    ensures forall i :: 0 <= i < |rows| ==>
      r[i] == ResolvedRow(rows[i].order, Classify(AuthenticatorInfo(t, tenant, rows[i].authenticatorId)),
                          DecodeFlag(rows[i].isSubject), DecodeFlag(rows[i].isAttribute))
  {
    seq(|rows|, i requires 0 <= i < |rows| =>
      ResolvedRow(rows[i].order, Classify(AuthenticatorInfo(t, tenant, rows[i].authenticatorId)),
                  DecodeFlag(rows[i].isSubject), DecodeFlag(rows[i].isAttribute)))
  }

  /** Looking up a local authenticator that was found gives back a local entry with its name. */
  lemma LocalResolvesLocal(t: Tables, tenant: int, name: string)
    requires Valid(t)
    requires AuthenticatorId(t, tenant, LOCAL_IDP_NAME, name) > 0
    ensures var e := Classify(AuthenticatorInfo(t, tenant, AuthenticatorId(t, tenant, LOCAL_IDP_NAME, name)));
      e.LocalEntry? && e.local.name == name
  {
    ResolveThenInfo(t, tenant, LOCAL_IDP_NAME, name);
  }

  /** An authenticator found under any other provider is read back under that provider. */
  lemma FederatedResolvesFederated(t: Tables, tenant: int, idpName: string, name: string)
    requires Valid(t)
    requires idpName != LOCAL_IDP_NAME
    requires AuthenticatorId(t, tenant, idpName, name) > 0
    ensures var e := Classify(AuthenticatorInfo(t, tenant, AuthenticatorId(t, tenant, idpName, name)));
      e.FederatedEntry? && e.fed.idpName == idpName && e.fed.authenticator.name == name
  {
    ResolveThenInfo(t, tenant, idpName, name);
  }

  // Gathering the rows per step order (the maps `authSteps`, `stepLocalAuth`
  // and `stepFedIdPAuthenticators`).

  /** What has been gathered for one step order. */
  datatype StepBuilder = StepBuilder(order: int, local: seq<LocalAuthenticator>, fed: seq<FedEntry>, subject: bool, attribute: bool)

  /** Where the builder of order `o` is, or `|bs|` when there is none yet. */
  function OrderIndex(bs: seq<StepBuilder>, o: int): (i: nat)
    ensures i <= |bs|
    ensures i < |bs| ==> bs[i].order == o
    ensures i == |bs| ==> forall j :: 0 <= j < |bs| ==> bs[j].order != o
  {
    if bs == [] then 0
    else if bs[0].order == o then 0
    else 1 + OrderIndex(bs[1..], o)
  }

  /** The builder `b` after row `r`: its authenticator appended, its flags taken from `r`. */
  function Extend(b: StepBuilder, r: ResolvedRow): StepBuilder {
    b.(local := b.local + (if r.entry.LocalEntry? then [r.entry.local] else []),
       fed := b.fed + (if r.entry.FederatedEntry? then [r.entry.fed] else []),
       subject := r.subject,
       attribute := r.attribute)
  }

  function AddResolved(bs: seq<StepBuilder>, r: ResolvedRow): seq<StepBuilder> {
    var i := OrderIndex(bs, r.order);
    if i < |bs| then bs[i := Extend(bs[i], r)]
    else bs + [Extend(StepBuilder(r.order, [], [], false, false), r)]
  }

  function Collect(rr: seq<ResolvedRow>): seq<StepBuilder> {
    if rr == [] then []
    else AddResolved(Collect(rr[..|rr| - 1]), rr[|rr| - 1])
  }

  // The per-order view of the rows, against which the gathering is proved.

  /** The local authenticators of the rows of order `o`, in row order. */
  function LocalsAt(rr: seq<ResolvedRow>, o: int): seq<LocalAuthenticator> {
    if rr == [] then []
    else
      var r := rr[|rr| - 1];
      LocalsAt(rr[..|rr| - 1], o) + if r.order == o && r.entry.LocalEntry? then [r.entry.local] else []
  }

  /** The federated entries of the rows of order `o`, in row order. */
  function FedsAt(rr: seq<ResolvedRow>, o: int): seq<FedEntry> {
    if rr == [] then []
    else
      var r := rr[|rr| - 1];
      FedsAt(rr[..|rr| - 1], o) + if r.order == o && r.entry.FederatedEntry? then [r.entry.fed] else []
  }

  /** The last row of order `o`. */
  function LastAt(rr: seq<ResolvedRow>, o: int): Option<ResolvedRow> {
    if rr == [] then None
    else if rr[|rr| - 1].order == o then Some(rr[|rr| - 1])
    else LastAt(rr[..|rr| - 1], o)
  }

  /**
   * The gathered builders hold one builder per distinct order of the rows,
   * with that order's authenticators in row order and its last row's flags.
   */
  ghost predicate Describes(bs: seq<StepBuilder>, rr: seq<ResolvedRow>) {
    && (forall i, j :: 0 <= i < j < |bs| ==> bs[i].order != bs[j].order)
    && (forall o :: OrderIndex(bs, o) < |bs| <==> LastAt(rr, o).Some?)
    && (forall i :: 0 <= i < |bs| ==>
          && LastAt(rr, bs[i].order).Some?
          && bs[i] == StepBuilder(bs[i].order, LocalsAt(rr, bs[i].order), FedsAt(rr, bs[i].order),
                                  LastAt(rr, bs[i].order).value.subject, LastAt(rr, bs[i].order).value.attribute))
  }

  lemma SnocUnfold(rr: seq<ResolvedRow>, r: ResolvedRow, o: int)
    ensures LocalsAt(rr + [r], o) == LocalsAt(rr, o) + if r.order == o && r.entry.LocalEntry? then [r.entry.local] else []
    ensures FedsAt(rr + [r], o) == FedsAt(rr, o) + if r.order == o && r.entry.FederatedEntry? then [r.entry.fed] else []
    ensures LastAt(rr + [r], o) == if r.order == o then Some(r) else LastAt(rr, o)
  {
    assert (rr + [r])[..|rr|] == rr;
  }

  /** An order with no row has no authenticator. */
  lemma {:induction false} AbsentOrderEmpty(rr: seq<ResolvedRow>, o: int)
    requires LastAt(rr, o).None?
    ensures LocalsAt(rr, o) == [] && FedsAt(rr, o) == []
  {
    if rr != [] {
      AbsentOrderEmpty(rr[..|rr| - 1], o);
    }
  }

  /** The index of an order is the one position holding it, when orders are distinct. */
  lemma OrderIndexAt(bs: seq<StepBuilder>, i: int)
    requires forall i, j :: 0 <= i < j < |bs| ==> bs[i].order != bs[j].order
    requires 0 <= i < |bs|
    ensures OrderIndex(bs, bs[i].order) == i
  {
  }

  /** The orders after a row is added: still distinct, now also holding the row's order. */
  lemma AddResolvedOrders(bs: seq<StepBuilder>, rr: seq<ResolvedRow>, r: ResolvedRow)
    requires Describes(bs, rr)
    ensures var bs' := AddResolved(bs, r);
      && (forall i, j :: 0 <= i < j < |bs'| ==> bs'[i].order != bs'[j].order)
      && (forall o :: OrderIndex(bs', o) < |bs'| <==> LastAt(rr + [r], o).Some?)
  {
    var bs' := AddResolved(bs, r);
    var i := OrderIndex(bs, r.order);
    assert forall j :: 0 <= j < |bs'| && j != i ==> bs'[j] == bs[j];
    assert bs'[i].order == r.order;
    forall o
      ensures OrderIndex(bs', o) < |bs'| <==> LastAt(rr + [r], o).Some?
    {
      SnocUnfold(rr, r, o);
      if o != r.order {
        var k := OrderIndex(bs, o);
        if k < |bs| {
          assert bs'[k].order == o;
        } else {
          assert forall j :: 0 <= j < |bs'| ==> bs'[j].order != o;
        }
      }
    }
  }

  /** One builder after a row is added. */
  lemma AddResolvedAt(bs: seq<StepBuilder>, rr: seq<ResolvedRow>, r: ResolvedRow, j: int)
    requires Describes(bs, rr)
    requires 0 <= j < |AddResolved(bs, r)|
    ensures var b := AddResolved(bs, r)[j];
      && LastAt(rr + [r], b.order).Some?
      && b == StepBuilder(b.order, LocalsAt(rr + [r], b.order), FedsAt(rr + [r], b.order),
                          LastAt(rr + [r], b.order).value.subject, LastAt(rr + [r], b.order).value.attribute)
  {
    var bs' := AddResolved(bs, r);
    var i := OrderIndex(bs, r.order);
    var b := bs'[j];
    SnocUnfold(rr, r, b.order);
    if j == i {
      if i == |bs| {
        AbsentOrderEmpty(rr, r.order);
      }
    } else {
      assert b == bs[j];
    }
  }

  lemma AddResolvedSpec(bs: seq<StepBuilder>, rr: seq<ResolvedRow>, r: ResolvedRow)
    requires Describes(bs, rr)
    ensures Describes(AddResolved(bs, r), rr + [r])
  {
    AddResolvedOrders(bs, rr, r);
    forall j | 0 <= j < |AddResolved(bs, r)|
      ensures var b := AddResolved(bs, r)[j];
        && LastAt(rr + [r], b.order).Some?
        && b == StepBuilder(b.order, LocalsAt(rr + [r], b.order), FedsAt(rr + [r], b.order),
                            LastAt(rr + [r], b.order).value.subject, LastAt(rr + [r], b.order).value.attribute)
    {
      AddResolvedAt(bs, rr, r, j);
    }
  }

  lemma {:induction false} CollectSpec(rr: seq<ResolvedRow>)
    ensures Describes(Collect(rr), rr)
  {
    if rr != [] {
      var init := rr[..|rr| - 1];
      CollectSpec(init);
      AddResolvedSpec(Collect(init), init, rr[|rr| - 1]);
      assert init + [rr[|rr| - 1]] == rr;
    }
  }

  // Building the steps.

  /** The provider names of the entries, each once, in the order they first occur. */
  function IdpNames(fed: seq<FedEntry>): (names: seq<string>)
    ensures forall i, j :: 0 <= i < j < |names| ==> names[i] != names[j]
  {
    if fed == [] then []
    else
      var prev := IdpNames(fed[..|fed| - 1]);
      var n := fed[|fed| - 1].idpName;
      if n in prev then prev else prev + [n]
  }

  /** The authenticators filed under provider `n`, in row order. */
  function AuthenticatorsOf(fed: seq<FedEntry>, n: string): seq<FederatedAuthenticator> {
    if fed == [] then []
    else
      var e := fed[|fed| - 1];
      AuthenticatorsOf(fed[..|fed| - 1], n) + if e.idpName == n then [e.authenticator] else []
  }

  /** The names are exactly the providers of the entries. */
  lemma {:induction false} IdpNamesIff(fed: seq<FedEntry>, n: string)
    ensures n in IdpNames(fed) <==> exists i :: 0 <= i < |fed| && fed[i].idpName == n
  {
    if fed != [] {
      var init := fed[..|fed| - 1];
      IdpNamesIff(init, n);
      if exists i :: 0 <= i < |init| && init[i].idpName == n {
        var i :| 0 <= i < |init| && init[i].idpName == n;
        assert fed[i].idpName == n;
      }
      if i :| 0 <= i < |fed| && fed[i].idpName == n {
        if i < |init| {
          assert init[i].idpName == n;
        }
      }
    }
  }

  /** Every name has at least one authenticator. */
  lemma {:induction false} NamedHasAuthenticators(fed: seq<FedEntry>, n: string)
    requires n in IdpNames(fed)
    ensures AuthenticatorsOf(fed, n) != []
  {
    var init := fed[..|fed| - 1];
    if fed[|fed| - 1].idpName != n {
      NamedHasAuthenticators(init, n);
    }
  }

  /**
   * One provider per name, holding the authenticators filed under it, its
   * first authenticator as its default, and the hub flag the registry gives.
   */
  function Idps(fed: seq<FedEntry>, isHub: string -> bool): (ps: seq<IdentityProvider>)
    ensures |ps| == |IdpNames(fed)|
    ensures forall i :: 0 <= i < |ps| ==>
      && ps[i].name == IdpNames(fed)[i]
      && ps[i].authenticators == AuthenticatorsOf(fed, ps[i].name)
      && ps[i].authenticators != []
      && ps[i].defaultAuthenticator == Some(ps[i].authenticators[0])
      && ps[i].federationHub == isHub(ps[i].name)
  {
    var names := IdpNames(fed);
    seq(|names|, i requires 0 <= i < |names| => IdpOf(fed, names[i], isHub))
  }

  function IdpOf(fed: seq<FedEntry>, n: string, isHub: string -> bool): (p: IdentityProvider)
    requires n in IdpNames(fed)
    ensures p.name == n && p.authenticators == AuthenticatorsOf(fed, n) && p.authenticators != []
    ensures p.defaultAuthenticator == Some(p.authenticators[0]) && p.federationHub == isHub(n)
  {
    NamedHasAuthenticators(fed, n);
    var auths := AuthenticatorsOf(fed, n);
    IdentityProvider(n, auths, Some(auths[0]), isHub(n))
  }

  function BuildStep(b: StepBuilder, isHub: string -> bool): AuthStep {
    AuthStep(b.order, b.subject, b.attribute, b.local, Idps(b.fed, isHub))
  }

  function BuildSteps(bs: seq<StepBuilder>, isHub: string -> bool): (steps: seq<AuthStep>)
    ensures |steps| == |bs|
    ensures forall i :: 0 <= i < |bs| ==> steps[i] == BuildStep(bs[i], isHub)
  {
    seq(|bs|, i requires 0 <= i < |bs| => BuildStep(bs[i], isHub))
  }

  /** The steps of an application before they are sorted. */
  function UnsortedSteps(t: Tables, appId: int, tenant: int, isHub: string -> bool): seq<AuthStep> {
    BuildSteps(Collect(Resolve(t, tenant, JoinRows(t.steps, t.links, appId))), isHub)
  }

  // Sorting (`Arrays.sort` with a comparator on the step order).

  predicate SortedByOrder(steps: seq<AuthStep>) {
    forall i, j :: 0 <= i < j < |steps| ==> steps[i].order <= steps[j].order
  }

  /** `s` with the elements at `i` and `j` exchanged. */
  function Swap<T>(s: seq<T>, i: int, j: int): (r: seq<T>)
    requires 0 <= i < |s| && 0 <= j < |s|
    ensures |r| == |s| && r[i] == s[j] && r[j] == s[i]
    ensures forall k :: 0 <= k < |s| && k != i && k != j ==> r[k] == s[k]
  {
    s[i := s[j]][j := s[i]]
  }

  lemma SwapKeepsMultiset<T>(s: seq<T>, i: int, j: int)
    requires 0 <= i < j < |s|
    ensures multiset(Swap(s, i, j)) == multiset(s)
  {
    var t := Swap(s, i, j);
    assert s == s[..i] + [s[i]] + s[i + 1..j] + [s[j]] + s[j + 1..];
    assert t == s[..i] + [s[j]] + s[i + 1..j] + [s[i]] + s[j + 1..];
  }

  /**
   * While `s[j]` moves left: apart from position `j`, `s[..i + 1]` is sorted,
   * and everything to the right of `j` up to `i` has a larger order.
   */
  ghost predicate Inserting(s: seq<AuthStep>, i: int, j: int) {
    && 0 <= j <= i < |s|
    && (forall k, l :: 0 <= k < l <= i && k != j && l != j ==> s[k].order <= s[l].order)
    && (forall k :: j < k <= i ==> s[j].order < s[k].order)
  }

  lemma InsertingStep(s: seq<AuthStep>, i: int, j: int)
    requires Inserting(s, i, j) && j > 0 && s[j - 1].order > s[j].order
    ensures Inserting(Swap(s, j - 1, j), i, j - 1)
  {
  }

  lemma InsertingDone(s: seq<AuthStep>, i: int, j: int)
    requires Inserting(s, i, j) && (j == 0 || s[j - 1].order <= s[j].order)
    ensures SortedByOrder(s[..i + 1])
  {
  }

  /** Moves `a[i]` left into the sorted prefix `a[..i]`. */
  method InsertAt(a: array<AuthStep>, i: int)
    requires 0 <= i < a.Length
    requires SortedByOrder(a[..i])
    modifies a
    ensures SortedByOrder(a[..i + 1])
    ensures multiset(a[..]) == multiset(old(a[..]))
  {
    var j := i;
    assert Inserting(a[..], i, j);
    while j > 0 && CompareOrders(a[j - 1].order, a[j].order) > 0
      invariant 0 <= j <= i
      invariant multiset(a[..]) == multiset(old(a[..]))
      invariant Inserting(a[..], i, j)
    {
      ghost var before := a[..];
      a[j - 1], a[j] := a[j], a[j - 1];
      assert a[..] == Swap(before, j - 1, j);
      SwapKeepsMultiset(before, j - 1, j);
      InsertingStep(before, i, j);
      j := j - 1;
    }
    InsertingDone(a[..], i, j);
  }

  method SortByOrder(a: array<AuthStep>)
    modifies a
    ensures SortedByOrder(a[..])
    ensures multiset(a[..]) == multiset(old(a[..]))
  {
    var i := 0;
    while i < a.Length
      invariant 0 <= i <= a.Length
      invariant SortedByOrder(a[..i])
      invariant multiset(a[..]) == multiset(old(a[..]))
    {
      InsertAt(a, i);
      i := i + 1;
    }
    assert a[..a.Length] == a[..];
  }

  /** An element occurring at two positions occurs twice. */
  lemma CountTwo<T>(s: seq<T>, i: int, j: int)
    requires 0 <= i < j < |s| && s[i] == s[j]
    ensures multiset(s)[s[i]] >= 2
  {
    assert s == s[..j] + s[j..];
    assert s[i] in s[..j];
    assert s[j..][0] == s[j];
  }

  /** A sequence whose elements have distinct orders holds each element once. */
  lemma OnlyOnce(s: seq<AuthStep>, k: int)
    requires 0 <= k < |s|
    requires forall i, j :: 0 <= i < j < |s| ==> s[i].order != s[j].order
    ensures multiset(s)[s[k]] == 1
  {
    assert s == s[..k] + [s[k]] + s[k + 1..];
    assert forall x :: x in s[..k] ==> x.order != s[k].order;
    assert forall x :: x in s[k + 1..] ==> x.order != s[k].order;
  }

  /** A permutation of a sequence with distinct orders has distinct orders. */
  lemma PermutationKeepsDistinct(steps: seq<AuthStep>, built: seq<AuthStep>)
    requires multiset(steps) == multiset(built)
    requires forall i, j :: 0 <= i < j < |built| ==> built[i].order != built[j].order
    ensures forall i, j :: 0 <= i < j < |steps| ==> steps[i].order != steps[j].order
  {
    forall i, j | 0 <= i < j < |steps|
      ensures steps[i].order != steps[j].order
    {
      assert steps[i] in multiset(built) && steps[j] in multiset(built);
      var k :| 0 <= k < |built| && built[k] == steps[i];
      var l :| 0 <= l < |built| && built[l] == steps[j];
      if steps[i].order == steps[j].order {
        assert k == l;
        CountTwo(steps, i, j);
        OnlyOnce(built, k);
        assert false;
      }
    }
  }

  /** The orders of the permuted steps are the orders of the rows. */
  lemma PermutedOrders(rr: seq<ResolvedRow>, isHub: string -> bool, steps: seq<AuthStep>, o: int)
    requires Describes(Collect(rr), rr)
    requires multiset(steps) == multiset(BuildSteps(Collect(rr), isHub))
    ensures (exists i :: 0 <= i < |steps| && steps[i].order == o) <==> LastAt(rr, o).Some?
  {
    var bs := Collect(rr);
    var built := BuildSteps(bs, isHub);
    if LastAt(rr, o).Some? {
      var k := OrderIndex(bs, o);
      assert built[k] in multiset(steps);
      var i :| 0 <= i < |steps| && steps[i] == built[k];
      assert steps[i].order == o;
    }
    if i :| 0 <= i < |steps| && steps[i].order == o {
      assert steps[i] in multiset(built);
      var k :| 0 <= k < |built| && built[k] == steps[i];
      assert bs[k].order == o;
    }
  }

  /** Each permuted step is the step built from some builder of its order. */
  lemma PermutedBuilt(rr: seq<ResolvedRow>, isHub: string -> bool, steps: seq<AuthStep>, i: int)
    requires multiset(steps) == multiset(BuildSteps(Collect(rr), isHub))
    requires 0 <= i < |steps|
    ensures exists b :: b in Collect(rr) && b.order == steps[i].order && steps[i] == BuildStep(b, isHub)
  {
    var bs := Collect(rr);
    var built := BuildSteps(bs, isHub);
    assert steps[i] in multiset(built);
    var k :| 0 <= k < |built| && built[k] == steps[i];
    assert bs[k] in bs;
  }

  /**
   * The steps as they are read back: sorted strictly by order, one per
   * distinct order of the stored rows, each the step built from that
   * order's rows.
   */
  lemma SortedStepsShape(rr: seq<ResolvedRow>, isHub: string -> bool, steps: seq<AuthStep>)
    requires SortedByOrder(steps)
    requires multiset(steps) == multiset(BuildSteps(Collect(rr), isHub))
    ensures forall i, j :: 0 <= i < j < |steps| ==> steps[i].order < steps[j].order
    ensures forall o :: (exists i :: 0 <= i < |steps| && steps[i].order == o) <==> LastAt(rr, o).Some?
    ensures forall i :: 0 <= i < |steps| ==>
      exists b :: b in Collect(rr) && b.order == steps[i].order && steps[i] == BuildStep(b, isHub)
  {
    var built := BuildSteps(Collect(rr), isHub);
    CollectSpec(rr);
    BuiltDistinct(rr, isHub);
    PermutationKeepsDistinct(steps, built);
    forall o
      ensures (exists i :: 0 <= i < |steps| && steps[i].order == o) <==> LastAt(rr, o).Some?
    {
      PermutedOrders(rr, isHub, steps, o);
    }
    forall i | 0 <= i < |steps|
      ensures exists b :: b in Collect(rr) && b.order == steps[i].order && steps[i] == BuildStep(b, isHub)
    {
      PermutedBuilt(rr, isHub, steps, i);
    }
  }

  /** The built steps have pairwise distinct orders. */
  lemma BuiltDistinct(rr: seq<ResolvedRow>, isHub: string -> bool)
    ensures var built := BuildSteps(Collect(rr), isHub);
      forall i, j :: 0 <= i < j < |built| ==> built[i].order != built[j].order
  {
    var bs := Collect(rr);
    var built := BuildSteps(bs, isHub);
    CollectSpec(rr);
    assert forall i :: 0 <= i < |built| ==> built[i].order == bs[i].order;
  }

  // The comparator.

  predicate IsInt32(x: int) {
    -0x8000_0000 <= x < 0x8000_0000
  }

  /** Java `int` arithmetic: the result reduced into the 32-bit range. */
  function Wrap32(x: int): (r: int)
    ensures IsInt32(r)
    ensures IsInt32(x) ==> r == x
  {
    (x + 0x8000_0000) % 0x1_0000_0000 - 0x8000_0000
  }

  /** The comparator as written: the difference of the two step orders, in `int` arithmetic. */
  function CompareOrdersAsWritten(o1: int, o2: int): int
    requires IsInt32(o1) && IsInt32(o2)
  {
    Wrap32(o1 - o2)
  }

  /**
   * With orders -2147483648, 0 and 1 the written comparator says the first is
   * below the second and the second below the third, yet the first above the
   * third: the subtraction overflows, and the comparator is not an order.
   */
  lemma ComparatorOverflowExample()
    ensures CompareOrdersAsWritten(-0x8000_0000, 0) < 0
    ensures CompareOrdersAsWritten(0, 1) < 0
    ensures CompareOrdersAsWritten(-0x8000_0000, 1) > 0
  {
    assert Wrap32(-0x8000_0000 - 1) == 0x7FFF_FFFF;
  }

  /** The comparator the sort is meant to use: the sign of the comparison of the two orders. */
  function CompareOrders(o1: int, o2: int): (c: int)
    ensures c < 0 <==> o1 < o2
    ensures c > 0 <==> o1 > o2
  {
    if o1 < o2 then -1 else if o1 > o2 then 1 else 0
  }

  /** This comparator is consistent: antisymmetric and transitive. */
  lemma CompareOrdersIsOrder(o1: int, o2: int, o3: int)
    ensures CompareOrders(o1, o2) < 0 <==> CompareOrders(o2, o1) > 0
    ensures CompareOrders(o1, o2) < 0 && CompareOrders(o2, o3) < 0 ==> CompareOrders(o1, o3) < 0
  {
  }

  /** On orders whose difference fits in an `int` the two comparators agree. */
  lemma ComparatorsAgreeWithoutOverflow(o1: int, o2: int)
    requires IsInt32(o1) && IsInt32(o2) && IsInt32(o1 - o2)
    ensures CompareOrdersAsWritten(o1, o2) < 0 <==> CompareOrders(o1, o2) < 0
    ensures CompareOrdersAsWritten(o1, o2) > 0 <==> CompareOrders(o1, o2) > 0
  {
  }

  // The sorted steps as a function.

  /** Inserts `x` after every step whose order is not larger. */
  function InsertStep(s: seq<AuthStep>, x: AuthStep): (r: seq<AuthStep>)
    ensures multiset(r) == multiset(s) + multiset{x}
  {
    if s == [] then [x]
    else
      var last := s[|s| - 1];
      var init := s[..|s| - 1];
      assert s == init + [last];
      if last.order <= x.order then s + [x] else InsertStep(init, x) + [last]
  }

  function SortSteps(s: seq<AuthStep>): (r: seq<AuthStep>)
    ensures multiset(r) == multiset(s)
  {
    if s == [] then []
    else
      assert s == s[..|s| - 1] + [s[|s| - 1]];
      InsertStep(SortSteps(s[..|s| - 1]), s[|s| - 1])
  }

  lemma {:induction false} InsertStepSorted(s: seq<AuthStep>, x: AuthStep)
    requires SortedByOrder(s)
    ensures SortedByOrder(InsertStep(s, x))
  {
    if s != [] {
      var last := s[|s| - 1];
      var init := s[..|s| - 1];
      if last.order > x.order {
        InsertStepSorted(init, x);
        var r := InsertStep(init, x);
        forall y | y in r
          ensures y.order <= last.order
        {
          assert y in multiset(init) + multiset{x};
          if y != x {
            assert y in init;
          }
        }
      }
    }
  }

  lemma {:induction false} SortStepsSorted(s: seq<AuthStep>)
    ensures SortedByOrder(SortSteps(s))
  {
    if s != [] {
      SortStepsSorted(s[..|s| - 1]);
      InsertStepSorted(SortSteps(s[..|s| - 1]), s[|s| - 1]);
    }
  }

  /** Two sorted arrangements of the same steps with distinct orders start with the same step. */
  lemma SortedSameHead(a: seq<AuthStep>, b: seq<AuthStep>)
    requires a != [] && SortedByOrder(a) && SortedByOrder(b) && multiset(a) == multiset(b)
    requires forall i, j :: 0 <= i < j < |a| ==> a[i].order != a[j].order
    ensures b != [] && a[0] == b[0]
  {
    assert a[0] in multiset(b);
    assert b[0] in multiset(a);
    var k :| 0 <= k < |a| && a[k] == b[0];
    var m :| 0 <= m < |b| && b[m] == a[0];
    assert a[0].order <= a[k].order;
    assert b[0].order <= b[m].order;
    assert k == 0;
  }

  /** Removing the same first element from two equal multisets leaves equal multisets. */
  lemma SameTail<T>(a: seq<T>, b: seq<T>)
    requires a != [] && b != [] && a[0] == b[0] && multiset(a) == multiset(b)
    ensures multiset(a[1..]) == multiset(b[1..])
  {
    assert a == [a[0]] + a[1..];
    assert b == [b[0]] + b[1..];
    assert multiset(a) == multiset{a[0]} + multiset(a[1..]);
    assert multiset(b) == multiset{a[0]} + multiset(b[1..]);
    assert multiset(a[1..]) == multiset(a) - multiset{a[0]};
  }

  /** Two sorted arrangements of the same steps with distinct orders are the same sequence. */
  lemma {:induction false} SortedUnique(a: seq<AuthStep>, b: seq<AuthStep>)
    requires SortedByOrder(a) && SortedByOrder(b) && multiset(a) == multiset(b)
    requires forall i, j :: 0 <= i < j < |a| ==> a[i].order != a[j].order
    ensures a == b
  {
    if a == [] {
      assert |b| == |multiset(b)| == 0;
    } else {
      SortedSameHead(a, b);
      SameTail(a, b);
      var a', b' := a[1..], b[1..];
      assert forall i, j :: 0 <= i < j < |a'| ==> a'[i].order != a'[j].order by {
        assert forall i :: 0 <= i < |a'| ==> a'[i] == a[i + 1];
      }
      SortedUnique(a', b');
      assert a == [a[0]] + a' && b == [b[0]] + b';
    }
  }

  /** The steps `getLocalAndOutboundAuthenticationConfig` returns. */
  function ReadSteps(t: Tables, appId: int, tenant: int, isHub: string -> bool): seq<AuthStep> {
    SortSteps(UnsortedSteps(t, appId, tenant, isHub))
  }

  /** The steps read back: one per distinct stored order, strictly ascending, each built from its order's rows. */
  lemma ReadStepsShape(t: Tables, appId: int, tenant: int, isHub: string -> bool)
    ensures var rr := Resolve(t, tenant, JoinRows(t.steps, t.links, appId));
      var steps := ReadSteps(t, appId, tenant, isHub);
      && (forall i, j :: 0 <= i < j < |steps| ==> steps[i].order < steps[j].order)
      && (forall o :: (exists i :: 0 <= i < |steps| && steps[i].order == o) <==> LastAt(rr, o).Some?)
      && (forall i :: 0 <= i < |steps| ==>
            exists b :: b in Collect(rr) && b.order == steps[i].order && steps[i] == BuildStep(b, isHub))
  {
    var rr := Resolve(t, tenant, JoinRows(t.steps, t.links, appId));
    SortStepsSorted(UnsortedSteps(t, appId, tenant, isHub));
    SortedStepsShape(rr, isHub, ReadSteps(t, appId, tenant, isHub));
  }

  /** The reader's loop: the built steps copied into an array and sorted in place. */
  method LoadSteps(t: Tables, appId: int, tenant: int, isHub: string -> bool) returns (steps: seq<AuthStep>)
    ensures steps == ReadSteps(t, appId, tenant, isHub)
  {
    var built := UnsortedSteps(t, appId, tenant, isHub);
    var a := new AuthStep[|built|](i requires 0 <= i < |built| => built[i]);
    assert a[..] == built;
    SortByOrder(a);
    steps := a[..];
    var rr := Resolve(t, tenant, JoinRows(t.steps, t.links, appId));
    BuiltDistinct(rr, isHub);
    assert built == BuildSteps(Collect(rr), isHub);
    PermutationKeepsDistinct(steps, built);
    SortStepsSorted(built);
    SortedUnique(steps, SortSteps(built));
  }
}
