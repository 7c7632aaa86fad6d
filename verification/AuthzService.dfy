/**
  Deciding many datapoints at once (obs/api/authz_service.py): grants are loaded with
  their ancestors, datapoints resolve to the hierarchy nodes they are linked to, and the
  batch filter decides each of them exactly as if it had been asked about alone.
 */
module AuthzService {
  import opened Authz
  import opened Enumeration
  import opened Hierarchy
  import opened Wrappers

  const DATAPOINT := "datapoint"
  const VISU_PAGE := "visu_page"

  datatype Link = Link(datapoint: string, node: string)

  datatype GrantRow = GrantRow(kind: PrincipalType, principal: string, nodeType: string, nodeId: string, role: Role,
      allow: bool, central: bool)

  /** The tables read here, rows in the order the queries ask for. */
  datatype Db = Db(nodes: Parents, pages: Parents, datapoints: map<string, ControlClass>, links: seq<Link>,
      roles: seq<GrantRow>)

  // ---- lists without repetition ------------------------------------------------------------------------

  /** Each value once, where it first occurs. */
  function Distinct(values: seq<string>): (r: seq<string>)
    ensures forall v :: v in r <==> v in values
    ensures forall i, j :: 0 <= i < j < |r| ==> r[i] != r[j]
  {
    if values == [] then []
    else
      var before := Distinct(values[..|values| - 1]);
      assert values == values[..|values| - 1] + [values[|values| - 1]];
      if values[|values| - 1] in before then before else before + [values[|values| - 1]]
  }

  method Unique(values: seq<string>) returns (result: seq<string>)
    ensures result == Distinct(values)
  {
    var seen: set<string> := {};
    result := [];
    for i := 0 to |values|
      invariant result == Distinct(values[..i]) && seen == set v | v in result
    {
      assert values[..i + 1][..i] == values[..i];
      if values[i] !in seen {
        seen := seen + {values[i]};
        result := result + [values[i]];
      }
    }
    assert values[..|values|] == values;
  }

  /** The order of first occurrences is kept: of two results, the earlier one occurs before the other's first. */
  lemma {:induction false} DistinctKeepsOrder(values: seq<string>, i: nat, j: nat, k: nat)
    requires i < j < |Distinct(values)| && k < |values| && values[k] == Distinct(values)[j]
    ensures Distinct(values)[i] in values[..k]
  {
    var (n, before) := (|values| - 1, Distinct(values[..|values| - 1]));
    if k < n {
      assert values[..n][k] == values[k] && values[k] in before;
      DistinctKeepsOrder(values[..n], i, j, k);
      assert values[..n][..k] == values[..k];
    } else {
      assert Distinct(values)[i] == before[i] && before[i] in values[..n];
    }
  }

  // ---- loading grants --------------------------------------------------------------------------------------

  function PrincipalIds(p: Principal): seq<string> {
    if p.kind == ApiKey && KEY_PREFIX <= p.subject then [p.subject[|KEY_PREFIX|..], p.subject] else [p.subject]
  }

  function AncestorsIn(tree: Parents, id: string): seq<string> {
    if id in tree then AncestorsOf(tree, id) else []
  }

  function Materialized(db: Db, row: GrantRow): (g: Grant)
    ensures g.nodeType == HIERARCHY ==> Loaded(g, db.nodes)
  {
    var ancestors :=
      if row.nodeType == HIERARCHY then AncestorsIn(db.nodes, row.nodeId)
      else if row.nodeType == VISU_PAGE then AncestorsIn(db.pages, row.nodeId)
      else [];
    Grant(row.kind, row.principal, row.nodeType, row.nodeId, row.role, row.allow, row.central, ancestors)
  }

  /** A loaded grant is its row; a node or a page brings exactly the nodes that are above it in its own tree. */
  lemma LoadedGrantExactly(db: Db, row: GrantRow, x: string)
    ensures var g := Materialized(db, row);
            && g.kind == row.kind && g.principal == row.principal && g.role == row.role
            && g.nodeType == row.nodeType && g.nodeId == row.nodeId && g.allow == row.allow && g.central == row.central
            && (x in g.Path()
                <==> || x == row.nodeId
                     || (row.nodeType == "hierarchy" && row.nodeId in db.nodes && Reaches(db.nodes, row.nodeId, x))
                     || (row.nodeType == "visu_page" && row.nodeId in db.pages && Reaches(db.pages, row.nodeId, x)))
  {
    if row.nodeType == "hierarchy" && row.nodeId in db.nodes {
      PathIsReachability(db.nodes, row.nodeId, x);
    }
    if row.nodeType == "visu_page" && row.nodeId in db.pages {
      PathIsReachability(db.pages, row.nodeId, x);
    }
  }

  predicate Fetched(row: GrantRow, p: Principal, nodeType: Option<string>) {
    row.kind == p.kind && row.principal in PrincipalIds(p) && (nodeType.Some? ==> row.nodeType == nodeType.value)
  }

  function GrantsOf(db: Db, rows: seq<GrantRow>, p: Principal, nodeType: Option<string>): seq<Grant> {
    if rows == [] then []
    else
      var before := GrantsOf(db, rows[..|rows| - 1], p, nodeType);
      var row := rows[|rows| - 1];
      if Fetched(row, p, nodeType) then before + [Materialized(db, row)] else before
  }

  method LoadRoleGrants(db: Db, p: Principal, nodeType: Option<string>) returns (grants: seq<Grant>)
    ensures grants == GrantsOf(db, db.roles, p, nodeType)
  {
    grants := [];
    for i := 0 to |db.roles|
      invariant grants == GrantsOf(db, db.roles[..i], p, nodeType)
    {
      var row := db.roles[i];
      assert db.roles[..i + 1][..i] == db.roles[..i];
      if Fetched(row, p, nodeType) {
        grants := grants + [Materialized(db, row)];
      }
    }
    assert db.roles[..|db.roles|] == db.roles;
  }

  lemma {:induction false} GrantsOfMembers(
    db: Db, rows: seq<GrantRow>, p: Principal, nodeType: Option<string>, g: Grant)
    ensures g in GrantsOf(db, rows, p, nodeType)
        <==> exists row :: row in rows && Fetched(row, p, nodeType) && g == Materialized(db, row)
  {
    if rows != [] {
      GrantsOfMembers(db, rows[..|rows| - 1], p, nodeType, g);
      assert rows == rows[..|rows| - 1] + [rows[|rows| - 1]];
    }
  }

  function AllGrants(db: Db): seq<Grant> {
    seq(|db.roles|, i requires 0 <= i < |db.roles| => Materialized(db, db.roles[i]))
  }

  /**
    The query decides nothing: on the loaded rows, even when only one type of node was
    asked for, the policy decides such targets as on the whole table.
   */
  lemma LoadingLosesNothing(db: Db, p: Principal, nodeType: Option<string>, action: Action, targets: seq<Target>)
    requires nodeType.Some? ==> forall t :: t in targets ==> t.nodeType == nodeType.value
    ensures Authorize(p, action, targets, GrantsOf(db, db.roles, p, nodeType)).allowed
            <==> Authorize(p, action, targets, AllGrants(db)).allowed
  {
    var (loaded, all) := (GrantsOf(db, db.roles, p, nodeType), AllGrants(db));
    AllowedExactly(p, action, targets, loaded);
    AllowedExactly(p, action, targets, all);
    forall g ensures g in loaded
        <==> g in all && MatchesPrincipal(p, g) && (nodeType.Some? ==> g.nodeType == nodeType.value) {
      LoadedMembers(db, p, nodeType, g);
    }
    assert forall t :: t in targets ==> (Denied(p, action, t, loaded) <==> Denied(p, action, t, all));
    assert forall t :: t in targets ==> (Permitted(p, action, t, loaded) <==> Permitted(p, action, t, all));
  }

  lemma LoadedMembers(db: Db, p: Principal, nodeType: Option<string>, g: Grant)
    ensures g in GrantsOf(db, db.roles, p, nodeType)
            <==> g in AllGrants(db) && MatchesPrincipal(p, g) && (nodeType.Some? ==> g.nodeType == nodeType.value)
  {
    GrantsOfMembers(db, db.roles, p, nodeType, g);
    var all := AllGrants(db);
    forall row | row in db.roles ensures Materialized(db, row) in all && (Fetched(row, p, nodeType)
        <==> MatchesPrincipal(p, Materialized(db, row)) && (nodeType.Some? ==> row.nodeType == nodeType.value)) {
      var i :| 0 <= i < |db.roles| && db.roles[i] == row;
      assert all[i] == Materialized(db, row);
    }
    if g in all {
      var i :| 0 <= i < |all| && all[i] == g;
      assert db.roles[i] in db.roles && g == Materialized(db, db.roles[i]);
    }
  }

  // ---- datapoints to targets -----------------------------------------------------------------------------------

  function Direct(dp: string, control: ControlClass): Target {
    Target(DATAPOINT, dp, [], None, control)
  }

  /** The nodes a datapoint is linked to by the first links, carrying its control class. */
  function LinkedTargets(db: Db, dp: string, links: seq<Link>): (r: seq<Target>)
    ensures forall t :: t in r ==> t.nodeType == HIERARCHY && t.minRole.None? && t.nodeId in db.nodes
  {
    if links == [] then []
    else
      var before := LinkedTargets(db, dp, links[..|links| - 1]);
      var row := links[|links| - 1];
      if row.datapoint == dp && row.node in db.nodes && dp in db.datapoints
      then before + [TargetOf(db.nodes, row.node, HIERARCHY, db.datapoints[dp])]
      else before
  }

  function TargetsOf(db: Db, dp: string): (r: seq<Target>)
    ensures forall t :: t in r ==> t.minRole.None?
  {
    var linked := LinkedTargets(db, dp, db.links);
    if dp in db.datapoints && linked == [] then [Direct(dp, db.datapoints[dp])] else linked
  }

  method CollectLinks(db: Db, ordered: seq<string>) returns (byId: map<string, seq<Target>>)
    ensures forall id :: id in byId <==> id in ordered
    ensures forall id :: id in ordered ==> byId[id] == LinkedTargets(db, id, db.links)
  {
    byId := map id | id in ordered :: [];
    for i := 0 to |db.links|
      invariant forall id :: id in byId <==> id in ordered
      invariant forall id :: id in ordered ==> byId[id] == LinkedTargets(db, id, db.links[..i])
    {
      var row := db.links[i];
      assert db.links[..i + 1][..i] == db.links[..i];
      if row.datapoint in ordered && row.node in db.nodes && row.datapoint in db.datapoints {
        var target := TargetOf(db.nodes, row.node, HIERARCHY, db.datapoints[row.datapoint]);
        byId := byId[row.datapoint := byId[row.datapoint] + [target]];
      }
    }
    assert db.links[..|db.links|] == db.links;
  }

  method AddUnlinked(
    db: Db, ordered: seq<string>, linked: map<string, seq<Target>>) returns (byId: map<string, seq<Target>>)
    requires forall id :: id in linked <==> id in ordered
    ensures byId.Keys == linked.Keys
    ensures forall id :: id in linked ==>
              byId[id] == if id in db.datapoints && linked[id] == [] then [Direct(id, db.datapoints[id])]
                  else linked[id]
  {
    byId := linked;
    for i := 0 to |ordered|
      invariant byId.Keys == linked.Keys
      invariant forall id :: id in linked ==>
                  byId[id] == if id in ordered[..i] && id in db.datapoints && linked[id] == []
                      then [Direct(id, db.datapoints[id])] else linked[id]
    {
      var id := ordered[i];
      assert ordered[..i + 1] == ordered[..i] + [id];
      if id in db.datapoints && byId[id] == [] {
        byId := byId[id := byId[id] + [Direct(id, db.datapoints[id])]];
      }
    }
  }

  method ResolveDatapointTargets(db: Db, ids: seq<string>) returns (byId: map<string, seq<Target>>)
    ensures forall id :: id in byId <==> id in ids
    ensures forall id :: id in ids ==> byId[id] == TargetsOf(db, id)
  {
    var ordered := Unique(ids);
    byId := CollectLinks(db, ordered);
    byId := AddUnlinked(db, ordered, byId);
  }

  // ---- the batch filter ---------------------------------------------------------------------------------------

  /** Grants at a target or above it; a reading grant strictly below all targets is dropped. */
  function ReadGrants(grants: seq<Grant>, targets: seq<Target>): (r: seq<Grant>)
    ensures forall g ::
        g in r <==> g in grants && exists t :: t in targets && g.nodeType == t.nodeType && g.nodeId in t.Path()
  {
    if grants == [] then []
    else
      (if exists t :: t in targets && grants[0].nodeType == t.nodeType && grants[0].nodeId in t.Path()
          then [grants[0]] else [])
      + ReadGrants(grants[1..], targets)
  }

  predicate HasDirect(grants: seq<Grant>, dp: string) {
    exists g :: g in grants && g.nodeType == DATAPOINT && g.nodeId == dp
  }

  function ControlOf(targets: seq<Target>): ControlClass {
    if targets == [] then RoomLocal else targets[0].control
  }

  predicate NamesItself(targets: seq<Target>, dp: string) {
    exists t :: t in targets && t.nodeType == DATAPOINT && t.nodeId == dp
  }

  function WithDirect(targets: seq<Target>, dp: string): seq<Target> {
    if NamesItself(targets, dp) then targets else targets + [Direct(dp, ControlOf(targets))]
  }

  function DecidedTargets(db: Db, action: Action, dp: string, grants: seq<Grant>): seq<Target> {
    if action == Read && HasDirect(grants, dp) then WithDirect(TargetsOf(db, dp), dp) else TargetsOf(db, dp)
  }

  /** The decision about one datapoint, its targets at hand. */
  predicate Decided(p: Principal, action: Action, dp: string, targets: seq<Target>, grants: seq<Grant>) {
    var decision := Authorize(p, action, targets, if action == Read then ReadGrants(grants, targets) else grants);
    if action != Read && HasDirect(grants, dp) then
      var direct := Authorize(p, action, [Direct(dp, ControlOf(targets))], grants);
      decision.reason != ExplicitDeny && direct.reason != ExplicitDeny && (decision.allowed || direct.allowed)
    else decision.allowed
  }

  predicate Accessible(db: Db, p: Principal, action: Action, dp: string, grants: seq<Grant>) {
    Decided(p, action, dp, DecidedTargets(db, action, dp, grants), grants)
  }

  function AccessibleOf(db: Db, p: Principal, action: Action, ids: seq<string>, grants: seq<Grant>): (r: seq<string>)
    ensures forall id :: id in r <==> id in ids && Accessible(db, p, action, id, grants)
  {
    if ids == [] then []
    else
      var before := AccessibleOf(db, p, action, ids[..|ids| - 1], grants);
      assert ids == ids[..|ids| - 1] + [ids[|ids| - 1]];
      if Accessible(db, p, action, ids[|ids| - 1], grants) then before + [ids[|ids| - 1]] else before
  }

  method AddDirectTargets(byId: map<string, seq<Target>>, directIds: set<string>) returns (r: map<string, seq<Target>>)
    requires forall id :: id in directIds ==> id in byId
    ensures r.Keys == byId.Keys
    ensures forall id :: id in byId ==> r[id] == if id in directIds then WithDirect(byId[id], id) else byId[id]
  {
    r := byId;
    var order := Sorted(directIds);
    for i := 0 to |order|
      invariant r.Keys == byId.Keys
      invariant forall k :: 0 <= k < i ==> r[order[k]] == WithDirect(byId[order[k]], order[k])
      invariant forall id :: id in byId && id !in order[..i] ==> r[id] == byId[id]
    {
      var dp := order[i];
      assert order[..i + 1] == order[..i] + [dp];
      assert dp in directIds && dp !in order[..i];
      if !NamesItself(r[dp], dp) {
        r := r[dp := r[dp] + [Direct(dp, ControlOf(r[dp]))]];
      }
    }
    assert order[..|order|] == order;
  }

  method Decide(
    p: Principal, action: Action, dp: string, targets: seq<Target>, grants: seq<Grant>, hasDirect: bool)
    returns (allowed: bool)
    requires hasDirect == HasDirect(grants, dp)
    ensures allowed == Decided(p, action, dp, targets, grants)
  {
    var decision := Authorize(p, action, targets, if action == Read then ReadGrants(grants, targets) else grants);
    if action != Read && hasDirect {
      var direct := Authorize(p, action, [Direct(dp, ControlOf(targets))], grants);
      if decision.reason == ExplicitDeny || direct.reason == ExplicitDeny {
        return false;
      }
      return decision.allowed || direct.allowed;
    }
    return decision.allowed;
  }

  function DirectIds(grants: seq<Grant>, ordered: seq<string>): (r: set<string>)
    ensures forall id :: id in r <==> id in ordered && HasDirect(grants, id)
  {
    set g | g in grants && g.nodeType == DATAPOINT && g.nodeId in ordered :: g.nodeId
  }

  method DecideEach(
    db: Db, p: Principal, action: Action, ordered: seq<string>, byId: map<string, seq<Target>>, directIds: set<string>,
    grants: seq<Grant>)
    returns (allowed: seq<string>)
    requires forall id :: id in ordered ==> id in byId && byId[id] == DecidedTargets(db, action, id, grants)
    requires directIds == DirectIds(grants, ordered)
    ensures allowed == AccessibleOf(db, p, action, ordered, grants)
  {
    allowed := [];
    for i := 0 to |ordered|
      invariant allowed == AccessibleOf(db, p, action, ordered[..i], grants)
    {
      var dp := ordered[i];
      assert ordered[..i + 1][..i] == ordered[..i];
      var accepted := Decide(p, action, dp, byId[dp], grants, dp in directIds);
      assert accepted == Accessible(db, p, action, dp, grants);
      if accepted {
        allowed := allowed + [dp];
      }
    }
    assert ordered[..|ordered|] == ordered;
  }

  method FilterAuthorizedDatapoints(db: Db, p: Principal, ids: seq<string>, action: Action, given: Option<seq<Grant>>)
    returns (allowed: seq<string>)
    ensures allowed == AccessibleOf(db, p, action, Distinct(ids), given.GetOr(GrantsOf(db, db.roles, p, None)))
  {
    var ordered := Unique(ids);
    var grants;
    if given.Some? { grants := given.value; } else { grants := LoadRoleGrants(db, p, None); }
    var byId := ResolveDatapointTargets(db, ordered);
    var directIds := DirectIds(grants, ordered);
    if action == Read {
      byId := AddDirectTargets(byId, directIds);
    }
    allowed := DecideEach(db, p, action, ordered, byId, directIds, grants);
  }

  function Alone(db: Db, p: Principal, action: Action, id: string, grants: seq<Grant>): seq<string> {
    AccessibleOf(db, p, action, Distinct([id]), grants)
  }

  lemma AloneIsAllOrNothing(db: Db, p: Principal, action: Action, id: string, grants: seq<Grant>)
    ensures Alone(db, p, action, id, grants) == if Accessible(db, p, action, id, grants) then [id] else []
  {
    assert [id][..0] == [];
    assert Distinct([id]) == Distinct([]) + [id] == [id];
    assert AccessibleOf(db, p, action, [], grants) == [];
  }

  /** Asking for many is asking for each alone: the answer is the input, in order, less what is refused alone. */
  lemma {:induction false} BatchIsPointwise(db: Db, p: Principal, action: Action, ids: seq<string>, grants: seq<Grant>)
    ensures AccessibleOf(db, p, action, ids, grants) == Concatenated(ids, id => Alone(db, p, action, id, grants))
  {
    if ids != [] {
      BatchIsPointwise(db, p, action, ids[..|ids| - 1], grants);
      AloneIsAllOrNothing(db, p, action, ids[|ids| - 1], grants);
    }
  }

  function Concatenated(ids: seq<string>, f: string -> seq<string>): seq<string> {
    if ids == [] then [] else Concatenated(ids[..|ids| - 1], f) + f(ids[|ids| - 1])
  }

  // ---- who gets through ------------------------------------------------------------------------------------------

  predicate IsAdministrator(p: Principal) {
    p.kind == User && p.isAdmin
  }

  /** A grant of this principal at the target or above it. */
  predicate OnPath(p: Principal, g: Grant, t: Target) {
    MatchesPrincipal(p, g) && g.nodeType == t.nodeType && g.nodeId in t.Path()
  }

  lemma DenyIsTheReason(p: Principal, action: Action, targets: seq<Target>, grants: seq<Grant>)
    requires !IsAdministrator(p)
    ensures Authorize(p, action, targets, grants).reason == ExplicitDeny
        <==> exists t :: t in targets && Denied(p, action, t, grants)
  {
    forall t ensures AuthorizeTarget(action, t, Matching(p, grants)).reason == ExplicitDeny
        <==> Denied(p, action, t, grants) {
      TargetDecision(p, action, t, grants);
    }
  }

  lemma KeptGrantsOnPath(p: Principal, t: Target, targets: seq<Target>, grants: seq<Grant>)
    requires t in targets && t.minRole.None?
    ensures Denied(p, Read, t, ReadGrants(grants, targets)) <==> exists g :: g in grants && OnPath(p, g, t) && !g.allow
    ensures (exists g :: g in grants && OnPath(p, g, t) && g.allow) ==>
        Permitted(p, Read, t, ReadGrants(grants, targets))
    ensures Permitted(p, Read, t, ReadGrants(grants, targets)) ==>
        exists u, g :: u in targets && g in grants && OnPath(p, g, u) && g.allow
  {
    var kept := ReadGrants(grants, targets);
    if g :| g in grants && OnPath(p, g, t) && !g.allow {
      assert g in kept && GrantApplies(Read, g, t);
    }
    if g :| g in grants && OnPath(p, g, t) && g.allow {
      assert g in kept && GrantApplies(Read, g, t) && GrantAllows(g, Read, t);
    }
    if Permitted(p, Read, t, kept) {
      var g :| g in kept && MatchesPrincipal(p, g) && g.allow && GrantApplies(Read, g, t) && GrantAllows(g, Read, t);
      var u :| u in targets && g.nodeType == u.nodeType && g.nodeId in u.Path();
      assert OnPath(p, g, u);
    }
  }

  /**
    Reading a datapoint takes an allow at or above one of its nodes, never one strictly
    below, and no deny at or above any of them.
   */
  lemma ReadExactly(db: Db, p: Principal, dp: string, grants: seq<Grant>)
    requires !IsAdministrator(p)
    ensures var targets := DecidedTargets(db, Read, dp, grants);
            Accessible(db, p, Read, dp, grants)
            <==> && (forall t, g :: t in targets && g in grants && OnPath(p, g, t) ==> g.allow)
                 && exists t, g :: t in targets && g in grants && OnPath(p, g, t) && g.allow
  {
    var targets := DecidedTargets(db, Read, dp, grants);
    ReadOnTargets(p, targets, grants);
  }

  lemma ReadOnTargets(p: Principal, targets: seq<Target>, grants: seq<Grant>)
    requires !IsAdministrator(p) && forall t :: t in targets ==> t.minRole.None?
    ensures Authorize(p, Read, targets, ReadGrants(grants, targets)).allowed
            <==> && (forall t, g :: t in targets && g in grants && OnPath(p, g, t) ==> g.allow)
                 && exists t, g :: t in targets && g in grants && OnPath(p, g, t) && g.allow
  {
    AllowedExactly(p, Read, targets, ReadGrants(grants, targets));
    forall t | t in targets
      ensures Denied(p, Read, t, ReadGrants(grants, targets))
          <==> exists g :: g in grants && OnPath(p, g, t) && !g.allow
      ensures (exists g :: g in grants && OnPath(p, g, t) && g.allow) ==>
          Permitted(p, Read, t, ReadGrants(grants, targets))
      ensures Permitted(p, Read, t, ReadGrants(grants, targets)) ==>
          exists u, g :: u in targets && g in grants && OnPath(p, g, u) && g.allow
    {
      KeptGrantsOnPath(p, t, targets, grants);
    }
  }

  /**
    Anything else takes no deny on a linked node or on the datapoint itself, and either
    every linked node or the datapoint itself allowing it.
   */
  lemma WriteExactly(db: Db, p: Principal, action: Action, dp: string, grants: seq<Grant>)
    requires !IsAdministrator(p) && action != Read
    ensures var targets := TargetsOf(db, dp);
            var itself := Direct(dp, ControlOf(targets));
            Accessible(db, p, action, dp, grants)
            <==> && (forall t :: t in targets ==> !Denied(p, action, t, grants))
                 && !Denied(p, action, itself, grants)
                 && ((targets != [] && forall t :: t in targets ==> Permitted(p, action, t, grants))
                     || Permitted(p, action, itself, grants))
  {
    var targets := TargetsOf(db, dp);
    var itself := Direct(dp, ControlOf(targets));
    AllowedExactly(p, action, targets, grants);
    AllowedExactly(p, action, [itself], grants);
    DenyIsTheReason(p, action, targets, grants);
    DenyIsTheReason(p, action, [itself], grants);
    assert itself in [itself] && forall t :: t in [itself] ==> t == itself;
    assert Denied(p, action, itself, grants) || Permitted(p, action, itself, grants) ==> HasDirect(grants, dp);
  }

  // ---- in terms of the tables -----------------------------------------------------------------------------------

  predicate Linked(db: Db, dp: string, node: string) {
    Link(dp, node) in db.links && node in db.nodes && dp in db.datapoints
  }

  lemma {:induction false} LinkedExactly(db: Db, dp: string, links: seq<Link>, t: Target)
    ensures t in LinkedTargets(db, dp, links)
            <==> && dp in db.datapoints && t.nodeId in db.nodes && Link(dp, t.nodeId) in links
                 && t == Target("hierarchy", t.nodeId, AncestorsOf(db.nodes, t.nodeId), None, db.datapoints[dp])
  {
    if links != [] {
      var row := links[|links| - 1];
      LinkedExactly(db, dp, links[..|links| - 1], t);
      assert links == links[..|links| - 1] + [row];
    }
  }

  /** A datapoint's targets: the nodes it is linked to, in its control class, or itself if there is none. */
  lemma TargetsExactly(db: Db, dp: string, t: Target)
    ensures t in TargetsOf(db, dp)
            <==> || (Linked(db, dp, t.nodeId)
                     && t == Target("hierarchy", t.nodeId, AncestorsOf(db.nodes, t.nodeId), None, db.datapoints[dp]))
                 || (dp in db.datapoints && (forall node :: !Linked(db, dp, node))
                     && t == Target("datapoint", dp, [], None, db.datapoints[dp]))
  {
    LinkedExactly(db, dp, db.links, t);
    Unlinked(db, dp);
  }

  lemma Unlinked(db: Db, dp: string)
    ensures LinkedTargets(db, dp, db.links) == [] <==> forall node :: !Linked(db, dp, node)
  {
    var linked := LinkedTargets(db, dp, db.links);
    if linked != [] {
      LinkedExactly(db, dp, db.links, linked[0]);
      assert linked[0] in linked && Linked(db, dp, linked[0].nodeId);
    }
    forall node | Linked(db, dp, node) ensures linked != [] {
      var u := Target("hierarchy", node, AncestorsOf(db.nodes, node), None, db.datapoints[dp]);
      LinkedExactly(db, dp, db.links, u);
      assert u in linked;
    }
  }

  /** Writing asks for the control class of the datapoint; an unknown one counts as local to its room. */
  lemma ControlExactly(db: Db, dp: string)
    ensures ControlOf(TargetsOf(db, dp)) == if dp in db.datapoints then db.datapoints[dp] else RoomLocal
  {
    var targets := TargetsOf(db, dp);
    if targets != [] {
      TargetsExactly(db, dp, targets[0]);
      assert targets[0] in targets;
    } else if dp in db.datapoints {
      Unlinked(db, dp);
    }
  }

  /** A grant of the principal on the datapoint itself, or at a linked node or anywhere above one. */
  predicate Covers(db: Db, p: Principal, dp: string, g: Grant) {
    && MatchesPrincipal(p, g)
    && (|| (g.nodeType == "datapoint" && g.nodeId == dp)
        || (g.nodeType == "hierarchy"
            && exists link :: link in db.links && Linked(db, dp, link.node) && link.datapoint == dp
                              && g.nodeId in AncestorsOf(db.nodes, link.node) + [link.node]))
  }

  lemma CoversExactly(db: Db, p: Principal, dp: string, grants: seq<Grant>, g: Grant)
    requires g in grants
    ensures Covers(db, p, dp, g) <==> exists t :: t in DecidedTargets(db, Read, dp, grants) && OnPath(p, g, t)
  {
    var (base, targets) := (TargetsOf(db, dp), DecidedTargets(db, Read, dp, grants));
    forall t | t in targets && OnPath(p, g, t) ensures Covers(db, p, dp, g) {
      TargetsExactly(db, dp, t);
      if t in base && t.nodeType == "hierarchy" {
        assert Linked(db, dp, Link(dp, t.nodeId).node);
      }
    }
    if Covers(db, p, dp, g) {
      if g.nodeType == "datapoint" {
        assert HasDirect(grants, dp);
        var itself := Direct(dp, ControlOf(base));
        if !NamesItself(base, dp) {
          assert itself in targets && itself.Path() == [dp] && OnPath(p, g, itself);
        } else {
          var t :| t in base && t.nodeType == DATAPOINT && t.nodeId == dp;
          TargetsExactly(db, dp, t);
          assert t in targets && t.Path() == [dp] && OnPath(p, g, t);
        }
      } else {
        var link :| link in db.links && Linked(db, dp, link.node) && link.datapoint == dp
            && g.nodeId in AncestorsOf(db.nodes, link.node) + [link.node];
        var t := Target("hierarchy", link.node, AncestorsOf(db.nodes, link.node), None, db.datapoints[dp]);
        TargetsExactly(db, dp, t);
        assert t in targets && OnPath(p, g, t);
      }
    }
  }

  /** Reading, over the tables: some grant that covers the datapoint allows, and none denies. */
  lemma ReadableExactly(db: Db, p: Principal, dp: string, grants: seq<Grant>)
    requires !IsAdministrator(p)
    ensures Accessible(db, p, Read, dp, grants)
            <==> && (forall g :: g in grants && Covers(db, p, dp, g) ==> g.allow)
                 && exists g :: g in grants && Covers(db, p, dp, g) && g.allow
  {
    ReadExactly(db, p, dp, grants);
    forall g | g in grants
      ensures Covers(db, p, dp, g) <==> exists t :: t in DecidedTargets(db, Read, dp, grants) && OnPath(p, g, t)
    {
      CoversExactly(db, p, dp, grants, g);
    }
  }

  /** An administrator is refused only what has neither targets nor a grant naming it. */
  lemma AdministratorExactly(db: Db, p: Principal, action: Action, dp: string, grants: seq<Grant>)
    requires IsAdministrator(p)
    ensures Accessible(db, p, action, dp, grants) <==> dp in db.datapoints || HasDirect(grants, dp)
  {
    LinksNeedDatapoint(db, dp, db.links);
    var targets := DecidedTargets(db, action, dp, grants);
    AllowedExactly(p, action, targets, if action == Read then ReadGrants(grants, targets) else grants);
  }

  lemma {:induction false} LinksNeedDatapoint(db: Db, dp: string, links: seq<Link>)
    ensures dp !in db.datapoints ==> LinkedTargets(db, dp, links) == []
  {
    if links != [] {
      LinksNeedDatapoint(db, dp, links[..|links| - 1]);
    }
  }
}
