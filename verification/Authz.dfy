/**
  The authorization policy (obs/api/authz.py): a pure decision over role grants on a tree
  of nodes. The lemmas say how the decision depends on its inputs: not on their order,
  monotonically on the grants, and antitonically on the targets of a write.
 */
module Authz {
  import opened Wrappers

  datatype Role = Guest | Resident | Operator | Owner

  datatype Action = Read | Write | Generate | Activate

  datatype ControlClass = RoomLocal | CentralPlant

  datatype PrincipalType = User | ApiKey

  datatype Principal = Principal(subject: string, kind: PrincipalType, isAdmin: bool)

  datatype Target = Target(nodeType: string, nodeId: string, ancestors: seq<string>, minRole: Option<Role>,
      control: ControlClass) {
    function Path(): seq<string> {
      ancestors + [nodeId]
    }
  }

  datatype Grant = Grant(
    kind: PrincipalType, principal: string, nodeType: string, nodeId: string, role: Role, allow: bool, central: bool,
        ancestors: seq<string>) {
    function Path(): seq<string> {
      ancestors + [nodeId]
    }
  }

  datatype Reason = NoTargets | Admin | ExplicitDeny | Allowed | MissingAllow | CentralControlRequired

  datatype Decision = Decision(allowed: bool, reason: Reason)

  function Rank(r: Role): nat {
    match r
    case Guest => 0
    case Resident => 1
    case Operator => 2
    case Owner => 3
  }

  function RoleActions(r: Role): set<Action> {
    match r
    case Owner => {Read, Write, Generate, Activate}
    case Operator => {Read, Write, Generate, Activate}
    case Resident => {Read, Write, Activate}
    case Guest => {Read}
  }

  const KEY_PREFIX := "api_key:"

  /** An API key's grants may be stored under its bare id or under its subject. */
  predicate MatchesPrincipal(p: Principal, g: Grant) {
    && g.kind == p.kind
    && (g.principal == p.subject
        || (p.kind == ApiKey && KEY_PREFIX <= p.subject && g.principal == p.subject[|KEY_PREFIX|..]))
  }

  /** Allows for reading also work upward, for navigation; denies and everything else work downward only. */
  predicate GrantApplies(action: Action, g: Grant, t: Target) {
    && g.nodeType == t.nodeType
    && (if action == Read && g.allow then t.nodeId in g.Path() || g.nodeId in t.Path() else g.nodeId in t.Path())
  }

  predicate RoleAllows(role: Role, action: Action, t: Target) {
    action in RoleActions(role) && (t.minRole.Some? ==> Rank(role) >= Rank(t.minRole.value))
  }

  predicate GrantAllows(g: Grant, action: Action, t: Target) {
    RoleAllows(g.role, action, t) && (action == Read || t.control == RoomLocal || g.central)
  }

  function AuthorizeTarget(action: Action, t: Target, grants: seq<Grant>): Decision {
    if exists g :: g in grants && GrantApplies(action, g, t) && !g.allow then Decision(false, ExplicitDeny)
    else if exists g :: g in grants && GrantApplies(action, g, t) && GrantAllows(g, action, t)
        then Decision(true, Allowed)
    else if action != Read && t.control == CentralPlant
        && exists g :: g in grants && GrantApplies(action, g, t) && RoleAllows(g.role, action, t)
    then Decision(false, CentralControlRequired)
    else Decision(false, MissingAllow)
  }

  function Matching(p: Principal, grants: seq<Grant>): (r: seq<Grant>)
    ensures forall g :: g in r <==> g in grants && MatchesPrincipal(p, g)
  {
    if grants == [] then []
    else (if MatchesPrincipal(p, grants[0]) then [grants[0]] else []) + Matching(p, grants[1..])
  }

  function Authorize(p: Principal, action: Action, targets: seq<Target>, grants: seq<Grant>): Decision {
    var own := Matching(p, grants);
    if targets == [] then Decision(false, NoTargets)
    else if p.kind == User && p.isAdmin then Decision(true, Admin)
    else if exists t :: t in targets && AuthorizeTarget(action, t, own).reason == ExplicitDeny
        then Decision(false, ExplicitDeny)
    else if action == Read then
      if exists t :: t in targets && AuthorizeTarget(action, t, own).allowed then Decision(true, Allowed)
          else Decision(false, MissingAllow)
    else if forall t :: t in targets ==> AuthorizeTarget(action, t, own).allowed then Decision(true, Allowed)
    else if exists t :: t in targets && AuthorizeTarget(action, t, own).reason == CentralControlRequired
        then Decision(false, CentralControlRequired)
    else Decision(false, MissingAllow)
  }

  // ---- who decides -------------------------------------------------------------------------------------

  predicate Denied(p: Principal, action: Action, t: Target, grants: seq<Grant>) {
    exists g :: g in grants && MatchesPrincipal(p, g) && GrantApplies(action, g, t) && !g.allow
  }

  predicate Permitted(p: Principal, action: Action, t: Target, grants: seq<Grant>) {
    exists g :: g in grants && MatchesPrincipal(p, g) && g.allow && GrantApplies(action, g, t)
        && GrantAllows(g, action, t)
  }

  /**
    The outcome in one formula: no deny on any target, and an allow on some target for
    reading, on all of them otherwise.
   */
  lemma AllowedExactly(p: Principal, action: Action, targets: seq<Target>, grants: seq<Grant>)
    ensures Authorize(p, action, targets, grants).allowed
            <==> && targets != []
                 && ((p.kind == User && p.isAdmin)
                     || ((forall t :: t in targets ==> !Denied(p, action, t, grants))
                         && if action == Read then exists t :: t in targets && Permitted(p, action, t, grants)
                            else forall t :: t in targets ==> Permitted(p, action, t, grants)))
  {
    var own := Matching(p, grants);
    forall t ensures AuthorizeTarget(action, t, own).reason == ExplicitDeny <==> Denied(p, action, t, grants)
             ensures !Denied(p, action, t, grants) ==>
                 (AuthorizeTarget(action, t, own).allowed <==> Permitted(p, action, t, grants)) {
      TargetDecision(p, action, t, grants);
    }
  }

  lemma TargetDecision(p: Principal, action: Action, t: Target, grants: seq<Grant>)
    ensures var d := AuthorizeTarget(action, t, Matching(p, grants));
            && (d.reason == ExplicitDeny <==> Denied(p, action, t, grants))
            && (!Denied(p, action, t, grants) ==> (d.allowed <==> Permitted(p, action, t, grants)))
  {
    var own := Matching(p, grants);
    if Denied(p, action, t, grants) {
      var g :| g in grants && MatchesPrincipal(p, g) && GrantApplies(action, g, t) && !g.allow;
      assert g in own;
    } else if Permitted(p, action, t, grants) {
      var g :| g in grants && MatchesPrincipal(p, g) && g.allow && GrantApplies(action, g, t)
          && GrantAllows(g, action, t);
      assert g in own;
    }
  }

  // ---- the rules, grant by grant ---------------------------------------------------------------------------

  /** Which grants speak for a principal: its own, and for an API key those stored under its bare id. */
  lemma MatchesExactly(p: Principal, g: Grant)
    ensures MatchesPrincipal(p, g)
            <==> || (g.kind == p.kind && g.principal == p.subject)
                 || (g.kind == ApiKey && p.kind == ApiKey && p.subject == "api_key:" + g.principal)
  {
    if KEY_PREFIX <= p.subject {
      assert p.subject == KEY_PREFIX + p.subject[|KEY_PREFIX|..];
    }
    assert KEY_PREFIX == "api_key:";
    assert ("api_key:" + g.principal)[|KEY_PREFIX|..] == g.principal;
  }

  /** Where a grant applies: at its node and below it, and an allow for reading also above it. */
  lemma AppliesExactly(action: Action, g: Grant, t: Target)
    ensures GrantApplies(action, g, t)
            <==> && g.nodeType == t.nodeType
                 && (g.nodeId == t.nodeId || g.nodeId in t.ancestors
                     || (action == Read && g.allow && t.nodeId in g.ancestors))
  {
  }

  /** What an allow allows: by role, from the minimum role on, and a central plant only with central control. */
  lemma AllowsExactly(g: Grant, action: Action, t: Target)
    ensures GrantAllows(g, action, t)
            <==> && (action == Read || g.role != Guest)
                 && (action == Generate ==> g.role == Operator || g.role == Owner)
                 && (t.minRole == Some(Resident) ==> g.role != Guest)
                 && (t.minRole == Some(Operator) ==> g.role == Operator || g.role == Owner)
                 && (t.minRole == Some(Owner) ==> g.role == Owner)
                 && (action != Read && t.control == CentralPlant ==> g.central)
  {
  }

  /** A target that a grant would open by its role, had it central control. */
  ghost predicate NeedsCentral(p: Principal, action: Action, t: Target, grants: seq<Grant>) {
    && t.control == CentralPlant && !Permitted(p, action, t, grants)
    && exists g :: g in grants && MatchesPrincipal(p, g) && GrantApplies(action, g, t)
                   && GrantAllows(g.(central := true), action, t)
  }

  lemma RoleWouldDo(p: Principal, action: Action, t: Target, grants: seq<Grant>)
    ensures (exists g :: g in Matching(p, grants) && GrantApplies(action, g, t) && RoleAllows(g.role, action, t))
            <==> exists g :: g in grants && MatchesPrincipal(p, g) && GrantApplies(action, g, t)
                             && GrantAllows(g.(central := true), action, t)
  {
    forall g: Grant ensures RoleAllows(g.role, action, t) <==> GrantAllows(g.(central := true), action, t) {
    }
  }

  lemma TargetReason(p: Principal, action: Action, t: Target, grants: seq<Grant>)
    requires action != Read && !Denied(p, action, t, grants)
    ensures AuthorizeTarget(action, t, Matching(p, grants)).reason == CentralControlRequired
            <==> NeedsCentral(p, action, t, grants)
  {
    var own := Matching(p, grants);
    TargetDecision(p, action, t, grants);
    RoleWouldDo(p, action, t, grants);
  }

  /** The reason given, in every case. */
  lemma ReasonExactly(p: Principal, action: Action, targets: seq<Target>, grants: seq<Grant>)
    ensures var d := Authorize(p, action, targets, grants);
            var denied := exists t :: t in targets && Denied(p, action, t, grants);
            d.reason
            == if targets == [] then NoTargets
               else if p.kind == User && p.isAdmin then Admin
               else if denied then ExplicitDeny
               else if d.allowed then Allowed
               else if action != Read && exists t :: t in targets && NeedsCentral(p, action, t, grants)
                    then CentralControlRequired
               else MissingAllow
  {
    var own := Matching(p, grants);
    forall t ensures AuthorizeTarget(action, t, own).reason == ExplicitDeny <==> Denied(p, action, t, grants)
             ensures !Denied(p, action, t, grants) && action != Read ==>
                 (AuthorizeTarget(action, t, own).reason == CentralControlRequired
                  <==> NeedsCentral(p, action, t, grants)) {
      TargetDecision(p, action, t, grants);
      if !Denied(p, action, t, grants) && action != Read {
        TargetReason(p, action, t, grants);
      }
    }
  }

  // ---- order, multiplicity --------------------------------------------------------------------------------

  ghost predicate SameElements<T(!new)>(a: seq<T>, b: seq<T>) {
    forall x :: x in a <==> x in b
  }

  lemma SameGrantsSameTargetDecision(action: Action, t: Target, grants: seq<Grant>, others: seq<Grant>)
    requires SameElements(grants, others)
    ensures AuthorizeTarget(action, t, grants) == AuthorizeTarget(action, t, others)
  {
  }

  /** Neither order nor repetition of grants or targets matters, not even for the reason given. */
  lemma OrderNeverMatters(
    p: Principal, action: Action, targets: seq<Target>, targets': seq<Target>, grants: seq<Grant>, grants': seq<Grant>)
    requires SameElements(targets, targets') && SameElements(grants, grants')
    ensures Authorize(p, action, targets, grants) == Authorize(p, action, targets', grants')
  {
    var own, own' := Matching(p, grants), Matching(p, grants');
    assert SameElements(own, own');
    forall t ensures AuthorizeTarget(action, t, own) == AuthorizeTarget(action, t, own') {
      SameGrantsSameTargetDecision(action, t, own, own');
    }
    if targets != [] { assert targets[0] in targets'; }
    if targets' != [] { assert targets'[0] in targets; }
  }

  // ---- monotonicity ----------------------------------------------------------------------------------------

  lemma HigherRolesAllowMore(low: Role, high: Role, action: Action, t: Target)
    requires Rank(low) <= Rank(high)
    ensures RoleAllows(low, action, t) ==> RoleAllows(high, action, t)
  {
  }

  /** The same grant or a stronger one: at least the role, at least the central control. */
  predicate AtLeast(stronger: Grant, g: Grant) {
    && stronger == g.(role := stronger.role, central := stronger.central)
    && Rank(g.role) <= Rank(stronger.role) && (g.central ==> stronger.central)
  }

  /** Grants that keep every allow, possibly stronger, and add no deny, keep every access. */
  lemma StrongerGrantsKeepAccess(
    p: Principal, action: Action, targets: seq<Target>, grants: seq<Grant>, stronger: seq<Grant>)
    requires forall g :: g in grants && g.allow ==> exists h :: h in stronger && AtLeast(h, g)
    requires forall h :: h in stronger && !h.allow ==> h in grants
    requires Authorize(p, action, targets, grants).allowed
    ensures Authorize(p, action, targets, stronger).allowed
  {
    AllowedExactly(p, action, targets, grants);
    AllowedExactly(p, action, targets, stronger);
    forall t ensures Denied(p, action, t, stronger) ==> Denied(p, action, t, grants)
             ensures Permitted(p, action, t, grants) ==> Permitted(p, action, t, stronger) {
      StrongerPermits(p, action, t, grants, stronger);
    }
  }

  lemma StrongerPermits(p: Principal, action: Action, t: Target, grants: seq<Grant>, stronger: seq<Grant>)
    requires forall g :: g in grants && g.allow ==> exists h :: h in stronger && AtLeast(h, g)
    requires forall h :: h in stronger && !h.allow ==> h in grants
    ensures Denied(p, action, t, stronger) ==> Denied(p, action, t, grants)
    ensures Permitted(p, action, t, grants) ==> Permitted(p, action, t, stronger)
  {
    if Permitted(p, action, t, grants) {
      var g :| g in grants && MatchesPrincipal(p, g) && g.allow && GrantApplies(action, g, t)
          && GrantAllows(g, action, t);
      var h :| h in stronger && AtLeast(h, g);
      StrongerGrant(p, action, t, g, h);
    }
  }

  lemma StrongerGrant(p: Principal, action: Action, t: Target, g: Grant, h: Grant)
    requires AtLeast(h, g) && g.allow
    ensures h.allow && (MatchesPrincipal(p, g) ==> MatchesPrincipal(p, h))
    ensures GrantApplies(action, g, t) ==> GrantApplies(action, h, t)
    ensures GrantAllows(g, action, t) ==> GrantAllows(h, action, t)
  {
    assert h.Path() == g.Path() && h.kind == g.kind && h.principal == g.principal && h.nodeType == g.nodeType
        && h.nodeId == g.nodeId;
    HigherRolesAllowMore(g.role, h.role, action, t);
  }

  lemma AddingAnAllowNeverRevokes(p: Principal, action: Action, targets: seq<Target>, grants: seq<Grant>, g: Grant)
    requires g.allow && Authorize(p, action, targets, grants).allowed
    ensures Authorize(p, action, targets, grants + [g]).allowed
  {
    forall h | h in grants && h.allow ensures exists k :: k in grants + [g] && AtLeast(k, h) {
      assert h in grants + [g] && AtLeast(h, h);
    }
    StrongerGrantsKeepAccess(p, action, targets, grants, grants + [g]);
  }

  lemma RaisingARoleNeverRevokes(
    p: Principal, action: Action, targets: seq<Target>, grants: seq<Grant>, i: nat, role: Role)
    requires i < |grants| && grants[i].allow && Rank(grants[i].role) <= Rank(role)
    requires Authorize(p, action, targets, grants).allowed
    ensures Authorize(p, action, targets, grants[i := grants[i].(role := role)]).allowed
  {
    var raised := grants[i := grants[i].(role := role)];
    forall g | g in grants && g.allow ensures exists h :: h in raised && AtLeast(h, g) {
      var k :| 0 <= k < |grants| && grants[k] == g;
      assert raised[k] in raised && AtLeast(raised[k], g);
    }
    StrongerGrantsKeepAccess(p, action, targets, grants, raised);
  }

  lemma AddingADenyNeverGives(p: Principal, action: Action, targets: seq<Target>, grants: seq<Grant>, g: Grant)
    requires !g.allow && Authorize(p, action, targets, grants + [g]).allowed
    ensures Authorize(p, action, targets, grants).allowed
  {
    AllowedExactly(p, action, targets, grants);
    AllowedExactly(p, action, targets, grants + [g]);
    forall t | t in targets && Permitted(p, action, t, grants + [g]) ensures Permitted(p, action, t, grants) {
      var h :| h in grants + [g] && MatchesPrincipal(p, h) && h.allow && GrantApplies(action, h, t)
          && GrantAllows(h, action, t);
      assert h in grants;
    }
    forall t | t in targets && Denied(p, action, t, grants) ensures Denied(p, action, t, grants + [g]) {
      var h :| h in grants && MatchesPrincipal(p, h) && GrantApplies(action, h, t) && !h.allow;
      assert h in grants + [g];
    }
  }

  /** What may be done to several targets at once may be done to fewer of them. */
  lemma FewerTargetsAreEasier(
    p: Principal, action: Action, targets: seq<Target>, fewer: seq<Target>, grants: seq<Grant>)
    requires action != Read && fewer != [] && forall t :: t in fewer ==> t in targets
    requires Authorize(p, action, targets, grants).allowed
    ensures Authorize(p, action, fewer, grants).allowed
  {
    AllowedExactly(p, action, targets, grants);
    AllowedExactly(p, action, fewer, grants);
  }
}
