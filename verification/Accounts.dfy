/**
  User accounts (obs/api/auth.py): creating, changing and deleting a user over the
  tables that name users. The endpoints change the tables statement by statement inside
  a transaction; AccountLemmas.dfy proves what the whole transaction does.
 */
module Accounts {
  import opened Wrappers

  datatype PrincipalType = User | ApiKey

  /** The primary key of authz_node_roles. */
  datatype GrantKey = GrantKey(kind: PrincipalType, principal: string, nodeType: string, nodeId: string)

  datatype Grant = Grant(role: string, allow: bool, central: bool)

  datatype UserRow = UserRow(id: string, isAdmin: bool, mqttEnabled: bool, mqttHash: Option<string>)

  datatype KeyRow = KeyRow(owner: Option<string>, name: string)

  datatype NodeRow = NodeRow(isPage: bool, createdBy: Option<string>)

  /** The tables that name users; user names and all other keys are unique. */
  datatype Store = Store(
    users: map<string, UserRow>,
    apiKeys: map<string, KeyRow>,
    logicGraphs: map<string, Option<string>>,
    visuNodes: map<string, NodeRow>,
    filtersets: map<string, Option<string>>,
    filterStates: map<(string, string), string>,
    grants: map<GrantKey, Grant>)

  datatype AccountError =
    | NotFound | AlreadyExists | StaleReferences | OwnAccount | LastAdministrator
    | PreconditionRequired | StalePreflight | SuccessorRequired | BadSuccessor | IntegrityError

  function Admins(s: Store): set<string> {
    set u | u in s.users && s.users[u].isAdmin
  }

  /** Whether any of the five checked tables names the user; filterset provenance is not among them. */
  predicate Referenced(s: Store, u: string) {
    || (exists k :: k in s.apiKeys && s.apiKeys[k].owner == Some(u))
    || (exists k :: k in s.logicGraphs && s.logicGraphs[k] == Some(u))
    || (exists k :: k in s.visuNodes && s.visuNodes[k].createdBy == Some(u))
    || (exists k :: k in s.grants && k.kind == User && k.principal == u)
    || (exists k :: k in s.filterStates && k.0 == u)
  }

  // ---- renaming ------------------------------------------------------------------------------------

  function Sub(o: Option<string>, before: string, after: string): Option<string> {
    if o == Some(before) then Some(after) else o
  }

  function SubKey(k: GrantKey, before: string, after: string): GrantKey {
    if k.kind == User && k.principal == before then k.(principal := after) else k
  }

  function SubState(k: (string, string), before: string, after: string): (string, string) {
    if k.0 == before then (after, k.1) else k
  }

  function KeySubstitution(before: string, after: string): GrantKey -> GrantKey {
    (k: GrantKey) => SubKey(k, before, after)
  }

  function StateSubstitution(before: string, after: string): ((string, string)) -> (string, string) {
    (k: (string, string)) => SubState(k, before, after)
  }

  predicate InjectiveOn<K, V>(m: map<K, V>, f: K -> K) {
    forall j, k {:trigger f(j), f(k)} :: j in m && k in m && f(j) == f(k) ==> j == k
  }

  function Image<K>(keys: set<K>, f: K -> K): set<K> {
    set j | j in keys :: f(j)
  }

  /** An UPDATE of key columns: every row keeps its values under its new key. */
  function Rekeyed<K, V>(m: map<K, V>, f: K -> K): map<K, V>
    requires InjectiveOn(m, f)
  {
    map k | k in Image(m.Keys, f) :: (var j :| j in m && f(j) == k; m[j])
  }

  /** Whether the rename would make two grants, or two filterset states, share a key. */
  predicate KeysCollide(s: Store, before: string, after: string) {
    !InjectiveOn(s.grants, KeySubstitution(before, after))
        || !InjectiveOn(s.filterStates, StateSubstitution(before, after))
  }

  function SubColumn(m: map<string, Option<string>>, before: string, after: string): map<string, Option<string>> {
    map k | k in m :: Sub(m[k], before, after)
  }

  function SubOwners(m: map<string, KeyRow>, before: string, after: string): map<string, KeyRow> {
    map k | k in m :: m[k].(owner := Sub(m[k].owner, before, after))
  }

  function SubNodes(m: map<string, NodeRow>, before: string, after: string): map<string, NodeRow> {
    map k | k in m :: m[k].(createdBy := Sub(m[k].createdBy, before, after))
  }

  function Renamed(s: Store, before: string, after: string): Store
    requires !KeysCollide(s, before, after)
  {
    s.(apiKeys := SubOwners(s.apiKeys, before, after),
       logicGraphs := SubColumn(s.logicGraphs, before, after),
       visuNodes := SubNodes(s.visuNodes, before, after),
       filtersets := SubColumn(s.filtersets, before, after),
       filterStates := Rekeyed(s.filterStates, StateSubstitution(before, after)),
       grants := Rekeyed(s.grants, KeySubstitution(before, after)))
  }

  datatype UserUpdate = UserUpdate(username: Option<string>, isAdmin: Option<bool>, mqttEnabled: Option<bool>)

  function UpdatedRow(row: UserRow, body: UserUpdate): UserRow {
    UserRow(row.id, body.isAdmin.GetOr(row.isAdmin), body.mqttEnabled.GetOr(row.mqttEnabled),
            if body.mqttEnabled == Some(false) then None else row.mqttHash)
  }

  /** The first check of update_user that fails. */
  function UpdateRefused(s: Store, username: string, body: UserUpdate, admin: string): Option<AccountError> {
    if username !in s.users then Some(NotFound)
    else
      var after := body.username.GetOr(username);
      var demotes := s.users[username].isAdmin && !body.isAdmin.GetOr(s.users[username].isAdmin);
      if demotes && username == admin then Some(OwnAccount)
      else if demotes && |Admins(s)| <= 1 then Some(LastAdministrator)
      else if after != "" && after != username && (after in s.users || Referenced(s, after)) then Some(AlreadyExists)
      else if after != username && (after in s.users || KeysCollide(s, username, after)) then Some(IntegrityError)
      else None
  }

  function Updated(s: Store, username: string, body: UserUpdate): Store
    requires username in s.users
    requires body.username.GetOr(username) != username ==> !KeysCollide(s, username, body.username.GetOr(username))
  {
    var after := body.username.GetOr(username);
    var s' := s.(users := (s.users - {username})[after := UpdatedRow(s.users[username], body)]);
    if after != username then Renamed(s', username, after) else s'
  }

  // ---- deleting ------------------------------------------------------------------------------------

  datatype Inventory = Inventory(
    userId: string, isAdmin: bool, pages: set<string>, graphs: set<string>, filtersets: set<string>,
    apiKeys: set<string>, states: set<string>, grants: set<(string, string, Grant)>)

  function OwnedKeys(s: Store, u: string): set<string> {
    set k | k in s.apiKeys && s.apiKeys[k].owner == Some(u)
  }

  function OwnedPages(s: Store, u: string): set<string> {
    set k | k in s.visuNodes && s.visuNodes[k].isPage && s.visuNodes[k].createdBy == Some(u)
  }

  function OwnedGraphs(s: Store, u: string): set<string> {
    set k | k in s.logicGraphs && s.logicGraphs[k] == Some(u)
  }

  const FILTERSET := "ringbuffer_filterset"
  const PAGE := "visu_page"
  const GRAPH := "logic_graph"

  /** A filterset is owned through an owner/allow grant, not through its provenance. */
  function OwnedFiltersets(s: Store, u: string): set<string> {
    set k | k in s.grants && k.kind == User && k.principal == u && k.nodeType == FILTERSET
            && s.grants[k].role == "owner" && s.grants[k].allow :: k.nodeId
  }

  function InventoryOf(s: Store, u: string): Inventory
    requires u in s.users
  {
    Inventory(s.users[u].id, s.users[u].isAdmin, OwnedPages(s, u), OwnedGraphs(s, u), OwnedFiltersets(s, u),
        OwnedKeys(s, u),
              set k | k in s.filterStates && k.0 == u :: k.1,
              set k | k in s.grants && k.kind == User && k.principal == u :: (k.nodeType, k.nodeId, s.grants[k]))
  }

  datatype DeletionRequest = DeletionRequest(revision: string, successor: Option<string>)

  /** The first check of delete_user that fails; `digest` fingerprints an inventory. */
  function DeleteRefused(
    s: Store, u: string, body: Option<DeletionRequest>, admin: string, digest: Inventory -> string)
    : Option<AccountError>
  {
    if u == admin then Some(OwnAccount)
    else if u !in s.users then Some(NotFound)
    else if s.users[u].isAdmin && |Admins(s)| <= 1 then Some(LastAdministrator)
    else if body.None? then Some(PreconditionRequired)
    else if digest(InventoryOf(s, u)) != body.value.revision then Some(StalePreflight)
    else
      var inventory := InventoryOf(s, u);
      if inventory.pages + inventory.graphs + inventory.filtersets != {} && !HasSuccessor(body.value)
          then Some(SuccessorRequired)
      else if HasSuccessor(body.value) && (body.value.successor.value == u || body.value.successor.value !in s.users)
          then Some(BadSuccessor)
      else None
  }

  predicate HasSuccessor(body: DeletionRequest) {
    body.successor.Some? && body.successor.value != ""
  }

  /** INSERT … ON CONFLICT DO UPDATE: owner and allow, central control if either row had it. */
  function Upserted(g: map<GrantKey, Grant>, rows: map<GrantKey, bool>): map<GrantKey, Grant> {
    map k | k in g.Keys + rows.Keys ::
      if k in rows then Grant("owner", true, rows[k] || (k in g && g[k].central)) else g[k]
  }

  /** The artifact grants handed to the successor: central control as in the user's own grant, if any. */
  function Transfers(
    g: map<GrantKey, Grant>, nodeType: string, ids: set<string>, u: string, successor: string): map<GrantKey, bool>
  {
    map k | k in (set id | id in ids :: GrantKey(User, successor, nodeType, id)) ::
      k.(principal := u) in g && g[k.(principal := u)].central
  }

  function TransferGrants(g: map<GrantKey, Grant>, i: Inventory, u: string, successor: string): map<GrantKey, Grant> {
    var central := Transfers(g, PAGE, i.pages, u, successor) + Transfers(g, GRAPH, i.graphs, u, successor);
    var g' := Upserted(g, central);
    Upserted(g', Transfers(g', FILTERSET, i.filtersets, u, successor))
  }

  /** Both spellings under which an API key's grants are stored. */
  predicate NamesKey(k: GrantKey, keys: set<string>) {
    k.kind == ApiKey && exists id :: id in keys && (k.principal == id || k.principal == "api_key:" + id)
  }

  function Transferred(s: Store, u: string, successor: string): Store
    requires u in s.users
  {
    s.(grants := TransferGrants(s.grants, InventoryOf(s, u), u, successor),
       visuNodes := map k | k in s.visuNodes ::
         if s.visuNodes[k].isPage then s.visuNodes[k].(createdBy := Sub(s.visuNodes[k].createdBy, u, successor))
             else s.visuNodes[k],
       logicGraphs := SubColumn(s.logicGraphs, u, successor))
  }

  function Removed(s: Store, u: string, keys: set<string>): Store {
    s.(filtersets := map k | k in s.filtersets :: if s.filtersets[k] == Some(u) then None else s.filtersets[k],
       apiKeys := map k | k in s.apiKeys && s.apiKeys[k].owner != Some(u) :: s.apiKeys[k],
       grants := map k | k in s.grants && !NamesKey(k, keys) && !(k.kind == User && k.principal == u) :: s.grants[k],
       filterStates := map k | k in s.filterStates && k.0 != u :: s.filterStates[k],
       users := s.users - {u})
  }

  function Deleted(s: Store, u: string, body: DeletionRequest): Store
    requires u in s.users
  {
    var keys := InventoryOf(s, u).apiKeys;
    Removed(if HasSuccessor(body) then Transferred(s, u, body.successor.value) else s, u, keys)
  }

  // ---- the endpoints ---------------------------------------------------------------------------------

  class AccountStore {
    var users: map<string, UserRow>
    var apiKeys: map<string, KeyRow>
    var logicGraphs: map<string, Option<string>>
    var visuNodes: map<string, NodeRow>
    var filtersets: map<string, Option<string>>
    var filterStates: map<(string, string), string>
    var grants: map<GrantKey, Grant>

    constructor (s: Store)
      ensures Tables() == s
    {
      users, apiKeys, logicGraphs, visuNodes := s.users, s.apiKeys, s.logicGraphs, s.visuNodes;
      filtersets, filterStates, grants := s.filtersets, s.filterStates, s.grants;
    }

    function Tables(): Store
      reads this
    {
      Store(users, apiKeys, logicGraphs, visuNodes, filtersets, filterStates, grants)
    }

    method CreateUser(username: string, row: UserRow) returns (r: Result<UserRow, AccountError>)
      modifies this`users
      ensures r == if username in old(users) then Err(AlreadyExists)
                   else if Referenced(old(Tables()), username) then Err(StaleReferences) else Ok(row)
      ensures users == if r.Ok? then old(users)[username := row] else old(users)
    {
      if username in users {
        return Err(AlreadyExists);
      }
      if Referenced(Tables(), username) {
        return Err(StaleReferences);
      }
      users := users[username := row];
      return Ok(row);
    }

    method UpdateUser(username: string, body: UserUpdate, admin: string) returns (r: Result<UserRow, AccountError>)
      modifies this
      ensures match UpdateRefused(old(Tables()), username, body, admin)
              case Some(e) => r == Err(e) && unchanged(this)
              case None =>
                Tables() == Updated(old(Tables()), username, body)
                && r == Ok(UpdatedRow(old(users)[username], body))
    {
      if username !in users {
        return Err(NotFound);
      }
      var target := users[username];
      var after := body.username.GetOr(username);
      var isAdmin := body.isAdmin.GetOr(target.isAdmin);
      if target.isAdmin && !isAdmin {
        if username == admin {
          return Err(OwnAccount);
        }
        if |Admins(Tables())| <= 1 {
          return Err(LastAdministrator);
        }
      }
      if after != "" && after != username && (after in users || Referenced(Tables(), after)) {
        return Err(AlreadyExists);
      }
      if after != username && (after in users || KeysCollide(Tables(), username, after)) {
        return Err(IntegrityError);
      }
      var row := UpdatedRow(target, body);
      users := (users - {username})[after := row];
      if after != username {
        RenameReferences(username, after);
      }
      return Ok(row);
    }

    /** The six UPDATE statements of a rename. */
    method RenameReferences(before: string, after: string)
      requires !KeysCollide(Tables(), before, after)
      modifies this`apiKeys, this`logicGraphs, this`visuNodes, this`filtersets, this`grants, this`filterStates
      ensures Tables() == Renamed(old(Tables()), before, after)
    {
      apiKeys := SubOwners(apiKeys, before, after);
      logicGraphs := SubColumn(logicGraphs, before, after);
      visuNodes := SubNodes(visuNodes, before, after);
      filtersets := SubColumn(filtersets, before, after);
      grants := Rekeyed(grants, KeySubstitution(before, after));
      filterStates := Rekeyed(filterStates, StateSubstitution(before, after));
    }

    method DeleteUser(
      u: string, body: Option<DeletionRequest>, admin: string, digest: Inventory -> string)
      returns (r: Result<Inventory, AccountError>)
      modifies this
      ensures match DeleteRefused(old(Tables()), u, body, admin, digest)
              case Some(e) => r == Err(e) && unchanged(this)
              case None => Tables() == Deleted(old(Tables()), u, body.value) && r == Ok(InventoryOf(old(Tables()), u))
    {
      if u == admin {
        return Err(OwnAccount);
      }
      if u !in users {
        return Err(NotFound);
      }
      if users[u].isAdmin && |Admins(Tables())| <= 1 {
        return Err(LastAdministrator);
      }
      var inventory := InventoryOf(Tables(), u);
      if body.None? {
        return Err(PreconditionRequired);
      }
      if digest(inventory) != body.value.revision {
        return Err(StalePreflight);
      }
      if inventory.pages + inventory.graphs + inventory.filtersets != {} && !HasSuccessor(body.value) {
        return Err(SuccessorRequired);
      }
      if HasSuccessor(body.value) {
        var successor := body.value.successor.value;
        if successor == u || successor !in users {
          return Err(BadSuccessor);
        }
        TransferOwnership(u, successor, inventory);
      }
      RemoveUser(u, inventory.apiKeys);
      return Ok(inventory);
    }

    /** The statements run for a successor: artifact grants, owners of pages and graphs, filterset grants. */
    method TransferOwnership(u: string, successor: string, inventory: Inventory)
      requires u in users && inventory == InventoryOf(Tables(), u)
      modifies this`grants, this`visuNodes, this`logicGraphs
      ensures Tables() == Transferred(old(Tables()), u, successor)
    {
      grants := Upserted(grants, Transfers(grants, PAGE, inventory.pages, u, successor)
          + Transfers(grants, GRAPH, inventory.graphs, u, successor));
      visuNodes := map k | k in visuNodes ::
        if visuNodes[k].isPage then visuNodes[k].(createdBy := Sub(visuNodes[k].createdBy, u, successor))
            else visuNodes[k];
      logicGraphs := SubColumn(logicGraphs, u, successor);
      grants := Upserted(grants, Transfers(grants, FILTERSET, inventory.filtersets, u, successor));
    }

    /** The statements that remove the user: provenance, key grants, keys, own grants, filterset states, the user. */
    method RemoveUser(u: string, keys: set<string>)
      modifies this`filtersets, this`grants, this`apiKeys, this`filterStates, this`users
      ensures Tables() == Removed(old(Tables()), u, keys)
    {
      filtersets := map k | k in filtersets :: if filtersets[k] == Some(u) then None else filtersets[k];
      grants := map k | k in grants && !NamesKey(k, keys) :: grants[k];
      apiKeys := map k | k in apiKeys && apiKeys[k].owner != Some(u) :: apiKeys[k];
      grants := map k | k in grants && !(k.kind == User && k.principal == u) :: grants[k];
      assert grants == map k | k in old(grants) && !NamesKey(k, keys)
          && !(k.kind == User && k.principal == u) :: old(grants)[k];
      filterStates := map k | k in filterStates && k.0 != u :: filterStates[k];
      users := users - {u};
    }
  }
}
