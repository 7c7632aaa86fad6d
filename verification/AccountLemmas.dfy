/**
  What the account transactions do to the whole store: what is left of a deleted user,
  what the successor gets, what stays untouched; when a rename is an exact substitution
  that can be taken back; and that no transaction leaves the store without an
  administrator.
 */
module AccountLemmas {
  import opened Wrappers
  import opened Accounts

  // ---- deleting --------------------------------------------------------------------------------------

  predicate CentralOf(s: Store, who: string, nodeType: string, nodeId: string) {
    var k := GrantKey(User, who, nodeType, nodeId);
    k in s.grants && s.grants[k].central
  }

  /** The artifacts of an inventory, by node type. */
  predicate Inventoried(i: Inventory, nodeType: string, nodeId: string) {
    || (nodeType == PAGE && nodeId in i.pages)
    || (nodeType == GRAPH && nodeId in i.graphs)
    || (nodeType == FILTERSET && nodeId in i.filtersets)
  }

  /** The successor's grant: owner and allow, with central control if either of the two had it. */
  function HandedOver(s: Store, u: string, successor: string, nodeType: string, nodeId: string): Grant {
    Grant("owner", true, CentralOf(s, u, nodeType, nodeId) || CentralOf(s, successor, nodeType, nodeId))
  }

  /** One upsert for one node type: the successor's row for k, if k is one of the ids. */
  lemma TransfersAt(
    g: map<GrantKey, Grant>, nodeType: string, ids: set<string>, u: string, successor: string, k: GrantKey)
    ensures var (rows, own) := (Transfers(g, nodeType, ids, u, successor), k.(principal := u));
            && (k in rows <==> k == GrantKey(User, successor, nodeType, k.nodeId) && k.nodeId in ids)
            && (k in rows ==> rows[k] == (own in g && g[own].central))
  {
  }

  lemma TransferredGrants(s: Store, u: string, successor: string, k: GrantKey)
    requires u in s.users && successor != u
    ensures var (i, g) := (InventoryOf(s, u), TransferGrants(s.grants, InventoryOf(s, u), u, successor));
            var handed := k.kind == User && k.principal == successor && Inventoried(i, k.nodeType, k.nodeId);
            && (k in g <==> handed || k in s.grants)
            && (k in g ==> g[k] == if handed then HandedOver(s, u, successor, k.nodeType, k.nodeId) else s.grants[k])
  {
    var i := InventoryOf(s, u);
    var pages, graphs := Transfers(s.grants, PAGE, i.pages, u, successor),
        Transfers(s.grants, GRAPH, i.graphs, u, successor);
    var g := Upserted(s.grants, pages + graphs);
    var own := k.(principal := u);
    TransfersAt(s.grants, PAGE, i.pages, u, successor, own);
    TransfersAt(s.grants, GRAPH, i.graphs, u, successor, own);
    assert own in g <==> own in s.grants;
    TransfersAt(s.grants, PAGE, i.pages, u, successor, k);
    TransfersAt(s.grants, GRAPH, i.graphs, u, successor, k);
    TransfersAt(g, FILTERSET, i.filtersets, u, successor, k);
  }

  /**
    Every grant row after a deletion: the user's and its keys' are gone, the handed ones are
    the successor's, the rest are as before.
   */
  lemma DeletedGrantsExactly(s: Store, u: string, body: DeletionRequest, k: GrantKey)
    requires u in s.users && (HasSuccessor(body) ==> body.successor.value != u)
    ensures var (i, g) := (InventoryOf(s, u), Deleted(s, u, body).grants);
            var handed := HasSuccessor(body) && k.kind == User && k.principal == body.successor.value
                && Inventoried(i, k.nodeType, k.nodeId);
            && (k in g <==> (handed || k in s.grants) && !(k.kind == User && k.principal == u)
                            && !(k.kind == ApiKey && exists id ::
                                id in OwnedKeys(s, u)
                                && (k.principal == id || k.principal == "api_key:" + id)))
            && (k in g ==>
                  g[k] == if handed then HandedOver(s, u, body.successor.value, k.nodeType, k.nodeId) else s.grants[k])
  {
    if HasSuccessor(body) {
      TransferredGrants(s, u, body.successor.value, k);
    }
  }

  /** Graphs and pages of a deleted user have another creator, since there is a successor or there were none. */
  lemma DeletedOwnsNothing(s: Store, u: string, body: DeletionRequest, admin: string, digest: Inventory -> string)
    requires DeleteRefused(s, u, Some(body), admin, digest).None?
    ensures var t := Deleted(s, u, body);
            && (forall k :: k in t.logicGraphs ==> t.logicGraphs[k] != Some(u))
            && (forall k :: k in t.visuNodes ==>
                  (t.visuNodes[k].createdBy == Some(u) <==>
                      !s.visuNodes[k].isPage && s.visuNodes[k].createdBy == Some(u)))
  {
    var i := InventoryOf(s, u);
    if !HasSuccessor(body) {
      assert i.pages == {} && i.graphs == {};
      forall k | k in s.visuNodes && s.visuNodes[k].isPage ensures s.visuNodes[k].createdBy != Some(u) {
        assert k !in i.pages;
      }
      forall k | k in s.logicGraphs ensures s.logicGraphs[k] != Some(u) {
        assert k !in i.graphs;
      }
    }
  }

  /** After a deletion nothing names the user any more, except nodes that are not pages. */
  lemma DeletedLeavesNoTrace(s: Store, u: string, body: DeletionRequest, admin: string, digest: Inventory -> string)
    requires DeleteRefused(s, u, Some(body), admin, digest).None?
    ensures var t := Deleted(s, u, body);
            && u !in t.users
            && (forall k :: k in t.apiKeys ==> t.apiKeys[k].owner != Some(u))
            && (forall k :: k in t.grants ==> !(k.kind == User && k.principal == u))
            && (forall k :: k in t.filterStates ==> k.0 != u)
            && (forall k :: k in t.logicGraphs ==> t.logicGraphs[k] != Some(u))
            && (forall k :: k in t.filtersets ==> t.filtersets[k] != Some(u))
            && (forall k :: k in t.visuNodes ==>
                  (t.visuNodes[k].createdBy == Some(u) <==>
                      !s.visuNodes[k].isPage && s.visuNodes[k].createdBy == Some(u)))
  {
    DeletedOwnsNothing(s, u, body, admin, digest);
  }

  /** Every page, graph and filterset of the user is the successor's afterwards. */
  lemma SuccessorOwnsEverything(s: Store, u: string, body: DeletionRequest, nodeType: string, nodeId: string)
    requires u in s.users && HasSuccessor(body) && body.successor.value != u
    requires Inventoried(InventoryOf(s, u), nodeType, nodeId)
    ensures var (t, k) := (Deleted(s, u, body), GrantKey(User, body.successor.value, nodeType, nodeId));
            && k in t.grants
            && t.grants[k] == HandedOver(s, u, body.successor.value, nodeType, nodeId)
            && (nodeType == PAGE ==> nodeId in t.visuNodes && t.visuNodes[nodeId].createdBy == body.successor)
            && (nodeType == GRAPH ==> nodeId in t.logicGraphs && t.logicGraphs[nodeId] == body.successor)
  {
    DeletedGrantsExactly(s, u, body, GrantKey(User, body.successor.value, nodeType, nodeId));
  }

  /** A filterset is the user's through an owner/allow grant, and only these are handed on. */
  lemma FiltersetsFollowOwnerGrants(s: Store, u: string, body: DeletionRequest, id: string)
    requires u in s.users && HasSuccessor(body) && body.successor.value != u
    ensures var (own, his) := (GrantKey(User, u, "ringbuffer_filterset", id),
                               GrantKey(User, body.successor.value, "ringbuffer_filterset", id));
            var g := Deleted(s, u, body).grants;
            if own in s.grants && s.grants[own].role == "owner" && s.grants[own].allow
            then his in g && g[his] == Grant("owner", true,
                s.grants[own].central || (his in s.grants && s.grants[his].central))
            else (his in g <==> his in s.grants) && (his in g ==> g[his] == s.grants[his])
  {
    var (own, his) := (GrantKey(User, u, FILTERSET, id), GrantKey(User, body.successor.value, FILTERSET, id));
    assert id in OwnedFiltersets(s, u) <==> own in s.grants && s.grants[own].role == "owner" && s.grants[own].allow;
    DeletedGrantsExactly(s, u, body, his);
  }

  /** A page or a graph is the user's who created it. */
  lemma ArtifactsFollowTheirCreator(s: Store, u: string, body: DeletionRequest, id: string, isPage: bool)
    requires u in s.users && HasSuccessor(body) && body.successor.value != u
    ensures var nodeType := if isPage then "visu_page" else "logic_graph";
            var (own, his) := (GrantKey(User, u, nodeType, id), GrantKey(User, body.successor.value, nodeType, id));
            var g := Deleted(s, u, body).grants;
            var created := if isPage
                then id in s.visuNodes && s.visuNodes[id].isPage && s.visuNodes[id].createdBy == Some(u)
                else id in s.logicGraphs && s.logicGraphs[id] == Some(u);
            if created
            then his in g && g[his] == Grant("owner", true,
                (own in s.grants && s.grants[own].central) || (his in s.grants && s.grants[his].central))
            else (his in g <==> his in s.grants) && (his in g ==> g[his] == s.grants[his])
  {
    var nodeType := if isPage then PAGE else GRAPH;
    DeletedGrantsExactly(s, u, body, GrantKey(User, body.successor.value, nodeType, id));
  }

  /** Past the checks before it, a successor is required exactly if there is something to hand on. */
  lemma SuccessorRequiredExactly(
    s: Store, u: string, body: DeletionRequest, admin: string, digest: Inventory -> string)
    requires var r := DeleteRefused(s, u, Some(body), admin, digest);
             r.None? || r == Some(SuccessorRequired) || r == Some(BadSuccessor)
    ensures DeleteRefused(s, u, Some(body), admin, digest) == Some(SuccessorRequired)
            <==> && (body.successor.None? || body.successor.value == "")
                 && (|| (exists k :: k in s.visuNodes && s.visuNodes[k].isPage && s.visuNodes[k].createdBy == Some(u))
                     || (exists k :: k in s.logicGraphs && s.logicGraphs[k] == Some(u))
                     || (exists k :: k in s.grants && k.kind == User && k.principal == u
                                     && k.nodeType == "ringbuffer_filterset"
                                     && s.grants[k].role == "owner" && s.grants[k].allow))
  {
    var i := InventoryOf(s, u);
    if k :| k in s.visuNodes && s.visuNodes[k].isPage && s.visuNodes[k].createdBy == Some(u) {
      assert k in i.pages;
    }
    if k :| k in s.logicGraphs && s.logicGraphs[k] == Some(u) {
      assert k in i.graphs;
    }
    assert forall k ::
        k in s.grants && k.kind == User && k.principal == u && k.nodeType == FILTERSET
        && s.grants[k].role == "owner" && s.grants[k].allow ==>
          k.nodeId in i.filtersets;
    if i.pages + i.graphs + i.filtersets != {} {
      var x :| x in i.pages + i.graphs + i.filtersets;
    }
  }

  /** What the fingerprint covers, entry for entry. */
  lemma InventoryExactly(s: Store, u: string, id: string, nodeType: string, g: Grant)
    requires u in s.users
    ensures var i := InventoryOf(s, u);
            && i.userId == s.users[u].id && i.isAdmin == s.users[u].isAdmin
            && (id in i.pages <==> id in s.visuNodes && s.visuNodes[id] == NodeRow(true, Some(u)))
            && (id in i.graphs <==> id in s.logicGraphs && s.logicGraphs[id] == Some(u))
            && (id in i.filtersets <==>
                  var k := GrantKey(User, u, "ringbuffer_filterset", id);
                  k in s.grants && s.grants[k].role == "owner" && s.grants[k].allow)
            && (id in i.apiKeys <==> id in s.apiKeys && s.apiKeys[id].owner == Some(u))
            && (id in i.states <==> (u, id) in s.filterStates)
            && ((nodeType, id, g) in i.grants <==>
                  var k := GrantKey(User, u, nodeType, id); k in s.grants && s.grants[k] == g)
  {
    var i := InventoryOf(s, u);
    assert (u, id) in s.filterStates ==> (u, id).0 == u && (u, id).1 == id;
    var k := GrantKey(User, u, "ringbuffer_filterset", id);
    assert k in s.grants && s.grants[k].role == "owner" && s.grants[k].allow ==> k.nodeId in i.filtersets;
    var l := GrantKey(User, u, nodeType, id);
    assert l in s.grants ==> (l.nodeType, l.nodeId, s.grants[l]) in i.grants;
  }

  lemma TransferTouchesNothingElse(s: Store, u: string, successor: string)
    requires u in s.users
    ensures var t := Transferred(s, u, successor);
            && t.users == s.users && t.apiKeys == s.apiKeys
            && t.filtersets == s.filtersets && t.filterStates == s.filterStates
            && t.logicGraphs.Keys == s.logicGraphs.Keys && t.visuNodes.Keys == s.visuNodes.Keys
            && (forall k :: k in s.logicGraphs && s.logicGraphs[k] != Some(u) ==> t.logicGraphs[k] == s.logicGraphs[k])
            && (forall k :: k in s.visuNodes && (!s.visuNodes[k].isPage || s.visuNodes[k].createdBy != Some(u)) ==>
                t.visuNodes[k] == s.visuNodes[k])
  {
  }

  /** Rows that do not concern the user stay as they are. */
  lemma DeletionTouchesNothingElse(s: Store, u: string, body: DeletionRequest)
    requires u in s.users
    ensures var t := Deleted(s, u, body);
            && t.users == s.users - {u}
            && t.apiKeys == s.apiKeys - OwnedKeys(s, u)
            && t.logicGraphs.Keys == s.logicGraphs.Keys && t.visuNodes.Keys == s.visuNodes.Keys
                && t.filtersets.Keys == s.filtersets.Keys
            && (forall k :: k in s.logicGraphs && s.logicGraphs[k] != Some(u) ==> t.logicGraphs[k] == s.logicGraphs[k])
            && (forall k :: k in s.visuNodes && (!s.visuNodes[k].isPage || s.visuNodes[k].createdBy != Some(u)) ==>
                t.visuNodes[k] == s.visuNodes[k])
            && (forall k :: k in s.filtersets && s.filtersets[k] != Some(u) ==> t.filtersets[k] == s.filtersets[k])
            && (forall k :: k in s.filterStates && k.0 != u ==>
                k in t.filterStates && t.filterStates[k] == s.filterStates[k])
  {
    if HasSuccessor(body) {
      TransferTouchesNothingElse(s, u, body.successor.value);
    }
    var m := if HasSuccessor(body) then Transferred(s, u, body.successor.value) else s;
    assert Removed(m, u, OwnedKeys(s, u)).apiKeys == m.apiKeys - OwnedKeys(s, u);
  }

  /** With a collision-free fingerprint, a deletion goes through only on the inventory that was shown. */
  lemma DeletionNeedsTheShownInventory(
    shown: Store, s: Store, u: string, body: DeletionRequest, admin: string, digest: Inventory -> string)
    requires u in shown.users && body.revision == digest(InventoryOf(shown, u))
    requires forall a, b :: digest(a) == digest(b) ==> a == b
    requires DeleteRefused(s, u, Some(body), admin, digest).None?
    ensures InventoryOf(s, u) == InventoryOf(shown, u)
  {
    assert digest(InventoryOf(s, u)) == digest(InventoryOf(shown, u));
  }

  // ---- renaming --------------------------------------------------------------------------------------

  /** Whether any of the six tables names x. */
  predicate Named(s: Store, x: string) {
    Referenced(s, x) || exists k :: k in s.filtersets && s.filtersets[k] == Some(x)
  }

  /** Every row survives under its new key, and every new row comes from one. */
  lemma RekeyedRows<K, V>(m: map<K, V>, f: K -> K, k: K)
    requires InjectiveOn(m, f)
    ensures k in Rekeyed(m, f) <==> exists j :: j in m && f(j) == k
    ensures k in m ==> f(k) in Rekeyed(m, f) && Rekeyed(m, f)[f(k)] == m[k]
  {
  }

  lemma RekeyedBack<K, V>(m: map<K, V>, f: K -> K, back: K -> K)
    requires InjectiveOn(m, f) && forall k :: k in m ==> back(f(k)) == k
    ensures InjectiveOn(Rekeyed(m, f), back) && Rekeyed(Rekeyed(m, f), back) == m
  {
    var r := Rekeyed(m, f);
    var b := Rekeyed(r, back);
    forall k ensures (k in b <==> k in m) && (k in m ==> b[k] == m[k]) {
      RekeyedRows(r, back, k);
      if k in m {
        RekeyedRows(m, f, k);
        RekeyedRows(r, back, f(k));
      }
    }
  }

  /** A name that nothing refers to cannot collide, so a rename to a checked name never fails on a key. */
  lemma CheckedNamesNeverCollide(s: Store, before: string, after: string)
    requires !Referenced(s, after)
    ensures !KeysCollide(s, before, after)
  {
    var f, g := KeySubstitution(before, after), StateSubstitution(before, after);
    forall j, k | j in s.grants && k in s.grants && f(j) == f(k) ensures j == k {
      assert !(j.kind == User && j.principal == after) && !(k.kind == User && k.principal == after);
    }
    forall j, k | j in s.filterStates && k in s.filterStates && g(j) == g(k) ensures j == k {
      assert j.0 != after && k.0 != after;
    }
  }

  /** The checks on taking administration away, which come first. */
  predicate RefusesDemotion(s: Store, username: string, body: UserUpdate, admin: string)
    requires username in s.users
  {
    && s.users[username].isAdmin && !body.isAdmin.GetOr(true)
    && (username == admin || |Admins(s)| <= 1)
  }

  /**
    An update violates a key exactly when it renames to the empty name, which is not
    checked, and that name is taken by a user or by a row whose key would be duplicated.
   */
  lemma OnlyAnEmptyNameCanCollide(s: Store, username: string, body: UserUpdate, admin: string)
    ensures UpdateRefused(s, username, body, admin) == Some(IntegrityError)
            <==> && username in s.users && !RefusesDemotion(s, username, body, admin)
                 && body.username == Some("") && username != ""
                 && ("" in s.users || KeysCollide(s, username, ""))
  {
    var after := body.username.GetOr(username);
    if after != username && !Referenced(s, after) {
      CheckedNamesNeverCollide(s, username, after);
    }
  }

  function RenameTo(name: string): UserUpdate {
    UserUpdate(Some(name), None, None)
  }

  /** Two users, one of them with the empty name: renaming the other to it fails, for any administrator. */
  lemma RenamingToTheEmptyNameCanFail(row: UserRow, admin: string)
    requires !row.isAdmin
    ensures var s := Store(map["a" := row, "" := row], map[], map[], map[], map[], map[], map[]);
            UpdateRefused(s, "a", RenameTo(""), admin) == Some(IntegrityError)
  {
    var s := Store(map["a" := row, "" := row], map[], map[], map[], map[], map[], map[]);
    assert "a" in s.users && "" in s.users && "a" != "";
    OnlyAnEmptyNameCanCollide(s, "a", RenameTo(""), admin);
  }

  /** After a rename no row has the old name, so the way back never collides. */
  lemma BackNeverCollides(s: Store, before: string, after: string)
    requires before != after && !KeysCollide(s, before, after)
    ensures !KeysCollide(Renamed(s, before, after), after, before)
  {
    var t := Renamed(s, before, after);
    var f, g := KeySubstitution(after, before), StateSubstitution(after, before);
    forall k | k in t.grants ensures !(k.kind == User && k.principal == before) {
      RekeyedRows(s.grants, KeySubstitution(before, after), k);
    }
    forall k | k in t.filterStates ensures k.0 != before {
      RekeyedRows(s.filterStates, StateSubstitution(before, after), k);
    }
    assert InjectiveOn(t.grants, f);
    assert InjectiveOn(t.filterStates, g);
  }

  /**
    Renaming back restores the six tables exactly when none of them named the new name
    before. The check made for a new name leaves one gap: filterset provenance.
   */
  lemma RenameCanBeTakenBack(s: Store, before: string, after: string)
    requires before != after && !KeysCollide(s, before, after)
    ensures !KeysCollide(Renamed(s, before, after), after, before)
    ensures Renamed(Renamed(s, before, after), after, before) == s <==> !Named(s, after)
  {
    BackNeverCollides(s, before, after);
    if !Named(s, after) {
      BackRestoresAll(s, before, after);
    }
    if Renamed(Renamed(s, before, after), after, before) == s {
      BackRestoredOnlyUnnamed(s, before, after);
    }
  }

  lemma BackRestoresAll(s: Store, before: string, after: string)
    requires before != after && !KeysCollide(s, before, after) && !Named(s, after)
    requires !KeysCollide(Renamed(s, before, after), after, before)
    ensures Renamed(Renamed(s, before, after), after, before) == s
  {
    var t := Renamed(s, before, after);
    var b := Renamed(t, after, before);
    RekeyedBack(s.grants, KeySubstitution(before, after), KeySubstitution(after, before));
    RekeyedBack(s.filterStates, StateSubstitution(before, after), StateSubstitution(after, before));
    ColumnBack(s.logicGraphs, before, after);
    ColumnBack(s.filtersets, before, after);
    OwnersBack(s.apiKeys, before, after);
    NodesBack(s.visuNodes, before, after);
  }

  lemma ColumnBack(m: map<string, Option<string>>, before: string, after: string)
    requires before != after
    ensures SubColumn(SubColumn(m, before, after), after, before) == m <==> forall k :: k in m ==> m[k] != Some(after)
  {
    var b := SubColumn(SubColumn(m, before, after), after, before);
    forall k | k in m ensures b[k] == if m[k] == Some(after) then Some(before) else m[k] {
    }
  }

  lemma OwnersBack(m: map<string, KeyRow>, before: string, after: string)
    requires before != after
    ensures SubOwners(SubOwners(m, before, after), after, before) == m <==> forall k :: k in m ==>
        m[k].owner != Some(after)
  {
    var b := SubOwners(SubOwners(m, before, after), after, before);
    forall k | k in m ensures b[k] == if m[k].owner == Some(after) then m[k].(owner := Some(before)) else m[k] {
    }
  }

  lemma NodesBack(m: map<string, NodeRow>, before: string, after: string)
    requires before != after
    ensures SubNodes(SubNodes(m, before, after), after, before) == m <==> forall k :: k in m ==>
        m[k].createdBy != Some(after)
  {
    var b := SubNodes(SubNodes(m, before, after), after, before);
    forall k | k in m ensures b[k] == if m[k].createdBy == Some(after) then m[k].(createdBy := Some(before)) else m[k] {
    }
  }

  /** A row that named the new name before would have been renamed to the old one on the way back. */
  lemma BackRestoredOnlyUnnamed(s: Store, before: string, after: string)
    requires before != after && !KeysCollide(s, before, after)
    requires !KeysCollide(Renamed(s, before, after), after, before)
    requires Renamed(Renamed(s, before, after), after, before) == s
    ensures !Named(s, after)
  {
    BackByTable(s, before, after);
    UnnamedByTable(s, before, after);
  }

  lemma UnnamedByTable(s: Store, before: string, after: string)
    requires before != after
    requires s.logicGraphs == SubColumn(SubColumn(s.logicGraphs, before, after), after, before)
    requires s.filtersets == SubColumn(SubColumn(s.filtersets, before, after), after, before)
    requires s.apiKeys == SubOwners(SubOwners(s.apiKeys, before, after), after, before)
    requires s.visuNodes == SubNodes(SubNodes(s.visuNodes, before, after), after, before)
    requires forall k :: k in s.grants ==> !(k.kind == User && k.principal == after)
    requires forall k :: k in s.filterStates ==> k.0 != after
    ensures !Named(s, after)
  {
    assert forall k :: k in s.logicGraphs ==> s.logicGraphs[k] != Some(after) by {
      ColumnBack(s.logicGraphs, before, after);
    }
    assert forall k :: k in s.filtersets ==> s.filtersets[k] != Some(after) by {
      ColumnBack(s.filtersets, before, after);
    }
    assert forall k :: k in s.apiKeys ==> s.apiKeys[k].owner != Some(after) by { OwnersBack(s.apiKeys, before, after); }
    assert forall k :: k in s.visuNodes ==> s.visuNodes[k].createdBy != Some(after) by {
      NodesBack(s.visuNodes, before, after);
    }
  }

  lemma BackByTable(s: Store, before: string, after: string)
    requires before != after && !KeysCollide(s, before, after)
    requires !KeysCollide(Renamed(s, before, after), after, before)
    requires Renamed(Renamed(s, before, after), after, before) == s
    ensures s.logicGraphs == SubColumn(SubColumn(s.logicGraphs, before, after), after, before)
    ensures s.filtersets == SubColumn(SubColumn(s.filtersets, before, after), after, before)
    ensures s.apiKeys == SubOwners(SubOwners(s.apiKeys, before, after), after, before)
    ensures s.visuNodes == SubNodes(SubNodes(s.visuNodes, before, after), after, before)
    ensures forall k :: k in s.grants ==> !(k.kind == User && k.principal == after)
    ensures forall k :: k in s.filterStates ==> k.0 != after
  {
    var t := Renamed(s, before, after);
    GrantNamesAreLost(t.grants, before, after);
    StateNamesAreLost(t.filterStates, before, after);
  }

  lemma GrantNamesAreLost(g: map<GrantKey, Grant>, before: string, after: string)
    requires before != after && InjectiveOn(g, KeySubstitution(after, before))
    ensures forall k :: k in Rekeyed(g, KeySubstitution(after, before)) ==> !(k.kind == User && k.principal == after)
  {
  }

  lemma StateNamesAreLost(g: map<(string, string), string>, before: string, after: string)
    requires before != after && InjectiveOn(g, StateSubstitution(after, before))
    ensures forall k :: k in Rekeyed(g, StateSubstitution(after, before)) ==> k.0 != after
  {
  }

  /** A rename moves every grant to its substituted key, row for row. */
  lemma RenameSubstitutesGrants(s: Store, before: string, after: string, k: GrantKey)
    requires before != after && !KeysCollide(s, before, after)
    ensures var g := Renamed(s, before, after).grants;
            && (k in s.grants ==> SubKey(k, before, after) in g && g[SubKey(k, before, after)] == s.grants[k])
            && (k in g ==> exists j :: j in s.grants && SubKey(j, before, after) == k && g[k] == s.grants[j])
            && |g| == |s.grants|
  {
    var f := KeySubstitution(before, after);
    RekeyedRows(s.grants, f, k);
    if k in Rekeyed(s.grants, f) {
      var j :| j in s.grants && f(j) == k;
      RekeyedRows(s.grants, f, j);
      assert SubKey(j, before, after) == k;
    }
    RekeyedCardinality(s.grants, f);
  }

  /** After a rename none of the six tables names the old name. */
  lemma RenameLeavesNoOldName(s: Store, before: string, after: string)
    requires before != after && !KeysCollide(s, before, after)
    ensures !Named(Renamed(s, before, after), before)
  {
    var t := Renamed(s, before, after);
    GrantNamesAreLost(s.grants, after, before);
    StateNamesAreLost(s.filterStates, after, before);
    UnnamedColumns(s, before, after);
    UnnamedInEach(t, before);
  }

  lemma UnnamedInEach(t: Store, x: string)
    requires forall k :: k in t.apiKeys ==> t.apiKeys[k].owner != Some(x)
    requires forall k :: k in t.logicGraphs ==> t.logicGraphs[k] != Some(x)
    requires forall k :: k in t.visuNodes ==> t.visuNodes[k].createdBy != Some(x)
    requires forall k :: k in t.filtersets ==> t.filtersets[k] != Some(x)
    requires forall k :: k in t.grants ==> !(k.kind == User && k.principal == x)
    requires forall k :: k in t.filterStates ==> k.0 != x
    ensures !Named(t, x)
  {
  }

  /** An update changes of the row what it names; switching MQTT off drops the MQTT password, nothing else does. */
  lemma UpdatedRowExactly(s: Store, u: string, body: UserUpdate, admin: string)
    requires UpdateRefused(s, u, body, admin).None?
    ensures var (after, t) := (if body.username.Some? then body.username.value else u, Updated(s, u, body));
            && t.users.Keys == s.users.Keys - {u} + {after} && t.users[after].id == s.users[u].id
            && (forall other :: other in s.users && other != u ==> t.users[other] == s.users[other])
            && t.users[after].isAdmin == (if body.isAdmin.Some? then body.isAdmin.value else s.users[u].isAdmin)
            && (if body.mqttEnabled == Some(false) then
                  !t.users[after].mqttEnabled && t.users[after].mqttHash.None?
                else
                  && t.users[after].mqttEnabled == (body.mqttEnabled == Some(true) || s.users[u].mqttEnabled)
                  && t.users[after].mqttHash == s.users[u].mqttHash)
  {
  }

  // ---- filterset provenance ----------------------------------------------------------------------------

  /** Filtersets are created by users, and name nobody else. */
  ghost predicate ProvenanceIsLive(s: Store) {
    forall k :: k in s.filtersets && s.filtersets[k].Some? ==> s.filtersets[k].value in s.users
  }

  /** Creating a user, or a filterset as an existing one, keeps that. */
  lemma CreationKeepsProvenanceLive(s: Store, u: string, row: UserRow, filterset: string, creator: string)
    requires ProvenanceIsLive(s)
    ensures ProvenanceIsLive(s.(users := s.users[u := row]))
    ensures creator in s.users ==> ProvenanceIsLive(s.(filtersets := s.filtersets[filterset := Some(creator)]))
  {
  }

  /** So does updating a user, renames included. */
  lemma UpdateKeepsProvenanceLive(s: Store, u: string, body: UserUpdate, admin: string)
    requires ProvenanceIsLive(s) && UpdateRefused(s, u, body, admin).None?
    ensures ProvenanceIsLive(Updated(s, u, body))
  {
    var (t, after) := (Updated(s, u, body), body.username.GetOr(u));
    UpdatedUsers(s, u, body, admin);
    assert t.filtersets == if after != u then SubColumn(s.filtersets, u, after) else s.filtersets;
    forall k | k in t.filtersets && t.filtersets[k].Some? ensures t.filtersets[k].value in t.users {
      assert k in s.filtersets && t.filtersets[k] == if after != u then Sub(s.filtersets[k], u, after)
          else s.filtersets[k];
    }
  }

  /** And so does deleting one, which clears its provenance. */
  lemma DeletionKeepsProvenanceLive(s: Store, u: string, body: DeletionRequest)
    requires ProvenanceIsLive(s) && u in s.users
    ensures ProvenanceIsLive(Deleted(s, u, body))
  {
    var t := Deleted(s, u, body);
    assert t.users == s.users - {u};
    forall k | k in t.filtersets && t.filtersets[k].Some? ensures t.filtersets[k].value in t.users {
      assert t.filtersets[k] == s.filtersets[k] && s.filtersets[k] != Some(u);
    }
  }

  /** So the table that the check for a new name leaves out cannot name it: an accepted new name is named nowhere. */
  lemma AcceptedNamesAreUnnamed(s: Store, u: string, body: UserUpdate, admin: string)
    requires ProvenanceIsLive(s) && UpdateRefused(s, u, body, admin).None?
    requires body.username.Some? && body.username.value != "" && body.username.value != u
    ensures !Named(s, body.username.value)
  {
  }

  /** A rename of references neither reads nor changes the users. */
  lemma UsersDoNotMatter(s: Store, users: map<string, UserRow>, before: string, after: string)
    ensures KeysCollide(s.(users := users), before, after) == KeysCollide(s, before, after)
    ensures Referenced(s.(users := users), after) == Referenced(s, after)
    ensures !KeysCollide(s, before, after) ==>
              Renamed(s.(users := users), before, after) == Renamed(s, before, after).(users := users)
  {
  }

  lemma RenameIs(s: Store, u: string, after: string)
    requires u in s.users && after != u && !KeysCollide(s, u, after)
    ensures Updated(s, u, RenameTo(after)) == Renamed(s, u, after).(users := Moved(s.users, u, after))
  {
    UsersDoNotMatter(s, Moved(s.users, u, after), u, after);
    assert UpdatedRow(s.users[u], RenameTo(after)) == s.users[u];
  }

  lemma RenameAccepted(s: Store, u: string, after: string, admin: string)
    requires u in s.users && after != u && after !in s.users && !Referenced(s, after)
    ensures UpdateRefused(s, u, RenameTo(after), admin).None?
  {
    CheckedNamesNeverCollide(s, u, after);
  }

  function Moved(users: map<string, UserRow>, u: string, after: string): map<string, UserRow>
    requires u in users
  {
    (users - {u})[after := users[u]]
  }

  lemma MovedBack(users: map<string, UserRow>, u: string, after: string)
    requires u in users && after !in users
    ensures u !in Moved(users, u, after) && Moved(Moved(users, u, after), after, u) == users
  {
  }

  /** The way back, given that the references can be taken back. */
  lemma RenamedBack(s: Store, r: Store, u: string, after: string, admin: string)
    requires u in s.users && after !in s.users
    requires !KeysCollide(r, after, u) && Renamed(r, after, u) == s && !Referenced(r, u)
    ensures var t := r.(users := Moved(s.users, u, after));
            UpdateRefused(t, after, RenameTo(u), admin).None? && Updated(t, after, RenameTo(u)) == s
  {
    var users := Moved(s.users, u, after);
    var t := r.(users := users);
    MovedBack(s.users, u, after);
    UsersDoNotMatter(r, users, after, u);
    RenameAccepted(t, after, u, admin);
    RenameIs(t, after, u);
    var b := Renamed(t, after, u);
    assert b == s.(users := users);
    assert b.(users := s.users) == s;
  }

  /** An accepted rename can be taken back by an accepted rename, and that restores the whole store. */
  lemma RenamingBackRestoresTheStore(s: Store, u: string, after: string, admin: string)
    requires ProvenanceIsLive(s) && after != "" && after != u
    requires UpdateRefused(s, u, RenameTo(after), admin).None?
    ensures var t := Updated(s, u, RenameTo(after));
            && UpdateRefused(t, after, RenameTo(u), admin).None?
            && Updated(t, after, RenameTo(u)) == s
  {
    AcceptedNamesAreUnnamed(s, u, RenameTo(after), admin);
    RenameIs(s, u, after);
    RenameCanBeTakenBack(s, u, after);
    RenameLeavesNoOldName(s, u, after);
    var r := Renamed(s, u, after);
    assert !Referenced(r, u);
    RenamedBack(s, r, u, after, admin);
  }

  lemma UnnamedColumns(s: Store, before: string, after: string)
    requires before != after
    ensures forall k :: k in s.logicGraphs ==> SubColumn(s.logicGraphs, before, after)[k] != Some(before)
    ensures forall k :: k in s.filtersets ==> SubColumn(s.filtersets, before, after)[k] != Some(before)
    ensures forall k :: k in s.apiKeys ==> SubOwners(s.apiKeys, before, after)[k].owner != Some(before)
    ensures forall k :: k in s.visuNodes ==> SubNodes(s.visuNodes, before, after)[k].createdBy != Some(before)
  {
  }

  lemma RekeyedCardinality<K, V>(m: map<K, V>, f: K -> K)
    requires InjectiveOn(m, f)
    ensures |Rekeyed(m, f)| == |m|
  {
    ImageCardinality(m.Keys, f);
    assert Rekeyed(m, f).Keys == Image(m.Keys, f);
  }

  lemma {:induction false} ImageCardinality<K>(a: set<K>, f: K -> K)
    requires forall j, k {:trigger f(j), f(k)} :: j in a && k in a && f(j) == f(k) ==> j == k
    ensures |Image(a, f)| == |a|
  {
    if a == {} {
      assert Image(a, f) == {};
    } else {
      var x :| x in a;
      ImageCardinality(a - {x}, f);
      assert f(x) !in Image(a - {x}, f);
      assert Image(a, f) == Image(a - {x}, f) + {f(x)};
    }
  }

  // ---- administrators --------------------------------------------------------------------------------

  lemma MoreThanOne<T>(a: set<T>, x: T) returns (y: T)
    requires |a| > 1
    ensures y in a && y != x
  {
    assert a - {x} != {} by {
      if x in a { assert |a - {x}| == |a| - 1; } else { assert a - {x} == a; }
    }
    y :| y in a - {x};
  }

  lemma CreationKeepsAnAdministrator(s: Store, u: string, row: UserRow)
    requires Admins(s) != {} && u !in s.users
    ensures Admins(s.(users := s.users[u := row])) != {}
  {
    var someone :| someone in Admins(s);
    assert someone in Admins(s.(users := s.users[u := row]));
  }

  lemma UpdatedUsers(s: Store, u: string, body: UserUpdate, admin: string)
    requires UpdateRefused(s, u, body, admin).None?
    ensures Updated(s, u, body).users == (s.users - {u})[body.username.GetOr(u) := UpdatedRow(s.users[u], body)]
  {
  }

  /** From a state with an administrator, no update reaches one without. */
  lemma UpdateKeepsAnAdministrator(s: Store, u: string, body: UserUpdate, admin: string)
    requires Admins(s) != {} && UpdateRefused(s, u, body, admin).None?
    ensures Admins(Updated(s, u, body)) != {}
  {
    var someone :| someone in Admins(s);
    var after, t := body.username.GetOr(u), Updated(s, u, body);
    UpdatedUsers(s, u, body, admin);
    var row := UpdatedRow(s.users[u], body);
    if someone == u && row.isAdmin {
      assert t.users[after] == row;
      assert after in Admins(t);
    } else {
      if someone == u { someone := MoreThanOne(Admins(s), u); }
      assert after != u ==> after !in s.users;
      assert t.users[someone] == s.users[someone];
      assert someone in Admins(t);
    }
  }

  /** Nor does a deletion. */
  lemma DeletionKeepsAnAdministrator(
    s: Store, u: string, body: DeletionRequest, admin: string, digest: Inventory -> string)
    requires Admins(s) != {} && DeleteRefused(s, u, Some(body), admin, digest).None?
    ensures Admins(Deleted(s, u, body)) != {}
  {
    var someone :| someone in Admins(s);
    if someone == u { someone := MoreThanOne(Admins(s), u); }
    assert Deleted(s, u, body).users == s.users - {u};
    assert someone in Admins(Deleted(s, u, body));
  }
}
