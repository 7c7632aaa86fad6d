/**
  Resolving ancestors (obs/api/authz_service.py): the recursive query that walks parent
  links upward and stops at a node it has seen. On any parent links, cyclic ones
  included, the walk terminates without repeats and its nodes are exactly those
  reachable upward; readable nodes are therefore closed upward.
 */
module Hierarchy {
  import opened Wrappers
  import opened Authz

  /** Each node with its parent, if it has one; a parent that is no node ends the walk. */
  type Parents = map<string, Option<string>>

  predicate HasParent(parents: Parents, id: string) {
    id in parents && parents[id].Some? && parents[id].value in parents
  }

  /** The ancestors found from `id` upward, nearest first. */
  function Walk(parents: Parents, id: string, seen: set<string>): seq<string>
    decreases |parents.Keys - seen|
  {
    if HasParent(parents, id) && parents[id].value !in seen then
      var up := parents[id].value;
      assert parents.Keys - (seen + {up}) < parents.Keys - seen;
      SmallerSet(parents.Keys - (seen + {up}), parents.Keys - seen);
      [up] + Walk(parents, up, seen + {up})
    else []
  }

  lemma {:induction false} SmallerSet<T>(a: set<T>, b: set<T>)
    requires a < b
    ensures |a| < |b|
  {
    var x :| x in b && x !in a;
    if a != {} {
      var y :| y in a;
      SmallerSet(a - {y}, b - {y});
    }
  }

  function Reversed(s: seq<string>): (r: seq<string>)
    ensures |r| == |s|
    ensures forall x :: x in r <==> x in s
  {
    if s == [] then [] else Reversed(s[1..]) + [s[0]]
  }

  /** Root first, the immediate parent last. */
  function AncestorsOf(parents: Parents, id: string): (r: seq<string>)
    ensures forall x :: x in r <==> x in Walk(parents, id, {id})
  {
    Reversed(Walk(parents, id, {id}))
  }

  function TargetOf(parents: Parents, id: string, nodeType: string, control: ControlClass): Target {
    Target(nodeType, id, AncestorsOf(parents, id), None, control)
  }

  /** Each node of a walk is the parent of the one before it, the first the parent of where it starts. */
  lemma {:induction false} WalkStepsUp(parents: Parents, id: string, seen: set<string>, i: nat)
    requires i < |Walk(parents, id, seen)|
    ensures var (w, below) := (Walk(parents, id, seen), if i == 0 then id else Walk(parents, id, seen)[i - 1]);
            below in parents && parents[below] == Some(w[i])
    decreases i
  {
    if i > 0 {
      var up := parents[id].value;
      WalkStepsUp(parents, up, seen + {up}, i - 1);
    }
  }

  lemma {:induction false} ReversedAt(s: seq<string>, k: nat)
    requires k < |s|
    ensures Reversed(s)[k] == s[|s| - 1 - k]
  {
    if k < |s| - 1 {
      ReversedAt(s[1..], k);
    }
  }

  /** Ancestors are listed from the root down: each is the parent of the next, the last one the node's own parent. */
  lemma AncestorsRootFirst(parents: Parents, id: string, k: nat)
    requires k < |AncestorsOf(parents, id)|
    ensures var a := AncestorsOf(parents, id);
            var below := if k + 1 < |a| then a[k + 1] else id;
            below in parents && parents[below] == Some(a[k])
  {
    var w := Walk(parents, id, {id});
    ReversedAt(w, k);
    if k + 1 < |w| {
      ReversedAt(w, k + 1);
    }
    WalkStepsUp(parents, id, {id}, |w| - 1 - k);
  }

  // ---- the seen text of the query -----------------------------------------------------------------------

  /** The query keeps the nodes it has seen as one text, each between bars. */
  function SeenText(seen: seq<string>): (t: string)
    ensures t != [] && t[0] == '|'
  {
    if seen == [] then "|" else "|" + seen[0] + SeenText(seen[1..])
  }

  predicate OccursAt(text: string, part: string, i: int) {
    0 <= i <= |text| - |part| && text[i..i + |part|] == part
  }

  predicate Contains(text: string, part: string) {
    exists i :: 0 <= i <= |text| && OccursAt(text, part, i)
  }

  predicate Plain(id: string) {
    '|' !in id
  }

  lemma StartsAt(a: string, rest: string, id: string)
    requires Plain(a) && Plain(id) && rest != [] && rest[0] == '|'
    ensures id + "|" <= a + rest <==> id == a
  {
    assert forall k :: 0 <= k < |a| ==> a[k] in a;
    assert forall k :: 0 <= k < |id| ==> id[k] in id;
    assert (a + rest)[|a|] == '|';
    if id == a {
      assert (a + rest)[..|id| + 1] == id + "|";
    }
    if id + "|" <= a + rest {
      assert (a + rest)[|id|] == (id + "|")[|id|] == '|';
      assert forall k :: 0 <= k < |id| ==> (a + rest)[k] == (id + "|")[k] == id[k];
      assert |id| == |a|;
      assert id == (a + rest)[..|a|] == a;
    }
  }

  /** A part that begins with a bar occurs at the front or after the first id. */
  lemma OccursInFrontOrAfter(a: string, rest: string, part: string, i: nat)
    requires Plain(a) && part != [] && part[0] == '|' && OccursAt("|" + a + rest, part, i)
    ensures i == 0 || i > |a|
    ensures i == 0 ==> part[1..] <= a + rest
    ensures i > |a| ==> OccursAt(rest, part, i - 1 - |a|)
  {
    var text := "|" + a + rest;
    assert text[i] == text[i..i + |part|][0] == '|';
    assert forall k :: 1 <= k <= |a| ==> text[k] == a[k - 1] && a[k - 1] in a;
    if i == 0 {
      assert text[1..|part|] == text[0..|part|][1..] == part[1..];
      assert text[1..] == a + rest;
    }
    if i > |a| {
      var j := i - 1 - |a|;
      assert rest[j..j + |part|] == text[i..i + |part|];
    }
  }

  /** For ids without a bar, looking for "|id|" in that text is asking whether the node was seen. */
  lemma {:induction false} SeenTextIsMembership(seen: seq<string>, id: string)
    requires Plain(id) && forall x :: x in seen ==> Plain(x)
    ensures Contains(SeenText(seen), "|" + id + "|") <==> id in seen
  {
    var part := "|" + id + "|";
    var text := SeenText(seen);
    assert part[1..] == id + "|";
    if seen == [] {
      assert |text| < |part|;
    } else {
      var (a, rest) := (seen[0], SeenText(seen[1..]));
      SeenTextIsMembership(seen[1..], id);
      StartsAt(a, rest, id);
      assert text == "|" + a + rest;
      if id == a {
        assert text[0..|part|] == part;
        assert OccursAt(text, part, 0);
      }
      if Contains(rest, part) {
        var i :| 0 <= i <= |rest| && OccursAt(rest, part, i);
        assert text[1 + |a| + i..1 + |a| + i + |part|] == rest[i..i + |part|];
        assert OccursAt(text, part, 1 + |a| + i);
      }
      if Contains(text, part) {
        var i :| 0 <= i <= |text| && OccursAt(text, part, i);
        OccursInFrontOrAfter(a, rest, part, i);
      }
    }
  }

  // ---- the walk is reachability ------------------------------------------------------------------------------

  function Up(parents: Parents, id: string, n: nat): Option<string> {
    if n == 0 then (if id in parents then Some(id) else None)
    else match Up(parents, id, n - 1)
      case None => None
      case Some(x) => if HasParent(parents, x) then parents[x] else None
  }

  ghost predicate Reaches(parents: Parents, id: string, a: string) {
    exists n: nat :: Up(parents, id, n) == Some(a)
  }

  lemma {:induction false} UpFrom(parents: Parents, id: string, i: nat, a: string, k: nat)
    requires Up(parents, id, i) == Some(a)
    ensures Up(parents, id, i + k) == Up(parents, a, k)
  {
    if k > 0 {
      UpFrom(parents, id, i, a, k - 1);
    } else {
      UpIsNode(parents, id, i);
    }
  }

  lemma {:induction false} UpIsNode(parents: Parents, id: string, n: nat)
    ensures Up(parents, id, n).Some? ==> Up(parents, id, n).value in parents
  {
    if n > 0 {
      UpIsNode(parents, id, n - 1);
    }
  }

  lemma ReachesTransitive(parents: Parents, a: string, b: string, c: string)
    requires Reaches(parents, a, b) && Reaches(parents, b, c)
    ensures Reaches(parents, a, c)
  {
    var i: nat :| Up(parents, a, i) == Some(b);
    var k: nat :| Up(parents, b, k) == Some(c);
    UpFrom(parents, a, i, b, k);
  }

  /** Of two nodes above one node, one is above the other. */
  lemma AncestorsAreAligned(parents: Parents, id: string, a: string, b: string)
    requires Reaches(parents, id, a) && Reaches(parents, id, b)
    ensures Reaches(parents, a, b) || Reaches(parents, b, a)
  {
    var i: nat :| Up(parents, id, i) == Some(a);
    var j: nat :| Up(parents, id, j) == Some(b);
    if i <= j { UpFrom(parents, id, i, a, j - i); } else { UpFrom(parents, id, j, b, i - j); }
  }

  lemma {:induction false} WalkClimbs(parents: Parents, id: string, seen: set<string>, x: string)
    requires id in parents && x in Walk(parents, id, seen)
    ensures Reaches(parents, id, x)
    decreases |parents.Keys - seen|
  {
    var up := parents[id].value;
    assert Up(parents, id, 0) == Some(id) && Up(parents, id, 1) == Some(up);
    SmallerSet(parents.Keys - (seen + {up}), parents.Keys - seen);
    if x != up {
      WalkClimbs(parents, up, seen + {up}, x);
      ReachesTransitive(parents, id, up, x);
    }
  }

  /** Above every node of the walk lies only the walk. */
  ghost predicate ClosedUpward(parents: Parents, nodes: set<string>) {
    forall x :: x in nodes && HasParent(parents, x) ==> parents[x].value in nodes
  }

  lemma {:induction false} WalkIsClosed(parents: Parents, id: string, seen: set<string>)
    requires id in seen && forall x :: x in seen && x != id && HasParent(parents, x) ==> parents[x].value in seen
    ensures ClosedUpward(parents, seen + set x | x in Walk(parents, id, seen))
    decreases |parents.Keys - seen|
  {
    if HasParent(parents, id) && parents[id].value !in seen {
      var up := parents[id].value;
      SmallerSet(parents.Keys - (seen + {up}), parents.Keys - seen);
      WalkIsClosed(parents, up, seen + {up});
      assert seen + (set x | x in Walk(parents, id, seen)) == seen + {up} + set x | x in Walk(parents, up, seen + {up});
    }
  }

  lemma {:induction false} ClosedContainsReachable(parents: Parents, nodes: set<string>, id: string, n: nat)
    requires id in nodes && ClosedUpward(parents, nodes)
    ensures Up(parents, id, n).Some? ==> Up(parents, id, n).value in nodes
  {
    if n > 0 {
      ClosedContainsReachable(parents, nodes, id, n - 1);
    }
  }

  /** A node's path holds exactly the nodes reachable upward from it, on any parent links. */
  lemma PathIsReachability(parents: Parents, id: string, x: string)
    requires id in parents
    ensures x in AncestorsOf(parents, id) + [id] <==> Reaches(parents, id, x)
  {
    var nodes := {id} + set y | y in Walk(parents, id, {id});
    WalkIsClosed(parents, id, {id});
    if Reaches(parents, id, x) {
      var n: nat :| Up(parents, id, n) == Some(x);
      ClosedContainsReachable(parents, nodes, id, n);
    }
    if x in Walk(parents, id, {id}) {
      WalkClimbs(parents, id, {id}, x);
    }
    assert Up(parents, id, 0) == Some(id);
  }

  /** The walk never repeats a node, so a cycle cannot make it run on. */
  lemma {:induction false} WalkNeverRepeats(parents: Parents, id: string, seen: set<string>)
    ensures var w := Walk(parents, id, seen);
            (forall x :: x in w ==> x !in seen) && forall i, j :: 0 <= i < j < |w| ==> w[i] != w[j]
    decreases |parents.Keys - seen|
  {
    if HasParent(parents, id) && parents[id].value !in seen {
      var up := parents[id].value;
      SmallerSet(parents.Keys - (seen + {up}), parents.Keys - seen);
      WalkNeverRepeats(parents, up, seen + {up});
    }
  }

  // ---- reading and writing on the tree ----------------------------------------------------------------------------

  const HIERARCHY := "hierarchy"

  /** Grants as loaded: a hierarchy grant carries the ancestors of its node, if the node exists. */
  predicate Loaded(g: Grant, parents: Parents) {
    g.nodeType == HIERARCHY ==> g.ancestors == if g.nodeId in parents then AncestorsOf(parents, g.nodeId) else []
  }

  function Node(parents: Parents, id: string): Target {
    TargetOf(parents, id, HIERARCHY, RoomLocal)
  }

  predicate CanRead(p: Principal, parents: Parents, id: string, grants: seq<Grant>) {
    Authorize(p, Read, [Node(parents, id)], grants).allowed
  }

  /** Whoever can read a node can read every node above it, on any parent links. */
  lemma ReadableNodesAreClosedUpward(p: Principal, parents: Parents, id: string, above: string, grants: seq<Grant>)
    requires id in parents && above in Node(parents, id).Path()
    requires forall g :: g in grants ==> Loaded(g, parents)
    requires CanRead(p, parents, id, grants)
    ensures CanRead(p, parents, above, grants)
  {
    PathIsReachability(parents, id, above);
    var n: nat :| Up(parents, id, n) == Some(above);
    UpIsNode(parents, id, n);
    var (t, a) := (Node(parents, id), Node(parents, above));
    AllowedExactly(p, Read, [t], grants);
    AllowedExactly(p, Read, [a], grants);
    if !(p.kind == User && p.isAdmin) {
      DeniedAboveIsDeniedBelow(p, parents, id, above, grants);
      assert t in [t];
      assert Permitted(p, Read, t, grants);
      var g :| g in grants && MatchesPrincipal(p, g) && g.allow && GrantApplies(Read, g, t) && GrantAllows(g, Read, t);
      AllowReachesUpward(parents, id, above, g);
      assert Permitted(p, Read, a, grants);
    }
  }

  lemma DeniedAboveIsDeniedBelow(p: Principal, parents: Parents, id: string, above: string, grants: seq<Grant>)
    requires id in parents && above in parents && Reaches(parents, id, above)
    ensures Denied(p, Read, Node(parents, above), grants) ==> Denied(p, Read, Node(parents, id), grants)
  {
    if Denied(p, Read, Node(parents, above), grants) {
      var g :| g in grants && MatchesPrincipal(p, g) && GrantApplies(Read, g, Node(parents, above)) && !g.allow;
      PathIsReachability(parents, above, g.nodeId);
      ReachesTransitive(parents, id, above, g.nodeId);
      PathIsReachability(parents, id, g.nodeId);
    }
  }

  lemma AllowReachesUpward(parents: Parents, id: string, above: string, g: Grant)
    requires id in parents && above in parents && Reaches(parents, id, above)
    requires Loaded(g, parents) && g.allow && GrantApplies(Read, g, Node(parents, id))
    ensures GrantApplies(Read, g, Node(parents, above))
  {
    if id in g.Path() {
      assert g.nodeId in parents;
      PathIsReachability(parents, g.nodeId, id);
      ReachesTransitive(parents, g.nodeId, id, above);
      PathIsReachability(parents, g.nodeId, above);
    } else {
      PathIsReachability(parents, id, g.nodeId);
      var n: nat :| Up(parents, id, n) == Some(g.nodeId);
      UpIsNode(parents, id, n);
      AncestorsAreAligned(parents, id, above, g.nodeId);
      PathIsReachability(parents, above, g.nodeId);
      PathIsReachability(parents, g.nodeId, above);
    }
  }

  /** A deny at a node denies its subtree, for every action, and leaves every decision outside as it was. */
  lemma DenyCoversExactlyItsSubtree(
    p: Principal, parents: Parents, id: string, action: Action, grants: seq<Grant>, deny: Grant)
    requires id in parents && !deny.allow && deny.nodeType == HIERARCHY && MatchesPrincipal(p, deny)
    requires !(p.kind == User && p.isAdmin)
    ensures var (before, after) :=
        (Authorize(p, action, [Node(parents, id)], grants), Authorize(p, action, [Node(parents, id)], grants + [deny]));
            if Reaches(parents, id, deny.nodeId) then after == Decision(false, ExplicitDeny) else after == before
  {
    var t := Node(parents, id);
    PathIsReachability(parents, id, deny.nodeId);
    assert GrantApplies(action, deny, t) <==> Reaches(parents, id, deny.nodeId);
    OneMoreDeny(p, action, t, grants, deny);
  }

  /** One more deny decides where it applies and changes nothing where it does not. */
  lemma OneMoreDeny(p: Principal, action: Action, t: Target, grants: seq<Grant>, deny: Grant)
    requires !deny.allow && MatchesPrincipal(p, deny) && !(p.kind == User && p.isAdmin)
    ensures Authorize(p, action, [t], grants + [deny])
            == if GrantApplies(action, deny, t) then Decision(false, ExplicitDeny)
                else Authorize(p, action, [t], grants)
  {
    var own, own' := Matching(p, grants), Matching(p, grants + [deny]);
    forall g ensures g in own' <==> g in own || g == deny {
      assert g in grants + [deny] <==> g in grants || g == deny;
    }
    assert AuthorizeTarget(action, t, own') == if GrantApplies(action, deny, t) then Decision(false, ExplicitDeny)
        else AuthorizeTarget(action, t, own);
    SingleTarget(p, action, t, grants);
    SingleTarget(p, action, t, grants + [deny]);
  }

  lemma SingleTarget(p: Principal, action: Action, t: Target, grants: seq<Grant>)
    requires !(p.kind == User && p.isAdmin)
    ensures var d := AuthorizeTarget(action, t, Matching(p, grants)); Authorize(p, action, [t], grants) == d
  {
    assert t in [t] && forall x :: x in [t] ==> x == t;
  }

  const TWO_NODES: Parents := map["root" := None, "room" := Some("root")]

  lemma TwoNodePaths()
    ensures AncestorsOf(TWO_NODES, "room") == ["root"] && AncestorsOf(TWO_NODES, "root") == []
  {
    assert Walk(TWO_NODES, "root", {"room"} + {"root"}) == [];
    assert Walk(TWO_NODES, "room", {"room"}) == ["root"];
    assert Walk(TWO_NODES, "root", {"root"}) == [];
    assert Reversed(["root"]) == Reversed([]) + ["root"];
  }

  /** Writing has no such closure: a child may be writable under a parent that is not. */
  lemma WritingIsNotClosedUpward(p: Principal)
    requires !(p.kind == User && p.isAdmin)
    ensures var g := Grant(p.kind, p.subject, HIERARCHY, "room", Owner, true, false, ["root"]);
            && Loaded(g, TWO_NODES) && "root" in Node(TWO_NODES, "room").Path()
            && Authorize(p, Write, [Node(TWO_NODES, "room")], [g]).allowed
            && !Authorize(p, Write, [Node(TWO_NODES, "root")], [g]).allowed
  {
    TwoNodePaths();
    var g := Grant(p.kind, p.subject, HIERARCHY, "room", Owner, true, false, ["root"]);
    var (room, root) := (Node(TWO_NODES, "room"), Node(TWO_NODES, "root"));
    SingleTarget(p, Write, room, [g]);
    SingleTarget(p, Write, root, [g]);
    TargetDecision(p, Write, room, [g]);
    TargetDecision(p, Write, root, [g]);
    assert g in [g] && GrantApplies(Write, g, room) && GrantAllows(g, Write, room);
    assert Permitted(p, Write, room, [g]);
    assert !GrantApplies(Write, g, root);
  }
}
