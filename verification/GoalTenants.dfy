/**
 Organizations in the GoalGraph tables: when deleting one leaves the rows of the others alone.
 */
module GoalTenants {
  import opened Options
  import opened GoalGraph

  // ---------------------------------------------------------------------------
  // Tenants kept apart
  // ---------------------------------------------------------------------------

  predicate NodeApart(t: Tables, n: Node) {
    && (n.goal in t.goals ==> t.goals[n.goal].org == n.org)
    && (n.parent.Some? && n.parent.value in t.nodes ==> t.nodes[n.parent.value].org == n.org)
  }

  predicate EdgeApart(t: Tables, e: Edge) {
    && (e.source in t.nodes ==> t.nodes[e.source].org == e.org)
    && (e.target in t.nodes ==> t.nodes[e.target].org == e.org)
  }

  predicate LinkApart(t: Tables, l: Link) {
    && (l.goal in t.goals ==> t.goals[l.goal].org == l.org)
    && (l.memory in t.memories ==> t.memories[l.memory] == l.org)
    && (l.node.Some? && l.node.value in t.nodes ==> t.nodes[l.node.value].org == l.org)
  }

  predicate EntryApart(t: Tables, a: Entry) {
    && (a.goal in t.goals ==> t.goals[a.goal].org == a.org)
    && (a.node.Some? && a.node.value in t.nodes ==> t.nodes[a.node.value].org == a.org)
  }

  ghost predicate NodesApart(t: Tables) {
    forall i :: i in t.nodes ==> NodeApart(t, t.nodes[i])
  }

  ghost predicate EdgesApart(t: Tables) {
    forall i :: i in t.edges ==> EdgeApart(t, t.edges[i])
  }

  ghost predicate LinksApart(t: Tables) {
    forall i :: i in t.links ==> LinkApart(t, t.links[i])
  }

  ghost predicate LogApart(t: Tables) {
    forall i :: i in t.log ==> EntryApart(t, t.log[i])
  }

  /** No row refers to a row of another organization. */
  ghost predicate TenantsApart(t: Tables) {
    NodesApart(t) && EdgesApart(t) && LinksApart(t) && LogApart(t)
  }

  /** The rows of the other organizations. */
  function Others(t: Tables, org: Id): Tables {
    Tables(t.orgs - {org}, t.users,
           map i | i in t.memories && t.memories[i] != org :: t.memories[i],
           map i | i in t.goals && t.goals[i].org != org :: t.goals[i],
           map i | i in t.nodes && t.nodes[i].org != org :: t.nodes[i],
           map i | i in t.edges && t.edges[i].org != org :: t.edges[i],
           map i | i in t.links && t.links[i].org != org :: t.links[i],
           map i | i in t.log && t.log[i].org != org :: t.log[i])
  }

  lemma OrgTakesItsOwnNodes(t: Tables, org: Id)
    requires Sound(t) && TenantsApart(t)
    ensures DeadOrg(t, org).nodes == NodesOf(t, org)
  {
    hide EdgesApart, LinksApart, LogApart, MemoriesRefer, GoalsRefer, EdgesRefer, LinksRefer, LogRefers, KeysUnique;
  }

  lemma OtherNodesStay(t: Tables, org: Id)
    requires Sound(t) && TenantsApart(t)
    ensures NodesWithout(t.nodes, DeadOrg(t, org)) == Others(t, org).nodes
  {
    OrgTakesItsOwnNodes(t, org);
    hide EdgesApart, LinksApart, LogApart, DeadOrg;
  }

  lemma OtherEdgesStay(t: Tables, org: Id)
    requires Sound(t) && TenantsApart(t)
    ensures EdgesWithout(t.edges, DeadOrg(t, org)) == Others(t, org).edges
  {
    OrgTakesItsOwnNodes(t, org);
    var d := DeadOrg(t, org);
    assert d.orgs == {org};
    hide NodesApart, LinksApart, LogApart, DeadOrg, MemoriesRefer, GoalsRefer, NodesRefer, LinksRefer, LogRefers, KeysUnique;
  }

  lemma OtherLinksStay(t: Tables, org: Id)
    requires Sound(t) && TenantsApart(t)
    ensures LinksWithout(t.links, DeadOrg(t, org)) == Others(t, org).links
  {
    OrgTakesItsOwnNodes(t, org);
    var d := DeadOrg(t, org);
    assert d.orgs == {org} && d.goals == GoalsOf(t, org) && d.memories == MemoriesOf(t, org);
    hide NodesApart, EdgesApart, LogApart, DeadOrg, MemoriesRefer, GoalsRefer, NodesRefer, EdgesRefer, LogRefers, KeysUnique;
  }

  lemma OtherEntriesStay(t: Tables, org: Id)
    requires Sound(t) && TenantsApart(t)
    ensures LogWithout(t.log, DeadOrg(t, org)) == Others(t, org).log
  {
    OrgTakesItsOwnNodes(t, org);
    var d := DeadOrg(t, org);
    assert d.orgs == {org} && d.goals == GoalsOf(t, org);
    hide NodesApart, EdgesApart, LinksApart, DeadOrg, KeysUnique;
    hide MemoriesRefer, GoalsRefer, NodesRefer, EdgesRefer, LinksRefer;
  }

  lemma OtherGoalsStay(t: Tables, org: Id)
    requires Sound(t)
    ensures GoalsWithout(t.goals, DeadOrg(t, org)) == Others(t, org).goals
    ensures t.memories - DeadOrg(t, org).memories == Others(t, org).memories
  {
  }

  /** Where tenants are kept apart, deleting an organization leaves every row of the others as it was. */
  lemma DeletingAnOrgSparesTheOthers(t: Tables, org: Id)
    requires Sound(t) && TenantsApart(t)
    ensures Apply(t, DeleteOrg(org)) == Others(t, org)
  {
    hide Sound, TenantsApart, GoalsWithout, NodesWithout, EdgesWithout, LinksWithout, LogWithout;
    if org in t.orgs {
      OtherNodesStay(t, org);
      OtherEdgesStay(t, org);
      OtherLinksStay(t, org);
      OtherEntriesStay(t, org);
      OtherGoalsStay(t, org);
      var d, v := DeadOrg(t, org), Others(t, org);
      assert d.orgs == {org} && d.users == {};
      assert v.orgs == t.orgs - {org} && v.users == t.users == t.users - {};
      hide Others, DeadOrg;
    } else {
      NothingToSpare(t, org);
    }
  }

  lemma NothingToSpare(t: Tables, org: Id)
    requires Sound(t) && org !in t.orgs
    ensures Others(t, org) == t
  {
    NoRowsOfAbsentOrgs(t, org);
    hide Sound;
    var v := Others(t, org);
    assert v.orgs == t.orgs && v.memories == t.memories && v.goals == t.goals && v.nodes == t.nodes;
    assert v.edges == t.edges && v.links == t.links && v.log == t.log;
  }

  lemma NoRowsOfAbsentOrgs(t: Tables, org: Id)
    requires Sound(t) && org !in t.orgs
    ensures forall i :: i in t.memories ==> t.memories[i] != org
    ensures forall i :: i in t.goals ==> t.goals[i].org != org
    ensures forall i :: i in t.nodes ==> t.nodes[i].org != org
    ensures forall i :: i in t.edges ==> t.edges[i].org != org
    ensures forall i :: i in t.links ==> t.links[i].org != org
    ensures forall i :: i in t.log ==> t.log[i].org != org
  {
    hide KeysUnique;
  }

  ghost predicate DeletesSpareTheOthers(t: Tables) {
    forall org :: Apply(t, DeleteOrg(org)) == Others(t, org)
  }

  lemma SparedNodesAreApart(t: Tables)
    requires Sound(t) && DeletesSpareTheOthers(t)
    ensures NodesApart(t)
  {
    forall i | i in t.nodes ensures NodeApart(t, t.nodes[i]) {
      var n := t.nodes[i];
      var o := t.goals[n.goal].org;
      assert Apply(t, DeleteOrg(o)).nodes == Others(t, o).nodes;
      assert n.org != o ==> i in Others(t, o).nodes;
      if n.parent.Some? {
        var p := t.nodes[n.parent.value].org;
        assert Apply(t, DeleteOrg(p)).nodes == Others(t, p).nodes;
        assert n.org != p ==> i in Others(t, p).nodes;
      }
    }
  }

  lemma EdgeGoesWithItsEnds(t: Tables, i: Id, n: Id)
    requires i in t.edges && n in t.nodes && t.nodes[n].org in t.orgs
    requires n == t.edges[i].source || n == t.edges[i].target
    ensures i !in Apply(t, DeleteOrg(t.nodes[n].org)).edges
  {
    assert n in DeadOrg(t, t.nodes[n].org).nodes;
  }

  lemma SparedEdgesAreApart(t: Tables)
    requires Sound(t) && DeletesSpareTheOthers(t)
    ensures EdgesApart(t)
  {
    forall i | i in t.edges ensures EdgeApart(t, t.edges[i]) {
      var e := t.edges[i];
      var a, b := t.nodes[e.source].org, t.nodes[e.target].org;
      EdgeGoesWithItsEnds(t, i, e.source);
      EdgeGoesWithItsEnds(t, i, e.target);
      hide Apply;
      assert Apply(t, DeleteOrg(a)) == Others(t, a) && Apply(t, DeleteOrg(b)) == Others(t, b);
      assert e.org != a ==> i in Others(t, a).edges;
      assert e.org != b ==> i in Others(t, b).edges;
    }
  }

  lemma LinkGoesWithItsOwners(t: Tables, i: Id)
    requires NothingDangles(t) && i in t.links
    ensures i !in Apply(t, DeleteOrg(t.goals[t.links[i].goal].org)).links
    ensures i !in Apply(t, DeleteOrg(t.memories[t.links[i].memory])).links
  {
    hide EdgesRefer, LogRefers, NodesRefer, EdgesWithout, LogWithout, NodesWithout;
    assert t.links[i].goal in DeadOrg(t, t.goals[t.links[i].goal].org).goals;
    assert t.links[i].memory in DeadOrg(t, t.memories[t.links[i].memory]).memories;
  }

  lemma LinkForgetsItsNode(t: Tables, i: Id, n: Id)
    requires NothingDangles(t) && i in t.links && t.links[i].node == Some(n)
    ensures var u := Apply(t, DeleteOrg(t.nodes[n].org)); i in u.links ==> u.links[i] != t.links[i]
  {
    hide EdgesRefer, LogRefers, EdgesWithout, LogWithout, NodesWithout;
    assert n in DeadOrg(t, t.nodes[n].org).nodes;
  }

  lemma SparedLinksAreApart(t: Tables)
    requires Sound(t) && DeletesSpareTheOthers(t)
    ensures LinksApart(t)
  {
    hide Apply;
    forall i | i in t.links ensures LinkApart(t, t.links[i]) {
      var l := t.links[i];
      var a, b := t.goals[l.goal].org, t.memories[l.memory];
      LinkGoesWithItsOwners(t, i);
      assert Apply(t, DeleteOrg(a)) == Others(t, a) && Apply(t, DeleteOrg(b)) == Others(t, b);
      assert l.org != a ==> i in Others(t, a).links;
      assert l.org != b ==> i in Others(t, b).links;
      if l.node.Some? {
        var c := t.nodes[l.node.value].org;
        LinkForgetsItsNode(t, i, l.node.value);
        assert Apply(t, DeleteOrg(c)) == Others(t, c);
        assert l.org != c ==> i in Others(t, c).links;
      }
    }
  }

  lemma SparedEntriesAreApart(t: Tables)
    requires Sound(t) && DeletesSpareTheOthers(t)
    ensures LogApart(t)
  {
    forall i | i in t.log ensures EntryApart(t, t.log[i]) {
      var e := t.log[i];
      var a := t.goals[e.goal].org;
      assert Apply(t, DeleteOrg(a)).log == Others(t, a).log;
      assert e.org != a ==> i in Others(t, a).log;
      if e.node.Some? {
        var c := t.nodes[e.node.value].org;
        assert Apply(t, DeleteOrg(c)).log == Others(t, c).log;
        assert e.org != c ==> i in Others(t, c).log;
      }
    }
  }

  /** Deleting any organization leaves every row of the others as it was exactly when no row refers to a row of
      another organization. */
  lemma DeletesSpareTheOthersExactlyWhenApart(t: Tables)
    requires Sound(t)
    ensures DeletesSpareTheOthers(t) <==> TenantsApart(t)
  {
    hide Sound, NodesApart, EdgesApart, LinksApart, LogApart, Others, Apply;
    if DeletesSpareTheOthers(t) {
      SparedNodesAreApart(t);
      SparedEdgesAreApart(t);
      SparedLinksAreApart(t);
      SparedEntriesAreApart(t);
    }
    if TenantsApart(t) {
      forall org ensures Apply(t, DeleteOrg(org)) == Others(t, org) {
        DeletingAnOrgSparesTheOthers(t, org);
      }
    }
  }

  // ---------------------------------------------------------------------------
  // Which statements keep tenants apart
  // ---------------------------------------------------------------------------

  /** What an inserted row refers to lies in its own organization. */
  predicate RefersWithin(t: Tables, s: Statement) {
    match s
    case InsertNode(_, n) => NodeApart(t, n)
    case InsertEdge(_, e) => EdgeApart(t, e)
    case InsertLink(_, l) => LinkApart(t, l)
    case InsertEntry(_, a) => EntryApart(t, a)
    case _ => true
  }

  lemma NewNodesApart(t: Tables, id: Id, n: Node)
    requires Sound(t) && TenantsApart(t) && NodeFits(t, id, n)
    ensures TenantsApart(t.(nodes := t.nodes[id := n])) <==> NodeApart(t, n)
  {
    var u := t.(nodes := t.nodes[id := n]);
    assert u.nodes[id] == n;
    assert NodeApart(u, n) <==> NodeApart(t, n);
    forall i | i in t.nodes ensures NodeApart(u, t.nodes[i]) { assert NodeApart(t, t.nodes[i]); }
    forall i | i in t.edges ensures EdgeApart(u, t.edges[i]) { assert EdgeApart(t, t.edges[i]); }
    forall i | i in t.links ensures LinkApart(u, t.links[i]) { assert LinkApart(t, t.links[i]); }
    forall i | i in t.log ensures EntryApart(u, t.log[i]) { assert EntryApart(t, t.log[i]); }
  }

  lemma NewOwnersApart(t: Tables, id: Id, g: Goal, org: Id)
    requires Sound(t) && TenantsApart(t)
    ensures id !in t.goals ==> TenantsApart(t.(goals := t.goals[id := g]))
    ensures id !in t.memories ==> TenantsApart(t.(memories := t.memories[id := org]))
  {
    var u, v := t.(goals := t.goals[id := g]), t.(memories := t.memories[id := org]);
    forall i | i in t.nodes && id !in t.goals ensures NodeApart(u, t.nodes[i]) { assert NodeApart(t, t.nodes[i]); }
    forall i | i in t.links && id !in t.goals ensures LinkApart(u, t.links[i]) { assert LinkApart(t, t.links[i]); }
    forall i | i in t.log && id !in t.goals ensures EntryApart(u, t.log[i]) { assert EntryApart(t, t.log[i]); }
    forall i | i in t.links && id !in t.memories ensures LinkApart(v, t.links[i]) { assert LinkApart(t, t.links[i]); }
    assert forall i :: i in t.edges ==> EdgeApart(u, t.edges[i]) && EdgeApart(v, t.edges[i]);
  }

  lemma NewEdgesApart(t: Tables, id: Id, e: Edge)
    requires TenantsApart(t) && id !in t.edges
    ensures TenantsApart(t.(edges := t.edges[id := e])) <==> EdgeApart(t, e)
  {
    var u := t.(edges := t.edges[id := e]);
    assert u.edges[id] == e;
    assert forall x :: EdgeApart(u, x) <==> EdgeApart(t, x);
  }

  lemma NewLinksApart(t: Tables, id: Id, l: Link)
    requires TenantsApart(t) && id !in t.links
    ensures TenantsApart(t.(links := t.links[id := l])) <==> LinkApart(t, l)
  {
    var u := t.(links := t.links[id := l]);
    assert u.links[id] == l;
    assert forall x :: LinkApart(u, x) <==> LinkApart(t, x);
  }

  lemma NewEntriesApart(t: Tables, id: Id, a: Entry)
    requires TenantsApart(t) && id !in t.log
    ensures TenantsApart(t.(log := t.log[id := a])) <==> EntryApart(t, a)
  {
    var u := t.(log := t.log[id := a]);
    assert u.log[id] == a;
    assert forall x :: EntryApart(u, x) <==> EntryApart(t, x);
  }

  lemma RemovalKeepsApart(t: Tables, d: Dead)
    requires TenantsApart(t)
    ensures TenantsApart(Without(t, d))
  {
    var u := Without(t, d);
    forall i | i in u.nodes ensures NodeApart(u, u.nodes[i]) { assert NodeApart(t, t.nodes[i]); }
    forall i | i in u.edges ensures EdgeApart(u, u.edges[i]) { assert EdgeApart(t, t.edges[i]); }
    forall i | i in u.links ensures LinkApart(u, u.links[i]) { assert LinkApart(t, t.links[i]); }
    forall i | i in u.log ensures EntryApart(u, u.log[i]) { assert EntryApart(t, t.log[i]); }
  }

  lemma DroppingKeepsApart(t: Tables, id: Id)
    requires TenantsApart(t)
    ensures TenantsApart(t.(edges := t.edges - {id})) && TenantsApart(t.(links := t.links - {id}))
    ensures TenantsApart(t.(log := t.log - {id}))
  {
    var u, v, w := t.(edges := t.edges - {id}), t.(links := t.links - {id}), t.(log := t.log - {id});
    forall n ensures NodeApart(t, n) <==> NodeApart(u, n) && NodeApart(v, n) && NodeApart(w, n) {}
    forall e ensures EdgeApart(t, e) <==> EdgeApart(u, e) && EdgeApart(v, e) && EdgeApart(w, e) {}
    forall l ensures LinkApart(t, l) <==> LinkApart(u, l) && LinkApart(v, l) && LinkApart(w, l) {}
    forall a ensures EntryApart(t, a) <==> EntryApart(u, a) && EntryApart(v, a) && EntryApart(w, a) {}
    hide NodeApart, EdgeApart, LinkApart, EntryApart;
  }

  /** A statement keeps tenants apart exactly when it is rejected or refers within one organization; so only inserts
      can mix tenants. */
  lemma StatementKeepsTenantsApart(t: Tables, s: Statement)
    requires Sound(t) && TenantsApart(t)
    ensures TenantsApart(Apply(t, s)) <==> Apply(t, s) == t || RefersWithin(t, s)
  {
    hide Sound, TenantsApart, Without, NodeApart, EdgeApart, LinkApart, EntryApart;
    match s
    case InsertOrg(id) => OwnersDoNotMatter(t, id);
    case InsertUser(id) => OwnersDoNotMatter(t, id);
    case InsertMemory(id, org) => NewOwnersApart(t, id, Goal(org, None, Scope.Personal, None), org);
    case InsertGoal(id, g) => NewOwnersApart(t, id, g, g.org);
    case InsertNode(id, n) => if NodeFits(t, id, n) { NewNodesApart(t, id, n); }
    case InsertEdge(id, e) => if EdgeFits(t, id, e) { NewEdgesApart(t, id, e); }
    case InsertLink(id, l) => if LinkFits(t, id, l) { NewLinksApart(t, id, l); }
    case InsertEntry(id, a) => if EntryFits(t, id, a) { NewEntriesApart(t, id, a); }
    case DeleteOrg(id) => RemovalKeepsApart(t, DeadOrg(t, id));
    case DeleteUser(id) => RemovalKeepsApart(t, NONE.(users := {id}));
    case DeleteMemory(id) => RemovalKeepsApart(t, NONE.(memories := {id}));
    case DeleteGoal(id) => RemovalKeepsApart(t, DeadGoal(t, id));
    case DeleteNode(id) => RemovalKeepsApart(t, DeadNode(id));
    case DeleteEdge(id) => DroppingKeepsApart(t, id);
    case DeleteLink(id) => DroppingKeepsApart(t, id);
    case DeleteEntry(id) => DroppingKeepsApart(t, id);
  }

  lemma OwnersDoNotMatter(t: Tables, id: Id)
    requires TenantsApart(t)
    ensures TenantsApart(t.(orgs := t.orgs + {id})) && TenantsApart(t.(users := t.users + {id}))
  {
  }

  /** Every statement of the history refers within one organization when its turn comes. */
  predicate HistoryRefersWithin(t: Tables, history: seq<Statement>)
    decreases |history|
  {
    history == [] || (RefersWithin(t, history[0]) && HistoryRefersWithin(Apply(t, history[0]), history[1..]))
  }

  /** After any history of statements that refer within one organization, every delete of an organization spares
      the others. */
  lemma {:induction false} HistoriesWithinSpareTheOthers(t: Tables, history: seq<Statement>)
    requires Sound(t) && TenantsApart(t) && HistoryRefersWithin(t, history)
    ensures TenantsApart(Run(t, history)) && DeletesSpareTheOthers(Run(t, history))
    decreases |history|
  {
    hide Sound, TenantsApart, DeletesSpareTheOthers, Apply, RefersWithin;
    if history == [] {
      DeletesSpareTheOthersExactlyWhenApart(t);
    } else {
      StatementKeepsTenantsApart(t, history[0]);
      StatementKeepsSound(t, history[0]);
      HistoriesWithinSpareTheOthers(Apply(t, history[0]), history[1..]);
    }
  }

  /** A node of organization `b` in a goal of organization `a`. */
  function CrossTenantHistory(a: Id, b: Id, goal: Id, node: Id): seq<Statement> {
    [InsertOrg(a), InsertOrg(b),
     InsertGoal(goal, Goal(a, None, Scope.Organization, None)),
     InsertNode(node, Node(b, goal, None))]
  }

  /** The keys do not keep tenants apart: a delete of one organization can take a row of another. */
  lemma KeysDoNotKeepTenantsApart(a: Id, b: Id, goal: Id, node: Id)
    requires a != b
    ensures var history := CrossTenantHistory(a, b, goal, node);
            var t := Run(EMPTY, history);
            node in t.nodes && t.nodes[node].org == b && node !in Apply(t, DeleteOrg(a)).nodes
  {
    var history := CrossTenantHistory(a, b, goal, node);
    var t1 := Apply(EMPTY, history[0]);
    var t2 := Apply(t1, history[1]);
    var t3 := Apply(t2, history[2]);
    var t4 := Apply(t3, history[3]);
    assert Run(t4, history[4..]) == t4;
    assert history[3..][1..] == history[4..];
    assert Run(t3, history[3..]) == t4;
    assert history[2..][1..] == history[3..];
    assert Run(t2, history[2..]) == t4;
    assert history[1..][1..] == history[2..];
    assert Run(EMPTY, history) == t4;
  }
}
