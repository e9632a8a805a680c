/**
 The GoalGraph tables of backend/alembic/versions/2026_01_24_0003_add_goal_graph.py: their
 foreign keys with the declared delete actions, and their two unique keys.

 Rows carry the columns that keys refer to. Whether tables outside this migration forbid a
 delete is not part of the model.
 */
module GoalGraph {
  import opened Options

  type Id = string

  /** The values that the check on goals.visibility_scope admits. */
  datatype Scope = Personal | Team | Department | Division | Organization

  datatype Goal = Goal(org: Id, createdBy: Option<Id>, scope: Scope, scopeId: Option<Id>)
  datatype Node = Node(org: Id, goal: Id, parent: Option<Id>)
  datatype Edge = Edge(org: Id, source: Id, target: Id, kind: string)
  datatype Link = Link(org: Id, goal: Id, node: Option<Id>, memory: Id)
  datatype Entry = Entry(org: Id, goal: Id, node: Option<Id>)

  /** The tables; `memories` maps the id of a memory row to its organization. */
  datatype Tables = Tables(
    orgs: set<Id>, users: set<Id>, memories: map<Id, Id>,
    goals: map<Id, Goal>, nodes: map<Id, Node>, edges: map<Id, Edge>, links: map<Id, Link>, log: map<Id, Entry>)

  // ---------------------------------------------------------------------------
  // Integrity
  // ---------------------------------------------------------------------------

  predicate NullOrIn(x: Option<Id>, ids: set<Id>) {
    x.None? || x.value in ids
  }

  // What each table refers to, by the keys of the tables referred to.

  ghost predicate MemoriesRefer(memories: map<Id, Id>, orgs: set<Id>) {
    forall i :: i in memories ==> memories[i] in orgs
  }

  ghost predicate GoalsRefer(goals: map<Id, Goal>, orgs: set<Id>, users: set<Id>) {
    forall i :: i in goals ==> goals[i].org in orgs && NullOrIn(goals[i].createdBy, users)
  }

  ghost predicate NodesRefer(nodes: map<Id, Node>, orgs: set<Id>, goals: set<Id>) {
    forall i :: i in nodes ==>
      nodes[i].org in orgs && nodes[i].goal in goals && NullOrIn(nodes[i].parent, nodes.Keys)
  }

  ghost predicate EdgesRefer(edges: map<Id, Edge>, orgs: set<Id>, nodes: set<Id>) {
    forall i :: i in edges ==> edges[i].org in orgs && edges[i].source in nodes && edges[i].target in nodes
  }

  ghost predicate LinksRefer(links: map<Id, Link>, orgs: set<Id>, memories: set<Id>, goals: set<Id>, nodes: set<Id>) {
    forall i :: i in links ==>
      && links[i].org in orgs && links[i].goal in goals && links[i].memory in memories
      && NullOrIn(links[i].node, nodes)
  }

  ghost predicate LogRefers(log: map<Id, Entry>, orgs: set<Id>, goals: set<Id>, nodes: set<Id>) {
    forall i :: i in log ==> log[i].org in orgs && log[i].goal in goals && NullOrIn(log[i].node, nodes)
  }

  ghost predicate NothingDangles(t: Tables) {
    && MemoriesRefer(t.memories, t.orgs)
    && GoalsRefer(t.goals, t.orgs, t.users)
    && NodesRefer(t.nodes, t.orgs, t.goals.Keys)
    && EdgesRefer(t.edges, t.orgs, t.nodes.Keys)
    && LinksRefer(t.links, t.orgs, t.memories.Keys, t.goals.Keys, t.nodes.Keys)
    && LogRefers(t.log, t.orgs, t.goals.Keys, t.nodes.Keys)
  }

  predicate SameTriplet(a: Edge, b: Edge) {
    a.source == b.source && a.target == b.target && a.kind == b.kind
  }

  predicate SameMemory(a: Link, b: Link) {
    a.org == b.org && a.goal == b.goal && a.memory == b.memory
  }

  /** uq_goal_edges_triplet */
  ghost predicate TripletsUnique(edges: map<Id, Edge>) {
    forall i, j :: i in edges && j in edges && SameTriplet(edges[i], edges[j]) ==> i == j
  }

  /** uq_goal_memory_links_goal_memory */
  ghost predicate MemoriesUnique(links: map<Id, Link>) {
    forall i, j :: i in links && j in links && SameMemory(links[i], links[j]) ==> i == j
  }

  ghost predicate KeysUnique(t: Tables) {
    TripletsUnique(t.edges) && MemoriesUnique(t.links)
  }

  ghost predicate Sound(t: Tables) {
    NothingDangles(t) && KeysUnique(t)
  }

  // ---------------------------------------------------------------------------
  // What a delete does
  // ---------------------------------------------------------------------------

  /** Rows that go away, by table; edges, links and log entries follow from the others. */
  datatype Dead = Dead(orgs: set<Id>, users: set<Id>, memories: set<Id>, goals: set<Id>, nodes: set<Id>)

  const NONE := Dead({}, {}, {}, {}, {})

  function Union(a: Dead, b: Dead): Dead {
    Dead(a.orgs + b.orgs, a.users + b.users, a.memories + b.memories, a.goals + b.goals, a.nodes + b.nodes)
  }

  function Nulled(x: Option<Id>, dead: set<Id>): Option<Id> {
    if x.Some? && x.value in dead then None else x
  }

  predicate EdgeDies(e: Edge, d: Dead) {
    e.org in d.orgs || e.source in d.nodes || e.target in d.nodes
  }

  predicate LinkDies(l: Link, d: Dead) {
    l.org in d.orgs || l.goal in d.goals || l.memory in d.memories
  }

  predicate EntryDies(e: Entry, d: Dead) {
    e.org in d.orgs || e.goal in d.goals
  }

  function GoalsWithout(goals: map<Id, Goal>, d: Dead): map<Id, Goal> {
    map i | i in goals && i !in d.goals :: goals[i].(createdBy := Nulled(goals[i].createdBy, d.users))
  }

  function NodesWithout(nodes: map<Id, Node>, d: Dead): map<Id, Node> {
    map i | i in nodes && i !in d.nodes :: nodes[i].(parent := Nulled(nodes[i].parent, d.nodes))
  }

  function EdgesWithout(edges: map<Id, Edge>, d: Dead): map<Id, Edge> {
    map i | i in edges && !EdgeDies(edges[i], d) :: edges[i]
  }

  function LinksWithout(links: map<Id, Link>, d: Dead): map<Id, Link> {
    map i | i in links && !LinkDies(links[i], d) :: links[i].(node := Nulled(links[i].node, d.nodes))
  }

  function LogWithout(log: map<Id, Entry>, d: Dead): map<Id, Entry> {
    map i | i in log && !EntryDies(log[i], d) :: log[i].(node := Nulled(log[i].node, d.nodes))
  }

  /** The tables without the dead rows: references with CASCADE take their row along, references with
      SET NULL become null, and everything else stays as it is. */
  function Without(t: Tables, d: Dead): Tables {
    Tables(t.orgs - d.orgs, t.users - d.users, t.memories - d.memories,
           GoalsWithout(t.goals, d), NodesWithout(t.nodes, d), EdgesWithout(t.edges, d),
           LinksWithout(t.links, d), LogWithout(t.log, d))
  }

  /** The dead rows include everything that the CASCADE actions demand. */
  ghost predicate CascadeClosed(t: Tables, d: Dead) {
    && (forall i :: i in t.memories && t.memories[i] in d.orgs ==> i in d.memories)
    && (forall i :: i in t.goals && t.goals[i].org in d.orgs ==> i in d.goals)
    && (forall i :: i in t.nodes && (t.nodes[i].org in d.orgs || t.nodes[i].goal in d.goals) ==> i in d.nodes)
  }

  lemma NodesStillRefer(t: Tables, d: Dead)
    requires NothingDangles(t) && CascadeClosed(t, d)
    ensures var u := Without(t, d); NodesRefer(u.nodes, u.orgs, u.goals.Keys) && GoalsRefer(u.goals, u.orgs, u.users)
  {
    hide EdgesRefer, LinksRefer, LogRefers;
  }

  lemma EdgesStillRefer(t: Tables, d: Dead)
    requires NothingDangles(t)
    ensures var u := Without(t, d); EdgesRefer(u.edges, u.orgs, u.nodes.Keys)
  {
    hide MemoriesRefer, GoalsRefer, NodesRefer, LinksRefer, LogRefers;
  }

  lemma LinksStillRefer(t: Tables, d: Dead)
    requires NothingDangles(t)
    ensures var u := Without(t, d); LinksRefer(u.links, u.orgs, u.memories.Keys, u.goals.Keys, u.nodes.Keys)
  {
    hide MemoriesRefer, GoalsRefer, NodesRefer, EdgesRefer, LogRefers;
  }

  lemma LogStillRefers(t: Tables, d: Dead)
    requires NothingDangles(t)
    ensures var u := Without(t, d); LogRefers(u.log, u.orgs, u.goals.Keys, u.nodes.Keys)
  {
    hide MemoriesRefer, GoalsRefer, NodesRefer, EdgesRefer, LinksRefer;
  }

  lemma CascadeLeavesNothingDangling(t: Tables, d: Dead)
    requires NothingDangles(t) && CascadeClosed(t, d)
    ensures NothingDangles(Without(t, d))
  {
    NodesStillRefer(t, d);
    EdgesStillRefer(t, d);
    LinksStillRefer(t, d);
    LogStillRefers(t, d);
    assert MemoriesRefer(t.memories - d.memories, t.orgs - d.orgs);
    hide MemoriesRefer, GoalsRefer, NodesRefer, EdgesRefer, LinksRefer, LogRefers, CascadeClosed;
  }

  lemma CascadeKeepsKeysUnique(t: Tables, d: Dead)
    requires KeysUnique(t)
    ensures KeysUnique(Without(t, d))
  {
    var edges, links := EdgesWithout(t.edges, d), LinksWithout(t.links, d);
    forall i, j | i in edges && j in edges && SameTriplet(edges[i], edges[j]) ensures i == j {
      assert SameTriplet(t.edges[i], t.edges[j]);
    }
    forall i, j | i in links && j in links && SameMemory(links[i], links[j]) ensures i == j {
      assert SameMemory(t.links[i], t.links[j]);
    }
  }

  lemma GoalsTwice(m: map<Id, Goal>, a: Dead, b: Dead)
    ensures GoalsWithout(GoalsWithout(m, a), b) == GoalsWithout(m, Union(a, b))
  {
  }

  lemma NodesTwice(m: map<Id, Node>, a: Dead, b: Dead)
    ensures NodesWithout(NodesWithout(m, a), b) == NodesWithout(m, Union(a, b))
  {
  }

  lemma EdgesTwice(m: map<Id, Edge>, a: Dead, b: Dead)
    ensures EdgesWithout(EdgesWithout(m, a), b) == EdgesWithout(m, Union(a, b))
  {
  }

  lemma LinksTwice(m: map<Id, Link>, a: Dead, b: Dead)
    ensures LinksWithout(LinksWithout(m, a), b) == LinksWithout(m, Union(a, b))
  {
  }

  lemma LogTwice(m: map<Id, Entry>, a: Dead, b: Dead)
    ensures LogWithout(LogWithout(m, a), b) == LogWithout(m, Union(a, b))
  {
  }

  /** Removing rows in two steps is removing them at once. */
  lemma WithoutTwice(t: Tables, a: Dead, b: Dead)
    ensures Without(Without(t, a), b) == Without(t, Union(a, b))
  {
    GoalsTwice(t.goals, a, b);
    NodesTwice(t.nodes, a, b);
    EdgesTwice(t.edges, a, b);
    LinksTwice(t.links, a, b);
    LogTwice(t.log, a, b);
    assert t.memories - a.memories - b.memories == t.memories - (a.memories + b.memories);
    assert t.orgs - a.orgs - b.orgs == t.orgs - (a.orgs + b.orgs);
    assert t.users - a.users - b.users == t.users - (a.users + b.users);
    hide GoalsWithout, NodesWithout, EdgesWithout, LinksWithout, LogWithout;
  }

  // The rows that go with one row of each table.

  function DeadNode(n: Id): Dead {
    NONE.(nodes := {n})
  }

  function DeadGoal(t: Tables, g: Id): Dead {
    NONE.(goals := {g}, nodes := set i | i in t.nodes && t.nodes[i].goal == g)
  }

  function GoalsOf(t: Tables, org: Id): set<Id> {
    set i | i in t.goals && t.goals[i].org == org
  }

  function DeadOrg(t: Tables, org: Id): Dead {
    Dead({org}, {},
         (set i | i in t.memories && t.memories[i] == org),
         GoalsOf(t, org),
         set i | i in t.nodes && (t.nodes[i].org == org || t.nodes[i].goal in GoalsOf(t, org)))
  }

  /** The rows that a delete takes along are the fewest that the CASCADE actions allow. */
  lemma OrgCascadeIsLeast(t: Tables, org: Id, d: Dead)
    requires CascadeClosed(t, d) && org in d.orgs
    ensures CascadeClosed(t, DeadOrg(t, org))
    ensures var least := DeadOrg(t, org); least.memories <= d.memories && least.goals <= d.goals && least.nodes <= d.nodes
  {
  }

  lemma GoalCascadeIsLeast(t: Tables, g: Id, d: Dead)
    requires CascadeClosed(t, d) && g in d.goals
    ensures CascadeClosed(t, DeadGoal(t, g)) && DeadGoal(t, g).nodes <= d.nodes
  {
  }

  // The declared action of each foreign key, for one deleted row.

  /** goal_nodes.parent_node_id SET NULL */
  function NullParent(nodes: map<Id, Node>, n: Id): map<Id, Node> {
    map i | i in nodes :: nodes[i].(parent := Nulled(nodes[i].parent, {n}))
  }

  /** goal_edges.from_node_id and goal_edges.to_node_id CASCADE */
  function DropEdgesOfNode(edges: map<Id, Edge>, n: Id): map<Id, Edge> {
    map i | i in edges && edges[i].source != n && edges[i].target != n :: edges[i]
  }

  /** goal_memory_links.node_id SET NULL */
  function NullLinkNode(links: map<Id, Link>, n: Id): map<Id, Link> {
    map i | i in links :: links[i].(node := Nulled(links[i].node, {n}))
  }

  /** goal_activity_log.node_id SET NULL */
  function NullEntryNode(log: map<Id, Entry>, n: Id): map<Id, Entry> {
    map i | i in log :: log[i].(node := Nulled(log[i].node, {n}))
  }

  /** goal_memory_links.goal_id CASCADE */
  function DropLinksOfGoal(links: map<Id, Link>, g: Id): map<Id, Link> {
    map i | i in links && links[i].goal != g :: links[i]
  }

  /** goal_activity_log.goal_id CASCADE */
  function DropEntriesOfGoal(log: map<Id, Entry>, g: Id): map<Id, Entry> {
    map i | i in log && log[i].goal != g :: log[i]
  }

  /** goal_memory_links.memory_id CASCADE */
  function DropLinksOfMemory(links: map<Id, Link>, m: Id): map<Id, Link> {
    map i | i in links && links[i].memory != m :: links[i]
  }

  /** goals.created_by_user_id SET NULL */
  function NullCreator(goals: map<Id, Goal>, u: Id): map<Id, Goal> {
    map i | i in goals :: goals[i].(createdBy := Nulled(goals[i].createdBy, {u}))
  }

  /** goal_edges.organization_id CASCADE */
  function DropEdgesOfOrg(edges: map<Id, Edge>, org: Id): map<Id, Edge> {
    map i | i in edges && edges[i].org != org :: edges[i]
  }

  /** goal_memory_links.organization_id CASCADE */
  function DropLinksOfOrg(links: map<Id, Link>, org: Id): map<Id, Link> {
    map i | i in links && links[i].org != org :: links[i]
  }

  /** goal_activity_log.organization_id CASCADE */
  function DropEntriesOfOrg(log: map<Id, Entry>, org: Id): map<Id, Entry> {
    map i | i in log && log[i].org != org :: log[i]
  }

  // ---------------------------------------------------------------------------
  // Statements
  // ---------------------------------------------------------------------------

  datatype Statement =
    | InsertOrg(id: Id)
    | InsertUser(id: Id)
    | InsertMemory(id: Id, org: Id)
    | InsertGoal(id: Id, goal: Goal)
    | InsertNode(id: Id, node: Node)
    | InsertEdge(id: Id, edge: Edge)
    | InsertLink(id: Id, link: Link)
    | InsertEntry(id: Id, entry: Entry)
    | DeleteOrg(id: Id)
    | DeleteUser(id: Id)
    | DeleteMemory(id: Id)
    | DeleteGoal(id: Id)
    | DeleteNode(id: Id)
    | DeleteEdge(id: Id)
    | DeleteLink(id: Id)
    | DeleteEntry(id: Id)

  predicate IsDelete(s: Statement) {
    || s.DeleteOrg? || s.DeleteUser? || s.DeleteMemory? || s.DeleteGoal? || s.DeleteNode?
    || s.DeleteEdge? || s.DeleteLink? || s.DeleteEntry?
  }

  predicate GoalFits(t: Tables, id: Id, g: Goal) {
    id !in t.goals && g.org in t.orgs && NullOrIn(g.createdBy, t.users)
  }

  /** A node may name itself as its parent: the row is there when its key is checked. */
  predicate NodeFits(t: Tables, id: Id, n: Node) {
    id !in t.nodes && n.org in t.orgs && n.goal in t.goals && NullOrIn(n.parent, t.nodes.Keys + {id})
  }

  predicate EdgeFits(t: Tables, id: Id, e: Edge) {
    && id !in t.edges && e.org in t.orgs && e.source in t.nodes && e.target in t.nodes
    && forall i :: i in t.edges ==> !SameTriplet(t.edges[i], e)
  }

  predicate LinkFits(t: Tables, id: Id, l: Link) {
    && id !in t.links && l.org in t.orgs && l.goal in t.goals && l.memory in t.memories
    && NullOrIn(l.node, t.nodes.Keys)
    && forall i :: i in t.links ==> !SameMemory(t.links[i], l)
  }

  predicate EntryFits(t: Tables, id: Id, a: Entry) {
    id !in t.log && a.org in t.orgs && a.goal in t.goals && NullOrIn(a.node, t.nodes.Keys)
  }

  /** A statement that violates a key is rejected and changes nothing; so does the delete of an absent row. */
  function Apply(t: Tables, s: Statement): Tables {
    match s
    case InsertOrg(id) => t.(orgs := t.orgs + {id})
    case InsertUser(id) => t.(users := t.users + {id})
    case InsertMemory(id, org) => if id !in t.memories && org in t.orgs then t.(memories := t.memories[id := org]) else t
    case InsertGoal(id, g) => if GoalFits(t, id, g) then t.(goals := t.goals[id := g]) else t
    case InsertNode(id, n) => if NodeFits(t, id, n) then t.(nodes := t.nodes[id := n]) else t
    case InsertEdge(id, e) => if EdgeFits(t, id, e) then t.(edges := t.edges[id := e]) else t
    case InsertLink(id, l) => if LinkFits(t, id, l) then t.(links := t.links[id := l]) else t
    case InsertEntry(id, a) => if EntryFits(t, id, a) then t.(log := t.log[id := a]) else t
    case DeleteOrg(id) => if id in t.orgs then Without(t, DeadOrg(t, id)) else t
    case DeleteUser(id) => if id in t.users then Without(t, NONE.(users := {id})) else t
    case DeleteMemory(id) => if id in t.memories then Without(t, NONE.(memories := {id})) else t
    case DeleteGoal(id) => if id in t.goals then Without(t, DeadGoal(t, id)) else t
    case DeleteNode(id) => if id in t.nodes then Without(t, DeadNode(id)) else t
    case DeleteEdge(id) => t.(edges := t.edges - {id})
    case DeleteLink(id) => t.(links := t.links - {id})
    case DeleteEntry(id) => t.(log := t.log - {id})
  }

  function Run(t: Tables, statements: seq<Statement>): Tables
    decreases |statements|
  {
    if statements == [] then t else Run(Apply(t, statements[0]), statements[1..])
  }

  const EMPTY := Tables({}, {}, map[], map[], map[], map[], map[], map[])

  lemma InsertOrgKeepsSound(t: Tables, id: Id)
    requires Sound(t)
    ensures Sound(t.(orgs := t.orgs + {id}))
  {
    hide TripletsUnique, MemoriesUnique;
  }

  lemma InsertUserKeepsSound(t: Tables, id: Id)
    requires Sound(t)
    ensures Sound(t.(users := t.users + {id}))
  {
    hide MemoriesRefer, NodesRefer, EdgesRefer, LinksRefer, LogRefers, TripletsUnique, MemoriesUnique;
  }

  lemma InsertMemoryKeepsSound(t: Tables, id: Id, org: Id)
    requires Sound(t) && id !in t.memories && org in t.orgs
    ensures Sound(t.(memories := t.memories[id := org]))
  {
    hide GoalsRefer, NodesRefer, EdgesRefer, LogRefers, TripletsUnique, MemoriesUnique;
  }

  lemma InsertGoalKeepsSound(t: Tables, id: Id, g: Goal)
    requires Sound(t) && GoalFits(t, id, g)
    ensures Sound(t.(goals := t.goals[id := g]))
  {
    hide MemoriesRefer, EdgesRefer, TripletsUnique, MemoriesUnique;
  }

  lemma InsertNodeKeepsSound(t: Tables, id: Id, n: Node)
    requires Sound(t) && NodeFits(t, id, n)
    ensures Sound(t.(nodes := t.nodes[id := n]))
  {
    hide MemoriesRefer, GoalsRefer, TripletsUnique, MemoriesUnique;
    var u := t.(nodes := t.nodes[id := n]);
    assert u.nodes.Keys == t.nodes.Keys + {id};
    assert forall x :: NullOrIn(x, t.nodes.Keys) ==> NullOrIn(x, u.nodes.Keys);
  }

  lemma InsertEdgeKeepsSound(t: Tables, id: Id, e: Edge)
    requires Sound(t) && EdgeFits(t, id, e)
    ensures Sound(t.(edges := t.edges[id := e]))
  {
    hide MemoriesRefer, GoalsRefer, NodesRefer, LinksRefer, LogRefers, MemoriesUnique;
  }

  lemma InsertLinkKeepsSound(t: Tables, id: Id, l: Link)
    requires Sound(t) && LinkFits(t, id, l)
    ensures Sound(t.(links := t.links[id := l]))
  {
    hide MemoriesRefer, GoalsRefer, NodesRefer, EdgesRefer, LogRefers, TripletsUnique;
  }

  lemma InsertEntryKeepsSound(t: Tables, id: Id, a: Entry)
    requires Sound(t) && EntryFits(t, id, a)
    ensures Sound(t.(log := t.log[id := a]))
  {
    hide MemoriesRefer, GoalsRefer, NodesRefer, EdgesRefer, LinksRefer, TripletsUnique, MemoriesUnique;
  }

  lemma DropEdgeKeepsSound(t: Tables, id: Id)
    requires Sound(t)
    ensures Sound(t.(edges := t.edges - {id}))
  {
    hide MemoriesRefer, GoalsRefer, NodesRefer, LinksRefer, LogRefers, MemoriesUnique;
  }

  lemma DropLinkKeepsSound(t: Tables, id: Id)
    requires Sound(t)
    ensures Sound(t.(links := t.links - {id}))
  {
    hide MemoriesRefer, GoalsRefer, NodesRefer, EdgesRefer, LogRefers, TripletsUnique;
  }

  lemma DropEntryKeepsSound(t: Tables, id: Id)
    requires Sound(t)
    ensures Sound(t.(log := t.log - {id}))
  {
    hide MemoriesRefer, GoalsRefer, NodesRefer, EdgesRefer, LinksRefer, TripletsUnique, MemoriesUnique;
  }

  lemma CascadeKeepsSound(t: Tables, d: Dead)
    requires Sound(t) && CascadeClosed(t, d)
    ensures Sound(Without(t, d))
  {
    hide Without, CascadeClosed, NothingDangles, KeysUnique;
    CascadeLeavesNothingDangling(t, d);
    CascadeKeepsKeysUnique(t, d);
  }

  lemma StatementKeepsSound(t: Tables, s: Statement)
    requires Sound(t)
    ensures Sound(Apply(t, s))
  {
    hide Sound, Without, GoalFits, NodeFits, EdgeFits, LinkFits, EntryFits;
    match s
    case InsertOrg(id) => InsertOrgKeepsSound(t, id);
    case InsertUser(id) => InsertUserKeepsSound(t, id);
    case InsertMemory(id, org) => if id !in t.memories && org in t.orgs { InsertMemoryKeepsSound(t, id, org); }
    case InsertGoal(id, g) => if GoalFits(t, id, g) { InsertGoalKeepsSound(t, id, g); }
    case InsertNode(id, n) => if NodeFits(t, id, n) { InsertNodeKeepsSound(t, id, n); }
    case InsertEdge(id, e) => if EdgeFits(t, id, e) { InsertEdgeKeepsSound(t, id, e); }
    case InsertLink(id, l) => if LinkFits(t, id, l) { InsertLinkKeepsSound(t, id, l); }
    case InsertEntry(id, a) => if EntryFits(t, id, a) { InsertEntryKeepsSound(t, id, a); }
    case DeleteOrg(id) => CascadeKeepsSound(t, DeadOrg(t, id));
    case DeleteUser(id) => CascadeKeepsSound(t, NONE.(users := {id}));
    case DeleteMemory(id) => CascadeKeepsSound(t, NONE.(memories := {id}));
    case DeleteGoal(id) => CascadeKeepsSound(t, DeadGoal(t, id));
    case DeleteNode(id) => CascadeKeepsSound(t, DeadNode(id));
    case DeleteEdge(id) => DropEdgeKeepsSound(t, id);
    case DeleteLink(id) => DropLinkKeepsSound(t, id);
    case DeleteEntry(id) => DropEntryKeepsSound(t, id);
  }

  /** No history of inserts and deletes leaves a dangling reference or a repeated key. */
  lemma {:induction false} EveryHistoryStaysSound(t: Tables, statements: seq<Statement>)
    requires Sound(t)
    ensures Sound(Run(t, statements))
    decreases |statements|
  {
    hide Sound, Apply;
    if statements != [] {
      StatementKeepsSound(t, statements[0]);
      EveryHistoryStaysSound(Apply(t, statements[0]), statements[1..]);
    }
  }

  // ---------------------------------------------------------------------------
  // What a delete means
  // ---------------------------------------------------------------------------

  predicate InGoal(t: Tables, node: Id, g: Id) {
    node in t.nodes && t.nodes[node].goal == g
  }

  /** Deleting a goal removes exactly its nodes, the edges that touch them, its links and its log entries. */
  lemma GoalTakesItsRowsOnly(t: Tables, g: Id)
    requires Sound(t)
    ensures var u := Apply(t, DeleteGoal(g));
            && (forall i :: i in u.goals <==> i in t.goals && i != g)
            && (forall i :: i in u.nodes <==> i in t.nodes && !InGoal(t, i, g))
            && (forall i :: i in u.edges <==>
                  i in t.edges && !InGoal(t, t.edges[i].source, g) && !InGoal(t, t.edges[i].target, g))
            && (forall i :: i in u.links <==> i in t.links && t.links[i].goal != g)
            && (forall i :: i in u.log <==> i in t.log && t.log[i].goal != g)
            && u.orgs == t.orgs && u.users == t.users && u.memories == t.memories
  {
    if g in t.goals {
      assert t.memories - {} == t.memories;
      EdgesOutsideStay(t, g);
      hide EdgesWithout, Sound;
    } else {
      AbsentGoalsHaveNoRows(t, g);
      hide Without, Sound;
    }
  }

  lemma EdgesOutsideStay(t: Tables, g: Id)
    ensures forall i :: i in EdgesWithout(t.edges, DeadGoal(t, g)) <==>
              i in t.edges && !InGoal(t, t.edges[i].source, g) && !InGoal(t, t.edges[i].target, g)
  {
  }

  lemma AbsentGoalsHaveNoRows(t: Tables, g: Id)
    requires Sound(t) && g !in t.goals
    ensures forall i :: !InGoal(t, i, g)
    ensures forall i :: i in t.links ==> t.links[i].goal != g
    ensures forall i :: i in t.log ==> t.log[i].goal != g
  {
    hide MemoriesRefer, GoalsRefer, EdgesRefer, KeysUnique;
  }

  function Forget(t: Tables, g: Id, x: Option<Id>): Option<Id> {
    if x.Some? && InGoal(t, x.value, g) then None else x
  }

  lemma ForgettingIsNulling(t: Tables, g: Id, x: Option<Id>)
    ensures Forget(t, g, x) == Nulled(x, DeadGoal(t, g).nodes)
  {
  }

  /** What outlives a goal is unchanged, except that references to the goal's nodes are null. */
  lemma GoalLeavesTheRestAsItWas(t: Tables, g: Id)
    requires Sound(t)
    ensures var u := Apply(t, DeleteGoal(g));
            && (forall i :: i in u.goals ==> i in t.goals && u.goals[i] == t.goals[i])
            && (forall i :: i in u.nodes ==>
                  i in t.nodes && u.nodes[i] == t.nodes[i].(parent := Forget(t, g, t.nodes[i].parent)))
            && (forall i :: i in u.edges ==> i in t.edges && u.edges[i] == t.edges[i])
            && (forall i :: i in u.links ==>
                  i in t.links && u.links[i] == t.links[i].(node := Forget(t, g, t.links[i].node)))
            && (forall i :: i in u.log ==> i in t.log && u.log[i] == t.log[i].(node := Forget(t, g, t.log[i].node)))
  {
    if g in t.goals {
      forall x ensures Forget(t, g, x) == Nulled(x, DeadGoal(t, g).nodes) { ForgettingIsNulling(t, g, x); }
      hide Forget, Sound;
    } else {
      forall x ensures Forget(t, g, x) == x { NoNodesWithoutTheGoal(t, g, x); }
      hide Forget, Without;
    }
  }

  lemma NoNodesWithoutTheGoal(t: Tables, g: Id, x: Option<Id>)
    requires Sound(t) && g !in t.goals
    ensures Forget(t, g, x) == x
  {
  }

  /** Deletes may come in either order: what they leave depends only on what goes. */
  lemma DeletesCommute(t: Tables, a: Dead, b: Dead)
    ensures Without(Without(t, a), b) == Without(Without(t, b), a)
  {
    hide Without;
    WithoutTwice(t, a, b);
    WithoutTwice(t, b, a);
    assert Union(a, b) == Union(b, a);
  }

  // ---------------------------------------------------------------------------
  // The database
  // ---------------------------------------------------------------------------

  class Database {
    var orgs: set<Id>
    var users: set<Id>
    var memories: map<Id, Id>
    var goals: map<Id, Goal>
    var nodes: map<Id, Node>
    var edges: map<Id, Edge>
    var links: map<Id, Link>
    var log: map<Id, Entry>

    function Snap(): Tables
      reads this
    {
      Tables(orgs, users, memories, goals, nodes, edges, links, log)
    }

    constructor ()
      ensures Snap() == Tables({}, {}, map[], map[], map[], map[], map[], map[])
    {
      orgs, users, memories := {}, {}, map[];
      goals, nodes, edges, links, log := map[], map[], map[], map[], map[];
    }

    /** One node row goes: its edges with it, and references to it become null. */
    method DeleteNode(n: Id)
      modifies this
      ensures Snap() == Without(old(Snap()), DeadNode(n))
    {
      ghost var t := Snap();
      nodes := NullParent(nodes - {n}, n);
      edges := DropEdgesOfNode(edges, n);
      links := NullLinkNode(links, n);
      log := NullEntryNode(log, n);
      NodeRowGoes(t, n);
    }

    /** Node rows go one by one, in any order. */
    method DeleteNodes(dead: set<Id>)
      modifies this
      ensures Snap() == Without(old(Snap()), NONE.(nodes := dead))
    {
      hide Without;
      ghost var t := Snap();
      var todo := dead;
      NothingGoes(t);
      assert dead - todo == {};
      while todo != {}
        invariant todo <= dead
        invariant Snap() == Without(t, NONE.(nodes := dead - todo))
        decreases todo
      {
        var n :| n in todo;
        ghost var done := dead - todo;
        DeleteNode(n);
        OneMoreNode(t, done, n);
        todo := todo - {n};
        assert dead - todo == done + {n};
      }
      assert dead - {} == dead;
    }

    /** One goal row goes: its nodes one by one, then its links and log entries, then the row. */
    method DeleteGoal(g: Id)
      modifies this
      ensures Snap() == Without(old(Snap()), DeadGoal(old(Snap()), g))
    {
      ghost var t := Snap();
      DeleteNodes(set i | i in nodes && nodes[i].goal == g);
      ghost var u := Snap();
      links := DropLinksOfGoal(links, g);
      log := DropEntriesOfGoal(log, g);
      goals := goals - {g};
      GoalRowGoes(u, g);
      WithoutTwice(t, NONE.(nodes := DeadGoal(t, g).nodes), NONE.(goals := {g}));
      assert Union(NONE.(nodes := DeadGoal(t, g).nodes), NONE.(goals := {g})) == DeadGoal(t, g);
    }

    method DeleteMemory(m: Id)
      modifies this
      ensures Snap() == Without(old(Snap()), NONE.(memories := {m}))
    {
      ghost var t := Snap();
      links := DropLinksOfMemory(links, m);
      memories := memories - {m};
      MemoryRowGoes(t, m);
    }

    method DeleteUser(u: Id)
      modifies this
      ensures Snap() == Without(old(Snap()), NONE.(users := {u}))
    {
      ghost var t := Snap();
      goals := NullCreator(goals, u);
      users := users - {u};
      UserRowGoes(t, u);
    }

    method DeleteMemories(dead: set<Id>)
      modifies this
      ensures Snap() == Without(old(Snap()), NONE.(memories := dead))
    {
      hide Without;
      ghost var t := Snap();
      var todo := dead;
      NothingGoes(t);
      assert dead - todo == {};
      while todo != {}
        invariant todo <= dead
        invariant Snap() == Without(t, NONE.(memories := dead - todo))
        decreases todo
      {
        var m :| m in todo;
        ghost var done := dead - todo;
        DeleteMemory(m);
        OneMoreMemory(t, done, m);
        todo := todo - {m};
        assert dead - todo == done + {m};
      }
      assert dead - {} == dead;
    }

    method DeleteGoals(dead: set<Id>)
      modifies this
      ensures Snap() == Without(old(Snap()), GoalsGone(old(Snap()), dead))
    {
      hide Without;
      ghost var t := Snap();
      var todo := dead;
      NothingGoes(t);
      assert dead - todo == {} && GoalsGone(t, {}) == NONE;
      while todo != {}
        invariant todo <= dead
        invariant Snap() == Without(t, GoalsGone(t, dead - todo))
        decreases todo
      {
        var g :| g in todo;
        ghost var done := dead - todo;
        DeleteGoal(g);
        OneMoreGoal(t, done, g);
        todo := todo - {g};
        assert dead - todo == done + {g};
      }
      assert dead - {} == dead;
    }

    /** One organization goes: its memories, goals and nodes row by row, then what is left of its
        edges, links and log entries, then the row. */
    method DeleteOrg(org: Id)
      modifies this
      ensures Snap() == Without(old(Snap()), DeadOrg(old(Snap()), org))
    {
      hide Without;
      ghost var t := Snap();
      DeleteMemories(MemoriesOf(Snap(), org));
      ghost var t1 := Snap();
      DeleteGoals(GoalsOf(Snap(), org));
      ghost var t2 := Snap();
      DeleteNodes(NodesOf(Snap(), org));
      ghost var t3 := Snap();
      edges := DropEdgesOfOrg(edges, org);
      links := DropLinksOfOrg(links, org);
      log := DropEntriesOfOrg(log, org);
      orgs := orgs - {org};
      OrgRowGoes(t3, org);
      FourSteps(t, t1, t2, t3, org);
    }

    method Execute(s: Statement)
      modifies this
      ensures Snap() == Apply(old(Snap()), s)
    {
      hide Apply;
      if IsDelete(s) {
        ExecuteDelete(s);
      } else {
        ExecuteInsert(s);
      }
    }

    method ExecuteInsert(s: Statement)
      requires !IsDelete(s)
      modifies this
      ensures Snap() == Apply(old(Snap()), s)
    {
      var t := Snap();
      hide GoalFits, NodeFits, EdgeFits, LinkFits, EntryFits;
      match s
      case InsertOrg(id) => orgs := orgs + {id};
      case InsertUser(id) => users := users + {id};
      case InsertMemory(id, org) => if id !in memories && org in orgs { memories := memories[id := org]; }
      case InsertGoal(id, g) => if GoalFits(t, id, g) { goals := goals[id := g]; }
      case InsertNode(id, n) => if NodeFits(t, id, n) { nodes := nodes[id := n]; }
      case InsertEdge(id, e) => if EdgeFits(t, id, e) { edges := edges[id := e]; }
      case InsertLink(id, l) => if LinkFits(t, id, l) { links := links[id := l]; }
      case InsertEntry(id, a) => if EntryFits(t, id, a) { log := log[id := a]; }
    }

    method ExecuteDelete(s: Statement)
      requires IsDelete(s)
      modifies this
      ensures Snap() == Apply(old(Snap()), s)
    {
      hide Without;
      match s
      case DeleteOrg(id) => if id in orgs { DeleteOrg(id); }
      case DeleteUser(id) => if id in users { DeleteUser(id); }
      case DeleteMemory(id) => if id in memories { DeleteMemory(id); }
      case DeleteGoal(id) => if id in goals { DeleteGoal(id); }
      case DeleteNode(id) => if id in nodes { DeleteNode(id); }
      case DeleteEdge(id) => edges := edges - {id};
      case DeleteLink(id) => links := links - {id};
      case DeleteEntry(id) => log := log - {id};
    }
  }

  // Each table by itself, for the rows that a single step removes.

  lemma GoalsKeep(m: map<Id, Goal>, d: Dead)
    requires d.goals == {} && d.users == {}
    ensures GoalsWithout(m, d) == m
  {
  }

  lemma NodesKeep(m: map<Id, Node>, d: Dead)
    requires d.nodes == {}
    ensures NodesWithout(m, d) == m
  {
  }

  lemma EdgesKeep(m: map<Id, Edge>, d: Dead)
    requires d.orgs == {} && d.nodes == {}
    ensures EdgesWithout(m, d) == m
  {
  }

  lemma LinksKeep(m: map<Id, Link>, d: Dead)
    requires d.orgs == {} && d.goals == {} && d.memories == {} && d.nodes == {}
    ensures LinksWithout(m, d) == m
  {
  }

  lemma LogKeep(m: map<Id, Entry>, d: Dead)
    requires d.orgs == {} && d.goals == {} && d.nodes == {}
    ensures LogWithout(m, d) == m
  {
  }

  lemma NothingGoes(t: Tables)
    ensures Without(t, NONE) == t
  {
    GoalsKeep(t.goals, NONE);
    NodesKeep(t.nodes, NONE);
    EdgesKeep(t.edges, NONE);
    LinksKeep(t.links, NONE);
    LogKeep(t.log, NONE);
    assert t.memories - {} == t.memories && t.orgs - {} == t.orgs && t.users - {} == t.users;
    hide GoalsWithout, NodesWithout, EdgesWithout, LinksWithout, LogWithout;
  }

  lemma NodeRowGoes(t: Tables, n: Id)
    ensures t.(nodes := NullParent(t.nodes - {n}, n), edges := DropEdgesOfNode(t.edges, n),
               links := NullLinkNode(t.links, n), log := NullEntryNode(t.log, n)) == Without(t, DeadNode(n))
  {
    var d := DeadNode(n);
    NodeLeavesNodesAndEdges(t, n);
    NodeLeavesLinksAndLog(t, n);
    GoalsKeep(t.goals, d);
    assert t.memories - {} == t.memories;
    hide GoalsWithout, NodesWithout, EdgesWithout, LinksWithout, LogWithout;
    hide NullParent, DropEdgesOfNode, NullLinkNode, NullEntryNode;
  }

  lemma NodeLeavesNodesAndEdges(t: Tables, n: Id)
    ensures NullParent(t.nodes - {n}, n) == NodesWithout(t.nodes, DeadNode(n))
    ensures DropEdgesOfNode(t.edges, n) == EdgesWithout(t.edges, DeadNode(n))
  {
  }

  lemma NodeLeavesLinksAndLog(t: Tables, n: Id)
    ensures NullLinkNode(t.links, n) == LinksWithout(t.links, DeadNode(n))
    ensures NullEntryNode(t.log, n) == LogWithout(t.log, DeadNode(n))
  {
  }

  lemma GoalRowGoes(t: Tables, g: Id)
    ensures t.(links := DropLinksOfGoal(t.links, g), log := DropEntriesOfGoal(t.log, g), goals := t.goals - {g})
         == Without(t, NONE.(goals := {g}))
  {
    var d := NONE.(goals := {g});
    GoalLeavesItsTable(t.goals, d, g);
    GoalLeavesLinksAndLog(t, d, g);
    NodesKeep(t.nodes, d);
    EdgesKeep(t.edges, d);
    assert t.memories - {} == t.memories;
    hide GoalsWithout, NodesWithout, EdgesWithout, LinksWithout, LogWithout;
  }

  lemma GoalLeavesLinksAndLog(t: Tables, d: Dead, g: Id)
    requires d == NONE.(goals := {g})
    ensures DropLinksOfGoal(t.links, g) == LinksWithout(t.links, d)
    ensures DropEntriesOfGoal(t.log, g) == LogWithout(t.log, d)
  {
  }

  lemma GoalLeavesItsTable(goals: map<Id, Goal>, d: Dead, g: Id)
    requires d.goals == {g} && d.users == {}
    ensures goals - {g} == GoalsWithout(goals, d)
  {
  }

  lemma MemoryRowGoes(t: Tables, m: Id)
    ensures t.(links := DropLinksOfMemory(t.links, m), memories := t.memories - {m}) == Without(t, NONE.(memories := {m}))
  {
    var d := NONE.(memories := {m});
    assert DropLinksOfMemory(t.links, m) == LinksWithout(t.links, d);
    GoalsKeep(t.goals, d);
    NodesKeep(t.nodes, d);
    EdgesKeep(t.edges, d);
    LogKeep(t.log, d);
  }

  lemma UserRowGoes(t: Tables, user: Id)
    ensures t.(goals := NullCreator(t.goals, user), users := t.users - {user}) == Without(t, NONE.(users := {user}))
  {
    var d := NONE.(users := {user});
    assert NullCreator(t.goals, user) == GoalsWithout(t.goals, d);
    NodesKeep(t.nodes, d);
    EdgesKeep(t.edges, d);
    LinksKeep(t.links, d);
    LogKeep(t.log, d);
    assert t.memories - {} == t.memories;
  }

  lemma OrgRowGoes(t: Tables, org: Id)
    ensures t.(edges := DropEdgesOfOrg(t.edges, org), links := DropLinksOfOrg(t.links, org),
               log := DropEntriesOfOrg(t.log, org), orgs := t.orgs - {org}) == Without(t, NONE.(orgs := {org}))
  {
    var d := NONE.(orgs := {org});
    OrgLeavesItsTables(t, d, org);
    GoalsKeep(t.goals, d);
    NodesKeep(t.nodes, d);
    assert t.memories - {} == t.memories;
    hide GoalsWithout, NodesWithout, EdgesWithout, LinksWithout, LogWithout;
    hide DropEdgesOfOrg, DropLinksOfOrg, DropEntriesOfOrg;
  }

  lemma OrgLeavesItsTables(t: Tables, d: Dead, org: Id)
    requires d == NONE.(orgs := {org})
    ensures DropEdgesOfOrg(t.edges, org) == EdgesWithout(t.edges, d)
    ensures DropLinksOfOrg(t.links, org) == LinksWithout(t.links, d)
    ensures DropEntriesOfOrg(t.log, org) == LogWithout(t.log, d)
  {
  }

  lemma OneMoreNode(t: Tables, dead: set<Id>, n: Id)
    ensures Without(Without(t, NONE.(nodes := dead)), DeadNode(n)) == Without(t, NONE.(nodes := dead + {n}))
  {
    hide Without;
    WithoutTwice(t, NONE.(nodes := dead), DeadNode(n));
    assert Union(NONE.(nodes := dead), DeadNode(n)) == NONE.(nodes := dead + {n});
  }

  lemma OneMoreMemory(t: Tables, dead: set<Id>, m: Id)
    ensures Without(Without(t, NONE.(memories := dead)), NONE.(memories := {m})) == Without(t, NONE.(memories := dead + {m}))
  {
    hide Without;
    WithoutTwice(t, NONE.(memories := dead), NONE.(memories := {m}));
    assert Union(NONE.(memories := dead), NONE.(memories := {m})) == NONE.(memories := dead + {m});
  }

  /** The rows gone after some goals were deleted. */
  ghost function GoalsGone(t: Tables, goals: set<Id>): Dead {
    NONE.(goals := goals, nodes := set i | i in t.nodes && t.nodes[i].goal in goals)
  }

  lemma OneMoreGoal(t: Tables, goals: set<Id>, g: Id)
    ensures var u := Without(t, GoalsGone(t, goals));
            Without(u, DeadGoal(u, g)) == Without(t, GoalsGone(t, goals + {g}))
  {
    var d := GoalsGone(t, goals);
    var u := Without(t, d);
    WithoutTwice(t, d, DeadGoal(u, g));
    assert Union(d, DeadGoal(u, g)).nodes == GoalsGone(t, goals + {g}).nodes;
    assert Union(d, DeadGoal(u, g)) == GoalsGone(t, goals + {g});
  }

  function MemoriesOf(t: Tables, org: Id): set<Id> {
    set i | i in t.memories && t.memories[i] == org
  }

  function NodesOf(t: Tables, org: Id): set<Id> {
    set i | i in t.nodes && t.nodes[i].org == org
  }

  lemma MemoriesFirst(t: Tables, ids: set<Id>)
    ensures var u := Without(t, NONE.(memories := ids)); u.goals == t.goals && u.nodes == t.nodes
  {
    GoalsKeep(t.goals, NONE.(memories := ids));
    NodesKeep(t.nodes, NONE.(memories := ids));
  }

  lemma NodesLast(t: Tables, d: Dead, org: Id)
    requires d.goals == GoalsOf(t, org) && d.nodes == GoalsGone(t, GoalsOf(t, org)).nodes
    ensures NodesOf(Without(t, d), org) + d.nodes == DeadOrg(t, org).nodes
  {
    var u := NodesWithout(t.nodes, d);
    assert forall i :: i in u ==> u[i].org == t.nodes[i].org;
  }

  lemma FourSteps(t: Tables, t1: Tables, t2: Tables, t3: Tables, org: Id)
    requires t1 == Without(t, NONE.(memories := MemoriesOf(t, org)))
    requires t2 == Without(t1, GoalsGone(t1, GoalsOf(t1, org)))
    requires t3 == Without(t2, NONE.(nodes := NodesOf(t2, org)))
    ensures Without(t3, NONE.(orgs := {org})) == Without(t, DeadOrg(t, org))
  {
    hide Without;
    var d1 := NONE.(memories := MemoriesOf(t, org));
    var d2 := GoalsGone(t, GoalsOf(t, org));
    var d3 := NONE.(nodes := NodesOf(t2, org));
    var d4 := NONE.(orgs := {org});
    MemoriesFirst(t, MemoriesOf(t, org));
    assert GoalsOf(t1, org) == GoalsOf(t, org) && GoalsGone(t1, GoalsOf(t1, org)) == d2;
    WithoutTwice(t, d1, d2);
    NodesLast(t, Union(d1, d2), org);
    WithoutTwice(t, Union(d1, d2), d3);
    WithoutTwice(t, Union(Union(d1, d2), d3), d4);
    assert Union(Union(Union(d1, d2), d3), d4) == DeadOrg(t, org);
  }
}
