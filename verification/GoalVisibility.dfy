/**
 The row-level policies on the GoalGraph tables, and the organization hierarchy that they consult.

 A policy admits a row when its condition is true; a comparison with a missing setting is not true,
 and conditions combine by AND, OR and EXISTS only, so two truth values are enough.
 */
module GoalVisibility {
  import opened Options
  import opened GoalGraph
  import Text

  /** app.current_org_id, app.current_user_id and app.current_roles, where set. */
  datatype Session = Session(org: Option<Id>, user: Option<Id>, roles: Option<string>)

  datatype Member = Member(org: Id, team: Id, user: Id)

  /** A row of organization_hierarchy; `path` is the ltree path, label by label. */
  datatype Unit = Unit(org: Id, parent: Option<Id>, path: seq<string>)

  /** team_members, the hierarchy node of each team, and organization_hierarchy. */
  datatype Directory = Directory(members: set<Member>, teams: map<Id, Option<Id>>, units: map<Id, Unit>)

  // ---------------------------------------------------------------------------
  // The policies
  // ---------------------------------------------------------------------------

  predicate IsAdmin(s: Session) {
    s.roles.Some? && (var roles := Text.Split(s.roles.value, ","); "org_admin" in roles || "system_admin" in roles)
  }

  /** `COALESCE(scope_id::text, '')` */
  function ScopeKey(g: Goal): Id {
    if g.scopeId.Some? then g.scopeId.value else ""
  }

  predicate InTeam(s: Session, dir: Directory, g: Goal) {
    s.user.Some? && Member(g.org, ScopeKey(g), s.user.value) in dir.members
  }

  /** The node of the member's team lies at or under the node that the goal is scoped to, by path. */
  predicate Covers(dir: Directory, m: Member, g: Goal) {
    && m.team in dir.teams && dir.teams[m.team].Some?
    && dir.teams[m.team].value in dir.units && ScopeKey(g) in dir.units
    && dir.units[dir.teams[m.team].value].org == g.org && dir.units[ScopeKey(g)].org == g.org
    && dir.units[ScopeKey(g)].path <= dir.units[dir.teams[m.team].value].path
  }

  predicate InBranch(s: Session, dir: Directory, g: Goal) {
    exists m :: m in dir.members && m.org == g.org && Some(m.user) == s.user && Covers(dir, m, g)
  }

  predicate GoalVisible(s: Session, dir: Directory, g: Goal) {
    && s.org == Some(g.org)
    && (|| g.scope.Organization?
        || (g.scope.Personal? && g.createdBy.Some? && g.createdBy == s.user)
        || (g.scope.Team? && InTeam(s, dir, g))
        || ((g.scope.Department? || g.scope.Division?) && InBranch(s, dir, g))
        || IsAdmin(s))
  }

  /** The condition shared by the policies on nodes, links and log entries. */
  predicate VisibleThroughGoal(s: Session, dir: Directory, t: Tables, org: Id, goal: Id) {
    && s.org == Some(org)
    && exists g :: g in t.goals && g == goal && t.goals[g].org == org && GoalVisible(s, dir, t.goals[g])
  }

  predicate NodeVisible(s: Session, dir: Directory, t: Tables, n: Node) {
    VisibleThroughGoal(s, dir, t, n.org, n.goal)
  }

  predicate EdgeVisible(s: Session, dir: Directory, t: Tables, e: Edge) {
    && s.org == Some(e.org)
    && exists n, g :: n in t.nodes && g in t.goals && g == t.nodes[n].goal && n == e.source
                      && t.nodes[n].org == e.org && t.goals[g].org == e.org && GoalVisible(s, dir, t.goals[g])
  }

  /** The tables as the session itself reads them: a policy's subqueries go through these. */
  function Readable(s: Session, dir: Directory, t: Tables): Tables {
    t.(goals := map i | i in t.goals && GoalVisible(s, dir, t.goals[i]) :: t.goals[i],
       nodes := map i | i in t.nodes && NodeVisible(s, dir, t, t.nodes[i]) :: t.nodes[i])
  }

  /** Who is in no team of the organization sees its open goals and their own personal ones, and no others
      unless as an administrator. */
  lemma WithoutMemberships(s: Session, dir: Directory, g: Goal)
    requires forall m :: m in dir.members ==> m.org != g.org || s.user != Some(m.user)
    ensures GoalVisible(s, dir, g) <==>
            s.org == Some(g.org)
            && (g.scope.Organization? || (g.scope.Personal? && s.user.Some? && s.user == g.createdBy) || IsAdmin(s))
  {
    hide IsAdmin, Covers;
    assert s.user.Some? ==> Member(g.org, ScopeKey(g), s.user.value) !in dir.members;
  }

  /** A team, department or division goal that names no scope is for administrators only, as the empty text
      that stands for the missing id is the id of nothing. */
  lemma UnscopedGoalsAreForAdmins(s: Session, dir: Directory, g: Goal)
    requires (g.scope.Team? || g.scope.Department? || g.scope.Division?) && g.scopeId.None?
    requires "" !in dir.units && forall m :: m in dir.members ==> m.team != ""
    ensures GoalVisible(s, dir, g) <==> s.org == Some(g.org) && IsAdmin(s)
  {
    hide IsAdmin;
    assert ScopeKey(g) == "";
    assert s.user.Some? ==> Member(g.org, "", s.user.value) !in dir.members;
  }

  /** A further membership hides nothing. */
  lemma MembershipOnlyAdds(s: Session, dir: Directory, more: set<Member>, g: Goal)
    requires GoalVisible(s, dir, g) && dir.members <= more
    ensures GoalVisible(s, dir.(members := more), g)
  {
    var wide := dir.(members := more);
    hide IsAdmin;
    if InBranch(s, dir, g) {
      var m :| m in dir.members && m.org == g.org && Some(m.user) == s.user && Covers(dir, m, g);
      assert m in wide.members && Covers(wide, m, g);
    }
  }

  /** Row security inside the policies changes nothing: the subqueries keep only readable rows anyway. */
  lemma PoliciesStandWithoutNesting(s: Session, dir: Directory, t: Tables, org: Id, goal: Id, e: Edge)
    ensures VisibleThroughGoal(s, dir, Readable(s, dir, t), org, goal) <==> VisibleThroughGoal(s, dir, t, org, goal)
    ensures EdgeVisible(s, dir, Readable(s, dir, t), e) <==> EdgeVisible(s, dir, t, e)
  {
    var r := Readable(s, dir, t);
    hide GoalVisible;
    if VisibleThroughGoal(s, dir, t, org, goal) {
      assert goal in r.goals;
    }
    if EdgeVisible(s, dir, t, e) {
      assert NodeVisible(s, dir, t, t.nodes[e.source]);
      assert e.source in r.nodes && t.nodes[e.source].goal in r.goals;
    }
  }

  /** An edge is visible exactly when its source is, in the edge's own organization. */
  lemma EdgeFollowsItsSource(s: Session, dir: Directory, t: Tables, e: Edge)
    ensures EdgeVisible(s, dir, t, e) <==>
            e.source in t.nodes && t.nodes[e.source].org == e.org && NodeVisible(s, dir, t, t.nodes[e.source])
    ensures EdgeVisible(s, dir, t, e) ==>
            t.nodes[e.source].goal in t.goals && GoalVisible(s, dir, t.goals[t.nodes[e.source].goal])
  {
    hide GoalVisible;
    if e.source in t.nodes && t.nodes[e.source].org == e.org && NodeVisible(s, dir, t, t.nodes[e.source]) {
      assert t.nodes[e.source].goal in t.goals;
    }
  }

  /** The target of a visible edge may be out of sight, so a reader can meet an edge to a node it cannot read. */
  lemma TargetOfAVisibleEdgeMayBeHidden(org: Id, user: Id, other: Id, kind: string)
    requires user != other
    ensures var s := Session(Some(org), Some(user), None);
            var dir := Directory({}, map[], map[]);
            var open := Goal(org, Some(other), Scope.Organization, None);
            var closed := Goal(org, Some(other), Scope.Personal, None);
            var t := EMPTY.(orgs := {org}, users := {user, other}, goals := map["g" := open, "h" := closed],
                            nodes := map["m" := Node(org, "g", None), "n" := Node(org, "h", None)],
                            edges := map["e" := Edge(org, "m", "n", kind)]);
            Sound(t) && EdgeVisible(s, dir, t, t.edges["e"]) && !NodeVisible(s, dir, t, t.nodes["n"])
  {
    var s := Session(Some(org), Some(user), None);
    var dir := Directory({}, map[], map[]);
    var open, closed := Goal(org, Some(other), Scope.Organization, None), Goal(org, Some(other), Scope.Personal, None);
    assert GoalVisible(s, dir, open) && !GoalVisible(s, dir, closed);
    hide GoalVisible;
  }

  /** `TenantContext.roles_string` and `has_any_role`: the policy takes for an administrator exactly whom the
      application does, as long as no role name holds a comma. */
  lemma PolicyAndApplicationAgreeOnAdmins(s: Session, roles: seq<string>)
    requires forall r :: r in roles ==> ',' !in r
    requires s.roles == Some(Text.Join(",", roles))
    ensures IsAdmin(s) <==> "org_admin" in roles || "system_admin" in roles
  {
    hide Text.Split, Text.Join;
    if roles == [] {
      NoRoles(roles);
    } else {
      Text.SplitJoin(roles, ',');
    }
  }

  lemma NoRoles(roles: seq<string>)
    requires roles == []
    ensures Text.Split(Text.Join(",", roles), ",") == [""]
  {
  }

  // ---------------------------------------------------------------------------
  // The hierarchy
  // ---------------------------------------------------------------------------

  /** Every step of the chain leads from a node to its parent. */
  ghost predicate Chain(units: map<Id, Unit>, chain: seq<Id>) {
    && (forall k :: 0 <= k < |chain| ==> chain[k] in units)
    && forall k {:trigger chain[k]} :: 0 <= k < |chain| - 1 ==> units[chain[k]].parent == Some(chain[k + 1])
  }

  ghost predicate Connects(units: map<Id, Unit>, chain: seq<Id>, i: Id, j: Id) {
    chain != [] && chain[0] == i && chain[|chain| - 1] == j && Chain(units, chain)
  }

  /** `i` is `j` or lies under it, going from child to parent. */
  ghost predicate Under(units: map<Id, Unit>, i: Id, j: Id) {
    exists chain :: Connects(units, chain, i, j)
  }

  /** One step up. */
  lemma UnderByParent(units: map<Id, Unit>, i: Id, j: Id)
    requires i in units
    ensures Under(units, i, j) <==> i == j || (units[i].parent.Some? && Under(units, units[i].parent.value, j))
  {
    if Under(units, i, j) && i != j {
      var chain :| Connects(units, chain, i, j);
      assert chain[1] == units[i].parent.value;
      assert Connects(units, chain[1..], chain[1], j);
    }
    if i == j {
      assert Connects(units, [i], i, j);
    }
    if units[i].parent.Some? && Under(units, units[i].parent.value, j) {
      var chain :| Connects(units, chain, units[i].parent.value, j);
      assert Connects(units, [i] + chain, i, j);
    }
  }

  predicate SamePlace(a: Unit, b: Unit) {
    a.org == b.org && a.path == b.path
  }

  /** No two nodes of one organization have the same path. */
  ghost predicate PathsUnique(units: map<Id, Unit>) {
    forall i, j :: i in units && j in units && SamePlace(units[i], units[j]) ==> i == j
  }

  /** What the policy relies on for two nodes: containment of their paths is descent. */
  ghost predicate TellsDescentOf(units: map<Id, Unit>, i: Id, j: Id)
    requires i in units && j in units
  {
    Under(units, i, j) <==> units[j].path <= units[i].path
  }

  ghost predicate TellsDescent(units: map<Id, Unit>) {
    forall i, j :: i in units && j in units && units[i].org == units[j].org ==> TellsDescentOf(units, i, j)
  }

  // ---------------------------------------------------------------------------
  // When the policy follows descent
  // ---------------------------------------------------------------------------

  /** What Covers says of paths, said of parents. */
  ghost predicate Reaches(dir: Directory, m: Member, g: Goal) {
    && m.team in dir.teams && dir.teams[m.team].Some?
    && dir.teams[m.team].value in dir.units && ScopeKey(g) in dir.units
    && dir.units[dir.teams[m.team].value].org == g.org && dir.units[ScopeKey(g)].org == g.org
    && Under(dir.units, dir.teams[m.team].value, ScopeKey(g))
  }

  /** The goal is visible to the administrators of its organization and to whoever is in a team at or under its node. */
  ghost predicate FollowsDescent(s: Session, dir: Directory, g: Goal) {
    GoalVisible(s, dir, g) <==>
      && s.org == Some(g.org)
      && (IsAdmin(s) || exists m :: m in dir.members && m.org == g.org && Some(m.user) == s.user && Reaches(dir, m, g))
  }

  /** In a hierarchy with these nodes, the policy follows descent for all goals, sessions, teams and members. */
  ghost predicate PolicyFollowsDescent(units: map<Id, Unit>) {
    forall s: Session, members: set<Member>, teams: map<Id, Option<Id>>, g: Goal ::
      g.scope.Department? || g.scope.Division? ==>
      FollowsDescent(s, Directory(members, teams, units), g)
  }

  lemma CoveringIsReaching(dir: Directory, m: Member, g: Goal)
    requires TellsDescent(dir.units)
    ensures Covers(dir, m, g) <==> Reaches(dir, m, g)
  {
    if m.team in dir.teams && dir.teams[m.team].Some? && dir.teams[m.team].value in dir.units && ScopeKey(g) in dir.units
       && dir.units[dir.teams[m.team].value].org == dir.units[ScopeKey(g)].org {
      assert TellsDescentOf(dir.units, dir.teams[m.team].value, ScopeKey(g));
    }
    hide Under;
  }

  /** A division or department goal is visible to whoever is in a team at or under its node. */
  lemma BranchGoalsReachTheWholeBranch(s: Session, dir: Directory, g: Goal)
    requires TellsDescent(dir.units)
    requires g.scope.Department? || g.scope.Division?
    ensures FollowsDescent(s, dir, g)
  {
    forall m ensures Covers(dir, m, g) <==> Reaches(dir, m, g) {
      CoveringIsReaching(dir, m, g);
    }
    hide Covers, Reaches, TellsDescent;
  }

  /** A member of a team at `i` reads a department goal scoped to `j` by path, and ought to by descent. */
  lemma PolicyTestsThePair(units: map<Id, Unit>, i: Id, j: Id)
    requires PolicyFollowsDescent(units)
    requires i in units && j in units && units[i].org == units[j].org
    ensures TellsDescentOf(units, i, j)
  {
    var org := units[i].org;
    var m := Member(org, "t", "u");
    var s := Session(Some(org), Some("u"), None);
    var dir := Directory({m}, map["t" := Some(i)], units);
    var g := Goal(org, None, Scope.Department, Some(j));
    assert FollowsDescent(s, dir, g);
    hide Under;
    assert Covers(dir, m, g) <==> units[j].path <= units[i].path;
    assert Reaches(dir, m, g) <==> Under(units, i, j);
  }

  /** The policy follows descent exactly when containment of paths does, whatever the hierarchy. */
  lemma PolicyFollowsDescentExactlyWhenPathsDo(units: map<Id, Unit>)
    ensures PolicyFollowsDescent(units) <==> TellsDescent(units)
  {
    hide FollowsDescent, TellsDescentOf;
    if TellsDescent(units) {
      forall s: Session, members: set<Member>, teams: map<Id, Option<Id>>, g: Goal | g.scope.Department? || g.scope.Division?
        ensures FollowsDescent(s, Directory(members, teams, units), g)
      {
        BranchGoalsReachTheWholeBranch(s, Directory(members, teams, units), g);
      }
    }
    if PolicyFollowsDescent(units) {
      forall i, j | i in units && j in units && units[i].org == units[j].org ensures TellsDescentOf(units, i, j) {
        PolicyTestsThePair(units, i, j);
      }
    }
  }

  // ---------------------------------------------------------------------------
  // Creating nodes
  // ---------------------------------------------------------------------------

  /** A request to create a node; a name with dots holds several labels. */
  datatype Creation = Creation(id: Id, org: Id, parent: Option<Id>, labels: seq<string>)

  /** `create_hierarchy_node`: the new path is the parent's path and the labels of the new name. The parent is
      looked up by id alone; without it, or under an id that is taken, nothing is created. */
  function AddUnit(units: map<Id, Unit>, c: Creation): Option<map<Id, Unit>> {
    if c.id in units || (c.parent.Some? && c.parent.value !in units) then None
    else Some(units[c.id := Unit(c.org, c.parent, NewPath(units, c))])
  }

  function NewPath(units: map<Id, Unit>, c: Creation): seq<string>
    requires c.parent.Some? ==> c.parent.value in units
  {
    (if c.parent.Some? then units[c.parent.value].path else []) + c.labels
  }

  ghost predicate ParentsExist(units: map<Id, Unit>) {
    forall i :: i in units && units[i].parent.Some? ==> units[i].parent.value in units
  }

  /** What the endpoint would have to check: no node of the organization lies below the new path, and those
      above it by path are those above it by parents. */
  ghost predicate KeepsDescent(units: map<Id, Unit>, c: Creation)
    requires AddUnit(units, c).Some?
  {
    var path := NewPath(units, c);
    forall j :: j in units && units[j].org == c.org ==>
      && !(path <= units[j].path)
      && (units[j].path <= path <==> c.parent.Some? && Under(units, c.parent.value, j))
  }

  lemma {:induction false} ChainsStay(units: map<Id, Unit>, c: Creation, chain: seq<Id>, k: nat)
    requires ParentsExist(units) && AddUnit(units, c).Some?
    requires Chain(AddUnit(units, c).value, chain) && k < |chain| && chain[0] in units
    ensures chain[k] in units
  {
    if k > 0 {
      ChainsStay(units, c, chain, k - 1);
      var more := AddUnit(units, c).value;
      assert more[chain[k - 1]] == units[chain[k - 1]];
      assert more[chain[k - 1]].parent == Some(chain[k]);
    }
  }

  /** Nothing changes above the old nodes. */
  lemma OldChains(units: map<Id, Unit>, c: Creation, i: Id, j: Id)
    requires ParentsExist(units) && AddUnit(units, c).Some? && i in units
    ensures Under(AddUnit(units, c).value, i, j) <==> Under(units, i, j)
    ensures Under(units, i, j) ==> j in units
  {
    var more := AddUnit(units, c).value;
    if Under(more, i, j) {
      var chain :| Connects(more, chain, i, j);
      forall k | 0 <= k < |chain| ensures chain[k] in units {
        ChainsStay(units, c, chain, k);
      }
      assert Connects(units, chain, i, j);
    }
    if Under(units, i, j) {
      var chain :| Connects(units, chain, i, j);
      assert Connects(more, chain, i, j);
    }
  }

  /** The new node lies under its parent and what that lies under. */
  lemma NewChains(units: map<Id, Unit>, c: Creation, j: Id)
    requires ParentsExist(units) && AddUnit(units, c).Some?
    ensures var more := AddUnit(units, c).value;
            Under(more, c.id, j) <==> j == c.id || (c.parent.Some? && Under(units, c.parent.value, j))
  {
    UnderByParent(AddUnit(units, c).value, c.id, j);
    if c.parent.Some? {
      OldChains(units, c, c.parent.value, j);
    }
    hide Under;
  }

  /** Creating a node keeps parents in place, and paths tell descent afterwards exactly when they did before and
      the endpoint's missing check would have passed. */
  lemma AddingAUnit(units: map<Id, Unit>, c: Creation)
    requires ParentsExist(units) && AddUnit(units, c).Some?
    ensures var more := AddUnit(units, c).value;
            ParentsExist(more) && (TellsDescent(more) <==> TellsDescent(units) && KeepsDescent(units, c))
  {
    var more := AddUnit(units, c).value;
    forall i, j | i in units && j in units ensures TellsDescentOf(more, i, j) <==> TellsDescentOf(units, i, j) {
      OldChains(units, c, i, j);
    }
    forall j | j in units
      ensures TellsDescentOf(more, j, c.id) <==> !(more[c.id].path <= units[j].path)
      ensures TellsDescentOf(more, c.id, j) <==>
              (units[j].path <= more[c.id].path <==> c.parent.Some? && Under(units, c.parent.value, j))
    {
      OldChains(units, c, j, c.id);
      NewChains(units, c, j);
    }
    NewChains(units, c, c.id);
    assert TellsDescentOf(more, c.id, c.id);
    hide TellsDescentOf, Under;
    PairsOfMore(units, c);
  }

  /** The pairs of nodes after a creation: the old ones, and the new node with each and with itself. */
  lemma PairsOfMore(units: map<Id, Unit>, c: Creation)
    requires AddUnit(units, c).Some?
    requires TellsDescentOf(AddUnit(units, c).value, c.id, c.id)
    ensures var more := AddUnit(units, c).value;
            TellsDescent(more) <==>
            && (forall i, j :: i in units && j in units && units[i].org == units[j].org ==> TellsDescentOf(more, i, j))
            && (forall j :: j in units && units[j].org == c.org ==>
                  TellsDescentOf(more, j, c.id) && TellsDescentOf(more, c.id, j))
  {
    hide TellsDescentOf;
    var more := AddUnit(units, c).value;
    assert forall i :: i in units ==> more[i] == units[i];
  }

  /** The hierarchy after a sequence of requests, starting with none. */
  ghost function Built(cs: seq<Creation>): map<Id, Unit> {
    if cs == [] then map[] else
    var units := Built(cs[..|cs| - 1]);
    var more := AddUnit(units, cs[|cs| - 1]);
    if more.Some? then more.value else units
  }

  /** The request at `k` is refused or passes the missing check. */
  ghost predicate StepKeepsDescent(cs: seq<Creation>, k: nat)
    requires k < |cs|
  {
    AddUnit(Built(cs[..k]), cs[k]).Some? ==> KeepsDescent(Built(cs[..k]), cs[k])
  }

  lemma BuiltSnoc(cs: seq<Creation>, c: Creation)
    requires AddUnit(Built(cs), c).Some?
    ensures Built(cs + [c]) == AddUnit(Built(cs), c).value
  {
    assert (cs + [c])[..|cs + [c]| - 1] == cs;
  }

  lemma {:induction false} ParentsAlwaysExist(cs: seq<Creation>)
    ensures ParentsExist(Built(cs))
  {
    if cs != [] {
      ParentsAlwaysExist(cs[..|cs| - 1]);
    }
  }

  /** For every sequence of requests: the policy follows descent in the end exactly when every node was created
      where the missing check would have let it. */
  lemma {:induction false} PolicyFollowsDescentExactlyWhenChecked(cs: seq<Creation>)
    ensures PolicyFollowsDescent(Built(cs)) <==> forall k :: 0 <= k < |cs| ==> StepKeepsDescent(cs, k)
  {
    PolicyFollowsDescentExactlyWhenPathsDo(Built(cs));
    if cs == [] {
      assert TellsDescent(Built(cs));
    } else {
      var init, c := cs[..|cs| - 1], cs[|cs| - 1];
      PolicyFollowsDescentExactlyWhenChecked(init);
      PolicyFollowsDescentExactlyWhenPathsDo(Built(init));
      ParentsAlwaysExist(init);
      if AddUnit(Built(init), c).Some? {
        AddingAUnit(Built(init), c);
      }
      assert TellsDescent(Built(cs)) <==> TellsDescent(Built(init)) && StepKeepsDescent(cs, |init|);
      hide *;
      StepsOfInit(cs, init);
    }
  }

  lemma StepsOfInit(cs: seq<Creation>, init: seq<Creation>)
    requires cs != [] && init == cs[..|cs| - 1]
    ensures (forall k :: 0 <= k < |cs| ==> StepKeepsDescent(cs, k)) <==>
            (forall k :: 0 <= k < |init| ==> StepKeepsDescent(init, k)) && StepKeepsDescent(cs, |init|)
  {
    forall k | 0 <= k < |init| ensures StepKeepsDescent(init, k) <==> StepKeepsDescent(cs, k) {
      assert init[..k] == cs[..k];
    }
    hide StepKeepsDescent;
  }

  /** Two root nodes, the second with the name of the first, a dot and more: paths are unique, yet a team at the
      second, which has no parent, reads what is scoped to the first. */
  lemma DottedNameMisleads(org: Id, i: Id, j: Id, first: string, second: string, m: Member)
    requires i != j && m.org == org
    ensures var units := Built([Creation(i, org, None, [first]), Creation(j, org, None, [first, second])]);
            var dir := Directory({m}, map[m.team := Some(j)], units);
            var s := Session(Some(org), Some(m.user), None);
            && units == map[i := Unit(org, None, [first]), j := Unit(org, None, [first, second])]
            && PathsUnique(units) && !Under(units, j, i)
            && GoalVisible(s, dir, Goal(org, None, Scope.Department, Some(i)))
  {
    var one, two := Creation(i, org, None, [first]), Creation(j, org, None, [first, second]);
    BuiltSnoc([], one);
    BuiltSnoc([one], two);
    assert [one] == [] + [one] && [one, two] == [one] + [two];
    var units := Built([one, two]);
    assert forall us :: NewPath(us, one) == [first] && NewPath(us, two) == [first, second];
    assert units == map[i := Unit(org, None, [first]), j := Unit(org, None, [first, second])];
    UnderByParent(units, j, i);
    var g := Goal(org, None, Scope.Department, Some(i));
    assert [first] == [first, second][..1];
    assert Covers(Directory({m}, map[m.team := Some(j)], units), m, g);
  }

  // ---------------------------------------------------------------------------
  // Hierarchies whose names are single labels
  // ---------------------------------------------------------------------------

  /** Every path is the parent's path and one label more, and parents are of the same organization. */
  ghost predicate PathsFollowParents(units: map<Id, Unit>) {
    forall i :: i in units ==>
      match units[i].parent
      case None => |units[i].path| == 1
      case Some(p) =>
        p in units && units[p].org == units[i].org && |units[i].path| == |units[p].path| + 1 && units[p].path < units[i].path
  }

  lemma {:induction false} AncestorsArePrefixes(units: map<Id, Unit>, i: Id, j: Id)
    requires PathsFollowParents(units) && i in units && Under(units, i, j)
    ensures j in units && units[j].org == units[i].org && units[j].path <= units[i].path
    ensures i != j ==> |units[j].path| < |units[i].path|
    decreases |units[i].path|
  {
    UnderByParent(units, i, j);
    hide Under;
    if i != j {
      AncestorsArePrefixes(units, units[i].parent.value, j);
    }
  }

  lemma {:induction false} PrefixesAreAncestors(units: map<Id, Unit>, i: Id, j: Id)
    requires PathsFollowParents(units) && PathsUnique(units) && i in units && j in units
    requires units[j].org == units[i].org && units[j].path <= units[i].path
    ensures Under(units, i, j)
    decreases |units[i].path|
  {
    UnderByParent(units, i, j);
    hide Under;
    if i != j {
      assert !SamePlace(units[i], units[j]);
      assert units[j].path < units[i].path && units[j].path != [];
      assert units[i].parent.Some?;
      var p := units[i].parent.value;
      assert units[p].path == units[i].path[..|units[i].path| - 1];
      assert units[j].path <= units[p].path;
      PrefixesAreAncestors(units, p, j);
    }
  }

  /** Where every name is one label and every parent of the same organization, the policy follows descent
      exactly when no two nodes of one organization have the same path. */
  lemma PlainHierarchiesNeedUniquePaths(units: map<Id, Unit>)
    requires PathsFollowParents(units)
    ensures PolicyFollowsDescent(units) <==> PathsUnique(units)
  {
    PolicyFollowsDescentExactlyWhenPathsDo(units);
    hide PolicyFollowsDescent, PathsFollowParents, Under;
    if PathsUnique(units) {
      forall i, j | i in units && j in units && units[i].org == units[j].org ensures TellsDescentOf(units, i, j) {
        if Under(units, i, j) {
          AncestorsArePrefixes(units, i, j);
        }
        if units[j].path <= units[i].path {
          PrefixesAreAncestors(units, i, j);
        }
      }
    }
    if TellsDescent(units) {
      forall i, j | i in units && j in units && SamePlace(units[i], units[j]) ensures i == j {
        assert TellsDescentOf(units, i, j);
        AncestorsArePrefixes(units, i, j);
      }
    }
  }

  /** Scoping a goal to a node further up, in the same organization, hides it from nobody. */
  lemma WideningTheScopeHidesNothing(s: Session, dir: Directory, g: Goal, wide: Id)
    requires g.scope.Department? || g.scope.Division?
    requires GoalVisible(s, dir, g)
    requires ScopeKey(g) in dir.units && wide in dir.units && dir.units[wide].org == g.org
    requires dir.units[wide].path <= dir.units[ScopeKey(g)].path
    ensures GoalVisible(s, dir, g.(scopeId := Some(wide)))
  {
    var h := g.(scopeId := Some(wide));
    if InBranch(s, dir, g) {
      var m :| m in dir.members && m.org == g.org && Some(m.user) == s.user && Covers(dir, m, g);
      assert Covers(dir, m, h) by {
        var low, mid, top := dir.units[dir.teams[m.team].value].path, dir.units[ScopeKey(g)].path, dir.units[wide].path;
        assert top == mid[..|top|] && mid == low[..|mid|];
        assert top == low[..|top|];
      }
      assert InBranch(s, dir, h);
    }
  }

  /** Where two nodes of one organization share a path, the policy cannot tell them apart: a team
      at one of them reads what is scoped to the other. */
  lemma SharedPathsShareGoals(s: Session, dir: Directory, g: Goal, m: Member)
    requires s.org == Some(g.org) && (g.scope.Department? || g.scope.Division?)
    requires m in dir.members && m.org == g.org && s.user == Some(m.user)
    requires m.team in dir.teams && dir.teams[m.team].Some?
    requires dir.teams[m.team].value in dir.units && ScopeKey(g) in dir.units
    requires var a, b := dir.units[dir.teams[m.team].value], dir.units[ScopeKey(g)];
             a.org == g.org && b.org == g.org && a.path == b.path
    ensures GoalVisible(s, dir, g)
  {
    assert Covers(dir, m, g);
  }

  // ---------------------------------------------------------------------------
  // Visibility and deletes
  // ---------------------------------------------------------------------------

  /** Deleting a user hides that user's personal goals from everyone but administrators, and changes
      the visibility of no other goal. */
  lemma DeletedCreatorsGoals(s: Session, dir: Directory, t: Tables, user: Id, g: Id)
    requires user in t.users && g in t.goals
    ensures var u := Apply(t, DeleteUser(user));
            && g in u.goals
            && (GoalVisible(s, dir, u.goals[g]) <==>
                GoalVisible(s, dir, t.goals[g])
                && (t.goals[g].scope.Personal? && t.goals[g].createdBy == Some(user) ==> IsAdmin(s)))
  {
    var u := Apply(t, DeleteUser(user));
    var a, b := t.goals[g], u.goals[g];
    assert b == a.(createdBy := Nulled(a.createdBy, {user}));
    assert InTeam(s, dir, a) == InTeam(s, dir, b);
    forall m ensures Covers(dir, m, a) == Covers(dir, m, b) {
    }
    assert InBranch(s, dir, a) == InBranch(s, dir, b) by {
      hide Covers;
    }
    hide IsAdmin, InTeam, InBranch, Without;
  }

  /** Deleting a goal neither shows nor hides any other goal, node or edge that is left. */
  lemma DeletedGoalsLeaveVisibilityAlone(s: Session, dir: Directory, t: Tables, g: Id)
    requires Sound(t)
    ensures var u := Apply(t, DeleteGoal(g));
            && (forall i :: i in u.goals ==> u.goals[i] == t.goals[i])
            && (forall i :: i in u.nodes ==> (NodeVisible(s, dir, u, u.nodes[i]) <==> NodeVisible(s, dir, t, t.nodes[i])))
            && (forall i :: i in u.edges ==> (EdgeVisible(s, dir, u, u.edges[i]) <==> EdgeVisible(s, dir, t, t.edges[i])))
  {
    GoalTakesItsRowsOnly(t, g);
    GoalLeavesTheRestAsItWas(t, g);
    hide GoalVisible, Apply, Forget;
    var u := Apply(t, DeleteGoal(g));
    forall i | i in u.nodes ensures NodeVisible(s, dir, u, u.nodes[i]) <==> NodeVisible(s, dir, t, t.nodes[i]) {
      assert t.nodes[i].goal in u.goals;
    }
    forall i | i in u.edges ensures EdgeVisible(s, dir, u, u.edges[i]) <==> EdgeVisible(s, dir, t, t.edges[i]) {
      var n := t.edges[i].source;
      assert n in t.nodes && n in u.nodes && t.nodes[n].goal in u.goals;
    }
  }
}
