/**
 `GraphLinkingAgent._heuristic` of backend/app/agents/graph_linking_agent.py: a star of labelled
 nodes around one memory. Lower-casing is a parameter; confidences are in hundredths.
 */
module GraphLinking {
  import opened Basics
  import opened Options
  import opened Text

  datatype Node = Node(id: string, kind: string, title: string)
  datatype Edge = Edge(source: string, target: string, relation: string)
  datatype Graph = Graph(nodes: seq<Node>, edges: seq<Edge>)

  /** The values of one entity key: a list, or something else that is skipped. */
  datatype Values = Listed(items: seq<string>) | Other

  /** What is taken for the entities: a dict, in its order, or something that has no values. */
  datatype Entities = Entries(entries: seq<(string, Values)>) | NoDict

  /** One topic, tag or entity value as it arrives. */
  datatype Signal = TopicSignal(text: string) | TagSignal(text: string) | EntitySignal(key: string, text: string)

  const MEMORY: string := "memory"
  const TOPIC: string := "topic"
  const TAG: string := "tag"
  const ENTITY: string := "entity"
  const COLON: string := ":"

  // ---------------------------------------------------------------------------
  // Signals
  // ---------------------------------------------------------------------------

  function IdOf(lower: string -> string, s: Signal): string {
    match s
    case TopicSignal(text) => TOPIC + COLON + lower(Strip(text))
    case TagSignal(text) => TAG + COLON + lower(Strip(text))
    case EntitySignal(key, text) => ENTITY + COLON + lower(key) + COLON + lower(Strip(text))
  }

  function KindOf(s: Signal): string {
    match s
    case TopicSignal(_) => TOPIC
    case TagSignal(_) => TAG
    case EntitySignal(_, _) => ENTITY
  }

  function RelationOf(lower: string -> string, s: Signal): string {
    match s
    case TopicSignal(_) => "about"
    case TagSignal(_) => "tagged"
    case EntitySignal(key, _) => "mentions" + COLON + lower(key)
  }

  predicate Blank(s: Signal) {
    Strip(s.text) == []
  }

  function Topics(texts: seq<string>): seq<Signal> {
    seq(|texts|, i requires 0 <= i < |texts| => TopicSignal(texts[i]))
  }

  function Tags(texts: seq<string>): seq<Signal> {
    seq(|texts|, i requires 0 <= i < |texts| => TagSignal(texts[i]))
  }

  function OfKey(key: string, texts: seq<string>): seq<Signal> {
    seq(|texts|, i requires 0 <= i < |texts| => EntitySignal(key, texts[i]))
  }

  function OfEntries(entries: seq<(string, Values)>): seq<Signal> {
    if entries == [] then []
    else
      var (key, values) := entries[|entries| - 1];
      OfEntries(entries[..|entries| - 1]) + if values.Listed? then OfKey(key, values.items) else []
  }

  function Signals(topics: seq<string>, tags: seq<string>, entries: seq<(string, Values)>): seq<Signal> {
    Topics(topics) + Tags(tags) + OfEntries(entries)
  }

  // ---------------------------------------------------------------------------
  // The graph of a list of signals
  // ---------------------------------------------------------------------------

  predicate HasNode(nodes: seq<Node>, id: string) {
    exists i :: 0 <= i < |nodes| && nodes[i].id == id
  }

  function MemoryNode(memory: string): Node {
    Node(MEMORY + COLON + memory, MEMORY, memory)
  }

  /** A node is listed unless one with its id is. */
  function WithNode(nodes: seq<Node>, node: Node): seq<Node> {
    if HasNode(nodes, node.id) then nodes else nodes + [node]
  }

  function Linked(lower: string -> string, memory: string, g: Graph, s: Signal): Graph {
    if Blank(s) then g
    else
      var id := IdOf(lower, s);
      Graph(WithNode(g.nodes, Node(id, KindOf(s), Strip(s.text))),
            g.edges + [Edge(MEMORY + COLON + memory, id, RelationOf(lower, s))])
  }

  function Build(lower: string -> string, memory: string, signals: seq<Signal>): Graph {
    if signals == [] then Graph([MemoryNode(memory)], [])
    else Linked(lower, memory, Build(lower, memory, signals[..|signals| - 1]), signals[|signals| - 1])
  }

  function Confidence(signals: nat): nat {
    if signals == 0 then 40 else Min(85, 45 + 8 * Min(signals, 5))
  }

  /** None is the AttributeError at the count of the entity values, which comes after the graph is built. */
  function FromSignals(lower: string -> string, memory: string, topics: seq<string>, tags: seq<string>, entities: Entities)
    : Option<(Graph, nat)>
  {
    if entities.NoDict? then None
    else
      var signals := Signals(topics, tags, entities.entries);
      Some((Build(lower, memory, signals), Confidence(|signals|)))
  }

  // ---------------------------------------------------------------------------
  // The agent
  // ---------------------------------------------------------------------------

  class Builder {
    const lower: string -> string
    const memory: string
    var nodes: seq<Node>
    var edges: seq<Edge>
    /** The signals taken in so far. */
    ghost var seen: seq<Signal>

    ghost predicate Valid()
      reads this
    {
      Graph(nodes, edges) == Build(lower, memory, seen)
    }

    constructor (lower: string -> string, memory: string)
      ensures Valid() && seen == [] && this.lower == lower && this.memory == memory
    {
      this.lower, this.memory := lower, memory;
      nodes, edges := [Node(MEMORY + COLON + memory, MEMORY, memory)], [];
      seen := [];
    }

    method AddNode(id: string, kind: string, title: string)
      modifies `nodes
      ensures nodes == if HasNode(old(nodes), id) then old(nodes) else old(nodes) + [Node(id, kind, title)]
    {
      for i := 0 to |nodes|
        invariant nodes == old(nodes) && forall j :: 0 <= j < i ==> nodes[j].id != id
      {
        if nodes[i].id == id { return; }
      }
      nodes := nodes + [Node(id, kind, title)];
    }

    method AddEdge(source: string, target: string, relation: string)
      modifies `edges
      ensures edges == old(edges) + [Edge(source, target, relation)]
    {
      edges := edges + [Edge(source, target, relation)];
    }

    method AddTopic(t: string)
      requires Valid()
      modifies this
      ensures Valid() && seen == old(seen) + [TopicSignal(t)]
    {
      OneMoreSignal(lower, memory, seen, TopicSignal(t));
      hide Build, HasNode, Strip, MEMORY, TOPIC, TAG, ENTITY, COLON;
      seen := seen + [TopicSignal(t)];
      var text := Strip(t);
      if text == [] { return; }
      var id := TOPIC + COLON + lower(text);
      AddNode(id, TOPIC, text);
      AddEdge(MEMORY + COLON + memory, id, "about");
    }

    method AddTag(t: string)
      requires Valid()
      modifies this
      ensures Valid() && seen == old(seen) + [TagSignal(t)]
    {
      OneMoreSignal(lower, memory, seen, TagSignal(t));
      hide Build, HasNode, Strip, MEMORY, TOPIC, TAG, ENTITY, COLON;
      seen := seen + [TagSignal(t)];
      var text := Strip(t);
      if text == [] { return; }
      var id := TAG + COLON + lower(text);
      AddNode(id, TAG, text);
      AddEdge(MEMORY + COLON + memory, id, "tagged");
    }

    method AddEntity(key: string, t: string)
      requires Valid()
      modifies this
      ensures Valid() && seen == old(seen) + [EntitySignal(key, t)]
    {
      OneMoreSignal(lower, memory, seen, EntitySignal(key, t));
      hide Build, HasNode, Strip, MEMORY, TOPIC, TAG, ENTITY, COLON;
      seen := seen + [EntitySignal(key, t)];
      var text := Strip(t);
      if text == [] { return; }
      var id := ENTITY + COLON + lower(key) + COLON + lower(text);
      AddNode(id, ENTITY, text);
      AddEdge(MEMORY + COLON + memory, id, "mentions" + COLON + lower(key));
    }

    method AddTopics(topics: seq<string>)
      requires Valid()
      modifies this
      ensures Valid() && seen == old(seen) + Topics(topics)
    {
      hide Valid;
      for i := 0 to |topics|
        invariant Valid() && seen == old(seen) + Topics(topics[..i])
      {
        AddTopic(topics[i]);
        assert Topics(topics[..i + 1]) == Topics(topics[..i]) + [TopicSignal(topics[i])];
      }
      assert topics[..|topics|] == topics;
    }

    method AddTags(tags: seq<string>)
      requires Valid()
      modifies this
      ensures Valid() && seen == old(seen) + Tags(tags)
    {
      hide Valid;
      for i := 0 to |tags|
        invariant Valid() && seen == old(seen) + Tags(tags[..i])
      {
        AddTag(tags[i]);
        assert Tags(tags[..i + 1]) == Tags(tags[..i]) + [TagSignal(tags[i])];
      }
      assert tags[..|tags|] == tags;
    }

    method AddKey(key: string, items: seq<string>)
      requires Valid()
      modifies this
      ensures Valid() && seen == old(seen) + OfKey(key, items)
    {
      hide Valid;
      for i := 0 to |items|
        invariant Valid() && seen == old(seen) + OfKey(key, items[..i])
      {
        AddEntity(key, items[i]);
        assert OfKey(key, items[..i + 1]) == OfKey(key, items[..i]) + [EntitySignal(key, items[i])];
      }
      assert items[..|items|] == items;
    }

    method AddEntities(entries: seq<(string, Values)>)
      requires Valid()
      modifies this
      ensures Valid() && seen == old(seen) + OfEntries(entries)
    {
      hide Valid, OfKey;
      for i := 0 to |entries|
        invariant Valid() && seen == old(seen) + OfEntries(entries[..i])
      {
        assert entries[..i + 1][..i] == entries[..i];
        var (key, values) := entries[i];
        if values.Listed? {
          AddKey(key, values.items);
        }
      }
      assert entries[..|entries|] == entries;
    }
  }

  /** `sum(len(v) for v in entities.values() if isinstance(v, list))` */
  function CountValues(entries: seq<(string, Values)>): nat {
    if entries == [] then 0
    else
      CountValues(entries[..|entries| - 1])
      + var values := entries[|entries| - 1].1; if values.Listed? then |values.items| else 0
  }

  lemma {:induction false} EntriesAreCounted(entries: seq<(string, Values)>)
    ensures |OfEntries(entries)| == CountValues(entries)
  {
    if entries != [] {
      EntriesAreCounted(entries[..|entries| - 1]);
    }
  }

  method BuildGraph(lower: string -> string, memory: string, topics: seq<string>, tags: seq<string>, entities: Entities)
    returns (r: Option<(Graph, nat)>)
    ensures r == FromSignals(lower, memory, topics, tags, entities)
  {
    hide Build, OfEntries, Topics, Tags;
    var b := new Builder(lower, memory);
    b.AddTopics(topics);
    b.AddTags(tags);
    if entities.Entries? {
      b.AddEntities(entities.entries);
    }
    var confidence := 40;
    if entities.NoDict? { return None; }
    var signalCount := |topics| + |tags| + CountValues(entities.entries);
    if signalCount != 0 {
      confidence := Min(85, 45 + 8 * Min(signalCount, 5));
    }
    CountedSignals(topics, tags, entities.entries);
    assert b.seen == Signals(topics, tags, entities.entries);
    r := Some((Graph(b.nodes, b.edges), confidence));
  }

  // ---------------------------------------------------------------------------
  // What is read from the enrichment
  // ---------------------------------------------------------------------------

  /** A value of the enrichment: None, a text, another scalar with its text, a list, or a dict in its order. */
  datatype Value =
    | Null
    | Text(s: string)
    | Scalar(text: string, truthy: bool)
    | Items(items: seq<Value>)
    | Dict(fields: seq<(string, Value)>)

  /** `d.get(key)` */
  function Get(fields: seq<(string, Value)>, key: string): Value {
    if fields == [] then Null
    else if fields[0].0 == key then fields[0].1
    else Get(fields[1..], key)
  }

  /** `(v or {}).get(key) if isinstance(v, dict) else other` */
  function Part(v: Value, key: string, other: Value): Value {
    if v.Dict? then Get(v.fields, key) else other
  }

  /** The elements of a loop over `v or []`; None is the TypeError for a scalar. A text gives its characters, a
      dict its keys. */
  function Elements(v: Value): Option<seq<Value>> {
    match v
    case Null => Some([])
    case Text(s) => Some(seq(|s|, i requires 0 <= i < |s| => Text([s[i]])))
    case Scalar(_, truthy) => if truthy then None else Some([])
    case Items(items) => Some(items)
    case Dict(fields) => Some(seq(|fields|, i requires 0 <= i < |fields| => Text(fields[i].0)))
  }

  /** `str(v)`; for lists and dicts a parameter. */
  function Str(repr: Value -> string, v: Value): string {
    match v
    case Null => "None"
    case Text(s) => s
    case Scalar(text, _) => text
    case _ => repr(v)
  }

  function Strs(repr: Value -> string, vs: seq<Value>): seq<string> {
    seq(|vs|, i requires 0 <= i < |vs| => Str(repr, vs[i]))
  }

  function EntriesOf(repr: Value -> string, fields: seq<(string, Value)>): seq<(string, Values)> {
    seq(|fields|, i requires 0 <= i < |fields| =>
      (fields[i].0, if fields[i].1.Items? then Listed(Strs(repr, fields[i].1.items)) else Other))
  }

  function Metadata(enrichment: Value): Value {
    Part(enrichment, "metadata", Null)
  }

  function TopicList(enrichment: Value): Option<seq<Value>> {
    Elements(Part(Part(enrichment, "topics", Null), "topics", Items([])))
  }

  function TagList(enrichment: Value): Option<seq<Value>> {
    Elements(Part(Metadata(enrichment), "tags", Items([])))
  }

  function EntityDict(enrichment: Value): Value {
    Part(Metadata(enrichment), "entities", Dict([]))
  }

  function EntitiesOf(repr: Value -> string, v: Value): Entities {
    if v.Dict? then Entries(EntriesOf(repr, v.fields)) else NoDict
  }

  /** `_heuristic`; None is an exception. */
  function Heuristic(lower: string -> string, repr: Value -> string, memory: string, enrichment: Value)
    : Option<(Graph, nat)>
  {
    if TopicList(enrichment).None? || TagList(enrichment).None? then None
    else
      FromSignals(lower, memory, Strs(repr, TopicList(enrichment).value), Strs(repr, TagList(enrichment).value),
                  EntitiesOf(repr, EntityDict(enrichment)))
  }

  method RunHeuristic(lower: string -> string, repr: Value -> string, memory: string, enrichment: Value)
    returns (r: Option<(Graph, nat)>)
    ensures r == Heuristic(lower, repr, memory, enrichment)
  {
    hide FromSignals;
    var md, topics := Part(enrichment, "metadata", Null), Part(enrichment, "topics", Null);
    var tags := Elements(Part(md, "tags", Items([])));
    var entities := Part(md, "entities", Dict([]));
    var topicList := Elements(Part(topics, "topics", Items([])));
    if topicList.None? || tags.None? { return None; }
    r := BuildGraph(lower, memory, Strs(repr, topicList.value), Strs(repr, tags.value), EntitiesOf(repr, entities));
  }

  /** Loops cannot run over it: a scalar that is not zero, false or empty. */
  predicate NotIterable(v: Value) {
    v.Scalar? && v.truthy
  }

  /** The heuristic raises exactly for metadata that are a dict, be it empty, without a dict under "entities", and for
      topics or tags that are a scalar. */
  lemma RaisesExactlyWhen(lower: string -> string, repr: Value -> string, memory: string, enrichment: Value)
    ensures Heuristic(lower, repr, memory, enrichment).None? <==>
            var md, topics := Part(enrichment, "metadata", Null), Part(enrichment, "topics", Null);
            || (md.Dict? && !Get(md.fields, "entities").Dict?)
            || (md.Dict? && NotIterable(Get(md.fields, "tags")))
            || (topics.Dict? && NotIterable(Get(topics.fields, "topics")))
  {
    hide Get, Build, Signals, Strs, EntriesOf;
  }

  lemma CountedSignals(topics: seq<string>, tags: seq<string>, entries: seq<(string, Values)>)
    ensures |Signals(topics, tags, entries)| == |topics| + |tags| + CountValues(entries)
  {
    EntriesAreCounted(entries);
  }

  lemma OneMoreSignal(lower: string -> string, memory: string, signals: seq<Signal>, s: Signal)
    ensures Build(lower, memory, signals + [s]) == Linked(lower, memory, Build(lower, memory, signals), s)
  {
    assert (signals + [s])[..|signals|] == signals;
  }

  // ---------------------------------------------------------------------------
  // Properties
  // ---------------------------------------------------------------------------

  predicate NodesDiffer(nodes: seq<Node>) {
    forall i, j :: 0 <= i < j < |nodes| ==> nodes[i].id != nodes[j].id
  }

  predicate HasEdgeTo(edges: seq<Edge>, id: string) {
    exists i :: 0 <= i < |edges| && edges[i].target == id
  }

  /** Every edge leaves the node `center` for another listed node. */
  predicate EdgesLeave(nodes: seq<Node>, edges: seq<Edge>, center: string) {
    forall i :: 0 <= i < |edges| ==>
      edges[i].source == center && edges[i].target != center && HasNode(nodes, edges[i].target)
  }

  predicate OthersAreReached(nodes: seq<Node>, edges: seq<Edge>) {
    forall i :: 1 <= i < |nodes| ==> HasEdgeTo(edges, nodes[i].id)
  }

  /** A star around the memory's node: every edge leaves it for another listed node, and every other node has one. */
  predicate IsStar(g: Graph, memory: string) {
    && g.nodes != [] && g.nodes[0] == MemoryNode(memory) && NodesDiffer(g.nodes)
    && EdgesLeave(g.nodes, g.edges, g.nodes[0].id)
    && OthersAreReached(g.nodes, g.edges)
  }

  lemma NoSignalIsTheMemory(lower: string -> string, memory: string, s: Signal)
    ensures IdOf(lower, s) != MemoryNode(memory).id
  {
    assert IdOf(lower, s)[0] == 't' || IdOf(lower, s)[0] == 'e';
    assert MemoryNode(memory).id[0] == 'm';
  }

  lemma ListingKeepsNodes(nodes: seq<Node>, node: Node)
    requires nodes != [] && NodesDiffer(nodes)
    ensures var more := WithNode(nodes, node);
            && more != [] && more[0] == nodes[0] && NodesDiffer(more) && HasNode(more, node.id)
            && forall x :: HasNode(nodes, x) ==> HasNode(more, x)
  {
    var more := WithNode(nodes, node);
    assert forall i :: 0 <= i < |nodes| ==> more[i] == nodes[i];
    forall x | HasNode(nodes, x) ensures HasNode(more, x) {
      var i :| 0 <= i < |nodes| && nodes[i].id == x;
      assert more[i].id == x;
    }
    assert HasNode(nodes, node.id) || more[|nodes|].id == node.id;
  }

  lemma EdgeKeepsLeaving(nodes: seq<Node>, edges: seq<Edge>, center: string, node: Node, edge: Edge)
    requires nodes != [] && NodesDiffer(nodes) && EdgesLeave(nodes, edges, center)
    requires edge.source == center && edge.target == node.id && node.id != center
    ensures EdgesLeave(WithNode(nodes, node), edges + [edge], center)
  {
    ListingKeepsNodes(nodes, node);
    hide HasNode, NodesDiffer, WithNode;
    forall i | 0 <= i < |edges + [edge]|
      ensures var e := (edges + [edge])[i];
              e.source == center && e.target != center && HasNode(WithNode(nodes, node), e.target)
    {
      assert i < |edges| ==> (edges + [edge])[i] == edges[i];
    }
  }

  lemma EdgeReachesItsNode(edges: seq<Edge>, edge: Edge)
    ensures HasEdgeTo(edges + [edge], edge.target)
    ensures forall x :: HasEdgeTo(edges, x) ==> HasEdgeTo(edges + [edge], x)
  {
    var more := edges + [edge];
    assert more[|edges|] == edge;
    forall x | HasEdgeTo(edges, x) ensures HasEdgeTo(more, x) {
      var i :| 0 <= i < |edges| && edges[i].target == x;
      assert more[i].target == x;
    }
  }

  lemma OthersStayReached(nodes: seq<Node>, edges: seq<Edge>, node: Node, edge: Edge)
    requires nodes != [] && OthersAreReached(nodes, edges) && edge.target == node.id
    ensures OthersAreReached(WithNode(nodes, node), edges + [edge])
  {
    EdgeReachesItsNode(edges, edge);
    hide HasEdgeTo, HasNode;
  }

  /** Adding an edge to a new or an old node, whatever they are called. */
  lemma GrowingKeepsStars(memory: string, g: Graph, h: Graph, node: Node, edge: Edge)
    requires IsStar(g, memory) && node.id != g.nodes[0].id
    requires edge.source == g.nodes[0].id && edge.target == node.id
    requires h == Graph(WithNode(g.nodes, node), g.edges + [edge])
    ensures IsStar(h, memory)
  {
    hide MemoryNode, WithNode, NodesDiffer, EdgesLeave, OthersAreReached, HasNode;
    ListingKeepsNodes(g.nodes, node);
    EdgeKeepsLeaving(g.nodes, g.edges, g.nodes[0].id, node, edge);
    OthersStayReached(g.nodes, g.edges, node, edge);
  }

  lemma LinkingKeepsStars(lower: string -> string, memory: string, g: Graph, s: Signal)
    requires IsStar(g, memory)
    ensures IsStar(Linked(lower, memory, g, s), memory)
  {
    if !Blank(s) {
      NoSignalIsTheMemory(lower, memory, s);
      var node := NodeOf(lower, s);
      var edge := Edge(MEMORY + COLON + memory, IdOf(lower, s), RelationOf(lower, s));
      assert g.nodes[0].id == MEMORY + COLON + memory;
      hide IdOf, Strip, KindOf, RelationOf, HasNode, EdgesLeave, OthersAreReached, NodesDiffer, MEMORY, COLON;
      GrowingKeepsStars(memory, g, Linked(lower, memory, g, s), node, edge);
    }
  }

  lemma {:induction false} GraphsAreStars(lower: string -> string, memory: string, signals: seq<Signal>)
    ensures IsStar(Build(lower, memory, signals), memory)
  {
    if signals != [] {
      GraphsAreStars(lower, memory, signals[..|signals| - 1]);
      LinkingKeepsStars(lower, memory, Build(lower, memory, signals[..|signals| - 1]), signals[|signals| - 1]);
      hide Linked, IsStar;
    }
  }

  function Written(signals: seq<Signal>): seq<Signal> {
    if signals == [] then []
    else
      var before, s := Written(signals[..|signals| - 1]), signals[|signals| - 1];
      if Blank(s) then before else before + [s]
  }

  /** One edge for every signal that is not blank, in order. */
  lemma {:induction false} EdgesFollowSignals(lower: string -> string, memory: string, signals: seq<Signal>)
    ensures var edges, written := Build(lower, memory, signals).edges, Written(signals);
            && |edges| == |written|
            && forall i :: 0 <= i < |edges| ==>
                 edges[i] == Edge(MEMORY + COLON + memory, IdOf(lower, written[i]), RelationOf(lower, written[i]))
  {
    hide IdOf, RelationOf, Blank;
    if signals != [] {
      EdgesFollowSignals(lower, memory, signals[..|signals| - 1]);
    }
  }

  ghost predicate FirstWithId(lower: string -> string, written: seq<Signal>, k: int)
    requires 0 <= k < |written|
  {
    forall j :: 0 <= j < k ==> IdOf(lower, written[j]) != IdOf(lower, written[k])
  }

  function NodeOf(lower: string -> string, s: Signal): Node {
    Node(IdOf(lower, s), KindOf(s), Strip(s.text))
  }

  /** The signals written, as nodes. */
  ghost predicate IsWritten(lower: string -> string, written: seq<Signal>, node: Node) {
    exists j :: 0 <= j < |written| && node == NodeOf(lower, written[j])
  }

  lemma OneMoreNode(lower: string -> string, memory: string, g: Graph, s: Signal, node: Node)
    requires node in Linked(lower, memory, g, s).nodes
    ensures node in g.nodes || (!Blank(s) && node == NodeOf(lower, s))
  {
    hide IdOf, KindOf, Strip, HasNode;
  }

  lemma {:induction false} NodesComeFromSignals(lower: string -> string, memory: string, signals: seq<Signal>, node: Node)
    requires node in Build(lower, memory, signals).nodes
    ensures node == MemoryNode(memory) || IsWritten(lower, Written(signals), node)
  {
    hide Blank, MemoryNode, NodeOf, Linked;
    if signals != [] {
      var init, s := signals[..|signals| - 1], signals[|signals| - 1];
      var before, written := Written(init), Written(signals);
      OneMoreNode(lower, memory, Build(lower, memory, init), s, node);
      if node in Build(lower, memory, init).nodes {
        NodesComeFromSignals(lower, memory, init, node);
        assert forall j :: 0 <= j < |before| ==> written[j] == before[j];
      } else {
        assert written[|before|] == s;
      }
    }
  }

  lemma NewIdsGetTheirNode(lower: string -> string, memory: string, g: Graph, s: Signal)
    requires !Blank(s) && forall node :: node in g.nodes ==> node.id != IdOf(lower, s)
    ensures NodeOf(lower, s) in Linked(lower, memory, g, s).nodes
  {
    hide IdOf, KindOf, Strip;
  }

  lemma OldNodesStay(lower: string -> string, memory: string, g: Graph, s: Signal, node: Node)
    requires node in g.nodes
    ensures node in Linked(lower, memory, g, s).nodes
  {
    hide IdOf, KindOf, Strip, HasNode;
  }

  /** For every id there is the node of the first signal that has it, so the first spelling stays. */
  lemma {:induction false} FirstSpellingStays(lower: string -> string, memory: string, signals: seq<Signal>, k: nat)
    requires k < |Written(signals)| && FirstWithId(lower, Written(signals), k)
    ensures NodeOf(lower, Written(signals)[k]) in Build(lower, memory, signals).nodes
  {
    hide Blank, MemoryNode, IdOf, KindOf, Strip, Linked;
    var n := |signals| - 1;
    var init, s := signals[..n], signals[n];
    var before, g := Written(init), Build(lower, memory, init);
    assert forall j :: 0 <= j < |before| ==> Written(signals)[j] == before[j];
    if k < |before| {
      FirstSpellingStays(lower, memory, init, k);
      OldNodesStay(lower, memory, g, s, NodeOf(lower, before[k]));
    } else {
      NoSignalIsTheMemory(lower, memory, s);
      forall node | node in g.nodes ensures node.id != IdOf(lower, s) {
        NodesComeFromSignals(lower, memory, init, node);
      }
      NewIdsGetTheirNode(lower, memory, g, s);
    }
  }

  /** Which nodes there are does not depend on the order of the signals. */
  lemma NodeIdsForgetOrder(lower: string -> string, memory: string, xs: seq<Signal>, ys: seq<Signal>, id: string)
    requires forall s :: s in xs <==> s in ys
    ensures HasNode(Build(lower, memory, xs).nodes, id) <==> HasNode(Build(lower, memory, ys).nodes, id)
  {
    NodeIdsAre(lower, memory, xs, id);
    NodeIdsAre(lower, memory, ys, id);
    hide Build, HasNode, IdOf, Blank;
  }

  ghost predicate SomeSignal(lower: string -> string, signals: seq<Signal>, id: string) {
    exists s :: s in signals && !Blank(s) && IdOf(lower, s) == id
  }

  lemma OneMoreSource(lower: string -> string, init: seq<Signal>, s: Signal, id: string)
    ensures SomeSignal(lower, init + [s], id) <==> SomeSignal(lower, init, id) || (!Blank(s) && IdOf(lower, s) == id)
  {
    hide IdOf, Blank;
    assert forall x :: x in init + [s] <==> x in init || x == s;
  }

  /** The nodes are the memory's and one for each id of a signal that is not blank. */
  lemma {:induction false} NodeIdsAre(lower: string -> string, memory: string, signals: seq<Signal>, id: string)
    ensures HasNode(Build(lower, memory, signals).nodes, id) <==>
            id == MemoryNode(memory).id || SomeSignal(lower, signals, id)
  {
    hide Linked, MemoryNode, SomeSignal, IdOf, Blank;
    if signals == [] {
      assert Build(lower, memory, signals).nodes == [MemoryNode(memory)];
      assert Build(lower, memory, signals).nodes[0] == MemoryNode(memory);
      NoSignalsNoSource(lower, id);
    } else {
      var init, s := signals[..|signals| - 1], signals[|signals| - 1];
      NodeIdsAre(lower, memory, init, id);
      OneMoreId(lower, memory, Build(lower, memory, init), s, id);
      OneMoreSource(lower, init, s, id);
      assert signals == init + [s];
    }
  }

  lemma NoSignalsNoSource(lower: string -> string, id: string)
    ensures !SomeSignal(lower, [], id)
  {
  }

  lemma OneMoreId(lower: string -> string, memory: string, g: Graph, s: Signal, id: string)
    ensures HasNode(Linked(lower, memory, g, s).nodes, id) <==> HasNode(g.nodes, id) || (!Blank(s) && IdOf(lower, s) == id)
  {
    hide IdOf, Strip;
    var h := Linked(lower, memory, g, s);
    assert forall i :: 0 <= i < |g.nodes| ==> h.nodes[i] == g.nodes[i];
    if !Blank(s) && !HasNode(g.nodes, IdOf(lower, s)) {
      assert h.nodes[|g.nodes|].id == IdOf(lower, s);
    }
  }
}
