/**
 `TopicModelingAgent._heuristic` of backend/app/agents/topic_modeling_agent.py. Lower-casing is a
 parameter; confidences are in hundredths.
 */
module TopicModeling {
  import opened Basics
  import opened Text
  import Ordering
  import Sorting

  /** A topic with the tags and the keywords that speak for it. */
  datatype Topic = Topic(name: string, tags: set<string>, keywords: seq<string>)

  const TOPICS: seq<Topic> := [
    Topic("billing", {"billing", "payments", "refund"},
          ["refund", "charge", "invoice", "payment", "chargeback", "billing"]),
    Topic("security", {"security", "auth"},
          ["password", "login", "token", "2fa", "mfa", "ssn", "credit card", "api key"]),
    Topic("engineering", {"engineering", "bug", "incident"},
          ["bug", "error", "stack trace", "exception", "crash", "deploy"]),
    Topic("logistics", {"logistics", "shipping", "delivery"},
          ["shipping", "delivery", "tracking", "warehouse", "carrier"]),
    Topic("meeting", {"meeting"},
          ["meeting", "agenda", "minutes", "call", "zoom", "teams meeting"])]

  const GENERAL: string := "general"

  datatype Outcome = Outcome(topics: seq<string>, primary: string, confidence: nat)

  // ---------------------------------------------------------------------------
  // Sums
  // ---------------------------------------------------------------------------

  function Sum<T>(f: T -> nat, xs: seq<T>): nat {
    if xs == [] then 0 else Sum(f, xs[..|xs| - 1]) + f(xs[|xs| - 1])
  }

  lemma {:induction false} SumAppend<T>(f: T -> nat, a: seq<T>, b: seq<T>)
    ensures Sum(f, a + b) == Sum(f, a) + Sum(f, b)
  {
    if b == [] {
      assert a + b == a;
    } else {
      assert (a + b)[..|a + b| - 1] == a + b[..|b| - 1];
      SumAppend(f, a, b[..|b| - 1]);
    }
  }

  lemma SumMiddle<T>(f: T -> nat, a: seq<T>, x: T, b: seq<T>)
    ensures Sum(f, a + [x] + b) == Sum(f, a + b) + f(x)
  {
    SumAppend(f, a, b);
    SumAppend(f, a + [x], b);
    assert (a + [x])[..|a|] == a;
  }

  /** One element of a list, wherever it stands in a rearrangement. */
  lemma TakeOut<T>(init: seq<T>, x: T, ys: seq<T>) returns (a: seq<T>, b: seq<T>)
    requires multiset(init + [x]) == multiset(ys)
    ensures ys == a + [x] + b && multiset(init) == multiset(a + b)
  {
    assert x in multiset(init + [x]);
    var i :| 0 <= i < |ys| && ys[i] == x;
    a, b := ys[..i], ys[i + 1..];
    assert ys == a + [x] + b;
    WithoutTheMiddle(a, x, b);
    assert multiset(init) == multiset(init + [x]) - multiset{x};
  }

  lemma WithoutTheMiddle<T>(a: seq<T>, x: T, b: seq<T>)
    ensures multiset(a + [x] + b) - multiset{x} == multiset(a + b)
  {
    assert multiset(a + [x] + b) == multiset(a) + multiset{x} + multiset(b);
  }

  /** A sum does not depend on the order. */
  lemma {:induction false} SumForgetsOrder<T>(f: T -> nat, xs: seq<T>, ys: seq<T>)
    requires multiset(xs) == multiset(ys)
    ensures Sum(f, xs) == Sum(f, ys)
    decreases |xs|
  {
    if xs == [] {
      assert |multiset(ys)| == |ys| == 0;
    } else {
      var x, init := xs[|xs| - 1], xs[..|xs| - 1];
      assert xs == init + [x];
      var a, b := TakeOut(init, x, ys);
      SumForgetsOrder(f, init, a + b);
      SumMiddle(f, a, x, b);
    }
  }

  // ---------------------------------------------------------------------------
  // Scores
  // ---------------------------------------------------------------------------

  function RowPoints(table: seq<Topic>, tag: string, name: string): nat {
    if table == [] then 0
    else
      var row := table[|table| - 1];
      RowPoints(table[..|table| - 1], tag, name) + if row.name == name && tag in row.tags then 3 else 0
  }

  function Hits(keywords: seq<string>, text: string): nat {
    if keywords == [] then 0
    else Hits(keywords[..|keywords| - 1], text) + if Contains(text, keywords[|keywords| - 1]) then 1 else 0
  }

  function KeywordPoints(table: seq<Topic>, text: string, name: string): nat {
    if table == [] then 0
    else
      var row := table[|table| - 1];
      KeywordPoints(table[..|table| - 1], text, name) + if row.name == name then Hits(row.keywords, text) else 0
  }

  /** `[t.strip().lower() for t in tags if t.strip()]` */
  function Normalized(lower: string -> string, tags: seq<string>): seq<string> {
    if tags == [] then []
    else
      var before, t := Normalized(lower, tags[..|tags| - 1]), tags[|tags| - 1];
      if Strip(t) == [] then before else before + [lower(Strip(t))]
  }

  function NormalPoints(table: seq<Topic>, name: string): string -> nat {
    t => RowPoints(table, t, name)
  }

  function PointsOfTag(table: seq<Topic>, lower: string -> string, tag: string, name: string): nat {
    if Strip(tag) == [] then 0 else RowPoints(table, lower(Strip(tag)), name)
  }

  function TagPoints(table: seq<Topic>, lower: string -> string, name: string): string -> nat {
    t => PointsOfTag(table, lower, t, name)
  }

  /** Three points for every tag that names the topic, one for every keyword in the content. */
  function Score(table: seq<Topic>, lower: string -> string, content: string, tags: seq<string>): string -> nat {
    name => Sum(TagPoints(table, lower, name), tags) + KeywordPoints(table, lower(content), name)
  }

  lemma {:induction false} SumNormalized(table: seq<Topic>, lower: string -> string, tags: seq<string>, name: string)
    ensures Sum(NormalPoints(table, name), Normalized(lower, tags)) == Sum(TagPoints(table, lower, name), tags)
  {
    hide Strip, RowPoints;
    if tags != [] {
      var init, t := tags[..|tags| - 1], tags[|tags| - 1];
      SumNormalized(table, lower, init, name);
      var before := Normalized(lower, init);
      assert (before + [lower(Strip(t))])[..|before|] == before;
    }
  }

  // ---------------------------------------------------------------------------
  // Ranking
  // ---------------------------------------------------------------------------

  /** By score, highest first, then by name. */
  function Ahead(score: string -> nat): (string, string) -> bool {
    (a, b) => score(a) > score(b) || (score(a) == score(b) && Ordering.Less(a, b))
  }

  /** The topics with a score, each once. */
  function Names(table: seq<Topic>, score: string -> nat): seq<string> {
    if table == [] then []
    else
      var before, name := Names(table[..|table| - 1], score), table[|table| - 1].name;
      if score(name) == 0 || name in before then before else before + [name]
  }

  function Ranking(table: seq<Topic>, score: string -> nat): seq<string> {
    Sorting.Sort(Ahead(score), Names(table, score))
  }

  function Report(ranking: seq<string>, score: string -> nat): Outcome {
    if ranking == [] then Outcome([GENERAL], GENERAL, 35)
    else Outcome(ranking[..Min(5, |ranking|)], ranking[0], Min(85, 45 + 10 * Min(score(ranking[0]), 4)))
  }

  function Heuristic(table: seq<Topic>, lower: string -> string, content: string, tags: seq<string>): Outcome {
    var score := Score(table, lower, content, tags);
    Report(Ranking(table, score), score)
  }

  lemma AheadIsStrict(score: string -> nat)
    ensures Sorting.StrictWeak(Ahead(score))
    ensures forall a, b :: a != b ==> Ahead(score)(a, b) || Ahead(score)(b, a)
  {
    Ordering.LessIsATotalOrder();
    hide Ordering.Less;
  }

  lemma DistinctToldApart(score: string -> nat, xs: seq<string>)
    requires Distinct(xs)
    ensures Sorting.ToldApart(Ahead(score), xs)
  {
    AheadIsStrict(score);
    hide Ahead;
  }

  lemma {:induction false} NamesAre(table: seq<Topic>, score: string -> nat)
    ensures Distinct(Names(table, score))
    ensures forall n :: n in Names(table, score) <==> score(n) > 0 && exists row :: row in table && row.name == n
  {
    if table != [] {
      NamesAre(table[..|table| - 1], score);
      assert table == table[..|table| - 1] + [table[|table| - 1]];
    }
  }

  /** A ranking is determined by the scores and the topics that have one. */
  lemma RankingIsDetermined(a: string -> nat, b: string -> nat, xs: seq<string>, ys: seq<string>)
    requires forall n :: a(n) == b(n)
    requires Distinct(xs) && Distinct(ys) && forall n :: n in xs <==> n in ys
    ensures Sorting.Sort(Ahead(a), xs) == Sorting.Sort(Ahead(b), ys)
  {
    DistinctToldApart(a, xs);
    DistinctToldApart(b, ys);
    AheadIsStrict(a);
    AheadIsStrict(b);
    Sorting.SortAscends(Ahead(a), xs);
    Sorting.SortAscends(Ahead(b), ys);
    Sorting.SortMembers(Ahead(a), xs);
    Sorting.SortMembers(Ahead(b), ys);
    var r, s := Sorting.Sort(Ahead(a), xs), Sorting.Sort(Ahead(b), ys);
    assert forall i, j :: 0 <= i < j < |r| ==> Ahead(a)(r[i], r[j]) && Ahead(b)(r[i], r[j]);
    hide Ahead, Sorting.Sort, Sorting.StrictWeak;
    Sorting.AscendingUnique(Ahead(b), r, s);
  }

  // ---------------------------------------------------------------------------
  // The scores as the agent builds them
  // ---------------------------------------------------------------------------

  /** A dict from topics to scores, with its keys in order of insertion. */
  datatype Dict = Dict(keys: seq<string>, of: map<string, nat>)

  function Get(d: Dict, name: string): nat {
    if name in d.of then d.of[name] else 0
  }

  /** The dict holds exactly the topics with points. */
  ghost predicate Holds(d: Dict, score: string -> nat) {
    && Distinct(d.keys)
    && (forall n :: n in d.keys <==> n in d.of)
    && (forall n :: Get(d, n) == score(n))
    && (forall n :: n in d.of ==> d.of[n] > 0)
  }

  method Bump(d: Dict, topic: string, n: nat) returns (r: Dict)
    requires n > 0 && Holds(d, m => Get(d, m))
    ensures Holds(r, m => Get(d, m) + if m == topic then n else 0)
  {
    r := Dict(if topic in d.of then d.keys else d.keys + [topic], d.of[topic := Get(d, topic) + n]);
  }

  method TagHints(table: seq<Topic>, tag: string, d: Dict) returns (r: Dict)
    requires Holds(d, m => Get(d, m))
    ensures Holds(r, m => Get(d, m) + RowPoints(table, tag, m))
  {
    r := d;
    for i := 0 to |table|
      invariant Holds(r, m => Get(d, m) + RowPoints(table[..i], tag, m))
    {
      assert table[..i + 1][..i] == table[..i];
      if tag in table[i].tags {
        r := Bump(r, table[i].name, 3);
      }
    }
    assert table[..|table|] == table;
  }

  method KeywordHints(row: Topic, text: string, d: Dict) returns (r: Dict)
    requires Holds(d, m => Get(d, m))
    ensures Holds(r, m => Get(d, m) + if m == row.name then Hits(row.keywords, text) else 0)
  {
    r := d;
    for i := 0 to |row.keywords|
      invariant Holds(r, m => Get(d, m) + if m == row.name then Hits(row.keywords[..i], text) else 0)
    {
      assert row.keywords[..i + 1][..i] == row.keywords[..i];
      if Contains(text, row.keywords[i]) {
        r := Bump(r, row.name, 1);
      }
    }
    assert row.keywords[..|row.keywords|] == row.keywords;
  }

  method TagScores(table: seq<Topic>, normal: seq<string>) returns (d: Dict)
    ensures Holds(d, m => Sum(NormalPoints(table, m), normal))
  {
    hide RowPoints;
    d := Dict([], map[]);
    for i := 0 to |normal|
      invariant Holds(d, m => Sum(NormalPoints(table, m), normal[..i]))
    {
      assert normal[..i + 1][..i] == normal[..i];
      d := TagHints(table, normal[i], d);
    }
    assert normal[..|normal|] == normal;
  }

  method AddKeywordScores(table: seq<Topic>, text: string, start: Dict) returns (d: Dict)
    requires Holds(start, m => Get(start, m))
    ensures Holds(d, m => Get(start, m) + KeywordPoints(table, text, m))
  {
    hide Hits;
    d := start;
    for i := 0 to |table|
      invariant Holds(d, m => Get(start, m) + KeywordPoints(table[..i], text, m))
    {
      assert table[..i + 1][..i] == table[..i];
      d := KeywordHints(table[i], text, d);
    }
    assert table[..|table|] == table;
  }

  method BuildScores(table: seq<Topic>, lower: string -> string, content: string, tags: seq<string>) returns (d: Dict)
    ensures Holds(d, Score(table, lower, content, tags))
  {
    hide KeywordPoints, Sum;
    d := TagScores(table, Normalized(lower, tags));
    d := AddKeywordScores(table, lower(content), d);
    forall m ensures Get(d, m) == Score(table, lower, content, tags)(m) {
      SumNormalized(table, lower, tags, m);
    }
  }

  method RunHeuristic(lower: string -> string, content: string, tags: seq<string>) returns (r: Outcome)
    ensures r == Heuristic(TOPICS, lower, content, tags)
  {
    hide TOPICS;
    var d := BuildScores(TOPICS, lower, content, tags);
    ghost var spec := Score(TOPICS, lower, content, tags);
    NamesAre(TOPICS, spec);
    KeysAreNames(TOPICS, lower, content, tags, d);
    var score := m => Get(d, m);
    RankingIsDetermined(score, spec, d.keys, Names(TOPICS, spec));
    var ranking := Sorting.Sort(Ahead(score), d.keys);
    assert ranking == Ranking(TOPICS, spec) && forall m :: score(m) == spec(m);
    hide Score, Ranking, Sorting.Sort;
    if ranking == [] {
      r := Outcome([GENERAL], GENERAL, 35);
    } else {
      r := Outcome(ranking[..Min(5, |ranking|)], ranking[0], Min(85, 45 + 10 * Min(score(ranking[0]), 4)));
    }
  }

  lemma KeysAreNames(table: seq<Topic>, lower: string -> string, content: string, tags: seq<string>, d: Dict)
    requires Holds(d, Score(table, lower, content, tags))
    ensures forall n :: n in d.keys <==> n in Names(table, Score(table, lower, content, tags))
  {
    var score := Score(table, lower, content, tags);
    NamesAre(table, score);
    forall n | score(n) > 0 ensures exists row :: row in table && row.name == n {
      OnlyTopicsScore(table, lower, content, tags, n);
    }
  }

  lemma {:induction false} NoRowNoPoints(table: seq<Topic>, tag: string, text: string, name: string)
    requires forall row :: row in table ==> row.name != name
    ensures RowPoints(table, tag, name) == 0 && KeywordPoints(table, text, name) == 0
  {
    if table != [] {
      NoRowNoPoints(table[..|table| - 1], tag, text, name);
    }
  }

  lemma {:induction false} NothingToSum(table: seq<Topic>, lower: string -> string, tags: seq<string>, name: string)
    requires forall row :: row in table ==> row.name != name
    ensures Sum(TagPoints(table, lower, name), tags) == 0
  {
    if tags != [] {
      NothingToSum(table, lower, tags[..|tags| - 1], name);
      NoRowNoPoints(table, lower(Strip(tags[|tags| - 1])), "", name);
    }
  }

  lemma OnlyTopicsScore(table: seq<Topic>, lower: string -> string, content: string, tags: seq<string>, name: string)
    requires Score(table, lower, content, tags)(name) > 0
    ensures exists row :: row in table && row.name == name
  {
    if forall row :: row in table ==> row.name != name {
      NothingToSum(table, lower, tags, name);
      NoRowNoPoints(table, "", lower(content), name);
    }
  }

  // ---------------------------------------------------------------------------
  // Properties
  // ---------------------------------------------------------------------------

  /** The order of the tags does not matter. */
  lemma TagOrderDoesNotMatter(table: seq<Topic>, lower: string -> string, content: string,
                              tags: seq<string>, others: seq<string>)
    requires multiset(tags) == multiset(others)
    ensures Heuristic(table, lower, content, tags) == Heuristic(table, lower, content, others)
  {
    var a, b := Score(table, lower, content, tags), Score(table, lower, content, others);
    forall n ensures a(n) == b(n) {
      SumForgetsOrder(TagPoints(table, lower, n), tags, others);
    }
    NamesAre(table, a);
    NamesAre(table, b);
    hide Score;
    RankingIsDetermined(a, b, Names(table, a), Names(table, b));
  }

  /** The topics are ranked by score and then by name, all of them scored, the first is the primary topic and
      no topic scores higher; with no score at all the topic is "general". */
  lemma TopicsAreRanked(table: seq<Topic>, lower: string -> string, content: string, tags: seq<string>)
    ensures var score, r := Score(table, lower, content, tags), Heuristic(table, lower, content, tags);
            && 1 <= |r.topics| <= 5 && r.primary == r.topics[0]
            && (forall i, j :: 0 <= i < j < |r.topics| ==> Ahead(score)(r.topics[i], r.topics[j]))
            && ((exists n :: score(n) > 0) ==>
                 (forall t :: t in r.topics ==> score(t) > 0) && forall n :: score(n) <= score(r.primary))
            && ((forall n :: score(n) == 0) ==> r == Outcome([GENERAL], GENERAL, 35))
  {
    var score := Score(table, lower, content, tags);
    var names := Names(table, score);
    forall n | score(n) > 0 ensures n in names {
      NamesAre(table, score);
      OnlyTopicsScore(table, lower, content, tags, n);
    }
    NamesAre(table, score);
    RankedNames(score, names);
    hide Score;
  }

  lemma RankedNames(score: string -> nat, names: seq<string>)
    requires Distinct(names) && forall n :: n in names <==> score(n) > 0
    ensures var r := Sorting.Sort(Ahead(score), names);
            && (r == [] <==> forall n :: score(n) == 0)
            && (forall i, j :: 0 <= i < j < |r| ==> Ahead(score)(r[i], r[j]))
            && (forall n :: n in r <==> score(n) > 0)
            && (r != [] ==> forall n :: score(n) <= score(r[0]))
  {
    AheadIsStrict(score);
    DistinctToldApart(score, names);
    Sorting.SortAscends(Ahead(score), names);
    Sorting.SortMembers(Ahead(score), names);
    var r := Sorting.Sort(Ahead(score), names);
    hide Sorting.Sort, Sorting.StrictWeak;
    assert r == [] ==> forall n :: n !in r;
    assert r != [] ==> r[0] in r;
    forall n | r != [] ensures score(n) <= score(r[0]) {
      if n in r {
        var i :| 0 <= i < |r| && r[i] == n;
        assert i > 0 ==> Ahead(score)(r[0], r[i]);
      }
    }
  }

  /** With at most five topics in the table none that scores is cut off. */
  lemma NoScoredTopicIsCut(table: seq<Topic>, lower: string -> string, content: string, tags: seq<string>, name: string)
    requires |table| <= 5 && Score(table, lower, content, tags)(name) > 0
    ensures name in Heuristic(table, lower, content, tags).topics
  {
    var score := Score(table, lower, content, tags);
    OnlyTopicsScore(table, lower, content, tags, name);
    NamesAre(table, score);
    NamesFit(table, score);
    hide Score;
    Sorting.SortMembers(Ahead(score), Names(table, score));
    Sorting.SortKeeps(Ahead(score), Names(table, score));
    Sorting.SameElements(Ranking(table, score), Names(table, score));
    var r := Ranking(table, score);
    assert r[..|r|] == r;
  }

  lemma {:induction false} NamesFit(table: seq<Topic>, score: string -> nat)
    ensures |Names(table, score)| <= |table|
  {
    if table != [] {
      NamesFit(table[..|table| - 1], score);
    }
  }
}
