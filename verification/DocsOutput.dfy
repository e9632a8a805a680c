/**
 The two output files of scripts/compile_markdown_docs.py: how the documents are divided
 between them, and the text of one file.
 */
module DocsOutput {
  import opened Options
  import opened Text
  import opened Anchors
  import opened DocsCompiler

  // ---------------------------------------------------------------------------
  // The two buckets
  // ---------------------------------------------------------------------------

  function Bucket(docs: seq<Doc>, isTesting: Doc -> bool, testing: bool): seq<Doc> {
    if docs == [] then []
    else
      var n := |docs| - 1;
      if isTesting(docs[n]) == testing then Bucket(docs[..n], isTesting, testing) + [docs[n]]
      else Bucket(docs[..n], isTesting, testing)
  }

  method FillBuckets(docs: seq<Doc>, isTesting: Doc -> bool) returns (requirements: seq<Doc>, testing: seq<Doc>)
    ensures requirements == Bucket(docs, isTesting, false) && testing == Bucket(docs, isTesting, true)
  {
    requirements, testing := [], [];
    for i := 0 to |docs|
      invariant requirements == Bucket(docs[..i], isTesting, false) && testing == Bucket(docs[..i], isTesting, true)
    {
      assert docs[..i + 1][..i] == docs[..i];
      if isTesting(docs[i]) {
        testing := testing + [docs[i]];
      } else {
        requirements := requirements + [docs[i]];
      }
    }
    assert docs[..|docs|] == docs;
  }

  lemma {:induction false} BucketMembers(docs: seq<Doc>, isTesting: Doc -> bool, testing: bool, d: Doc)
    ensures d in Bucket(docs, isTesting, testing) <==> d in docs && isTesting(d) == testing
  {
    if docs != [] {
      BucketMembers(docs[..|docs| - 1], isTesting, testing, d);
      assert d in docs <==> d in docs[..|docs| - 1] || d == docs[|docs| - 1];
    }
  }

  /** The contents that a bucket includes, counted by the header of its file. */
  function KeptHashes(items: seq<Doc>, duplicates: map<string, string>): set<string> {
    set d | d in items && d.rel !in duplicates :: d.hash
  }

  function HashSet(docs: seq<Doc>): set<string> {
    set d | d in docs :: d.hash
  }

  lemma {:induction false} UniquesHaveDistinctHashes(docs: seq<Doc>)
    ensures |HashSet(Uniques(docs))| == |Uniques(docs)|
    ensures forall d :: d in Uniques(docs) ==> d in docs
  {
    if docs != [] {
      var n := |docs| - 1;
      var init := docs[..n];
      UniquesHaveDistinctHashes(init);
      if !HasHash(init, docs[n].hash) {
        forall d | d in Uniques(init) ensures d.hash != docs[n].hash {
          var i :| 0 <= i < |init| && init[i] == d;
        }
        assert HashSet(Uniques(docs)) == HashSet(Uniques(init)) + {docs[n].hash};
      }
    }
  }

  lemma KeptIsUnique(docs: seq<Doc>, d: Doc)
    requires DistinctPaths(docs) && d in docs
    ensures d.rel !in Duplicates(docs) <==> d in Uniques(docs)
  {
    var i :| 0 <= i < |docs| && docs[i] == d;
    DuplicatesAreRepeats(docs, i);
    UniquesAreFirsts(docs, d);
    if d in Uniques(docs) {
      var j :| 0 <= j < |docs| && docs[j] == d && !IsRepeat(docs, j);
      assert docs[i].rel == docs[j].rel;
    }
  }

  lemma SameHashSameUnique(docs: seq<Doc>, d: Doc, e: Doc)
    requires d in Uniques(docs) && e in Uniques(docs) && d.hash == e.hash
    ensures d == e
  {
    UniquesAreFirsts(docs, d);
    UniquesAreFirsts(docs, e);
    var i :| 0 <= i < |docs| && docs[i] == d && !IsRepeat(docs, i);
    var j :| 0 <= j < |docs| && docs[j] == e && !IsRepeat(docs, j);
  }

  /** The unique counts in the two headers add up to the number of unique documents. */
  lemma UniqueCountsAddUp(docs: seq<Doc>, isTesting: Doc -> bool)
    requires DistinctPaths(docs)
    ensures |KeptHashes(Bucket(docs, isTesting, false), Duplicates(docs))|
            + |KeptHashes(Bucket(docs, isTesting, true), Duplicates(docs))| == |Uniques(docs)|
  {
    var dups := Duplicates(docs);
    var r, t := Bucket(docs, isTesting, false), Bucket(docs, isTesting, true);
    UniquesHaveDistinctHashes(docs);
    forall d ensures (d in r && d.rel !in dups <==> d in Uniques(docs) && !isTesting(d))
             ensures (d in t && d.rel !in dups <==> d in Uniques(docs) && isTesting(d))
    {
      BucketMembers(docs, isTesting, false, d);
      BucketMembers(docs, isTesting, true, d);
      if d in docs {
        KeptIsUnique(docs, d);
      }
    }
    var kr, kt := KeptHashes(r, dups), KeptHashes(t, dups);
    forall h | h in kr && h in kt ensures false {
      var d :| d in r && d.rel !in dups && d.hash == h;
      var e :| e in t && e.rel !in dups && e.hash == h;
      SameHashSameUnique(docs, d, e);
    }
    assert kr !! kt;
    assert HashSet(Uniques(docs)) == kr + kt;
  }

  // ---------------------------------------------------------------------------
  // The text of one file
  // ---------------------------------------------------------------------------

  function HeaderTop(title: string, generated: string, description: string): string {
    "# " + title + "\n\n" + "Generated: " + generated + " (UTC)\n\n" + description + "\n\n"
  }

  function SourcesLabel(): string {
    "- Source .md files " + "discovered: "
  }

  function UniqueLabel(): string {
    "- Unique file " + "contents included: "
  }

  function HeaderCounts(sources: nat, unique: nat): string {
    SourcesLabel() + Dec(sources) + "\n" + UniqueLabel() + Dec(unique) + "\n\n"
  }

  function RenderHeader(title: string, generated: string, description: string, sources: nat, unique: nat): string {
    HeaderTop(title, generated, description) + HeaderCounts(sources, unique)
    + "---\n\n" + "## Table of Contents\n\n"
  }

  function Get(names: map<string, string>, rel: string, default: string): string {
    if rel in names then names[rel] else default
  }

  /** The dictionaries of `build_titles`, keyed by path. */
  function ByPath(items: seq<Doc>, names: seq<string>): map<string, string>
    requires |items| == |names|
  {
    if items == [] then map[]
    else
      var n := |items| - 1;
      ByPath(items[..n], names[..n])[items[n].rel := names[n]]
  }

  function IndexLines(items: seq<Doc>, titles: map<string, string>, anchors: map<string, string>): seq<string> {
    if items == [] then []
    else
      var n := |items| - 1;
      IndexLines(items[..n], titles, anchors)
      + ["- [" + Get(titles, items[n].rel, "Untitled") + "](#" + Get(anchors, items[n].rel, "doc") + ")"]
  }

  function RenderIndex(items: seq<Doc>, titles: map<string, string>, anchors: map<string, string>): string {
    Join("\n", IndexLines(items, titles, anchors)) + "\n\n---\n\n"
  }

  function BeforeContent(title: string, anchor: string): string {
    "<a id=\"" + anchor + "\"></a>\n\n" + "## " + title + "\n\n" + "<details>\n" + "<summary>Show content</summary>\n\n"
  }

  function AfterContent(): string {
    "\n\n" + "</details>\n\n" + "---\n\n"
  }

  function RenderDoc(doc: Doc, title: string, anchor: string): string {
    BeforeContent(title, anchor) + RStrip(doc.content) + AfterContent()
  }

  function RenderDuplicate(title: string, anchor: string, originalTitle: string, originalAnchor: string): string {
    "<a id=\"" + anchor + "\"></a>\n\n" + "## " + title + "\n\n"
    + "Duplicate of [" + originalTitle + "](#" + originalAnchor + "). Content omitted.\n\n" + "---\n\n"
  }

  function RenderPart(doc: Doc, duplicates: map<string, string>,
                      titles: map<string, string>, anchors: map<string, string>): string {
    var title, anchor := Get(titles, doc.rel, "Untitled"), Get(anchors, doc.rel, "doc");
    if doc.rel in duplicates then
      var original := duplicates[doc.rel];
      RenderDuplicate(title, anchor, Get(titles, original, "Original"), Get(anchors, original, "original"))
    else RenderDoc(doc, title, anchor)
  }

  function RenderParts(items: seq<Doc>, duplicates: map<string, string>,
                       titles: map<string, string>, anchors: map<string, string>): string {
    if items == [] then []
    else
      var n := |items| - 1;
      RenderParts(items[..n], duplicates, titles, anchors) + RenderPart(items[n], duplicates, titles, anchors)
  }

  /** What the script looks up and prints besides the documents themselves. */
  datatype Layout = Layout(
    sc: Script, heading: string -> Option<string>, title: string, generated: string, description: string)

  function Headings(lay: Layout, items: seq<Doc>): (r: seq<Option<string>>)
    ensures |r| == |items| && forall i :: 0 <= i < |r| ==> r[i] == lay.heading(items[i].content)
  {
    seq(|items|, i requires 0 <= i < |items| => lay.heading(items[i].content))
  }

  function TitleTable(lay: Layout, items: seq<Doc>): map<string, string> {
    ByPath(items, Titles(Headings(lay, items)))
  }

  function AnchorTable(lay: Layout, items: seq<Doc>): map<string, string> {
    ByPath(items, AnchorList(lay.sc, Headings(lay, items)))
  }

  function OutputText(lay: Layout, items: seq<Doc>, duplicates: map<string, string>): string {
    var titles, anchors := TitleTable(lay, items), AnchorTable(lay, items);
    RenderHeader(lay.title, lay.generated, lay.description, |items|, |KeptHashes(items, duplicates)|)
    + RenderIndex(items, titles, anchors)
    + RenderParts(items, duplicates, titles, anchors)
  }

  method CollectByPath(items: seq<Doc>, names: seq<string>) returns (table: map<string, string>)
    requires |items| == |names|
    ensures table == ByPath(items, names)
  {
    table := map[];
    for i := 0 to |items|
      invariant table == ByPath(items[..i], names[..i])
    {
      assert items[..i + 1][..i] == items[..i] && names[..i + 1][..i] == names[..i];
      table := table[items[i].rel := names[i]];
    }
    assert items[..|items|] == items && names[..|names|] == names;
  }

  /** The loop of `write_output` over the documents of the file. */
  method RenderBody(items: seq<Doc>, duplicates: map<string, string>,
                    titles: map<string, string>, anchors: map<string, string>)
    returns (body: string)
    ensures body == RenderParts(items, duplicates, titles, anchors)
  {
    hide RenderPart;
    body := "";
    for i := 0 to |items|
      invariant body == RenderParts(items[..i], duplicates, titles, anchors)
    {
      assert items[..i + 1][..i] == items[..i];
      body := body + RenderPart(items[i], duplicates, titles, anchors);
    }
    assert items[..|items|] == items;
  }

  /** `write_output`; the result is what is written to the file. */
  method WriteOutput(lay: Layout, items: seq<Doc>, duplicates: map<string, string>) returns (out: string)
    ensures out == OutputText(lay, items, duplicates)
  {
    hide RenderHeader, RenderIndex, RenderParts, Titles, AnchorList, ByPath;
    var titleList, anchorList := BuildTitles(lay.sc, Headings(lay, items));
    var titles := CollectByPath(items, titleList);
    var anchors := CollectByPath(items, anchorList);
    var header := RenderHeader(lay.title, lay.generated, lay.description, |items|, |KeptHashes(items, duplicates)|);
    var index := RenderIndex(items, titles, anchors);
    var body := RenderBody(items, duplicates, titles, anchors);
    out := header + index + body;
  }

  /** The rendering of one document inside the file. */
  lemma {:induction false} PartOccurs(items: seq<Doc>, i: nat, duplicates: map<string, string>,
                                      titles: map<string, string>, anchors: map<string, string>)
    returns (before: string, after: string)
    requires i < |items|
    ensures RenderParts(items, duplicates, titles, anchors)
            == before + RenderPart(items[i], duplicates, titles, anchors) + after
  {
    hide RenderPart;
    var n := |items| - 1;
    if i == n {
      before, after := RenderParts(items[..n], duplicates, titles, anchors), [];
    } else {
      before, after := PartOccurs(items[..n], i, duplicates, titles, anchors);
      after := after + RenderPart(items[n], duplicates, titles, anchors);
    }
  }
}
