/**
 The checker scripts/validate_merged_docs.py, and what it finds in the files that the compiler wrote.
 */
module DocsValidator {
  import opened Options
  import opened Text
  import opened Anchors
  import opened DocsCompiler
  import opened DocsOutput

  /** A line of the manifest, with the text of the source if it is still on disk. */
  datatype Source = Source(rel: string, text: Option<string>)

  datatype Finding = Absent | Blank | InRequirements | InTesting | NotFound

  /** The form in which the checker compares a source. */
  function Comparable(text: string): string {
    RStrip(Newlines(text))
  }

  function Judge(s: Source, requirements: string, testing: string): Finding {
    if s.text.None? then Absent
    else
      var text := Comparable(s.text.value);
      if text == [] then Blank
      else if Contains(requirements, text) then InRequirements
      else if Contains(testing, text) then InTesting
      else NotFound
  }

  function Count(sources: seq<Source>, requirements: string, testing: string, f: Finding): nat {
    if sources == [] then 0
    else
      var n := |sources| - 1;
      Count(sources[..n], requirements, testing, f) + if Judge(sources[n], requirements, testing) == f then 1 else 0
  }

  predicate IsMissing(s: Source, requirements: string, testing: string) {
    var f := Judge(s, requirements, testing);
    f.Absent? || f.NotFound?
  }

  /** The line that reports a missing source. */
  function Line(s: Source): string {
    if s.text.None? then s.rel + " (source missing on disk)" else s.rel
  }

  function Missing(sources: seq<Source>, requirements: string, testing: string): seq<string> {
    if sources == [] then []
    else
      var n := |sources| - 1;
      var m := Missing(sources[..n], requirements, testing);
      if IsMissing(sources[n], requirements, testing) then m + [Line(sources[n])] else m
  }

  datatype Report = Report(foundInRequirements: nat, foundInTesting: nat, missing: seq<string>, exitCode: int)

  /** `main`, from the sources of the manifest and the texts of the two outputs, each None where the file is
      absent. The result None is the exit before anything is compared. */
  method Validate(manifest: Option<seq<Source>>, requirementsOut: Option<string>, testingOut: Option<string>)
    returns (r: Option<Report>)
    ensures r.None? <==> manifest.None? || requirementsOut.None? || testingOut.None?
    ensures r.Some? ==> r.value == Compared(manifest.value, Newlines(requirementsOut.value), Newlines(testingOut.value))
  {
    if manifest.None? { return None; }
    if requirementsOut.None? || testingOut.None? { return None; }
    var report := Compare(manifest.value, requirementsOut.value, testingOut.value);
    return Some(report);
  }

  function Compared(sources: seq<Source>, req: string, test: string): (r: Report)
    ensures r.exitCode == 0 <==> r.missing == []
  {
    var missing := Missing(sources, req, test);
    Report(Count(sources, req, test, InRequirements), Count(sources, req, test, InTesting), missing,
           if missing == [] then 0 else 1)
  }

  method Compare(sources: seq<Source>, requirementsOut: string, testingOut: string) returns (r: Report)
    ensures r == Compared(sources, Newlines(requirementsOut), Newlines(testingOut))
  {
    hide Newlines, Contains, Comparable;
    var req, test := Newlines(requirementsOut), Newlines(testingOut);
    var inReq, inTest := 0, 0;
    var missing: seq<string> := [];
    for i := 0 to |sources|
      invariant inReq == Count(sources[..i], req, test, InRequirements)
      invariant inTest == Count(sources[..i], req, test, InTesting)
      invariant missing == Missing(sources[..i], req, test)
    {
      assert sources[..i + 1][..i] == sources[..i];
      var s := sources[i];
      if s.text.None? {
        missing := missing + [s.rel + " (source missing on disk)"];
        continue;
      }
      var text := Comparable(s.text.value);
      if text == [] {
        continue;
      }
      if Contains(req, text) {
        inReq := inReq + 1;
        continue;
      }
      if Contains(test, text) {
        inTest := inTest + 1;
        continue;
      }
      missing := missing + [s.rel];
    }
    assert sources[..|sources|] == sources;
    r := Report(inReq, inTest, missing, if missing != [] then 1 else 0);
  }

  lemma {:induction false} MissingAre(sources: seq<Source>, requirements: string, testing: string, line: string)
    ensures line in Missing(sources, requirements, testing) <==>
              exists i :: 0 <= i < |sources| && Line(sources[i]) == line && IsMissing(sources[i], requirements, testing)
  {
    hide Line, IsMissing;
    if sources != [] {
      var n := |sources| - 1;
      var init := sources[..n];
      MissingAre(init, requirements, testing, line);
      if i :| 0 <= i < n && Line(init[i]) == line && IsMissing(init[i], requirements, testing) {
        assert sources[i] == init[i];
      }
      if i :| 0 <= i < |sources| && Line(sources[i]) == line && IsMissing(sources[i], requirements, testing) {
        assert i < n ==> init[i] == sources[i];
      }
    }
  }

  // ---------------------------------------------------------------------------
  // What the compiler wrote passes the check
  // ---------------------------------------------------------------------------

  /** A right-stripped content between a line end and a line end survives normalising the whole file. */
  lemma FramedContentIsFound(before: string, content: string, after: string)
    requires before != [] && before[|before| - 1] == '\n'
    ensures Contains(Newlines(before + RStrip(content) + after), Comparable(content))
  {
    var c := RStrip(content);
    var out := before + c + after;
    RStripCommutes(content);
    NewlinesInOnePass(out);
    NewlinesInOnePass(c);
    if c == [] {
      assert Contains(OnePass(out), []) by {
        assert OccursAt([], OnePass(out), 0);
      }
    } else {
      assert c[|c| - 1] != '\r';
      OnePassConcat(before, c);
      OnePassConcat(before + c, after);
      ContainsMiddle(OnePass(before), OnePass(c), OnePass(after));
    }
  }

  lemma BeforeContentEndsLine(title: string, anchor: string)
    ensures var b := BeforeContent(title, anchor); b != [] && b[|b| - 1] == '\n'
  {
  }

  /** The content of every document that is not a duplicate is found in the file of its bucket. */
  lemma KeptDocIsFound(lay: Layout, items: seq<Doc>, duplicates: map<string, string>, i: nat)
    requires i < |items| && items[i].rel !in duplicates
    ensures Contains(Newlines(OutputText(lay, items, duplicates)), Comparable(items[i].content))
  {
    var titles, anchors := TitleTable(lay, items), AnchorTable(lay, items);
    var header := RenderHeader(lay.title, lay.generated, lay.description, |items|, |KeptHashes(items, duplicates)|);
    var before, after := PartOccurs(items, i, duplicates, titles, anchors);
    var b := BeforeContent(Get(titles, items[i].rel, "Untitled"), Get(anchors, items[i].rel, "doc"));
    BeforeContentEndsLine(Get(titles, items[i].rel, "Untitled"), Get(anchors, items[i].rel, "doc"));
    var c := RStrip(items[i].content);
    var pre := header + RenderIndex(items, titles, anchors) + before + b;
    var post := AfterContent() + after;
    assert RenderPart(items[i], duplicates, titles, anchors) == b + c + AfterContent();
    Regroup(header + RenderIndex(items, titles, anchors), before, b, c, AfterContent(), after);
    FramedContentIsFound(pre, items[i].content, post);
  }

  lemma Regroup(a: string, b: string, c: string, d: string, e: string, f: string)
    ensures a + (b + (c + d + e) + f) == (a + b + c) + d + (e + f)
  {
  }

  function SourcesOf(docs: seq<Doc>): (r: seq<Source>)
    ensures |r| == |docs| && forall i :: 0 <= i < |r| ==> r[i] == Source(docs[i].rel, Some(docs[i].content))
  {
    seq(|docs|, i requires 0 <= i < |docs| => Source(docs[i].rel, Some(docs[i].content)))
  }

  /** What the two files hold after compiling `docs`. */
  function Compiled(lay: Layout, docs: seq<Doc>, isTesting: Doc -> bool, testing: bool): string {
    OutputText(lay, Bucket(docs, isTesting, testing), Duplicates(docs))
  }

  lemma UniqueIsFound(layR: Layout, layT: Layout, docs: seq<Doc>, isTesting: Doc -> bool, d: Doc)
    requires DistinctPaths(docs) && d in Uniques(docs)
    ensures || Contains(Newlines(Compiled(layR, docs, isTesting, false)), Comparable(d.content))
            || Contains(Newlines(Compiled(layT, docs, isTesting, true)), Comparable(d.content))
  {
    UniquesHaveDistinctHashes(docs);
    KeptIsUnique(docs, d);
    BucketMembers(docs, isTesting, isTesting(d), d);
    var items := Bucket(docs, isTesting, isTesting(d));
    var i :| 0 <= i < |items| && items[i] == d;
    KeptDocIsFound(if isTesting(d) then layT else layR, items, Duplicates(docs), i);
  }

  /** A document passes the check if it is kept, or if the original it repeats contains its text. */
  predicate Safe(docs: seq<Doc>, i: nat)
    requires i < |docs|
  {
    IsRepeat(docs, i) ==>
      Contains(Comparable(FirstOf(docs[..i], docs[i].hash).content), Comparable(docs[i].content))
  }

  lemma SafeDocIsFound(layR: Layout, layT: Layout, docs: seq<Doc>, isTesting: Doc -> bool, i: nat)
    requires DistinctPaths(docs) && i < |docs| && Safe(docs, i)
    ensures var req := Newlines(Compiled(layR, docs, isTesting, false));
            var test := Newlines(Compiled(layT, docs, isTesting, true));
            Contains(req, Comparable(docs[i].content)) || Contains(test, Comparable(docs[i].content))
  {
    hide Compiled, Contains, Comparable, FirstOf;
    var req := Newlines(Compiled(layR, docs, isTesting, false));
    var test := Newlines(Compiled(layT, docs, isTesting, true));
    if IsRepeat(docs, i) {
      var d := FirstOf(docs[..i], docs[i].hash);
      FirstIsUnique(docs, i);
      UniqueIsFound(layR, layT, docs, isTesting, d);
      if Contains(req, Comparable(d.content)) {
        ContainsTrans(req, Comparable(d.content), Comparable(docs[i].content));
      } else {
        ContainsTrans(test, Comparable(d.content), Comparable(docs[i].content));
      }
    } else {
      UniquesAreFirsts(docs, docs[i]);
      UniqueIsFound(layR, layT, docs, isTesting, docs[i]);
    }
  }

  lemma MissingDocIsUnsafe(layR: Layout, layT: Layout, docs: seq<Doc>, isTesting: Doc -> bool, rel: string)
    requires DistinctPaths(docs)
    requires rel in Missing(SourcesOf(docs), Newlines(Compiled(layR, docs, isTesting, false)),
                            Newlines(Compiled(layT, docs, isTesting, true)))
    ensures exists i :: 0 <= i < |docs| && docs[i].rel == rel && !Safe(docs, i)
  {
    hide Compiled, Newlines, Contains, Comparable, Missing, Safe;
    var req := Newlines(Compiled(layR, docs, isTesting, false));
    var test := Newlines(Compiled(layT, docs, isTesting, true));
    var sources := SourcesOf(docs);
    MissingAre(sources, req, test, rel);
    var i :| 0 <= i < |sources| && Line(sources[i]) == rel && IsMissing(sources[i], req, test);
    if Safe(docs, i) {
      SafeDocIsFound(layR, layT, docs, isTesting, i);
    }
  }

  /** After compiling, the checker misses only duplicates whose text does not occur in their original,
      so never a kept document. */
  lemma CompiledDocsValidate(layR: Layout, layT: Layout, docs: seq<Doc>, isTesting: Doc -> bool)
    requires DistinctPaths(docs)
    ensures var missing := Missing(SourcesOf(docs), Newlines(Compiled(layR, docs, isTesting, false)),
                                   Newlines(Compiled(layT, docs, isTesting, true)));
            && (forall i :: 0 <= i < |docs| && docs[i].rel in missing ==> !Safe(docs, i))
            && ((forall i :: 0 <= i < |docs| ==> Safe(docs, i)) ==> missing == [])
  {
    hide Compiled, Newlines, Contains, Comparable, Missing, Safe;
    var missing := Missing(SourcesOf(docs), Newlines(Compiled(layR, docs, isTesting, false)),
                           Newlines(Compiled(layT, docs, isTesting, true)));
    forall i | 0 <= i < |docs| && docs[i].rel in missing ensures !Safe(docs, i) {
      MissingDocIsUnsafe(layR, layT, docs, isTesting, docs[i].rel);
    }
    if missing != [] {
      assert missing[0] in missing;
      MissingDocIsUnsafe(layR, layT, docs, isTesting, missing[0]);
    }
  }
}
