/**
 The Obsidian adapter of backend/integrations/external_sync.py: memories are written as notes with
 a fenced frontmatter, and read back by splitting at the fences.

 The vault is the sync folder as a map from file stems to notes. The JSON printer, the YAML parser and
 what becomes of each attempt to write a file are parameters.
 */
module ObsidianSync {
  import opened Options
  import opened Text

  /** The "content" entry of a memory: missing, a text, or something that `join` refuses. */
  datatype Content = Missing | Plain(text: string) | NotText

  /** `id` and `title` are None where the memory has no such entry; `meta` is what else the frontmatter holds. */
  datatype Memory = Memory(id: Option<string>, title: Option<string>, content: Content, meta: string)

  datatype Note = Readable(text: string) | Unreadable

  type Vault = map<string, Note>

  /** The frontmatter as a dict: its "id", if any, and the rest. */
  datatype Front = Front(id: Option<string>, rest: string)

  /** Writing a file succeeds, fails before the file is touched, or fails after it has been truncated. */
  datatype Writing = Written | Refused | Cut(left: Note)

  /** `dumps` prints the frontmatter of an id and a rest, or raises; `load` is None where YAML finds no dict. */
  datatype Library = Library(
    dumps: (string, string) -> Option<string>,
    load: string -> Option<Front>)

  /** A memory to push, and what becomes of the attempt to write its file, should it get that far. */
  datatype Push = Push(memory: Memory, write: Writing)

  datatype SyncResult = SyncResult(success: bool, synced: nat, failed: nat, errors: seq<string>)

  datatype Pulled = Pulled(title: string, content: string, frontmatter: Front)

  const FENCE: string := ['-', '-', '-']
  const FAILED: string := "Failed to sync memory "

  // ---------------------------------------------------------------------------
  // Push
  // ---------------------------------------------------------------------------

  function Title(id: string, m: Memory): string {
    if m.title.Some? then m.title.value else id
  }

  function Body(m: Memory): Option<string> {
    match m.content
    case Missing => Some("")
    case Plain(text) => Some(text)
    case NotText => None
  }

  function FileText(front: string, body: string): string {
    Join(LF, [FENCE, front, FENCE, [], body])
  }

  /** The text that a push tries to write, if it gets that far. */
  function Rendered(lib: Library, id: string, m: Memory): Option<string> {
    if lib.dumps(id, m.meta).None? || Body(m).None? then None
    else Some(FileText(lib.dumps(id, m.meta).value, Body(m).value))
  }

  function Attempt(lib: Library, id: string, p: Push): Writing {
    if Rendered(lib, id, p.memory).None? then Refused else p.write
  }

  /** The push of the memory succeeds. */
  predicate Lands(lib: Library, p: Push) {
    p.memory.id.Some? && Attempt(lib, p.memory.id.value, p).Written?
  }

  /** The push changes the note of its title, which it may do although it fails. */
  predicate Touches(lib: Library, p: Push) {
    p.memory.id.Some? && !Attempt(lib, p.memory.id.value, p).Refused?
  }

  function TitleOf(p: Push): string {
    if p.memory.id.Some? then Title(p.memory.id.value, p.memory) else ""
  }

  /** What a push leaves under its title. */
  function Left(lib: Library, id: string, p: Push): Note
    requires !Attempt(lib, id, p).Refused?
  {
    match Attempt(lib, id, p)
    case Written => Readable(Rendered(lib, id, p.memory).value)
    case Cut(left) => left
  }

  function NoteOf(lib: Library, p: Push): Note
    requires Touches(lib, p)
  {
    Left(lib, p.memory.id.value, p)
  }

  /** The vault after every memory has been pushed in turn. */
  function Synced(lib: Library, vault: Vault, ps: seq<Push>): Vault {
    if ps == [] then vault
    else
      var before, p := Synced(lib, vault, ps[..|ps| - 1]), ps[|ps| - 1];
      if Touches(lib, p) then before[TitleOf(p) := NoteOf(lib, p)] else before
  }

  /** What is pushed before the first memory without an id stops the run. */
  function Reached(ps: seq<Push>): seq<Push> {
    if ps == [] || ps[0].memory.id.None? then [] else [ps[0]] + Reached(ps[1..])
  }

  function CountLanded(lib: Library, ps: seq<Push>): nat {
    if ps == [] then 0 else CountLanded(lib, ps[..|ps| - 1]) + if Lands(lib, ps[|ps| - 1]) then 1 else 0
  }

  function Errors(lib: Library, ps: seq<Push>): seq<string> {
    if ps == [] then []
    else
      var before, p := Errors(lib, ps[..|ps| - 1]), ps[|ps| - 1];
      if Lands(lib, p) then before else before + [FAILED + if p.memory.id.Some? then p.memory.id.value else ""]
  }

  lemma {:induction false} ReachedAll(ps: seq<Push>)
    requires forall p :: p in ps ==> p.memory.id.Some?
    ensures Reached(ps) == ps
  {
    if ps != [] {
      ReachedAll(ps[1..]);
      assert [ps[0]] + ps[1..] == ps;
    }
  }

  lemma {:induction false} ReachedUpTo(ps: seq<Push>, k: nat)
    requires k < |ps| && ps[k].memory.id.None? && forall j :: 0 <= j < k ==> ps[j].memory.id.Some?
    ensures Reached(ps) == ps[..k]
  {
    if k != 0 {
      ReachedUpTo(ps[1..], k - 1);
      assert [ps[0]] + ps[1..][..k - 1] == ps[..k];
    }
  }

  // ---------------------------------------------------------------------------
  // Pull
  // ---------------------------------------------------------------------------

  /** The stem of `<title>.md`: a name that is all extension is its own stem. */
  function Stem(title: string): string {
    if title == "" then ".md" else title
  }

  /** Reading a file turns every line end into LF. */
  function Parts(text: string): seq<string> {
    Split(Newlines(text), FENCE)
  }

  predicate Carries(lib: Library, text: string, id: string) {
    |Parts(text)| >= 3 && lib.load(Parts(text)[1]).Some? && lib.load(Parts(text)[1]).value.id == Some(id)
  }

  function Found(lib: Library, title: string, text: string, id: string): Pulled
    requires Carries(lib, text, id)
  {
    Pulled(Stem(title), Strip(Parts(text)[2]), lib.load(Parts(text)[1]).value)
  }

  /** The first note, in the order of the listing, that carries the id; a note that cannot be read ends the search. */
  function Pull(lib: Library, vault: Vault, order: seq<string>, id: string): Option<Pulled>
    requires forall t :: t in order ==> t in vault
  {
    if order == [] then None
    else if vault[order[0]].Unreadable? then None
    else if Carries(lib, vault[order[0]].text, id) then Some(Found(lib, order[0], vault[order[0]].text, id))
    else Pull(lib, vault, order[1..], id)
  }

  class ObsidianVaultAdapter {
    const lib: Library
    var files: Vault

    constructor (lib: Library, files: Vault)
      ensures this.lib == lib && this.files == files
    {
      this.lib, this.files := lib, files;
    }

    method PushMemory(id: string, p: Push) returns (ok: bool)
      modifies this
      ensures ok == Attempt(lib, id, p).Written?
      ensures files == if Attempt(lib, id, p).Refused? then old(files)
                       else old(files)[Title(id, p.memory) := Left(lib, id, p)]
    {
      var m := p.memory;
      var title := if m.title.Some? then m.title.value else id;
      var front := lib.dumps(id, m.meta);
      if front.None? { return false; }
      if m.content.NotText? { return false; }
      var text := if m.content.Plain? then m.content.text else "";
      var lines := [FENCE, front.value, FENCE, [], text];
      match p.write
      case Refused => return false;
      case Cut(left) =>
        files := files[title := left];
        return false;
      case Written =>
        files := files[title := Readable(Join(LF, lines))];
        return true;
    }

    /** None stands for the KeyError that leaves `sync_all` at a memory without an id: its handler reads
        the id once more. */
    method SyncAll(ps: seq<Push>) returns (r: Option<SyncResult>)
      modifies this
      ensures r.None? <==> exists p :: p in ps && p.memory.id.None?
      ensures files == Synced(lib, old(files), Reached(ps))
      ensures r.Some? ==> r.value.synced == CountLanded(lib, ps) && r.value.errors == Errors(lib, ps)
      ensures r.Some? ==> r.value.failed == |ps| - r.value.synced && (r.value.success <==> r.value.synced == |ps|)
    {
      var synced, failed := 0, 0;
      var errors := [];
      for i := 0 to |ps|
        invariant forall j :: 0 <= j < i ==> ps[j].memory.id.Some?
        invariant files == Synced(lib, old(files), ps[..i])
        invariant synced == CountLanded(lib, ps[..i]) && errors == Errors(lib, ps[..i])
        invariant synced + failed == i
      {
        assert ps[..i + 1][..i] == ps[..i];
        if ps[i].memory.id.None? {
          ReachedUpTo(ps, i);
          assert ps[i] in ps;
          return None;
        }
        var ok := PushMemory(ps[i].memory.id.value, ps[i]);
        if ok {
          synced := synced + 1;
        } else {
          failed := failed + 1;
          errors := errors + [FAILED + ps[i].memory.id.value];
        }
      }
      assert ps[..|ps|] == ps;
      ReachedAll(ps);
      return Some(SyncResult(failed == 0, synced, failed, errors));
    }

    method PullMemory(order: seq<string>, id: string) returns (r: Option<Pulled>)
      requires forall t :: t in order ==> t in files
      ensures r == Pull(lib, files, order, id)
    {
      for i := 0 to |order|
        invariant Pull(lib, files, order, id) == Pull(lib, files, order[i..], id)
      {
        assert order[i..][1..] == order[i + 1..];
        match files[order[i]]
        case Unreadable => return None;
        case Readable(text) =>
          var parts := Split(Newlines(text), FENCE);
          if |parts| >= 3 {
            var frontmatter := lib.load(parts[1]);
            if frontmatter.Some? && frontmatter.value.id == Some(id) {
              return Some(Pulled(Stem(order[i]), Strip(parts[2]), frontmatter.value));
            }
          }
      }
      return None;
    }
  }

  // ---------------------------------------------------------------------------
  // What a sync leaves in the vault
  // ---------------------------------------------------------------------------

  predicate TouchesAs(lib: Library, p: Push, title: string) {
    Touches(lib, p) && TitleOf(p) == title
  }

  lemma {:induction false} OtherTitlesStay(lib: Library, vault: Vault, ps: seq<Push>, title: string)
    requires forall p :: p in ps ==> !TouchesAs(lib, p, title)
    ensures var out := Synced(lib, vault, ps);
            (title in out <==> title in vault) && (title in out ==> out[title] == vault[title])
  {
    if ps != [] {
      var p := ps[|ps| - 1];
      OtherTitlesStay(lib, vault, ps[..|ps| - 1], title);
      assert !TouchesAs(lib, p, title);
    }
  }

  /** Of the memories that share a title, the last one stays. */
  lemma {:induction false} LastOfATitleWins(lib: Library, vault: Vault, ps: seq<Push>, k: nat, title: string)
    requires k < |ps| && TouchesAs(lib, ps[k], title)
    requires forall j :: k < j < |ps| ==> !TouchesAs(lib, ps[j], title)
    ensures var out := Synced(lib, vault, ps); title in out && out[title] == NoteOf(lib, ps[k])
  {
    var p := ps[|ps| - 1];
    if k < |ps| - 1 {
      LastOfATitleWins(lib, vault, ps[..|ps| - 1], k, title);
      assert !TouchesAs(lib, p, title);
    }
  }

  /** Every note is one that was there before or the note of a memory pushed under its title. */
  lemma {:induction false} NothingElseIsWritten(lib: Library, vault: Vault, ps: seq<Push>, title: string)
    requires title in Synced(lib, vault, ps)
    ensures var note := Synced(lib, vault, ps)[title];
            || (title in vault && note == vault[title])
            || exists k :: 0 <= k < |ps| && TouchesAs(lib, ps[k], title) && note == NoteOf(lib, ps[k])
  {
    if ps != [] {
      var p, init := ps[|ps| - 1], ps[..|ps| - 1];
      if TouchesAs(lib, p, title) {
        assert ps[|ps| - 1] == p;
      } else {
        NothingElseIsWritten(lib, vault, init, title);
        if !(title in vault && Synced(lib, vault, ps)[title] == vault[title]) {
          var k :| 0 <= k < |init| && TouchesAs(lib, init[k], title)
                   && Synced(lib, vault, ps)[title] == NoteOf(lib, init[k]);
          assert ps[k] == init[k];
        }
      }
    }
  }

  // ---------------------------------------------------------------------------
  // Reading a note back
  // ---------------------------------------------------------------------------

  /** What precedes the first fence. */
  function UpToFence(s: string): string {
    Split(s, FENCE)[0]
  }

  lemma NoteShape(front: string, body: string)
    ensures FileText(front, body) == FENCE + (LF + front + LF) + FENCE + (LF + LF + body)
  {
    var none: string := [];
    assert Join(LF, [body]) == body;
    JoinCons(LF, none, [body]);
    JoinCons(LF, FENCE, [none, body]);
    JoinCons(LF, front, [FENCE, none, body]);
    JoinCons(LF, FENCE, [front, FENCE, none, body]);
    hide Join;
    assert [none] + [body] == [none, body];
    assert [FENCE] + [none, body] == [FENCE, none, body];
    assert [front] + [FENCE, none, body] == [front, FENCE, none, body];
    assert [FENCE] + [front, FENCE, none, body] == [FENCE, front, FENCE, none, body];
    assert none + LF + body == LF + body;
  }

  lemma NormalisedShape(front: string, body: string)
    requires '\r' !in front
    ensures Newlines(FileText(front, body)) == FENCE + (LF + front + LF) + FENCE + (LF + LF + Newlines(body))
  {
    hide OnePass, Newlines;
    var head := FENCE + (LF + front + LF) + FENCE + LF + LF;
    NoteShape(front, body);
    NewlinesInOnePass(head + body);
    NewlinesInOnePass(body);
    NothingToNormalise(head);
    OnePassConcat(head, body);
    assert FileText(front, body) == head + body;
  }

  lemma OccursInside(a: string, s: string, b: string, sep: string, i: int)
    requires sep != [] && (forall c :: c in a ==> c !in sep) && (forall c :: c in b ==> c !in sep)
    requires OccursAt(sep, a + s + b, i)
    ensures |a| <= i && i + |sep| <= |a| + |s|
  {
    var t, last := a + s + b, i + |sep| - 1;
    assert forall j :: 0 <= j < |a| ==> t[j] == a[j] && t[j] in a;
    assert forall j :: |a| + |s| <= j < |t| ==> t[j] == b[j - |a| - |s|] && t[j] in b;
    assert t[i..i + |sep|][0] == t[i] && t[i..i + |sep|][|sep| - 1] == t[last];
    assert t[i] in sep && t[last] in sep;
  }

  lemma MiddleSlice(a: string, s: string, b: string, i: int, n: nat)
    requires |a| <= i && i + n <= |a| + |s|
    ensures (a + s + b)[i..i + n] == s[i - |a|..i - |a| + n]
  {
  }

  /** A separator that shares no character with the padding lies in the padded text. */
  lemma PaddingHoldsNoSep(a: string, s: string, b: string, sep: string)
    requires sep != [] && (forall c :: c in a ==> c !in sep) && (forall c :: c in b ==> c !in sep)
    ensures Contains(a + s + b, sep) <==> Contains(s, sep)
  {
    var t := a + s + b;
    if Contains(t, sep) {
      var i :| 0 <= i <= |t| && OccursAt(sep, t, i);
      OccursInside(a, s, b, sep, i);
      MiddleSlice(a, s, b, i, |sep|);
      assert OccursAt(sep, s, i - |a|);
    }
    hide Contains;
    if Contains(s, sep) {
      ContainsMiddle(a, s, b);
      ContainsTrans(t, s, sep);
    }
  }

  lemma SepStartsAfresh(a: string, sep: string)
    requires sep != [] && a != [] && !Contains(a, sep) && a[|a| - 1] !in sep
    ensures FirstSepAtEnd(a, sep)
  {
    var t := a + sep;
    forall i | 0 <= i < |a| ensures !(sep <= t[i..]) {
      if i + |sep| <= |a| {
        assert !OccursAt(sep, a, i);
        assert a[i..i + |sep|] == t[i..][..|sep|];
      } else {
        assert t[i..][|a| - 1 - i] == a[|a| - 1] != sep[|a| - 1 - i];
      }
    }
  }

  lemma UpToFenceAfterBlankLines(body: string)
    ensures UpToFence(LF + LF + body) == LF + LF + UpToFence(body)
  {
    var s, t := LF + LF + body, LF + body;
    assert s[1..] == t && t[1..] == body;
    assert s[0] == '\n' && t[0] == '\n' && FENCE[0] == '-';
    assert Split(t, FENCE)[0] == ['\n'] + Split(body, FENCE)[0];
    assert Split(s, FENCE)[0] == ['\n'] + Split(t, FENCE)[0];
  }

  lemma StripAfterBlanks(w: string, s: string)
    requires All(w, IsSpace)
    ensures Strip(w + s) == Strip(s)
  {
    hide StripBy, IsSpace;
    var a, b := StripParts(s, IsSpace);
    var r := Strip(s);
    assert s == a + r + b;
    assert w + s == (w + a) + r + b;
    StripIs(w + a, r, b, IsSpace);
  }

  lemma SplitOfNote(mid: string, tail: string)
    requires mid != [] && !Contains(mid, FENCE) && mid[|mid| - 1] !in FENCE
    ensures Split(FENCE + mid + FENCE + tail, FENCE) == [[], mid] + Split(tail, FENCE)
  {
    var none: string := [];
    assert FENCE != [];
    assert FirstSepAtEnd(none, FENCE);
    SepStartsAfresh(mid, FENCE);
    hide Split, FENCE, FirstSepAtEnd, Contains;
    assert FENCE + mid + FENCE + tail == none + FENCE + (mid + FENCE + tail);
    SplitAtFirst(none, FENCE, mid + FENCE + tail);
    SplitAtFirst(mid, FENCE, tail);
    assert [none] + ([mid] + Split(tail, FENCE)) == [none, mid] + Split(tail, FENCE);
  }

  /** The id and the frontmatter come back, and the content up to its first fence, stripped. */
  lemma WrittenNotesReadBack(front: string, body: string)
    requires '\r' !in front && !Contains(front, FENCE)
    ensures var p := Parts(FileText(front, body));
            |p| >= 3 && p[1] == LF + front + LF && Strip(p[2]) == Strip(UpToFence(Newlines(body)))
  {
    var mid, tail := LF + front + LF, LF + LF + Newlines(body);
    assert All(LF + LF, IsSpace);
    assert forall c :: c in LF ==> c !in FENCE;
    assert FENCE != [] && mid[|mid| - 1] !in FENCE;
    hide Split, Newlines, FileText, Strip, FENCE, Contains, All;
    PaddingHoldsNoSep(LF, front, LF, FENCE);
    NormalisedShape(front, body);
    SplitOfNote(mid, tail);
    UpToFenceAfterBlankLines(Newlines(body));
    StripAfterBlanks(LF + LF, UpToFence(Newlines(body)));
  }

  /** Nothing but blanks is lost exactly when the content holds no fence. */
  lemma ContentSurvivesExactlyWithoutFences(s: string)
    ensures Strip(UpToFence(s)) == Strip(s) <==> !Contains(s, FENCE)
  {
    hide Split, Strip;
    var rest := SplitHead(s, FENCE);
    var h := UpToFence(s);
    StripKeepsFences(s);
    StripKeepsFences(h);
  }

  lemma StripKeepsFences(s: string)
    ensures Contains(Strip(s), FENCE) <==> Contains(s, FENCE)
  {
    var a, b := StripParts(s, IsSpace);
    forall c | c in a ensures c !in FENCE { assert IsSpace(c) && !IsSpace('-'); }
    forall c | c in b ensures c !in FENCE { assert IsSpace(c) && !IsSpace('-'); }
    PaddingHoldsNoSep(a, Strip(s), b, FENCE);
  }

  // ---------------------------------------------------------------------------
  // Push, then pull
  // ---------------------------------------------------------------------------

  /** The frontmatter reads back as what it was printed from: no fence in it, and YAML agrees with JSON.
      That the JSON printer writes no CR is a law of the printer. */
  ghost predicate ReadsBack(lib: Library, p: Push)
    requires Lands(lib, p)
  {
    var front := lib.dumps(p.memory.id.value, p.memory.meta).value;
    '\r' !in front && !Contains(front, FENCE) && lib.load(LF + front + LF) == Some(Front(p.memory.id, p.memory.meta))
  }

  /** Every note of the vault can be read, and only the one called `title` carries the id. */
  ghost predicate OnlyCarrier(lib: Library, vault: Vault, id: string, title: string) {
    && title in vault
    && (forall t :: t in vault ==> vault[t].Readable?)
    && (forall t :: t in vault ==> (Carries(lib, vault[t].text, id) <==> t == title))
  }

  lemma {:induction false} PullFindsTheCarrier(lib: Library, vault: Vault, order: seq<string>, id: string, title: string)
    requires OnlyCarrier(lib, vault, id, title) && title in order && forall t :: t in order ==> t in vault
    ensures Pull(lib, vault, order, id) == Some(Found(lib, title, vault[title].text, id))
  {
    hide Parts, Found;
    if order[0] != title {
      PullFindsTheCarrier(lib, vault, order[1..], id, title);
    }
  }

  lemma NotesCarryTheirOwnId(lib: Library, p: Push, id: string)
    requires Lands(lib, p) && ReadsBack(lib, p)
    ensures Carries(lib, NoteOf(lib, p).text, id) <==> p.memory.id == Some(id)
  {
    WrittenNotesReadBack(lib.dumps(p.memory.id.value, p.memory.meta).value, Body(p.memory).value);
    hide Parts, Contains, FileText;
  }

  /** What the sync asks of the vault and of the memories so that ids can be found again. */
  ghost predicate Separable(lib: Library, vault: Vault, ps: seq<Push>, id: string) {
    && (forall t :: t in vault ==> vault[t].Readable? && !Carries(lib, vault[t].text, id))
    && (forall p :: p in ps && Lands(lib, p) ==> ReadsBack(lib, p))
    && (forall p :: p in ps && Touches(lib, p) && !Lands(lib, p) ==>
          NoteOf(lib, p).Readable? && !Carries(lib, NoteOf(lib, p).text, id))
    && (forall p, q :: p in ps && q in ps && Lands(lib, p) && Lands(lib, q) && p.memory.id == q.memory.id ==>
          TitleOf(p) == TitleOf(q))
  }

  lemma SurvivorIsTheOnlyCarrier(lib: Library, vault: Vault, ps: seq<Push>, k: nat)
    requires k < |ps| && Lands(lib, ps[k]) && Separable(lib, vault, ps, ps[k].memory.id.value)
    requires forall j :: k < j < |ps| ==> !TouchesAs(lib, ps[j], TitleOf(ps[k]))
    ensures OnlyCarrier(lib, Synced(lib, vault, ps), ps[k].memory.id.value, TitleOf(ps[k]))
  {
    var id, title, out := ps[k].memory.id.value, TitleOf(ps[k]), Synced(lib, vault, ps);
    LastOfATitleWins(lib, vault, ps, k, title);
    NotesCarryTheirOwnId(lib, ps[k], id);
    hide Synced, Carries, ReadsBack, Rendered;
    forall t | t in out ensures out[t].Readable? && (Carries(lib, out[t].text, id) <==> t == title) {
      NothingElseIsWritten(lib, vault, ps, t);
      if t != title && !(t in vault && out[t] == vault[t]) {
        var j :| 0 <= j < |ps| && TouchesAs(lib, ps[j], t) && out[t] == NoteOf(lib, ps[j]);
        assert ps[j] in ps;
        if Lands(lib, ps[j]) {
          NotesCarryTheirOwnId(lib, ps[j], id);
        }
      }
    }
  }

  /** After a sync, pulling the id of a memory whose note is still there returns that memory's title and
      its content up to the first fence, whatever the order of the directory listing. */
  lemma PullReturnsWhatWasPushed(lib: Library, vault: Vault, ps: seq<Push>, k: nat, order: seq<string>)
    requires k < |ps| && Lands(lib, ps[k]) && Separable(lib, vault, ps, ps[k].memory.id.value)
    requires forall j :: k < j < |ps| ==> !TouchesAs(lib, ps[j], TitleOf(ps[k]))
    requires forall t :: t in order <==> t in Synced(lib, vault, ps)
    ensures var p, out := ps[k], Synced(lib, vault, ps);
            var pulled := Pull(lib, out, order, p.memory.id.value);
            && pulled.Some? && pulled.value.title == Stem(TitleOf(p))
            && pulled.value.content == Strip(UpToFence(Newlines(Body(p.memory).value)))
            && pulled.value.frontmatter == Front(p.memory.id, p.memory.meta)
            && (pulled.value.content == Strip(Newlines(Body(p.memory).value)) <==>
                !Contains(Newlines(Body(p.memory).value), FENCE))
  {
    var p, out := ps[k], Synced(lib, vault, ps);
    SurvivorIsTheOnlyCarrier(lib, vault, ps, k);
    LastOfATitleWins(lib, vault, ps, k, TitleOf(p));
    PullFindsTheCarrier(lib, out, order, p.memory.id.value, TitleOf(p));
    WrittenNotesReadBack(lib.dumps(p.memory.id.value, p.memory.meta).value, Body(p.memory).value);
    ContentSurvivesExactlyWithoutFences(Newlines(Body(p.memory).value));
    hide Synced, Separable, OnlyCarrier, Parts, Contains, FileText, Pull, Strip, UpToFence, Newlines;
  }
}
