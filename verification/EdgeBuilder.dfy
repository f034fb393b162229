/** Collecting dependency edges while imports are resolved: the maps always summarize all the
    references added, whatever their order and repetition. */
module EdgeBuilder {
  import opened Wrappers
  import opened Basics
  import opened Sorting
  import opened Confidences
  import opened ModuleGraph

  datatype EdgeKind = Import | Include | ModuleDeclaration | StringReference | PackageDependency

  datatype Reference = Reference(from: nat, to: nat, kind: EdgeKind, confidence: Confidence,
                                 packageLevel: bool, line: nat, specifier: string, mechanism: string)

  datatype FileEdge = FileEdge(line: nat, kind: EdgeKind, confidence: Confidence, specifier: string)

  datatype Sample = Sample(from: nat, to: nat, line: nat)

  datatype ModuleEdge = ModuleEdge(weight: nat, confidence: Confidence, samples: seq<Sample>)

  datatype CrossEdge = CrossEdge(from: nat, to: nat, line: nat, mechanism: string, confidence: Confidence)

  type Pair = (nat, nat)

  const MAX_SAMPLES: nat := 3
  const MAX_SPECIFIER_CHARS: nat := 120
  const MAX_WEIGHT: nat := 0xFFFF_FFFF

  function Stronger(a: Confidence, b: Confidence): Confidence {
    if Level(a) > Level(b) then a else b
  }

  /** A long text is cut and marked with an ellipsis. */
  function Truncate(text: string, max: nat): string {
    if |text| > max then text[..max] + "\U{2026}" else text
  }

  // ---------------------------------------------------------------- which edges count

  datatype Setting = Setting(modules: seq<Option<nat>>, languages: seq<Option<string>>)

  predicate InFiles(c: Setting, r: Reference) {
    |c.modules| == |c.languages| && r.from < |c.modules| && r.to < |c.modules|
  }

  /** Both files are in modules. */
  predicate Placed(c: Setting, r: Reference) {
    InFiles(c, r) && c.modules[r.from].Some? && c.modules[r.to].Some?
  }

  predicate LinksFiles(c: Setting, r: Reference, key: Pair) {
    Placed(c, r) && !r.packageLevel && key == (r.from, r.to)
  }

  /** Between two different modules, and not a declaration of a file as part of a module. */
  predicate LinksModules(c: Setting, r: Reference, key: Pair) {
    && Placed(c, r) && r.kind != ModuleDeclaration
    && key == (c.modules[r.from].value, c.modules[r.to].value) && key.0 != key.1
  }

  ghost predicate CrossesLanguages(c: Setting, r: Reference) {
    && InFiles(c, r) && !r.packageLevel && c.languages[r.from].Some? && c.languages[r.to].Some?
    && c.languages[r.from] != c.languages[r.to]
  }

  ghost function FileLinks(c: Setting, refs: seq<Reference>, key: Pair): seq<Reference> {
    if refs == [] then []
    else
      var r := refs[|refs| - 1];
      FileLinks(c, refs[..|refs| - 1], key) + if LinksFiles(c, r, key) then [r] else []
  }

  ghost function ModuleLinks(c: Setting, refs: seq<Reference>, key: Pair): seq<Reference> {
    if refs == [] then []
    else
      var r := refs[|refs| - 1];
      ModuleLinks(c, refs[..|refs| - 1], key) + if LinksModules(c, r, key) then [r] else []
  }

  ghost function Crossings(c: Setting, refs: seq<Reference>): seq<CrossEdge> {
    if refs == [] then []
    else
      var r := refs[|refs| - 1];
      Crossings(c, refs[..|refs| - 1])
      + if CrossesLanguages(c, r) then [CrossEdge(r.from, r.to, r.line, r.mechanism, r.confidence)] else []
  }

  lemma LinksNext(c: Setting, refs: seq<Reference>, r: Reference, key: Pair)
    ensures FileLinks(c, refs + [r], key) == FileLinks(c, refs, key) + (if LinksFiles(c, r, key) then [r] else [])
    ensures ModuleLinks(c, refs + [r], key) == ModuleLinks(c, refs, key) + (if LinksModules(c, r, key) then [r] else [])
    ensures Crossings(c, refs + [r]) == Crossings(c, refs)
      + (if CrossesLanguages(c, r) then [CrossEdge(r.from, r.to, r.line, r.mechanism, r.confidence)] else [])
  {
    assert (refs + [r])[..|refs|] == refs;
  }

  // ----------------------------------------------------------------------- summaries

  ghost function Strongest(refs: seq<Reference>): Confidence {
    if refs == [] then Unavailable else Stronger(Strongest(refs[..|refs| - 1]), refs[|refs| - 1].confidence)
  }

  function SampleOf(r: Reference): Sample {
    Sample(r.from, r.to, r.line)
  }

  ghost function FirstSamples(refs: seq<Reference>): seq<Sample> {
    seq(if |refs| < 3 then |refs| else 3, i requires 0 <= i < |refs| => Sample(refs[i].from, refs[i].to, refs[i].line))
  }

  /** How many references there are (as far as 32 bits count), the strongest confidence, and the first
      references as samples. */
  ghost function ModuleSummary(refs: seq<Reference>): ModuleEdge {
    ModuleEdge(if |refs| < 0x1_0000_0000 then |refs| else 0xFFFF_FFFF, Strongest(refs), FirstSamples(refs))
  }

  /** The first reference with the strongest confidence of all. */
  ghost function FileSummary(refs: seq<Reference>): FileEdge
    requires refs != []
  {
    var text := refs[0].specifier;
    FileEdge(refs[0].line, refs[0].kind, Strongest(refs), if |text| <= 120 then text else text[..120] + "\U{2026}")
  }

  /** The strongest confidence is one of those given, and none is stronger. */
  lemma {:induction false} StrongestIsMax(refs: seq<Reference>)
    requires refs != []
    ensures exists r :: r in refs && r.confidence == Strongest(refs)
    ensures forall r :: r in refs ==>
      match Strongest(refs)
      case High => true
      case Medium => r.confidence != High
      case Low => r.confidence != High && r.confidence != Medium
      case Unavailable => r.confidence == Unavailable
  {
    var front, last := refs[..|refs| - 1], refs[|refs| - 1];
    assert refs == front + [last];
    if front != [] {
      StrongestIsMax(front);
      var r :| r in front && r.confidence == Strongest(front);
      assert r in refs && last in refs;
    } else {
      assert last in refs && Strongest(front) == Unavailable;
    }
  }

  function Counted(e: ModuleEdge, r: Reference): ModuleEdge {
    ModuleEdge(if e.weight < MAX_WEIGHT then e.weight + 1 else MAX_WEIGHT,
               Stronger(e.confidence, r.confidence),
               if |e.samples| < MAX_SAMPLES then e.samples + [SampleOf(r)] else e.samples)
  }

  lemma StrongestNext(refs: seq<Reference>, r: Reference)
    ensures Strongest(refs + [r]) == Stronger(Strongest(refs), r.confidence)
  {
    assert (refs + [r])[..|refs|] == refs;
  }

  lemma SummaryNext(refs: seq<Reference>, r: Reference)
    ensures ModuleSummary(refs + [r]) == Counted(ModuleSummary(refs), r)
  {
    StrongestNext(refs, r);
    hide Strongest;
    assert FirstSamples(refs + [r]) == Counted(ModuleSummary(refs), r).samples;
  }

  // ------------------------------------------------------------------------ the maps

  ghost predicate FilesSummarize(c: Setting, refs: seq<Reference>, edges: map<Pair, FileEdge>) {
    forall key: Pair {:trigger FileLinks(c, refs, key)} ::
      && (key in edges <==> FileLinks(c, refs, key) != [])
      && (key in edges ==> edges[key] == FileSummary(FileLinks(c, refs, key)))
  }

  ghost predicate ModulesSummarize(c: Setting, refs: seq<Reference>, edges: map<Pair, ModuleEdge>) {
    forall key: Pair {:trigger ModuleLinks(c, refs, key)} ::
      && (key in edges <==> ModuleLinks(c, refs, key) != [])
      && (key in edges ==> edges[key] == ModuleSummary(ModuleLinks(c, refs, key)))
  }

  function PutFile(edges: map<Pair, FileEdge>, r: Reference): map<Pair, FileEdge> {
    var key := (r.from, r.to);
    var entry := if key in edges then edges[key]
                 else FileEdge(r.line, r.kind, r.confidence, Truncate(r.specifier, MAX_SPECIFIER_CHARS));
    edges[key := entry.(confidence := Stronger(entry.confidence, r.confidence))]
  }

  function PutModule(edges: map<Pair, ModuleEdge>, key: Pair, r: Reference): map<Pair, ModuleEdge> {
    edges[key := Counted(if key in edges then edges[key] else ModuleEdge(0, Unavailable, []), r)]
  }

  lemma FileAdded(c: Setting, refs: seq<Reference>, edges: map<Pair, FileEdge>, r: Reference)
    requires FilesSummarize(c, refs, edges) && LinksFiles(c, r, (r.from, r.to))
    ensures FilesSummarize(c, refs + [r], PutFile(edges, r))
  {
    var more := PutFile(edges, r);
    forall key: Pair
      ensures (key in more <==> FileLinks(c, refs + [r], key) != [])
      ensures key in more ==>
        FileLinks(c, refs + [r], key) != [] && more[key] == FileSummary(FileLinks(c, refs + [r], key))
    {
      LinksNext(c, refs, r, key);
      hide FileLinks, Strongest;
      FileSummaryNext(FileLinks(c, refs, key), r);
      NothingAfter(FileLinks(c, refs, key));
    }
  }

  lemma FileSummaryNext(links: seq<Reference>, r: Reference)
    ensures FileSummary(links + [r]) == (
      if links == [] then FileEdge(r.line, r.kind, r.confidence, Truncate(r.specifier, MAX_SPECIFIER_CHARS))
      else FileSummary(links).(confidence := Stronger(FileSummary(links).confidence, r.confidence)))
  {
    StrongestNext(links, r);
    assert Strongest([]) == Unavailable;
  }

  lemma ModuleAdded(c: Setting, refs: seq<Reference>, edges: map<Pair, ModuleEdge>, r: Reference, pair: Pair)
    requires ModulesSummarize(c, refs, edges) && LinksModules(c, r, pair)
    ensures ModulesSummarize(c, refs + [r], PutModule(edges, pair, r))
  {
    var more := PutModule(edges, pair, r);
    forall key: Pair
      ensures (key in more <==> ModuleLinks(c, refs + [r], key) != [])
      ensures key in more ==> more[key] == ModuleSummary(ModuleLinks(c, refs + [r], key))
    {
      LinksNext(c, refs, r, key);
      var links := ModuleLinks(c, refs, key);
      SummaryNext(links, r);
      NothingSummarized();
      hide ModuleLinks, ModuleSummary;
      NothingAfter(links);
    }
  }

  lemma NothingSummarized()
    ensures ModuleSummary([]) == ModuleEdge(0, Unavailable, [])
  {
  }

  /** The maps after one more reference. */
  ghost function FilesAfter(c: Setting, edges: map<Pair, FileEdge>, r: Reference): map<Pair, FileEdge> {
    if LinksFiles(c, r, (r.from, r.to)) then PutFile(edges, r) else edges
  }

  ghost function ModulesAfter(c: Setting, edges: map<Pair, ModuleEdge>, r: Reference): map<Pair, ModuleEdge> {
    if Placed(c, r) && LinksModules(c, r, (c.modules[r.from].value, c.modules[r.to].value))
    then PutModule(edges, (c.modules[r.from].value, c.modules[r.to].value), r) else edges
  }

  lemma FilesNext(c: Setting, refs: seq<Reference>, edges: map<Pair, FileEdge>, r: Reference)
    requires FilesSummarize(c, refs, edges)
    ensures FilesSummarize(c, refs + [r], FilesAfter(c, edges, r))
  {
    if LinksFiles(c, r, (r.from, r.to)) {
      FileAdded(c, refs, edges, r);
    } else {
      forall key: Pair ensures FileLinks(c, refs + [r], key) == FileLinks(c, refs, key) {
        LinksNext(c, refs, r, key);
        NothingAfter(FileLinks(c, refs, key));
      }
    }
  }

  lemma ModulesNext(c: Setting, refs: seq<Reference>, edges: map<Pair, ModuleEdge>, r: Reference)
    requires ModulesSummarize(c, refs, edges)
    ensures ModulesSummarize(c, refs + [r], ModulesAfter(c, edges, r))
  {
    if Placed(c, r) && LinksModules(c, r, (c.modules[r.from].value, c.modules[r.to].value)) {
      ModuleAdded(c, refs, edges, r, (c.modules[r.from].value, c.modules[r.to].value));
    } else {
      forall key: Pair ensures ModuleLinks(c, refs + [r], key) == ModuleLinks(c, refs, key) {
        LinksNext(c, refs, r, key);
        NothingAfter(ModuleLinks(c, refs, key));
      }
    }
  }

  class Builder {
    const setting: Setting
    var fileEdges: map<Pair, FileEdge>
    var moduleEdges: map<Pair, ModuleEdge>
    var crossEdges: seq<CrossEdge>
    ghost var added: seq<Reference>

    /** The maps are the summaries of everything added. */
    ghost predicate Valid()
      reads this
    {
      && |setting.modules| == |setting.languages|
      && FilesSummarize(setting, added, fileEdges)
      && ModulesSummarize(setting, added, moduleEdges)
      && crossEdges == Crossings(setting, added)
    }

    constructor (setting: Setting)
      requires |setting.modules| == |setting.languages|
      ensures Valid() && added == [] && this.setting == setting
    {
      this.setting := setting;
      fileEdges, moduleEdges, crossEdges, added := map[], map[], [], [];
    }

    method AddEdge(r: Reference)
      requires Valid() && InFiles(setting, r)
      modifies this
      ensures Valid() && added == old(added) + [r]
    {
      LinksNext(setting, added, r, (0, 0));
      FilesNext(setting, added, fileEdges, r);
      ModulesNext(setting, added, moduleEdges, r);
      NothingAfter(crossEdges);
      var files, modules := fileEdges, moduleEdges;
      hide FilesSummarize, ModulesSummarize, Crossings, PutFile, PutModule, FileLinks, ModuleLinks;
      if setting.modules[r.from].Some? && setting.modules[r.to].Some? {
        if !r.packageLevel {
          files := PutFile(files, r);
        }
        var pair := (setting.modules[r.from].value, setting.modules[r.to].value);
        if r.kind != ModuleDeclaration && pair.0 != pair.1 {
          modules := PutModule(modules, pair, r);
        }
      }
      assert files == FilesAfter(setting, fileEdges, r) && modules == ModulesAfter(setting, moduleEdges, r);
      hide FilesAfter, ModulesAfter, LinksFiles, LinksModules, Placed;
      var left, right := setting.languages[r.from], setting.languages[r.to];
      if !r.packageLevel && left.Some? && right.Some? && left.value != right.value {
        crossEdges := crossEdges + [CrossEdge(r.from, r.to, r.line, r.mechanism, r.confidence)];
      }
      fileEdges, moduleEdges, added := files, modules, added + [r];
    }

    /** The module pairs for the graph: those some reference links, each once. */
    method ModulePairs(count: nat) returns (edges: seq<Pair>)
      requires Valid()
      requires forall f :: 0 <= f < |setting.modules| && setting.modules[f].Some? ==> setting.modules[f].value < count
      ensures ModuleEdges(count, edges)
      ensures forall key: Pair :: key in edges <==> ModuleLinks(setting, added, key) != []
    {
      edges := [];
      var pending := moduleEdges.Keys;
      while pending != {}
        invariant pending <= moduleEdges.Keys && NoDuplicates(edges)
        invariant forall key :: key in edges <==> key in moduleEdges.Keys && key !in pending
        decreases |pending|
      {
        var key :| key in pending;
        NoDuplicatesNext(edges, key);
        edges, pending := edges + [key], pending - {key};
      }
      forall e | e in edges ensures e.0 < count && e.1 < count && e.0 != e.1 {
        assert ModuleLinks(setting, added, e) != [];
        LinkedModules(setting, added, e);
      }
    }
  }

  lemma {:induction false} LinkedModules(c: Setting, refs: seq<Reference>, key: Pair)
    requires ModuleLinks(c, refs, key) != []
    ensures exists r :: r in refs && LinksModules(c, r, key)
  {
    var front, last := refs[..|refs| - 1], refs[|refs| - 1];
    assert refs == front + [last];
    if ModuleLinks(c, front, key) != [] {
      LinkedModules(c, front, key);
      var r :| r in front && LinksModules(c, r, key);
      assert r in refs;
    } else {
      assert last in refs && LinksModules(c, last, key);
    }
  }
}
